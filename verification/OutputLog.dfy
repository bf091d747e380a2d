/**
 The program output pane: the last lines of everything pushed, and a window over them.
 */
module OutputLog {
  import opened Wrappers

  const MAX_LINES := 1000
  const MAX_LINE_CHARS := 4096
  const MAX_SIZE: nat := 0xFFFF_FFFF_FFFF_FFFF
  const TRUNCATED := " \U{2026}[line truncated]"

  // Cutting text into lines

  /** The pieces between newlines; a final newline ends the last piece. */
  function Split(text: string): (lines: seq<string>)
  {
    SplitFrom(text, "")
  }

  /** The same with the part of the current line already read. */
  function SplitFrom(text: string, part: string): (lines: seq<string>)
    decreases |text|
  {
    if text == "" then (if part == "" then [] else [part])
    else if text[0] == '\n' then [part] + SplitFrom(text[1..], "")
    else SplitFrom(text[1..], part + [text[0]])
  }

  ghost predicate Ended(text: string)
  {
    text == "" || text[|text| - 1] == '\n'
  }

  /** Cutting after a newline does not change the lines. */
  lemma {:induction false} SplitEnded(a: string, b: string, part: string)
    requires Ended(a) && (a == "" ==> part == "")
    ensures SplitFrom(a + b, part) == SplitFrom(a, part) + SplitFrom(b, "")
    decreases |a|
  {
    if a == "" {
      assert a + b == b;
    } else {
      assert (a + b)[1..] == a[1..] + b;
      if a[0] == '\n' {
        SplitEnded(a[1..], b, "");
        assert [part] + (SplitFrom(a[1..], "") + SplitFrom(b, "")) == ([part] + SplitFrom(a[1..], "")) + SplitFrom(b, "");
      } else {
        SplitEnded(a[1..], b, part + [a[0]]);
      }
    }
  }

  lemma {:induction false} SplitCountPart(text: string, part: string, other: string)
    requires text != "" || part != ""
    requires other != "" || text != ""
    ensures |SplitFrom(text, other)| == |SplitFrom(text, part)|
    decreases |text|
  {
    if text != "" && text[0] != '\n' {
      SplitCountPart(text[1..], part + [text[0]], other + [text[0]]);
    }
  }

  /** Cutting inside a line makes one line more. */
  lemma {:induction false} SplitOpen(a: string, b: string, part: string)
    requires !Ended(a) && b != ""
    ensures |SplitFrom(a + b, part)| + 1 == |SplitFrom(a, part)| + |SplitFrom(b, "")|
    decreases |a|
  {
    assert (a + b)[1..] == a[1..] + b;
    if a[0] == '\n' {
      SplitOpen(a[1..], b, "");
    } else if |a| == 1 {
      assert a[1..] + b == b && a[1..] == "";
      SplitCountPart(b, "", part + [a[0]]);
    } else {
      SplitOpen(a[1..], b, part + [a[0]]);
    }
  }

  /** Two texts give the lines of their concatenation iff the first ends a line or one is empty. */
  lemma SplitConcatIff(a: string, b: string)
    ensures Split(a + b) == Split(a) + Split(b) <==> Ended(a) || b == ""
  {
    if Ended(a) {
      SplitEnded(a, b, "");
    } else if b == "" {
      assert a + b == a;
    } else {
      SplitOpen(a, b, "");
    }
  }

  /** A word pushed in two pieces is two lines. */
  lemma CutWord()
    ensures Split("a" + "b") != Split("a") + Split("b")
  {
    SplitConcatIff("a", "b");
  }

  ghost function Unlines(lines: seq<string>): (text: string)
  {
    if lines == [] then "" else lines[0] + "\n" + Unlines(lines[1..])
  }

  ghost predicate Clean(lines: seq<string>)
  {
    forall i :: 0 <= i < |lines| ==> '\n' !in lines[i]
  }

  lemma {:induction false} SplitLine(line: string, rest: string, part: string)
    requires '\n' !in line
    ensures SplitFrom(line + "\n" + rest, part) == [part + line] + SplitFrom(rest, "")
    decreases |line|
  {
    var text := line + "\n" + rest;
    if line == "" {
      assert text[1..] == rest && part + line == part;
    } else {
      assert text[1..] == line[1..] + "\n" + rest;
      SplitLine(line[1..], rest, part + [line[0]]);
      assert part + [line[0]] + line[1..] == part + line;
    }
  }

  /** Lines ended by newlines come back as they were. */
  lemma {:induction false} SplitUnlines(lines: seq<string>)
    requires Clean(lines)
    ensures Split(Unlines(lines)) == lines
  {
    if lines != [] {
      assert '\n' !in lines[0];
      assert Clean(lines[1..]) by {
        assert forall i :: 0 <= i < |lines| - 1 ==> lines[1..][i] == lines[i + 1];
      }
      SplitUnlines(lines[1..]);
      SplitLine(lines[0], Unlines(lines[1..]), "");
      assert "" + lines[0] == lines[0];
    }
  }

  // What is kept of a line

  predicate IsControl(c: char)
  {
    c as int < 0x20 || 0x7F <= c as int < 0xA0
  }

  function Shown(c: char): (r: char)
    ensures !IsControl(r)
  {
    if c == '\t' then ' ' else if IsControl(c) then '\U{FFFD}' else c
  }

  function TerminalText(text: string): (r: string)
    ensures |r| == |text| && forall i :: 0 <= i < |r| ==> r[i] == Shown(text[i])
  {
    seq(|text|, i requires 0 <= i < |text| => Shown(text[i]))
  }

  function Processed(line: string): (r: string)
    ensures |r| <= MAX_LINE_CHARS + |TRUNCATED|
    ensures forall c :: c in r ==> !IsControl(c)
  {
    if |line| <= MAX_LINE_CHARS then TerminalText(line)
    else TerminalText(line[..MAX_LINE_CHARS]) + TRUNCATED
  }

  function ProcessedAll(lines: seq<string>): (r: seq<string>)
  {
    seq(|lines|, i requires 0 <= i < |lines| => Processed(lines[i]))
  }

  /** The last at most `MAX_LINES` of everything pushed. */
  ghost function Tail(pushed: seq<string>): (r: seq<string>)
    ensures |r| == Min(|pushed|, MAX_LINES)
  {
    pushed[|pushed| - Min(|pushed|, MAX_LINES)..]
  }

  lemma TailAppend(pushed: seq<string>, line: string)
    ensures Tail(pushed + [line]) ==
            (if |Tail(pushed)| == MAX_LINES then Tail(pushed)[1..] else Tail(pushed)) + [line]
  {
  }

  /** How far a window of that size can move over the content. */
  function Highest(lines: nat, height: nat): (m: nat)
  {
    if lines < height then 0 else lines - height
  }

  method Widest(lines: seq<string>, cells: string -> nat) returns (w: nat)
    ensures forall i :: 0 <= i < |lines| ==> cells(lines[i]) <= w
    ensures w > 0 ==> exists i :: 0 <= i < |lines| && cells(lines[i]) == w
  {
    w := 0;
    for i := 0 to |lines|
      invariant forall j :: 0 <= j < i ==> cells(lines[j]) <= w
      invariant w > 0 ==> exists j :: 0 <= j < i && cells(lines[j]) == w
    {
      if cells(lines[i]) > w {
        w := cells(lines[i]);
      }
    }
  }

  class OutputBuffer {
    var lines: seq<string>
    var top: nat
    var height: nat
    var following: bool
    var dropped: nat
    var column: nat
    var maximum: nat
    const cells: string -> nat
    ghost var pushed: seq<string>

    ghost function Evicted(): (n: int)
      reads this
    {
      |pushed| - |lines|
    }

    /** The lines are the tail of everything pushed; the count of the others saturates. */
    ghost predicate Kept()
      reads this
    {
      lines == Tail(pushed) && height >= 1 && dropped == Min(Evicted(), MAX_SIZE)
    }

    ghost predicate Valid()
      reads this
    {
      && Kept()
      && top <= Highest(|lines|, height)
      && (following ==> top == Highest(|lines|, height))
      && column <= maximum
    }

    /** The number, in everything pushed, of the first visible line. */
    ghost function First(): (n: int)
      reads this
    {
      Evicted() + top
    }

    constructor (cells: string -> nat)
      ensures Valid() && pushed == [] && following && this.cells == cells
    {
      lines, top, height, following, dropped, pushed := [], 0, 1, true, 0, [];
      column, maximum, this.cells := 0, 0, cells;
    }

    method Append(line: string)
      requires Kept()
      modifies this`lines, this`top, this`dropped, this`pushed
      ensures Kept() && pushed == old(pushed) + [line] && |lines| >= |old(lines)|
      ensures First() == Max(old(First()), Evicted()) && top <= old(top)
    {
      TailAppend(pushed, line);
      if |lines| == MAX_LINES {
        lines := lines[1..];
        top := if top == 0 then 0 else top - 1;
        dropped := if dropped == MAX_SIZE then MAX_SIZE else dropped + 1;
      }
      lines := lines + [line];
      pushed := pushed + [line];
    }

    method Clamp()
      requires Kept() && column <= maximum
      modifies this`top
      ensures Valid()
      ensures !following ==> top == Min(old(top), Highest(|lines|, height))
    {
      var maximum := Highest(|lines|, height);
      top := if following then maximum else Min(top, maximum);
    }

    /** A view that does not follow keeps its first visible line until that line is evicted. */
    method Push(text: string)
      requires Valid()
      modifies this`lines, this`top, this`dropped, this`pushed
      ensures Valid() && pushed == old(pushed) + ProcessedAll(Split(text))
      ensures !following ==> First() == Max(old(First()), Evicted())
    {
      AppendAll(ProcessedAll(Split(text)));
      Clamp();
    }

    method AppendAll(more: seq<string>)
      requires Kept()
      modifies this`lines, this`top, this`dropped, this`pushed
      ensures Kept() && pushed == old(pushed) + more && |lines| >= |old(lines)|
      ensures First() == Max(old(First()), Evicted()) && top <= old(top)
    {
      var i := 0;
      while i < |more|
        invariant i <= |more| && Kept() && pushed == old(pushed) + more[..i]
        invariant |lines| >= |old(lines)| && top <= old(top)
        invariant First() == Max(old(First()), Evicted())
      {
        Append(more[i]);
        i := i + 1;
      }
    }

    /** The window fits its new size: rows as far as there are lines, columns as far as the widest line. */
    method Fit(width: nat, rows: nat)
      requires Valid()
      modifies this`top, this`height, this`column, this`maximum
      ensures Valid() && height == Max(rows, 1)
      ensures !following ==> top == Min(old(top), Highest(|lines|, height))
      ensures column == Min(old(column), maximum)
      ensures forall i :: 0 <= i < |lines| ==> cells(lines[i]) <= maximum + Max(width, 1)
      ensures maximum > 0 ==> exists i :: 0 <= i < |lines| && cells(lines[i]) == maximum + Max(width, 1)
    {
      height := if rows < 1 then 1 else rows;
      Clamp();
      var widest := Widest(lines, cells);
      maximum := Highest(widest, if width < 1 then 1 else width);
      column := Min(column, maximum);
    }

    /** Columns move by exactly `delta` where that stays in range, else up to the edge in its way. */
    method ScrollHorizontal(delta: int)
      requires Valid()
      modifies this`column
      ensures Valid()
      ensures 0 <= old(column) + delta <= maximum ==> column == old(column) + delta
      ensures old(column) + delta < 0 ==> column == 0 && delta < 0
      ensures old(column) + delta > maximum ==> column == maximum && delta > 0
    {
      column := Min(Max0(column + delta), maximum);
    }

    /** Scrolling moves as far as there are lines, and follows again only by reaching the end downwards. */
    method Scroll(delta: int)
      requires Valid()
      modifies this`top, this`following
      ensures Valid()
      ensures top == Min(Max0(old(top) + delta), Highest(|lines|, height))
      ensures following <==> delta > 0 && old(top) + delta >= Highest(|lines|, height)
    {
      var maximum := Highest(|lines|, height);
      top := Min(Max0(top + delta), maximum);
      following := delta > 0 && top == maximum;
    }

    method Follow()
      requires Valid()
      modifies this`top, this`following
      ensures Valid() && following
    {
      following := true;
      Clamp();
    }

    /** The window is a piece of everything pushed, and its very end when following. */
    method VisibleLines() returns (r: seq<string>)
      requires Valid()
      ensures r == pushed[First()..Min(First() + height, |pushed|)]
      ensures following ==> r == pushed[|pushed| - Min(Min(height, MAX_LINES), |pushed|)..]
    {
      var end := Min(top + height, |lines|);
      r := lines[top..end];
      assert r == pushed[Evicted() + top..Evicted() + end];
    }
  }

  function Max0(n: int): (r: nat)
  {
    if n < 0 then 0 else n
  }
}
