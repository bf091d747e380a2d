/**
 Clipping styled text by terminal cells. A glyph is a grapheme cluster with its width in cells.
 */
module CellClip {
  import Sequences

  datatype Glyph = Glyph(symbol: string, cells: nat)

  datatype Span = Span(style: nat, text: seq<Glyph>)

  const SPACE := Glyph(" ", 1)
  const ELLIPSIS := Glyph("\U{2026}", 1)

  function Width(gs: seq<Glyph>): (w: nat)
  {
    if gs == [] then 0 else Width(gs[..|gs| - 1]) + gs[|gs| - 1].cells
  }

  lemma {:induction false} WidthConcat(a: seq<Glyph>, b: seq<Glyph>)
    ensures Width(a + b) == Width(a) + Width(b)
    decreases |b|
  {
    if b == [] {
      assert a + b == a;
    } else {
      assert (a + b)[..|a + b| - 1] == a + b[..|b| - 1];
      WidthConcat(a, b[..|b| - 1]);
    }
  }

  lemma WidthHead(gs: seq<Glyph>)
    requires gs != []
    ensures Width(gs) == gs[0].cells + Width(gs[1..])
  {
    assert gs == [gs[0]] + gs[1..] && [gs[0]][..0] == [];
    WidthConcat([gs[0]], gs[1..]);
  }

  // Clipping a text

  function Spaces(n: nat): (r: seq<Glyph>)
    ensures |r| == n && forall i :: 0 <= i < n ==> r[i] == SPACE
  {
    seq(n, _ => SPACE)
  }

  lemma {:induction false} SpacesWidth(n: nat)
    ensures Width(Spaces(n)) == n
  {
    if n > 0 {
      SpacesWidth(n - 1);
      assert Spaces(n)[..n - 1] == Spaces(n - 1);
    }
  }

  /** Drop `c` cells; a glyph cut through leaves its remaining cells blank. */
  function Clip(gs: seq<Glyph>, c: nat): (r: seq<Glyph>)
  {
    if c == 0 || gs == [] then gs
    else if gs[0].cells <= c then Clip(gs[1..], c - gs[0].cells)
    else Spaces(gs[0].cells - c) + gs[1..]
  }

  /** Exactly the clipped cells are gone. */
  lemma {:induction false} ClipWidth(gs: seq<Glyph>, c: nat)
    ensures Width(Clip(gs, c)) == if Width(gs) < c then 0 else Width(gs) - c
  {
    if c > 0 && gs != [] {
      WidthHead(gs);
      if gs[0].cells <= c {
        ClipWidth(gs[1..], c - gs[0].cells);
      } else {
        SpacesWidth(gs[0].cells - c);
        WidthConcat(Spaces(gs[0].cells - c), gs[1..]);
      }
    }
  }

  lemma {:induction false} ClipSpaces(n: nat, rest: seq<Glyph>, c: nat)
    ensures Clip(Spaces(n) + rest, c) == if c < n then Spaces(n - c) + rest else Clip(rest, c - n)
  {
    if n == 0 {
      assert Spaces(n) + rest == rest;
    } else if c > 0 {
      assert (Spaces(n) + rest)[1..] == Spaces(n - 1) + rest;
      ClipSpaces(n - 1, rest, c - 1);
    }
  }

  /** Clipping twice is clipping by the sum. */
  lemma {:induction false} ClipTwice(gs: seq<Glyph>, a: nat, b: nat)
    ensures Clip(Clip(gs, a), b) == Clip(gs, a + b)
  {
    if a > 0 && gs != [] {
      if gs[0].cells <= a {
        ClipTwice(gs[1..], a - gs[0].cells, b);
      } else {
        ClipSpaces(gs[0].cells - a, gs[1..], b);
      }
    }
  }

  lemma {:induction false} ClipConcat(a: seq<Glyph>, b: seq<Glyph>, c: nat)
    ensures Clip(a + b, c) == if c <= Width(a) then Clip(a, c) + b else Clip(b, c - Width(a))
  {
    if a == [] {
      assert a + b == b;
    } else if c > 0 {
      WidthHead(a);
      ClipHead(a[0], a[1..] + b, c);
      assert a + b == [a[0]] + (a[1..] + b);
      if a[0].cells <= c {
        ClipConcat(a[1..], b, c - a[0].cells);
      } else {
        Sequences.Associates(Spaces(a[0].cells - c), a[1..], b);
      }
    }
  }

  lemma ClipHead(g: Glyph, rest: seq<Glyph>, c: nat)
    requires c > 0
    ensures Clip([g] + rest, c) == if g.cells <= c then Clip(rest, c - g.cells) else Spaces(g.cells - c) + rest
  {
    assert ([g] + rest)[1..] == rest;
  }

  /** The clip as computed: one pass with the running position. */
  method HorizontalText(gs: seq<Glyph>, column: nat) returns (output: seq<Glyph>)
    ensures output == Clip(gs, column)
  {
    if column == 0 {
      return gs;
    }
    output := [];
    var position, i := 0, 0;
    while i < |gs|
      invariant i <= |gs| && position == Width(gs[..i])
      invariant position < column ==> output == [] && Clip(gs, column) == Clip(gs[i..], column - position)
      invariant position >= column ==> output + gs[i..] == Clip(gs, column)
    {
      assert gs[..i + 1][..i] == gs[..i] && gs[i..] == [gs[i]] + gs[i + 1..] && gs[i..][1..] == gs[i + 1..];
      var end := position + gs[i].cells;
      if position >= column {
        output := output + [gs[i]];
      } else if end > column {
        output := output + Spaces(end - column);
      }
      position := end;
      i := i + 1;
    }
  }

  // Clipping a line of spans

  function Flat(spans: seq<Span>): (gs: seq<Glyph>)
  {
    if spans == [] then [] else spans[0].text + Flat(spans[1..])
  }

  /** A span within the clipped cells goes as a whole; the others keep their style. */
  function ClipLine(spans: seq<Span>, c: nat): (r: seq<Span>)
  {
    if spans == [] then []
    else
      var w := Width(spans[0].text);
      if c >= w then ClipLine(spans[1..], c - w)
      else [Span(spans[0].style, Clip(spans[0].text, c))] + ClipLine(spans[1..], 0)
  }

  /** The glyphs a span-wise clip loses: zero-width ones at the very edge of a span that goes. */
  function Lost(spans: seq<Span>, c: nat): (n: nat)
  {
    if spans == [] then 0
    else
      var w := Width(spans[0].text);
      if c > w then Lost(spans[1..], c - w)
      else if c == w then |Clip(spans[0].text, c)| + Lost(spans[1..], 0)
      else Lost(spans[1..], 0)
  }

  lemma {:induction false} NothingLostAtZero(spans: seq<Span>)
    requires Lost(spans, 0) == 0
    ensures Flat(ClipLine(spans, 0)) == Flat(spans)
  {
    if spans != [] {
      NothingLostAtZero(spans[1..]);
    }
  }

  lemma {:induction false} NothingLost(spans: seq<Span>, c: nat)
    requires Lost(spans, c) == 0
    ensures Flat(ClipLine(spans, c)) == Clip(Flat(spans), c)
  {
    if spans != [] {
      var text, rest := spans[0].text, spans[1..];
      var w := Width(text);
      ClipConcat(text, Flat(rest), c);
      if c > w {
        NothingLost(rest, c - w);
      } else {
        NothingLostAtZero(rest);
      }
    }
  }

  lemma FlatOne(span: Span)
    ensures Flat([span]) == span.text
  {
    assert [span][1..] == [];
    assert span.text + Flat([]) == span.text;
  }

  lemma {:induction false} LostCount(spans: seq<Span>, c: nat)
    ensures |Flat(ClipLine(spans, c))| + Lost(spans, c) == |Clip(Flat(spans), c)|
  {
    if spans != [] {
      var text, rest := spans[0].text, spans[1..];
      var w := Width(text);
      ClipConcat(text, Flat(rest), c);
      if c > w {
        LostCount(rest, c - w);
      } else {
        LostCount(rest, 0);
      }
    }
  }

  lemma {:induction false} ClipWholeIff(gs: seq<Glyph>)
    ensures Clip(gs, Width(gs)) == [] <==> gs == [] || gs[|gs| - 1].cells > 0
  {
    if gs != [] {
      WidthHead(gs);
      if Width(gs) == 0 {
        assert gs[|gs| - 1].cells == 0;
      } else {
        ClipWholeIff(gs[1..]);
        if |gs| > 1 {
          assert gs[1..][|gs| - 2] == gs[|gs| - 1];
        }
      }
    }
  }

  /** Where the clipped cells end exactly with a span, that span does not end in a zero-width glyph. */
  ghost predicate CleanEdge(spans: seq<Span>, c: nat)
  {
    spans == [] ||
    var w := Width(spans[0].text);
    if c > w then CleanEdge(spans[1..], c - w)
    else (c == w && spans[0].text != [] ==> spans[0].text[|spans[0].text| - 1].cells > 0) && CleanEdge(spans[1..], 0)
  }

  lemma {:induction false} LostIff(spans: seq<Span>, c: nat)
    ensures Lost(spans, c) == 0 <==> CleanEdge(spans, c)
  {
    if spans != [] {
      ClipWholeIff(spans[0].text);
      var w := Width(spans[0].text);
      LostIff(spans[1..], if c > w then c - w else 0);
    }
  }

  /** Clipping span by span is clipping the whole text iff no zero-width glyph sits on the edge. */
  lemma LineClipIff(spans: seq<Span>, c: nat)
    ensures Flat(ClipLine(spans, c)) == Clip(Flat(spans), c) <==> CleanEdge(spans, c)
  {
    LostIff(spans, c);
    LostCount(spans, c);
    if Lost(spans, c) == 0 {
      NothingLost(spans, c);
    }
  }

  /** An accent of no width after the last clipped letter stays in the text and goes with the span. */
  lemma AccentLost()
    ensures var spans := [Span(0, [Glyph("e", 1), Glyph("\U{301}", 0)])];
            Flat(ClipLine(spans, 1)) != Clip(Flat(spans), 1)
  {
    var text := [Glyph("e", 1), Glyph("\U{301}", 0)];
    assert text[..1] == [Glyph("e", 1)] && [Glyph("e", 1)][..0] == [];
    assert Width(text) == 1;
    LineClipIff([Span(0, text)], 1);
  }

  /** In particular whenever every glyph takes a cell. */
  lemma {:induction false} WideGlyphsAreClean(spans: seq<Span>, c: nat)
    requires forall s, g :: s in spans && g in s.text ==> g.cells > 0
    ensures CleanEdge(spans, c)
  {
    if spans != [] {
      var w := Width(spans[0].text);
      assert forall s :: s in spans[1..] ==> s in spans;
      assert spans[0] in spans;
      WideGlyphsAreClean(spans[1..], if c > w then c - w else 0);
    }
  }

  method HorizontalLine(spans: seq<Span>, column: nat) returns (r: seq<Span>)
    ensures r == ClipLine(spans, column)
  {
    r := [];
    var left, i := column, 0;
    while i < |spans|
      invariant i <= |spans| && r + ClipLine(spans[i..], left) == ClipLine(spans, column)
    {
      assert spans[i..][1..] == spans[i + 1..];
      var w := Width(spans[i].text);
      if left >= w {
        left := left - w;
      } else {
        var text := HorizontalText(spans[i].text, left);
        r := r + [Span(spans[i].style, text)];
        left := 0;
      }
      i := i + 1;
    }
  }

  // Truncating a line to a budget

  /** How many glyphs come before the first that would exceed the budget. */
  function Fitting(gs: seq<Glyph>, budget: nat, used: nat, from: nat): (k: nat)
    requires from <= |gs|
    ensures from <= k <= |gs|
    decreases |gs| - from
  {
    if from == |gs| || used + gs[from].cells > budget then from
    else Fitting(gs, budget, used + gs[from].cells, from + 1)
  }

  /** It is the longest prefix within the budget. */
  lemma {:induction false} FittingIsLongest(gs: seq<Glyph>, budget: nat, from: nat)
    requires from <= |gs| && Width(gs[..from]) <= budget
    ensures var k := Fitting(gs, budget, Width(gs[..from]), from);
            Width(gs[..k]) <= budget && forall m :: k < m <= |gs| ==> Width(gs[..m]) > budget
    decreases |gs| - from
  {
    if from < |gs| {
      assert gs[..from + 1][..from] == gs[..from];
      if Width(gs[..from]) + gs[from].cells <= budget {
        FittingIsLongest(gs, budget, from + 1);
      } else {
        forall m | from < m <= |gs| ensures Width(gs[..m]) > budget {
          PrefixNarrower(gs, from + 1, m);
        }
      }
    }
  }

  lemma {:induction false} FlatConcat(a: seq<Span>, b: seq<Span>)
    ensures Flat(a + b) == Flat(a) + Flat(b)
  {
    if a == [] {
      assert a + b == b;
    } else {
      assert (a + b)[1..] == a[1..] + b;
      FlatConcat(a[1..], b);
      assert a[0].text + (Flat(a[1..]) + Flat(b)) == Flat(a) + Flat(b);
    }
  }

  function Truncated(gs: seq<Glyph>, maximum: nat): (r: seq<Glyph>)
  {
    if Width(gs) <= maximum then gs
    else if maximum == 0 then []
    else gs[..Fitting(gs, maximum - 1, 0, 0)] + [ELLIPSIS]
  }

  /** A line is kept whole iff it fits; otherwise the longest prefix leaving a cell for the ellipsis. */
  lemma TruncatedFits(gs: seq<Glyph>, maximum: nat)
    ensures Width(Truncated(gs, maximum)) <= maximum
    ensures Width(gs) > maximum > 0 ==>
              var k := |Truncated(gs, maximum)| - 1;
              && 0 <= k < |gs| && Truncated(gs, maximum) == gs[..k] + [ELLIPSIS]
              && forall m :: 0 <= m <= |gs| ==> (Width(gs[..m]) < maximum <==> m <= k)
  {
    if Width(gs) > maximum > 0 {
      assert gs[..0] == [];
      FittingIsLongest(gs, maximum - 1, 0);
      var k := Fitting(gs, maximum - 1, 0, 0);
      assert gs[..|gs|] == gs;
      WidthConcat(gs[..k], [ELLIPSIS]);
      assert [ELLIPSIS][..0] == [];
      forall m | 0 <= m <= k ensures Width(gs[..m]) < maximum {
        PrefixNarrower(gs, m, k);
      }
    }
  }

  lemma PrefixNarrower(gs: seq<Glyph>, m: nat, k: nat)
    requires m <= k <= |gs|
    ensures Width(gs[..m]) <= Width(gs[..k])
  {
    assert gs[..k] == gs[..m] + gs[m..k];
    WidthConcat(gs[..m], gs[m..k]);
  }

  /** Reading on from a prefix that fits does not change where the fitting ends. */
  lemma {:induction false} FittingFrom(gs: seq<Glyph>, budget: nat, from: nat, m: nat)
    requires from <= m <= |gs| && Width(gs[..m]) <= budget
    ensures Fitting(gs, budget, Width(gs[..from]), from) == Fitting(gs, budget, Width(gs[..m]), m)
    decreases m - from
  {
    if from < m {
      assert gs[..from + 1][..from] == gs[..from];
      assert gs[..m] == gs[..from + 1] + gs[from + 1..m];
      WidthConcat(gs[..from + 1], gs[from + 1..m]);
      FittingFrom(gs, budget, from + 1, m);
    }
  }

  lemma StopsAt(gs: seq<Glyph>, budget: nat, m: nat)
    requires m < |gs| && Width(gs[..m]) <= budget < Width(gs[..m]) + gs[m].cells
    ensures Fitting(gs, budget, 0, 0) == m
  {
    assert gs[..0] == [];
    FittingFrom(gs, budget, 0, m);
  }

  method TakeFitting(text: seq<Glyph>, budget: nat, used: nat) returns (k: nat, total: nat)
    requires used <= budget
    ensures k <= |text| && total == used + Width(text[..k]) <= budget
    ensures k < |text| ==> total + text[k].cells > budget
  {
    k, total := 0, used;
    while k < |text| && total + text[k].cells <= budget
      invariant k <= |text| && total == used + Width(text[..k]) <= budget
    {
      assert text[..k + 1][..k] == text[..k];
      total := total + text[k].cells;
      k := k + 1;
    }
  }

  /** A cut in the middle of a span, placed in the whole text. */
  lemma CutInSpan(spans: seq<Span>, i: nat, k: nat, budget: nat)
    requires i < |spans| && k < |spans[i].text|
    requires var w := Width(Flat(spans[..i])) + Width(spans[i].text[..k]); w <= budget < w + spans[i].text[k].cells
    ensures Flat(spans)[..Fitting(Flat(spans), budget, 0, 0)] == Flat(spans[..i]) + spans[i].text[..k]
  {
    var before, text, gs := Flat(spans[..i]), spans[i].text, Flat(spans);
    assert spans == spans[..i] + spans[i..];
    FlatConcat(spans[..i], spans[i..]);
    var rest := Flat(spans[i..][1..]);
    assert gs == before + (text + rest);
    assert gs[..|before| + k] == before + text[..k];
    WidthConcat(before, text[..k]);
    StopsAt(gs, budget, |before| + k);
  }

  lemma FlatAppend(r: seq<Span>, span: Span)
    ensures Flat(r + [span]) == Flat(r) + span.text
  {
    FlatConcat(r, [span]);
    FlatOne(span);
  }

  lemma AppendWhole(r: seq<Span>, spans: seq<Span>, i: nat)
    requires i < |spans| && Flat(r) == Flat(spans[..i])
    ensures Flat(r + [spans[i]]) == Flat(spans[..i + 1])
    ensures Width(Flat(r + [spans[i]])) == Width(Flat(r)) + Width(spans[i].text)
  {
    FlatAppend(r, spans[i]);
    FlatAppend(spans[..i], spans[i]);
    assert spans[..i + 1] == spans[..i] + [spans[i]];
    WidthConcat(Flat(r), spans[i].text);
  }

  method FitSpan(spans: seq<Span>, i: nat, ghost r: seq<Span>, budget: nat, used: nat)
    returns (span: Span, total: nat, done: bool)
    requires i < |spans| && Flat(r) == Flat(spans[..i]) && used == Width(Flat(r)) <= budget
    ensures span.style == spans[i].style
    ensures !done ==> Flat(r + [span]) == Flat(spans[..i + 1]) && total == Width(Flat(r + [span])) <= budget
    ensures done ==> Flat(r + [span]) == Flat(spans)[..Fitting(Flat(spans), budget, 0, 0)]
  {
    var text := spans[i].text;
    var k;
    k, total := TakeFitting(text, budget, used);
    span := Span(spans[i].style, text[..k]);
    done := k < |text|;
    if done {
      CutInSpan(spans, i, k, budget);
      FlatAppend(r, span);
    } else {
      assert text[..k] == text;
      AppendWhole(r, spans, i);
    }
  }

  /** A line that fits is left alone; otherwise the text is truncated and every span before the last keeps its style. */
  ghost predicate IsTruncation(spans: seq<Span>, maximum: nat, r: seq<Span>)
  {
    && Flat(r) == Truncated(Flat(spans), maximum)
    && (Width(Flat(spans)) <= maximum ==> r == spans)
    && (Width(Flat(spans)) > maximum > 0 ==>
          0 < |r| <= |spans| + 1 && forall i :: 0 <= i < |r| - 1 ==> r[i].style == spans[i].style)
  }

  /** Truncation as computed, span by span. */
  method TruncateLine(spans: seq<Span>, maximum: nat) returns (r: seq<Span>)
    ensures IsTruncation(spans, maximum, r)
  {
    if Width(Flat(spans)) <= maximum {
      return spans;
    }
    if maximum == 0 {
      return [];
    }
    r := [];
    var used, i, done := 0, 0, false;
    while i < |spans| && !done
      invariant i <= |spans| && |r| == i && forall j :: 0 <= j < i ==> r[j].style == spans[j].style
      invariant !done ==> Flat(r) == Flat(spans[..i]) && used == Width(Flat(r)) <= maximum - 1
      invariant done ==> Flat(r) == Flat(spans)[..Fitting(Flat(spans), maximum - 1, 0, 0)]
    {
      var span;
      span, used, done := FitSpan(spans, i, r, maximum - 1, used);
      r := r + [span];
      i := i + 1;
    }
    assert spans[..|spans|] == spans;
    FlatAppend(r, Span(0, [ELLIPSIS]));
    r := r + [Span(0, [ELLIPSIS])];
  }
}
