/**
 The text of breakpoint options: what a loop of prefix tests makes of it, against the words it was written from.
 */
module OptionParser {
  import opened Wrappers
  import opened Decimals
  import opened Sequences

  const MAX_COUNT: nat := 0xFFFF_FFFF_FFFF_FFFF

  datatype Options = Options(temporary: bool, hardware: bool, ignoreCount: Option<nat>, condition: Option<string>)

  datatype Error = CountTwice | CountNotANumber | CountTooLarge | NoName

  const DEFAULT := Options(false, false, None, None)

  const TEMPORARY := "--temporary"
  const T := "-t"
  const HARDWARE := "--hardware"
  const H := "-h"
  const IGNORE := "--ignore-count"
  const CONDITION := "--condition"
  const C := "-c"
  const IF := "if"

  // White space

  /** The characters with the Unicode property White_Space. */
  predicate IsSpace(c: char)
  {
    var n := c as int;
    9 <= n <= 13 || n == 32 || n == 0x85 || n == 0xA0 || n == 0x1680 || 0x2000 <= n <= 0x200A ||
    n == 0x2028 || n == 0x2029 || n == 0x202F || n == 0x205F || n == 0x3000
  }

  predicate AllSpace(s: string)
  {
    forall i :: 0 <= i < |s| ==> IsSpace(s[i])
  }

  function TrimStart(s: string): (r: string)
    ensures |r| <= |s| && (r != "" ==> !IsSpace(r[0]))
  {
    if s != "" && IsSpace(s[0]) then TrimStart(s[1..]) else s
  }

  function TrimEnd(s: string): (r: string)
    ensures |r| <= |s| && (r != "" ==> !IsSpace(r[|r| - 1]))
  {
    if s != "" && IsSpace(s[|s| - 1]) then TrimEnd(s[..|s| - 1]) else s
  }

  function Trim(s: string): (r: string)
    ensures |r| <= |s|
  {
    TrimEnd(TrimStart(s))
  }

  ghost predicate Trimmed(s: string)
  {
    s == "" || (!IsSpace(s[0]) && !IsSpace(s[|s| - 1]))
  }

  lemma {:induction false} TrimStartGap(gap: string, s: string)
    requires AllSpace(gap) && (s == "" || !IsSpace(s[0]))
    ensures TrimStart(gap + s) == s
  {
    if gap == "" {
      assert gap + s == s;
    } else {
      assert (gap + s)[1..] == gap[1..] + s;
      TrimStartGap(gap[1..], s);
    }
  }

  lemma {:induction false} TrimEndGap(s: string, gap: string)
    requires AllSpace(gap) && (s == "" || !IsSpace(s[|s| - 1]))
    ensures TrimEnd(s + gap) == s
  {
    if gap == "" {
      assert s + gap == s;
    } else {
      assert (s + gap)[..|s + gap| - 1] == s + gap[..|gap| - 1];
      TrimEndGap(s, gap[..|gap| - 1]);
    }
  }

  lemma TrimAround(lead: string, s: string, trail: string)
    requires AllSpace(lead) && AllSpace(trail) && Trimmed(s)
    ensures Trim(lead + s + trail) == s
  {
    if s == "" {
      assert lead + s + trail == (lead + trail) + "";
      TrimStartGap(lead + trail, "");
    } else {
      assert lead + s + trail == lead + (s + trail);
      TrimStartGap(lead, s + trail);
      TrimEndGap(s, trail);
    }
  }

  // Words

  predicate Starts(s: string, word: string)
  {
    |word| <= |s| && s[..|word|] == word
  }

  predicate Boundary(rest: string)
  {
    rest == "" || IsSpace(rest[0])
  }

  function StripWord(s: string, word: string): (r: Option<string>)
    ensures r.Some? ==> |r.value| + |word| == |s|
  {
    if Starts(s, word) && Boundary(s[|word|..]) then Some(s[|word|..]) else None
  }

  /** The long spelling is tried first; a longer word that merely starts with it is neither. */
  function StripEither(s: string, long: string, short: string): (r: Option<string>)
    ensures r.Some? ==> |r.value| + |short| <= |s| || |r.value| + |long| <= |s|
  {
    if Starts(s, long) then StripWord(s, long) else StripWord(s, short)
  }

  // The parser

  function FirstSpace(s: string): (e: nat)
    ensures e <= |s| && (e < |s| ==> IsSpace(s[e]))
    ensures forall i :: 0 <= i < e ==> !IsSpace(s[i])
  {
    FirstIndex(s, IsSpace)
  }

  /** What follows the ignore-count word: the count, and the text after it. */
  function Count(rest: string, o: Options): (r: Result<(string, Options), Error>)
    ensures r.Ok? ==> |r.value.0| <= |rest|
  {
    if o.ignoreCount.Some? then Err(CountTwice)
    else
      var text := TrimStart(rest);
      var digits := text[..FirstSpace(text)];
      if digits == "" || !AllDigits(digits) then Err(CountNotANumber)
      else if ValueOf(digits) > MAX_COUNT then Err(CountTooLarge)
      else Ok((TrimStart(text[FirstSpace(text)..]), o.(ignoreCount := Some(ValueOf(digits)))))
  }

  function WithCondition(s: string, o: Options): (r: Options)
  {
    var stripped := if Starts(s, CONDITION) then StripWord(s, CONDITION) else StripEither(s, C, IF);
    var text := Trim(if stripped.Some? then stripped.value else s);
    if text == "" then o else o.(condition := Some(text))
  }

  function ParseFrom(s: string, o: Options): (r: Result<Options, Error>)
    decreases |s|
  {
    var t := StripEither(s, TEMPORARY, T);
    if t.Some? then ParseFrom(TrimStart(t.value), o.(temporary := true))
    else
      var h := StripEither(s, HARDWARE, H);
      if h.Some? then ParseFrom(TrimStart(h.value), o.(hardware := true))
      else
        var i := StripWord(s, IGNORE);
        if i.Some? then
          match Count(i.value, o)
          case Ok((rest, next)) => ParseFrom(rest, next)
          case Err(e) => Err(e)
        else Ok(WithCondition(s, o))
  }

  function Parse(input: string): (r: Result<Options, Error>)
  {
    ParseFrom(Trim(input), DEFAULT)
  }

  /** The loop of the source; it ends because the remaining text shrinks. */
  method ParseOptions(input: string) returns (r: Result<Options, Error>)
    ensures r == Parse(input)
  {
    var remaining, options := Trim(input), DEFAULT;
    while true
      invariant ParseFrom(remaining, options) == Parse(input)
      decreases |remaining|
    {
      var t := StripEither(remaining, TEMPORARY, T);
      var h := StripEither(remaining, HARDWARE, H);
      var i := StripWord(remaining, IGNORE);
      if t.Some? {
        options := options.(temporary := true);
        remaining := TrimStart(t.value);
      } else if h.Some? {
        options := options.(hardware := true);
        remaining := TrimStart(h.value);
      } else if i.Some? {
        var counted := Count(i.value, options);
        if counted.Err? {
          return Err(counted.error);
        }
        remaining, options := counted.value.0, counted.value.1;
      } else {
        return Ok(WithCondition(remaining, options));
      }
    }
  }
}
