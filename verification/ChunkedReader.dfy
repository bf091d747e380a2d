/**
 Debugger output arrives in arbitrary chunks; complete lines are parsed and the rest is held back.
 */
module ChunkedReader {
  import opened Wrappers

  newtype Byte = i: int | 0 <= i < 256

  type Bytes = seq<Byte>

  const NEWLINE: Byte := 10

  // Where the complete lines end

  ghost predicate Ended(s: Bytes)
  {
    s == [] || s[|s| - 1] == NEWLINE
  }

  /** One past the last newline. */
  function LastEnd(s: Bytes): (e: nat)
    ensures e <= |s| && (e > 0 ==> s[e - 1] == NEWLINE)
    ensures forall i :: e <= i < |s| ==> s[i] != NEWLINE
  {
    if s == [] then 0 else if s[|s| - 1] == NEWLINE then |s| else LastEnd(s[..|s| - 1])
  }

  function Complete(s: Bytes): (r: Bytes)
  {
    s[..LastEnd(s)]
  }

  function Rest(s: Bytes): (r: Bytes)
  {
    s[LastEnd(s)..]
  }

  /** Holding the rest back and joining it with what follows loses nothing. */
  lemma CutAnywhere(a: Bytes, b: Bytes)
    ensures Complete(a + b) == Complete(a) + Complete(Rest(a) + b)
    ensures Rest(a + b) == Rest(Rest(a) + b)
  {
    var d, e := LastEnd(a), LastEnd(Rest(a) + b);
    EndShifts(a, b, d, e);
    CutParts(a, b, d, e);
  }

  lemma CutParts(a: Bytes, b: Bytes, d: nat, e: nat)
    requires d <= |a| && e <= |a[d..] + b|
    ensures (a + b)[..d + e] == a[..d] + (a[d..] + b)[..e]
    ensures (a + b)[d + e..] == (a[d..] + b)[e..]
  {
  }

  lemma EndShifts(a: Bytes, b: Bytes, d: nat, e: nat)
    requires d == LastEnd(a) && e == LastEnd(a[d..] + b)
    ensures LastEnd(a + b) == d + e
  {
    CutParts(a, b, d, 0);
    TailEnd(a + b, d, e);
  }

  /** The end seen from a place that ends a line itself. */
  lemma TailEnd(s: Bytes, d: nat, e: nat)
    requires d <= |s| && (d > 0 ==> s[d - 1] == NEWLINE) && e == LastEnd(s[d..])
    ensures LastEnd(s) == d + e
  {
    assert forall i :: d <= i < |s| ==> s[i] == s[d..][i - d];
    EndUnique(s, d + e);
  }

  lemma EndUnique(s: Bytes, e: nat)
    requires e <= |s| && (e > 0 ==> s[e - 1] == NEWLINE)
    requires forall i :: e <= i < |s| ==> s[i] != NEWLINE
    ensures LastEnd(s) == e
  {
  }

  // The buffering step

  function Held(buf: Option<Bytes>): (s: Bytes)
  {
    if buf.Some? then buf.value else []
  }

  function Buffered(raw: Option<Bytes>, buf: Option<Bytes>): (r: (Option<Bytes>, Option<Bytes>))
  {
    if raw.None? || raw.value == [] then (raw, buf)
    else
      var held := buf.Some? && buf.value != [];
      var joined := if held then buf.value + raw.value else raw.value;
      var left := if held then None else buf;
      if NEWLINE !in joined then (None, Some(joined))
      else if joined[|joined| - 1] != NEWLINE then (Some(Complete(joined)), Some(Rest(joined)))
      else (Some(joined), left)
  }

  /** The step emits the complete lines of what is held and what arrives, and holds the rest. */
  lemma BufferedCuts(raw: Option<Bytes>, buf: Option<Bytes>)
    requires NEWLINE !in Held(buf)
    ensures var all := Held(buf) + Held(raw);
            Held(Buffered(raw, buf).0) == Complete(all) && Held(Buffered(raw, buf).1) == Rest(all)
  {
    var all := Held(buf) + Held(raw);
    if raw.None? || raw.value == [] {
      assert all == Held(buf);
      EndUnique(all, 0);
    } else {
      assert all == if buf.Some? && buf.value != [] then buf.value + raw.value else raw.value;
      JoinedCuts(all);
    }
  }

  lemma JoinedCuts(all: Bytes)
    ensures NEWLINE !in all ==> Complete(all) == [] && Rest(all) == all
    ensures all != [] && all[|all| - 1] == NEWLINE ==> Complete(all) == all && Rest(all) == []
  {
    if NEWLINE !in all {
      EndUnique(all, 0);
    } else if all[|all| - 1] == NEWLINE {
      EndUnique(all, |all|);
    }
  }


  // The responses of a text

  /** The pieces between newlines, with the part of the current one already read. */
  function Pieces(s: Bytes, part: Bytes): (r: seq<Bytes>)
    ensures |r| > 0
    decreases |s|
  {
    if s == [] then [part]
    else if s[0] == NEWLINE then [part] + Pieces(s[1..], [])
    else Pieces(s[1..], part + [s[0]])
  }

  /** Blank lines are skipped, and `parse` drops the lines that only finish a response. */
  function One<R>(line: Bytes, parse: Bytes -> Option<R>): (r: seq<R>)
  {
    if line == [] then [] else match parse(line) case None => [] case Some(x) => [x]
  }

  function Interpret<R>(lines: seq<Bytes>, parse: Bytes -> Option<R>): (r: seq<R>)
  {
    if lines == [] then [] else Interpret(lines[..|lines| - 1], parse) + One(lines[|lines| - 1], parse)
  }

  function Responses<R>(s: Bytes, parse: Bytes -> Option<R>): (r: seq<R>)
  {
    Interpret(Pieces(s, []), parse)
  }

  lemma {:induction false} InterpretConcat<R>(a: seq<Bytes>, b: seq<Bytes>, parse: Bytes -> Option<R>)
    ensures Interpret(a + b, parse) == Interpret(a, parse) + Interpret(b, parse)
    decreases |b|
  {
    if b == [] {
      assert a + b == a;
    } else {
      assert (a + b)[..|a + b| - 1] == a + b[..|b| - 1];
      InterpretConcat(a, b[..|b| - 1], parse);
    }
  }

  lemma {:induction false} PiecesEnded(x: Bytes, y: Bytes, part: Bytes)
    requires Ended(x) && (x == [] ==> part == [])
    ensures var p := Pieces(x, part);
            p[|p| - 1] == [] && Pieces(x + y, part) == p[..|p| - 1] + Pieces(y, [])
    decreases |x|
  {
    if x == [] {
      assert x + y == y;
    } else {
      assert (x + y)[1..] == x[1..] + y;
      if x[0] == NEWLINE {
        PiecesEnded(x[1..], y, []);
        var q := Pieces(x[1..], []);
        assert ([part] + q)[..|q|] == [part] + q[..|q| - 1];
      } else {
        PiecesEnded(x[1..], y, part + [x[0]]);
      }
    }
  }

  /** Responses of complete lines do not depend on what follows. */
  lemma ResponsesConcat<R>(x: Bytes, y: Bytes, parse: Bytes -> Option<R>)
    requires Ended(x)
    ensures Responses(x + y, parse) == Responses(x, parse) + Responses(y, parse)
  {
    PiecesEnded(x, y, []);
    var p := Pieces(x, []);
    InterpretConcat(p[..|p| - 1], Pieces(y, []), parse);
    assert Interpret(p, parse) == Interpret(p[..|p| - 1], parse) + [];
  }

  // Whole runs on one stream

  ghost function Concat(chunks: seq<Bytes>): (s: Bytes)
  {
    if chunks == [] then [] else Concat(chunks[..|chunks| - 1]) + chunks[|chunks| - 1]
  }

  /** What is held back after the chunks. */
  ghost function HeldAfter(chunks: seq<Bytes>): (buf: Option<Bytes>)
  {
    if chunks == [] then None
    else Buffered(Some(chunks[|chunks| - 1]), HeldAfter(chunks[..|chunks| - 1])).1
  }

  ghost function Emitted(chunks: seq<Bytes>): (s: Bytes)
  {
    if chunks == [] then []
    else Emitted(chunks[..|chunks| - 1])
         + Held(Buffered(Some(chunks[|chunks| - 1]), HeldAfter(chunks[..|chunks| - 1])).0)
  }

  /** The concatenated response lists of the calls, one per chunk. */
  ghost function AllResponses<R>(chunks: seq<Bytes>, parse: Bytes -> Option<R>): (r: seq<R>)
  {
    if chunks == [] then []
    else AllResponses(chunks[..|chunks| - 1], parse)
         + Responses(Held(Buffered(Some(chunks[|chunks| - 1]), HeldAfter(chunks[..|chunks| - 1])).0), parse)
  }

  lemma {:induction false} NothingLost(chunks: seq<Bytes>)
    ensures Emitted(chunks) == Complete(Concat(chunks)) && Held(HeldAfter(chunks)) == Rest(Concat(chunks))
    ensures Emitted(chunks) + Held(HeldAfter(chunks)) == Concat(chunks)
  {
    if chunks == [] {
      assert Complete([]) == [] && Rest([]) == [];
    } else {
      var before, last := chunks[..|chunks| - 1], chunks[|chunks| - 1];
      NothingLost(before);
      BufferedCuts(Some(last), HeldAfter(before));
      CutAnywhere(Concat(before), last);
    }
  }

  /** Any way of cutting gives the responses of the complete lines of the whole. */
  lemma {:induction false} CuttingIsInvisible<R>(chunks: seq<Bytes>, parse: Bytes -> Option<R>)
    ensures AllResponses(chunks, parse) == Responses(Complete(Concat(chunks)), parse)
  {
    if chunks == [] {
      assert Interpret([[]], parse) == [];
    } else {
      var before, last := chunks[..|chunks| - 1], chunks[|chunks| - 1];
      CuttingIsInvisible(before, parse);
      NothingLost(before);
      ChunkStep(Concat(before), last, HeldAfter(before), parse);
    }
  }

  /** In particular, of the whole in one chunk. */
  lemma UncutIsTheSame<R>(chunks: seq<Bytes>, parse: Bytes -> Option<R>)
    ensures AllResponses(chunks, parse) == AllResponses([Concat(chunks)], parse)
    ensures Held(HeldAfter(chunks)) == Held(HeldAfter([Concat(chunks)]))
  {
    CuttingIsInvisible(chunks, parse);
    CuttingIsInvisible([Concat(chunks)], parse);
    NothingLost(chunks);
    NothingLost([Concat(chunks)]);
    ConcatOne(Concat(chunks));
  }

  lemma ConcatOne(chunk: Bytes)
    ensures Concat([chunk]) == chunk
  {
    assert [chunk][..0] == [] && [] + chunk == chunk;
  }

  /** One step, in terms of everything received before. */
  lemma ChunkStep<R>(input: Bytes, raw: Bytes, buf: Option<Bytes>, parse: Bytes -> Option<R>)
    requires Held(buf) == Rest(input)
    ensures var step := Buffered(Some(raw), buf);
            && Held(step.1) == Rest(input + raw)
            && Responses(Complete(input + raw), parse) ==
               Responses(Complete(input), parse) + Responses(Held(step.0), parse)
  {
    BufferedCuts(Some(raw), buf);
    CutAnywhere(input, raw);
    ResponsesConcat(Complete(input), Complete(Rest(input) + raw), parse);
  }

  // The parser object

  datatype Stream = Stdout | Stderr | Other(name: string)

  ghost function Received(m: map<Stream, Bytes>, stream: Stream): (s: Bytes)
  {
    if stream in m then m[stream] else []
  }

  ghost function Delivered<R>(m: map<Stream, seq<R>>, stream: Stream): (s: seq<R>)
  {
    if stream in m then m[stream] else []
  }

  function HeldFor(m: map<Stream, Option<Bytes>>, stream: Stream): (buf: Option<Bytes>)
  {
    if stream in m then m[stream] else None
  }

  /** Held is the rest of what came in, and delivered are the responses of its complete lines. */
  ghost predicate Agrees<R>(held: Option<Bytes>, input: Bytes, out: seq<R>, parse: Bytes -> Option<R>)
  {
    Held(held) == Rest(input) && out == Responses(Complete(input), parse)
  }

  ghost predicate AllAgree<R(!new)>(held: map<Stream, Option<Bytes>>, input: map<Stream, Bytes>, out: map<Stream, seq<R>>,
                                    parse: Stream -> Bytes -> Option<R>)
  {
    forall s {:trigger HeldFor(held, s)} :: Agrees(HeldFor(held, s), Received(input, s), Delivered(out, s), parse(s))
  }

  lemma UpdateAt<R>(held: map<Stream, Option<Bytes>>, input: map<Stream, Bytes>, out: map<Stream, seq<R>>,
                    stream: Stream, left: Option<Bytes>, received: Bytes, delivered: seq<R>, s: Stream)
    ensures HeldFor(held[stream := left], s) == if s == stream then left else HeldFor(held, s)
    ensures Received(input[stream := received], s) == if s == stream then received else Received(input, s)
    ensures Delivered(out[stream := delivered], s) == if s == stream then delivered else Delivered(out, s)
  {
  }

  lemma AgreesOnUpdate<R(!new)>(held: map<Stream, Option<Bytes>>, input: map<Stream, Bytes>, out: map<Stream, seq<R>>,
                                parse: Stream -> Bytes -> Option<R>,
                                stream: Stream, left: Option<Bytes>, received: Bytes, delivered: seq<R>)
    requires AllAgree(held, input, out, parse) && Agrees(left, received, delivered, parse(stream))
    ensures AllAgree(held[stream := left], input[stream := received], out[stream := delivered], parse)
  {
    forall s ensures Agrees(HeldFor(held[stream := left], s), Received(input[stream := received], s),
                            Delivered(out[stream := delivered], s), parse(s)) {
      UpdateAt(held, input, out, stream, left, received, delivered, s);
    }
  }

  class GdbParser<R(!new)> {
    const parse: Stream -> Bytes -> Option<R>
    var incomplete: map<Stream, Option<Bytes>>
    ghost var received: map<Stream, Bytes>
    ghost var delivered: map<Stream, seq<R>>

    ghost predicate Valid()
      reads this
    {
      AllAgree(incomplete, received, delivered, parse)
    }

    constructor (parse: Stream -> Bytes -> Option<R>)
      ensures Valid() && received == map[] && delivered == map[]
    {
      this.parse := parse;
      incomplete := map[Stdout := None, Stderr := None];
      received, delivered := map[], map[];
      new;
      forall stream ensures Agrees(HeldFor(incomplete, stream), [], [], parse(stream)) {
        assert Interpret([[]], parse(stream)) == [];
      }
    }

    /** One chunk on one stream: the others keep what they hold and what they delivered. */
    method GetResponses(raw: Bytes, stream: Stream) returns (responses: seq<R>)
      requires Valid()
      modifies this
      ensures Valid()
      ensures received == old(received)[stream := Received(old(received), stream) + raw]
      ensures delivered == old(delivered)[stream := Delivered(old(delivered), stream) + responses]
      ensures incomplete == old(incomplete)[stream := HeldFor(incomplete, stream)]
    {
      ghost var input, output := Received(received, stream), Delivered(delivered, stream);
      ghost var before, held := received, incomplete;
      var left;
      responses, left := Step(raw, HeldFor(incomplete, stream), parse(stream), input, output);
      AgreesOnUpdate(incomplete, received, delivered, parse, stream, left, input + raw, output + responses);
      incomplete := incomplete[stream := left];
      received := received[stream := input + raw];
      delivered := delivered[stream := output + responses];
      assert received == before[stream := input + raw] && input == Received(before, stream);
      assert incomplete == held[stream := left] && left == HeldFor(incomplete, stream);
    }
  }

  method Step<R>(raw: Bytes, buf: Option<Bytes>, parse: Bytes -> Option<R>, ghost input: Bytes, ghost output: seq<R>)
    returns (responses: seq<R>, left: Option<Bytes>)
    requires Agrees(buf, input, output, parse)
    ensures Agrees(left, input + raw, output + responses, parse)
  {
    var step := Buffered(Some(raw), buf);
    ChunkStep(input, raw, buf, parse);
    responses := ParseLines(Held(step.0), parse);
    left := step.1;
  }

  method ParseLines<R>(out: Bytes, parse: Bytes -> Option<R>) returns (responses: seq<R>)
    ensures responses == Responses(out, parse)
  {
    responses := [];
    if out == [] {
      assert Interpret([[]], parse) == [];
      return;
    }
    var lines := Pieces(out, []);
    var i := 0;
    while i < |lines|
      invariant i <= |lines| && responses == Interpret(lines[..i], parse)
    {
      assert lines[..i + 1][..i] == lines[..i];
      if lines[i] != [] {
        var parsed := parse(lines[i]);
        if parsed.Some? {
          responses := responses + [parsed.value];
        }
      }
      i := i + 1;
    }
    assert lines[..|lines|] == lines;
  }
}
