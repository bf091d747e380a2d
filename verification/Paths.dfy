/** Sequences of labelled steps of any transition function. */
module Paths {
  import opened Wrappers

  ghost predicate Leads<S(!new), L>(next: (S, L) -> Option<S>, from: S, steps: seq<L>, to: S)
    decreases |steps|
  {
    if steps == [] then from == to
    else next(from, steps[0]).Some? && Leads(next, next(from, steps[0]).value, steps[1..], to)
  }

  lemma {:induction false} LeadsTwice<S(!new), L>(
      next: (S, L) -> Option<S>, a: S, p: seq<L>, b: S, q: seq<L>, c: S)
    requires Leads(next, a, p, b) && Leads(next, b, q, c)
    ensures Leads(next, a, p + q, c)
    decreases |p|
  {
    if p == [] {
      assert p + q == q;
    } else {
      assert (p + q)[0] == p[0] && (p + q)[1..] == p[1..] + q;
      LeadsTwice(next, next(a, p[0]).value, p[1..], b, q, c);
    }
  }
}
