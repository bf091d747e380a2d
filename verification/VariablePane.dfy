/**
 Which flat lists are forests, and what the edits of the list do to the forest.
 */
module VariablePane {
  import opened Wrappers
  import opened Sequences
  import opened VariableForest

  // Which flat lists are forests

  /** Each line is at most one deeper than the one before, and deeper only below an expanded row. */
  ghost predicate Shaped(lines: seq<Line>, depth: nat)
  {
    && (lines != [] ==> lines[0].depth == depth)
    && (forall i :: 0 <= i < |lines| ==> lines[i].depth >= depth)
    && (forall i {:trigger lines[i].row} :: 0 <= i < |lines| - 1 ==> Step(lines[i], lines[i + 1]))
  }

  ghost predicate Step(a: Line, b: Line)
  {
    b.depth <= a.depth || (b.depth == a.depth + 1 && a.row.expanded)
  }

  lemma {:induction false} ForestIsShaped(f: Forest, depth: nat)
    requires Proper(f)
    ensures Shaped(Flatten(f, depth), depth)
  {
    if f.Tree? {
      ForestIsShaped(f.below, depth + 1);
      ForestIsShaped(f.beside, depth);
      FlattenDepths(f, depth);
      FlattenDepths(f.below, depth + 1);
    }
  }

  /** The forest a shaped list stands for. */
  ghost function Build(lines: seq<Line>, depth: nat): (f: Forest)
    requires Shaped(lines, depth)
    ensures Proper(f) && Flatten(f, depth) == lines
    decreases |lines|
  {
    if lines == [] then Empty
    else
      var e := SubtreeEnd(lines, 0, 1);
      PartShaped(lines, depth, e);
      Parts(lines, e);
      Tree(lines[0].row, Build(lines[1..e], depth + 1), Build(lines[e..], depth))
  }

  lemma Parts(lines: seq<Line>, e: nat)
    requires 0 < e <= |lines|
    ensures lines == [Line(lines[0].row, lines[0].depth)] + lines[1..e] + lines[e..]
  {
  }

  lemma PartShaped(lines: seq<Line>, depth: nat, e: nat)
    requires Shaped(lines, depth) && lines != [] && e == SubtreeEnd(lines, 0, 1)
    ensures Shaped(lines[1..e], depth + 1) && Shaped(lines[e..], depth)
    ensures e > 1 ==> lines[0].row.expanded
  {
    if e > 1 {
      assert lines[0].row == lines[0].row;
      assert Step(lines[0], lines[1]);
    }
    forall i {:trigger lines[1..e][i].row} | 0 <= i < e - 2 ensures Step(lines[1..e][i], lines[1..e][i + 1]) {
      assert lines[i + 1].row == lines[1..e][i].row;
      assert Step(lines[i + 1], lines[i + 2]);
    }
    forall i {:trigger lines[e..][i].row} | 0 <= i < |lines| - e - 1 ensures Step(lines[e..][i], lines[e..][i + 1]) {
      assert lines[i + e].row == lines[e..][i].row;
      assert Step(lines[i + e], lines[i + e + 1]);
    }
  }

  ghost predicate Lists(f: Forest, lines: seq<Line>)
  {
    Proper(f) && Flatten(f, 0) == lines
  }

  /** A flat list is the preorder of a proper forest iff it is shaped. */
  lemma ShapedIffForest(lines: seq<Line>)
    ensures Shaped(lines, 0) <==> exists f :: Lists(f, lines)
  {
    if Shaped(lines, 0) {
      assert Lists(Build(lines, 0), lines);
    }
    forall f | Lists(f, lines) ensures Shaped(lines, 0) {
      ForestIsShaped(f, 0);
    }
  }

  /** The flat list determines the forest. */
  lemma {:induction false} FlattenInjective(f: Forest, g: Forest, depth: nat)
    requires Flatten(f, depth) == Flatten(g, depth)
    ensures f == g
  {
    FlattenDepths(f, depth);
    FlattenDepths(g, depth);
    if f.Tree? {
      EndSeparates(f, depth, 0);
      EndSeparates(g, depth, 0);
      var n := |Flatten(f.below, depth + 1)|;
      assert n == |Flatten(g.below, depth + 1)|;
      assert Flatten(f, depth)[1..n + 1] == Flatten(f.below, depth + 1);
      assert Flatten(g, depth)[1..n + 1] == Flatten(g.below, depth + 1);
      assert Flatten(f, depth)[n + 1..] == Flatten(f.beside, depth);
      assert Flatten(g, depth)[n + 1..] == Flatten(g.beside, depth);
      FlattenInjective(f.below, g.below, depth + 1);
      FlattenInjective(f.beside, g.beside, depth);
    }
  }

  // Roots

  ghost function Append(f: Forest, g: Forest): (r: Forest)
  {
    if f.Empty? then g else Tree(f.row, f.below, Append(f.beside, g))
  }

  lemma {:induction false} AppendFlattens(f: Forest, g: Forest, depth: nat)
    ensures Flatten(Append(f, g), depth) == Flatten(f, depth) + Flatten(g, depth)
    ensures Proper(f) && Proper(g) ==> Proper(Append(f, g))
  {
    if f.Tree? {
      AppendFlattens(f.beside, g, depth);
    }
  }

  ghost function Leaves(rows: seq<Row>): (f: Forest)
    ensures Proper(f)
  {
    if rows == [] then Empty else Tree(rows[0], Empty, Leaves(rows[1..]))
  }

  function AtDepth(rows: seq<Row>, depth: nat): (lines: seq<Line>)
  {
    seq(|rows|, i requires 0 <= i < |rows| => Line(rows[i], depth))
  }

  lemma {:induction false} LeavesFlatten(rows: seq<Row>, depth: nat)
    ensures Flatten(Leaves(rows), depth) == AtDepth(rows, depth)
  {
    if rows != [] {
      LeavesFlatten(rows[1..], depth);
      assert AtDepth(rows, depth) == [Line(rows[0], depth)] + [] + AtDepth(rows[1..], depth);
    }
  }

  ghost function FilterRoots(f: Forest, p: Row -> bool): (r: Forest)
  {
    if f.Empty? then Empty
    else if p(f.row) then Tree(f.row, f.below, FilterRoots(f.beside, p))
    else FilterRoots(f.beside, p)
  }

  /** One pass that keeps a line iff the last root before it was kept. */
  function Retained(lines: seq<Line>, keep: bool, p: Row -> bool): (r: seq<Line>)
  {
    if lines == [] then []
    else
      var k := if lines[0].depth == 0 then p(lines[0].row) else keep;
      (if k then [lines[0]] else []) + Retained(lines[1..], k, p)
  }

  lemma {:induction false} RetainedInside(sub: seq<Line>, rest: seq<Line>, keep: bool, p: Row -> bool)
    requires forall i :: 0 <= i < |sub| ==> sub[i].depth > 0
    ensures Retained(sub + rest, keep, p) == (if keep then sub else []) + Retained(rest, keep, p)
  {
    if sub == [] {
      assert sub + rest == rest;
    } else {
      assert (sub + rest)[1..] == sub[1..] + rest;
      RetainedInside(sub[1..], rest, keep, p);
    }
  }

  lemma RetainedTree(head: Line, sub: seq<Line>, rest: seq<Line>, keep: bool, p: Row -> bool)
    requires head.depth == 0 && forall i :: 0 <= i < |sub| ==> sub[i].depth > 0
    ensures Retained([head] + sub + rest, keep, p) ==
            (if p(head.row) then [head] + sub else []) + Retained(rest, p(head.row), p)
  {
    RetainedInside(sub, rest, p(head.row), p);
    assert ([head] + sub + rest)[1..] == sub + rest;
  }

  /** The pass removes whole trees: it filters the roots. */
  lemma {:induction false} RetainIsFilterRoots(f: Forest, keep: bool, p: Row -> bool)
    ensures Retained(Flatten(f, 0), keep, p) == Flatten(FilterRoots(f, p), 0)
  {
    if f.Tree? {
      FlattenDepths(f.below, 1);
      RetainIsFilterRoots(f.beside, p(f.row), p);
      RetainedTree(Line(f.row, 0), Flatten(f.below, 1), Flatten(f.beside, 0), keep, p);
    }
  }

  lemma {:induction false} FilterKeepsProper(f: Forest, p: Row -> bool)
    requires Proper(f)
    ensures Proper(FilterRoots(f, p))
  {
    if f.Tree? {
      FilterKeepsProper(f.beside, p);
    }
  }

  // Rewriting one row in place

  /** The forest below place `k` is the slice of the flat list up to the end of that subtree. */
  ghost predicate BelowSlices(f: Forest, depth: nat, k: nat)
  {
    && k < |Flatten(f, depth)|
    && Flatten(BelowAt(f, depth, k), Flatten(f, depth)[k].depth + 1) == Flatten(f, depth)[k + 1..EndAt(f, depth, k)]
  }

  lemma SliceBelow(f: Forest, depth: nat, k: nat)
    requires f.Tree? && k > 0 && BelowSlices(f.below, depth + 1, k - 1)
    ensures BelowSlices(f, depth, k)
  {
    UnfoldBelow(f, depth, k, f.row, Empty);
    var sub, e := Flatten(f.below, depth + 1), EndAt(f.below, depth + 1, k - 1);
    assert BelowAt(f, depth, k) == BelowAt(f.below, depth + 1, k - 1);
  }

  lemma SliceBeside(f: Forest, depth: nat, k: nat, n: nat)
    requires f.Tree? && n == |Flatten(f.below, depth + 1)| < k && BelowSlices(f.beside, depth, k - 1 - n)
    ensures BelowSlices(f, depth, k)
  {
    UnfoldBeside(f, depth, k, n, f.row, Empty);
    var rest, e := Flatten(f.beside, depth), EndAt(f.beside, depth, k - 1 - n);
    var before := [Line(f.row, depth)] + Flatten(f.below, depth + 1);
    GlueSlice(before, rest, Flatten(f, depth), k - n, e, k + 1, EndAt(f, depth, k),
              Flatten(BelowAt(f, depth, k), Flatten(f, depth)[k].depth + 1));
  }

  lemma GlueSlice<T>(before: seq<T>, rest: seq<T>, all: seq<T>, i: nat, e: nat, lo: nat, hi: nat, slice: seq<T>)
    requires i <= e <= |rest| && slice == rest[i..e]
    requires all == before + rest && lo == |before| + i && hi == |before| + e
    ensures slice == all[lo..hi]
  {
  }

  lemma {:induction false} BelowIsSlice(f: Forest, depth: nat, k: nat)
    requires k < |Flatten(f, depth)|
    ensures BelowSlices(f, depth, k)
  {
    var n := |Flatten(f.below, depth + 1)|;
    if k == 0 {
    } else if k <= n {
      BelowIsSlice(f.below, depth + 1, k - 1);
      SliceBelow(f, depth, k);
    } else {
      BelowIsSlice(f.beside, depth, k - 1 - n);
      SliceBeside(f, depth, k, n);
    }
  }

  lemma {:induction false} BelowProper(f: Forest, depth: nat, k: nat)
    requires k < |Flatten(f, depth)| && Proper(f)
    ensures Proper(BelowAt(f, depth, k))
    ensures BelowAt(f, depth, k).Tree? ==> Flatten(f, depth)[k].row.expanded
  {
    var n := |Flatten(f.below, depth + 1)|;
    if 0 < k <= n {
      BelowProper(f.below, depth + 1, k - 1);
    } else if k > n {
      BelowProper(f.beside, depth, k - 1 - n);
    }
  }

  ghost function RelabelAt(f: Forest, k: nat, row: Row): (r: Forest)
    requires k < |Flatten(f, 0)|
  {
    EditAt(f, 0, k, row, BelowAt(f, 0, k))
  }

  lemma CutSame(lines: seq<Line>, k: nat, e: nat, row: Row)
    requires k < e <= |lines|
    ensures Cut(lines, k, e, row, lines[k + 1..e]) == lines[k := Line(row, lines[k].depth)]
  {
  }

  /** Rewriting a row that stays as expanded as it was leaves the rest of the forest alone. */
  lemma RelabelIsUpdate(f: Forest, k: nat, row: Row)
    requires k < |Flatten(f, 0)| && Proper(f) && row.expanded == Flatten(f, 0)[k].row.expanded
    ensures Flatten(RelabelAt(f, k, row), 0) == Flatten(f, 0)[k := Line(row, Flatten(f, 0)[k].depth)]
    ensures Proper(RelabelAt(f, k, row))
  {
    BelowProper(f, 0, k);
    EditKeepsProper(f, 0, k, row, BelowAt(f, 0, k));
    BelowIsSlice(f, 0, k);
    EditIsCut(f, 0, k, row, BelowAt(f, 0, k));
    CutSame(Flatten(f, 0), k, EndAt(f, 0, k), row);
  }

  /** Replacing what is below a row by leaves, in the tree and in the list. */
  lemma LeavesAreSpliced(f: Forest, k: nat, row: Row, items: seq<Row>)
    requires k < |Flatten(f, 0)| && Proper(f) && (items != [] ==> row.expanded)
    ensures var r := EditAt(f, 0, k, row, Leaves(items));
            Proper(r) && Flatten(r, 0) == Spliced(Flatten(f, 0), k, row, AtDepth(items, Flatten(f, 0)[k].depth + 1))
  {
    EditKeepsProper(f, 0, k, row, Leaves(items));
    LeavesSplice(f, k, row, items);
  }

  lemma LeavesSplice(f: Forest, k: nat, row: Row, items: seq<Row>)
    requires k < |Flatten(f, 0)|
    ensures Flatten(EditAt(f, 0, k, row, Leaves(items)), 0) ==
            Spliced(Flatten(f, 0), k, row, AtDepth(items, Flatten(f, 0)[k].depth + 1))
  {
    EditIsSplice(f, 0, k, row, Leaves(items));
    LeavesFlatten(items, Flatten(f, 0)[k].depth + 1);
  }

  // Expanding and collapsing

  function FirstWithId(lines: seq<Line>, id: string): (i: nat)
    ensures i <= |lines|
    ensures i < |lines| ==> lines[i].row.id == id
    ensures forall j :: 0 <= j < i ==> lines[j].row.id != id
  {
    FirstIndex(lines, (l: Line) => l.row.id == id)
  }

  function FirstInspection(lines: seq<Line>): (i: nat)
    ensures i <= |lines|
    ensures i < |lines| ==> lines[i].row.inspection
    ensures forall j :: 0 <= j < i ==> !lines[j].row.inspection
  {
    FirstIndex(lines, (l: Line) => l.row.inspection)
  }

  function Delivered(row: Row, count: nat): (r: Row)
  {
    row.(value := if row.scope then "" else row.value, children := count, hasChildren := count > 0,
         expanded := true, loading := false)
  }

  /** A child list arrives for the first row with that identity, replacing what was below it. */
  function WithChildren(lines: seq<Line>, id: string, items: seq<Row>): (r: seq<Line>)
  {
    var k := FirstWithId(lines, id);
    if k == |lines| then lines
    else Spliced(lines, k, Delivered(lines[k].row, |items|), AtDepth(items, lines[k].depth + 1))
  }

  /** Collapsing drops what is below; expanding only asks for the children. */
  function Toggled(lines: seq<Line>, k: nat): (r: seq<Line>)
  {
    if k >= |lines| || !lines[k].row.hasChildren || lines[k].row.loading then lines
    else if lines[k].row.expanded then Spliced(lines, k, lines[k].row.(expanded := false), [])
    else lines[k := Line(lines[k].row.(loading := true), lines[k].depth)]
  }

  lemma CollapsedEnds(f: Forest, k: nat)
    requires Proper(f) && k < |Flatten(f, 0)| && !Flatten(f, 0)[k].row.expanded
    ensures Ends(Flatten(f, 0), k, k + 1)
  {
    BelowProper(f, 0, k);
    BelowIsSlice(f, 0, k);
    EndSeparates(f, 0, k);
    FlattenDepths(BelowAt(f, 0, k), Flatten(f, 0)[k].depth + 1);
  }

  /** Splicing rows below a leaf and splicing them out again restores the other lines. */
  lemma SpliceBack(lines: seq<Line>, k: nat, row: Row, kids: seq<Line>, folded: Row)
    requires Ends(lines, k, k + 1) && forall i :: 0 <= i < |kids| ==> kids[i].depth > lines[k].depth
    ensures var shown := Spliced(lines, k, row, kids);
            && k < |shown| && shown[k] == Line(row, lines[k].depth)
            && Spliced(shown, k, folded, []) == lines[k := Line(folded, lines[k].depth)]
  {
    var shown, e := Cut(lines, k, k + 1, row, kids), k + 1 + |kids|;
    assert forall j :: k < j < e ==> shown[j] == kids[j - k - 1];
    assert e < |shown| ==> shown[e] == lines[k + 1];
    assert shown[..k] == lines[..k] && shown[e..] == lines[k + 1..];
  }

  /** A collapsed row whose children can be asked for. */
  ghost predicate CanAsk(lines: seq<Line>, k: nat)
  {
    k < |lines| && lines[k].row.hasChildren && !lines[k].row.loading && !lines[k].row.expanded
  }

  /** The list while the children of `k` are asked for. */
  function Asked(lines: seq<Line>, k: nat): (r: seq<Line>)
    requires k < |lines|
  {
    lines[k := Line(lines[k].row.(loading := true), lines[k].depth)]
  }

  /** The list after row `k` has asked and `items` were delivered under its identity. */
  function Answered(lines: seq<Line>, k: nat, items: seq<Row>): (r: seq<Line>)
    requires k < |lines|
  {
    WithChildren(Toggled(lines, k), lines[k].row.id, items)
  }

  /** Children go to the first row with the identity, whichever row asked. */
  lemma AskedShows(lines: seq<Line>, k: nat, first: nat, items: seq<Row>)
    requires CanAsk(lines, k) && FirstWithId(lines, lines[k].row.id) == first
    ensures first <= k
    ensures Answered(lines, k, items) ==
            Spliced(Asked(lines, k), first, Delivered(Asked(lines, k)[first].row, |items|), AtDepth(items, lines[first].depth + 1))
  {
    var asked := Asked(lines, k);
    assert asked[first].row.id == lines[k].row.id && forall j :: 0 <= j < first ==> asked[j] == lines[j];
    assert FirstWithId(asked, lines[k].row.id) == first;
  }

  /** The list in which row `k` itself has got the children. */
  function Opened(lines: seq<Line>, k: nat, items: seq<Row>): (r: seq<Line>)
    requires k < |lines|
  {
    Cut(Asked(lines, k), k, k + 1, Delivered(Asked(lines, k)[k].row, |items|), AtDepth(items, lines[k].depth + 1))
  }

  /** Where the subtree of the first row ends is not changed by asking. */
  lemma AskedEndsAlike(lines: seq<Line>, k: nat, first: nat)
    requires k < |lines| && first < |lines|
    ensures SubtreeEnd(Asked(lines, k), first, first + 1) == SubtreeEnd(lines, first, first + 1)
  {
    var e := SubtreeEnd(lines, first, first + 1);
    assert Ends(Asked(lines, k), first, e);
  }

  /** A collapsed row gets the children it asked for iff no earlier row has its identity. */
  lemma ChildrenArriveIff(lines: seq<Line>, k: nat, items: seq<Row>)
    requires CanAsk(lines, k) && Ends(lines, k, k + 1)
    ensures Answered(lines, k, items) == Opened(lines, k, items) <==> FirstWithId(lines, lines[k].row.id) == k
  {
    var first := FirstWithId(lines, lines[k].row.id);
    AskedShows(lines, k, first, items);
    AskedEndsAlike(lines, k, first);
    if first == k {
      assert SubtreeEnd(lines, k, k + 1) == k + 1;
    } else {
      EarlierTakes(lines, k, first, SubtreeEnd(lines, first, first + 1), items);
    }
  }

  lemma EarlierTakes(lines: seq<Line>, k: nat, first: nat, e: nat, items: seq<Row>)
    requires CanAsk(lines, k) && first < k && Ends(lines, first, e)
    ensures Cut(Asked(lines, k), first, e, Delivered(lines[first].row, |items|), AtDepth(items, lines[first].depth + 1))
            != Opened(lines, k, items)
  {
    var row, kids := Delivered(lines[first].row, |items|), AtDepth(items, lines[first].depth + 1);
    var shown, open := Cut(Asked(lines, k), first, e, row, kids), Opened(lines, k, items);
    assert |shown| == |lines| - (e - first - 1) + |items| && |open| == |lines| + |items|;
    if e == first + 1 {
      if items == [] {
        assert shown[k].row.loading && !open[k].row.loading;
      } else {
        assert shown[first + 1].depth == lines[first].depth + 1;
        assert open[first + 1].depth == lines[first + 1].depth <= lines[first].depth;
      }
    }
  }

  /**
   Row `first` has taken what `k` asked for. Row `k` stays loading, moved by what `first` gained or lost,
   or goes with what was below `first`, as if it had not asked.
   */
  ghost predicate Overtaken(lines: seq<Line>, k: nat, first: nat, e: nat, row: Row, kids: seq<Line>, shown: seq<Line>)
    requires first < k < |lines| && first < e <= |lines|
  {
    && first < |shown| && shown[first].row == row
    && if e <= k then k + |kids| - (e - first - 1) < |shown| && shown[k + |kids| - (e - first - 1)] == Asked(lines, k)[k]
       else shown == Cut(lines, first, e, row, kids)
  }

  /** Behind an earlier row with its identity a row never gets its children; that row does. */
  lemma LaterRowWaits(lines: seq<Line>, k: nat, first: nat, items: seq<Row>)
    requires CanAsk(lines, k) && FirstWithId(lines, lines[k].row.id) == first < k
    ensures Overtaken(lines, k, first, SubtreeEnd(lines, first, first + 1), Delivered(lines[first].row, |items|),
                      AtDepth(items, lines[first].depth + 1), Answered(lines, k, items))
  {
    var e := SubtreeEnd(lines, first, first + 1);
    AnsweredCuts(lines, k, first, e, items);
    WaitsOrGoes(lines, k, first, e, Delivered(lines[first].row, |items|), AtDepth(items, lines[first].depth + 1));
  }

  lemma AnsweredCuts(lines: seq<Line>, k: nat, first: nat, e: nat, items: seq<Row>)
    requires CanAsk(lines, k) && FirstWithId(lines, lines[k].row.id) == first < k && e == SubtreeEnd(lines, first, first + 1)
    ensures Answered(lines, k, items) ==
            Cut(Asked(lines, k), first, e, Delivered(lines[first].row, |items|), AtDepth(items, lines[first].depth + 1))
  {
    AskedShows(lines, k, first, items);
    AskedEndsAlike(lines, k, first);
  }

  lemma WaitsOrGoes(lines: seq<Line>, k: nat, first: nat, e: nat, row: Row, kids: seq<Line>)
    requires first < k < |lines| && first < e <= |lines|
    ensures Overtaken(lines, k, first, e, row, kids, Cut(Asked(lines, k), first, e, row, kids))
  {
    if e > k {
      assert Asked(lines, k)[..first] == lines[..first] && Asked(lines, k)[e..] == lines[e..];
    }
  }

  ghost function Nested(): (lines: seq<Line>)
  {
    var row := Row("x", "x", "", None, false, false, false, true, 1, true);
    [Line(row, 0), Line(row.(expanded := false), 1)]
  }

  /** A row below another of its identity asks, an empty list arrives, and the asking row is gone. */
  lemma AskingRowGone()
    ensures Shaped(Nested(), 0) && CanAsk(Nested(), 1) && Nested()[0].row.id == Nested()[1].row.id
    ensures Answered(Nested(), 1, []) == [Line(Delivered(Nested()[0].row, 0), 0)]
  {
    var lines := Nested();
    assert FirstWithId(lines, "x") == 0;
    assert Ends(lines, 0, 2);
    assert SubtreeEnd(lines, 0, 1) == 2;
    LaterRowWaits(lines, 1, 0, []);
  }

  // Expanding and collapsing again

  /** Every row but `k` is back, and `k` is closed, or open with nothing below. */
  function Restored(lines: seq<Line>, k: nat, items: seq<Row>): (r: seq<Line>)
    requires k < |lines|
  {
    lines[k := Line(Delivered(lines[k].row, |items|).(expanded := items == []), lines[k].depth)]
  }

  lemma ToggleTwice(lines: seq<Line>, k: nat, items: seq<Row>)
    requires CanAsk(lines, k) && Ends(lines, k, k + 1) && FirstWithId(lines, lines[k].row.id) == k
    ensures Toggled(Answered(lines, k, items), k) == Restored(lines, k, items)
  {
    var asked := Asked(lines, k);
    AskedShows(lines, k, k, items);
    var row, kids := Delivered(asked[k].row, |items|), AtDepth(items, lines[k].depth + 1);
    var shown := Spliced(asked, k, row, kids);
    SpliceBack(asked, k, row, kids, row.(expanded := false));
    assert shown[k].row == row;
    if items == [] {
      SpliceNothing(asked, k, row);
    }
    assert forall r :: asked[k := Line(r, lines[k].depth)] == lines[k := Line(r, lines[k].depth)];
  }

  lemma SpliceNothing(lines: seq<Line>, k: nat, row: Row)
    requires Ends(lines, k, k + 1)
    ensures Spliced(lines, k, row, []) == lines[k := Line(row, lines[k].depth)]
  {
  }

  /** Rows as a reply brings them: closed and not waiting for anything. */
  ghost predicate Arriving(items: seq<Row>)
  {
    forall i :: 0 <= i < |items| ==> !items[i].expanded && !items[i].loading
  }

  /** Toggling the place of a row that did not get its children does not bring the list back. */
  lemma NotRestored(lines: seq<Line>, k: nat, first: nat, e: nat, items: seq<Row>)
    requires CanAsk(lines, k) && first < k && Ends(lines, first, e) && Arriving(items)
    ensures Toggled(Cut(Asked(lines, k), first, e, Delivered(lines[first].row, |items|),
                        AtDepth(items, lines[first].depth + 1)), k) != Restored(lines, k, items)
  {
    var row, kids := Delivered(lines[first].row, |items|), AtDepth(items, lines[first].depth + 1);
    var shown := Cut(Asked(lines, k), first, e, row, kids);
    var n := e - first - 1;
    if |items| < n {
      ToggleShortens(shown, k);
    } else if k <= first + |items| {
      assert shown[k] == kids[k - first - 1];
      ToggleArriving(shown, k);
      assert |items| > n || !Restored(lines, k, items)[k].row.loading;
    } else if |items| == n {
      assert shown[k] == Asked(lines, k)[k];
    } else {
      assert shown[e].depth == lines[first].depth + 1;
      ToggleKeepsBefore(shown, k, e);
      assert Restored(lines, k, items)[e].depth == lines[e].depth <= lines[first].depth;
    }
  }

  lemma ToggleShortens(lines: seq<Line>, k: nat)
    ensures |Toggled(lines, k)| <= |lines|
  {
  }

  /** A row just arrived is not collapsed by a toggle: it starts loading, or stays without children. */
  lemma ToggleArriving(lines: seq<Line>, k: nat)
    requires k < |lines| && !lines[k].row.expanded && !lines[k].row.loading
    ensures |Toggled(lines, k)| == |lines|
    ensures Toggled(lines, k)[k].row.loading == lines[k].row.hasChildren
    ensures Toggled(lines, k)[k].row.hasChildren == lines[k].row.hasChildren
  {
  }

  lemma ToggleKeepsBefore(lines: seq<Line>, k: nat, j: nat)
    requires j < k && j < |lines|
    ensures j < |Toggled(lines, k)| && Toggled(lines, k)[j] == lines[j]
  {
  }

  /**
   Asking for the children of a collapsed row, receiving them and toggling again restores every other
   row, in place and in order, iff no earlier row has its identity.
   */
  lemma ExpandThenCollapseIff(f: Forest, k: nat, items: seq<Row>)
    requires Proper(f) && CanAsk(Flatten(f, 0), k)
    ensures var lines := Flatten(f, 0);
            FirstWithId(lines, lines[k].row.id) == k ==> Toggled(Answered(lines, k, items), k) == Restored(lines, k, items)
    ensures var lines := Flatten(f, 0);
            Arriving(items) && Toggled(Answered(lines, k, items), k) == Restored(lines, k, items) ==>
              FirstWithId(lines, lines[k].row.id) == k
  {
    var lines := Flatten(f, 0);
    var first := FirstWithId(lines, lines[k].row.id);
    CollapsedEnds(f, k);
    if first == k {
      ToggleTwice(lines, k, items);
    } else if Arriving(items) {
      LaterNotRestored(lines, k, first, items);
    }
  }

  lemma LaterNotRestored(lines: seq<Line>, k: nat, first: nat, items: seq<Row>)
    requires CanAsk(lines, k) && FirstWithId(lines, lines[k].row.id) == first < k && Arriving(items)
    ensures Toggled(Answered(lines, k, items), k) != Restored(lines, k, items)
  {
    AskedShows(lines, k, first, items);
    AskedEndsAlike(lines, k, first);
    NotRestored(lines, k, first, SubtreeEnd(lines, first, first + 1), items);
  }
}
