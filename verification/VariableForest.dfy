/**
 The variable pane: a forest kept as a flat list of rows in preorder, each with its depth.
 */
module VariableForest {
  import opened Wrappers

  datatype Row = Row(
    id: string,
    name: string,
    value: string,
    watchId: Option<nat>,
    inspection: bool,
    scope: bool,
    loading: bool,
    hasChildren: bool,
    children: nat,
    expanded: bool)

  datatype Line = Line(row: Row, depth: nat)

  /** A forest as its first tree and the trees beside it. */
  datatype Forest = Empty | Tree(row: Row, below: Forest, beside: Forest)

  // The forest and its preorder

  ghost function Flatten(f: Forest, depth: nat): (lines: seq<Line>)
  {
    match f
    case Empty => []
    case Tree(row, below, beside) => [Line(row, depth)] + Flatten(below, depth + 1) + Flatten(beside, depth)
  }

  /** Rows that are not expanded have no descendants. */
  ghost predicate Proper(f: Forest)
  {
    f.Tree? ==> (f.below.Tree? ==> f.row.expanded) && Proper(f.below) && Proper(f.beside)
  }

  lemma {:induction false} FlattenDepths(f: Forest, depth: nat)
    ensures forall i :: 0 <= i < |Flatten(f, depth)| ==> Flatten(f, depth)[i].depth >= depth
    ensures f.Tree? <==> Flatten(f, depth) != []
    ensures f.Tree? ==> Flatten(f, depth)[0] == Line(f.row, depth)
  {
    if f.Tree? {
      FlattenDepths(f.below, depth + 1);
      FlattenDepths(f.beside, depth);
    }
  }

  /** The first line from `from` on that does not lie below `k`. */
  function SubtreeEnd(lines: seq<Line>, k: nat, from: nat): (e: nat)
    requires k < |lines| && k < from <= |lines|
    ensures from <= e <= |lines|
    ensures forall j :: from <= j < e ==> lines[j].depth > lines[k].depth
    ensures e < |lines| ==> lines[e].depth <= lines[k].depth
    decreases |lines| - from
  {
    if from == |lines| || lines[from].depth <= lines[k].depth then from else SubtreeEnd(lines, k, from + 1)
  }

  /** `e` is where the lines below `k` end. */
  ghost predicate Ends(lines: seq<Line>, k: nat, e: nat)
  {
    && k < e <= |lines|
    && (forall j :: k < j < e ==> lines[j].depth > lines[k].depth)
    && (e < |lines| ==> lines[e].depth <= lines[k].depth)
  }

  // Edits of a node found by its place in the preorder

  ghost function EditAt(f: Forest, depth: nat, k: nat, row: Row, below: Forest): (r: Forest)
    requires k < |Flatten(f, depth)|
  {
    var n := |Flatten(f.below, depth + 1)|;
    if k == 0 then Tree(row, below, f.beside)
    else if k <= n then Tree(f.row, EditAt(f.below, depth + 1, k - 1, row, below), f.beside)
    else Tree(f.row, f.below, EditAt(f.beside, depth, k - 1 - n, row, below))
  }

  /** The forest below the node at place `k`. */
  ghost function BelowAt(f: Forest, depth: nat, k: nat): (r: Forest)
    requires k < |Flatten(f, depth)|
  {
    var n := |Flatten(f.below, depth + 1)|;
    if k == 0 then f.below
    else if k <= n then BelowAt(f.below, depth + 1, k - 1)
    else BelowAt(f.beside, depth, k - 1 - n)
  }

  /** Where the subtree of the node at place `k` ends, read off the tree. */
  ghost function EndAt(f: Forest, depth: nat, k: nat): (e: nat)
    requires k < |Flatten(f, depth)|
    ensures k < e <= |Flatten(f, depth)|
  {
    var n := |Flatten(f.below, depth + 1)|;
    if k == 0 then 1 + n
    else if k <= n then 1 + EndAt(f.below, depth + 1, k - 1)
    else 1 + n + EndAt(f.beside, depth, k - 1 - n)
  }

  /** Replace the lines from `k` up to `e` by a new row and the lines below it. */
  function Cut(lines: seq<Line>, k: nat, e: nat, row: Row, below: seq<Line>): (r: seq<Line>)
    requires k < e <= |lines|
  {
    lines[..k] + [Line(row, lines[k].depth)] + below + lines[e..]
  }

  function Spliced(lines: seq<Line>, k: nat, row: Row, below: seq<Line>): (r: seq<Line>)
    requires k < |lines|
  {
    Cut(lines, k, SubtreeEnd(lines, k, k + 1), row, below)
  }

  lemma CutBelow(head: Line, sub: seq<Line>, rest: seq<Line>, k: nat, e: nat, row: Row, below: seq<Line>, r: seq<Line>)
    requires k > 0 && CutsTo(sub, k - 1, e, row, below, r)
    ensures CutsTo([head] + sub + rest, k, 1 + e, row, below, [head] + r + rest)
  {
  }

  /** Editing the tree at place `k` cuts the flat list at the end of that subtree. */
  ghost predicate EditCuts(f: Forest, depth: nat, k: nat, row: Row, below: Forest)
  {
    && k < |Flatten(f, depth)|
    && CutsTo(Flatten(f, depth), k, EndAt(f, depth, k), row, Flatten(below, Flatten(f, depth)[k].depth + 1),
              Flatten(EditAt(f, depth, k, row, below), depth))
  }

  ghost predicate CutsTo(lines: seq<Line>, k: nat, e: nat, row: Row, below: seq<Line>, r: seq<Line>)
  {
    k < e <= |lines| && r == Cut(lines, k, e, row, below)
  }

  lemma UnfoldBelow(f: Forest, depth: nat, k: nat, row: Row, below: Forest)
    requires f.Tree? && 0 < k <= |Flatten(f.below, depth + 1)|
    ensures var head, sub, rest := Line(f.row, depth), Flatten(f.below, depth + 1), Flatten(f.beside, depth);
            var g := EditAt(f.below, depth + 1, k - 1, row, below);
            && Flatten(f, depth) == [head] + sub + rest
            && Flatten(f, depth)[k] == sub[k - 1]
            && EndAt(f, depth, k) == 1 + EndAt(f.below, depth + 1, k - 1)
            && Flatten(EditAt(f, depth, k, row, below), depth) == [head] + Flatten(g, depth + 1) + rest
  {
  }

  lemma UnfoldBeside(f: Forest, depth: nat, k: nat, n: nat, row: Row, below: Forest)
    requires f.Tree? && n == |Flatten(f.below, depth + 1)| < k < |Flatten(f, depth)|
    ensures var head, sub, rest := Line(f.row, depth), Flatten(f.below, depth + 1), Flatten(f.beside, depth);
            var g := EditAt(f.beside, depth, k - 1 - n, row, below);
            && Flatten(f, depth) == [head] + sub + rest
            && Flatten(f, depth)[k] == rest[k - 1 - n]
            && EndAt(f, depth, k) == 1 + n + EndAt(f.beside, depth, k - 1 - n)
            && Flatten(EditAt(f, depth, k, row, below), depth) == [head] + sub + Flatten(g, depth)
  {
  }

  lemma EditBelow(f: Forest, depth: nat, k: nat, row: Row, below: Forest)
    requires f.Tree? && k > 0 && EditCuts(f.below, depth + 1, k - 1, row, below)
    ensures EditCuts(f, depth, k, row, below)
  {
    UnfoldBelow(f, depth, k, row, below);
    CutBelow(Line(f.row, depth), Flatten(f.below, depth + 1), Flatten(f.beside, depth),
             k, EndAt(f.below, depth + 1, k - 1), row, Flatten(below, Flatten(f.below, depth + 1)[k - 1].depth + 1),
             Flatten(EditAt(f.below, depth + 1, k - 1, row, below), depth + 1));
  }

  lemma EditBeside(f: Forest, depth: nat, k: nat, n: nat, row: Row, below: Forest)
    requires f.Tree? && n == |Flatten(f.below, depth + 1)| < k && EditCuts(f.beside, depth, k - 1 - n, row, below)
    ensures EditCuts(f, depth, k, row, below)
  {
    UnfoldBeside(f, depth, k, n, row, below);
    GlueBeside(Line(f.row, depth), Flatten(f.below, depth + 1), Flatten(f.beside, depth), Flatten(f, depth), n, k,
               EndAt(f.beside, depth, k - 1 - n), EndAt(f, depth, k), row,
               Flatten(below, Flatten(f, depth)[k].depth + 1),
               Flatten(EditAt(f.beside, depth, k - 1 - n, row, below), depth),
               Flatten(EditAt(f, depth, k, row, below), depth));
  }

  lemma GlueBeside(head: Line, sub: seq<Line>, rest: seq<Line>, lines: seq<Line>, n: nat, k: nat, e: nat, end: nat,
                   row: Row, below: seq<Line>, g: seq<Line>, r: seq<Line>)
    requires n == |sub| < k && CutsTo(rest, k - 1 - n, e, row, below, g)
    requires lines == [head] + sub + rest && end == 1 + n + e && r == [head] + sub + g
    ensures CutsTo(lines, k, end, row, below, r)
  {
  }

  lemma {:induction false} EditIsCut(f: Forest, depth: nat, k: nat, row: Row, below: Forest)
    requires k < |Flatten(f, depth)|
    ensures EditCuts(f, depth, k, row, below)
  {
    var n := |Flatten(f.below, depth + 1)|;
    if k == 0 {
    } else if k <= n {
      EditIsCut(f.below, depth + 1, k - 1, row, below);
      EditBelow(f, depth, k, row, below);
    } else {
      EditIsCut(f.beside, depth, k - 1 - n, row, below);
      EditBeside(f, depth, k, n, row, below);
    }
  }

  lemma EndsHead(head: Line, sub: seq<Line>, rest: seq<Line>)
    requires forall i :: 0 <= i < |sub| ==> sub[i].depth > head.depth
    requires rest != [] ==> rest[0].depth <= head.depth
    ensures Ends([head] + sub + rest, 0, 1 + |sub|)
  {
    var lines := [head] + sub + rest;
    assert forall j :: 0 < j <= |sub| ==> lines[j] == sub[j - 1];
  }

  lemma EndsBelow(head: Line, sub: seq<Line>, rest: seq<Line>, k: nat, e: nat)
    requires Ends(sub, k, e) && sub[k].depth > head.depth && (rest != [] ==> rest[0].depth <= head.depth)
    ensures Ends([head] + sub + rest, k + 1, e + 1)
  {
    ShiftEnds([head] + sub + rest, sub, 1, k, e);
  }

  lemma EndsBeside(head: Line, sub: seq<Line>, rest: seq<Line>, k: nat, e: nat)
    requires Ends(rest, k, e)
    ensures Ends([head] + sub + rest, 1 + |sub| + k, 1 + |sub| + e)
  {
    ShiftEnds([head] + sub + rest, rest, 1 + |sub|, k, e);
  }

  /** The scan by depth stops where the subtree ends. */
  ghost predicate Separates(f: Forest, depth: nat, k: nat)
  {
    k < |Flatten(f, depth)| && Ends(Flatten(f, depth), k, EndAt(f, depth, k))
  }

  lemma SeparatesHead(f: Forest, depth: nat)
    requires f.Tree?
    ensures Separates(f, depth, 0)
  {
    FlattenDepths(f.below, depth + 1);
    FlattenDepths(f.beside, depth);
    EndsHead(Line(f.row, depth), Flatten(f.below, depth + 1), Flatten(f.beside, depth));
  }

  lemma SeparatesBelow(f: Forest, depth: nat, k: nat)
    requires f.Tree? && k > 0 && Separates(f.below, depth + 1, k - 1)
    ensures Separates(f, depth, k)
  {
    FlattenDepths(f.below, depth + 1);
    FlattenDepths(f.beside, depth);
    EndsBelow(Line(f.row, depth), Flatten(f.below, depth + 1), Flatten(f.beside, depth),
              k - 1, EndAt(f.below, depth + 1, k - 1));
  }

  lemma SeparatesBeside(f: Forest, depth: nat, k: nat, n: nat)
    requires f.Tree? && n == |Flatten(f.below, depth + 1)| < k && Separates(f.beside, depth, k - 1 - n)
    ensures Separates(f, depth, k)
  {
    UnfoldBeside(f, depth, k, n, f.row, Empty);
    GlueEnds(Line(f.row, depth), Flatten(f.below, depth + 1), Flatten(f.beside, depth), Flatten(f, depth), n, k,
             EndAt(f.beside, depth, k - 1 - n), EndAt(f, depth, k));
  }

  lemma GlueEnds(head: Line, sub: seq<Line>, rest: seq<Line>, lines: seq<Line>, n: nat, k: nat, e: nat, end: nat)
    requires n == |sub| < k && Ends(rest, k - 1 - n, e) && lines == [head] + sub + rest && end == 1 + n + e
    ensures Ends(lines, k, end)
  {
    EndsBeside(head, sub, rest, k - 1 - n, e);
  }

  lemma {:induction false} EndSeparates(f: Forest, depth: nat, k: nat)
    requires k < |Flatten(f, depth)|
    ensures Separates(f, depth, k)
  {
    var n := |Flatten(f.below, depth + 1)|;
    if k == 0 {
      SeparatesHead(f, depth);
    } else if k <= n {
      EndSeparates(f.below, depth + 1, k - 1);
      SeparatesBelow(f, depth, k);
    } else {
      EndSeparates(f.beside, depth, k - 1 - n);
      SeparatesBeside(f, depth, k, n);
    }
  }

  lemma ShiftEnds(lines: seq<Line>, mid: seq<Line>, at: nat, k: nat, e: nat)
    requires Ends(mid, k, e) && at + |mid| <= |lines|
    requires forall j :: at <= j < at + |mid| ==> lines[j] == mid[j - at]
    requires at + |mid| < |lines| ==> lines[at + |mid|].depth <= mid[k].depth
    ensures Ends(lines, at + k, at + e)
  {
  }

  /** Splicing the flat list is editing the tree: the scan by depth finds exactly the subtree. */
  lemma EditIsSplice(f: Forest, depth: nat, k: nat, row: Row, below: Forest)
    requires k < |Flatten(f, depth)|
    ensures Flatten(EditAt(f, depth, k, row, below), depth) ==
            Spliced(Flatten(f, depth), k, row, Flatten(below, Flatten(f, depth)[k].depth + 1))
  {
    EditIsCut(f, depth, k, row, below);
    EndSeparates(f, depth, k);
  }

  lemma {:induction false} EditKeepsProper(f: Forest, depth: nat, k: nat, row: Row, below: Forest)
    requires k < |Flatten(f, depth)| && Proper(f)
    requires Proper(below) && (below.Tree? ==> row.expanded)
    ensures Proper(EditAt(f, depth, k, row, below))
  {
    var n := |Flatten(f.below, depth + 1)|;
    FlattenDepths(f.below, depth + 1);
    if 0 < k <= n {
      EditKeepsProper(f.below, depth + 1, k - 1, row, below);
    } else if k > n {
      EditKeepsProper(f.beside, depth, k - 1 - n, row, below);
    }
  }
}
