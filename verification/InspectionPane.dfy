/**
 The variable pane as the client keeps it: a list edited in place, standing for a forest.
 */
module InspectionPane {
  import opened Wrappers
  import opened VariableForest
  import opened VariablePane
  import OptionParser
  import Projection

  datatype Scope = Scope(id: string, name: string, expensive: bool, count: Option<nat>)

  datatype Evaluation = Evaluation(id: Option<string>, value: string, hasChildren: bool, count: Option<nat>)

  const LOAD_ON_DEMAND := "Load on demand"
  const UNAVAILABLE := "Unavailable: "

  function ScopeRow(s: Scope): (r: Row)
  {
    Row(s.id, s.name, if s.expensive then LOAD_ON_DEMAND else "", None, false, true,
        !s.expensive && s.count != Some(0), s.count != Some(0), if s.count.Some? then s.count.value else 0, false)
  }

  function ScopeRows(scopes: seq<Scope>): (rows: seq<Row>)
  {
    seq(|scopes|, i requires 0 <= i < |scopes| => ScopeRow(scopes[i]))
  }

  function Evaluated(row: Row, result: Result<Evaluation, string>, expandable: bool): (r: Row)
    ensures r.expanded == row.expanded
  {
    match result
    case Ok(e) =>
      var id := if e.id.Some? then e.id.value else "";
      row.(loading := false, id := id, value := e.value, hasChildren := expandable && e.hasChildren && id != "",
           children := if e.count.Some? then e.count.value else 0)
    case Err(error) => row.(loading := false, value := UNAVAILABLE + error)
  }

  /** An inspection being typed or, with its expression, waiting for its value. */
  datatype Request = Request(id: nat, expression: string)

  datatype InspectionError = EmptyExpression | ContextChanged | AlreadySubmitted

  const INSPECT := "Inspect: "
  const EVALUATING := "Evaluating\U{2026}"

  function InspectionRow(expression: string): (r: Row)
  {
    Row("", INSPECT + expression, EVALUATING, None, true, false, true, false, 0, false)
  }

  predicate NotInspection(row: Row)
  {
    !row.inspection
  }

  predicate NotWatch(row: Row)
  {
    row.watchId.None?
  }

  predicate IsExpression(row: Row)
  {
    row.watchId.Some? || row.inspection
  }

  lemma RetainedStep(lines: seq<Line>, i: nat, keep: bool, p: Row -> bool)
    requires i < |lines|
    ensures var k := if lines[i].depth == 0 then p(lines[i].row) else keep;
            Retained(lines[i..], keep, p) == (if k then [lines[i]] else []) + Retained(lines[i + 1..], k, p)
  {
    assert lines[i..][1..] == lines[i + 1..];
  }

  method Retain(lines: seq<Line>, p: Row -> bool, initially: bool) returns (kept: seq<Line>)
    ensures kept == Retained(lines, initially, p)
  {
    kept := [];
    var keep, i := initially, 0;
    while i < |lines|
      invariant i <= |lines|
      invariant kept + Retained(lines[i..], keep, p) == Retained(lines, initially, p)
    {
      RetainedStep(lines, i, keep, p);
      if lines[i].depth == 0 {
        keep := p(lines[i].row);
      }
      if keep {
        kept := kept + [lines[i]];
      }
      i := i + 1;
    }
  }

  class Pane {
    var variables: seq<Line>
    var selected: nat
    var inspection: Option<Request>
    var nextId: nat
    ghost var forest: Forest

    ghost predicate Valid()
      reads this
    {
      variables == Flatten(forest, 0) && Proper(forest)
    }

    constructor ()
      ensures Valid() && forest == Empty && selected == 0 && inspection == None
    {
      variables, selected, inspection, nextId, forest := [], 0, None, 1, Empty;
    }

    method EndBelow(k: nat) returns (e: nat)
      requires k < |variables|
      ensures e == SubtreeEnd(variables, k, k + 1)
    {
      e := k + 1;
      while e < |variables| && variables[e].depth > variables[k].depth
        invariant k < e <= |variables|
        invariant SubtreeEnd(variables, k, k + 1) == SubtreeEnd(variables, k, e)
      {
        e := e + 1;
      }
    }

    method Find(id: string) returns (k: nat)
      ensures k == FirstWithId(variables, id)
    {
      k := 0;
      while k < |variables| && variables[k].row.id != id
        invariant k <= |variables|
        invariant forall j :: 0 <= j < k ==> variables[j].row.id != id
      {
        k := k + 1;
      }
    }

    /** The pass over the list removes whole trees: it keeps those whose root satisfies `p`. */
    method RetainRoots(p: Row -> bool, initially: bool)
      requires Valid()
      modifies this`variables, this`forest
      ensures Valid() && forest == FilterRoots(old(forest), p)
    {
      var kept := Retain(variables, p, initially);
      RetainIsFilterRoots(forest, initially, p);
      FilterKeepsProper(forest, p);
      variables, forest := kept, FilterRoots(forest, p);
    }

    method ApplyScopes(scopes: seq<Scope>)
      requires Valid()
      modifies this`variables, this`selected, this`forest
      ensures Valid() && forest == Append(FilterRoots(old(forest), IsExpression), Leaves(ScopeRows(scopes)))
      ensures selected == Bounded(old(selected), |variables|)
    {
      RetainRoots(IsExpression, false);
      AppendFlattens(forest, Leaves(ScopeRows(scopes)), 0);
      LeavesFlatten(ScopeRows(scopes), 0);
      variables := variables + AtDepth(ScopeRows(scopes), 0);
      forest := Append(forest, Leaves(ScopeRows(scopes)));
      selected := Bounded(selected, |variables|);
    }

    /** Children arrive: the first row with that identity gets them as its only descendants. */
    method ApplyChildren(parent: string, items: seq<Row>)
      requires Valid()
      modifies this`variables, this`selected, this`forest
      ensures Valid() && variables == WithChildren(old(variables), parent, items)
      ensures var k := FirstWithId(old(variables), parent);
              forest == if k == |old(variables)| then old(forest)
                        else EditAt(old(forest), 0, k, Delivered(old(variables)[k].row, |items|), Leaves(items))
      ensures FirstWithId(old(variables), parent) < |old(variables)| ==> selected == Bounded(old(selected), |variables|)
    {
      var k := Find(parent);
      if k < |variables| {
        var e := EndBelow(k);
        Replace(k, e, Delivered(variables[k].row, |items|), items);
        selected := Bounded(selected, |variables|);
      }
    }

    /** Rewrite an expanded row and replace everything below it by leaves. */
    method Replace(k: nat, e: nat, row: Row, items: seq<Row>)
      requires Valid() && k < |variables| && e == SubtreeEnd(variables, k, k + 1) && (items != [] ==> row.expanded)
      modifies this`variables, this`forest
      ensures Valid() && forest == EditAt(old(forest), 0, k, row, Leaves(items))
      ensures variables == Spliced(old(variables), k, row, AtDepth(items, old(variables)[k].depth + 1))
    {
      LeavesAreSpliced(forest, k, row, items);
      forest := EditAt(forest, 0, k, row, Leaves(items));
      variables := variables[..k] + [Line(row, variables[k].depth)] + AtDepth(items, variables[k].depth + 1) + variables[e..];
    }

    /** Collapse the selected row, or ask for its children. */
    method Toggle() returns (asked: Option<string>)
      requires Valid()
      modifies this`variables, this`forest
      ensures Valid() && variables == Toggled(old(variables), selected)
      ensures asked.Some? <==> selected < |old(variables)| &&
                               var row := old(variables)[selected].row; row.hasChildren && !row.loading && !row.expanded
      ensures asked.Some? ==> asked.value == old(variables)[selected].row.id
      ensures selected < |old(variables)| ==>
                var row := old(variables)[selected].row;
                forest == if !row.hasChildren || row.loading then old(forest)
                          else if row.expanded then EditAt(old(forest), 0, selected, row.(expanded := false), Empty)
                          else RelabelAt(old(forest), selected, row.(loading := true))
    {
      asked := None;
      var k := selected;
      if k >= |variables| || !variables[k].row.hasChildren || variables[k].row.loading {
        return;
      }
      if variables[k].row.expanded {
        var e := EndBelow(k);
        Replace(k, e, variables[k].row.(expanded := false), []);
      } else {
        asked := Some(variables[k].row.id);
        var row := variables[k].row.(loading := true);
        RelabelIsUpdate(forest, k, row);
        forest := RelabelAt(forest, k, row);
        variables := variables[k := Line(row, variables[k].depth)];
      }
    }

    method ClearInspection()
      requires Valid()
      modifies this`variables, this`selected, this`inspection, this`forest
      ensures Valid() && Cleared(old(forest))
      ensures selected == Bounded(old(selected), |variables|)
    {
      inspection := None;
      RetainRoots(NotInspection, true);
      selected := Bounded(selected, |variables|);
    }

    /** No request is left, and of the trees exactly those of inspections are gone. */
    ghost predicate Cleared(was: Forest)
      reads this
    {
      inspection == None && forest == FilterRoots(was, NotInspection)
    }

    /** A new request, with its own identity and no expression yet, replaces whatever was inspected. */
    method StartInspection()
      requires Valid()
      modifies this
      ensures Valid() && inspection == Some(Request(old(nextId), "")) && nextId == Projection.Bump(old(nextId))
      ensures forest == FilterRoots(old(forest), NotInspection)
    {
      var request := Request(nextId, "");
      nextId := Projection.Bump(nextId);
      ClearInspection();
      inspection := Some(request);
    }

    /** An expression is submitted once, for the context it was opened in; its row is the first root and selected. */
    method PrepareInspection(expression: string, current: bool) returns (r: Result<Request, InspectionError>)
      requires Valid()
      modifies this`variables, this`selected, this`inspection, this`forest
      ensures Valid()
      ensures r.Ok? <==> OptionParser.Trim(expression) != "" && current && old(inspection).Some? && old(inspection).value.expression == ""
      ensures r.Ok? ==>
                && r.value == Request(old(inspection).value.id, expression) && inspection == Some(r.value)
                && forest == Tree(InspectionRow(expression), Empty, old(forest)) && selected == 0
      ensures r == Err(EmptyExpression) <==> OptionParser.Trim(expression) == ""
      ensures r == Err(AlreadySubmitted) <==>
                OptionParser.Trim(expression) != "" && old(inspection).Some? && old(inspection).value.expression != ""
      ensures r.Err? ==>
                if OptionParser.Trim(expression) == "" || (old(inspection).Some? && old(inspection).value.expression == "")
                then Cleared(old(forest)) else forest == old(forest) && inspection == old(inspection)
    {
      if OptionParser.Trim(expression) == "" {
        ClearInspection();
        return Err(EmptyExpression);
      }
      if inspection.None? {
        return Err(ContextChanged);
      }
      if inspection.value.expression != "" {
        return Err(AlreadySubmitted);
      }
      if !current {
        ClearInspection();
        return Err(ContextChanged);
      }
      var request := inspection.value.(expression := expression);
      forest := Tree(InspectionRow(expression), Empty, forest);
      variables := [Line(InspectionRow(expression), 0)] + variables;
      inspection, selected := Some(request), 0;
      return Ok(request);
    }

    /** Only the result of the current request counts; it rewrites the first inspection row and nothing else. */
    method FinishInspection(id: nat, current: bool, result: Result<Evaluation, string>, expandable: bool)
      requires Valid()
      modifies this`variables, this`forest
      ensures Valid()
      ensures var k := FirstInspection(old(variables));
              forest == if inspection.None? || inspection.value.id != id || !current || k == |old(variables)| then old(forest)
                        else RelabelAt(old(forest), k, Evaluated(old(variables)[k].row, result, expandable))
    {
      if inspection.None? || inspection.value.id != id || !current {
        return;
      }
      var k := FindInspection();
      if k < |variables| {
        var row := Evaluated(variables[k].row, result, expandable);
        RelabelIsUpdate(forest, k, row);
        forest := RelabelAt(forest, k, row);
        variables := variables[k := Line(row, variables[k].depth)];
      }
    }

    method FindInspection() returns (k: nat)
      ensures k == FirstInspection(variables)
    {
      k := 0;
      while k < |variables| && !variables[k].row.inspection
        invariant k <= |variables|
        invariant forall j :: 0 <= j < k ==> !variables[j].row.inspection
      {
        k := k + 1;
      }
    }

    /** Watch roots are rebuilt in front of the trees of everything else. */
    method ResetWatchRows(roots: seq<Row>)
      requires Valid()
      modifies this`variables, this`forest
      ensures Valid()
      ensures forest == Append(Leaves(roots), FilterRoots(old(forest), NotWatch))
    {
      RetainRoots(NotWatch, true);
      AppendFlattens(Leaves(roots), forest, 0);
      LeavesFlatten(roots, 0);
      variables := AtDepth(roots, 0) + variables;
      forest := Append(Leaves(roots), forest);
    }
  }

}
