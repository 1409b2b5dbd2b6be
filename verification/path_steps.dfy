/**
 The `workflow_path_steps` table and the two lookups a step makes within its
 own path: the step that follows it and the step that precedes it by
 `step_order`, plus the path's step list sorted by `step_order`.
 */
module PathSteps {
  import opened Results
  import opened Requests

  /** One row of `workflow_path_steps`. */
  datatype Step = Step(id: nat, path: PathId, department: DepartmentId, order: int, requiresApproval: bool)

  /**
   `getNextStep`: the step of `s`'s path with the least order above `s`'s.
   The query leaves ties unordered; taking the first in the table is this
   model's choice.
   */
  function NextStep(table: seq<Step>, s: Step): (r: Option<Step>)
    ensures r.Some? ==> r.value in table && r.value.path == s.path && r.value.order > s.order
    ensures r.Some? ==> forall t :: t in table && t.path == s.path ==> !(s.order < t.order < r.value.order)
    ensures r.None? <==> forall t :: t in table && t.path == s.path ==> t.order <= s.order
    ensures r != Some(s)
  {
    if |table| == 0 then None
    else
      var rest := NextStep(table[1..], s);
      var t := table[0];
      assert forall u :: u in table <==> u == t || u in table[1..];
      if t.path == s.path && t.order > s.order && (rest.None? || t.order <= rest.value.order) then Some(t)
      else rest
  }

  /**
   `getPreviousStep`: the step of `s`'s path with the greatest order below
   `s`'s. The query leaves ties unordered; taking the first in the table is
   this model's choice.
   */
  function PreviousStep(table: seq<Step>, s: Step): (r: Option<Step>)
    ensures r.Some? ==> r.value in table && r.value.path == s.path && r.value.order < s.order
    ensures r.Some? ==> forall t :: t in table && t.path == s.path ==> !(r.value.order < t.order < s.order)
    ensures r.None? <==> forall t :: t in table && t.path == s.path ==> t.order >= s.order
    ensures r != Some(s)
  {
    if |table| == 0 then None
    else
      var rest := PreviousStep(table[1..], s);
      var t := table[0];
      assert forall u :: u in table <==> u == t || u in table[1..];
      if t.path == s.path && t.order < s.order && (rest.None? || t.order >= rest.value.order) then Some(t)
      else rest
  }

  /** No two rows of one path share a `step_order`. */
  predicate DistinctOrders(table: seq<Step>) {
    forall i, j :: 0 <= i < |table| && 0 <= j < |table| && i != j && table[i].path == table[j].path ==>
      table[i].order != table[j].order
  }

  /** Under distinct orders, a step is identified by its path and order. */
  lemma SamePlaceSameStep(table: seq<Step>, a: Step, b: Step)
    requires DistinctOrders(table)
    requires a in table && b in table && a.path == b.path && a.order == b.order
    ensures a == b
  {
    var i :| 0 <= i < |table| && table[i] == a;
    var j :| 0 <= j < |table| && table[j] == b;
    assert i == j;
  }

  /** Going forward one step and back again returns to the start. */
  lemma PreviousOfNext(table: seq<Step>, s: Step)
    requires DistinctOrders(table) && s in table
    requires NextStep(table, s).Some?
    ensures PreviousStep(table, NextStep(table, s).value) == Some(s)
  {
    var t := NextStep(table, s).value;
    var p := PreviousStep(table, t);
    assert p.Some?;
    var u := p.value;
    assert !(s.order < u.order < t.order);
    SamePlaceSameStep(table, u, s);
  }

  /** Going back one step and forward again returns to the start. */
  lemma NextOfPrevious(table: seq<Step>, s: Step)
    requires DistinctOrders(table) && s in table
    requires PreviousStep(table, s).Some?
    ensures NextStep(table, PreviousStep(table, s).value) == Some(s)
  {
    var t := PreviousStep(table, s).value;
    var n := NextStep(table, t);
    assert n.Some?;
    var u := n.value;
    assert !(t.order < u.order < s.order);
    SamePlaceSameStep(table, u, s);
  }

  /** The rows of path `p`, in table order. */
  function StepsOf(table: seq<Step>, p: PathId): (r: seq<Step>)
    ensures forall t :: t in r <==> t in table && t.path == p
    ensures DistinctOrders(table) ==> DistinctOrders(r)
  {
    if |table| == 0 then []
    else
      var rest := StepsOf(table[1..], p);
      assert forall u :: u in table <==> u == table[0] || u in table[1..];
      assert DistinctOrders(table) ==> DistinctOrders(table[1..]) by {
        if DistinctOrders(table) {
          forall i, j | 0 <= i < |table| - 1 && 0 <= j < |table| - 1 && i != j && table[1..][i].path == table[1..][j].path
            ensures table[1..][i].order != table[1..][j].order
          {
            assert table[1..][i] == table[i + 1] && table[1..][j] == table[j + 1];
          }
        }
      }
      if table[0].path == p then
        var r := [table[0]] + rest;
        assert DistinctOrders(table) ==> DistinctOrders(r) by {
          if DistinctOrders(table) {
            forall i, j | 0 <= i < |r| && 0 <= j < |r| && i != j && r[i].path == r[j].path
              ensures r[i].order != r[j].order
            {
              if i == 0 || j == 0 {
                var k := if i == 0 then j else i;
                assert r[k] in table[1..];
                var m :| 0 <= m < |table| - 1 && table[1..][m] == r[k];
                assert table[m + 1] == r[k];
              } else {
                assert r[i] == rest[i - 1] && r[j] == rest[j - 1];
              }
            }
          }
        }
        r
      else rest
  }

  /** Orders never decrease along the sequence. */
  predicate Ordered(xs: seq<Step>) {
    forall i, j :: 0 <= i < j < |xs| ==> xs[i].order <= xs[j].order
  }

  /** Orders strictly increase along the sequence. */
  predicate StrictlyOrdered(xs: seq<Step>) {
    forall i, j :: 0 <= i < j < |xs| ==> xs[i].order < xs[j].order
  }

  /** Places `t` into an ordered sequence, ahead of every element whose order is not below its own. */
  function Insert(t: Step, xs: seq<Step>): (r: seq<Step>)
    requires Ordered(xs)
    ensures Ordered(r)
    ensures multiset(r) == multiset(xs) + multiset{t}
    ensures forall u :: u in r ==> u == t || u in xs
  {
    if |xs| == 0 || t.order <= xs[0].order then [t] + xs
    else
      var rest := Insert(t, xs[1..]);
      assert xs == [xs[0]] + xs[1..];
      var r := [xs[0]] + rest;
      forall j | 0 <= j < |rest|
        ensures xs[0].order <= rest[j].order
      {
        assert rest[j] in rest;
        if rest[j] != t {
          var m :| 0 <= m < |xs| - 1 && xs[1..][m] == rest[j];
          assert xs[m + 1] == rest[j];
        }
      }
      assert forall j :: 0 < j < |r| ==> r[j] == rest[j - 1];
      r
  }

  /** Inserting an element whose order is new into a strictly ordered sequence keeps it strictly ordered. */
  lemma {:induction false} InsertStrict(t: Step, xs: seq<Step>)
    requires StrictlyOrdered(xs)
    requires forall u :: u in xs ==> u.order != t.order
    ensures StrictlyOrdered(Insert(t, xs))
  {
    if |xs| > 0 && t.order > xs[0].order {
      InsertStrict(t, xs[1..]);
      var rest := Insert(t, xs[1..]);
      var r := Insert(t, xs);
      assert r == [xs[0]] + rest;
      forall j | 0 <= j < |rest|
        ensures xs[0].order < rest[j].order
      {
        assert rest[j] in rest;
        if rest[j] != t {
          var m :| 0 <= m < |xs| - 1 && xs[1..][m] == rest[j];
          assert xs[m + 1] == rest[j];
        }
      }
      assert forall j :: 0 < j < |r| ==> r[j] == rest[j - 1];
    }
  }

  /** Insertion sort by `step_order`; elements of equal order keep their table order. */
  function SortByOrder(xs: seq<Step>): (r: seq<Step>)
    ensures Ordered(r)
    ensures multiset(r) == multiset(xs)
  {
    if |xs| == 0 then []
    else
      assert xs == [xs[0]] + xs[1..];
      Insert(xs[0], SortByOrder(xs[1..]))
  }

  /** Sorting a sequence whose orders are pairwise distinct yields strictly increasing orders. */
  lemma {:induction false} SortStrict(xs: seq<Step>, p: PathId)
    requires forall u :: u in xs ==> u.path == p
    requires DistinctOrders(xs)
    ensures StrictlyOrdered(SortByOrder(xs))
  {
    if |xs| > 0 {
      var tail := xs[1..];
      assert DistinctOrders(tail) by {
        forall i, j | 0 <= i < |tail| && 0 <= j < |tail| && i != j && tail[i].path == tail[j].path
          ensures tail[i].order != tail[j].order
        {
          assert tail[i] == xs[i + 1] && tail[j] == xs[j + 1];
        }
      }
      SortStrict(tail, p);
      var sorted := SortByOrder(tail);
      forall u | u in sorted
        ensures u.order != xs[0].order
      {
        assert u in multiset(sorted);
        assert u in tail;
        var m :| 0 <= m < |tail| && tail[m] == u;
        assert xs[m + 1] == u;
      }
      InsertStrict(xs[0], sorted);
    }
  }

  /** `WorkflowPath::steps()`: the rows of path `p` ordered by `step_order`. */
  function OrderedSteps(table: seq<Step>, p: PathId): (r: seq<Step>)
    ensures Ordered(r)
    ensures forall t :: t in r <==> t in table && t.path == p
    ensures DistinctOrders(table) ==> StrictlyOrdered(r)
  {
    var own := StepsOf(table, p);
    var r := SortByOrder(own);
    assert forall t :: t in r <==> t in own by {
      forall t ensures t in r <==> t in own {
        assert t in r <==> t in multiset(r);
        assert t in own <==> t in multiset(own);
      }
    }
    if DistinctOrders(table) then
      SortStrict(own, p);
      r
    else r
  }

  /** A strictly ordered list holding exactly the rows of path `p`. */
  ghost predicate ListsPath(table: seq<Step>, p: PathId, steps: seq<Step>) {
    && StrictlyOrdered(steps)
    && forall t :: t in steps <==> t in table && t.path == p
  }

  /** In such a list, an entry followed by another has that one as its next step. */
  lemma NextIsSuccessor(table: seq<Step>, p: PathId, steps: seq<Step>, i: nat)
    requires ListsPath(table, p, steps)
    requires i + 1 < |steps|
    ensures NextStep(table, steps[i]) == Some(steps[i + 1])
  {
    var s := steps[i];
    assert steps[i + 1] in steps;
    var u := NextStep(table, s).value;
    assert u in steps;
    var k :| 0 <= k < |steps| && steps[k] == u;
    assert k > i;
    assert k == i + 1;
  }

  /** In such a list, the last entry has no next step. */
  lemma LastHasNoNext(table: seq<Step>, p: PathId, steps: seq<Step>)
    requires ListsPath(table, p, steps)
    requires |steps| > 0
    ensures NextStep(table, steps[|steps| - 1]) == None
  {
    var s := steps[|steps| - 1];
    forall t | t in table && t.path == s.path
      ensures t.order <= s.order
    {
      assert s in steps;
      assert t in steps;
      var k :| 0 <= k < |steps| && steps[k] == t;
      assert k == |steps| - 1 || steps[k].order < s.order;
    }
  }

  /** In such a list, an entry preceded by another has that one as its previous step. */
  lemma PreviousIsPredecessor(table: seq<Step>, p: PathId, steps: seq<Step>, i: nat)
    requires ListsPath(table, p, steps)
    requires 0 < i < |steps|
    ensures PreviousStep(table, steps[i]) == Some(steps[i - 1])
  {
    var s := steps[i];
    assert steps[i - 1] in steps;
    var u := PreviousStep(table, s).value;
    assert u in steps;
    var k :| 0 <= k < |steps| && steps[k] == u;
    assert k < i;
    assert k == i - 1;
  }

  /** In such a list, the first entry has no previous step. */
  lemma FirstHasNoPrevious(table: seq<Step>, p: PathId, steps: seq<Step>)
    requires ListsPath(table, p, steps)
    requires |steps| > 0
    ensures PreviousStep(table, steps[0]) == None
  {
    var s := steps[0];
    forall t | t in table && t.path == s.path
      ensures t.order >= s.order
    {
      assert s in steps;
      assert t in steps;
      var k :| 0 <= k < |steps| && steps[k] == t;
      assert k == 0 || s.order < steps[k].order;
    }
  }

  /**
   Under distinct orders, the next step of each entry of the ordered step
   list is the entry after it, and the last entry has no next step.
   */
  lemma NextFollowsOrderedSteps(table: seq<Step>, p: PathId, i: nat)
    requires DistinctOrders(table)
    requires i < |OrderedSteps(table, p)|
    ensures var steps := OrderedSteps(table, p);
            NextStep(table, steps[i]) == if i + 1 < |steps| then Some(steps[i + 1]) else None
  {
    var steps := OrderedSteps(table, p);
    if i + 1 < |steps| {
      NextIsSuccessor(table, p, steps, i);
    } else {
      LastHasNoNext(table, p, steps);
    }
  }

  /**
   Under distinct orders, the previous step of each entry of the ordered step
   list is the entry before it, and the first entry has no previous step.
   */
  lemma PreviousPrecedesOrderedSteps(table: seq<Step>, p: PathId, i: nat)
    requires DistinctOrders(table)
    requires i < |OrderedSteps(table, p)|
    ensures var steps := OrderedSteps(table, p);
            PreviousStep(table, steps[i]) == if i > 0 then Some(steps[i - 1]) else None
  {
    var steps := OrderedSteps(table, p);
    if i > 0 {
      PreviousIsPredecessor(table, p, steps, i);
    } else {
      FirstHasNoPrevious(table, p, steps);
    }
  }
}
