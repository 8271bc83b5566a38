/** The tracker's data and the pure list transformations its handlers build with
    `map`, `filter` and spread: appending an element, committing a timer, removing a
    project, removing an element. Also the well-formedness of ids and the time
    invariant that every transformation keeps. */
module Projects {
  import opened Optional

  /** Ids are issued by a counter that stands for the clock reading the tracker uses. */
  type Id = nat

  datatype Element = Element(id: Id, name: string, time: nat)

  /** `totalTime` is an `int`: deleting an element subtracts from it. */
  datatype Project = Project(id: Id, name: string, elements: seq<Element>, totalTime: int)

  /** The running timer's target: a whole project, or one element of it. */
  datatype Target = Target(projectId: Id, elementId: Option<Id>)

  // ---------------------------------------------------------------------------
  // Ids, sums and the invariants

  function IdsOf(es: seq<Element>): (r: seq<Id>)
    ensures |r| == |es| && forall k :: 0 <= k < |es| ==> r[k] == es[k].id
  {
    seq(|es|, k requires 0 <= k < |es| => es[k].id)
  }

  lemma IdsSplit(es: seq<Element>)
    requires es != []
    ensures IdsOf(es) == [es[0].id] + IdsOf(es[1..]) && IdsOf(es)[1..] == IdsOf(es[1..])
  {
  }

  lemma IdsCons(e: Element, es: seq<Element>)
    ensures IdsOf([e] + es) == [e.id] + IdsOf(es)
  {
  }

  function ProjectIds(ps: seq<Project>): (r: seq<Id>)
    ensures |r| == |ps| && forall i :: 0 <= i < |ps| ==> r[i] == ps[i].id
  {
    seq(|ps|, i requires 0 <= i < |ps| => ps[i].id)
  }

  lemma ProjectIdsSplit(ps: seq<Project>)
    requires ps != []
    ensures ProjectIds(ps) == [ps[0].id] + ProjectIds(ps[1..]) && ProjectIds(ps)[1..] == ProjectIds(ps[1..])
  {
  }

  lemma ProjectIdsCons(p: Project, ps: seq<Project>)
    ensures ProjectIds([p] + ps) == [p.id] + ProjectIds(ps)
  {
  }

  /** The ids of every element of every project, project by project. */
  function AllElementIds(ps: seq<Project>): seq<Id>
  {
    if ps == [] then [] else IdsOf(ps[0].elements) + AllElementIds(ps[1..])
  }

  /** No id occurs twice. */
  ghost predicate Distinct(s: seq<Id>)
  {
    forall x :: multiset(s)[x] <= 1
  }

  ghost predicate Below(s: seq<Id>, bound: Id)
  {
    forall x :: x in s ==> x < bound
  }

  /** Project ids are unique, element ids are unique across all projects, and every
      id was issued before `nextId`. */
  ghost predicate WellFormed(ps: seq<Project>, nextId: Id)
  {
    Distinct(ProjectIds(ps)) && Distinct(AllElementIds(ps))
    && Below(ProjectIds(ps), nextId) && Below(AllElementIds(ps), nextId)
  }

  /** The committed time of a sequence of elements. */
  function SumTimes(es: seq<Element>): nat
  {
    if es == [] then 0 else es[0].time + SumTimes(es[1..])
  }

  /** A project's total covers the committed time of its elements. */
  ghost predicate Covers(p: Project)
  {
    SumTimes(p.elements) <= p.totalTime
  }

  ghost predicate Consistent(ps: seq<Project>)
  {
    forall i :: 0 <= i < |ps| ==> Covers(ps[i])
  }

  /** In a consistent list no project total is negative. */
  lemma ConsistentTotalsNonNegative(ps: seq<Project>)
    requires Consistent(ps)
    ensures forall i :: 0 <= i < |ps| ==> ps[i].totalTime >= 0
  {
    forall i | 0 <= i < |ps| ensures ps[i].totalTime >= 0 {
      assert Covers(ps[i]);
    }
  }

  predicate HasElement(es: seq<Element>, eid: Id)
  {
    eid in IdsOf(es)
  }

  /** The target names a project of `ps` and, for an element timer, an element of it. */
  ghost predicate HasTarget(ps: seq<Project>, t: Target)
  {
    exists i :: 0 <= i < |ps| && ps[i].id == t.projectId
      && (t.elementId.Some? ==> HasElement(ps[i].elements, t.elementId.value))
  }

  /** The committed time of every project as a whole. */
  function TotalLogged(ps: seq<Project>): int
  {
    if ps == [] then 0 else ps[0].totalTime + TotalLogged(ps[1..])
  }

  // ---------------------------------------------------------------------------
  // Element-level transformations

  /** `elements.map(el => el.id === eid ? {...el, time: el.time + n} : el)`: only
      elements with id `eid` gain `n`, and ids stay where they were. */
  function AddTime(es: seq<Element>, eid: Id, n: nat): (r: seq<Element>)
    ensures IdsOf(r) == IdsOf(es)
    ensures forall k :: 0 <= k < |es| ==>
      r[k].name == es[k].name && r[k].time == es[k].time + (if es[k].id == eid then n else 0)
  {
    if es == [] then []
    else
      var e := es[0];
      var tail := AddTime(es[1..], eid, n);
      var r := [if e.id == eid then e.(time := e.time + n) else e] + tail;
      assert r[1..] == tail;
      r
  }

  /** A sequence with distinct ids loses its distinctness by no suffix. */
  lemma DistinctTail(s: seq<Id>)
    requires s != [] && Distinct(s)
    ensures Distinct(s[1..]) && s[0] !in s[1..]
  {
    assert s == [s[0]] + s[1..];
    forall x: Id ensures multiset(s[1..])[x] <= 1 {
      assert multiset(s)[x] <= 1;
    }
    assert multiset(s)[s[0]] <= 1;
  }

  /** With unique ids, a commit to element `eid` adds `n` to the sum exactly when the
      element is there, and nothing otherwise. */
  lemma {:induction false} AddTimeSum(es: seq<Element>, eid: Id, n: nat)
    requires Distinct(IdsOf(es))
    ensures SumTimes(AddTime(es, eid, n)) == SumTimes(es) + (if HasElement(es, eid) then n else 0)
  {
    if es != [] {
      var r := AddTime(es, eid, n);
      IdsSplit(es);
      DistinctTail(IdsOf(es));
      assert r[1..] == AddTime(es[1..], eid, n);
      AddTimeSum(es[1..], eid, n);
      assert HasElement(es, eid) <==> es[0].id == eid || HasElement(es[1..], eid) by {
        IdsSplit(es);
      }
    }
  }

  /** Position `k` holds the first element with id `eid`. */
  ghost predicate FirstAt(es: seq<Element>, eid: Id, k: int)
  {
    0 <= k < |es| && es[k].id == eid && forall j :: 0 <= j < k ==> es[j].id != eid
  }

  /** `elements.find(el => el.id === eid)`: the first element with that id, if any. */
  function FindElement(es: seq<Element>, eid: Id): (r: Option<Element>)
    ensures r.Some? <==> HasElement(es, eid)
    ensures r.Some? ==> exists k :: FirstAt(es, eid, k) && es[k] == r.value
  {
    if es == [] then None
    else if es[0].id == eid then
      assert FirstAt(es, eid, 0);
      Some(es[0])
    else
      var r := FindElement(es[1..], eid);
      IdsSplit(es);
      assert r.Some? ==> exists k :: FirstAt(es, eid, k) && es[k] == r.value by {
        if r.Some? {
          var k :| FirstAt(es[1..], eid, k) && es[1..][k] == r.value;
          FirstAtShift(es, eid, k);
        }
      }
      r
  }

  /** A first occurrence after a different head is a first occurrence one further on. */
  lemma FirstAtShift(es: seq<Element>, eid: Id, k: int)
    requires es != [] && es[0].id != eid && FirstAt(es[1..], eid, k)
    ensures FirstAt(es, eid, k + 1)
  {
    forall j | 0 < j < k + 1 ensures es[j].id != eid {
      assert es[1..][j - 1].id != eid;
    }
  }

  /** `element?.time || 0`: the committed time of the element found, 0 when absent. */
  function TimeOf(es: seq<Element>, eid: Id): (t: nat)
    ensures !HasElement(es, eid) ==> t == 0
    ensures HasElement(es, eid) ==> exists k :: FirstAt(es, eid, k) && t == es[k].time
  {
    match FindElement(es, eid)
    case Some(e) => e.time
    case None => 0
  }

  /** `elements.filter(el => el.id !== eid)`: every element with id `eid` goes, the
      others stay in order. */
  function DropElement(es: seq<Element>, eid: Id): (r: seq<Element>)
    ensures forall e :: e in r <==> e in es && e.id != eid
  {
    if es == [] then []
    else
      var tail := DropElement(es[1..], eid);
      if es[0].id == eid then tail else [es[0]] + tail
  }

  /** The filter works piece by piece over a concatenation, so the kept elements stay
      in their old order. */
  lemma {:induction false} DropElementAppend(a: seq<Element>, b: seq<Element>, eid: Id)
    ensures DropElement(a + b, eid) == DropElement(a, eid) + DropElement(b, eid)
  {
    if a == [] {
      assert a + b == b;
    } else {
      assert (a + b)[0] == a[0];
      assert (a + b)[1..] == a[1..] + b;
      DropElementAppend(a[1..], b, eid);
    }
  }

  /** Removing element `eid` takes out every copy of its id and no other id. */
  lemma {:induction false} DropElementCount(es: seq<Element>, eid: Id, x: Id)
    ensures multiset(IdsOf(DropElement(es, eid)))[x] == if x == eid then 0 else multiset(IdsOf(es))[x]
  {
    if es != [] {
      var tail := DropElement(es[1..], eid);
      var ids: seq<Id> := IdsOf(es);
      IdsSplit(es);
      DropElementCount(es[1..], eid, x);
      if es[0].id != eid {
        IdsCons(es[0], tail);
      }
    }
  }

  /** Removing an element that is not there changes nothing. */
  lemma {:induction false} DropAbsent(es: seq<Element>, eid: Id)
    requires !HasElement(es, eid)
    ensures DropElement(es, eid) == es
  {
    if es != [] {
      IdsSplit(es);
      DropAbsent(es[1..], eid);
    }
  }

  /** With unique ids, removing an element takes exactly its committed time (the time
      `find` reports) out of the sum. */
  lemma {:induction false} DropElementSum(es: seq<Element>, eid: Id)
    requires Distinct(IdsOf(es))
    ensures SumTimes(DropElement(es, eid)) + TimeOf(es, eid) == SumTimes(es)
  {
    if es != [] {
      IdsSplit(es);
      DistinctTail(IdsOf(es));
      if es[0].id == eid {
        DropAbsent(es[1..], eid);
      } else {
        DropElementSum(es[1..], eid);
      }
    }
  }

  // ---------------------------------------------------------------------------
  // Project-level transformations

  /** `projects.map(project => project.id === pid ? f(project) : project)`, the shape of
      every handler that edits one project. */
  function MapMatching(ps: seq<Project>, pid: Id, f: Project -> Project): (r: seq<Project>)
    ensures |r| == |ps|
    ensures forall i :: 0 <= i < |ps| ==> r[i] == if ps[i].id == pid then f(ps[i]) else ps[i]
  {
    if ps == [] then [] else [if ps[0].id == pid then f(ps[0]) else ps[0]] + MapMatching(ps[1..], pid, f)
  }

  /** The project with a new element appended (lines 58-65 of the handler). */
  function WithElement(p: Project, e: Element): (q: Project)
    ensures q.id == p.id && q.name == p.name && q.totalTime == p.totalTime
    ensures q.elements == p.elements + [e] && IdsOf(q.elements) == IdsOf(p.elements) + [e.id]
    ensures SumTimes(q.elements) == SumTimes(p.elements) + e.time
  {
    var q := p.(elements := p.elements + [e]);
    AppendSum(p.elements, e);
    q
  }

  lemma {:induction false} AppendSum(es: seq<Element>, e: Element)
    ensures SumTimes(es + [e]) == SumTimes(es) + e.time
  {
    if es != [] {
      assert (es + [e])[1..] == es[1..] + [e];
      AppendSum(es[1..], e);
    }
  }

  /** A project with `n` committed ticks: an element timer adds them to the element
      and to the project total, a project timer to the total only. */
  function Commit(p: Project, eid: Option<Id>, n: nat): (q: Project)
    ensures q.id == p.id && q.name == p.name && IdsOf(q.elements) == IdsOf(p.elements)
    ensures q.totalTime == p.totalTime + n
    ensures eid.None? ==> q.elements == p.elements
    ensures eid.Some? ==> q.elements == AddTime(p.elements, eid.value, n)
    ensures Distinct(IdsOf(p.elements)) ==>
      SumTimes(q.elements) == SumTimes(p.elements)
        + (if eid.Some? && HasElement(p.elements, eid.value) then n else 0)
  {
    if eid.Some? then
      assert Distinct(IdsOf(p.elements)) ==>
        SumTimes(AddTime(p.elements, eid.value, n)) == SumTimes(p.elements)
          + (if HasElement(p.elements, eid.value) then n else 0) by {
        if Distinct(IdsOf(p.elements)) {
          AddTimeSum(p.elements, eid.value, n);
        }
      }
      p.(elements := AddTime(p.elements, eid.value, n), totalTime := p.totalTime + n)
    else
      p.(totalTime := p.totalTime + n)
  }

  /** A project without element `eid`, its committed time taken off the total: total
      and element sum fall by the same amount. */
  function Prune(p: Project, eid: Id): (q: Project)
    ensures q.id == p.id && q.name == p.name
    ensures q.elements == DropElement(p.elements, eid)
    ensures forall x :: multiset(IdsOf(q.elements))[x] == if x == eid then 0 else multiset(IdsOf(p.elements))[x]
    ensures q.totalTime == p.totalTime - TimeOf(p.elements, eid)
    ensures Distinct(IdsOf(p.elements)) ==>
      q.totalTime - SumTimes(q.elements) == p.totalTime - SumTimes(p.elements)
  {
    var q := p.(elements := DropElement(p.elements, eid), totalTime := p.totalTime - TimeOf(p.elements, eid));
    assert forall x :: multiset(IdsOf(q.elements))[x] == if x == eid then 0 else multiset(IdsOf(p.elements))[x] by {
      forall x: Id {
        DropElementCount(p.elements, eid, x);
      }
    }
    assert Distinct(IdsOf(p.elements)) ==>
      q.totalTime - SumTimes(q.elements) == p.totalTime - SumTimes(p.elements) by {
      if Distinct(IdsOf(p.elements)) {
        DropElementSum(p.elements, eid);
      }
    }
    q
  }

  /** addElement: `e` is appended to the elements of the projects with id `pid`;
      nothing else changes, and an unknown `pid` changes nothing at all. */
  function AddElementTo(ps: seq<Project>, pid: Id, e: Element): (r: seq<Project>)
    ensures |r| == |ps|
    ensures forall i :: 0 <= i < |ps| ==>
      r[i].id == ps[i].id && r[i].name == ps[i].name && r[i].totalTime == ps[i].totalTime
      && r[i].elements == ps[i].elements + if ps[i].id == pid then [e] else []
    ensures pid !in ProjectIds(ps) ==> r == ps
  {
    var f := (p: Project) => WithElement(p, e);
    if pid !in ProjectIds(ps) then
      MapMatchingAbsent(ps, pid, f);
      MapMatching(ps, pid, f)
    else MapMatching(ps, pid, f)
  }

  /** The stop branch of toggleTimer: the target's project total gains `n`, and so does
      the target element when there is one; no other time changes and every id stays. */
  function CommitTicks(ps: seq<Project>, t: Target, n: nat): (r: seq<Project>)
    ensures |r| == |ps|
    ensures forall i :: 0 <= i < |ps| ==>
      r[i].id == ps[i].id && r[i].name == ps[i].name
      && IdsOf(r[i].elements) == IdsOf(ps[i].elements) && |r[i].elements| == |ps[i].elements|
      && r[i].totalTime == ps[i].totalTime + (if ps[i].id == t.projectId then n else 0)
    ensures forall i, k :: 0 <= i < |ps| && 0 <= k < |ps[i].elements| ==>
      r[i].elements[k].name == ps[i].elements[k].name
      && r[i].elements[k].time == ps[i].elements[k].time
        + (if ps[i].id == t.projectId && t.elementId == Some(ps[i].elements[k].id) then n else 0)
    ensures forall i :: 0 <= i < |ps| && ps[i].id != t.projectId ==> r[i] == ps[i]
  {
    var r := MapMatching(ps, t.projectId, p => Commit(p, t.elementId, n));
    assert forall i :: 0 <= i < |ps| ==> |r[i].elements| == |ps[i].elements| by {
      forall i | 0 <= i < |ps| ensures |r[i].elements| == |ps[i].elements| {
        assert |IdsOf(r[i].elements)| == |IdsOf(ps[i].elements)|;
      }
    }
    assert forall i, k :: 0 <= i < |ps| && 0 <= k < |ps[i].elements| ==>
      r[i].elements[k].name == ps[i].elements[k].name
      && r[i].elements[k].time == ps[i].elements[k].time
        + (if ps[i].id == t.projectId && t.elementId == Some(ps[i].elements[k].id) then n else 0) by {
      forall i, k | 0 <= i < |ps| && 0 <= k < |ps[i].elements|
        ensures r[i].elements[k].name == ps[i].elements[k].name
        ensures r[i].elements[k].time == ps[i].elements[k].time
          + (if ps[i].id == t.projectId && t.elementId == Some(ps[i].elements[k].id) then n else 0)
      {
        if ps[i].id == t.projectId && t.elementId.Some? {
          assert r[i].elements == AddTime(ps[i].elements, t.elementId.value, n);
        }
      }
    }
    r
  }

  /** deleteElement: in the projects with id `pid`, every element with id `eid` goes and
      its committed time leaves the total; other projects are untouched. */
  function DropElementFrom(ps: seq<Project>, pid: Id, eid: Id): (r: seq<Project>)
    ensures |r| == |ps|
    ensures forall i :: 0 <= i < |ps| && ps[i].id != pid ==> r[i] == ps[i]
    ensures forall i :: 0 <= i < |ps| && ps[i].id == pid ==>
      r[i].id == pid && r[i].name == ps[i].name
      && r[i].elements == DropElement(ps[i].elements, eid)
      && r[i].totalTime == ps[i].totalTime - TimeOf(ps[i].elements, eid)
  {
    MapMatching(ps, pid, p => Prune(p, eid))
  }

  /** deleteProject: `projects.filter(p => p.id !== pid)`: the projects kept are those
      of `ps` with another id. */
  function DropProject(ps: seq<Project>, pid: Id): (r: seq<Project>)
    ensures forall p :: p in r <==> p in ps && p.id != pid
  {
    if ps == [] then [] else if ps[0].id == pid then DropProject(ps[1..], pid) else [ps[0]] + DropProject(ps[1..], pid)
  }

  /** Removing a project removes every occurrence of its id and no other project id. */
  lemma {:induction false} DropProjectIds(ps: seq<Project>, pid: Id)
    ensures forall x :: (multiset(ProjectIds(DropProject(ps, pid)))[x]
                         == if x == pid then 0 else multiset(ProjectIds(ps))[x])
  {
    if ps != [] {
      var tail := DropProject(ps[1..], pid);
      DropProjectIds(ps[1..], pid);
      ProjectIdsSplit(ps);
      if ps[0].id != pid {
        ProjectIdsCons(ps[0], tail);
      }
    }
  }

  /** Removing a project adds no element id. */
  lemma {:induction false} DropProjectElementIds(ps: seq<Project>, pid: Id)
    ensures forall x :: multiset(AllElementIds(DropProject(ps, pid)))[x] <= multiset(AllElementIds(ps))[x]
  {
    if ps != [] {
      var tail := DropProject(ps[1..], pid);
      DropProjectElementIds(ps[1..], pid);
      assert AllElementIds(ps) == IdsOf(ps[0].elements) + AllElementIds(ps[1..]);
      if ps[0].id != pid {
        assert ([ps[0]] + tail)[1..] == tail;
        assert AllElementIds([ps[0]] + tail) == IdsOf(ps[0].elements) + AllElementIds(tail);
      }
    }
  }

  // ---------------------------------------------------------------------------
  // What the transformations keep

  /** The element ids of one project are among all element ids. */
  lemma ElementIdsWithin(ps: seq<Project>, i: nat, x: Id)
    requires i < |ps|
    ensures multiset(IdsOf(ps[i].elements))[x] <= multiset(AllElementIds(ps))[x]
  {
    var before, rest := ps[..i], ps[i..];
    assert ps == before + rest;
    AllElementIdsAppend(before, rest);
    HeadElementIds(rest, x);
    var b: seq<Id>, r: seq<Id> := AllElementIds(before), AllElementIds(rest);
    assert multiset(b + r)[x] == multiset(b)[x] + multiset(r)[x];
  }

  /** The element ids of the first project are among all element ids. */
  lemma HeadElementIds(ps: seq<Project>, x: Id)
    requires ps != []
    ensures multiset(IdsOf(ps[0].elements))[x] <= multiset(AllElementIds(ps))[x]
  {
    CountSplit(ps, x);
  }

  /** How often an element id occurs: in the first project plus in the others. */
  lemma CountSplit(ps: seq<Project>, x: Id)
    requires ps != []
    ensures multiset(AllElementIds(ps))[x]
      == multiset(IdsOf(ps[0].elements))[x] + multiset(AllElementIds(ps[1..]))[x]
  {
    var own: seq<Id> := IdsOf(ps[0].elements);
    var rest: seq<Id> := AllElementIds(ps[1..]);
    assert AllElementIds(ps) == own + rest;
  }

  /** With all element ids distinct, an id occurs in at most one project. */
  lemma ElementOwnerUnique(ps: seq<Project>, i: nat, j: nat, x: Id)
    requires Distinct(AllElementIds(ps))
    requires i < |ps| && j < |ps|
    requires HasElement(ps[i].elements, x) && HasElement(ps[j].elements, x)
    ensures i == j
  {
    SharedElementCount(ps, i, j, x);
  }

  /** An id that two different projects hold occurs at least twice. */
  lemma SharedElementCount(ps: seq<Project>, i: nat, j: nat, x: Id)
    requires i < |ps| && j < |ps|
    requires HasElement(ps[i].elements, x) && HasElement(ps[j].elements, x)
    ensures i == j || multiset(AllElementIds(ps))[x] >= 2
  {
    var mine: seq<Id> := IdsOf(ps[i].elements);
    var theirs: seq<Id> := IdsOf(ps[j].elements);
    assert multiset(mine)[x] >= 1 && multiset(theirs)[x] >= 1;
    if i < j {
      SplitOwners(ps, i, j, x);
    } else if j < i {
      SplitOwners(ps, j, i, x);
    }
  }

  /** An id in two different projects occurs at least twice among all element ids. */
  lemma {:induction false} SplitOwners(ps: seq<Project>, i: nat, j: nat, x: Id)
    requires i < j < |ps|
    requires multiset(IdsOf(ps[i].elements))[x] >= 1 && multiset(IdsOf(ps[j].elements))[x] >= 1
    ensures multiset(AllElementIds(ps))[x] >= 2
  {
    if i == 0 {
      HeadOwner(ps, j, x);
    } else {
      SplitOwners(ps[1..], i - 1, j - 1, x);
      CountSplit(ps, x);
    }
  }

  /** The base case: the first project and a later one share an id. */
  lemma HeadOwner(ps: seq<Project>, j: nat, x: Id)
    requires 0 < j < |ps|
    requires multiset(IdsOf(ps[0].elements))[x] >= 1 && multiset(IdsOf(ps[j].elements))[x] >= 1
    ensures multiset(AllElementIds(ps))[x] >= 2
  {
    ElementIdsWithin(ps[1..], j - 1, x);
    CountSplit(ps, x);
  }

  /** A project of a well-formed list has distinct element ids. */
  lemma DistinctWithin(ps: seq<Project>, i: nat)
    requires i < |ps| && Distinct(AllElementIds(ps))
    ensures Distinct(IdsOf(ps[i].elements))
  {
    forall x: Id ensures multiset(IdsOf(ps[i].elements))[x] <= 1 {
      ElementIdsWithin(ps, i, x);
    }
  }

  /** Editing projects with an `f` that keeps each project's id keeps the project ids. */
  lemma {:induction false} MapMatchingProjectIds(ps: seq<Project>, pid: Id, f: Project -> Project)
    requires forall p :: f(p).id == p.id
    ensures ProjectIds(MapMatching(ps, pid, f)) == ProjectIds(ps)
  {
    var r := MapMatching(ps, pid, f);
    assert forall i :: 0 <= i < |ps| ==> ProjectIds(r)[i] == ProjectIds(ps)[i];
  }

  /** Editing projects with an `f` that never adds element ids never adds element ids. */
  lemma {:induction false} MapMatchingElementIds(ps: seq<Project>, pid: Id, f: Project -> Project)
    requires forall p :: multiset(IdsOf(f(p).elements)) <= multiset(IdsOf(p.elements))
    ensures multiset(AllElementIds(MapMatching(ps, pid, f))) <= multiset(AllElementIds(ps))
  {
    if ps != [] {
      var r := MapMatching(ps, pid, f);
      assert r[1..] == MapMatching(ps[1..], pid, f);
      MapMatchingElementIds(ps[1..], pid, f);
    }
  }

  /** Editing projects with an `f` that keeps each project covering its elements (given
      distinct element ids) keeps the whole list consistent. */
  lemma MapMatchingConsistent(ps: seq<Project>, pid: Id, f: Project -> Project)
    requires Distinct(AllElementIds(ps)) && Consistent(ps)
    requires forall p: Project :: Distinct(IdsOf(p.elements)) && Covers(p) ==> Covers(f(p))
    ensures Consistent(MapMatching(ps, pid, f))
  {
    forall i | 0 <= i < |ps| ensures Covers(MapMatching(ps, pid, f)[i]) {
      DistinctWithin(ps, i);
    }
  }

  /** With unique project ids, editing by `f` that shifts a total by `delta` shifts the
      grand total by `delta` once if `pid` is present, and not at all otherwise. */
  lemma {:induction false} MapMatchingTotal(ps: seq<Project>, pid: Id, f: Project -> Project, delta: int)
    requires Distinct(ProjectIds(ps))
    requires forall p :: f(p).totalTime == p.totalTime + delta
    ensures TotalLogged(MapMatching(ps, pid, f))
      == TotalLogged(ps) + (if pid in ProjectIds(ps) then delta else 0)
  {
    if ps != [] {
      var ids: seq<Id> := ProjectIds(ps);
      ProjectIdsSplit(ps);
      assert Distinct(ProjectIds(ps[1..])) by {
        forall x: Id ensures multiset(ProjectIds(ps[1..]))[x] <= 1 {
          assert multiset(ids)[x] <= 1;
        }
      }
      if ps[0].id == pid {
        assert multiset(ids)[pid] <= 1;
      }
      var r := MapMatching(ps, pid, f);
      assert r[1..] == MapMatching(ps[1..], pid, f);
      MapMatchingTotal(ps[1..], pid, f, delta);
    }
  }

  /** Editing a project that is absent changes nothing. */
  lemma MapMatchingAbsent(ps: seq<Project>, pid: Id, f: Project -> Project)
    requires pid !in ProjectIds(ps)
    ensures MapMatching(ps, pid, f) == ps
  {
    assert forall i :: 0 <= i < |ps| ==> ps[i].id != pid by {
      forall i | 0 <= i < |ps| ensures ps[i].id != pid {
        assert ProjectIds(ps)[i] == ps[i].id;
      }
    }
  }

  /** With unique project ids, appending an element adds its id exactly once if the
      project is present, and not at all otherwise. */
  lemma {:induction false} AddElementIds(ps: seq<Project>, pid: Id, e: Element, x: Id)
    requires Distinct(ProjectIds(ps))
    ensures multiset(AllElementIds(AddElementTo(ps, pid, e)))[x]
      == multiset(AllElementIds(ps))[x] + if x == e.id && pid in ProjectIds(ps) then 1 else 0
  {
    if ps != [] {
      var f := (p: Project) => WithElement(p, e);
      var ids: seq<Id> := ProjectIds(ps);
      ProjectIdsSplit(ps);
      DistinctTail(ids);
      var r := MapMatching(ps, pid, f);
      var tail := MapMatching(ps[1..], pid, f);
      assert r[1..] == tail;
      var head: seq<Id> := IdsOf(r[0].elements);
      var oldHead: seq<Id> := IdsOf(ps[0].elements);
      assert AllElementIds(r) == head + AllElementIds(tail);
      assert AllElementIds(ps) == oldHead + AllElementIds(ps[1..]);
      assert multiset(AllElementIds(r))[x] == multiset(head)[x] + multiset(AllElementIds(tail))[x];
      assert multiset(AllElementIds(ps))[x] == multiset(oldHead)[x] + multiset(AllElementIds(ps[1..]))[x];
      if ps[0].id == pid {
        MapMatchingAbsent(ps[1..], pid, f);
        assert head == oldHead + [e.id];
      } else {
        AddElementIds(ps[1..], pid, e, x);
      }
    }
  }

  // ---------------------------------------------------------------------------
  // The handlers' list updates keep the invariants

  /** addElement with a fresh id keeps ids unique and below the next id, and keeps
      every total covering its elements (the new element has no time yet). */
  lemma AddElementKeeps(ps: seq<Project>, nextId: Id, pid: Id, name: string)
    requires WellFormed(ps, nextId) && Consistent(ps)
    ensures var r := AddElementTo(ps, pid, Element(nextId, name, 0));
      WellFormed(r, nextId + 1) && Consistent(r)
  {
    var e := Element(nextId, name, 0);
    var f := (p: Project) => WithElement(p, e);
    var r := AddElementTo(ps, pid, e);
    assert ProjectIds(r) == ProjectIds(ps) by {
      MapMatchingProjectIds(ps, pid, f);
    }
    assert Consistent(r) by {
      MapMatchingConsistent(ps, pid, f);
    }
    var ids: seq<Id> := AllElementIds(ps);
    var grown: seq<Id> := AllElementIds(r);
    assert nextId !in ids;
    assert multiset(ids)[nextId] == 0;
    forall x: Id ensures multiset(grown)[x] <= 1 && (x in grown ==> x < nextId + 1) {
      AddElementIds(ps, pid, e, x);
      assert multiset(ids)[x] <= 1;
      if x in grown && x != nextId {
        assert multiset(grown)[x] > 0;
        assert x in ids;
      }
    }
  }

  /** Committing ticks keeps every id where it was, and every total covers its
      elements afterwards: an element commit adds to both sides, a project commit to
      the total only. */
  lemma CommitKeeps(ps: seq<Project>, nextId: Id, t: Target, n: nat)
    requires WellFormed(ps, nextId) && Consistent(ps)
    ensures var r := CommitTicks(ps, t, n);
      WellFormed(r, nextId) && Consistent(r)
      && ProjectIds(r) == ProjectIds(ps) && AllElementIds(r) == AllElementIds(ps)
  {
    var f := (p: Project) => Commit(p, t.elementId, n);
    MapMatchingProjectIds(ps, t.projectId, f);
    MapMatchingConsistent(ps, t.projectId, f);
    CommitElementIds(ps, t, n);
  }

  lemma {:induction false} CommitElementIds(ps: seq<Project>, t: Target, n: nat)
    ensures AllElementIds(CommitTicks(ps, t, n)) == AllElementIds(ps)
  {
    if ps != [] {
      var f := (p: Project) => Commit(p, t.elementId, n);
      var r := MapMatching(ps, t.projectId, f);
      assert r[1..] == MapMatching(ps[1..], t.projectId, f);
      CommitElementIds(ps[1..], t, n);
    }
  }

  /** With unique project ids, a commit of `n` ticks to a target whose project exists
      adds exactly `n` to the projects' grand total: the ticks are counted once. */
  lemma CommitCountsOnce(ps: seq<Project>, t: Target, n: nat)
    requires Distinct(ProjectIds(ps))
    ensures TotalLogged(CommitTicks(ps, t, n))
      == TotalLogged(ps) + (if t.projectId in ProjectIds(ps) then n else 0)
  {
    MapMatchingTotal(ps, t.projectId, p => Commit(p, t.elementId, n), n);
  }

  /** Committing keeps the target (or any other target) in existence. */
  lemma CommitKeepsTargets(ps: seq<Project>, t: Target, n: nat, u: Target)
    requires HasTarget(ps, u)
    ensures HasTarget(CommitTicks(ps, t, n), u)
  {
    var i :| 0 <= i < |ps| && ps[i].id == u.projectId
      && (u.elementId.Some? ==> HasElement(ps[i].elements, u.elementId.value));
    var r := CommitTicks(ps, t, n);
    assert r[i].id == ps[i].id && IdsOf(r[i].elements) == IdsOf(ps[i].elements);
  }

  /** deleteElement keeps ids unique and below the next id, and keeps every total
      covering its elements: total and sum lose the same committed time. */
  lemma DropElementKeeps(ps: seq<Project>, nextId: Id, pid: Id, eid: Id)
    requires WellFormed(ps, nextId) && Consistent(ps)
    ensures var r := DropElementFrom(ps, pid, eid);
      WellFormed(r, nextId) && Consistent(r)
  {
    var f := (p: Project) => Prune(p, eid);
    MapMatchingProjectIds(ps, pid, f);
    MapMatchingElementIds(ps, pid, f);
    MapMatchingConsistent(ps, pid, f);
    var r := DropElementFrom(ps, pid, eid);
    assert forall x :: x in AllElementIds(r) ==> x in AllElementIds(ps) by {
      forall x | x in AllElementIds(r) ensures x in AllElementIds(ps) {
        assert multiset(AllElementIds(r))[x] > 0;
      }
    }
  }

  /** deleteElement keeps every target other than the deleted element. */
  lemma DropElementKeepsTargets(ps: seq<Project>, pid: Id, eid: Id, u: Target)
    requires HasTarget(ps, u) && u.elementId != Some(eid)
    ensures HasTarget(DropElementFrom(ps, pid, eid), u)
  {
    var i :| 0 <= i < |ps| && ps[i].id == u.projectId
      && (u.elementId.Some? ==> HasElement(ps[i].elements, u.elementId.value));
    var r := DropElementFrom(ps, pid, eid);
    assert r[i].id == ps[i].id;
    if u.elementId.Some? {
      var x := u.elementId.value;
      assert multiset(IdsOf(r[i].elements))[x] == multiset(IdsOf(ps[i].elements))[x];
    }
  }

  /** deleteProject keeps ids unique and below the next id and keeps consistency. */
  lemma DropProjectKeeps(ps: seq<Project>, nextId: Id, pid: Id)
    requires WellFormed(ps, nextId) && Consistent(ps)
    ensures var r := DropProject(ps, pid);
      WellFormed(r, nextId) && Consistent(r) && pid !in ProjectIds(r)
  {
    var r := DropProject(ps, pid);
    DropProjectKeepsProjectIds(ps, nextId, pid);
    DropProjectKeepsElementIds(ps, nextId, pid);
    forall i | 0 <= i < |r| ensures Covers(r[i]) {
      assert r[i] in ps;
    }
  }

  lemma DropProjectKeepsProjectIds(ps: seq<Project>, nextId: Id, pid: Id)
    requires Distinct(ProjectIds(ps)) && Below(ProjectIds(ps), nextId)
    ensures var kept := ProjectIds(DropProject(ps, pid));
      Distinct(kept) && Below(kept, nextId) && pid !in kept
  {
    var ids: seq<Id> := ProjectIds(ps);
    var kept: seq<Id> := ProjectIds(DropProject(ps, pid));
    DropProjectIds(ps, pid);
    assert multiset(kept)[pid] == 0;
    forall x: Id ensures multiset(kept)[x] <= 1 && (x in kept ==> x < nextId) {
      assert multiset(kept)[x] <= multiset(ids)[x];
      if x in kept {
        assert multiset(kept)[x] > 0;
        assert x in ids;
      }
    }
  }

  lemma DropProjectKeepsElementIds(ps: seq<Project>, nextId: Id, pid: Id)
    requires Distinct(AllElementIds(ps)) && Below(AllElementIds(ps), nextId)
    ensures var kept := AllElementIds(DropProject(ps, pid));
      Distinct(kept) && Below(kept, nextId)
  {
    var ids: seq<Id> := AllElementIds(ps);
    var kept: seq<Id> := AllElementIds(DropProject(ps, pid));
    DropProjectElementIds(ps, pid);
    forall x: Id ensures multiset(kept)[x] <= 1 && (x in kept ==> x < nextId) {
      assert multiset(kept)[x] <= multiset(ids)[x];
      if x in kept {
        assert multiset(kept)[x] > 0;
        assert x in ids;
      }
    }
  }

  /** deleteProject keeps every target in another project. */
  lemma DropProjectKeepsTargets(ps: seq<Project>, pid: Id, u: Target)
    requires HasTarget(ps, u) && u.projectId != pid
    ensures HasTarget(DropProject(ps, pid), u)
  {
    var i :| 0 <= i < |ps| && ps[i].id == u.projectId
      && (u.elementId.Some? ==> HasElement(ps[i].elements, u.elementId.value));
    var r := DropProject(ps, pid);
    assert ps[i] in r;
  }

  lemma {:induction false} AllElementIdsAppend(a: seq<Project>, b: seq<Project>)
    ensures AllElementIds(a + b) == AllElementIds(a) + AllElementIds(b)
  {
    if a == [] {
      assert a + b == b;
    } else {
      assert (a + b)[1..] == a[1..] + b;
      AllElementIdsAppend(a[1..], b);
    }
  }

  /** addProject: a new project with a fresh id and no elements keeps ids unique and
      below the advanced counter, and keeps consistency. */
  lemma AddProjectKeeps(ps: seq<Project>, nextId: Id, name: string)
    requires WellFormed(ps, nextId) && Consistent(ps)
    ensures var r := ps + [Project(nextId, name, [], 0)];
      WellFormed(r, nextId + 1) && Consistent(r)
  {
    var p := Project(nextId, name, [], 0);
    var r := ps + [p];
    assert ProjectIds(r) == ProjectIds(ps) + [nextId];
    FreshIdAppended(ProjectIds(ps), nextId);
    assert AllElementIds(r) == AllElementIds(ps) by {
      AllElementIdsAppend(ps, [p]);
      assert AllElementIds([p]) == [];
    }
    assert Consistent(r) by {
      forall i | 0 <= i < |r| ensures Covers(r[i]) {
        if i < |ps| {
          assert r[i] == ps[i];
        }
      }
    }
  }

  /** Appending an id issued after all others keeps the ids distinct and below the
      advanced counter. */
  lemma FreshIdAppended(ids: seq<Id>, nextId: Id)
    requires Distinct(ids) && Below(ids, nextId)
    ensures Distinct(ids + [nextId]) && Below(ids + [nextId], nextId + 1)
  {
    var grown: seq<Id> := ids + [nextId];
    assert nextId !in ids;
    forall x: Id ensures multiset(grown)[x] <= 1 {
      assert multiset(grown)[x] == multiset(ids)[x] + if x == nextId then 1 else 0;
    }
  }

  /** addProject keeps every target. */
  lemma AddProjectKeepsTargets(ps: seq<Project>, p: Project, u: Target)
    requires HasTarget(ps, u)
    ensures HasTarget(ps + [p], u)
  {
    var i :| 0 <= i < |ps| && ps[i].id == u.projectId
      && (u.elementId.Some? ==> HasElement(ps[i].elements, u.elementId.value));
    assert (ps + [p])[i] == ps[i];
  }

  /** addElement keeps every target. */
  lemma AddElementKeepsTargets(ps: seq<Project>, pid: Id, e: Element, u: Target)
    requires HasTarget(ps, u)
    ensures HasTarget(AddElementTo(ps, pid, e), u)
  {
    var i :| 0 <= i < |ps| && ps[i].id == u.projectId
      && (u.elementId.Some? ==> HasElement(ps[i].elements, u.elementId.value));
    var r := AddElementTo(ps, pid, e);
    if u.elementId.Some? {
      var x := u.elementId.value;
      var k :| 0 <= k < |IdsOf(ps[i].elements)| && IdsOf(ps[i].elements)[k] == x;
      assert r[i].elements[k] == ps[i].elements[k];
      assert IdsOf(r[i].elements)[k] == x;
    }
  }

  /** Removal keeps order: filtering a concatenation filters each part. */
  lemma {:induction false} DropProjectAppend(a: seq<Project>, b: seq<Project>, pid: Id)
    ensures DropProject(a + b, pid) == DropProject(a, pid) + DropProject(b, pid)
  {
    if a == [] {
      assert a + b == b;
    } else {
      assert (a + b)[0] == a[0];
      assert (a + b)[1..] == a[1..] + b;
      DropProjectAppend(a[1..], b, pid);
    }
  }
}
