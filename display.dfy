/** The times the tracker shows next to each project and element: the committed time,
    plus the live tick counter on whatever the running timer is timing. */
module Display {
  import opened Optional
  import opened Projects
  import TimeFormat

  /** The project's "Total": live ticks are added only under a project-level timer on
      this project, never under a timer on one of its elements; once a tick has passed,
      the total shown differs from the committed one exactly on the target project. */
  function ProjectShown(p: Project, timer: Option<Target>, ticks: nat): (shown: int)
    ensures shown >= p.totalTime
    ensures ticks > 0 ==> (shown != p.totalTime <==> timer == Some(Target(p.id, None)))
    ensures shown == p.totalTime + if timer == Some(Target(p.id, None)) then ticks else 0
  {
    p.totalTime + (if timer.Some? && timer.value.projectId == p.id && timer.value.elementId.None? then ticks else 0)
  }

  /** An element's time: live ticks are added when the running timer's element id is
      this element's id, whatever project the timer names. */
  function ElementShown(e: Element, timer: Option<Target>, ticks: nat): (shown: nat)
    ensures shown >= e.time
    ensures ticks > 0 ==> (shown != e.time <==> timer.Some? && timer.value.elementId == Some(e.id))
  {
    e.time + (if timer.Some? && timer.value.elementId == Some(e.id) then ticks else 0)
  }

  /** In a well-formed list with the timer on an existing target, an element shows
      live ticks exactly when the timer targets that element of that project: the
      element-only comparison is safe because element ids are unique. */
  lemma ElementLiveIffTarget(ps: seq<Project>, i: nat, k: nat, timer: Option<Target>, ticks: nat)
    requires Distinct(AllElementIds(ps))
    requires timer.Some? ==> HasTarget(ps, timer.value)
    requires i < |ps| && k < |ps[i].elements|
    ensures var e := ps[i].elements[k];
      ElementShown(e, timer, ticks)
        == e.time + if timer == Some(Target(ps[i].id, Some(e.id))) then ticks else 0
  {
    var e := ps[i].elements[k];
    if timer.Some? && timer.value.elementId == Some(e.id) {
      var j :| 0 <= j < |ps| && ps[j].id == timer.value.projectId
        && HasElement(ps[j].elements, e.id);
      assert IdsOf(ps[i].elements)[k] == e.id;
      ElementOwnerUnique(ps, i, j, e.id);
    }
  }

  /** Stopping a timer commits what was on screen: after the commit every element
      holds the time it showed before, and under a project-level timer every project
      total holds the total it showed before. Under an element timer the target's
      project total grows by the ticks, which its "Total" did not show. */
  lemma StopCommitsShownTime(ps: seq<Project>, t: Target, ticks: nat)
    requires Distinct(AllElementIds(ps)) && HasTarget(ps, t)
    ensures var r := CommitTicks(ps, t, ticks);
      |r| == |ps|
      && (forall i, k :: 0 <= i < |ps| && 0 <= k < |ps[i].elements| ==>
            |r[i].elements| == |ps[i].elements|
            && r[i].elements[k].time == ElementShown(ps[i].elements[k], Some(t), ticks))
      && (forall i :: 0 <= i < |ps| ==>
            r[i].totalTime == ProjectShown(ps[i], Some(t), ticks)
              + if t.elementId.Some? && ps[i].id == t.projectId then ticks else 0)
  {
    var r := CommitTicks(ps, t, ticks);
    forall i, k | 0 <= i < |ps| && 0 <= k < |ps[i].elements|
      ensures |r[i].elements| == |ps[i].elements|
      ensures r[i].elements[k].time == ElementShown(ps[i].elements[k], Some(t), ticks)
    {
      assert |IdsOf(r[i].elements)| == |IdsOf(ps[i].elements)|;
      var e := ps[i].elements[k];
      ElementLiveIffTarget(ps, i, k, Some(t), ticks);
    }
  }

  /** In a consistent list every project's shown "Total" is non-negative, so it is a
      valid argument to the formatter. */
  lemma ShownTotalFormattable(ps: seq<Project>, i: nat, timer: Option<Target>, ticks: nat)
    requires Consistent(ps) && i < |ps|
    ensures ProjectShown(ps[i], timer, ticks) >= 0
    ensures var shown: nat := ProjectShown(ps[i], timer, ticks);
      |TimeFormat.FormatTime(shown)| >= 8
  {
    ConsistentTotalsNonNegative(ps);
  }
}
