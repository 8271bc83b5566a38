/** The tracker component's state (its React state hooks, as fields) and its event
    handlers, each of which replaces the state as the component's setters do. */
module Engine {
  import opened Optional
  import opened Projects
  import Text

  /** The tracker's state invariant: ids unique and already issued, every total
      covering its elements (hence never negative), and no pending ticks while no timer
      runs. */
  ghost predicate Invariant(ps: seq<Project>, nextId: Id, timer: Option<Target>, ticks: nat)
  {
    WellFormed(ps, nextId) && Consistent(ps) && (timer.None? ==> ticks == 0)
  }

  // Each lemma below takes the state before a handler and the state after it, and
  // shows the handler's step keeps the invariant.

  /** Stopping a timer (its ticks committed, the timer cleared) keeps the invariant. */
  lemma StopKeeps(ps: seq<Project>, nextId: Id, timer: Option<Target>, ticks: nat,
                  ps': seq<Project>, timer': Option<Target>, ticks': nat)
    requires Invariant(ps, nextId, timer, ticks) && timer.Some?
    requires ps' == CommitTicks(ps, timer.value, ticks) && timer' == None && ticks' == 0
    ensures Invariant(ps', nextId, timer', ticks')
  {
    CommitKeeps(ps, nextId, timer.value, ticks);
  }

  /** Starting a timer from zero keeps the invariant. */
  lemma StartKeeps(ps: seq<Project>, nextId: Id, timer: Option<Target>, ticks: nat,
                   timer': Option<Target>, ticks': nat)
    requires Invariant(ps, nextId, timer, ticks) && ticks' == 0
    ensures Invariant(ps, nextId, timer', ticks')
  {
  }

  /** Appending a project under the counter's id and advancing the counter keeps the
      invariant; the id was not in use. */
  lemma AppendProjectKeeps(ps: seq<Project>, nextId: Id, name: string, timer: Option<Target>, ticks: nat,
                           ps': seq<Project>, nextId': Id)
    requires Invariant(ps, nextId, timer, ticks)
    requires ps' == ps + [Project(nextId, name, [], 0)] && nextId' == nextId + 1
    ensures Invariant(ps', nextId', timer, ticks)
    ensures nextId !in ProjectIds(ps)
  {
    AddProjectKeeps(ps, nextId, name);
  }

  /** Appending an element under the counter's id and advancing the counter keeps the
      invariant; the id was not in use. */
  lemma AppendElementKeeps(ps: seq<Project>, nextId: Id, projectId: Id, name: string,
                           timer: Option<Target>, ticks: nat, ps': seq<Project>, nextId': Id)
    requires Invariant(ps, nextId, timer, ticks)
    requires ps' == AddElementTo(ps, projectId, Element(nextId, name, 0)) && nextId' == nextId + 1
    ensures Invariant(ps', nextId', timer, ticks)
    ensures nextId !in AllElementIds(ps)
  {
    AddElementKeeps(ps, nextId, projectId, name);
  }

  /** Deleting a project, with the timer either kept or cleared, keeps the invariant. */
  lemma DeleteProjectKeeps(ps: seq<Project>, nextId: Id, projectId: Id, timer: Option<Target>, ticks: nat,
                           ps': seq<Project>, timer': Option<Target>, ticks': nat)
    requires Invariant(ps, nextId, timer, ticks)
    requires ps' == DropProject(ps, projectId)
    requires (timer' == timer && ticks' == ticks) || (timer' == None && ticks' == 0)
    ensures Invariant(ps', nextId, timer', ticks')
  {
    DropProjectKeeps(ps, nextId, projectId);
  }

  /** Deleting an element, with the timer either kept or cleared, keeps the invariant. */
  lemma DeleteElementKeeps(ps: seq<Project>, nextId: Id, projectId: Id, elementId: Id,
                           timer: Option<Target>, ticks: nat,
                           ps': seq<Project>, timer': Option<Target>, ticks': nat)
    requires Invariant(ps, nextId, timer, ticks)
    requires ps' == DropElementFrom(ps, projectId, elementId)
    requires (timer' == timer && ticks' == ticks) || (timer' == None && ticks' == 0)
    ensures Invariant(ps', nextId, timer', ticks')
  {
    DropElementKeeps(ps, nextId, projectId, elementId);
  }

  class Tracker {
    var projects: seq<Project>
    /** The single running timer, or none. */
    var activeTimer: Option<Target>
    /** Seconds since the running timer started; not yet committed anywhere. */
    var currentTime: nat
    /** Which projects are shown unfolded. */
    var expanded: map<Id, bool>
    /** The next id to issue; stands for the clock reading the component uses. */
    var nextId: Id

    ghost predicate Valid()
      reads this
    {
      Invariant(projects, nextId, activeTimer, currentTime)
    }

    /** The running timer, if any, times a project (and element) that exists. */
    ghost predicate TimerOnExisting()
      reads this
    {
      activeTimer.None? || HasTarget(projects, activeTimer.value)
    }

    constructor ()
      ensures Valid() && TimerOnExisting()
      ensures projects == [] && activeTimer == None && currentTime == 0 && expanded == map[]
    {
      projects := [];
      activeTimer := None;
      currentTime := 0;
      expanded := map[];
      nextId := 1;
    }

    /** addProject: a name with nothing left after trimming is ignored; otherwise one
        project with the untrimmed name, no elements and no time is appended under a
        fresh id and shown unfolded. The timer is not touched. */
    method AddProject(name: string)
      requires Valid()
      modifies this
      ensures Valid()
      ensures Text.IsBlank(name) ==>
        projects == old(projects) && expanded == old(expanded) && nextId == old(nextId)
      ensures !Text.IsBlank(name) ==>
        projects == old(projects) + [Project(old(nextId), name, [], 0)]
        && old(nextId) !in ProjectIds(old(projects))
        && expanded == old(expanded)[old(nextId) := true] && nextId == old(nextId) + 1
      ensures activeTimer == old(activeTimer) && currentTime == old(currentTime)
      ensures old(TimerOnExisting()) ==> TimerOnExisting()
    {
      if Text.Trim(name) != [] {
        var p := Project(nextId, name, [], 0);
        if activeTimer.Some? && HasTarget(projects, activeTimer.value) {
          AddProjectKeepsTargets(projects, p, activeTimer.value);
        }
        ghost var ps, id := projects, nextId;
        projects := projects + [p];
        expanded := expanded[nextId := true];
        nextId := nextId + 1;
        AppendProjectKeeps(ps, id, name, activeTimer, currentTime, projects, nextId);
      }
    }

    /** addElement: an element with a fresh id, the given name and no time is appended
        to project `projectId`; an unknown project changes no project. */
    method AddElement(projectId: Id, name: string)
      requires Valid()
      modifies this
      ensures Valid()
      ensures projects == AddElementTo(old(projects), projectId, Element(old(nextId), name, 0))
      ensures old(nextId) !in AllElementIds(old(projects)) && nextId == old(nextId) + 1
      ensures activeTimer == old(activeTimer) && currentTime == old(currentTime)
      ensures expanded == old(expanded)
      ensures old(TimerOnExisting()) ==> TimerOnExisting()
    {
      var e := Element(nextId, name, 0);
      if activeTimer.Some? && HasTarget(projects, activeTimer.value) {
        AddElementKeepsTargets(projects, projectId, e, activeTimer.value);
      }
      ghost var ps, id := projects, nextId;
      projects := AddElementTo(projects, projectId, e);
      nextId := nextId + 1;
      AppendElementKeeps(ps, id, projectId, name, activeTimer, currentTime, projects, nextId);
    }

    /** toggleTimer: on the running target it stops the timer and commits the ticks;
        on any other target it first does that for the running timer, if any, and then
        starts the requested one from zero. A project timer and an element timer of
        the same project are different targets. */
    method ToggleTimer(projectId: Id, elementId: Option<Id>)
      requires Valid()
      modifies this
      ensures Valid()
      ensures var t := Target(projectId, elementId);
        if old(activeTimer) == Some(t) then
          projects == CommitTicks(old(projects), t, old(currentTime)) && activeTimer == None
        else
          projects == (if old(activeTimer).Some?
                       then CommitTicks(old(projects), old(activeTimer).value, old(currentTime))
                       else old(projects))
          && activeTimer == Some(t)
      ensures currentTime == 0
      ensures expanded == old(expanded) && nextId == old(nextId)
      ensures old(TimerOnExisting()) && HasTarget(old(projects), Target(projectId, elementId))
        ==> TimerOnExisting()
    {
      var t := Target(projectId, elementId);
      if activeTimer == Some(t) {
        StopActive();
      } else {
        if activeTimer.Some? {
          if HasTarget(projects, t) {
            CommitKeepsTargets(projects, activeTimer.value, currentTime, t);
          }
          StopActive();
        }
        ghost var timer, ticks := activeTimer, currentTime;
        activeTimer := Some(t);
        currentTime := 0;
        StartKeeps(projects, nextId, timer, ticks, activeTimer, currentTime);
      }
    }

    /** The stop branch for the running timer: its ticks are committed to its target
        (element and project total, or the total alone), and the timer is cleared. */
    method StopActive()
      requires Valid() && activeTimer.Some?
      modifies this
      ensures Valid()
      ensures projects == CommitTicks(old(projects), old(activeTimer).value, old(currentTime))
      ensures activeTimer == None && currentTime == 0
      ensures expanded == old(expanded) && nextId == old(nextId)
    {
      ghost var ps, timer, ticks := projects, activeTimer, currentTime;
      projects, activeTimer, currentTime := CommitTicks(projects, activeTimer.value, currentTime), None, 0;
      StopKeeps(ps, nextId, timer, ticks, projects, activeTimer, currentTime);
    }

    /** deleteProject: the projects with that id go, the others stay in order. A timer
        on that project, on it or on one of its elements, is cleared with its ticks
        discarded; any other timer runs on. */
    method DeleteProject(projectId: Id)
      requires Valid()
      modifies this
      ensures Valid()
      ensures projects == DropProject(old(projects), projectId)
      ensures projectId !in ProjectIds(projects)
      ensures if old(activeTimer).Some? && old(activeTimer).value.projectId == projectId
        then activeTimer == None && currentTime == 0
        else activeTimer == old(activeTimer) && currentTime == old(currentTime)
      ensures expanded == old(expanded) && nextId == old(nextId)
      ensures old(TimerOnExisting()) ==> TimerOnExisting()
    {
      ghost var ps, timer, ticks := projects, activeTimer, currentTime;
      if activeTimer.Some? && activeTimer.value.projectId == projectId {
        activeTimer := None;
        currentTime := 0;
      }
      if activeTimer.Some? && HasTarget(projects, activeTimer.value) {
        DropProjectKeepsTargets(projects, projectId, activeTimer.value);
      }
      projects := DropProject(projects, projectId);
      DeleteProjectKeeps(ps, nextId, projectId, timer, ticks, projects, activeTimer, currentTime);
    }

    /** deleteElement: element `elementId` leaves project `projectId` and its committed
        time leaves that project's total. A running timer whose element id is
        `elementId` is cleared with its ticks discarded; any other timer runs on. */
    method DeleteElement(projectId: Id, elementId: Id)
      requires Valid()
      modifies this
      ensures Valid()
      ensures projects == DropElementFrom(old(projects), projectId, elementId)
      ensures if old(activeTimer).Some? && old(activeTimer).value.elementId == Some(elementId)
        then activeTimer == None && currentTime == 0
        else activeTimer == old(activeTimer) && currentTime == old(currentTime)
      ensures expanded == old(expanded) && nextId == old(nextId)
      ensures old(TimerOnExisting()) ==> TimerOnExisting()
    {
      ghost var ps, timer, ticks := projects, activeTimer, currentTime;
      if activeTimer.Some? && activeTimer.value.elementId == Some(elementId) {
        activeTimer := None;
        currentTime := 0;
      }
      if activeTimer.Some? && HasTarget(projects, activeTimer.value) {
        DropElementKeepsTargets(projects, projectId, elementId, activeTimer.value);
      }
      projects := DropElementFrom(projects, projectId, elementId);
      DeleteElementKeeps(ps, nextId, projectId, elementId, timer, ticks, projects, activeTimer, currentTime);
    }

    /** toggleProject: flips whether the project is unfolded (a project never toggled
        counts as folded); nothing else changes. */
    method ToggleProject(projectId: Id)
      requires Valid()
      modifies this
      ensures Valid()
      ensures expanded == old(expanded)[projectId := !(projectId in old(expanded) && old(expanded)[projectId])]
      ensures projects == old(projects) && activeTimer == old(activeTimer)
      ensures currentTime == old(currentTime) && nextId == old(nextId)
    {
      var wasOpen := projectId in expanded && expanded[projectId];
      expanded := expanded[projectId := !wasOpen];
    }

    /** One second of the running timer: the tick counter grows by one. */
    method Tick()
      requires Valid() && activeTimer.Some?
      modifies this
      ensures Valid()
      ensures currentTime == old(currentTime) + 1
      ensures projects == old(projects) && activeTimer == old(activeTimer)
      ensures expanded == old(expanded) && nextId == old(nextId)
    {
      currentTime := currentTime + 1;
    }
  }
}
