/** `rescan_host`: a user asks for a target to be scanned again. Against the
    list of incomplete rescan tasks the request is turned away, recognised as
    a duplicate of a pending or an in-flight task, used to recover a task
    whose dispatch went stale, or recorded as a new task. */
module Rescan {
  import opened Wrappers

  /** A dispatch older than twenty minutes is presumed lost. */
  const StaleAfter := 1200

  const SecondsPerDay := 86400

  /** The fields of a rescan task the decision reads; `dateDispatched` is
      `None` until a worker claims the task. Times are whole seconds. */
  datatype Task = Task(target: string, userId: int, dispatched: bool, dateDispatched: Option<int>)

  datatype Outcome =
    | NotSubmitted       // the rescan form did not validate
    | Rejected           // the target may not be scanned
    | AlreadyPending     // a task for the target waits for a worker
    | AlreadyDispatched  // a worker claimed a task for the target recently
    | Refreshed          // a stale dispatched task was put back to pending
    | Created            // a new task was recorded

  /** The `seconds` field of `now - since` as a Python `timedelta`: the
      seconds within the day, between 0 and 86399, whatever the number of
      whole days (negative ones included). */
  function ElapsedSeconds(now: int, since: int): (s: int)
    ensures 0 <= s < SecondsPerDay
    ensures (now - since - s) % SecondsPerDay == 0
  {
    (now - since) % SecondsPerDay
  }

  predicate Stale(now: int, since: int)
  {
    ElapsedSeconds(now, since) > StaleAfter
  }

  /** Every dispatched task carries its dispatch time. */
  predicate WellFormed(tasks: seq<Task>)
  {
    forall k :: 0 <= k < |tasks| ==> tasks[k].dispatched ==> tasks[k].dateDispatched.Some?
  }

  /** The deduplication invariant: no two incomplete tasks share a target. */
  predicate OnePerTarget(tasks: seq<Task>)
  {
    forall i, j :: 0 <= i < j < |tasks| ==> tasks[i].target != tasks[j].target
  }

  /** The position of the first task for `ip`, as the loop over the
      incomplete scans finds it. */
  function FirstFor(tasks: seq<Task>, ip: string): (r: Option<nat>)
    ensures r.None? <==> forall k :: 0 <= k < |tasks| ==> tasks[k].target != ip
    ensures r.Some? ==> r.value < |tasks| && tasks[r.value].target == ip
    ensures r.Some? ==> forall k :: 0 <= k < r.value ==> tasks[k].target != ip
  {
    if |tasks| == 0 then None
    else if tasks[0].target == ip then Some(0)
    else
      match FirstFor(tasks[1..], ip)
      case None => None
      case Some(i) => Some(i + 1)
  }

  /** The outcome of a rescan request and the incomplete tasks afterwards.
      `submitted` is whether the form validated, `acceptable` the scope
      check, `now` the current time. */
  function Rescan(tasks: seq<Task>, ip: string, userId: int, now: int,
                  submitted: bool, acceptable: string -> bool): (r: (Outcome, seq<Task>))
    requires WellFormed(tasks)
    ensures WellFormed(r.1)
    ensures |r.1| == |tasks| + (if r.0 == Created then 1 else 0)
    ensures r.0 != Refreshed && r.0 != Created ==> r.1 == tasks
  {
    if !submitted then (NotSubmitted, tasks)
    else if !acceptable(ip) then (Rejected, tasks)
    else
      match FirstFor(tasks, ip)
      case None => (Created, tasks + [Task(ip, userId, false, None)])
      case Some(i) =>
        if !tasks[i].dispatched then (AlreadyPending, tasks)
        else if Stale(now, tasks[i].dateDispatched.value) then
          (Refreshed, tasks[i := tasks[i].(dispatched := false)])
        else (AlreadyDispatched, tasks)
  }

  /** A request whose form does not validate, or for a target outside the
      scope, changes nothing. */
  lemma TurnedAway(tasks: seq<Task>, ip: string, userId: int, now: int,
                   submitted: bool, acceptable: string -> bool)
    requires WellFormed(tasks)
    requires !submitted || !acceptable(ip)
    ensures Rescan(tasks, ip, userId, now, submitted, acceptable) ==
      (if submitted then Rejected else NotSubmitted, tasks)
  {
  }

  /** The first task for the target decides. Pending: a duplicate, nothing
      changes. Dispatched within the last 1200 seconds (by the within-day
      reading): a duplicate, nothing changes. Dispatched longer ago: that
      task alone goes back to pending and no task is added. */
  lemma ExistingTask(tasks: seq<Task>, ip: string, userId: int, now: int,
                     acceptable: string -> bool, i: nat)
    requires WellFormed(tasks) && acceptable(ip)
    requires i < |tasks| && tasks[i].target == ip
    requires forall k :: 0 <= k < i ==> tasks[k].target != ip
    ensures var (o, after) := Rescan(tasks, ip, userId, now, true, acceptable);
      && (!tasks[i].dispatched ==> o == AlreadyPending && after == tasks)
      && (tasks[i].dispatched && ElapsedSeconds(now, tasks[i].dateDispatched.value) <= StaleAfter ==>
            o == AlreadyDispatched && after == tasks)
      && (tasks[i].dispatched && ElapsedSeconds(now, tasks[i].dateDispatched.value) > StaleAfter ==>
            && o == Refreshed
            && |after| == |tasks|
            && after[i] == tasks[i].(dispatched := false)
            && forall k :: 0 <= k < |tasks| && k != i ==> after[k] == tasks[k])
  {
    assert FirstFor(tasks, ip) == Some(i);
  }

  /** With no incomplete task for the target, exactly one pending task for it
      is appended, owned by the requesting user, and the others are left as
      they were. */
  lemma NewTask(tasks: seq<Task>, ip: string, userId: int, now: int, acceptable: string -> bool)
    requires WellFormed(tasks) && acceptable(ip)
    requires forall k :: 0 <= k < |tasks| ==> tasks[k].target != ip
    ensures var (o, after) := Rescan(tasks, ip, userId, now, true, acceptable);
      && o == Created
      && |after| == |tasks| + 1
      && after[..|tasks|] == tasks
      && after[|tasks|] == Task(ip, userId, false, None)
  {
    assert (tasks + [Task(ip, userId, false, None)])[..|tasks|] == tasks;
  }

  /** Only the outcomes `Refreshed` and `Created` change the tasks. */
  lemma UnchangedUnlessRecorded(tasks: seq<Task>, ip: string, userId: int, now: int,
                                submitted: bool, acceptable: string -> bool)
    requires WellFormed(tasks)
    ensures var (o, after) := Rescan(tasks, ip, userId, now, submitted, acceptable);
      (o != Refreshed && o != Created <==> after == tasks)
  {
    var (o, after) := Rescan(tasks, ip, userId, now, submitted, acceptable);
    if o == Refreshed {
      var i := FirstFor(tasks, ip).value;
      assert after[i].dispatched != tasks[i].dispatched;
    } else if o == Created {
      assert |after| != |tasks|;
    }
  }

  /** Every request keeps the task list well formed and keeps at most one
      incomplete task per target. */
  lemma KeepsInvariants(tasks: seq<Task>, ip: string, userId: int, now: int,
                        submitted: bool, acceptable: string -> bool)
    requires WellFormed(tasks) && OnePerTarget(tasks)
    ensures var (o, after) := Rescan(tasks, ip, userId, now, submitted, acceptable);
      WellFormed(after) && OnePerTarget(after)
  {
    var (o, after) := Rescan(tasks, ip, userId, now, submitted, acceptable);
    if o == Created {
      var added := Task(ip, userId, false, None);
      assert after == tasks + [added];
      forall i, j | 0 <= i < j < |after| ensures after[i].target != after[j].target {
        if j == |tasks| {
          assert after[i] == tasks[i];
        } else {
          assert after[i] == tasks[i] && after[j] == tasks[j];
        }
      }
    } else if o == Refreshed {
      var i := FirstFor(tasks, ip).value;
      assert after == tasks[i := tasks[i].(dispatched := false)];
      forall a, b | 0 <= a < b < |after| ensures after[a].target != after[b].target {
        assert after[a].target == tasks[a].target && after[b].target == tasks[b].target;
      }
    }
  }

  /** Asking twice: right after a request is recorded or refreshed, the same
      request finds a pending task and changes nothing. */
  lemma RepeatIsPending(tasks: seq<Task>, ip: string, userId: int, now: int,
                        userId': int, now': int, acceptable: string -> bool)
    requires WellFormed(tasks) && acceptable(ip)
    requires Rescan(tasks, ip, userId, now, true, acceptable).0 in {Created, Refreshed}
    ensures var after := Rescan(tasks, ip, userId, now, true, acceptable).1;
      WellFormed(after) && Rescan(after, ip, userId', now', true, acceptable) == (AlreadyPending, after)
  {
    var (o, after) := Rescan(tasks, ip, userId, now, true, acceptable);
    if o == Created {
      NewTaskFound(tasks, ip, userId);
      ExistingTask(after, ip, userId', now', acceptable, |tasks|);
    } else {
      var i := FirstFor(tasks, ip).value;
      forall k | 0 <= k < i ensures after[k].target != ip {
        assert after[k] == tasks[k];
      }
      ExistingTask(after, ip, userId', now', acceptable, i);
    }
  }

  lemma NewTaskFound(tasks: seq<Task>, ip: string, userId: int)
    requires forall k :: 0 <= k < |tasks| ==> tasks[k].target != ip
    ensures var after := tasks + [Task(ip, userId, false, None)];
      forall k :: 0 <= k < |tasks| ==> after[k].target != ip
  {
  }

  /** Twenty minutes, strictly: a task dispatched exactly 1200 seconds ago is
      still in flight, one dispatched 1201 seconds ago is refreshed. */
  lemma StaleBoundary(t: Task, now: int, acceptable: string -> bool)
    requires acceptable(t.target) && t.dispatched && t.dateDispatched.Some?
    ensures now == t.dateDispatched.value + StaleAfter ==>
      Rescan([t], t.target, 0, now, true, acceptable).0 == AlreadyDispatched
    ensures now == t.dateDispatched.value + StaleAfter + 1 ==>
      Rescan([t], t.target, 0, now, true, acceptable) == (Refreshed, [t.(dispatched := false)])
  {
    ExistingTask([t], t.target, 0, now, acceptable, 0);
    assert [t][0 := t.(dispatched := false)] == [t.(dispatched := false)];
  }

  /** Only the seconds within the day count: a task dispatched a day and a
      minute ago reads as dispatched a minute ago and is left in flight, and
      a dispatch time a few seconds in the future reads as almost a day ago
      and is refreshed, while one 23 h 50 min in the future reads as ten
      minutes ago and is left in flight. */
  lemma WithinDayReading(t: Task, acceptable: string -> bool)
    requires acceptable(t.target) && t.dispatched && t.dateDispatched.Some?
    ensures var d := t.dateDispatched.value;
      && Rescan([t], t.target, 0, d + SecondsPerDay + 60, true, acceptable).0 == AlreadyDispatched
      && Rescan([t], t.target, 0, d - 10, true, acceptable).0 == Refreshed
      && Rescan([t], t.target, 0, d - 85800, true, acceptable).0 == AlreadyDispatched
  {
    var d := t.dateDispatched.value;
    assert ElapsedSeconds(d + SecondsPerDay + 60, d) == 60;
    assert ElapsedSeconds(d - 10, d) == SecondsPerDay - 10;
    ExistingTask([t], t.target, 0, d + SecondsPerDay + 60, acceptable, 0);
    ExistingTask([t], t.target, 0, d - 10, acceptable, 0);
    assert ElapsedSeconds(d - 85800, d) == 600;
    ExistingTask([t], t.target, 0, d - 85800, acceptable, 0);
  }

  /** The elapsed reading agrees with the true difference within a day. */
  lemma ElapsedWithinDay(now: int, since: int)
    requires 0 <= now - since < SecondsPerDay
    ensures ElapsedSeconds(now, since) == now - since
  {
  }

  lemma FlipKeepsWellFormed(tasks: seq<Task>, i: nat)
    requires WellFormed(tasks) && i < |tasks|
    ensures WellFormed(tasks[i := tasks[i].(dispatched := false)])
  {
  }

  lemma AppendKeepsWellFormed(tasks: seq<Task>, t: Task)
    requires WellFormed(tasks) && !t.dispatched
    ensures WellFormed(tasks + [t])
  {
  }

  /** A rescan task record; the request handler flips `dispatched` on the
      very object it found in the incomplete list. */
  class RescanTask {
    const target: string
    const userId: int
    var dispatched: bool
    var dateDispatched: Option<int>

    /** A new task: not yet dispatched, no dispatch time. */
    constructor (userId: int, target: string)
      ensures this.target == target && this.userId == userId
      ensures !dispatched && dateDispatched == None
    {
      this.target := target;
      this.userId := userId;
      dispatched := false;
      dateDispatched := None;
    }

    function Value(): Task
      reads this
    {
      Task(target, userId, dispatched, dateDispatched)
    }
  }

  function Values(scans: seq<RescanTask>): seq<Task>
    reads scans
  {
    seq(|scans|, k reads scans requires 0 <= k < |scans| => scans[k].Value())
  }

  /** The scope manager's list of incomplete rescan tasks, refreshed from
      the database after every write. */
  class IncompleteScans {
    var scans: seq<RescanTask>

    ghost predicate Valid()
      reads this, scans
    {
      && (forall i, j :: 0 <= i < j < |scans| ==> scans[i] != scans[j])
      && WellFormed(View())
    }

    function View(): seq<Task>
      reads this, scans
    {
      Values(scans)
    }

    constructor (scans: seq<RescanTask>)
      requires forall i, j :: 0 <= i < j < |scans| ==> scans[i] != scans[j]
      requires WellFormed(Values(scans))
      ensures Valid() && this.scans == scans
    {
      this.scans := scans;
    }

    /** The request handler: the scope check, the loop over the incomplete
        tasks with its early returns, the in-place refresh of a stale
        dispatch, or a new task. */
    method RescanHost(ip: string, userId: int, now: int, submitted: bool,
                      acceptable: string -> bool) returns (o: Outcome)
      requires Valid()
      modifies this, scans
      ensures Valid()
      ensures (o, View()) == Rescan(old(View()), ip, userId, now, submitted, acceptable)
      ensures o != Created ==> scans == old(scans)
      ensures o == Created ==> && |scans| == |old(scans)| + 1
                               && scans[..|old(scans)|] == old(scans)
                               && fresh(scans[|old(scans)|])
    {
      if !submitted {
        return NotSubmitted;
      }
      if !acceptable(ip) {
        return Rejected;
      }
      ghost var before := View();
      var i := 0;
      while i < |scans| && scans[i].target != ip
        invariant 0 <= i <= |scans|
        invariant forall k :: 0 <= k < i ==> scans[k].target != ip
      {
        i := i + 1;
      }
      if i < |scans| {
        ExistingTask(before, ip, userId, now, acceptable, i);
        var scan := scans[i];
        if scan.dispatched {
          if ElapsedSeconds(now, scan.dateDispatched.value) > StaleAfter {
            scan.dispatched := false;
            assert View() == before[i := before[i].(dispatched := false)] by {
              forall k | 0 <= k < |scans| && k != i ensures scans[k].Value() == before[k] {
                assert scans[k] != scan;
              }
            }
            FlipKeepsWellFormed(before, i);
            return Refreshed;
          }
          return AlreadyDispatched;
        }
        return AlreadyPending;
      }
      NewTask(before, ip, userId, now, acceptable);
      var rescan := new RescanTask(userId, ip);
      scans := scans + [rescan];
      assert View() == before + [rescan.Value()];
      AppendKeepsWellFormed(before, rescan.Value());
      return Created;
    }
  }
}
