/**
 * TimeRepository.kt: the session state machine (no session running, a
 * session running, a session running with an open pause) driven by
 * `startSession`, `startSessionAt`, `endSession`, `togglePause` and
 * `switchProject`, and the windows `effectiveToday` and `effectiveWeek`
 * ask the store for. Each operation runs as one sequential step.
 */
module Repository {
  import opened Wrappers
  import opened CivilDate
  import opened TimeUtils
  import opened Store

  // ---------------------------------------------------------------------
  // The operations as transitions of the tables

  /** The row `startSession` inserts: `WorkSession(projectId, startTs = now, startedManuallyAt = false)`. */
  function NewSession(projectId: int, startTs: int, manual: bool): WorkSession {
    WorkSession(0, projectId, startTs, None, manual, None)
  }

  /** `startSessionAt(projectId, startTs, manual)`: nothing if a session runs, else one new session. */
  function StartedAt(t: Tables, projectId: int, startTs: int, manual: bool): (r: Tables)
    ensures GetRunning(t).Some? ==> r == t
    ensures GetRunning(t).None? ==>
      && r.sessions == t.sessions + [WorkSession(t.lastSession + 1, projectId, startTs, None, manual, None)]
      && r.(sessions := t.sessions, lastSession := t.lastSession) == t
  {
    if GetRunning(t).Some? then t else SessionInserted(t, NewSession(projectId, startTs, manual))
  }

  /** `startSession(projectId, now)`: unless a session runs, the new automatic session from `now` is the running one. */
  function Started(t: Tables, projectId: int, now: int): (r: Tables)
    ensures GetRunning(t).Some? ==> r == t
    ensures GetRunning(t).None? ==> GetRunning(r) == Some(WorkSession(t.lastSession + 1, projectId, now, None, false, None))
  {
    StartSessionAtEffect(t, projectId, now, false);
    StartedAt(t, projectId, now, false)
  }

  /** The running row, with `endTs = now`, is in the updated table. */
  lemma EndedRow(t: Tables, now: int)
    ensures GetRunning(t).Some? ==>
      var u := SessionUpdated(t, GetRunning(t).value.(endTs := Some(now)));
      exists i :: 0 <= i < |u.sessions| && u.sessions[i] == GetRunning(t).value.(endTs := Some(now))
  {
    if GetRunning(t).Some? {
      var g := GetRunning(t).value;
      var i :| 0 <= i < |t.sessions| && t.sessions[i] == g;
      assert SessionUpdated(t, g.(endTs := Some(now))).sessions[i] == g.(endTs := Some(now));
    }
  }

  /** `endSession(now)`: the running session, if any, gets `endTs = now`. */
  function Ended(t: Tables, now: int): (r: Tables)
    ensures GetRunning(t).None? ==> r == t
    ensures GetRunning(t).Some? ==> exists i :: 0 <= i < |r.sessions| && r.sessions[i] == GetRunning(t).value.(endTs := Some(now))
    ensures |r.sessions| == |t.sessions| && r.(sessions := t.sessions) == t
  {
    EndedRow(t, now);
    match GetRunning(t)
    case None => t
    case Some(r) => SessionUpdated(t, r.(endTs := Some(now)))
  }

  /**
   * `togglePause(now)` does nothing when no session runs. Otherwise, when
   * the running session has no open pause it appends the pause
   * `[now, null)` for it, and when it has one it closes it at `now`;
   * sessions and audit rows never change.
   */
  function Toggled(t: Tables, now: int): (r: Tables)
    ensures GetRunning(t).None? ==> r == t
    ensures GetRunning(t).Some? && GetOpenPause(t, GetRunning(t).value.id).None? ==>
      r.pauses == t.pauses + [PauseSegment(t.lastPause + 1, GetRunning(t).value.id, now, None)]
    ensures GetRunning(t).Some? && GetOpenPause(t, GetRunning(t).value.id).Some? ==>
      var p := GetOpenPause(t, GetRunning(t).value.id).value;
      && |r.pauses| == |t.pauses|
      && forall i :: 0 <= i < |t.pauses| ==> r.pauses[i] == (if t.pauses[i].id == p.id then p.(endTs := Some(now)) else t.pauses[i])
    ensures r.sessions == t.sessions && r.edits == t.edits && r.projects == t.projects
  {
    match GetRunning(t)
    case None => t
    case Some(r) =>
      assert HasSession(t, r.id);
      match GetOpenPause(t, r.id)
      case None => PauseInserted(t, PauseSegment(0, r.id, now, None))
      case Some(p) => PauseUpdated(t, p.(endTs := Some(now)))
  }

  /** `switchProject(toProjectId, now)`: end the running session (if any) at `now`, then start one for `toProjectId`. */
  function Switched(t: Tables, toProjectId: int, now: int): (r: Tables)
    ensures r.sessions == Ended(t, now).sessions + [WorkSession(t.lastSession + 1, toProjectId, now, None, false, None)]
    ensures r.pauses == t.pauses && r.edits == t.edits && r.projects == t.projects
  {
    SessionInserted(Ended(t, now), NewSession(toProjectId, now, false))
  }

  // ---------------------------------------------------------------------
  // The invariant

  predicate Running(s: WorkSession) {
    s.endTs.None?
  }

  /** At most one session has `endTs == null`; then `getRunning()` finds THE running session. */
  predicate AtMostOneRunning(t: Tables)
    ensures AtMostOneRunning(t) ==> forall s :: s in t.sessions && Running(s) ==> GetRunning(t) == Some(s)
  {
    RunningRowsUnique(t);
    forall i, j :: 0 <= i < j < |t.sessions| ==> !(Running(t.sessions[i]) && Running(t.sessions[j]))
  }

  lemma RunningRowsUnique(t: Tables)
    ensures (forall i, j :: 0 <= i < j < |t.sessions| ==> !(Running(t.sessions[i]) && Running(t.sessions[j]))) ==>
      forall s :: s in t.sessions && Running(s) ==> GetRunning(t) == Some(s)
  {
    if forall i, j :: 0 <= i < j < |t.sessions| ==> !(Running(t.sessions[i]) && Running(t.sessions[j])) {
      forall s | s in t.sessions && Running(s)
        ensures GetRunning(t) == Some(s)
      {
        var r := GetRunning(t).value;
        var i :| 0 <= i < |t.sessions| && t.sessions[i] == s;
        var j :| 0 <= j < |t.sessions| && t.sessions[j] == r;
      }
    }
  }

  /** At most one pause per session has `endTs == null`. */
  predicate AtMostOneOpenPause(t: Tables) {
    forall i, j :: 0 <= i < j < |t.pauses| && t.pauses[i].sessionId == t.pauses[j].sessionId ==>
      !(t.pauses[i].endTs.None? && t.pauses[j].endTs.None?)
  }

  /** Session ids are unique, so the row with a session's id is that session. */
  lemma SameIdSameRow(t: Tables, s: WorkSession, i: int)
    requires WellFormed(t) && s in t.sessions && 0 <= i < |t.sessions| && t.sessions[i].id == s.id
    ensures t.sessions[i] == s
  {
    var k :| 0 <= k < |t.sessions| && t.sessions[k] == s;
    assert SessionId(t.sessions[i]) == SessionId(t.sessions[k]);
  }

  /** Ending the one running session leaves no session running. */
  lemma EndedStopsAll(t: Tables, now: int)
    requires AtMostOneRunning(t)
    ensures forall s :: s in Ended(t, now).sessions ==> !Running(s)
    ensures AtMostOneRunning(Ended(t, now))
  {
    var e := Ended(t, now);
    match GetRunning(t)
    case None =>
    case Some(r) =>
      forall k | 0 <= k < |e.sessions|
        ensures !Running(e.sessions[k])
      {
        assert t.sessions[k] in t.sessions;
      }
  }

  /**
   * `endSession` does nothing when no session runs; otherwise it sets
   * `endTs = now` on the running row only, keeps every other row and every
   * pause (an open pause stays open), and afterwards nothing runs.
   */
  lemma EndSessionEffect(t: Tables, now: int)
    requires WellFormed(t) && AtMostOneRunning(t)
    ensures GetRunning(t).None? ==> Ended(t, now) == t
    ensures GetRunning(t).Some? ==>
      var r := GetRunning(t).value; var e := Ended(t, now);
      && |e.sessions| == |t.sessions|
      && (forall i :: 0 <= i < |t.sessions| ==>
            e.sessions[i] == (if t.sessions[i] == r then r.(endTs := Some(now)) else t.sessions[i]))
      && GetRunning(e).None?
    ensures Ended(t, now).pauses == t.pauses && Ended(t, now).edits == t.edits
    ensures forall sid :: GetOpenPause(Ended(t, now), sid) == GetOpenPause(t, sid)
  {
    EndedStopsAll(t, now);
    match GetRunning(t)
    case None =>
    case Some(r) =>
      forall i | 0 <= i < |t.sessions| && t.sessions[i].id == r.id
        ensures t.sessions[i] == r
      {
        SameIdSameRow(t, r, i);
      }
  }

  /**
   * `startSessionAt` changes nothing while a session runs; otherwise it
   * appends exactly one running session with the caller's project, start
   * and manual flag, and the next id.
   */
  lemma StartSessionAtEffect(t: Tables, projectId: int, startTs: int, manual: bool)
    ensures GetRunning(t).Some? ==> StartedAt(t, projectId, startTs, manual) == t
    ensures GetRunning(t).None? ==>
      var r := StartedAt(t, projectId, startTs, manual);
      && r.sessions == t.sessions + [WorkSession(t.lastSession + 1, projectId, startTs, None, manual, None)]
      && GetRunning(r) == Some(WorkSession(t.lastSession + 1, projectId, startTs, None, manual, None))
      && r.pauses == t.pauses && r.projects == t.projects && r.edits == t.edits
  {
    if GetRunning(t).None? {
      var r := StartedAt(t, projectId, startTs, manual);
      var s := WorkSession(t.lastSession + 1, projectId, startTs, None, manual, None);
      assert forall x :: x in r.sessions ==> x in t.sessions || x == s;
      assert s in r.sessions;
    }
  }

  /** Every lifecycle operation keeps at most one session running. */
  lemma StartedAtKeepsOneRunning(t: Tables, projectId: int, startTs: int, manual: bool)
    requires AtMostOneRunning(t)
    ensures AtMostOneRunning(StartedAt(t, projectId, startTs, manual))
  {
    if GetRunning(t).None? {
      var r := StartedAt(t, projectId, startTs, manual);
      forall i, j | 0 <= i < j < |r.sessions|
        ensures !(Running(r.sessions[i]) && Running(r.sessions[j]))
      {
        assert r.sessions[i] == t.sessions[i];
        assert t.sessions[i] in t.sessions;
      }
    }
  }

  /**
   * After `switchProject` exactly one session runs: the one it inserted,
   * for `toProjectId` from `now`. The session that ran before ends at that
   * same `now`, so there is neither gap nor overlap.
   */
  lemma SwitchProjectEffect(t: Tables, toProjectId: int, now: int)
    requires WellFormed(t) && AtMostOneRunning(t)
    ensures var r := Switched(t, toProjectId, now);
      && AtMostOneRunning(r)
      && r.sessions[|r.sessions| - 1] == WorkSession(t.lastSession + 1, toProjectId, now, None, false, None)
      && (forall s :: s in r.sessions && Running(s) ==> s == r.sessions[|r.sessions| - 1])
      && GetRunning(r) == Some(r.sessions[|r.sessions| - 1])
    ensures GetRunning(t).Some? ==>
      var old_ := GetRunning(t).value;
      Switched(t, toProjectId, now).sessions[..|t.sessions|] == Ended(t, now).sessions
      && exists s :: s in Ended(t, now).sessions && s.id == old_.id && s.endTs == Some(now)
  {
    SwitchedRunsNew(t, toProjectId, now);
    if GetRunning(t).Some? {
      var e := Ended(t, now);
      var o := GetRunning(t).value;
      var i :| 0 <= i < |t.sessions| && t.sessions[i] == o;
      assert e.sessions[i] in e.sessions && e.sessions[i].id == o.id && e.sessions[i].endTs == Some(now);
    }
  }

  /** After ending whatever ran, the inserted session is the only one running. */
  lemma SwitchedRunsNew(t: Tables, toProjectId: int, now: int)
    requires AtMostOneRunning(t)
    ensures var r := Switched(t, toProjectId, now);
      && r.sessions == Ended(t, now).sessions + [WorkSession(t.lastSession + 1, toProjectId, now, None, false, None)]
      && AtMostOneRunning(r)
      && (forall s :: s in r.sessions && Running(s) ==> s == r.sessions[|r.sessions| - 1])
      && GetRunning(r) == Some(r.sessions[|r.sessions| - 1])
  {
    var e := Ended(t, now);
    EndedStopsAll(t, now);
    var r := Switched(t, toProjectId, now);
    var n := r.sessions[|r.sessions| - 1];
    assert r.sessions == e.sessions + [n];
    assert forall x :: x in r.sessions ==> x in e.sessions || x == n;
    forall i, j | 0 <= i < j < |r.sessions|
      ensures !(Running(r.sessions[i]) && Running(r.sessions[j]))
    {
      assert r.sessions[i] in e.sessions;
    }
    assert n in r.sessions;
  }

  /** A pause row that `togglePause` writes belongs to the running session. */
  lemma TogglePauseTouchesOnlyRunning(t: Tables, now: int)
    requires WellFormed(t)
    ensures GetRunning(t).Some? ==>
      && |t.pauses| <= |Toggled(t, now).pauses|
      && (forall i :: 0 <= i < |t.pauses| && t.pauses[i].sessionId != GetRunning(t).value.id ==>
            Toggled(t, now).pauses[i] == t.pauses[i])
      && (forall i :: |t.pauses| <= i < |Toggled(t, now).pauses| ==>
            Toggled(t, now).pauses[i].sessionId == GetRunning(t).value.id)
  {
    match GetRunning(t)
    case None =>
    case Some(r) =>
      match GetOpenPause(t, r.id)
      case None =>
      case Some(p) =>
        SamePauseIdSameRow(t, p);
  }

  /** Toggling keeps at most one open pause per session: it opens one only where none is open. */
  lemma ToggledKeepsOneOpenPause(t: Tables, now: int)
    requires WellFormed(t) && AtMostOneOpenPause(t)
    ensures AtMostOneOpenPause(Toggled(t, now))
  {
    match GetRunning(t)
    case None =>
    case Some(r) =>
      var u := Toggled(t, now);
      match GetOpenPause(t, r.id)
      case None =>
        forall i, j | 0 <= i < j < |u.pauses| && u.pauses[i].sessionId == u.pauses[j].sessionId
          ensures !(u.pauses[i].endTs.None? && u.pauses[j].endTs.None?)
        {
          assert u.pauses[i] == t.pauses[i];
          assert t.pauses[i] in t.pauses;
        }
      case Some(p) =>
        ClosedKeepsOneOpenPause(t, p.(endTs := Some(now)));
  }

  /** Closing a pause opens none. */
  lemma ClosedKeepsOneOpenPause(t: Tables, q: PauseSegment)
    requires AtMostOneOpenPause(t) && HasSession(t, q.sessionId) && q.endTs.Some?
    ensures AtMostOneOpenPause(PauseUpdated(t, q))
  {
    var u := PauseUpdated(t, q);
    forall i, j | 0 <= i < j < |u.pauses| && u.pauses[i].sessionId == u.pauses[j].sessionId
      ensures !(u.pauses[i].endTs.None? && u.pauses[j].endTs.None?)
    {
      if t.pauses[i].id != q.id && t.pauses[j].id != q.id {
        assert u.pauses[i] == t.pauses[i] && u.pauses[j] == t.pauses[j];
      }
    }
  }

  /**
   * None of the operations deletes a session or changes a session field
   * other than `endTs`, and none writes a pause or an edit except
   * `togglePause`.
   */
  predicate OnlyEndsChange(t: Tables, r: Tables) {
    && |t.sessions| <= |r.sessions|
    && (forall i :: 0 <= i < |t.sessions| ==> r.sessions[i].(endTs := t.sessions[i].endTs) == t.sessions[i])
    && r.projects == t.projects && r.edits == t.edits
  }

  lemma LifecycleOnlyEndsChange(t: Tables, projectId: int, startTs: int, manual: bool, now: int)
    requires WellFormed(t)
    ensures OnlyEndsChange(t, StartedAt(t, projectId, startTs, manual)) && StartedAt(t, projectId, startTs, manual).pauses == t.pauses
    ensures OnlyEndsChange(t, Ended(t, now)) && Ended(t, now).pauses == t.pauses
    ensures OnlyEndsChange(t, Toggled(t, now))
    ensures OnlyEndsChange(t, Switched(t, projectId, now)) && Switched(t, projectId, now).pauses == t.pauses
  {
    var e := Ended(t, now);
    if GetRunning(t).Some? {
      forall i | 0 <= i < |t.sessions| && t.sessions[i].id == GetRunning(t).value.id
        ensures t.sessions[i] == GetRunning(t).value
      {
        SameIdSameRow(t, GetRunning(t).value, i);
      }
    }
    assert OnlyEndsChange(t, e);
    var w := Switched(t, projectId, now);
    assert forall i :: 0 <= i < |e.sessions| ==> w.sessions[i] == e.sessions[i];
  }

  // ---------------------------------------------------------------------
  // The repository object

  class TimeRepository {
    const db: AppDb

    constructor (db: AppDb)
      ensures this.db == db
    {
      this.db := db;
    }

    /** `effectiveToday(now)`: the sum over `[dayStart(now), dayStart(now) + 86 400 000)`. */
    method EffectiveToday(now: int) returns (r: int)
      ensures r == EffectiveSumBetween(db.State(), Midnight(now), Midnight(now) + DayMs, now)
    {
      var start := DayStart(now);
      var end := start + 86_400_000;
      r := EffectiveSumBetween(db.State(), start, end, now);
    }

    /** `effectiveWeek(now)`: the sum over `weekBounds(now, weekStartMonday ?: true)`. */
    method EffectiveWeek(now: int, weekStartMonday: Option<bool>) returns (r: int)
      ensures r == EffectiveSumBetween(db.State(), WeekWindow(now, weekStartMonday.GetOr(true)).0,
                                       WeekWindow(now, weekStartMonday.GetOr(true)).1, now)
    {
      var startMonday := weekStartMonday.GetOr(true);
      var ws, we := WeekBounds(now, startMonday);
      r := EffectiveSumBetween(db.State(), ws, we, now);
    }

    method StartSession(projectId: int, now: int)
      requires db.Valid()
      modifies db
      ensures db.Valid() && db.State() == Started(old(db.State()), projectId, now)
    {
      if GetRunning(db.State()) != None {
        return;
      }
      var _ := db.InsertSession(WorkSession(0, projectId, now, None, false, None));
    }

    method StartSessionAt(projectId: int, startTs: int, manual: bool)
      requires db.Valid()
      modifies db
      ensures db.Valid() && db.State() == StartedAt(old(db.State()), projectId, startTs, manual)
    {
      if GetRunning(db.State()) != None {
        return;
      }
      var _ := db.InsertSession(WorkSession(0, projectId, startTs, None, manual, None));
    }

    method EndSession(now: int)
      requires db.Valid()
      modifies db
      ensures db.Valid() && db.State() == Ended(old(db.State()), now)
    {
      var running := GetRunning(db.State());
      if running.None? {
        return;
      }
      db.UpdateSession(running.value.(endTs := Some(now)));
    }

    method TogglePause(now: int)
      requires db.Valid()
      modifies db
      ensures db.Valid() && db.State() == Toggled(old(db.State()), now)
    {
      var running := GetRunning(db.State());
      if running.None? {
        return;
      }
      var sid := running.value.id;
      assert HasSession(db.State(), sid);
      var open := GetOpenPause(db.State(), sid);
      if open.None? {
        var _ := db.InsertPause(PauseSegment(0, sid, now, None));
      } else {
        db.UpdatePause(open.value.(endTs := Some(now)));
      }
    }

    method SwitchProject(toProjectId: int, now: int)
      requires db.Valid()
      modifies db
      ensures db.Valid() && db.State() == Switched(old(db.State()), toProjectId, now)
    {
      var running := GetRunning(db.State());
      if running.Some? {
        db.UpdateSession(running.value.(endTs := Some(now)));
      }
      var _ := db.InsertSession(WorkSession(0, toProjectId, now, None, false, None));
    }
  }
}
