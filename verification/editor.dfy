/**
 * SessionEditorScreen.kt: the audited editing of one work session. Each
 * callback writes one row (update, insert or delete) and appends one
 * `SessionEdit` that records the field and its old and new values as
 * text. The screen keeps a snapshot of the session, refreshed after the
 * start and end edits, and an in-memory list of its pauses, which the
 * pause edits do not refresh.
 */
module Editor {
  import opened Wrappers
  import opened Text
  import opened CivilDate
  import opened TimeUtils
  import opened Seqs
  import opened Store

  // ---------------------------------------------------------------------
  // Time picking and audit texts

  /** `pickTime`: the picked hour and minute on the day of `base` (`ts ?: now`). */
  function PickTime(base: int, hh: int, mm: int): (r: int)
    ensures 0 <= hh < 24 && 0 <= mm < 60 ==>
      Midnight(r) == Midnight(base) && r - Midnight(base) == (hh * 60 + mm) * 60_000 && r % 60_000 == 0
  {
    PickedMinute(base, hh, mm);
    Midnight(base) + (hh * 60 + mm) * 60_000
  }

  lemma PickedMinute(base: int, hh: int, mm: int)
    ensures var r := Midnight(base) + (hh * 60 + mm) * 60_000;
      0 <= hh < 24 && 0 <= mm < 60 ==> Midnight(r) == Midnight(base) && r % 60_000 == 0
  {
    var m := Midnight(base);
    var r := m + (hh * 60 + mm) * 60_000;
    if 0 <= hh < 24 && 0 <= mm < 60 {
      MinuteOfDay(m / DayMs, hh * 60 + mm, m, r);
      MidnightWithin(base, r);
    }
  }

  /** Adding whole minutes of one day to a midnight stays in that day on a minute boundary. */
  lemma MinuteOfDay(q: int, k: int, m: int, r: int)
    requires 0 <= k < 1440 && m == q * 86_400_000 && r == m + k * 60_000
    ensures m <= r < m + 86_400_000 && r % 60_000 == 0
  {
    assert r == 60_000 * (q * 1440 + k);
  }

  /** A nullable Long in a string template: its digits, or "null". */
  function NullableText(v: Option<int>): string {
    match v
    case None => "null"
    case Some(x) => LongToString(x)
  }

  /** `"${p.startTs}-${p.endTs}"` */
  function PauseText(p: PauseSegment): string {
    LongToString(p.startTs) + "-" + NullableText(p.endTs)
  }

  /** The audit row of a change; `editedAt` is the clock reading, `reason` is always null. */
  function Audit(sid: int, field: string, oldValue: Option<string>, newValue: Option<string>, now: int): SessionEdit {
    SessionEdit(0, sid, field, oldValue, newValue, None, now)
  }

  /** Rewriting a session row keeps every session id, so the foreign keys still hold. */
  lemma SessionUpdatedKeepsIds(t: Tables, s: WorkSession)
    ensures forall sid :: HasSession(SessionUpdated(t, s), sid) <==> HasSession(t, sid)
  {
    SameSessionIds(t, SessionUpdated(t, s));
  }

  // ---------------------------------------------------------------------
  // The callbacks as transitions of the tables

  /** The start button: update `startTs`, log "startTs"; nothing when the value is unchanged. */
  function StartEdited(t: Tables, s: WorkSession, v: int, now: int): (r: Tables)
    requires HasSession(t, s.id)
    ensures v == s.startTs ==> r == t
    ensures v != s.startTs ==> |r.edits| == |t.edits| + 1 && r.edits[|t.edits|].sessionId == s.id && r.edits[|t.edits|].field == "startTs"
    ensures LogGrows(t, r) && r.pauses == t.pauses && r.projects == t.projects
  {
    if v == s.startTs then t
    else
      SessionUpdatedKeepsIds(t, s.(startTs := v));
      EditInserted(SessionUpdated(t, s.(startTs := v)),
        Audit(s.id, "startTs", Some(LongToString(s.startTs)), Some(LongToString(v)), now))
  }

  /** The end button: update `endTs`, log "endTs" with a null old value for a running session. */
  function EndEdited(t: Tables, s: WorkSession, v: int, now: int): (r: Tables)
    requires HasSession(t, s.id)
    ensures s.endTs == Some(v) ==> r == t
    ensures s.endTs != Some(v) ==> |r.edits| == |t.edits| + 1 && r.edits[|t.edits|].sessionId == s.id && r.edits[|t.edits|].field == "endTs"
    ensures LogGrows(t, r) && r.pauses == t.pauses && r.projects == t.projects
  {
    if s.endTs == Some(v) then t
    else
      SessionUpdatedKeepsIds(t, s.(endTs := Some(v)));
      var oldValue := match s.endTs case None => None case Some(e) => Some(LongToString(e));
      EditInserted(SessionUpdated(t, s.(endTs := Some(v))),
        Audit(s.id, "endTs", oldValue, Some(LongToString(v)), now))
  }

  /** A pause's start button: write back the snapshot `ps` with a new `startTs`, log "pause_edit". */
  function PauseStartEdited(t: Tables, sid: int, ps: PauseSegment, v: int, now: int): (r: Tables)
    requires HasSession(t, sid) && ps.sessionId == sid
    ensures v == ps.startTs ==> r == t
    ensures v != ps.startTs ==> |r.edits| == |t.edits| + 1 && r.edits[|t.edits|].sessionId == sid && r.edits[|t.edits|].field == "pause_edit"
    ensures LogGrows(t, r) && r.sessions == t.sessions && r.projects == t.projects
  {
    if v == ps.startTs then t
    else
      EditInserted(PauseUpdated(t, ps.(startTs := v)),
        Audit(sid, "pause_edit", Some(PauseText(ps)), Some(LongToString(v) + "-" + NullableText(ps.endTs)), now))
  }

  /** A pause's end button: write back the snapshot `ps` with a new `endTs`, log "pause_edit". */
  function PauseEndEdited(t: Tables, sid: int, ps: PauseSegment, v: int, now: int): (r: Tables)
    requires HasSession(t, sid) && ps.sessionId == sid
    ensures ps.endTs == Some(v) ==> r == t
    ensures ps.endTs != Some(v) ==> |r.edits| == |t.edits| + 1 && r.edits[|t.edits|].sessionId == sid && r.edits[|t.edits|].field == "pause_edit"
    ensures LogGrows(t, r) && r.sessions == t.sessions && r.projects == t.projects
  {
    if ps.endTs == Some(v) then t
    else
      EditInserted(PauseUpdated(t, ps.(endTs := Some(v))),
        Audit(sid, "pause_edit", Some(PauseText(ps)), Some(LongToString(ps.startTs) + "-" + LongToString(v)), now))
  }

  /** The delete button: delete the pause, log "pause_delete" with a null new value. */
  function PauseDeletedLogged(t: Tables, sid: int, ps: PauseSegment, now: int): (r: Tables)
    requires HasSession(t, sid)
    ensures |r.edits| == |t.edits| + 1 && r.edits[|t.edits|].field == "pause_delete" && r.edits[|t.edits|].newValue.None?
    ensures LogGrows(t, r) && r.sessions == t.sessions && r.projects == t.projects
  {
    EditInserted(PauseDeleted(t, ps), Audit(sid, "pause_delete", Some(PauseText(ps)), None, now))
  }

  /** The pause `addPause` inserts: half an hour from noon of the session's first day. */
  function NoonPause(sid: int, startTs: int): PauseSegment {
    var base := Midnight(startTs) + 12 * 60 * 60_000;
    PauseSegment(0, sid, base, Some(base + 30 * 60_000))
  }

  /** "+ Pause hinzufügen": insert the noon pause, log "pause_add" with a null old value. */
  function PauseAdded(t: Tables, sid: int, startTs: int, now: int): (r: Tables)
    requires HasSession(t, sid)
    ensures |r.pauses| == |t.pauses| + 1 && r.pauses[|t.pauses|].sessionId == sid
    ensures |r.edits| == |t.edits| + 1 && r.edits[|t.edits|].field == "pause_add" && r.edits[|t.edits|].oldValue.None?
    ensures LogGrows(t, r) && r.sessions == t.sessions && r.projects == t.projects
  {
    var np := NoonPause(sid, startTs);
    EditInserted(PauseInserted(t, np), Audit(sid, "pause_add", None, Some(PauseText(np)), now))
  }

  // ---------------------------------------------------------------------
  // What the callbacks do

  /** The audit log only grows, by one row per change and never more: no callback updates or deletes an audit row. */
  predicate LogGrows(t: Tables, r: Tables) {
    t.edits <= r.edits && |r.edits| <= |t.edits| + 1 && r.lastEdit >= t.lastEdit
  }

  /**
   * A start edit writes nothing when the picked value equals the current
   * one. Otherwise exactly that session's `startTs` changes and one audit
   * row is appended, whose texts read back as the old and the new value.
   */
  lemma StartEditEffect(t: Tables, s: WorkSession, v: int, now: int)
    requires WellFormed(t) && s in t.sessions
    ensures v == s.startTs ==> StartEdited(t, s, v, now) == t
    ensures v != s.startTs ==>
      var r := StartEdited(t, s, v, now);
      && |r.sessions| == |t.sessions|
      && (forall i :: 0 <= i < |t.sessions| ==>
            r.sessions[i] == (if t.sessions[i] == s then s.(startTs := v) else t.sessions[i]))
      && r.pauses == t.pauses && r.projects == t.projects
      && |r.edits| == |t.edits| + 1
      && var e := r.edits[|t.edits|];
         e.sessionId == s.id && e.field == "startTs" && e.oldValue.Some? && e.newValue.Some?
         && e.oldValue.value == LongToString(s.startTs) && e.newValue.value == LongToString(v)
         && (s.startTs >= 0 ==> AllDigits(e.oldValue.value) && DigitsValue(e.oldValue.value) == s.startTs)
         && (v >= 0 ==> AllDigits(e.newValue.value) && DigitsValue(e.newValue.value) == v)
  {
    SameSessionIdSameRow(t, s);
  }

  /**
   * An end edit changes exactly that session's `endTs`, which afterwards is
   * set: editing the end of the running session ends it, and then no
   * session runs. The audit row's old value is null exactly when the
   * session was running.
   */
  lemma EndEditEffect(t: Tables, s: WorkSession, v: int, now: int)
    requires WellFormed(t) && s in t.sessions
    ensures s.endTs == Some(v) ==> EndEdited(t, s, v, now) == t
    ensures s.endTs != Some(v) ==>
      var r := EndEdited(t, s, v, now);
      && |r.sessions| == |t.sessions|
      && (forall i :: 0 <= i < |t.sessions| ==>
            r.sessions[i] == (if t.sessions[i] == s then s.(endTs := Some(v)) else t.sessions[i]))
      && r.pauses == t.pauses && r.projects == t.projects
      && |r.edits| == |t.edits| + 1
      && r.edits[|t.edits|].field == "endTs"
      && (r.edits[|t.edits|].oldValue.None? <==> s.endTs.None?)
    ensures s.endTs.None? && (forall x :: x in t.sessions && x != s ==> x.endTs.Some?) ==>
      GetRunning(EndEdited(t, s, v, now)).None?
  {
    var r := EndEdited(t, s, v, now);
    SameSessionIdSameRow(t, s);
    if s.endTs.None? && (forall x :: x in t.sessions && x != s ==> x.endTs.Some?) {
      forall x | x in r.sessions
        ensures x.endTs.Some?
      {
        var i :| 0 <= i < |r.sessions| && r.sessions[i] == x;
        assert t.sessions[i] in t.sessions;
      }
    }
  }

  /** A pause's start edit writes the snapshot with the new start into every row with its id, and logs it. */
  lemma PauseStartEditEffect(t: Tables, ps: PauseSegment, v: int, now: int)
    requires HasSession(t, ps.sessionId) && v != ps.startTs
    ensures var r := PauseStartEdited(t, ps.sessionId, ps, v, now);
      && r.sessions == t.sessions && |r.pauses| == |t.pauses|
      && (forall i :: 0 <= i < |t.pauses| ==>
            r.pauses[i] == (if t.pauses[i].id == ps.id then ps.(startTs := v) else t.pauses[i]))
      && r.edits == t.edits + [Audit(ps.sessionId, "pause_edit", Some(PauseText(ps)),
                                      Some(PauseText(ps.(startTs := v))), now).(id := t.lastEdit + 1)]
  {
    var q := ps.(startTs := v);
    var u := PauseUpdated(t, q);
    assert PauseText(q) == LongToString(v) + "-" + NullableText(ps.endTs);
    var e := Audit(ps.sessionId, "pause_edit", Some(PauseText(ps)), Some(PauseText(q)), now);
    assert PauseStartEdited(t, ps.sessionId, ps, v, now) == EditInserted(u, e);
  }

  /** A pause's end edit writes the snapshot with the new end into every row with its id, and logs it. */
  lemma PauseEndEditEffect(t: Tables, ps: PauseSegment, v: int, now: int)
    requires HasSession(t, ps.sessionId) && ps.endTs != Some(v)
    ensures var r := PauseEndEdited(t, ps.sessionId, ps, v, now);
      && r.sessions == t.sessions && |r.pauses| == |t.pauses|
      && (forall i :: 0 <= i < |t.pauses| ==>
            r.pauses[i] == (if t.pauses[i].id == ps.id then ps.(endTs := Some(v)) else t.pauses[i]))
      && r.edits == t.edits + [Audit(ps.sessionId, "pause_edit", Some(PauseText(ps)),
                                      Some(PauseText(ps.(endTs := Some(v)))), now).(id := t.lastEdit + 1)]
  {
    var q := ps.(endTs := Some(v));
    var u := PauseUpdated(t, q);
    assert PauseText(q) == LongToString(ps.startTs) + "-" + LongToString(v);
    var e := Audit(ps.sessionId, "pause_edit", Some(PauseText(ps)), Some(PauseText(q)), now);
    assert PauseEndEdited(t, ps.sessionId, ps, v, now) == EditInserted(u, e);
  }

  /**
   * The in-memory pause list is not refreshed after a pause edit: editing
   * the start and then the end of the same listed pause writes the stale
   * snapshot back, so the pause ends up with its original start, and the
   * second audit row still shows the original start as the old value.
   */
  lemma StalePauseSnapshot(t: Tables, ps: PauseSegment, newStart: int, newEnd: int, now1: int, now2: int)
    requires HasSession(t, ps.sessionId) && ps in t.pauses
    requires newStart != ps.startTs && ps.endTs != Some(newEnd)
    ensures var t1 := PauseStartEdited(t, ps.sessionId, ps, newStart, now1);
      var t2 := PauseEndEdited(t1, ps.sessionId, ps, newEnd, now2);
      && ps.(endTs := Some(newEnd)) in t2.pauses
      && (forall p :: p in t2.pauses && p.id == ps.id ==> p.startTs == ps.startTs)
      && t2.edits[|t2.edits| - 1].oldValue == Some(PauseText(ps))
  {
    var t1 := PauseStartEdited(t, ps.sessionId, ps, newStart, now1);
    PauseStartEditEffect(t, ps, newStart, now1);
    var t2 := PauseEndEdited(t1, ps.sessionId, ps, newEnd, now2);
    PauseEndEditEffect(t1, ps, newEnd, now2);
    var k :| 0 <= k < |t.pauses| && t.pauses[k] == ps;
    assert t2.pauses[k] == ps.(endTs := Some(newEnd));
    forall p | p in t2.pauses && p.id == ps.id
      ensures p.startTs == ps.startTs
    {
      var i :| 0 <= i < |t2.pauses| && t2.pauses[i] == p;
      assert t1.pauses[i].id == ps.id;
    }
  }

  /** Deleting removes exactly the rows with that pause's id and logs "pause_delete" with a null new value. */
  lemma PauseDeleteEffect(t: Tables, ps: PauseSegment, now: int)
    requires HasSession(t, ps.sessionId)
    ensures var r := PauseDeletedLogged(t, ps.sessionId, ps, now);
      && (forall x :: x in r.pauses <==> x in t.pauses && x.id != ps.id)
      && r.sessions == t.sessions
      && r.edits == t.edits + [SessionEdit(t.lastEdit + 1, ps.sessionId, "pause_delete", Some(PauseText(ps)), None, None, now)]
  {
  }

  /**
   * Adding inserts one closed pause of thirty minutes from noon of the
   * session's first day, with the next pause id, and logs "pause_add" with
   * a null old value.
   */
  lemma PauseAddEffect(t: Tables, sid: int, startTs: int, now: int)
    requires HasSession(t, sid)
    ensures var r := PauseAdded(t, sid, startTs, now); var p := r.pauses[|r.pauses| - 1];
      && r.pauses == t.pauses + [p]
      && p.id == t.lastPause + 1 && p.sessionId == sid
      && p.startTs == Midnight(startTs) + 43_200_000 && p.endTs == Some(p.startTs + 1_800_000)
      && Midnight(p.startTs) == Midnight(startTs)
      && r.edits[|r.edits| - 1].field == "pause_add" && r.edits[|r.edits| - 1].oldValue.None?
  {
    MidnightWithin(startTs, Midnight(startTs) + 43_200_000);
  }

  // ---------------------------------------------------------------------
  // The screen object

  class SessionEditor {
    const db: AppDb
    const sessionId: int
    /** `s.value`: the snapshot of the session. */
    var session: WorkSession
    /** `pauses`: the in-memory list of the session's pauses. */
    var pauses: seq<PauseSegment>

    ghost predicate Valid()
      reads this, db
    {
      && db.Valid()
      && HasSession(db.State(), sessionId)
      && session.id == sessionId
      && forall p :: p in pauses ==> p.sessionId == sessionId
    }

    /** Opening the editor: the session by id and its pauses by start time (a missing session closes the screen instead). */
    constructor (db: AppDb, sessionId: int)
      requires db.Valid() && GetById(db.State(), sessionId).Some?
      ensures Valid() && this.db == db && this.sessionId == sessionId
      ensures session == GetById(db.State(), sessionId).value
      ensures pauses == AllForSession(db.State(), sessionId)
    {
      this.db := db;
      this.sessionId := sessionId;
      session := GetById(db.State(), sessionId).value;
      AllForSessionOwned(db.State(), sessionId);
      pauses := AllForSession(db.State(), sessionId);
    }

    /** The start button, with the time picker's `hh:mm`. */
    method EditStart(hh: int, mm: int, now: int)
      requires Valid()
      modifies this, db
      ensures Valid()
      ensures db.State() == StartEdited(old(db.State()), old(session), PickTime(old(session).startTs, hh, mm), now)
      ensures PickTime(old(session).startTs, hh, mm) != old(session).startTs ==>
        session == GetById(db.State(), sessionId).value
      ensures PickTime(old(session).startTs, hh, mm) == old(session).startTs ==> session == old(session)
      ensures pauses == old(pauses)
    {
      var v := PickTime(session.startTs, hh, mm);
      if v != session.startTs {
        db.UpdateSession(session.(startTs := v));
        SessionUpdatedKeepsIds(old(db.State()), old(session).(startTs := v));
        var _ := db.InsertEdit(Audit(sessionId, "startTs", Some(LongToString(session.startTs)), Some(LongToString(v)), now));
        session := GetById(db.State(), sessionId).value;
      }
    }

    /** The end button; the picker starts from the end, or from now for a running session. */
    method EditEnd(hh: int, mm: int, now: int)
      requires Valid()
      modifies this, db
      ensures Valid()
      ensures db.State() == EndEdited(old(db.State()), old(session), PickTime(old(session).endTs.GetOr(now), hh, mm), now)
      ensures old(session).endTs != Some(PickTime(old(session).endTs.GetOr(now), hh, mm)) ==>
        session == GetById(db.State(), sessionId).value
      ensures old(session).endTs == Some(PickTime(old(session).endTs.GetOr(now), hh, mm)) ==> session == old(session)
      ensures pauses == old(pauses)
    {
      var v := PickTime(session.endTs.GetOr(now), hh, mm);
      if session.endTs != Some(v) {
        db.UpdateSession(session.(endTs := Some(v)));
        SessionUpdatedKeepsIds(old(db.State()), old(session).(endTs := Some(v)));
        var oldValue := match session.endTs case None => None case Some(e) => Some(LongToString(e));
        var _ := db.InsertEdit(Audit(sessionId, "endTs", oldValue, Some(LongToString(v)), now));
        session := GetById(db.State(), sessionId).value;
      }
    }

    /** A listed pause's start button; the list keeps the snapshot. */
    method EditPauseStart(ps: PauseSegment, hh: int, mm: int, now: int)
      requires Valid() && ps in pauses
      modifies db
      ensures Valid()
      ensures db.State() == PauseStartEdited(old(db.State()), sessionId, ps, PickTime(ps.startTs, hh, mm), now)
    {
      var v := PickTime(ps.startTs, hh, mm);
      if v != ps.startTs {
        db.UpdatePause(ps.(startTs := v));
        var _ := db.InsertEdit(Audit(sessionId, "pause_edit", Some(PauseText(ps)),
                                     Some(LongToString(v) + "-" + NullableText(ps.endTs)), now));
      }
    }

    /** A listed pause's end button; the list keeps the snapshot. */
    method EditPauseEnd(ps: PauseSegment, hh: int, mm: int, now: int)
      requires Valid() && ps in pauses
      modifies db
      ensures Valid()
      ensures db.State() == PauseEndEdited(old(db.State()), sessionId, ps, PickTime(ps.endTs.GetOr(now), hh, mm), now)
    {
      var v := PickTime(ps.endTs.GetOr(now), hh, mm);
      if ps.endTs != Some(v) {
        db.UpdatePause(ps.(endTs := Some(v)));
        var _ := db.InsertEdit(Audit(sessionId, "pause_edit", Some(PauseText(ps)),
                                     Some(LongToString(ps.startTs) + "-" + LongToString(v)), now));
      }
    }

    /** A listed pause's delete button: the row goes, and the pause leaves the list. */
    method DeletePause(ps: PauseSegment, now: int)
      requires Valid() && ps in pauses
      modifies this, db
      ensures Valid()
      ensures db.State() == PauseDeletedLogged(old(db.State()), sessionId, ps, now)
      ensures pauses == RemoveFirst(old(pauses), ps) && session == old(session)
    {
      ghost var t0 := db.State();
      db.DeletePause(ps);
      assert db.State().sessions == t0.sessions;
      var _ := db.InsertEdit(Audit(sessionId, "pause_delete", Some(PauseText(ps)), None, now));
      pauses := RemoveFirst(pauses, ps);
    }

    /** "+ Pause hinzufügen": the inserted pause joins the list under its new id. */
    method AddPause(now: int)
      requires Valid()
      modifies this, db
      ensures Valid()
      ensures db.State() == PauseAdded(old(db.State()), sessionId, old(session).startTs, now)
      ensures pauses == old(pauses) + [NoonPause(sessionId, old(session).startTs).(id := old(db.State()).lastPause + 1)]
      ensures session == old(session)
    {
      var dayStart := DayStart(session.startTs);
      var base := dayStart + 12 * 60 * 60_000;
      var np := PauseSegment(0, sessionId, base, Some(base + 30 * 60_000));
      assert np == NoonPause(sessionId, session.startTs);
      var id := db.InsertPause(np);
      var _ := db.InsertEdit(Audit(sessionId, "pause_add", None, Some(PauseText(np)), now));
      pauses := pauses + [np.(id := id)];
    }
  }
}
