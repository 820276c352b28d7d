/**
 * AppDb.kt: the four Room entities, the DAO statements the app issues, and
 * the queries over them. The tables are sequences in row-id order; every
 * table has an AUTOINCREMENT key, so a new row gets one more than the
 * largest id the table has ever handed out, and ids are never reused.
 * Pause segments and session edits reference their work session with
 * `ON DELETE CASCADE`.
 */
module Store {
  import opened Wrappers
  import opened Seqs

  datatype Project = Project(id: int, name: string, number: Option<string>, isArchived: bool, createdAt: int)

  datatype WorkSession = WorkSession(
    id: int, projectId: int, startTs: int, endTs: Option<int>, startedManuallyAt: bool, note: Option<string>)

  datatype PauseSegment = PauseSegment(id: int, sessionId: int, startTs: int, endTs: Option<int>)

  datatype SessionEdit = SessionEdit(
    id: int, sessionId: int, field: string, oldValue: Option<string>, newValue: Option<string>,
    reason: Option<string>, editedAt: int)

  /** The database contents: four tables and the largest id each has handed out. */
  datatype Tables = Tables(
    projects: seq<Project>, sessions: seq<WorkSession>, pauses: seq<PauseSegment>, edits: seq<SessionEdit>,
    lastProject: int, lastSession: int, lastPause: int, lastEdit: int)

  const Empty := Tables([], [], [], [], 0, 0, 0, 0)

  function ProjectId(p: Project): int { p.id }
  function SessionId(s: WorkSession): int { s.id }
  function PauseId(p: PauseSegment): int { p.id }
  function EditId(e: SessionEdit): int { e.id }

  predicate HasSession(t: Tables, sid: int) {
    exists s :: s in t.sessions && s.id == sid
  }

  /** Keys increasing in row order, each between 1 and the last key handed out. */
  predicate KeysIn<T>(s: seq<T>, key: T -> int, last: int) {
    0 <= last && IncreasingBy(s, key) && forall i :: 0 <= i < |s| ==> 1 <= key(s[i]) <= last
  }

  predicate PausesReferToSessions(t: Tables) {
    forall i :: 0 <= i < |t.pauses| ==> HasSession(t, t.pauses[i].sessionId)
  }

  predicate EditsReferToSessions(t: Tables) {
    forall i :: 0 <= i < |t.edits| ==> HasSession(t, t.edits[i].sessionId)
  }

  /**
   * What the schema guarantees: each table's ids are increasing in row
   * order and no larger than the last id handed out, and every pause and
   * every edit references an existing session.
   */
  predicate WellFormed(t: Tables) {
    && KeysIn(t.projects, ProjectId, t.lastProject)
    && KeysIn(t.sessions, SessionId, t.lastSession)
    && KeysIn(t.pauses, PauseId, t.lastPause)
    && KeysIn(t.edits, EditId, t.lastEdit)
    && PausesReferToSessions(t)
    && EditsReferToSessions(t)
  }

  // ---------------------------------------------------------------------
  // Row-level statements

  /** Appending a row with the next key keeps the keys in range and increasing. */
  lemma AppendKeys<T>(s: seq<T>, x: T, key: T -> int, last: int)
    requires KeysIn(s, key, last) && key(x) == last + 1
    ensures KeysIn(s + [x], key, last + 1)
  {
    forall i, j | 0 <= i < j < |s| + 1
      ensures key((s + [x])[i]) < key((s + [x])[j])
    {
      assert (s + [x])[i] == s[i];
      if j < |s| {
        assert (s + [x])[j] == s[j];
      }
    }
    forall i | 0 <= i < |s| + 1
      ensures 1 <= key((s + [x])[i]) <= last + 1
    {
      if i < |s| {
        assert (s + [x])[i] == s[i];
      }
    }
  }

  /** Rewriting rows without touching their keys keeps the keys as they were. */
  lemma SameKeys<T>(s: seq<T>, r: seq<T>, key: T -> int, last: int)
    requires KeysIn(s, key, last) && |r| == |s| && forall i :: 0 <= i < |s| ==> key(r[i]) == key(s[i])
    ensures KeysIn(r, key, last)
  {
  }

  /** Deleting rows keeps the keys in range and increasing. */
  lemma FilterKeys<T(!new)>(s: seq<T>, f: T -> bool, key: T -> int, last: int)
    requires KeysIn(s, key, last)
    ensures KeysIn(Filter(s, f), key, last)
  {
    FilterIncreasing(s, f, key);
    var r := Filter(s, f);
    forall i | 0 <= i < |r|
      ensures 1 <= key(r[i]) <= last
    {
      assert r[i] in s;
    }
  }

  /** Session ids are all that the foreign keys look at. */
  lemma SameSessionIds(t: Tables, r: Tables)
    requires |r.sessions| == |t.sessions| && forall i :: 0 <= i < |t.sessions| ==> r.sessions[i].id == t.sessions[i].id
    ensures forall sid :: HasSession(t, sid) <==> HasSession(r, sid)
  {
    forall sid | HasSession(t, sid)
      ensures HasSession(r, sid)
    {
      var x :| x in t.sessions && x.id == sid;
      var i :| 0 <= i < |t.sessions| && t.sessions[i] == x;
      assert r.sessions[i] in r.sessions;
    }
    forall sid | HasSession(r, sid)
      ensures HasSession(t, sid)
    {
      var x :| x in r.sessions && x.id == sid;
      var i :| 0 <= i < |r.sessions| && r.sessions[i] == x;
      assert t.sessions[i] in t.sessions;
    }
  }

  /** `@Insert` of a project: the row gets the next id. */
  function ProjectInserted(t: Tables, p: Project): (r: Tables)
    ensures r.lastProject == t.lastProject + 1
    ensures |r.projects| == |t.projects| + 1 && r.projects[..|t.projects|] == t.projects
    ensures r.projects[|t.projects|] == p.(id := r.lastProject)
    ensures r.(projects := t.projects, lastProject := t.lastProject) == t
  {
    t.(projects := t.projects + [p.(id := t.lastProject + 1)], lastProject := t.lastProject + 1)
  }

  /** The new project's id exceeds every id in the table, so the schema still holds. */
  lemma ProjectInsertedWellFormed(t: Tables, p: Project)
    requires WellFormed(t)
    ensures WellFormed(ProjectInserted(t, p))
  {
    AppendKeys(t.projects, p.(id := t.lastProject + 1), ProjectId, t.lastProject);
  }

  /** `@Update` of a project: the row with that id (if any) is replaced. */
  function ProjectUpdated(t: Tables, p: Project): (r: Tables)
    ensures |r.projects| == |t.projects|
    ensures forall i :: 0 <= i < |t.projects| ==> r.projects[i] == (if t.projects[i].id == p.id then p else t.projects[i])
    ensures r.(projects := t.projects) == t
  {
    t.(projects := seq(|t.projects|, i requires 0 <= i < |t.projects| =>
      if t.projects[i].id == p.id then p else t.projects[i]))
  }

  lemma ProjectUpdatedWellFormed(t: Tables, p: Project)
    requires WellFormed(t)
    ensures WellFormed(ProjectUpdated(t, p))
  {
    SameKeys(t.projects, ProjectUpdated(t, p).projects, ProjectId, t.lastProject);
  }

  /** `UPDATE projects SET isArchived = flag WHERE id = :id`: only that flag of that row changes. */
  function ArchivedSet(t: Tables, id: int, flag: bool): (r: Tables)
    ensures |r.projects| == |t.projects|
    ensures forall i :: 0 <= i < |t.projects| ==>
      && r.projects[i].(isArchived := t.projects[i].isArchived) == t.projects[i]
      && r.projects[i].isArchived == (if t.projects[i].id == id then flag else t.projects[i].isArchived)
    ensures r.(projects := t.projects) == t
  {
    t.(projects := seq(|t.projects|, i requires 0 <= i < |t.projects| =>
      if t.projects[i].id == id then t.projects[i].(isArchived := flag) else t.projects[i]))
  }

  lemma ArchivedSetWellFormed(t: Tables, id: int, flag: bool)
    requires WellFormed(t)
    ensures WellFormed(ArchivedSet(t, id, flag))
  {
    SameKeys(t.projects, ArchivedSet(t, id, flag).projects, ProjectId, t.lastProject);
  }

  /** `@Insert` of a work session: the row gets the next id. */
  function SessionInserted(t: Tables, s: WorkSession): (r: Tables)
    ensures r.lastSession == t.lastSession + 1
    ensures |r.sessions| == |t.sessions| + 1 && r.sessions[..|t.sessions|] == t.sessions
    ensures r.sessions[|t.sessions|] == s.(id := r.lastSession)
    ensures r.(sessions := t.sessions, lastSession := t.lastSession) == t
  {
    t.(sessions := t.sessions + [s.(id := t.lastSession + 1)], lastSession := t.lastSession + 1)
  }

  lemma SessionInsertedWellFormed(t: Tables, s: WorkSession)
    requires WellFormed(t)
    ensures WellFormed(SessionInserted(t, s))
  {
    var r := SessionInserted(t, s);
    AppendKeys(t.sessions, s.(id := t.lastSession + 1), SessionId, t.lastSession);
    forall sid | HasSession(t, sid)
      ensures HasSession(r, sid)
    {
      var x :| x in t.sessions && x.id == sid;
      assert x in r.sessions;
    }
  }

  /** `@Update` of a work session: the row with that id (if any) is replaced. */
  function SessionUpdated(t: Tables, s: WorkSession): (r: Tables)
    ensures |r.sessions| == |t.sessions|
    ensures forall i :: 0 <= i < |t.sessions| ==> r.sessions[i] == (if t.sessions[i].id == s.id then s else t.sessions[i])
    ensures r.(sessions := t.sessions) == t
  {
    t.(sessions := seq(|t.sessions|, i requires 0 <= i < |t.sessions| =>
      if t.sessions[i].id == s.id then s else t.sessions[i]))
  }

  lemma SessionUpdatedWellFormed(t: Tables, s: WorkSession)
    requires WellFormed(t)
    ensures WellFormed(SessionUpdated(t, s))
  {
    var r := SessionUpdated(t, s);
    SameKeys(t.sessions, r.sessions, SessionId, t.lastSession);
    SameSessionIds(t, r);
  }

  /** `@Insert` of a pause segment; the foreign key demands that its session exists. */
  function PauseInserted(t: Tables, p: PauseSegment): (r: Tables)
    requires HasSession(t, p.sessionId)
    ensures r.lastPause == t.lastPause + 1
    ensures |r.pauses| == |t.pauses| + 1 && r.pauses[..|t.pauses|] == t.pauses
    ensures r.pauses[|t.pauses|] == p.(id := r.lastPause)
    ensures r.(pauses := t.pauses, lastPause := t.lastPause) == t
  {
    t.(pauses := t.pauses + [p.(id := t.lastPause + 1)], lastPause := t.lastPause + 1)
  }

  lemma PauseInsertedWellFormed(t: Tables, p: PauseSegment)
    requires WellFormed(t) && HasSession(t, p.sessionId)
    ensures WellFormed(PauseInserted(t, p))
  {
    AppendKeys(t.pauses, p.(id := t.lastPause + 1), PauseId, t.lastPause);
  }

  /** `@Update` of a pause segment: the row with that id (if any) is replaced. */
  function PauseUpdated(t: Tables, p: PauseSegment): (r: Tables)
    ensures |r.pauses| == |t.pauses|
    ensures forall i :: 0 <= i < |t.pauses| ==> r.pauses[i] == (if t.pauses[i].id == p.id then p else t.pauses[i])
    ensures r.(pauses := t.pauses) == t
  {
    t.(pauses := seq(|t.pauses|, i requires 0 <= i < |t.pauses| =>
      if t.pauses[i].id == p.id then p else t.pauses[i]))
  }

  /** Some pause row carries the id `id`. */
  predicate HasPause(t: Tables, id: int) {
    exists x :: x in t.pauses && x.id == id
  }

  /**
   * The foreign key is checked only on a row the update rewrites: with no
   * row of that id the update is a no-op, whatever session it names.
   */
  lemma PauseUpdatedWellFormed(t: Tables, p: PauseSegment)
    requires WellFormed(t) && (HasPause(t, p.id) ==> HasSession(t, p.sessionId))
    ensures WellFormed(PauseUpdated(t, p))
    ensures !HasPause(t, p.id) ==> PauseUpdated(t, p) == t
  {
    var u := PauseUpdated(t, p);
    SameKeys(t.pauses, u.pauses, PauseId, t.lastPause);
    forall i | 0 <= i < |u.pauses|
      ensures HasSession(u, u.pauses[i].sessionId)
    {
      assert t.pauses[i] in t.pauses;
    }
    if !HasPause(t, p.id) {
      forall i | 0 <= i < |t.pauses|
        ensures u.pauses[i] == t.pauses[i]
      {
        assert t.pauses[i] in t.pauses;
      }
    }
  }

  /** `@Delete` of a pause segment: exactly the row with its id goes. */
  function PauseDeleted(t: Tables, p: PauseSegment): (r: Tables)
    ensures forall x :: x in r.pauses <==> x in t.pauses && x.id != p.id
    ensures r.(pauses := t.pauses) == t
  {
    t.(pauses := Filter(t.pauses, (x: PauseSegment) => x.id != p.id))
  }

  lemma PauseDeletedWellFormed(t: Tables, p: PauseSegment)
    requires WellFormed(t)
    ensures WellFormed(PauseDeleted(t, p))
  {
    var r := PauseDeleted(t, p);
    FilterKeys(t.pauses, (x: PauseSegment) => x.id != p.id, PauseId, t.lastPause);
    forall i | 0 <= i < |r.pauses|
      ensures HasSession(r, r.pauses[i].sessionId)
    {
      assert r.pauses[i] in t.pauses;
    }
  }

  /** `@Insert` of a session edit; the foreign key demands that its session exists. */
  function EditInserted(t: Tables, e: SessionEdit): (r: Tables)
    requires HasSession(t, e.sessionId)
    ensures r.lastEdit == t.lastEdit + 1
    ensures |r.edits| == |t.edits| + 1 && r.edits[..|t.edits|] == t.edits
    ensures r.edits[|t.edits|] == e.(id := r.lastEdit)
    ensures r.(edits := t.edits, lastEdit := t.lastEdit) == t
  {
    t.(edits := t.edits + [e.(id := t.lastEdit + 1)], lastEdit := t.lastEdit + 1)
  }

  lemma EditInsertedWellFormed(t: Tables, e: SessionEdit)
    requires WellFormed(t) && HasSession(t, e.sessionId)
    ensures WellFormed(EditInserted(t, e))
  {
    AppendKeys(t.edits, e.(id := t.lastEdit + 1), EditId, t.lastEdit);
  }

  /**
   * Deleting a work session, with `ON DELETE CASCADE`: its pause segments
   * and its session edits are deleted with it, and nothing else changes.
   */
  function SessionDeleted(t: Tables, sid: int): (r: Tables)
    ensures forall s :: s in r.sessions <==> s in t.sessions && s.id != sid
    ensures forall p :: p in r.pauses <==> p in t.pauses && p.sessionId != sid
    ensures forall e :: e in r.edits <==> e in t.edits && e.sessionId != sid
    ensures r.projects == t.projects
  {
    t.(sessions := Filter(t.sessions, (s: WorkSession) => s.id != sid),
       pauses := Filter(t.pauses, (p: PauseSegment) => p.sessionId != sid),
       edits := Filter(t.edits, (e: SessionEdit) => e.sessionId != sid))
  }

  /** The cascade leaves no pause or edit pointing at the deleted session. */
  lemma SessionDeletedWellFormed(t: Tables, sid: int)
    requires WellFormed(t)
    ensures WellFormed(SessionDeleted(t, sid))
  {
    var r := SessionDeleted(t, sid);
    FilterKeys(t.sessions, (s: WorkSession) => s.id != sid, SessionId, t.lastSession);
    FilterKeys(t.pauses, (p: PauseSegment) => p.sessionId != sid, PauseId, t.lastPause);
    FilterKeys(t.edits, (e: SessionEdit) => e.sessionId != sid, EditId, t.lastEdit);
    forall x | x != sid && HasSession(t, x)
      ensures HasSession(r, x)
    {
      var s :| s in t.sessions && s.id == x;
      assert s in r.sessions;
    }
    forall i | 0 <= i < |r.pauses|
      ensures HasSession(r, r.pauses[i].sessionId)
    {
      assert r.pauses[i] in t.pauses;
    }
    forall i | 0 <= i < |r.edits|
      ensures HasSession(r, r.edits[i].sessionId)
    {
      assert r.edits[i] in t.edits;
    }
  }

  /** Pause ids are unique, so every row with a pause's id is that pause. */
  lemma SamePauseIdSameRow(t: Tables, p: PauseSegment)
    requires WellFormed(t) && p in t.pauses
    ensures forall i :: 0 <= i < |t.pauses| && t.pauses[i].id == p.id ==> t.pauses[i] == p
  {
    forall i | 0 <= i < |t.pauses| && t.pauses[i].id == p.id
      ensures t.pauses[i] == p
    {
      var k :| 0 <= k < |t.pauses| && t.pauses[k] == p;
      assert PauseId(t.pauses[i]) == PauseId(t.pauses[k]);
    }
  }

  /** Session ids are unique, so every row with a session's id is that session. */
  lemma SameSessionIdSameRow(t: Tables, s: WorkSession)
    requires WellFormed(t) && s in t.sessions
    ensures forall i :: 0 <= i < |t.sessions| && t.sessions[i].id == s.id ==> t.sessions[i] == s
  {
    forall i | 0 <= i < |t.sessions| && t.sessions[i].id == s.id
      ensures t.sessions[i] == s
    {
      var k :| 0 <= k < |t.sessions| && t.sessions[k] == s;
      assert SessionId(t.sessions[i]) == SessionId(t.sessions[k]);
    }
  }

  // ---------------------------------------------------------------------
  // Lookups

  /** The first session of `ss` with no end. */
  function FirstRunning(ss: seq<WorkSession>): (r: Option<WorkSession>)
    ensures r.Some? ==> r.value in ss && r.value.endTs.None?
    ensures r.None? <==> forall s :: s in ss ==> s.endTs.Some?
  {
    if ss == [] then None
    else if ss[0].endTs.None? then Some(ss[0])
    else FirstRunning(ss[1..])
  }

  /**
   * `getRunning()`: `SELECT * FROM work_sessions WHERE endTs IS NULL LIMIT 1`
   * gives a session without end, and null only when every session has ended.
   */
  function GetRunning(t: Tables): (r: Option<WorkSession>)
    ensures r.Some? ==> r.value in t.sessions && r.value.endTs.None?
    ensures r.None? <==> forall s :: s in t.sessions ==> s.endTs.Some?
  {
    FirstRunning(t.sessions)
  }

  function FindSession(ss: seq<WorkSession>, id: int): (r: Option<WorkSession>)
    ensures r.Some? ==> r.value in ss && r.value.id == id
    ensures r.None? <==> forall s :: s in ss ==> s.id != id
  {
    if ss == [] then None
    else if ss[0].id == id then Some(ss[0])
    else FindSession(ss[1..], id)
  }

  /** `getById(id)` on work sessions. */
  function GetById(t: Tables, id: int): (r: Option<WorkSession>)
    ensures r.Some? ==> r.value in t.sessions && r.value.id == id
    ensures r.None? <==> !HasSession(t, id)
  {
    FindSession(t.sessions, id)
  }

  /** With increasing ids, a session is found by its own id. */
  lemma {:induction false} FindOwnId(ss: seq<WorkSession>, s: WorkSession)
    requires IncreasingBy(ss, SessionId) && s in ss
    ensures FindSession(ss, s.id) == Some(s)
  {
    if ss[0] != s {
      assert s in ss[1..];
      var j :| 0 <= j < |ss[1..]| && ss[1..][j] == s;
      assert SessionId(ss[0]) < SessionId(ss[j + 1]);
      assert IncreasingBy(ss[1..], SessionId) by {
        forall i, k | 0 <= i < k < |ss| - 1
          ensures SessionId(ss[1..][i]) < SessionId(ss[1..][k])
        {
          assert SessionId(ss[i + 1]) < SessionId(ss[k + 1]);
        }
      }
      FindOwnId(ss[1..], s);
    }
  }

  function FindProject(ps: seq<Project>, id: int): (r: Option<Project>)
    ensures r.Some? ==> r.value in ps && r.value.id == id
    ensures r.None? <==> forall p :: p in ps ==> p.id != id
  {
    if ps == [] then None
    else if ps[0].id == id then Some(ps[0])
    else FindProject(ps[1..], id)
  }

  /** `getByIdSync(id)` on projects. */
  function GetProject(t: Tables, id: int): (r: Option<Project>)
    ensures r.Some? ==> r.value in t.projects && r.value.id == id
    ensures r.None? <==> forall p :: p in t.projects ==> p.id != id
  {
    FindProject(t.projects, id)
  }

  function FirstOpenPause(ps: seq<PauseSegment>, sid: int): (r: Option<PauseSegment>)
    ensures r.Some? ==> r.value in ps && r.value.sessionId == sid && r.value.endTs.None?
    ensures r.None? <==> forall p :: p in ps && p.sessionId == sid ==> p.endTs.Some?
  {
    if ps == [] then None
    else if ps[0].sessionId == sid && ps[0].endTs.None? then Some(ps[0])
    else FirstOpenPause(ps[1..], sid)
  }

  /**
   * `getOpenPause(sid)`: a pause of session `sid` without end, and null only
   * when every pause of that session has ended.
   */
  function GetOpenPause(t: Tables, sid: int): (r: Option<PauseSegment>)
    ensures r.Some? ==> r.value in t.pauses && r.value.sessionId == sid && r.value.endTs.None?
    ensures r.None? <==> forall p :: p in t.pauses && p.sessionId == sid ==> p.endTs.Some?
  {
    FirstOpenPause(t.pauses, sid)
  }

  // ---------------------------------------------------------------------
  // Effective durations

  /** `SUM(COALESCE(ps.endTs, :now) - ps.startTs)` over the pauses of `sid`, 0 when there are none. */
  function PausedTime(ps: seq<PauseSegment>, sid: int, now: int): int {
    if ps == [] then 0
    else
      var here := if ps[0].sessionId == sid then ps[0].endTs.GetOr(now) - ps[0].startTs else 0;
      here + PausedTime(ps[1..], sid, now)
  }

  /** Number of pauses of `sid` without end. */
  function OpenPauses(ps: seq<PauseSegment>, sid: int): nat {
    if ps == [] then 0
    else (if ps[0].sessionId == sid && ps[0].endTs.None? then 1 else 0) + OpenPauses(ps[1..], sid)
  }

  lemma {:induction false} OpenPausesNone(ps: seq<PauseSegment>, sid: int)
    ensures OpenPauses(ps, sid) == 0 <==> forall p :: p in ps && p.sessionId == sid ==> p.endTs.Some?
  {
    if ps != [] {
      OpenPausesNone(ps[1..], sid);
      assert forall p :: p in ps <==> p == ps[0] || p in ps[1..];
    }
  }

  /** `(COALESCE(ws.endTs, :now) - ws.startTs) - (paused time)`: gross time less all pauses, not clamped. */
  function Effective(s: WorkSession, ps: seq<PauseSegment>, now: int): (r: int)
    ensures (forall p :: p in ps ==> p.sessionId != s.id) ==> r == s.endTs.GetOr(now) - s.startTs
  {
    PausedTimeOthers(ps, s.id, now);
    (s.endTs.GetOr(now) - s.startTs) - PausedTime(ps, s.id, now)
  }

  /** Pauses of other sessions take nothing away. */
  lemma {:induction false} PausedTimeOthers(ps: seq<PauseSegment>, sid: int, now: int)
    ensures (forall p :: p in ps ==> p.sessionId != sid) ==> PausedTime(ps, sid, now) == 0
  {
    if ps != [] && forall p :: p in ps ==> p.sessionId != sid {
      assert ps[0] in ps;
      assert forall p :: p in ps[1..] ==> p in ps;
      PausedTimeOthers(ps[1..], sid, now);
    }
  }

  /** Advancing `now` by `d` adds `d` once for every pause of `sid` still open. */
  lemma {:induction false} PausedTimeShift(ps: seq<PauseSegment>, sid: int, now: int, d: int)
    ensures PausedTime(ps, sid, now + d) == PausedTime(ps, sid, now) + OpenPauses(ps, sid) * d
  {
    if ps != [] {
      PausedTimeShift(ps[1..], sid, now, d);
      var k := OpenPauses(ps[1..], sid);
      assert (k + 1) * d == k * d + d;
    }
  }

  /**
   * Advancing `now` by `d` adds `d` to the effective duration of a running
   * session and takes `d` away for every open pause of it.
   */
  lemma EffectiveShift(s: WorkSession, ps: seq<PauseSegment>, now: int, d: int)
    ensures Effective(s, ps, now + d)
      == Effective(s, ps, now) + (if s.endTs.None? then d else 0) - OpenPauses(ps, s.id) * d
  {
    PausedTimeShift(ps, s.id, now, d);
  }

  /**
   * How the effective duration moves as time passes (`d > 0`): constant
   * for an ended session with every pause closed, one-for-one for a running
   * session with no open pause, constant for a running session with exactly
   * one open pause, and falling for an ended session that has an open pause.
   */
  lemma EffectiveOverTime(s: WorkSession, ps: seq<PauseSegment>, now: int, d: int)
    requires d > 0
    ensures s.endTs.Some? && OpenPauses(ps, s.id) == 0 ==> Effective(s, ps, now + d) == Effective(s, ps, now)
    ensures s.endTs.None? && OpenPauses(ps, s.id) == 0 ==> Effective(s, ps, now + d) == Effective(s, ps, now) + d
    ensures s.endTs.None? && OpenPauses(ps, s.id) == 1 ==> Effective(s, ps, now + d) == Effective(s, ps, now)
    ensures s.endTs.Some? && OpenPauses(ps, s.id) >= 1 ==> Effective(s, ps, now + d) < Effective(s, ps, now)
  {
    EffectiveShift(s, ps, now, d);
    var k := OpenPauses(ps, s.id);
    if k >= 1 {
      assert k * d >= d by {
        assert k * d == (k - 1) * d + d;
        assert (k - 1) * d >= 0;
      }
    }
  }

  /** Nothing clamps the result: pauses longer than the session make it negative. */
  lemma EffectiveNotClamped()
    ensures Effective(WorkSession(1, 1, 0, Some(600_000), false, None),
                      [PauseSegment(1, 1, 0, Some(900_000))], 1_000_000) == -300_000
  {
    var ps := [PauseSegment(1, 1, 0, Some(900_000))];
    assert PausedTime(ps[1..], 1, 1_000_000) == 0;
  }

  /**
   * `effectiveForSession(sid, now)`: the effective duration of the session
   * with id `sid`, and null exactly when there is no such session.
   */
  function EffectiveForSession(t: Tables, sid: int, now: int): (r: Option<int>)
    ensures r.None? <==> !HasSession(t, sid)
    ensures r.Some? ==> exists s :: s in t.sessions && s.id == sid && r.value == Effective(s, t.pauses, now)
  {
    match GetById(t, sid)
    case None => None
    case Some(s) => Some(Effective(s, t.pauses, now))
  }

  /** The `WHERE` of `effectiveSumBetween`: started at or after `start`, ended (or now) strictly before `end`. */
  predicate InWindow(s: WorkSession, start: int, end: int, now: int) {
    s.startTs >= start && s.endTs.GetOr(now) < end
  }

  function SumInWindow(ss: seq<WorkSession>, ps: seq<PauseSegment>, start: int, end: int, now: int): int {
    if ss == [] then 0
    else
      var here := if InWindow(ss[0], start, end, now) then Effective(ss[0], ps, now) else 0;
      here + SumInWindow(ss[1..], ps, start, end, now)
  }

  /** The effective durations of a list of sessions added up. */
  function SumEffective(ss: seq<WorkSession>, ps: seq<PauseSegment>, now: int): int {
    if ss == [] then 0 else Effective(ss[0], ps, now) + SumEffective(ss[1..], ps, now)
  }

  /**
   * `effectiveSumBetween(start, end, now)`: the effective durations of
   * exactly the sessions lying wholly inside the window, added up.
   */
  function EffectiveSumBetween(t: Tables, start: int, end: int, now: int): (r: int)
    ensures r == SumEffective(Filter(t.sessions, (s: WorkSession) => InWindow(s, start, end, now)), t.pauses, now)
  {
    SumInWindowFilter(t.sessions, t.pauses, start, end, now);
    SumInWindow(t.sessions, t.pauses, start, end, now)
  }

  lemma {:induction false} SumInWindowFilter(ss: seq<WorkSession>, ps: seq<PauseSegment>, start: int, end: int, now: int)
    ensures SumInWindow(ss, ps, start, end, now)
      == SumEffective(Filter(ss, (s: WorkSession) => InWindow(s, start, end, now)), ps, now)
  {
    var f := (s: WorkSession) => InWindow(s, start, end, now);
    if ss != [] {
      SumInWindowFilter(ss[1..], ps, start, end, now);
      FilterHead(ss, f);
      if f(ss[0]) {
        assert ([ss[0]] + Filter(ss[1..], f))[1..] == Filter(ss[1..], f);
      }
    }
  }

  /**
   * A session added to the table changes the window sum by its effective
   * duration if it lies wholly inside the window, and by nothing if it
   * crosses either bound.
   */
  lemma {:induction false} SumInWindowAppend(ss: seq<WorkSession>, s: WorkSession, ps: seq<PauseSegment>, start: int, end: int, now: int)
    ensures SumInWindow(ss + [s], ps, start, end, now)
      == SumInWindow(ss, ps, start, end, now) + (if InWindow(s, start, end, now) then Effective(s, ps, now) else 0)
  {
    if ss == [] {
      assert ss + [s] == [s];
    } else {
      assert (ss + [s])[0] == ss[0] && (ss + [s])[1..] == ss[1..] + [s];
      SumInWindowAppend(ss[1..], s, ps, start, end, now);
    }
  }

  /** With no session wholly inside the window the sum is 0. */
  lemma {:induction false} SumInWindowEmpty(ss: seq<WorkSession>, ps: seq<PauseSegment>, start: int, end: int, now: int)
    requires forall s :: s in ss ==> !InWindow(s, start, end, now)
    ensures SumInWindow(ss, ps, start, end, now) == 0
  {
    if ss != [] {
      assert ss[0] in ss;
      SumInWindowEmpty(ss[1..], ps, start, end, now);
    }
  }

  /** The sessions of project `pid`, in table order. */
  function SessionsOf(ss: seq<WorkSession>, pid: int): (r: seq<WorkSession>)
    ensures forall s :: s in r <==> s in ss && s.projectId == pid
  {
    if ss == [] then []
    else (if ss[0].projectId == pid then [ss[0]] else []) + SessionsOf(ss[1..], pid)
  }

  function SumForProject(ss: seq<WorkSession>, ps: seq<PauseSegment>, pid: int, now: int): int {
    if ss == [] then 0
    else
      var here := if ss[0].projectId == pid then Effective(ss[0], ps, now) else 0;
      here + SumForProject(ss[1..], ps, pid, now)
  }

  /** `effectiveSumForProject(projectId, now)`: the effective durations of the project's sessions added up. */
  function EffectiveSumForProject(t: Tables, pid: int, now: int): (r: int)
    ensures r == SumEffective(SessionsOf(t.sessions, pid), t.pauses, now)
  {
    SumForProjectOf(t.sessions, t.pauses, pid, now);
    SumForProject(t.sessions, t.pauses, pid, now)
  }

  lemma {:induction false} SumForProjectOf(ss: seq<WorkSession>, ps: seq<PauseSegment>, pid: int, now: int)
    ensures SumForProject(ss, ps, pid, now) == SumEffective(SessionsOf(ss, pid), ps, now)
  {
    if ss != [] {
      SumForProjectOf(ss[1..], ps, pid, now);
      if ss[0].projectId == pid {
        assert ([ss[0]] + SessionsOf(ss[1..], pid))[1..] == SessionsOf(ss[1..], pid);
      } else {
        assert SessionsOf(ss, pid) == SessionsOf(ss[1..], pid);
      }
    }
  }

  /** `effectiveForSession` summed over a list of sessions, a missing one counting 0. */
  function SumEffectiveForSession(t: Tables, ss: seq<WorkSession>, now: int): int {
    if ss == [] then 0 else EffectiveForSession(t, ss[0].id, now).GetOr(0) + SumEffectiveForSession(t, ss[1..], now)
  }

  lemma {:induction false} SumForProjectBySession(t: Tables, ss: seq<WorkSession>, pid: int, now: int)
    requires IncreasingBy(t.sessions, SessionId) && forall s :: s in ss ==> s in t.sessions
    ensures SumForProject(ss, t.pauses, pid, now) == SumEffectiveForSession(t, SessionsOf(ss, pid), now)
  {
    if ss != [] {
      assert ss[0] in ss;
      FindOwnId(t.sessions, ss[0]);
      SumForProjectBySession(t, ss[1..], pid, now);
      if ss[0].projectId == pid {
        assert SessionsOf(ss, pid) == [ss[0]] + SessionsOf(ss[1..], pid);
        assert ([ss[0]] + SessionsOf(ss[1..], pid))[1..] == SessionsOf(ss[1..], pid);
      } else {
        assert SessionsOf(ss, pid) == SessionsOf(ss[1..], pid);
      }
    }
  }

  /**
   * `effectiveSumForProject(pid, now)` equals the sum of
   * `effectiveForSession` over the sessions of `pid`, and 0 when it has none.
   */
  lemma SumForProjectIsSumOfSessions(t: Tables, pid: int, now: int)
    requires WellFormed(t)
    ensures EffectiveSumForProject(t, pid, now) == SumEffectiveForSession(t, SessionsOf(t.sessions, pid), now)
    ensures SessionsOf(t.sessions, pid) == [] ==> EffectiveSumForProject(t, pid, now) == 0
  {
    SumForProjectBySession(t, t.sessions, pid, now);
  }

  // ---------------------------------------------------------------------
  // Ordered listings

  function StartsNoLater(a: WorkSession, b: WorkSession): bool { a.startTs <= b.startTs }
  function PauseStartsNoLater(a: PauseSegment, b: PauseSegment): bool { a.startTs <= b.startTs }
  function EditedNoEarlier(a: SessionEdit, b: SessionEdit): bool { a.editedAt >= b.editedAt }
  function NameNoLater(a: Project, b: Project): bool { TextLe(a.name, b.name) }

  /** `ORDER BY isArchived ASC, name ASC` */
  function ArchivedThenName(a: Project, b: Project): bool {
    (!a.isArchived && b.isArchived) || (a.isArchived == b.isArchived && TextLe(a.name, b.name))
  }

  lemma OrdersArePreorders()
    ensures TotalPreorder(StartsNoLater) && TotalPreorder(PauseStartsNoLater) && TotalPreorder(EditedNoEarlier)
    ensures TotalPreorder(NameNoLater) && TotalPreorder(ArchivedThenName)
  {
    forall a: Project, b: Project
      ensures NameNoLater(a, b) || NameNoLater(b, a)
    {
      TextLeTotal(a.name, b.name);
    }
    forall a: Project, b: Project, c: Project | NameNoLater(a, b) && NameNoLater(b, c)
      ensures NameNoLater(a, c)
    {
      TextLeTrans(a.name, b.name, c.name);
    }
    forall a: Project, b: Project
      ensures ArchivedThenName(a, b) || ArchivedThenName(b, a)
    {
      TextLeTotal(a.name, b.name);
    }
    forall a: Project, b: Project, c: Project | ArchivedThenName(a, b) && ArchivedThenName(b, c)
      ensures ArchivedThenName(a, c)
    {
      if a.isArchived == b.isArchived == c.isArchived {
        TextLeTrans(a.name, b.name, c.name);
      }
    }
  }

  /** `sessionsForProject(projectId)`: the project's sessions by ascending start. */
  function SessionsForProject(t: Tables, pid: int): (r: seq<WorkSession>)
    ensures SortedBy(r, StartsNoLater)
    ensures multiset(r) == multiset(SessionsOf(t.sessions, pid))
  {
    OrdersArePreorders();
    InsertionSort(SessionsOf(t.sessions, pid), StartsNoLater)
  }

  /** The pauses of session `sid`, in table order. */
  function PausesOf(ps: seq<PauseSegment>, sid: int): (r: seq<PauseSegment>)
    ensures forall p :: p in r <==> p in ps && p.sessionId == sid
  {
    if ps == [] then []
    else (if ps[0].sessionId == sid then [ps[0]] else []) + PausesOf(ps[1..], sid)
  }

  /** `allForSession(sid)`: the session's pauses by ascending start. */
  function AllForSession(t: Tables, sid: int): (r: seq<PauseSegment>)
    ensures SortedBy(r, PauseStartsNoLater)
    ensures multiset(r) == multiset(PausesOf(t.pauses, sid))
  {
    OrdersArePreorders();
    InsertionSort(PausesOf(t.pauses, sid), PauseStartsNoLater)
  }

  /** Every pause `allForSession(sid)` returns belongs to session `sid`, and each of its pauses is returned. */
  lemma AllForSessionOwned(t: Tables, sid: int)
    ensures forall p :: p in AllForSession(t, sid) <==> p in t.pauses && p.sessionId == sid
  {
    forall p
      ensures p in AllForSession(t, sid) <==> p in t.pauses && p.sessionId == sid
    {
      assert p in AllForSession(t, sid) <==> p in multiset(AllForSession(t, sid));
      assert p in PausesOf(t.pauses, sid) <==> p in multiset(PausesOf(t.pauses, sid));
    }
  }

  function EditsOf(es: seq<SessionEdit>, sid: int): (r: seq<SessionEdit>)
    ensures forall e :: e in r <==> e in es && e.sessionId == sid
  {
    if es == [] then []
    else (if es[0].sessionId == sid then [es[0]] else []) + EditsOf(es[1..], sid)
  }

  /** `listForSession(sid)`: the session's edits, newest first. */
  function ListForSession(t: Tables, sid: int): (r: seq<SessionEdit>)
    ensures SortedBy(r, EditedNoEarlier)
    ensures multiset(r) == multiset(EditsOf(t.edits, sid))
  {
    OrdersArePreorders();
    InsertionSort(EditsOf(t.edits, sid), EditedNoEarlier)
  }

  function Active(ps: seq<Project>): (r: seq<Project>)
    ensures forall p :: p in r <==> p in ps && !p.isArchived
  {
    if ps == [] then []
    else (if !ps[0].isArchived then [ps[0]] else []) + Active(ps[1..])
  }

  /** `getActive()`: exactly the projects not archived, by name. */
  function GetActive(t: Tables): (r: seq<Project>)
    ensures SortedBy(r, NameNoLater)
    ensures multiset(r) == multiset(Active(t.projects))
    ensures forall p :: p in r <==> p in t.projects && !p.isArchived
  {
    OrdersArePreorders();
    var r := InsertionSort(Active(t.projects), NameNoLater);
    assert forall p :: p in r <==> p in multiset(Active(t.projects));
    r
  }

  /** `getAll()`: every project, those not archived first, each part by name. */
  function GetAll(t: Tables): (r: seq<Project>)
    ensures SortedBy(r, ArchivedThenName)
    ensures multiset(r) == multiset(t.projects)
    ensures forall i, j :: 0 <= i < j < |r| && r[i].isArchived ==> r[j].isArchived
    ensures forall i, j :: 0 <= i < j < |r| && r[i].isArchived == r[j].isArchived ==> TextLe(r[i].name, r[j].name)
  {
    OrdersArePreorders();
    var r := InsertionSort(t.projects, ArchivedThenName);
    assert forall i, j :: 0 <= i < j < |r| ==> ArchivedThenName(r[i], r[j]);
    r
  }

  // ---------------------------------------------------------------------
  // Archiving

  /**
   * `archive(id)` followed by `unarchive(id)` restores the table when the
   * project was active, and an archived project drops out of `getActive`.
   */
  lemma ArchiveRoundTrip(t: Tables, id: int)
    requires forall p :: p in t.projects && p.id == id ==> !p.isArchived
    ensures ArchivedSet(ArchivedSet(t, id, true), id, false) == t
    ensures forall p :: p in GetActive(ArchivedSet(t, id, true)) ==> p.id != id
  {
    var a := ArchivedSet(t, id, true);
    var b := ArchivedSet(a, id, false);
    assert b.projects == t.projects by {
      forall i | 0 <= i < |t.projects|
        ensures b.projects[i] == t.projects[i]
      {
        if t.projects[i].id == id {
          assert t.projects[i] in t.projects;
        }
      }
    }
    forall p | p in a.projects && !p.isArchived
      ensures p.id != id
    {
      var i :| 0 <= i < |a.projects| && a.projects[i] == p;
    }
  }

  // ---------------------------------------------------------------------
  // The database object

  /** The Room database: four tables updated in place by the DAO statements. */
  class AppDb {
    var projects: seq<Project>
    var sessions: seq<WorkSession>
    var pauses: seq<PauseSegment>
    var edits: seq<SessionEdit>
    var lastProject: int
    var lastSession: int
    var lastPause: int
    var lastEdit: int

    function State(): Tables
      reads this
    {
      Tables(projects, sessions, pauses, edits, lastProject, lastSession, lastPause, lastEdit)
    }

    ghost predicate Valid()
      reads this
    {
      WellFormed(State())
    }

    constructor ()
      ensures Valid() && State() == Empty
    {
      projects, sessions, pauses, edits := [], [], [], [];
      lastProject, lastSession, lastPause, lastEdit := 0, 0, 0, 0;
    }

    method InsertProject(p: Project) returns (id: int)
      requires Valid()
      modifies this
      ensures Valid() && id == old(lastProject) + 1
      ensures State() == ProjectInserted(old(State()), p)
    {
      ProjectInsertedWellFormed(State(), p);
      id := lastProject + 1;
      projects := projects + [p.(id := id)];
      lastProject := id;
    }

    method UpdateProject(p: Project)
      requires Valid()
      modifies this
      ensures Valid() && State() == ProjectUpdated(old(State()), p)
    {
      ProjectUpdatedWellFormed(State(), p);
      projects := ProjectUpdated(State(), p).projects;
    }

    /** `archive(id)` */
    method Archive(id: int)
      requires Valid()
      modifies this
      ensures Valid() && State() == ArchivedSet(old(State()), id, true)
    {
      ArchivedSetWellFormed(State(), id, true);
      projects := ArchivedSet(State(), id, true).projects;
    }

    /** `unarchive(id)` */
    method Unarchive(id: int)
      requires Valid()
      modifies this
      ensures Valid() && State() == ArchivedSet(old(State()), id, false)
    {
      ArchivedSetWellFormed(State(), id, false);
      projects := ArchivedSet(State(), id, false).projects;
    }

    method InsertSession(s: WorkSession) returns (id: int)
      requires Valid()
      modifies this
      ensures Valid() && id == old(lastSession) + 1
      ensures State() == SessionInserted(old(State()), s)
    {
      SessionInsertedWellFormed(State(), s);
      id := lastSession + 1;
      sessions := sessions + [s.(id := id)];
      lastSession := id;
    }

    method UpdateSession(s: WorkSession)
      requires Valid()
      modifies this
      ensures Valid() && State() == SessionUpdated(old(State()), s)
    {
      SessionUpdatedWellFormed(State(), s);
      sessions := SessionUpdated(State(), s).sessions;
    }

    method InsertPause(p: PauseSegment) returns (id: int)
      requires Valid() && HasSession(State(), p.sessionId)
      modifies this
      ensures Valid() && id == old(lastPause) + 1
      ensures State() == PauseInserted(old(State()), p)
    {
      PauseInsertedWellFormed(State(), p);
      id := lastPause + 1;
      pauses := pauses + [p.(id := id)];
      lastPause := id;
    }

    method UpdatePause(p: PauseSegment)
      requires Valid() && (HasPause(State(), p.id) ==> HasSession(State(), p.sessionId))
      modifies this
      ensures Valid() && State() == PauseUpdated(old(State()), p)
    {
      PauseUpdatedWellFormed(State(), p);
      pauses := PauseUpdated(State(), p).pauses;
    }

    method DeletePause(p: PauseSegment)
      requires Valid()
      modifies this
      ensures Valid() && State() == PauseDeleted(old(State()), p)
    {
      PauseDeletedWellFormed(State(), p);
      pauses := PauseDeleted(State(), p).pauses;
    }

    method InsertEdit(e: SessionEdit) returns (id: int)
      requires Valid() && HasSession(State(), e.sessionId)
      modifies this
      ensures Valid() && id == old(lastEdit) + 1
      ensures State() == EditInserted(old(State()), e)
    {
      EditInsertedWellFormed(State(), e);
      id := lastEdit + 1;
      edits := edits + [e.(id := id)];
      lastEdit := id;
    }
  }
}
