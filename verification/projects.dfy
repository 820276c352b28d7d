/**
 * ProjectsScreen.kt: the list of projects in two tabs (active, archived)
 * with an archive toggle per row, the project detail screen that groups a
 * project's sessions by day with a total per day, and the dialog that
 * creates a project.
 */
module ProjectsScreen {
  import opened Wrappers
  import opened Text
  import opened CivilDate
  import opened Seqs
  import opened TimeUtils
  import opened Store

  // ---------------------------------------------------------------------
  // Tabs

  /** The tab filter: tab 0 keeps the projects not archived, any other tab the archived ones. */
  function OnTab(tab: int): Project -> bool {
    (p: Project) => if tab == 0 then !p.isArchived else p.isArchived
  }

  /** `projectsAll.filter { if (tab==0) !it.isArchived else it.isArchived }` */
  function TabRows(all: seq<Project>, tab: int): (r: seq<Project>)
    ensures tab == 0 ==> forall p :: p in r <==> p in all && !p.isArchived
    ensures tab != 0 ==> forall p :: p in r <==> p in all && p.isArchived
  {
    Filter(all, OnTab(tab))
  }

  /** Non-archived rows before archived ones. */
  predicate ArchivedLast(s: seq<Project>) {
    forall i, j :: 0 <= i < j < |s| && s[i].isArchived ==> s[j].isArchived
  }

  /** When every row is archived, the active tab is empty and the archive tab shows them all. */
  lemma {:induction false} AllArchived(s: seq<Project>)
    requires forall p :: p in s ==> p.isArchived
    ensures TabRows(s, 0) == [] && TabRows(s, 1) == s
  {
    FilterKeepsAll(s, OnTab(1));
    if s != [] {
      assert s[0] in s;
      AllArchived(s[1..]);
    }
  }

  lemma ArchivedLastTail(s: seq<Project>)
    requires s != [] && ArchivedLast(s)
    ensures ArchivedLast(s[1..])
  {
    forall i, j | 0 <= i < j < |s| - 1 && s[1..][i].isArchived
      ensures s[1..][j].isArchived
    {
      assert s[i + 1].isArchived ==> s[j + 1].isArchived;
    }
  }

  /** A leading active row leads the active tab. */
  lemma TabsCons(s: seq<Project>)
    requires s != [] && !s[0].isArchived
    ensures TabRows(s, 0) + TabRows(s, 1) == [s[0]] + (TabRows(s[1..], 0) + TabRows(s[1..], 1))
  {
    FilterHead(s, OnTab(0));
    FilterHead(s, OnTab(1));
  }

  /** When the first row is archived, every row is. */
  lemma FirstArchived(s: seq<Project>)
    requires s != [] && ArchivedLast(s) && s[0].isArchived
    ensures forall p :: p in s ==> p.isArchived
  {
    forall p | p in s
      ensures p.isArchived
    {
      var j :| 0 <= j < |s| && s[j] == p;
      assert j == 0 || (s[0].isArchived ==> s[j].isArchived);
    }
  }

  /** On a list with the archived rows last, the two tabs split it in two without reordering. */
  lemma {:induction false} TabsSplit(s: seq<Project>)
    requires ArchivedLast(s)
    ensures TabRows(s, 0) + TabRows(s, 1) == s
  {
    if s != [] {
      if s[0].isArchived {
        FirstArchived(s);
        AllArchived(s);
      } else {
        ArchivedLastTail(s);
        TabsSplit(s[1..]);
        TabsCons(s);
        assert s == [s[0]] + s[1..];
      }
    }
  }

  /**
   * On the list `getAll()` delivers, the active tab followed by the archive
   * tab is that list itself, and each tab is ordered by name.
   */
  lemma TabsOfGetAll(t: Tables, tab: int)
    ensures TabRows(GetAll(t), 0) + TabRows(GetAll(t), 1) == GetAll(t)
    ensures SortedBy(TabRows(GetAll(t), tab), NameNoLater)
  {
    var all := GetAll(t);
    TabsSplit(all);
    FilterSorted(all, OnTab(tab), ArchivedThenName);
    var r := TabRows(all, tab);
    forall i, j | 0 <= i < j < |r|
      ensures NameNoLater(r[i], r[j])
    {
      assert ArchivedThenName(r[i], r[j]);
      assert r[i] in r && r[j] in r;
    }
  }

  // ---------------------------------------------------------------------
  // The archive toggle

  /** `if (p.isArchived) unarchive(p.id) else archive(p.id)` */
  method ToggleArchive(db: AppDb, p: Project)
    requires db.Valid()
    modifies db
    ensures db.Valid() && db.State() == ArchivedSet(old(db.State()), p.id, !p.isArchived)
  {
    if p.isArchived {
      db.Unarchive(p.id);
    } else {
      db.Archive(p.id);
    }
  }

  /**
   * With unique ids, the toggle replaces the shown row by the same project
   * with the flag flipped, and toggling the new row restores the table.
   */
  lemma ToggleFlips(t: Tables, p: Project)
    requires WellFormed(t) && p in t.projects
    ensures var r := ArchivedSet(t, p.id, !p.isArchived);
      && p.(isArchived := !p.isArchived) in r.projects
      && p !in r.projects
      && ArchivedSet(r, p.id, p.isArchived) == t
  {
    var r := ArchivedSet(t, p.id, !p.isArchived);
    var i :| 0 <= i < |t.projects| && t.projects[i] == p;
    assert r.projects[i] == p.(isArchived := !p.isArchived);
    assert IncreasingBy(t.projects, ProjectId);
    assert forall j :: 0 <= j < |t.projects| && t.projects[j].id == p.id ==> j == i;
    var b := ArchivedSet(r, p.id, p.isArchived);
    assert b.projects == t.projects;
  }

  // ---------------------------------------------------------------------
  // Grouping the sessions of a project by day

  /** The sessions that started on the day beginning at `k`. */
  function SameDay(k: int): WorkSession -> bool {
    (s: WorkSession) => Midnight(s.startTs) == k
  }

  function DayGroup(ss: seq<WorkSession>, k: int): (r: seq<WorkSession>)
    ensures forall s :: s in r <==> s in ss && Midnight(s.startTs) == k
  {
    Filter(ss, SameDay(k))
  }

  predicate Ascending(keys: seq<int>) {
    forall i, j :: 0 <= i < j < |keys| ==> keys[i] < keys[j]
  }

  /** Adds one key to an ascending list of distinct keys. */
  function InsertKey(k: int, keys: seq<int>): (r: seq<int>)
    requires Ascending(keys)
    ensures Ascending(r)
    ensures forall x :: x in r <==> x == k || x in keys
  {
    if keys == [] then [k]
    else if k == keys[0] then keys
    else if k < keys[0] then [k] + keys
    else
      var rest := InsertKey(k, keys[1..]);
      assert forall x :: x in rest ==> keys[0] < x;
      var r := [keys[0]] + rest;
      assert Ascending(r) by {
        forall i, j | 0 <= i < j < |r|
          ensures r[i] < r[j]
        {
          if i == 0 {
            assert r[j] in rest;
          } else {
            assert r[i] == rest[i - 1] && r[j] == rest[j - 1];
          }
        }
      }
      r
  }

  /** The keys of `groupBy { dayStart(it.startTs) }.toSortedMap()`: each session's day, ascending, once each. */
  function DayKeys(ss: seq<WorkSession>): (keys: seq<int>)
    ensures Ascending(keys)
    ensures forall k :: k in keys <==> exists s :: s in ss && Midnight(s.startTs) == k
  {
    if ss == [] then []
    else
      var rest := DayKeys(ss[1..]);
      assert forall s :: s in ss <==> s == ss[0] || s in ss[1..];
      InsertKey(Midnight(ss[0].startTs), rest)
  }

  /** The group of each key, in key order. */
  function GroupsOf(keys: seq<int>, ss: seq<WorkSession>): seq<(int, seq<WorkSession>)> {
    seq(|keys|, i requires 0 <= i < |keys| => (keys[i], DayGroup(ss, keys[i])))
  }

  /**
   * `sessions.groupBy { dayStart(it.startTs) }.toSortedMap()` as a list of
   * (day start, sessions). The groups are keyed by ascending day starts,
   * none is empty, and every session lies in exactly one group: the one
   * keyed by its own day start.
   */
  function GroupByDay(ss: seq<WorkSession>): (g: seq<(int, seq<WorkSession>)>)
    ensures Partition(ss, g)
  {
    GroupsPartition(ss);
    GroupsOf(DayKeys(ss), ss)
  }

  /** Ascending, non-empty day groups holding every session exactly once, under its own day start. */
  predicate Partition(ss: seq<WorkSession>, g: seq<(int, seq<WorkSession>)>) {
    && (forall i, j :: 0 <= i < j < |g| ==> g[i].0 < g[j].0)
    && (forall i :: 0 <= i < |g| ==> g[i].1 != [] && g[i].0 % DayMs == 0)
    && (forall i, s :: 0 <= i < |g| && s in g[i].1 ==> s in ss && g[i].0 == Midnight(s.startTs))
    && (forall s :: s in ss ==> exists i :: 0 <= i < |g| && s in g[i].1)
    && (forall i, j, s :: 0 <= i < |g| && 0 <= j < |g| && s in g[i].1 && s in g[j].1 ==> i == j)
  }

  lemma GroupsPartition(ss: seq<WorkSession>)
    ensures Partition(ss, GroupsOf(DayKeys(ss), ss))
  {
    var g := GroupsOf(DayKeys(ss), ss);
    var keys := DayKeys(ss);
    forall i | 0 <= i < |g|
      ensures g[i].1 != [] && g[i].0 % DayMs == 0
    {
      assert keys[i] in keys;
      var s :| s in ss && Midnight(s.startTs) == keys[i];
      assert s in g[i].1;
    }
    forall s | s in ss
      ensures exists i :: 0 <= i < |g| && s in g[i].1
    {
      assert Midnight(s.startTs) in keys;
      var i :| 0 <= i < |keys| && keys[i] == Midnight(s.startTs);
      assert s in g[i].1;
    }
  }

  /** Within a day, the sessions keep the order of the list they were grouped from. */
  lemma GroupsKeepOrder(ss: seq<WorkSession>)
    requires SortedBy(ss, StartsNoLater)
    ensures forall i :: 0 <= i < |GroupByDay(ss)| ==> SortedBy(GroupByDay(ss)[i].1, StartsNoLater)
  {
    forall i | 0 <= i < |GroupByDay(ss)|
      ensures SortedBy(GroupByDay(ss)[i].1, StartsNoLater)
    {
      FilterSorted(ss, SameDay(DayKeys(ss)[i]), StartsNoLater);
    }
  }

  // ---------------------------------------------------------------------
  // Day totals

  /**
   * A day header's total: `list.sumOf { effectiveForSession(it.id, now) ?: 0 }`.
   * With unique session ids, looking each session up again by its id gives
   * back its own effective duration, so the total is their sum.
   */
  function DayTotal(t: Tables, group: seq<WorkSession>, now: int): (r: int)
    ensures IncreasingBy(t.sessions, SessionId) && (forall s :: s in group ==> s in t.sessions) ==>
      r == SumEffective(group, t.pauses, now)
  {
    LookupIsDirect(t, group, now);
    SumEffectiveForSession(t, group, now)
  }

  lemma {:induction false} LookupIsDirect(t: Tables, ss: seq<WorkSession>, now: int)
    ensures IncreasingBy(t.sessions, SessionId) && (forall s :: s in ss ==> s in t.sessions) ==>
      SumEffectiveForSession(t, ss, now) == SumEffective(ss, t.pauses, now)
  {
    if ss != [] && IncreasingBy(t.sessions, SessionId) && (forall s :: s in ss ==> s in t.sessions) {
      assert ss[0] in ss;
      FindOwnId(t.sessions, ss[0]);
      assert forall s :: s in ss[1..] ==> s in ss;
      LookupIsDirect(t, ss[1..], now);
    }
  }

  /** The day headers' totals added up. */
  function HeaderSum(t: Tables, g: seq<(int, seq<WorkSession>)>, now: int): int {
    if g == [] then 0 else DayTotal(t, g[0].1, now) + HeaderSum(t, g[1..], now)
  }

  lemma {:induction false} SumConcat(t: Tables, a: seq<WorkSession>, b: seq<WorkSession>, now: int)
    ensures SumEffectiveForSession(t, a + b, now) == SumEffectiveForSession(t, a, now) + SumEffectiveForSession(t, b, now)
  {
    if a == [] {
      assert a + b == b;
    } else {
      assert (a + b)[0] == a[0] && (a + b)[1..] == a[1..] + b;
      SumConcat(t, a[1..], b, now);
    }
  }

  /** Taking out the row at `i` takes out its time. */
  lemma SumRemove(t: Tables, b: seq<WorkSession>, i: int, now: int)
    requires 0 <= i < |b|
    ensures SumEffectiveForSession(t, b, now)
      == EffectiveForSession(t, b[i].id, now).GetOr(0) + SumEffectiveForSession(t, b[..i] + b[i + 1..], now)
  {
    assert b == b[..i] + [b[i]] + b[i + 1..];
    SumConcat(t, b[..i] + [b[i]], b[i + 1..], now);
    SumConcat(t, b[..i], [b[i]], now);
    SumConcat(t, b[..i], b[i + 1..], now);
  }

  lemma MultisetRemove<T>(a: seq<T>, b: seq<T>, i: int)
    requires a != [] && 0 <= i < |b| && b[i] == a[0] && multiset(a) == multiset(b)
    ensures multiset(a[1..]) == multiset(b[..i] + b[i + 1..])
  {
    assert b == b[..i] + [b[i]] + b[i + 1..];
    assert a == [a[0]] + a[1..];
    assert multiset(b) == multiset(b[..i]) + multiset{b[i]} + multiset(b[i + 1..]);
    assert multiset(a) == multiset{a[0]} + multiset(a[1..]);
    assert multiset(b[..i] + b[i + 1..]) == multiset(b[..i]) + multiset(b[i + 1..]);
    var x, y := multiset(a[1..]), multiset(b[..i] + b[i + 1..]);
    assert multiset(a) == x + multiset{a[0]};
    assert multiset(b) == y + multiset{a[0]};
    assert x == (x + multiset{a[0]}) - multiset{a[0]};
    assert y == (y + multiset{a[0]}) - multiset{a[0]};
  }

  /** The order of the sessions does not change their total. */
  lemma {:induction false} SumPermutation(t: Tables, a: seq<WorkSession>, b: seq<WorkSession>, now: int)
    requires multiset(a) == multiset(b)
    ensures SumEffectiveForSession(t, a, now) == SumEffectiveForSession(t, b, now)
  {
    if a != [] {
      assert a[0] in multiset(b);
      var i :| 0 <= i < |b| && b[i] == a[0];
      MultisetRemove(a, b, i);
      SumPermutation(t, a[1..], b[..i] + b[i + 1..], now);
      SumRemove(t, b, i, now);
    }
  }

  lemma {:induction false} NoSessionsNoTotal(t: Tables, keys: seq<int>, now: int)
    ensures HeaderSum(t, GroupsOf(keys, []), now) == 0
  {
    if keys != [] {
      assert GroupsOf(keys, [])[1..] == GroupsOf(keys[1..], []);
      NoSessionsNoTotal(t, keys[1..], now);
    }
  }

  /** Adding one session in front adds its time to the total exactly when its day has a header. */
  lemma {:induction false} OneMoreSession(t: Tables, keys: seq<int>, s: WorkSession, rest: seq<WorkSession>, now: int)
    requires Ascending(keys)
    ensures HeaderSum(t, GroupsOf(keys, [s] + rest), now)
      == (if Midnight(s.startTs) in keys then EffectiveForSession(t, s.id, now).GetOr(0) else 0)
         + HeaderSum(t, GroupsOf(keys, rest), now)
  {
    if keys != [] {
      var ss := [s] + rest;
      assert ss[0] == s && ss[1..] == rest;
      assert GroupsOf(keys, ss)[1..] == GroupsOf(keys[1..], ss);
      assert GroupsOf(keys, rest)[1..] == GroupsOf(keys[1..], rest);
      assert Ascending(keys[1..]) by {
        forall i, j | 0 <= i < j < |keys| - 1
          ensures keys[1..][i] < keys[1..][j]
        {
          assert keys[i + 1] < keys[j + 1];
        }
      }
      OneMoreSession(t, keys[1..], s, rest, now);
      var g := DayGroup(ss, keys[0]);
      if Midnight(s.startTs) == keys[0] {
        assert g == [s] + DayGroup(rest, keys[0]);
        assert ([s] + DayGroup(rest, keys[0]))[1..] == DayGroup(rest, keys[0]);
        assert Midnight(s.startTs) !in keys[1..];
      } else {
        assert g == DayGroup(rest, keys[0]);
        assert Midnight(s.startTs) in keys <==> Midnight(s.startTs) in keys[1..];
      }
    }
  }

  lemma {:induction false} HeadersCoverSessions(t: Tables, keys: seq<int>, ss: seq<WorkSession>, now: int)
    requires Ascending(keys)
    requires forall s :: s in ss ==> Midnight(s.startTs) in keys
    ensures HeaderSum(t, GroupsOf(keys, ss), now) == SumEffectiveForSession(t, ss, now)
  {
    if ss == [] {
      NoSessionsNoTotal(t, keys, now);
    } else {
      assert ss == [ss[0]] + ss[1..];
      assert ss[0] in ss;
      OneMoreSession(t, keys, ss[0], ss[1..], now);
      HeadersCoverSessions(t, keys, ss[1..], now);
    }
  }

  /** The day totals add up to the total of all the sessions grouped. */
  lemma DayTotalsAddUp(t: Tables, ss: seq<WorkSession>, now: int)
    ensures HeaderSum(t, GroupByDay(ss), now) == SumEffectiveForSession(t, ss, now)
  {
    HeadersCoverSessions(t, DayKeys(ss), ss, now);
  }

  /**
   * On the detail screen of project `pid`, the day headers add up to the
   * total the project list shows for it (`effectiveSumForProject`).
   */
  lemma DetailMatchesListTotal(t: Tables, pid: int, now: int)
    requires WellFormed(t)
    ensures HeaderSum(t, GroupByDay(SessionsForProject(t, pid)), now) == EffectiveSumForProject(t, pid, now)
  {
    var ss := SessionsForProject(t, pid);
    DayTotalsAddUp(t, ss, now);
    SumPermutation(t, ss, SessionsOf(t.sessions, pid), now);
    SumForProjectIsSumOfSessions(t, pid, now);
  }

  // ---------------------------------------------------------------------
  // Creating a project

  /**
   * `NewProjectDialog`: nothing when the name is blank (the button is
   * disabled); otherwise the trimmed name, and the trimmed number or none
   * when that is blank.
   */
  function NewProjectInput(name: string, number: string): (r: Option<(string, Option<string>)>)
    ensures r.None? <==> IsBlank(name)
    ensures r.Some? ==> r.value.0 == Trim(name) && r.value.0 != []
    ensures r.Some? ==> !IsWhitespace(r.value.0[0]) && !IsWhitespace(r.value.0[|r.value.0| - 1])
    ensures r.Some? ==> (r.value.1.None? <==> IsBlank(number))
    ensures r.Some? && r.value.1.Some? ==> r.value.1.value == Trim(number) && r.value.1.value != []
  {
    if IsBlank(name) then None
    else
      var num := Trim(number);
      assert num != [] ==> !IsWhitespace(num[0]);
      Some((Trim(name), if IsBlank(num) then None else Some(num)))
  }

  /** Trimming what was already trimmed changes nothing, so a created name survives being entered again. */
  lemma TrimIdempotent(s: string)
    ensures Trim(Trim(s)) == Trim(s)
  {
    var r := Trim(s);
    if r != [] {
      assert TrimStart(r) == r;
      assert TrimEnd(r) == r;
    }
  }

  /** `onCreate(name, number)`: inserts `Project(name = name, number = number)`, not archived, created at `now`. */
  method CreateProject(db: AppDb, name: string, number: string, now: int) returns (id: Option<int>)
    requires db.Valid()
    modifies db
    ensures db.Valid()
    ensures IsBlank(name) ==> id == None && db.State() == old(db.State())
    ensures !IsBlank(name) ==> var (n, num) := NewProjectInput(name, number).value;
      && id == Some(old(db.lastProject) + 1)
      && db.State() == ProjectInserted(old(db.State()), Project(0, n, num, false, now))
  {
    match NewProjectInput(name, number)
    case None =>
      id := None;
    case Some((n, num)) =>
      var k := db.InsertProject(Project(0, n, num, false, now));
      id := Some(k);
  }
}
