/**
  The renderer's tab manager: the session-id allocator, the ordered tab list
  with its single current tab, and the create / activate / close operations.

  The source keeps `tabs`, `currentTab` and `sessionCounter` in module-level
  variables; here they are one immutable `Manager` value and every operation
  returns the next one. A tab's DOM elements (webview and list entry) are
  reduced to the session they show and an active flag, which stands for the
  webview being visible, interactive and on top.
 */
module Sessions {
  import opened Options
  import opened Text

  /** The storage partition every session's webview is bound to. */
  const PartitionPrefix := "persist:session-"

  function PartitionName(id: string): string
  {
    PartitionPrefix + id
  }

  /** A partition name splits back into the prefix and the id it was built from. */
  lemma PartitionNameParts(id: string)
    ensures var p := PartitionName(id);
            && |p| == |PartitionPrefix| + |id|
            && p[..|PartitionPrefix|] == PartitionPrefix && p[|PartitionPrefix|..] == id
  {
  }

  lemma PartitionNameInjective(a: string, b: string)
    ensures PartitionName(a) == PartitionName(b) <==> a == b
  {
    if PartitionName(a) == PartitionName(b) {
      assert a == PartitionName(a)[|PartitionPrefix|..];
    }
  }

  /**
    A session id as `generateSessionId` draws it: the text `crypto.randomUUID`
    returned, or the clock reading and counter value the fallback renders as
    `${now}-${counter}`. The source handles ids as strings; `IdText` is that
    string.
   */
  datatype SessionId = Uuid(text: string) | Stamp(now: nat, serial: nat)

  function IdText(id: SessionId): string
  {
    match id
    case Uuid(t) => t
    case Stamp(now, serial) => Stamped(now, serial)
  }

  /**
    An id whose text cannot be mistaken for a fallback id: a UUID's text does
    not read as digits, one '-' and digits. A UUID has four '-', so what
    follows its first '-' is never a decimal number.
   */
  predicate Shaped(id: SessionId)
  {
    id.Uuid? ==> SerialOf(id.text).None? || StampOf(id.text).None?
  }

  /** Distinct shaped ids render as distinct strings, so comparing either is the same. */
  lemma IdTextInjective(a: SessionId, b: SessionId)
    requires Shaped(a) && Shaped(b)
    ensures IdText(a) == IdText(b) <==> a == b
  {
    match a
    case Uuid(_) =>
      if b.Stamp? {
        SerialOfStamped(b.now, b.serial);
        StampOfStamped(b.now, b.serial);
      }
    case Stamp(t1, n1) =>
      if b.Stamp? {
        StampedInjective(t1, n1, b.now, b.serial);
      } else {
        SerialOfStamped(t1, n1);
        StampOfStamped(t1, n1);
      }
  }

  datatype Session = Session(id: SessionId, url: string)

  /** `persist:session-${id}`: the partition a session's webview is bound to. */
  function Partition(s: Session): string
  {
    PartitionName(IdText(s.id))
  }

  /** Two sessions share a partition exactly when they share a (shaped) id. */
  lemma PartitionsDistinct(s1: Session, s2: Session)
    requires Shaped(s1.id) && Shaped(s2.id)
    ensures Partition(s1) == Partition(s2) <==> s1.id == s2.id
  {
    PartitionNameInjective(IdText(s1.id), IdText(s2.id));
    IdTextInjective(s1.id, s2.id);
  }

  datatype Tab = Tab(session: Session, active: bool)

  /** The status line: a message and whether it is shown as an error. */
  datatype Status = Status(text: string, error: bool)

  datatype Manager = Manager(tabs: seq<Tab>, current: Option<SessionId>, counter: nat, status: Status)

  const NoSessionsText := "Sin sesiones activas."

  /** The state at page load. */
  const Initial := Manager([], None, 0, Status("", false))

  function Ids(tabs: seq<Tab>): (ids: seq<SessionId>)
    ensures |ids| == |tabs| && forall k :: 0 <= k < |tabs| ==> ids[k] == tabs[k].session.id
  {
    seq(|tabs|, k requires 0 <= k < |tabs| => tabs[k].session.id)
  }

  function SessionsOf(tabs: seq<Tab>): (ss: seq<Session>)
    ensures |ss| == |tabs| && forall k :: 0 <= k < |tabs| ==> ss[k] == tabs[k].session
  {
    seq(|tabs|, k requires 0 <= k < |tabs| => tabs[k].session)
  }

  predicate DistinctIds(tabs: seq<Tab>)
  {
    forall i, j :: 0 <= i < j < |tabs| ==> tabs[i].session.id != tabs[j].session.id
  }

  /**
    The manager's invariant: ids are distinct, there is a current tab exactly
    when there are tabs, and exactly the current tab is active.
   */
  ghost predicate Valid(m: Manager)
  {
    && DistinctIds(m.tabs)
    && (m.current.None? <==> |m.tabs| == 0)
    && (m.current.Some? ==> m.current.value in Ids(m.tabs))
    && (forall k :: 0 <= k < |m.tabs| ==> (m.tabs[k].active <==> m.current == Some(m.tabs[k].session.id)))
  }

  lemma InitialValid()
    ensures Valid(Initial)
  {
  }

  /** In a valid manager whose ids are shaped, no two tabs share a storage partition. */
  lemma ValidPartitionsDistinct(m: Manager)
    requires Valid(m)
    requires forall k :: 0 <= k < |m.tabs| ==> Shaped(m.tabs[k].session.id)
    ensures forall i, j :: 0 <= i < j < |m.tabs| ==> Partition(m.tabs[i].session) != Partition(m.tabs[j].session)
  {
    forall i, j | 0 <= i < j < |m.tabs|
      ensures Partition(m.tabs[i].session) != Partition(m.tabs[j].session)
    {
      PartitionsDistinct(m.tabs[i].session, m.tabs[j].session);
    }
  }

  // ---------------------------------------------------------------------------
  // Session ids
  // ---------------------------------------------------------------------------

  /**
    Where one call of `generateSessionId` takes its id from: `crypto.randomUUID`
    when the page has it, otherwise the clock reading `Date.now()`.
   */
  datatype IdSource = RandomUuid(uuid: string) | Clock(now: nat)

  datatype Allocation = Allocation(id: SessionId, counter: nat)

  /**
    `generateSessionId`: a random UUID leaves the counter alone; the fallback
    id is `${now}-${counter}` and consumes the counter.
   */
  function GenerateSessionId(counter: nat, src: IdSource): (a: Allocation)
    ensures src.RandomUuid? ==> IdText(a.id) == src.uuid && a.counter == counter
    ensures src.Clock? ==> a.id == Stamp(src.now, counter) && a.counter == counter + 1
  {
    match src
    case RandomUuid(u) => Allocation(Uuid(u), counter)
    case Clock(now) => Allocation(Stamp(now, counter), counter + 1)
  }

  /** A fallback id's text reads back as the clock reading and the counter value it was drawn at. */
  lemma FallbackIdDecodes(counter: nat, now: nat)
    ensures var t := IdText(GenerateSessionId(counter, Clock(now)).id);
            StampOf(t) == Some(now) && SerialOf(t) == Some(counter)
  {
    StampOfStamped(now, counter);
    SerialOfStamped(now, counter);
  }

  /** Fallback ids drawn at different counter values differ, as strings and as partitions. */
  lemma FallbackIdsDistinct(c1: nat, t1: nat, c2: nat, t2: nat)
    requires c1 != c2
    ensures IdText(GenerateSessionId(c1, Clock(t1)).id) != IdText(GenerateSessionId(c2, Clock(t2)).id)
    ensures PartitionName(IdText(GenerateSessionId(c1, Clock(t1)).id))
            != PartitionName(IdText(GenerateSessionId(c2, Clock(t2)).id))
  {
    StampedDistinct(t1, c1, t2, c2);
    PartitionNameInjective(Stamped(t1, c1), Stamped(t2, c2));
  }

  /** Every tab's id is a fallback id whose serial the counter has already passed. */
  ghost predicate SerialsBelow(m: Manager)
  {
    forall k :: 0 <= k < |m.tabs| ==> m.tabs[k].session.id.Stamp? && m.tabs[k].session.id.serial < m.counter
  }

  // ---------------------------------------------------------------------------
  // Activation
  // ---------------------------------------------------------------------------

  /**
    `activateTab(id)`: nothing happens for an unknown id; otherwise `id` becomes
    current and every tab is restyled, active exactly when it carries `id`.
    An id that is already current is restyled too, not skipped.
   */
  function ActivateTab(m: Manager, id: SessionId): (r: Manager)
    ensures id !in Ids(m.tabs) ==> r == m
    ensures id in Ids(m.tabs) ==> r.current == Some(id)
    ensures SessionsOf(r.tabs) == SessionsOf(m.tabs)
    ensures forall k :: 0 <= k < |r.tabs| ==>
              (r.tabs[k].active <==> if id in Ids(m.tabs) then r.tabs[k].session.id == id else m.tabs[k].active)
    ensures r.counter == m.counter && r.status == m.status
  {
    if id !in Ids(m.tabs) then m
    else
      var restyled := seq(|m.tabs|, k requires 0 <= k < |m.tabs| =>
                            m.tabs[k].(active := m.tabs[k].session.id == id));
      m.(tabs := restyled, current := Some(id))
  }

  /** The number of active tabs. */
  function CountActive(tabs: seq<Tab>): nat
  {
    if |tabs| == 0 then 0 else (if tabs[0].active then 1 else 0) + CountActive(tabs[1..])
  }

  lemma {:induction false} NoneActive(tabs: seq<Tab>)
    requires forall k :: 0 <= k < |tabs| ==> !tabs[k].active
    ensures CountActive(tabs) == 0
  {
    if |tabs| > 0 {
      NoneActive(tabs[1..]);
    }
  }

  /** With distinct ids, flagging the tabs that carry `id` flags exactly one. */
  lemma {:induction false} OneActive(tabs: seq<Tab>, id: SessionId)
    requires DistinctIds(tabs) && id in Ids(tabs)
    requires forall k :: 0 <= k < |tabs| ==> (tabs[k].active <==> tabs[k].session.id == id)
    ensures CountActive(tabs) == 1
  {
    if tabs[0].session.id == id {
      NoneActive(tabs[1..]);
    } else {
      assert id in Ids(tabs[1..]) by {
        var k :| 0 <= k < |tabs| && Ids(tabs)[k] == id;
        assert Ids(tabs[1..])[k - 1] == id;
      }
      OneActive(tabs[1..], id);
    }
  }

  /** Mutual exclusion: a valid manager with tabs has exactly one active tab, the current one. */
  lemma ExactlyOneActive(m: Manager)
    requires Valid(m) && |m.tabs| > 0
    ensures CountActive(m.tabs) == 1
    ensures forall k :: 0 <= k < |m.tabs| ==> (m.tabs[k].active <==> Some(m.tabs[k].session.id) == m.current)
  {
    OneActive(m.tabs, m.current.value);
  }

  lemma ActivatePreservesValid(m: Manager, id: SessionId)
    requires Valid(m)
    ensures Valid(ActivateTab(m, id))
  {
    if id in Ids(m.tabs) {
      ActivateMakesValid(m, id);
    }
  }

  /** Activating a known id repairs the current pointer and the active flags. */
  lemma ActivateMakesValid(m: Manager, id: SessionId)
    requires DistinctIds(m.tabs) && id in Ids(m.tabs)
    ensures Valid(ActivateTab(m, id))
  {
    var r := ActivateTab(m, id);
    assert Ids(r.tabs) == Ids(m.tabs);
  }

  /** Activating the current tab again changes nothing a valid manager records. */
  lemma ReactivateCurrentIsIdentity(m: Manager)
    requires Valid(m) && m.current.Some?
    ensures ActivateTab(m, m.current.value) == m
  {
    var r := ActivateTab(m, m.current.value);
    assert forall k :: 0 <= k < |m.tabs| ==> r.tabs[k] == m.tabs[k];
  }

  // ---------------------------------------------------------------------------
  // Creation
  // ---------------------------------------------------------------------------

  /**
    `createSession(url)`: draw an id, append a tab showing `url` in the id's
    partition, and make it current.
   */
  function CreateSession(m: Manager, url: string, src: IdSource): (r: Manager)
    ensures |r.tabs| == |m.tabs| + 1
    ensures SessionsOf(r.tabs)[..|m.tabs|] == SessionsOf(m.tabs)
    ensures var s := r.tabs[|m.tabs|].session; s.url == url && r.current == Some(s.id)
    ensures r.tabs[|m.tabs|].session.id == GenerateSessionId(m.counter, src).id
    ensures r.counter == GenerateSessionId(m.counter, src).counter
    ensures r.status == m.status
  {
    var a := GenerateSessionId(m.counter, src);
    var tab := Tab(Session(a.id, url), false);
    var appended := m.(tabs := m.tabs + [tab], counter := a.counter);
    assert a.id in Ids(appended.tabs) by {
      assert Ids(appended.tabs)[|m.tabs|] == a.id;
    }
    var r := ActivateTab(appended, a.id);
    assert SessionsOf(r.tabs)[..|m.tabs|] == SessionsOf(m.tabs);
    r
  }

  /** Creating a session with a fresh id keeps the manager valid. */
  lemma CreatePreservesValid(m: Manager, url: string, src: IdSource)
    requires Valid(m)
    requires GenerateSessionId(m.counter, src).id !in Ids(m.tabs)
    ensures Valid(CreateSession(m, url, src))
  {
    var r := CreateSession(m, url, src);
    var id := GenerateSessionId(m.counter, src).id;
    forall i, j | 0 <= i < j < |r.tabs|
      ensures r.tabs[i].session.id != r.tabs[j].session.id
    {
      assert SessionsOf(r.tabs)[i] == SessionsOf(m.tabs)[i];
      if j < |m.tabs| {
        assert SessionsOf(r.tabs)[j] == SessionsOf(m.tabs)[j];
      } else {
        assert Ids(m.tabs)[i] == m.tabs[i].session.id;
      }
    }
    assert id in Ids(r.tabs) by {
      assert Ids(r.tabs)[|m.tabs|] == id;
    }
  }

  /**
    Under the clock fallback, every created id is fresh: the counter strictly
    increases and every existing id carries a smaller serial.
   */
  lemma FallbackCreateKeepsIdsFresh(m: Manager, url: string, now: nat)
    requires Valid(m) && SerialsBelow(m)
    ensures GenerateSessionId(m.counter, Clock(now)).id !in Ids(m.tabs)
    ensures Valid(CreateSession(m, url, Clock(now)))
    ensures SerialsBelow(CreateSession(m, url, Clock(now)))
  {
    var id := GenerateSessionId(m.counter, Clock(now)).id;
    forall k | 0 <= k < |m.tabs|
      ensures Ids(m.tabs)[k] != id
    {
      assert m.tabs[k].session.id.serial < m.counter;
    }
    CreatePreservesValid(m, url, Clock(now));
    var r := CreateSession(m, url, Clock(now));
    forall k | 0 <= k < |r.tabs|
      ensures r.tabs[k].session.id.Stamp? && r.tabs[k].session.id.serial < r.counter
    {
      if k < |m.tabs| {
        assert SessionsOf(r.tabs)[k] == SessionsOf(m.tabs)[k];
      }
    }
  }

  // ---------------------------------------------------------------------------
  // Closing
  // ---------------------------------------------------------------------------

  /** `tabs.findIndex(t => t.id === id)`. */
  function FindIndex(tabs: seq<Tab>, id: SessionId): (i: int)
    ensures -1 <= i < |tabs|
    ensures i == -1 <==> id !in Ids(tabs)
    ensures i >= 0 ==> tabs[i].session.id == id && forall k :: 0 <= k < i ==> tabs[k].session.id != id
  {
    if |tabs| == 0 then -1
    else if tabs[0].session.id == id then 0
    else
      var j := FindIndex(tabs[1..], id);
      assert Ids(tabs) == [tabs[0].session.id] + Ids(tabs[1..]);
      if j == -1 then -1 else j + 1
  }

  function Max(a: int, b: int): int
  {
    if a >= b then a else b
  }

  /**
    `closeTab(id)`: an unknown id changes nothing. Otherwise the tab is
    removed; if it was current, its left neighbour (or, for the first tab, the
    new first tab) becomes current, and with no tab left the current id is
    cleared and the status reports that no sessions remain.
   */
  function CloseTab(m: Manager, id: SessionId): (r: Manager)
    ensures id !in Ids(m.tabs) ==> r == m
    ensures id in Ids(m.tabs) ==>
              var i := FindIndex(m.tabs, id);
              && SessionsOf(r.tabs) == SessionsOf(m.tabs)[..i] + SessionsOf(m.tabs)[i + 1..]
              && r.counter == m.counter
              && (m.current == Some(id) && |m.tabs| > 1 ==>
                    r.current == Some(m.tabs[if i == 0 then 1 else i - 1].session.id) && r.status == m.status)
              && (m.current == Some(id) && |m.tabs| == 1 ==>
                    r.tabs == [] && r.current == None && r.status == Status(NoSessionsText, false))
              && (m.current != Some(id) ==>
                    r.tabs == m.tabs[..i] + m.tabs[i + 1..] && r.current == m.current && r.status == m.status)
  {
    var index := FindIndex(m.tabs, id);
    if index < 0 then m
    else
      var rest := m.tabs[..index] + m.tabs[index + 1..];
      var removed := m.(tabs := rest);
      assert SessionsOf(rest) == SessionsOf(m.tabs)[..index] + SessionsOf(m.tabs)[index + 1..];
      if m.current == Some(id) then
        if |rest| > 0 then
          var next := rest[Max(0, index - 1)].session.id;
          assert next == m.tabs[if index == 0 then 1 else index - 1].session.id;
          assert next in Ids(rest) by {
            assert Ids(rest)[Max(0, index - 1)] == next;
          }
          ActivateTab(removed, next)
        else
          removed.(current := None, status := Status(NoSessionsText, false))
      else
        removed
  }

  /** Removing the entry at `i` keeps the other entries, in order. */
  lemma RemoveAt(tabs: seq<Tab>, i: nat)
    requires i < |tabs|
    ensures var rest := tabs[..i] + tabs[i + 1..];
            && |rest| == |tabs| - 1
            && (forall k :: 0 <= k < |rest| ==> rest[k] == tabs[if k < i then k else k + 1])
            && (DistinctIds(tabs) ==> DistinctIds(rest))
  {
  }

  lemma ClosePreservesValid(m: Manager, id: SessionId)
    requires Valid(m)
    ensures Valid(CloseTab(m, id))
    ensures SerialsBelow(m) ==> SerialsBelow(CloseTab(m, id))
  {
    if id in Ids(m.tabs) {
      var i := FindIndex(m.tabs, id);
      RemoveAt(m.tabs, i);
      if m.current == Some(id) {
        CloseCurrentPreservesValid(m, id, i);
      } else {
        CloseOtherPreservesValid(m, id, i);
      }
      if SerialsBelow(m) {
        CloseKeepsSerials(m, id, i);
      }
    }
  }

  /** Closing keeps the remaining tabs' sessions, so their serials stay below the unchanged counter. */
  lemma CloseKeepsSerials(m: Manager, id: SessionId, i: nat)
    requires SerialsBelow(m) && i < |m.tabs| && i == FindIndex(m.tabs, id)
    ensures SerialsBelow(CloseTab(m, id))
  {
    assert Ids(m.tabs)[i] == id;
    var r := CloseTab(m, id);
    var kept := SessionsOf(m.tabs)[..i] + SessionsOf(m.tabs)[i + 1..];
    assert SessionsOf(r.tabs) == kept && r.counter == m.counter;
    forall k | 0 <= k < |r.tabs|
      ensures r.tabs[k].session.id.Stamp? && r.tabs[k].session.id.serial < r.counter
    {
      assert kept[k] == SessionsOf(m.tabs)[if k < i then k else k + 1];
    }
  }

  lemma CloseCurrentPreservesValid(m: Manager, id: SessionId, i: nat)
    requires Valid(m) && m.current == Some(id) && i < |m.tabs| && i == FindIndex(m.tabs, id)
    ensures Valid(CloseTab(m, id))
  {
    var rest := m.tabs[..i] + m.tabs[i + 1..];
    RemoveAt(m.tabs, i);
    if |rest| > 0 {
      var next := rest[Max(0, i - 1)].session.id;
      assert Ids(rest)[Max(0, i - 1)] == next;
      ActivateMakesValid(m.(tabs := rest), next);
      CloseCurrentActivates(m, id, i);
    }
  }

  /** Closing the current tab, with others left, activates the neighbour in what remains. */
  lemma CloseCurrentActivates(m: Manager, id: SessionId, i: nat)
    requires m.current == Some(id) && i < |m.tabs| && i == FindIndex(m.tabs, id) && |m.tabs| > 1
    ensures var rest := m.tabs[..i] + m.tabs[i + 1..];
            CloseTab(m, id) == ActivateTab(m.(tabs := rest), rest[Max(0, i - 1)].session.id)
  {
  }

  lemma CloseOtherPreservesValid(m: Manager, id: SessionId, i: nat)
    requires Valid(m) && m.current != Some(id) && i < |m.tabs| && i == FindIndex(m.tabs, id)
    ensures Valid(CloseTab(m, id))
  {
    var rest := m.tabs[..i] + m.tabs[i + 1..];
    RemoveAt(m.tabs, i);
    var r := CloseTab(m, id);
    assert r == m.(tabs := rest);
    RemoveKeepsOther(m.tabs, i, m.current.value);
    forall k | 0 <= k < |rest|
      ensures rest[k].active <==> m.current == Some(rest[k].session.id)
    {
      assert rest[k] == m.tabs[if k < i then k else k + 1];
    }
  }

  /** An id other than the removed one is still present after the removal. */
  lemma RemoveKeepsOther(tabs: seq<Tab>, i: nat, c: SessionId)
    requires i < |tabs| && c in Ids(tabs) && c != tabs[i].session.id
    ensures c in Ids(tabs[..i] + tabs[i + 1..])
  {
    var rest := tabs[..i] + tabs[i + 1..];
    var j :| 0 <= j < |tabs| && Ids(tabs)[j] == c;
    if j < i {
      assert Ids(rest)[j] == c;
    } else {
      assert Ids(rest)[j - 1] == c;
    }
  }

  // ---------------------------------------------------------------------------
  // Bulk creation
  // ---------------------------------------------------------------------------

  /**
    What the page offers one press of the create button: whether
    `crypto.randomUUID` exists, the UUID and clock reading each loop iteration
    would see, and the iterations whose `createSession` throws after the id was
    drawn but before the tab was recorded.
   */
  datatype Env = Env(crypto: bool, uuid: nat -> string, clock: nat -> nat, fails: set<nat>)

  function SourceAt(env: Env, i: nat): IdSource
  {
    if env.crypto then RandomUuid(env.uuid(i)) else Clock(env.clock(i))
  }

  /** The number of iterations among the first `n` that do not throw. */
  function Succeeded(fails: set<nat>, n: nat): (c: nat)
    ensures c <= n
  {
    if n == 0 then 0 else Succeeded(fails, n - 1) + (if n - 1 in fails then 0 else 1)
  }

  /** `r` holds `m`'s sessions, in order, followed by sessions for `url` only. */
  ghost predicate Extends(m: Manager, r: Manager, url: string)
  {
    && |m.tabs| <= |r.tabs|
    && SessionsOf(r.tabs)[..|m.tabs|] == SessionsOf(m.tabs)
    && forall k :: |m.tabs| <= k < |r.tabs| ==> r.tabs[k].session.url == url
  }

  lemma CreateExtends(m: Manager, r: Manager, url: string, src: IdSource)
    requires Extends(m, r, url)
    ensures Extends(m, CreateSession(r, url, src), url)
  {
    var next := CreateSession(r, url, src);
    assert SessionsOf(next.tabs)[..|m.tabs|] == SessionsOf(next.tabs)[..|r.tabs|][..|m.tabs|];
    forall k | |m.tabs| <= k < |r.tabs|
      ensures next.tabs[k].session == r.tabs[k].session
    {
      assert SessionsOf(next.tabs)[..|r.tabs|][k] == SessionsOf(r.tabs)[k];
    }
  }

  /** One iteration of the loop: a throwing one only consumes its id. */
  function Step(r: Manager, url: string, env: Env, i: nat): Manager
  {
    var src := SourceAt(env, i);
    if i in env.fails then r.(counter := GenerateSessionId(r.counter, src).counter)
    else CreateSession(r, url, src)
  }

  /**
    A throwing iteration leaves the tabs and the current one alone; any other
    appends one tab for `url` and makes it current. Either way the id was
    drawn, so the counter is the allocator's, and the status is untouched.
   */
  lemma StepEffect(r: Manager, url: string, env: Env, i: nat)
    ensures var next := Step(r, url, env, i);
            && (i in env.fails ==> next.tabs == r.tabs && next.current == r.current)
            && (i !in env.fails ==> && |next.tabs| == |r.tabs| + 1
                                    && next.tabs[|r.tabs|].session.url == url
                                    && next.current == Some(next.tabs[|r.tabs|].session.id))
            && next.counter == GenerateSessionId(r.counter, SourceAt(env, i)).counter
            && next.status == r.status
  {
  }

  /** The manager after the first `n` iterations of the loop, starting from `m`. */
  function Run(m: Manager, url: string, env: Env, n: nat): (r: Manager)
    ensures |m.tabs| <= |r.tabs| <= |m.tabs| + n
  {
    if n == 0 then m else Step(Run(m, url, env, n - 1), url, env, n - 1)
  }

  /** The loop's bookkeeping after `i` iterations: tab count, counter and status. */
  ghost predicate Grows(m: Manager, r: Manager, env: Env, i: nat)
  {
    && |r.tabs| == |m.tabs| + Succeeded(env.fails, i)
    && (!env.crypto ==> r.counter == m.counter + i)
    && r.status == m.status
  }

  /** The last tab the loop appended is current; with none appended, tabs and current are untouched. */
  ghost predicate LastIsCurrent(m: Manager, r: Manager)
  {
    && (|r.tabs| > |m.tabs| ==> r.current == Some(r.tabs[|r.tabs| - 1].session.id))
    && (|r.tabs| == |m.tabs| ==> r.tabs == m.tabs && r.current == m.current)
  }

  lemma {:induction false} RunGrows(m: Manager, url: string, env: Env, n: nat)
    ensures Grows(m, Run(m, url, env, n), env, n)
  {
    if n > 0 {
      RunGrows(m, url, env, n - 1);
      var r := Run(m, url, env, n - 1);
      assert Run(m, url, env, n) == Step(r, url, env, n - 1);
    }
  }

  lemma {:induction false} RunExtends(m: Manager, url: string, env: Env, n: nat)
    ensures Extends(m, Run(m, url, env, n), url)
  {
    if n == 0 {
      assert SessionsOf(m.tabs)[..|m.tabs|] == SessionsOf(m.tabs);
    } else {
      RunExtends(m, url, env, n - 1);
      var r := Run(m, url, env, n - 1);
      assert Run(m, url, env, n) == Step(r, url, env, n - 1);
      if n - 1 !in env.fails {
        CreateExtends(m, r, url, SourceAt(env, n - 1));
      }
    }
  }

  lemma {:induction false} RunLastIsCurrent(m: Manager, url: string, env: Env, n: nat)
    ensures LastIsCurrent(m, Run(m, url, env, n))
  {
    if n > 0 {
      RunLastIsCurrent(m, url, env, n - 1);
      StepLastIsCurrent(m, Run(m, url, env, n - 1), url, env, n - 1);
    }
  }

  /** One more iteration keeps the last appended tab current. */
  lemma StepLastIsCurrent(m: Manager, r: Manager, url: string, env: Env, i: nat)
    requires |m.tabs| <= |r.tabs| && LastIsCurrent(m, r)
    ensures LastIsCurrent(m, Step(r, url, env, i))
  {
    StepEffect(r, url, env, i);
  }

  /** With clock-based ids the loop keeps the manager valid, however many iterations run. */
  lemma {:induction false} RunValid(m: Manager, url: string, env: Env, n: nat)
    requires !env.crypto && Valid(m) && SerialsBelow(m)
    ensures Valid(Run(m, url, env, n)) && SerialsBelow(Run(m, url, env, n))
  {
    if n > 0 {
      RunValid(m, url, env, n - 1);
      StepValid(Run(m, url, env, n - 1), url, env, n - 1);
    }
  }

  /** One iteration under the clock fallback keeps the manager valid, thrown or not. */
  lemma StepValid(r: Manager, url: string, env: Env, i: nat)
    requires !env.crypto && Valid(r) && SerialsBelow(r)
    ensures Valid(Step(r, url, env, i)) && SerialsBelow(Step(r, url, env, i))
  {
    var next := Step(r, url, env, i);
    if i in env.fails {
      assert next == r.(counter := r.counter + 1);
    } else {
      FallbackCreateKeepsIdsFresh(r, url, env.clock(i));
    }
  }

  /**
    The create button's loop over `createSession(url)`: an iteration that
    throws is logged and skipped, having consumed its id.
   */
  method CreateTabs(m: Manager, url: string, total: nat, env: Env) returns (r: Manager)
    ensures |r.tabs| == |m.tabs| + Succeeded(env.fails, total)
    ensures Extends(m, r, url)
    ensures |r.tabs| > |m.tabs| ==> r.current == Some(r.tabs[|r.tabs| - 1].session.id)
    ensures |r.tabs| == |m.tabs| ==> r.tabs == m.tabs && r.current == m.current
    ensures !env.crypto ==> r.counter == m.counter + total
    ensures !env.crypto && Valid(m) && SerialsBelow(m) ==> Valid(r) && SerialsBelow(r)
    ensures r.status == m.status
  {
    r := m;
    var i := 0;
    while i < total
      invariant 0 <= i <= total
      invariant r == Run(m, url, env, i)
    {
      r := Step(r, url, env, i);
      i := i + 1;
    }
    RunGrows(m, url, env, total);
    RunExtends(m, url, env, total);
    RunLastIsCurrent(m, url, env, total);
    if !env.crypto && Valid(m) && SerialsBelow(m) {
      RunValid(m, url, env, total);
    }
  }
}
