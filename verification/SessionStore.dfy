/** The bounded session table of turbomcp-server: least-recently-used eviction
    and an optional idle timeout. */
module SessionStore {
  import opened Wrappers
  import opened Json

  /** What `initialize` negotiated, with the log level the session opted into. */
  datatype SessionState = SessionState(version: string, clientInfo: Json, capabilities: Json, logLevel: Option<nat>)

  datatype Entry = Entry(state: SessionState, lastSeen: nat)

  type Table = map<string, Entry>

  datatype Op =
    | Insert(id: string, state: SessionState)
    | Get(id: string)
    | Sweep
    | SetLogLevel(id: string, level: nat)
    | Remove(id: string)

  predicate IdleExpired(timeout: Option<nat>, e: Entry, now: nat) {
    timeout.Some? && (if now < e.lastSeen then 0 else now - e.lastSeen) >= timeout.value
  }

  /** A session is idle exactly when at least the timeout has gone by since it was seen;
      a timeout of zero has always gone by. */
  lemma IdleExactly(timeout: Option<nat>, e: Entry, now: nat)
    ensures IdleExpired(timeout, e, now) <==> timeout.Some? && (timeout.value == 0 || now >= e.lastSeen + timeout.value)
  {
  }

  /** No entry was seen before `k`. */
  ghost predicate IsOldest(m: Table, k: string) {
    k in m && forall j | j in m :: m[k].lastSeen <= m[j].lastSeen
  }

  function Live(m: Table, timeout: Option<nat>, now: nat): Table {
    map k | k in m && !IdleExpired(timeout, m[k], now) :: m[k]
  }

  /** What one operation may do to a table bounded at `capacity`. The only choice
      left open is which of several equally old entries is evicted. */
  ghost predicate Next(capacity: nat, timeout: Option<nat>, m: Table, op: Op, now: nat, m': Table) {
    match op
    case Insert(id, state) =>
      if id in m || |m| < capacity then m' == m[id := Entry(state, now)]
      else exists k :: IsOldest(m, k) && m' == (m - {k})[id := Entry(state, now)]
    case Get(id) =>
      if id !in m then m' == m
      else if IdleExpired(timeout, m[id], now) then m' == m - {id}
      else m' == m[id := m[id].(lastSeen := now)]
    case Sweep => m' == Live(m, timeout, now)
    case SetLogLevel(id, level) =>
      if id !in m then m' == m
      else m' == m[id := Entry(m[id].state.(logLevel := Some(level)), now)]
    case Remove(id) => m' == m - {id}
  }

  // ---- the store --------------------------------------------------------------------

  class Store {
    var entries: Table
    const capacity: nat
    const idleTimeout: Option<nat>

    ghost predicate Valid()
      reads this
    {
      1 <= capacity && |entries| <= capacity
    }

    /** Less than the timeout has gone by since `seen`, if there is a timeout. */
    predicate IsRecent(seen: nat, now: nat)
    {
      idleTimeout.None? || (idleTimeout.value > 0 && now < seen + idleTimeout.value)
    }

    constructor (capacity: nat, idleTimeout: Option<nat>)
      ensures Valid() && entries == map[] && this.idleTimeout == idleTimeout
      ensures this.capacity == (if capacity == 0 then 1 else capacity)
    {
      entries := map[];
      this.capacity := if capacity == 0 then 1 else capacity;
      this.idleTimeout := idleTimeout;
    }

    /** `min_by_key` on the last access. */
    method Oldest() returns (oldest: string)
      requires entries != map[]
      ensures IsOldest(entries, oldest)
    {
      oldest :| oldest in entries;
      var ids := entries.Keys - {oldest};
      while ids != {}
        invariant oldest in entries && ids <= entries.Keys
        invariant forall j | j in entries && j !in ids :: entries[oldest].lastSeen <= entries[j].lastSeen
        decreases ids
      {
        var id :| id in ids;
        if entries[id].lastSeen < entries[oldest].lastSeen {
          oldest := id;
        }
        ids := ids - {id};
      }
    }

    method Insert(id: string, state: SessionState, now: nat)
      requires Valid()
      modifies this`entries
      ensures Valid()
      ensures Next(capacity, idleTimeout, old(entries), Op.Insert(id, state), now, entries)
    {
      NextKeepsBound(capacity, idleTimeout, entries);
      if id !in entries && |entries| >= capacity {
        var oldest := Oldest();
        entries := entries - {oldest};
      }
      entries := entries[id := Entry(state, now)];
    }

    method Get(id: string, now: nat) returns (r: Option<SessionState>)
      requires Valid()
      modifies this`entries
      ensures Valid()
      ensures Next(capacity, idleTimeout, old(entries), Op.Get(id), now, entries)
      ensures r == if id in entries then Some(entries[id].state) else None
      ensures r.Some? <==> id in old(entries) && IsRecent(old(entries)[id].lastSeen, now)
    {
      NextKeepsBound(capacity, idleTimeout, entries);
      if id !in entries { return None; }
      var e := entries[id];
      if IdleExpired(idleTimeout, e, now) {
        entries := entries - {id};
        return None;
      }
      entries := entries[id := e.(lastSeen := now)];
      r := Some(e.state);
    }

    /** Returns the sessions it dropped. */
    method SweepExpired(now: nat) returns (expired: set<string>)
      requires Valid()
      modifies this`entries
      ensures Valid()
      ensures Next(capacity, idleTimeout, old(entries), Op.Sweep, now, entries)
      ensures expired == old(entries).Keys - entries.Keys
      ensures forall id | id in old(entries) :: id in expired <==> !IsRecent(old(entries)[id].lastSeen, now)
    {
      NextKeepsBound(capacity, idleTimeout, entries);
      if idleTimeout.None? {
        assert entries == Live(entries, idleTimeout, now);
        return {};
      }
      expired := set k | k in entries && IdleExpired(idleTimeout, entries[k], now);
      entries := entries - expired;
    }

    method SetLogLevel(id: string, level: nat, now: nat) returns (known: bool)
      requires Valid()
      modifies this`entries
      ensures Valid()
      ensures Next(capacity, idleTimeout, old(entries), Op.SetLogLevel(id, level), now, entries)
      ensures known <==> id in old(entries)
    {
      NextKeepsBound(capacity, idleTimeout, entries);
      known := id in entries;
      if known {
        entries := entries[id := Entry(entries[id].state.(logLevel := Some(level)), now)];
      }
    }

    method Remove(id: string) returns (known: bool)
      requires Valid()
      modifies this`entries
      ensures Valid()
      ensures Next(capacity, idleTimeout, old(entries), Op.Remove(id), 0, entries)
      ensures known <==> id in old(entries)
    {
      NextKeepsBound(capacity, idleTimeout, entries);
      known := id in entries;
      entries := entries - {id};
    }
  }

  // ---- sizes ------------------------------------------------------------------------

  lemma SizeOfPut(m: Table, id: string, e: Entry)
    ensures |m[id := e]| == if id in m then |m| else |m| + 1
  {
    assert m[id := e].Keys == m.Keys + {id};
  }

  lemma SizeOfDrop(m: Table, id: string)
    ensures |m - {id}| == if id in m then |m| - 1 else |m|
  {
    assert (m - {id}).Keys == m.Keys - {id};
    if id !in m { assert m.Keys - {id} == m.Keys; }
  }

  lemma SizeOfSubmap(a: Table, b: Table)
    requires a.Keys <= b.Keys
    ensures |a| <= |b|
  {
    SizeOfSubset(a.Keys, b.Keys);
  }

  lemma SizeOfSubset(a: set<string>, b: set<string>)
    requires a <= b
    ensures |a| <= |b|
  {
    assert |b| == |a| + |b - a| by {
      assert b == a + (b - a);
    }
  }

  /** No operation takes a table over its bound. */
  lemma NextKeepsBound(capacity: nat, timeout: Option<nat>, m: Table)
    requires 1 <= capacity && |m| <= capacity
    ensures forall op, now, m' | Next(capacity, timeout, m, op, now, m') :: |m'| <= capacity
  {
    forall op, now, m' | Next(capacity, timeout, m, op, now, m') ensures |m'| <= capacity {
      match op
      case Insert(id, state) =>
        if id in m || |m| < capacity {
          SizeOfPut(m, id, Entry(state, now));
        } else {
          var k :| IsOldest(m, k) && m' == (m - {k})[id := Entry(state, now)];
          SizeOfDrop(m, k);
          SizeOfPut(m - {k}, id, Entry(state, now));
        }
      case Get(id) => SizeOfDrop(m, id); if id in m { SizeOfPut(m, id, m[id].(lastSeen := now)); }
      case Sweep => SizeOfSubmap(m', m);
      case SetLogLevel(id, _) => if id in m { SizeOfPut(m, id, m'[id]); }
      case Remove(id) => SizeOfDrop(m, id);
    }
  }

  // ---- a bigger store keeps everything a smaller one does -----------------------------

  ghost predicate Included(small: Table, big: Table) {
    forall k | k in small :: k in big && small[k] == big[k]
  }

  /** Accesses so far came at distinct readings of the clock, all before `clock`. */
  ghost predicate DistinctTimes(m: Table, clock: nat) {
    && (forall k | k in m :: m[k].lastSeen < clock)
    && (forall j, k | j in m && k in m && m[j].lastSeen == m[k].lastSeen :: j == k)
  }

  /** The bigger table's surplus never exceeds the difference in capacity: so when
      it is full, the smaller one is too. */
  ghost predicate Tracks(c: nat, C: nat, small: Table, big: Table, clock: nat) {
    && Included(small, big)
    && DistinctTimes(big, clock)
    && |small| <= c && |big| <= C
    && |big| + c <= |small| + C
  }

  lemma NextKeepsTimes(capacity: nat, timeout: Option<nat>, m: Table, op: Op, clock: nat, m': Table)
    requires DistinctTimes(m, clock) && Next(capacity, timeout, m, op, clock, m')
    ensures DistinctTimes(m', clock + 1)
  {
  }

  lemma InsertSizes(capacity: nat, timeout: Option<nat>, m: Table, op: Op, now: nat, m': Table)
    requires 1 <= capacity && |m| <= capacity && op.Insert? && Next(capacity, timeout, m, op, now, m')
    ensures |m'| == if op.id in m || |m| == capacity then |m| else |m| + 1
  {
    var e := Entry(op.state, now);
    SizeOfPut(m, op.id, e);
    if op.id !in m && |m| == capacity {
      var k :| IsOldest(m, k) && m' == (m - {k})[op.id := e];
      SizeOfDrop(m, k);
      SizeOfPut(m - {k}, op.id, e);
    }
  }

  /** An entry evicted from the bigger table is the oldest of the smaller one if it is there at all. */
  lemma InsertIncluded(c: nat, C: nat, timeout: Option<nat>, small: Table, big: Table, clock: nat,
                       op: Op, small': Table, big': Table)
    requires 1 <= c <= C && Tracks(c, C, small, big, clock) && op.Insert?
    requires Next(c, timeout, small, op, clock, small') && Next(C, timeout, big, op, clock, big')
    ensures Included(small', big')
  {
    if op.id !in big && |big| == C {
      assert |small| == c;
      var e := Entry(op.state, clock);
      var b :| IsOldest(big, b) && big' == (big - {b})[op.id := e];
      var k :| IsOldest(small, k) && small' == (small - {k})[op.id := e];
      if b in small {
        assert small[k].lastSeen == small[b].lastSeen;
        assert k == b;
      }
    }
  }

  lemma InsertTracks(c: nat, C: nat, timeout: Option<nat>, small: Table, big: Table, clock: nat,
                     op: Op, small': Table, big': Table)
    requires 1 <= c <= C && Tracks(c, C, small, big, clock) && op.Insert?
    requires Next(c, timeout, small, op, clock, small') && Next(C, timeout, big, op, clock, big')
    ensures Tracks(c, C, small', big', clock + 1)
  {
    InsertSizes(c, timeout, small, op, clock, small');
    InsertSizes(C, timeout, big, op, clock, big');
    InsertIncluded(c, C, timeout, small, big, clock, op, small', big');
    NextKeepsTimes(C, timeout, big, op, clock, big');
    if op.id in big && op.id !in small {
      SurplusSize(small, big);
      assert op.id in big.Keys - small.Keys;
    }
  }

  lemma SweepTracks(c: nat, C: nat, timeout: Option<nat>, small: Table, big: Table, clock: nat)
    requires 1 <= c <= C && Tracks(c, C, small, big, clock)
    ensures Tracks(c, C, Live(small, timeout, clock), Live(big, timeout, clock), clock + 1)
  {
    var small', big' := Live(small, timeout, clock), Live(big, timeout, clock);
    SizeOfSubmap(small', small);
    SizeOfSubmap(big', big);
    // What only the bigger table holds, before and after.
    SurplusSize(small, big);
    SurplusSize(small', big');
    SizeOfSubset(big'.Keys - small'.Keys, big.Keys - small.Keys);
  }

  lemma SurplusSize(small: Table, big: Table)
    requires Included(small, big)
    ensures |big| == |small| + |big.Keys - small.Keys|
  {
    assert big.Keys == small.Keys + (big.Keys - small.Keys);
  }

  lemma TouchSizes(capacity: nat, timeout: Option<nat>, m: Table, op: Op, now: nat, m': Table)
    requires op.Get? || op.SetLogLevel? || op.Remove?
    requires Next(capacity, timeout, m, op, now, m')
    ensures |m'| == if op.id in m && op.id !in m' then |m| - 1 else |m|
  {
    SizeOfDrop(m, op.id);
    if op.id in m && op.id in m' {
      assert m' == m[op.id := m'[op.id]];
      SizeOfPut(m, op.id, m'[op.id]);
    }
  }

  lemma TouchTracks(c: nat, C: nat, timeout: Option<nat>, small: Table, big: Table, clock: nat,
                    op: Op, small': Table, big': Table)
    requires 1 <= c <= C && Tracks(c, C, small, big, clock)
    requires op.Get? || op.SetLogLevel? || op.Remove?
    requires Next(c, timeout, small, op, clock, small') && Next(C, timeout, big, op, clock, big')
    ensures Tracks(c, C, small', big', clock + 1)
  {
    TouchSizes(c, timeout, small, op, clock, small');
    TouchSizes(C, timeout, big, op, clock, big');
    NextKeepsTimes(C, timeout, big, op, clock, big');
    TouchIncluded(c, C, timeout, small, big, op, clock, small', big');
  }

  lemma TouchIncluded(c: nat, C: nat, timeout: Option<nat>, small: Table, big: Table, op: Op, clock: nat,
                      small': Table, big': Table)
    requires Included(small, big) && (op.Get? || op.SetLogLevel? || op.Remove?)
    requires Next(c, timeout, small, op, clock, small') && Next(C, timeout, big, op, clock, big')
    ensures Included(small', big') && (op.id in small && op.id !in small' <==> op.id in small && op.id !in big')
  {
  }

  lemma StepTracks(c: nat, C: nat, timeout: Option<nat>, small: Table, big: Table, clock: nat,
                   op: Op, small': Table, big': Table)
    requires 1 <= c <= C && Tracks(c, C, small, big, clock)
    requires Next(c, timeout, small, op, clock, small') && Next(C, timeout, big, op, clock, big')
    ensures Tracks(c, C, small', big', clock + 1)
  {
    match op
    case Insert(_, _) => InsertTracks(c, C, timeout, small, big, clock, op, small', big');
    case Sweep => SweepTracks(c, C, timeout, small, big, clock);
    case _ => TouchTracks(c, C, timeout, small, big, clock, op, small', big');
  }

  /** A history: each operation with the clock reading it took, and the tables between. */
  ghost predicate IsHistory(capacity: nat, timeout: Option<nat>, ops: seq<(Op, nat)>, ms: seq<Table>) {
    && |ms| == |ops| + 1 && ms[0] == map[]
    && forall i | 0 <= i < |ops| :: IsStep(capacity, timeout, ops, ms, i)
  }

  ghost predicate IsStep(capacity: nat, timeout: Option<nat>, ops: seq<(Op, nat)>, ms: seq<Table>, i: nat)
    requires i < |ops| && |ms| == |ops| + 1
  {
    Next(capacity, timeout, ms[i], ops[i].0, ops[i].1, ms[i + 1])
  }

  ghost predicate ClockRises(ops: seq<(Op, nat)>) {
    forall i, j | 0 <= i < j < |ops| :: ops[i].1 < ops[j].1
  }

  /** When the `i`-th operation may take its reading. */
  function ClockBefore(ops: seq<(Op, nat)>, i: nat): nat
    requires i <= |ops|
  {
    if i == 0 then 0 else ops[i - 1].1 + 1
  }

  lemma HistoryStep(c: nat, C: nat, timeout: Option<nat>, ops: seq<(Op, nat)>, small: seq<Table>, big: seq<Table>, i: nat)
    requires 1 <= c <= C && ClockRises(ops) && i < |ops|
    requires IsHistory(c, timeout, ops, small) && IsHistory(C, timeout, ops, big)
    requires Tracks(c, C, small[i], big[i], ClockBefore(ops, i))
    ensures Tracks(c, C, small[i + 1], big[i + 1], ops[i].1 + 1)
  {
    assert IsStep(c, timeout, ops, small, i) && IsStep(C, timeout, ops, big, i);
    TracksLater(c, C, small[i], big[i], ClockBefore(ops, i), ops[i].1);
    StepTracks(c, C, timeout, small[i], big[i], ops[i].1, ops[i].0, small[i + 1], big[i + 1]);
  }

  lemma TracksLater(c: nat, C: nat, small: Table, big: Table, clock: nat, later: nat)
    requires Tracks(c, C, small, big, clock) && clock <= later
    ensures Tracks(c, C, small, big, later)
  {
  }

  lemma {:induction false} HistoriesTrack(c: nat, C: nat, timeout: Option<nat>, ops: seq<(Op, nat)>,
                                          small: seq<Table>, big: seq<Table>, i: nat)
    requires 1 <= c <= C && ClockRises(ops) && i <= |ops|
    requires IsHistory(c, timeout, ops, small) && IsHistory(C, timeout, ops, big)
    ensures Tracks(c, C, small[i], big[i], ClockBefore(ops, i))
  {
    if i > 0 {
      HistoriesTrack(c, C, timeout, ops, small, big, i - 1);
      HistoryStep(c, C, timeout, ops, small, big, i - 1);
    }
  }

  /** On the same operations, with removals, idle expiry and misses anywhere among
      them, every session a store keeps is kept by any bigger store, with the same
      state and recency; and each stays within its capacity. */
  lemma BiggerIncludesSmaller(c: nat, C: nat, timeout: Option<nat>, ops: seq<(Op, nat)>,
                              small: seq<Table>, big: seq<Table>, i: nat)
    requires 1 <= c <= C && ClockRises(ops) && i <= |ops|
    requires IsHistory(c, timeout, ops, small) && IsHistory(C, timeout, ops, big)
    ensures Included(small[i], big[i]) && |small[i]| <= c && |big[i]| <= C
    ensures |big[i]| - |small[i]| <= C - c
  {
    HistoriesTrack(c, C, timeout, ops, small, big, i);
  }
}
