/** The core task registry of turbomcp-server: session-scoped tasks whose
    outcome a client can block on, and paginated listing. */
module TaskStore {
  import opened Wrappers
  import opened Json
  import opened Decimal

  datatype Status = Working | Completed | Failed | Cancelled
  {
    predicate IsTerminal() { Completed? || Failed? || Cancelled? }
  }

  datatype RpcError = RpcError(code: int, message: string)

  type Outcome = Result<Json, RpcError>

  datatype TaskError = NotFound | AlreadyTerminal | CapacityExhausted

  /** `version` is the watch channel's: it moves on every status transition, and
      the channel closes when the entry is dropped. */
  datatype Entry = Entry(
    session: string,
    status: Status,
    statusMessage: Option<string>,
    created: nat,
    ttlMs: nat,
    outcome: Option<Outcome>,
    token: nat,
    version: nat)

  type Table = map<string, Entry>

  const DEFAULT_TTL_MS: int := 300_000
  const MAX_TTL_MS: int := 3_600_000
  const NANOS_PER_MILLI: nat := 1_000_000

  const CANCELLED_OUTCOME: Outcome := Err(RpcError(-32010, "task cancelled"))

  // ---- one task -------------------------------------------------------------------------

  function Clamp(ttl: int): (r: nat)
    ensures r <= MAX_TTL_MS && (0 <= ttl <= MAX_TTL_MS ==> r == ttl)
  {
    if ttl < 0 then 0 else if ttl > MAX_TTL_MS then MAX_TTL_MS else ttl
  }

  function NewEntry(session: string, requested: Option<int>, token: nat, now: nat): Entry {
    Entry(session, Working, None, now,
          Clamp(if requested.Some? then requested.value else DEFAULT_TTL_MS), None, token, 0)
  }

  predicate Expired(e: Entry, now: nat) {
    (if now < e.created then 0 else now - e.created) > e.ttlMs * NANOS_PER_MILLI
  }

  /** A task has expired exactly once more than its lifetime has gone by. */
  lemma ExpiredExactly(e: Entry, now: nat)
    ensures Expired(e, now) <==> now > e.created + e.ttlMs * 1_000_000
  {
  }

  /** The lifetime asked for, five minutes by default, but never negative or more than an
      hour. */
  lemma LifetimeExactly(session: string, requested: Option<int>, token: nat, now: nat)
    ensures var ms := NewEntry(session, requested, token, now).ttlMs;
            && 0 <= ms <= 3_600_000
            && (requested.None? ==> ms == 300_000)
            && (requested.Some? ==>
                  ms == requested.value || (requested.value < 0 && ms == 0) || (requested.value > 3_600_000 && ms == 3_600_000))
  {
  }

  function CompleteEntry(e: Entry, outcome: Outcome): Entry {
    if e.status.IsTerminal() then e
    else e.(status := if outcome.Ok? then Completed else Failed,
            statusMessage := if outcome.Err? then Some(outcome.error.message) else e.statusMessage,
            outcome := Some(outcome),
            version := e.version + 1)
  }

  function CancelEntry(e: Entry): Entry {
    if e.status.IsTerminal() then e
    else e.(status := Cancelled,
            statusMessage := Some("the task was cancelled by request"),
            outcome := Some(CANCELLED_OUTCOME),
            version := e.version + 1)
  }

  /** A task has an outcome exactly once it is terminal, and the kind its status says. */
  ghost predicate EntryOk(e: Entry) {
    && (e.outcome.Some? <==> e.status.IsTerminal())
    && (e.status.Completed? ==> e.outcome.value.Ok?)
    && (e.status.Failed? ==> e.outcome.value.Err?)
    && (e.status.Cancelled? ==> e.outcome.value == CANCELLED_OUTCOME)
  }

  function Purged(m: Table, now: nat): Table {
    map id | id in m && !Expired(m[id], now) :: m[id]
  }

  function PurgedTokens(m: Table, now: nat): set<nat> {
    set id | id in m && Expired(m[id], now) && !m[id].status.IsTerminal() :: m[id].token
  }

  /** A purge keeps exactly the tasks within their lifetimes. */
  lemma PurgeExactly(m: Table, now: nat)
    ensures forall id :: id in Purged(m, now) <==> id in m && now <= m[id].created + m[id].ttlMs * 1_000_000
    ensures forall id | id in Purged(m, now) :: Purged(m, now)[id] == m[id]
  {
  }

  /** And fires the tokens of exactly the working tasks it drops. */
  lemma PurgeFires(m: Table, now: nat)
    ensures forall t :: t in PurgedTokens(m, now) <==>
              exists id | id in m && id !in Purged(m, now) :: m[id].token == t && m[id].status == Working
  {
  }

  /** What a waiter is answered after each transition of a working task: the result or the
      error it ended with, the cancellation error if it was cancelled. Its message says
      as much, and terminal tasks stay as they are. */
  lemma AnswersExactly(m: Table, id: string, e: Entry, outcome: Outcome, other: string)
    requires EntryOk(e)
    ensures e.status == Working ==>
              && WaitPass(m[id := e], e.session, id) == Park(e.version)
              && WaitPass(m[id := CompleteEntry(e, outcome)], e.session, id) == Answer(Ok(outcome))
              && WaitPass(m[id := CancelEntry(e)], e.session, id) == Answer(Ok(Err(RpcError(-32010, "task cancelled"))))
              && CancelEntry(e).statusMessage == Some("the task was cancelled by request")
              && (outcome.Ok? ==> CompleteEntry(e, outcome).statusMessage == e.statusMessage)
              && (outcome.Err? ==> CompleteEntry(e, outcome).statusMessage == Some(outcome.error.message))
    ensures e.status != Working ==> CompleteEntry(e, outcome) == CancelEntry(e) == e
    ensures other != e.session ==> WaitPass(m[id := e], other, id) == Answer(Err(NotFound))
  {
  }

  // ---- one pass of `wait_result` under the lock --------------------------------------------

  datatype Pass = Answer(result: Result<Outcome, TaskError>) | Park(version: nat)

  const NO_OUTCOME: Outcome := Err(RpcError(-32603, "task finished without an outcome"))

  /** What a waiter does on the purged table: answer, or subscribe and wait. */
  function WaitPass(m: Table, session: string, id: string): Pass {
    if id !in m || m[id].session != session then Answer(Err(NotFound))
    else if m[id].status.IsTerminal() then
      Answer(Ok(if m[id].outcome.Some? then m[id].outcome.value else NO_OUTCOME))
    else Park(m[id].version)
  }

  // ---- listing ------------------------------------------------------------------------------

  /** This session's tasks, oldest first. */
  ghost predicate IsListing(m: Table, session: string, xs: seq<string>) {
    && Sorted(m, xs)
    && (forall id :: id in xs <==> id in m && m[id].session == session)
  }

  /** One page of a listing and the cursor of the next. */
  function Page(xs: seq<string>, cursor: Option<string>, size: nat): Result<(seq<string>, Option<string>), TaskError> {
    var parsed := if cursor.None? then Some(0) else ParseUsize(cursor.value);
    if parsed.None? then Err(NotFound)
    else
      var from := if parsed.value > |xs| then |xs| else parsed.value;
      var to := if from + size > |xs| then |xs| else from + size;
      var end := parsed.value + (to - from);
      Ok((xs[from..to], if end < |xs| then Some(Render(end)) else None))
  }

  // ---- the registry -------------------------------------------------------------------------

  class Registry {
    var entries: Table
    var fired: set<nat>
    const capacity: nat

    ghost predicate Valid()
      reads this
    {
      && |entries| <= capacity
      && (forall id | id in entries :: EntryOk(entries[id]))
      && (forall id | id in entries && entries[id].status.Cancelled? :: entries[id].token in fired)
    }

    constructor (capacity: nat)
      ensures Valid() && entries == map[] && fired == {} && this.capacity == capacity
    {
      this.capacity := capacity;
      entries, fired := map[], {};
    }

    method PurgeExpired(now: nat)
      requires Valid()
      modifies this
      ensures Valid()
      ensures entries == Purged(old(entries), now)
      ensures fired == old(fired) + PurgedTokens(old(entries), now)
    {
      PurgedSize(entries, now);
      var kept, tokens := Sweep(entries, now);
      entries, fired := kept, fired + tokens;
    }

    static method Sweep(m: Table, now: nat) returns (kept: Table, tokens: set<nat>)
      ensures kept == Purged(m, now) && tokens == PurgedTokens(m, now)
    {
      kept, tokens := map[], {};
      var ids := m.Keys;
      while ids != {}
        invariant ids <= m.Keys
        invariant kept == map id | id in m && id !in ids && !Expired(m[id], now) :: m[id]
        invariant tokens == set id | id in m && id !in ids && Expired(m[id], now) && !m[id].status.IsTerminal() :: m[id].token
        decreases ids
      {
        var id :| id in ids;
        if !Expired(m[id], now) {
          kept := kept[id := m[id]];
        } else if !m[id].status.IsTerminal() {
          tokens := tokens + {m[id].token};
        }
        ids := ids - {id};
      }
    }

    /** `id` stands for a fresh UUID. */
    method Create(session: string, requested: Option<int>, token: nat, id: string, now: nat)
      returns (r: Result<string, TaskError>)
      requires Valid() && id !in entries
      modifies this
      ensures Valid()
      ensures fired == old(fired) + PurgedTokens(old(entries), now)
      ensures r == if |Purged(old(entries), now)| >= capacity then Err(CapacityExhausted) else Ok(id)
      ensures entries == if r.Ok? then Purged(old(entries), now)[id := NewEntry(session, requested, token, now)]
                         else Purged(old(entries), now)
    {
      PurgeExpired(now);
      if |entries| >= capacity { return Err(CapacityExhausted); }
      entries := entries[id := NewEntry(session, requested, token, now)];
      r := Ok(id);
    }

    method Complete(id: string, outcome: Outcome)
      requires Valid()
      modifies this`entries
      ensures Valid()
      ensures entries == if id in old(entries) then old(entries)[id := CompleteEntry(old(entries)[id], outcome)]
                         else old(entries)
    {
      if id !in entries { return; }
      var e := entries[id];
      if e.status.IsTerminal() {
        assert entries == entries[id := e];
        return;
      }
      e := e.(status := if outcome.Ok? then Completed else Failed);
      if outcome.Err? {
        e := e.(statusMessage := Some(outcome.error.message));
      }
      entries := entries[id := e.(outcome := Some(outcome), version := e.version + 1)];
    }

    method Cancel(session: string, id: string, now: nat) returns (r: Result<Status, TaskError>)
      requires Valid()
      modifies this
      ensures Valid()
      ensures var base := Purged(old(entries), now);
              if id !in base || base[id].session != session then
                r == Err(NotFound) && entries == base && fired == old(fired) + PurgedTokens(old(entries), now)
              else if base[id].status.IsTerminal() then
                r == Err(AlreadyTerminal) && entries == base && fired == old(fired) + PurgedTokens(old(entries), now)
              else
                && r == Ok(Cancelled) && entries == base[id := CancelEntry(base[id])]
                && fired == old(fired) + PurgedTokens(old(entries), now) + {base[id].token}
    {
      PurgeExpired(now);
      if id !in entries || entries[id].session != session { return Err(NotFound); }
      var e := entries[id];
      if e.status.IsTerminal() { return Err(AlreadyTerminal); }
      fired := fired + {e.token};
      entries := entries[id := CancelEntry(e)];
      r := Ok(Cancelled);
    }

    method Get(session: string, id: string, now: nat) returns (r: Result<Entry, TaskError>)
      requires Valid()
      modifies this
      ensures Valid()
      ensures entries == Purged(old(entries), now) && fired == old(fired) + PurgedTokens(old(entries), now)
      ensures r == if id in entries && entries[id].session == session then Ok(entries[id]) else Err(NotFound)
    {
      PurgeExpired(now);
      r := if id in entries && entries[id].session == session then Ok(entries[id]) else Err(NotFound);
    }

    /** The locked section of `wait_result`; a terminal task is never without its outcome. */
    method WaitUnderLock(session: string, id: string, now: nat) returns (r: Pass)
      requires Valid()
      modifies this
      ensures Valid()
      ensures entries == Purged(old(entries), now) && fired == old(fired) + PurgedTokens(old(entries), now)
      ensures r == WaitPass(entries, session, id)
      ensures r.Answer? && r.result.Ok? ==> entries[id].outcome == Some(r.result.value)
    {
      PurgeExpired(now);
      r := WaitPass(entries, session, id);
    }

    /** A malformed cursor is refused before the table is touched. */
    method List(session: string, cursor: Option<string>, size: nat, now: nat)
      returns (r: Result<(seq<string>, Option<string>), TaskError>)
      requires Valid()
      modifies this
      ensures Valid()
      ensures if cursor.Some? && ParseUsize(cursor.value).None?
              then r == Err(NotFound) && entries == old(entries) && fired == old(fired)
              else
                && entries == Purged(old(entries), now) && fired == old(fired) + PurgedTokens(old(entries), now)
                && exists xs :: IsListing(entries, session, xs) && r == Page(xs, cursor, size)
    {
      if cursor.Some? && ParseUsize(cursor.value).None? { return Err(NotFound); }
      PurgeExpired(now);
      var xs := SortByCreated(entries, session);
      r := Page(xs, cursor, size);
    }

    /** Filter by session, then insert each task behind those created no later. */
    static method SortByCreated(m: Table, session: string) returns (xs: seq<string>)
      ensures IsListing(m, session, xs)
    {
      xs := [];
      var ids := m.Keys;
      while ids != {}
        invariant ids <= m.Keys
        invariant Sorted(m, xs)
        invariant forall id :: id in xs <==> id in m && id !in ids && m[id].session == session
        decreases ids
      {
        var id :| id in ids;
        if m[id].session == session {
          xs := InsertSorted(m, xs, id);
        }
        ids := ids - {id};
      }
    }

    static method InsertSorted(m: Table, xs: seq<string>, id: string) returns (r: seq<string>)
      requires Sorted(m, xs) && id in m && id !in xs
      ensures Sorted(m, r) && forall x :: x in r <==> x in xs || x == id
    {
      var k := |xs|;
      while k > 0 && m[xs[k - 1]].created > m[id].created
        invariant 0 <= k <= |xs|
        invariant forall i | k <= i < |xs| :: m[xs[i]].created > m[id].created
      {
        k := k - 1;
      }
      SpliceSorted(m, xs, k, id);
      r := xs[..k] + [id] + xs[k..];
    }
  }

  /** Distinct tasks of the table, oldest first. */
  ghost predicate Sorted(m: Table, xs: seq<string>) {
    && (forall i | 0 <= i < |xs| :: xs[i] in m)
    && (forall i, j | 0 <= i < j < |xs| :: xs[i] != xs[j] && m[xs[i]].created <= m[xs[j]].created)
  }

  lemma SpliceSorted(m: Table, xs: seq<string>, k: nat, id: string)
    requires Sorted(m, xs) && id in m && id !in xs && k <= |xs|
    requires k > 0 ==> m[xs[k - 1]].created <= m[id].created
    requires forall i | k <= i < |xs| :: m[xs[i]].created > m[id].created
    ensures Sorted(m, xs[..k] + [id] + xs[k..])
    ensures forall x :: x in xs[..k] + [id] + xs[k..] <==> x in xs || x == id
  {
    var r := xs[..k] + [id] + xs[k..];
    forall i, j | 0 <= i < j < |r| ensures r[i] != r[j] && m[r[i]].created <= m[r[j]].created {
      assert r[i] == if i < k then xs[i] else if i == k then id else xs[i - 1];
      assert r[j] == if j < k then xs[j] else if j == k then id else xs[j - 1];
      if j == k && i < k - 1 {
        assert m[xs[i]].created <= m[xs[k - 1]].created;
      }
    }
    assert xs == xs[..k] + xs[k..];
  }

  lemma PurgedSize(m: Table, now: nat)
    ensures |Purged(m, now)| <= |m|
  {
    var kept := Purged(m, now).Keys;
    assert m.Keys == kept + (m.Keys - kept);
  }

  // ---- following cursors --------------------------------------------------------------------

  /** A client following cursors from `cursor`: what it has collected after at most
      `requests` requests, if by then it was told there is no more. */
  function Follow(xs: seq<string>, cursor: Option<string>, size: nat, requests: nat): Option<seq<string>>
    decreases requests
  {
    if requests == 0 then None
    else match Page(xs, cursor, size)
      case Err(_) => None
      case Ok((page, next)) =>
        if next.None? then Some(page)
        else match Follow(xs, next, size, requests - 1)
          case None => None
          case Some(rest) => Some(page + rest)
  }

  lemma PageFrom(xs: seq<string>, cursor: Option<string>, from: nat, size: nat)
    requires |xs| < USIZE_LIMIT && from <= |xs|
    requires cursor == Some(Render(from)) || (cursor.None? && from == 0)
    ensures from + size >= |xs| ==> Page(xs, cursor, size) == Ok((xs[from..], None))
    ensures from + size < |xs| ==> Page(xs, cursor, size) == Ok((xs[from..from + size], Some(Render(from + size))))
  {
    ParseOfRender(from);
    assert xs[from..|xs|] == xs[from..];
  }

  lemma {:induction false} FollowFrom(xs: seq<string>, cursor: Option<string>, from: nat, size: nat, requests: nat)
    requires |xs| < USIZE_LIMIT && size >= 1 && from <= |xs| && requests > |xs| - from
    requires cursor == Some(Render(from)) || (cursor.None? && from == 0)
    ensures Follow(xs, cursor, size, requests) == Some(xs[from..])
    decreases requests
  {
    PageFrom(xs, cursor, from, size);
    if from + size < |xs| {
      var next, left := from + size, requests - 1;
      var token := Render(next);
      FollowFrom(xs, Some(token), next, size, left);
      FollowOn(xs, cursor, xs[from..next], token, xs[next..], size, left, requests);
      SliceSplits(xs, from, next);
    } else {
      FollowLast(xs, cursor, xs[from..], size, requests);
    }
  }

  lemma SliceSplits(xs: seq<string>, from: nat, next: nat)
    requires from <= next <= |xs|
    ensures xs[from..] == xs[from..next] + xs[next..]
  {
  }

  lemma FollowLast(xs: seq<string>, cursor: Option<string>, page: seq<string>, size: nat, requests: nat)
    requires Page(xs, cursor, size) == Ok((page, None)) && requests > 0
    ensures Follow(xs, cursor, size, requests) == Some(page)
  {
  }

  lemma FollowOn(xs: seq<string>, cursor: Option<string>, page: seq<string>, token: string, rest: seq<string>,
                 size: nat, left: nat, requests: nat)
    requires Page(xs, cursor, size) == Ok((page, Some(token))) && requests == left + 1
    requires Follow(xs, Some(token), size, left) == Some(rest)
    ensures Follow(xs, cursor, size, requests) == Some(page + rest)
  {
  }

  lemma {:induction false} EmptyPagesNeverEnd(xs: seq<string>, cursor: Option<string>, requests: nat)
    requires xs != [] && |xs| < USIZE_LIMIT && (cursor.None? || cursor == Some(Render(0)))
    ensures Follow(xs, cursor, 0, requests).None?
    decreases requests
  {
    if requests > 0 {
      PageFrom(xs, cursor, 0, 0);
      EmptyPagesNeverEnd(xs, Some(Render(0)), requests - 1);
    }
  }

  /** Following cursors over a table that does not change ends, and then has every
      task of the session once, oldest first, exactly when a page has room for a
      task or there is none to list. */
  lemma PaginationExactly(xs: seq<string>, size: nat)
    requires |xs| < USIZE_LIMIT
    ensures (exists requests :: Follow(xs, None, size, requests) == Some(xs)) <==> size >= 1 || xs == []
    ensures size >= 1 ==> Follow(xs, None, size, |xs| + 1) == Some(xs)
  {
    if size >= 1 {
      FollowFrom(xs, None, 0, size, |xs| + 1);
      assert xs[0..] == xs;
    } else if xs == [] {
      assert Follow(xs, None, size, 1) == Some(xs);
    } else {
      forall requests: nat ensures Follow(xs, None, size, requests).None? {
        EmptyPagesNeverEnd(xs, None, requests);
      }
    }
  }
}
