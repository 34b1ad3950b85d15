/**
 The draft Tasks registry of turbomcp-ext-tasks: tasks by unguessable id, five
 statuses, in-execution client input under keys that are never reused, and
 lazy purging of expired tasks.

 The pure functions say what each operation does to one task; the class holds
 the table and its methods are proved to do exactly that.
 */
module DraftTaskStore {
  import opened Wrappers
  import opened Json
  import opened Decimal

  datatype Status = Working | InputRequired | Completed | Failed | Cancelled
  {
    predicate IsTerminal() { Completed? || Failed? || Cancelled? }
  }

  datatype RpcError = RpcError(code: int, message: string)

  datatype Outcome = CompletedWith(result: Json) | FailedWith(error: RpcError)

  /** `waiters` maps an outstanding key to the one-shot channel of the handler
      awaiting it; channels and cancellation tokens are numbered. */
  datatype Entry = Entry(
    status: Status,
    statusMessage: Option<string>,
    created: nat,
    ttlMs: Option<int>,
    outcome: Option<Outcome>,
    token: nat,
    outstanding: map<string, Json>,
    waiters: map<string, nat>,
    used: set<string>)

  /** What `tasks/get` answers: `inputRequests` is present only while input is required. */
  datatype DetailedTask = DetailedTask(
    status: Status,
    statusMessage: Option<string>,
    ttlMs: Option<int>,
    inputRequests: Option<map<string, Json>>,
    result: Option<Json>,
    error: Option<RpcError>)

  type Table = map<string, Entry>

  const NANOS_PER_MILLI: nat := 1_000_000

  // ---- one task --------------------------------------------------------------

  function Elapsed(since: nat, now: nat): nat {
    if now < since then 0 else now - since
  }

  /** A missing or zero `ttlMs` never expires; a negative one counts as zero. */
  predicate Expired(e: Entry, now: nat) {
    match e.ttlMs
    case None => false
    case Some(ms) =>
      ms != 0 && Elapsed(e.created, now) > (if ms < 0 then 0 else ms) * NANOS_PER_MILLI
  }

  /** A task has expired exactly once more than its lifetime has gone by, if it has one:
      a negative lifetime is over at once, zero or none is for ever. */
  lemma ExpiredExactly(e: Entry, now: nat)
    ensures Expired(e, now) <==>
            && e.ttlMs.Some? && e.ttlMs.value != 0
            && now > e.created
            && (e.ttlMs.value > 0 ==> now > e.created + e.ttlMs.value * 1_000_000)
  {
  }

  function NewEntry(ttlMs: Option<int>, token: nat, now: nat): Entry {
    Entry(Working, None, now, ttlMs, None, token, map[], map[], {})
  }

  function Detailed(e: Entry): DetailedTask {
    DetailedTask(
      e.status, e.statusMessage, e.ttlMs,
      if e.status.InputRequired? then Some(e.outstanding) else None,
      if e.outcome.Some? && e.outcome.value.CompletedWith? then Some(e.outcome.value.result) else None,
      if e.outcome.Some? && e.outcome.value.FailedWith? then Some(e.outcome.value.error) else None)
  }

  /** `complete`: the first terminal transition wins. Outstanding input is left as it is. */
  function CompleteEntry(e: Entry, outcome: Outcome): Entry {
    if e.status.IsTerminal() then e
    else match outcome
      case CompletedWith(_) => e.(status := Completed, outcome := Some(outcome))
      case FailedWith(error) =>
        e.(status := Failed, statusMessage := Some(error.message), outcome := Some(outcome))
  }

  /** `cancel`: a live task stops advertising its requests and drops its senders. */
  function CancelEntry(e: Entry): Entry {
    if e.status.IsTerminal() then e
    else e.(status := Cancelled, statusMessage := Some("the task was cancelled by request"),
            outstanding := map[], waiters := map[])
  }

  function PublishEntry(e: Entry, unique: string, request: Json, channel: nat): Entry {
    e.(used := e.used + {unique},
       outstanding := e.outstanding[unique := request],
       waiters := e.waiters[unique := channel],
       status := if e.status.Working? then InputRequired else e.status)
  }

  /** The keys of `responses` that resolve a waiting handler. */
  function Resolved(e: Entry, responses: map<string, Json>): set<string> {
    e.outstanding.Keys * e.waiters.Keys * responses.Keys
  }

  function DeliverEntry(e: Entry, responses: map<string, Json>): Entry {
    var hit := Resolved(e, responses);
    var rest := e.outstanding - hit;
    e.(outstanding := rest, waiters := e.waiters - hit,
       status := if e.status.InputRequired? && rest == map[] then Working else e.status)
  }

  /** `key#n`, the n-th variant of a handler's key. */
  function Numbered(key: string, n: nat): string { key + "#" + Render(n) }

  /** `unique` is the key itself when fresh, else the first free numbered variant. */
  ghost predicate IsUniqueVariant(used: set<string>, key: string, unique: string) {
    && unique !in used
    && (unique != key ==>
        && key in used
        && exists n: nat :: n >= 2 && unique == Numbered(key, n) && forall m: nat | 2 <= m < n :: Numbered(key, m) in used)
  }

  // ---- what holds of every task ------------------------------------------------

  ghost predicate Injective(m: map<string, nat>) {
    forall k1, k2 | k1 in m && k2 in m && m[k1] == m[k2] :: k1 == k2
  }

  /** Waiting handlers match advertised requests, under keys that were issued;
      a live task requires input exactly when something is outstanding; and an
      outcome is recorded exactly by completion and failure. */
  ghost predicate EntryOk(e: Entry) {
    && e.waiters.Keys == e.outstanding.Keys
    && e.outstanding.Keys <= e.used
    && Injective(e.waiters)
    && (!e.status.IsTerminal() ==> (e.status.InputRequired? <==> e.outstanding != map[]))
    && (e.outcome.Some? <==> e.status.Completed? || e.status.Failed?)
    && (e.outcome.Some? ==> (e.outcome.value.CompletedWith? <==> e.status.Completed?))
  }

  lemma CompleteKeepsOk(e: Entry, outcome: Outcome)
    requires EntryOk(e)
    ensures EntryOk(CompleteEntry(e, outcome))
  {
  }

  lemma CancelKeepsOk(e: Entry)
    requires EntryOk(e)
    ensures EntryOk(CancelEntry(e))
  {
  }

  lemma PublishKeepsOk(e: Entry, unique: string, request: Json, channel: nat)
    requires EntryOk(e) && !e.status.IsTerminal() && unique !in e.used && channel !in e.waiters.Values
    ensures EntryOk(PublishEntry(e, unique, request, channel))
  {
    var e' := PublishEntry(e, unique, request, channel);
    assert unique in e'.outstanding;
    forall k1, k2 | k1 in e'.waiters && k2 in e'.waiters && e'.waiters[k1] == e'.waiters[k2] ensures k1 == k2 {
      if k1 != unique { assert e.waiters[k1] in e.waiters.Values; }
      if k2 != unique { assert e.waiters[k2] in e.waiters.Values; }
    }
  }

  lemma DeliverKeepsOk(e: Entry, responses: map<string, Json>)
    requires EntryOk(e)
    ensures EntryOk(DeliverEntry(e, responses))
    ensures Resolved(e, responses) == e.outstanding.Keys * responses.Keys
  {
    var e' := DeliverEntry(e, responses);
    assert e'.waiters.Keys == e'.outstanding.Keys;
  }

  // ---- the registry ------------------------------------------------------------

  function Purged(entries: Table, now: nat): Table {
    map id | id in entries && !Expired(entries[id], now) :: entries[id]
  }

  /** The tokens `purge_expired` fires: those of expired tasks still live. */
  function PurgedTokens(entries: Table, now: nat): set<nat> {
    set id | id in entries && Expired(entries[id], now) && !entries[id].status.IsTerminal() :: entries[id].token
  }

  /** A purge keeps exactly the tasks within their lifetimes, and fires the tokens of
      exactly the live tasks it drops. */
  lemma PurgeExactly(entries: Table, now: nat)
    ensures forall id :: id in Purged(entries, now) <==>
              id in entries &&
              (var e := entries[id];
               e.ttlMs.None? || e.ttlMs.value == 0 || now <= e.created ||
               (e.ttlMs.value > 0 && now <= e.created + e.ttlMs.value * 1_000_000))
    ensures forall id | id in Purged(entries, now) :: Purged(entries, now)[id] == entries[id]
    ensures forall t :: t in PurgedTokens(entries, now) <==>
              exists id | id in entries && id !in Purged(entries, now) ::
                entries[id].token == t && entries[id].status in {Working, InputRequired}
  {
    forall id | id in entries ensures id in Purged(entries, now) <==> !Expired(entries[id], now) {
      ExpiredExactly(entries[id], now);
    }
  }

  /** What `tasks/get` answers after each transition of a live task, and that terminal
      ones stay as they are. */
  lemma ViewsExactly(e: Entry, ttlMs: Option<int>, token: nat, now: nat, v: Json, error: RpcError)
    requires EntryOk(e)
    ensures Detailed(NewEntry(ttlMs, token, now)) == DetailedTask(Working, None, ttlMs, None, None, None)
    ensures e.status in {Working, InputRequired} ==>
              && Detailed(CompleteEntry(e, CompletedWith(v))) == DetailedTask(Completed, e.statusMessage, e.ttlMs, None, Some(v), None)
              && Detailed(CompleteEntry(e, FailedWith(error))) ==
                 DetailedTask(Failed, Some(error.message), e.ttlMs, None, None, Some(error))
              && Detailed(CancelEntry(e)) ==
                 DetailedTask(Cancelled, Some("the task was cancelled by request"), e.ttlMs, None, None, None)
    ensures e.status in {Completed, Failed, Cancelled} ==>
              CompleteEntry(e, CompletedWith(v)) == CompleteEntry(e, FailedWith(error)) == CancelEntry(e) == e
  {
  }

  /** What the channels awaiting `keys` receive. */
  function MailFor(waiters: map<string, nat>, responses: map<string, Json>, keys: set<string>): map<nat, Json>
    requires Injective(waiters) && keys <= waiters.Keys && keys <= responses.Keys
  {
    map k | k in keys :: waiters[k] := responses[k]
  }

  function Mail(e: Entry, responses: map<string, Json>): map<nat, Json>
    requires Injective(e.waiters)
  {
    MailFor(e.waiters, responses, Resolved(e, responses))
  }

  lemma MailForOneMore(waiters: map<string, nat>, responses: map<string, Json>, keys: set<string>, key: string)
    requires Injective(waiters) && keys + {key} <= waiters.Keys && keys + {key} <= responses.Keys
    ensures MailFor(waiters, responses, keys + {key}) == MailFor(waiters, responses, keys)[waiters[key] := responses[key]]
  {
  }

  /** The entry once the senders and requests of `keys` are gone. */
  function Without(e: Entry, keys: set<string>): Entry {
    e.(outstanding := e.outstanding - keys, waiters := e.waiters - keys)
  }

  lemma WithoutOneMore(e: Entry, keys: set<string>, key: string)
    ensures Without(Without(e, keys), {key}) == Without(e, keys + {key})
  {
    assert (e.outstanding - keys) - {key} == e.outstanding - (keys + {key});
    assert (e.waiters - keys) - {key} == e.waiters - (keys + {key});
  }

  lemma ResolvedNext(e: Entry, responses: map<string, Json>, keys: set<string>, key: string)
    requires key in keys && keys <= responses.Keys
    ensures Resolved(e, responses) - (keys - {key}) ==
            Resolved(e, responses) - keys + (if key in e.outstanding && key in e.waiters then {key} else {})
    ensures var e' := Without(e, Resolved(e, responses) - keys);
            && (key in e'.outstanding <==> key in e.outstanding)
            && (key in e'.waiters <==> key in e.waiters)
            && (key in e'.waiters ==> e'.waiters[key] == e.waiters[key])
  {
  }

  /** The loop over the responses, with `keys` still to come and `hit` resolved. */
  ghost predicate IsResolving(e0: Entry, responses: map<string, Json>, keys: set<string>, hit: set<string>,
                              e: Entry, sent: map<nat, Json>)
  {
    && Injective(e0.waiters)
    && keys <= responses.Keys && hit == Resolved(e0, responses) - keys
    && e == Without(e0, hit) && sent == MailFor(e0.waiters, responses, hit)
  }

  lemma ResolvesOn(e0: Entry, responses: map<string, Json>, keys: set<string>, key: string, hit: set<string>,
                   e: Entry, sent: map<nat, Json>)
    requires IsResolving(e0, responses, keys, hit, e, sent) && key in keys
    ensures if key in e.outstanding && key in e.waiters then
              IsResolving(e0, responses, keys - {key}, hit + {key}, Without(e, {key}),
                          sent[e.waiters[key] := responses[key]])
            else IsResolving(e0, responses, keys - {key}, hit, e, sent)
  {
    ResolvedNext(e0, responses, keys, key);
    if key in e.outstanding && key in e.waiters {
      MailForOneMore(e0.waiters, responses, hit, key);
      WithoutOneMore(e0, hit, key);
    }
  }

  ghost predicate TableOk(entries: Table, fired: set<nat>) {
    && (forall id | id in entries :: EntryOk(entries[id]))
    && (forall id | id in entries && entries[id].status.Cancelled? :: entries[id].token in fired)
  }

  /** Every waiting handler has a channel of its own, issued for its task and key, and not yet used. */
  ghost predicate ChannelsOk(entries: Table, issued: seq<(string, string)>, mailbox: map<nat, Json>) {
    && (forall id, k | id in entries && k in entries[id].waiters ::
          var c := entries[id].waiters[k];
          c < |issued| && issued[c] == (id, k) && c !in mailbox)
    && (forall c | c in mailbox :: c < |issued|)
  }

  lemma PurgeKeeps(entries: Table, now: nat, fired: set<nat>, issued: seq<(string, string)>, mailbox: map<nat, Json>)
    requires TableOk(entries, fired) && ChannelsOk(entries, issued, mailbox)
    ensures TableOk(Purged(entries, now), fired + PurgedTokens(entries, now))
    ensures ChannelsOk(Purged(entries, now), issued, mailbox)
    ensures |Purged(entries, now)| <= |entries|
  {
    assert Purged(entries, now).Keys <= entries.Keys;
    SubsetSize(Purged(entries, now).Keys, entries.Keys);
  }

  lemma CreateKeeps(entries: Table, id: string, e: Entry, fired: set<nat>, issued: seq<(string, string)>, mailbox: map<nat, Json>)
    requires TableOk(entries, fired) && ChannelsOk(entries, issued, mailbox)
    requires id !in entries && EntryOk(e) && e.status.Working? && e.waiters == map[]
    ensures TableOk(entries[id := e], fired) && ChannelsOk(entries[id := e], issued, mailbox)
    ensures |entries[id := e]| == |entries| + 1
  {
    assert entries[id := e].Keys == entries.Keys + {id};
    TableAfter(entries, id, e, fired);
    CreatedChannels(entries, id, e, issued, mailbox);
  }

  lemma CreatedChannels(entries: Table, id: string, e: Entry, issued: seq<(string, string)>, mailbox: map<nat, Json>)
    requires ChannelsOk(entries, issued, mailbox) && id !in entries && e.waiters == map[]
    ensures ChannelsOk(entries[id := e], issued, mailbox)
  {
  }

  lemma CancelKeeps(entries: Table, id: string, fired: set<nat>, issued: seq<(string, string)>, mailbox: map<nat, Json>)
    requires TableOk(entries, fired) && ChannelsOk(entries, issued, mailbox)
    requires id in entries && !entries[id].status.IsTerminal()
    ensures var after := entries[id := CancelEntry(entries[id])];
            TableOk(after, fired + {entries[id].token}) && ChannelsOk(after, issued, mailbox)
  {
    CancelKeepsOk(entries[id]);
  }

  lemma PublishKeeps(entries: Table, id: string, unique: string, request: Json,
                     fired: set<nat>, issued: seq<(string, string)>, mailbox: map<nat, Json>)
    requires TableOk(entries, fired) && ChannelsOk(entries, issued, mailbox)
    requires id in entries && !entries[id].status.IsTerminal() && unique !in entries[id].used
    ensures var after := entries[id := PublishEntry(entries[id], unique, request, |issued|)];
            TableOk(after, fired) && ChannelsOk(after, issued + [(id, unique)], mailbox)
  {
    var e := entries[id];
    assert |issued| !in e.waiters.Values;
    PublishKeepsOk(e, unique, request, |issued|);
  }

  lemma DeliverKeeps(entries: Table, id: string, responses: map<string, Json>,
                     fired: set<nat>, issued: seq<(string, string)>, mailbox: map<nat, Json>)
    requires TableOk(entries, fired) && ChannelsOk(entries, issued, mailbox) && id in entries
    ensures EntryOk(entries[id])
    ensures var after := entries[id := DeliverEntry(entries[id], responses)];
            TableOk(after, fired) && ChannelsOk(after, issued, mailbox + Mail(entries[id], responses))
  {
    var e := entries[id];
    DeliverKeepsOk(e, responses);
    MailWasIssued(entries, id, responses, issued, mailbox);
    DeliverLeaves(e, responses);
    var e' := DeliverEntry(e, responses);
    TableAfter(entries, id, e', fired);
    ChannelsAfter(entries, id, e', Mail(e, responses), Resolved(e, responses), issued, mailbox);
  }

  lemma TableAfter(entries: Table, id: string, e': Entry, fired: set<nat>)
    requires TableOk(entries, fired) && EntryOk(e') && (e'.status.Cancelled? ==> e'.token in fired)
    ensures TableOk(entries[id := e'], fired)
  {
  }

  /** The waiters that a delivery leaves. */
  lemma DeliverLeaves(e: Entry, responses: map<string, Json>)
    ensures DeliverEntry(e, responses).waiters == e.waiters - Resolved(e, responses)
    ensures DeliverEntry(e, responses).token == e.token
    ensures DeliverEntry(e, responses).status.Cancelled? ==> e.status.Cancelled?
  {
  }

  lemma ChannelsAfter(entries: Table, id: string, e': Entry, sent: map<nat, Json>, resolved: set<string>,
                      issued: seq<(string, string)>, mailbox: map<nat, Json>)
    requires ChannelsOk(entries, issued, mailbox) && id in entries && e'.waiters == entries[id].waiters - resolved
    requires forall c | c in sent :: c < |issued| && issued[c].0 == id && issued[c].1 in resolved
    ensures ChannelsOk(entries[id := e'], issued, mailbox + sent)
  {
    var after := entries[id := e'];
    forall id1, k1 | id1 in after && k1 in after[id1].waiters
      ensures var c := after[id1].waiters[k1]; c < |issued| && issued[c] == (id1, k1) && c !in mailbox + sent
    {
      assert k1 in entries[id1].waiters;
    }
  }

  lemma MailWasIssued(entries: Table, id: string, responses: map<string, Json>, issued: seq<(string, string)>,
                      mailbox: map<nat, Json>)
    requires ChannelsOk(entries, issued, mailbox) && id in entries && EntryOk(entries[id])
    ensures forall c | c in Mail(entries[id], responses) ::
              c < |issued| && issued[c].0 == id && issued[c].1 in Resolved(entries[id], responses)
  {
    var e := entries[id];
    forall c | c in Mail(e, responses) ensures c < |issued| && issued[c].0 == id && issued[c].1 in Resolved(e, responses) {
      var k :| k in Resolved(e, responses) && e.waiters[k] == c;
    }
  }

  class Registry {
    var entries: Table
    const capacity: nat
    /** Cancellation tokens fired so far. */
    var fired: set<nat>
    /** One-shot channels in the order they were made, each with the task and key
        it was made for; `mailbox` is what was sent on them. */
    var issued: seq<(string, string)>
    var mailbox: map<nat, Json>

    ghost predicate Valid()
      reads this
    {
      && |entries| <= capacity
      && TableOk(entries, fired)
      && ChannelsOk(entries, issued, mailbox)
    }

    constructor (capacity: nat)
      ensures Valid() && this.capacity == capacity
      ensures entries == map[] && fired == {} && issued == [] && mailbox == map[]
    {
      this.capacity := capacity;
      entries, fired, issued, mailbox := map[], {}, [], map[];
    }

    method PurgeExpired(now: nat)
      requires Valid()
      modifies this
      ensures Valid()
      ensures entries == Purged(old(entries), now)
      ensures fired == old(fired) + PurgedTokens(old(entries), now)
      ensures issued == old(issued) && mailbox == old(mailbox)
    {
      PurgeKeeps(entries, now, fired, issued, mailbox);
      var kept, tokens := Sweep(entries, now);
      entries, fired := kept, fired + tokens;
    }

    static method Sweep(entries: Table, now: nat) returns (kept: Table, tokens: set<nat>)
      ensures kept == Purged(entries, now) && tokens == PurgedTokens(entries, now)
    {
      kept, tokens := map[], {};
      var ids := entries.Keys;
      while ids != {}
        invariant ids <= entries.Keys
        invariant kept == map id | id in entries && id !in ids && !Expired(entries[id], now) :: entries[id]
        invariant tokens == set id | id in entries && id !in ids && Expired(entries[id], now)
                                      && !entries[id].status.IsTerminal() :: entries[id].token
        decreases ids
      {
        var id :| id in ids;
        ghost var before, rest := tokens, ids;
        if !Expired(entries[id], now) {
          kept := kept[id := entries[id]];
        } else if !entries[id].status.IsTerminal() {
          tokens := tokens + {entries[id].token};
        }
        ids := ids - {id};
      }
    }

    /** `id` stands for a fresh UUID. At capacity nothing is created. */
    method Create(ttlMs: Option<int>, token: nat, id: string, now: nat) returns (created: bool)
      requires Valid() && id !in entries
      modifies this
      ensures Valid()
      ensures created <==> |Purged(old(entries), now)| < capacity
      ensures entries == if created then Purged(old(entries), now)[id := NewEntry(ttlMs, token, now)]
                         else Purged(old(entries), now)
      ensures fired == old(fired) + PurgedTokens(old(entries), now)
      ensures issued == old(issued) && mailbox == old(mailbox)
    {
      PurgeExpired(now);
      created := |entries| < capacity;
      if created {
        CreateKeeps(entries, id, NewEntry(ttlMs, token, now), fired, issued, mailbox);
        entries := entries[id := NewEntry(ttlMs, token, now)];
      }
    }

    /** No purge here: a task past its time can still be completed if nothing swept it. */
    method Complete(id: string, outcome: Outcome)
      requires Valid()
      modifies this`entries
      ensures Valid()
      ensures entries == if id in old(entries) then old(entries)[id := CompleteEntry(old(entries)[id], outcome)]
                         else old(entries)
    {
      if id !in entries { return; }
      var e := entries[id];
      if e.status.IsTerminal() {
        assert entries == entries[id := e];
        return;
      }
      match outcome {
        case CompletedWith(_) => e := e.(status := Completed);
        case FailedWith(error) => e := e.(status := Failed, statusMessage := Some(error.message));
      }
      entries := entries[id := e.(outcome := Some(outcome))];
    }

    method Get(id: string, now: nat) returns (r: Option<DetailedTask>)
      requires Valid()
      modifies this
      ensures Valid()
      ensures entries == Purged(old(entries), now)
      ensures r == if id in entries then Some(Detailed(entries[id])) else None
      ensures fired == old(fired) + PurgedTokens(old(entries), now)
      ensures issued == old(issued) && mailbox == old(mailbox)
    {
      PurgeExpired(now);
      r := if id in entries then Some(Detailed(entries[id])) else None;
    }

    method Cancel(id: string, now: nat) returns (matched: bool)
      requires Valid()
      modifies this
      ensures Valid()
      ensures matched <==> id in Purged(old(entries), now)
      ensures var base := Purged(old(entries), now);
              entries == if matched then base[id := CancelEntry(base[id])] else base
      ensures fired == old(fired) + PurgedTokens(old(entries), now) +
                       (if matched && !Purged(old(entries), now)[id].status.IsTerminal()
                        then {old(entries)[id].token} else {})
      ensures issued == old(issued) && mailbox == old(mailbox)
    {
      PurgeExpired(now);
      if id !in entries { return false; }
      var e := entries[id];
      if !e.status.IsTerminal() {
        CancelKeeps(entries, id, fired, issued, mailbox);
        fired := fired + {e.token};
        entries := entries[id := CancelEntry(e)];
      } else {
        assert entries == entries[id := e];
      }
      matched := true;
    }

    /** The search for a free key. It stops because the variants tried are distinct
        members of a finite set; the number of the variant is at most one more
        than the keys in use. */
    static method FreshKey(used: set<string>, key: string) returns (unique: string)
      ensures IsUniqueVariant(used, key, unique)
    {
      unique := key;
      var n: nat := 1;
      ghost var tried: set<string> := {};
      while unique in used
        invariant n >= 1
        invariant unique == if n == 1 then key else Numbered(key, n)
        invariant tried <= used && |tried| == n - 1
        invariant n > 1 ==> key in used
        invariant forall m: nat | 2 <= m < n :: Numbered(key, m) in used
        invariant forall t | t in tried :: t == key || exists m: nat | 2 <= m < n :: t == Numbered(key, m)
        decreases |used| - |tried|
      {
        NotTried(key, n, tried, unique);
        tried := tried + {unique};
        SubsetSize(tried, used);
        n := n + 1;
        unique := Numbered(key, n);
      }
    }

    method PublishInput(id: string, key: string, request: Json, now: nat)
      returns (channel: Option<nat>, ghost unique: string)
      requires Valid()
      modifies this
      ensures Valid()
      ensures var base := Purged(old(entries), now);
              && (channel.None? <==> id !in base || base[id].status.IsTerminal())
              && (channel.None? ==> entries == base && issued == old(issued))
              && (channel.Some? ==>
                  && channel.value == |old(issued)| && issued == old(issued) + [(id, unique)]
                  && IsUniqueVariant(base[id].used, key, unique)
                  && entries == base[id := PublishEntry(base[id], unique, request, channel.value)])
      ensures fired == old(fired) + PurgedTokens(old(entries), now) && mailbox == old(mailbox)
    {
      PurgeExpired(now);
      unique := key;
      if id !in entries || entries[id].status.IsTerminal() { return None, key; }
      var e := entries[id];
      var free := FreshKey(e.used, key);
      unique := free;
      channel := Some(|issued|);
      PublishKeeps(entries, id, free, request, fired, issued, mailbox);
      var e' := e.(used := e.used + {free},
                   outstanding := e.outstanding[free := request],
                   waiters := e.waiters[free := |issued|]);
      if e'.status.Working? {
        e' := e'.(status := InputRequired);
      }
      entries := entries[id := e'];
      issued := issued + [(id, free)];
    }

    /** The responses may be walked in any order: the result does not depend on it. */
    method DeliverInputs(id: string, responses: map<string, Json>, now: nat) returns (changed: Option<bool>)
      requires Valid()
      modifies this
      ensures Valid()
      ensures var base := Purged(old(entries), now);
              && (changed.None? <==> id !in base)
              && (changed.None? ==> entries == base && mailbox == old(mailbox))
              && (changed.Some? ==>
                  && entries == base[id := DeliverEntry(base[id], responses)]
                  && (changed.value <==> entries[id].status != base[id].status)
                  && EntryOk(base[id])
                  && mailbox == old(mailbox) + Mail(base[id], responses))
      ensures fired == old(fired) + PurgedTokens(old(entries), now) && issued == old(issued)
    {
      PurgeExpired(now);
      if id !in entries { return None; }
      var e := entries[id];
      DeliverKeeps(entries, id, responses, fired, issued, mailbox);
      var e', sent := Resolve(e, responses);
      changed := Some(false);
      if e'.status.InputRequired? && e'.outstanding == map[] {
        e' := e'.(status := Working);
        changed := Some(true);
      }
      assert e' == DeliverEntry(e, responses) && (changed.value <==> e'.status != e.status);
      entries, mailbox := entries[id := e'], mailbox + sent;
    }

    /** Resolve each response whose key is outstanding and awaited. */
    static method Resolve(e0: Entry, responses: map<string, Json>) returns (e: Entry, sent: map<nat, Json>)
      requires Injective(e0.waiters)
      ensures e == Without(e0, Resolved(e0, responses))
      ensures sent == Mail(e0, responses)
    {
      e, sent := e0, map[];
      var keys := responses.Keys;
      ghost var hit: set<string> := {};
      assert e == Without(e0, hit);
      while keys != {}
        invariant IsResolving(e0, responses, keys, hit, e, sent)
        decreases keys
      {
        var key :| key in keys;
        ResolvesOn(e0, responses, keys, key, hit, e, sent);
        if key in e.outstanding && key in e.waiters {
          sent := sent[e.waiters[key] := responses[key]];
          e := Without(e, {key});
          hit := hit + {key};
        }
        keys := keys - {key};
      }
      assert hit == Resolved(e0, responses);
    }
  }

  lemma SubsetSize<T>(a: set<T>, b: set<T>)
    requires a <= b
    ensures |a| <= |b|
  {
    if a != {} {
      var x :| x in a;
      SubsetSize(a - {x}, b - {x});
    }
  }

  /** The variants already tried all differ from the next one: decimal suffixes are injective. */
  lemma NotTried(key: string, n: nat, tried: set<string>, unique: string)
    requires n >= 1 && unique == if n == 1 then key else Numbered(key, n)
    requires forall t | t in tried :: t == key || exists m: nat | 2 <= m < n :: t == Numbered(key, m)
    requires n == 1 ==> tried == {}
    ensures unique !in tried
  {
    if n > 1 {
      assert |Numbered(key, n)| > |key|;
      forall m: nat | 2 <= m < n ensures Numbered(key, m) != unique {
        if Numbered(key, m) == Numbered(key, n) {
          assert Render(n) == Numbered(key, n)[|key| + 1..] == Numbered(key, m)[|key| + 1..] == Render(m);
          RenderInjective(m, n);
        }
      }
    }
  }
}
