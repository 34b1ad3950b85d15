/** The client-side response cache of turbomcp-client, against the log of what
    was stored, obsoleted and evicted. */
module ResponseCache {
  import opened Wrappers
  import opened Json

  const MAX_ENTRIES: nat := 1024
  const NANOS_PER_MILLI: nat := 1_000_000

  const TOOLS_LIST := "tools/list"
  const PROMPTS_LIST := "prompts/list"
  const RESOURCES_LIST := "resources/list"
  const RESOURCES_TEMPLATES_LIST := "resources/templates/list"
  const RESOURCES_READ := "resources/read"

  /** Method and discriminator: a cursor for lists, the URI for reads. */
  datatype Key = Key(rpc: string, discriminator: Option<string>)

  datatype Entry = Entry(value: Json, expiresAt: nat)

  type Table = map<Key, Entry>

  /** A server notification, by what it can invalidate. */
  datatype Notice = ToolsChanged | PromptsChanged | ResourcesChanged | ResourceUpdated(uri: Option<string>) | Other

  function NoticeOf(rpc: string, params: Option<Json>): Notice {
    if rpc == "notifications/tools/list_changed" then ToolsChanged
    else if rpc == "notifications/prompts/list_changed" then PromptsChanged
    else if rpc == "notifications/resources/list_changed" then ResourcesChanged
    else if rpc == "notifications/resources/updated" then
      ResourceUpdated(AsStr(if params.Some? then Get(params.value, "uri") else None))
    else Other
  }

  predicate Obsoletes(n: Notice, k: Key) {
    match n
    case ToolsChanged => k.rpc == TOOLS_LIST
    case PromptsChanged => k.rpc == PROMPTS_LIST
    case ResourcesChanged =>
      k.rpc == RESOURCES_LIST || k.rpc == RESOURCES_TEMPLATES_LIST || k.rpc == RESOURCES_READ
    case ResourceUpdated(uri) => uri.Some? && k == Key(RESOURCES_READ, uri)
    case Other => false
  }

  /** The entries a notification leaves in place. */
  function StillValid(m: Table, n: Notice): Table {
    map k | k in m && !Obsoletes(n, k) :: m[k]
  }

  /** `ttlMs`, when it declares a result cacheable. */
  function CacheableFor(value: Json): (r: Option<nat>)
    ensures r.Some? ==> r.value > 0
  {
    var ttl := AsU64(Get(value, "ttlMs"));
    if ttl.Some? && ttl.value > 0 then ttl else None
  }

  /** A result is cacheable exactly if its `ttlMs` is a positive integer of 64 bits. */
  lemma CacheableExactly(value: Json, ttl: nat)
    ensures CacheableFor(value) == Some(ttl) <==>
            value.Obj? && "ttlMs" in value.fields && value.fields["ttlMs"] == Int(ttl) &&
            0 < ttl < 18_446_744_073_709_551_616
  {
  }

  /** What a notification drops, name by name: a changed list the entries of its lists,
      the resource list reads too, an updated resource its own read, anything else
      nothing. */
  lemma NotificationDropsExactly(m: Table, rpc: string, params: Option<Json>, k: Key)
    ensures k in StillValid(m, NoticeOf(rpc, params)) <==>
            k in m && !match rpc
                       case "notifications/tools/list_changed" => k.rpc == "tools/list"
                       case "notifications/prompts/list_changed" => k.rpc == "prompts/list"
                       case "notifications/resources/list_changed" =>
                         k.rpc in {"resources/list", "resources/templates/list", "resources/read"}
                       case "notifications/resources/updated" =>
                         && k.rpc == "resources/read" && k.discriminator.Some?
                         && params.Some? && params.value.Obj? && "uri" in params.value.fields
                         && params.value.fields["uri"] == Str(k.discriminator.value)
                       case _ => false
    ensures k in StillValid(m, NoticeOf(rpc, params)) ==> StillValid(m, NoticeOf(rpc, params))[k] == m[k]
  {
  }

  // ---- the log and what it means ------------------------------------------------------

  datatype Logged =
    | Stored(key: Key, entry: Entry)
    | Noticed(notice: Notice)
    | Cleared
    | Evicted(key: Key)

  function Apply(ref: Table, e: Logged): Table {
    match e
    case Stored(k, entry) => ref[k := entry]
    case Noticed(n) => StillValid(ref, n)
    case Cleared => map[]
    case Evicted(_) => ref
  }

  /** The reference: for each key the last cacheable value stored, unless
      something obsoleted it since. It forgets nothing for lack of room or age. */
  function Reference(log: seq<Logged>): Table {
    if log == [] then map[] else Apply(Reference(log[..|log| - 1]), log[|log| - 1])
  }

  function ApplyLost(lost: set<Key>, e: Logged): set<Key> {
    match e
    case Stored(k, _) => lost - {k}
    case Evicted(k) => lost + {k}
    case _ => lost
  }

  /** The keys evicted since they were last stored. */
  function Lost(log: seq<Logged>): set<Key> {
    if log == [] then {} else ApplyLost(Lost(log[..|log| - 1]), log[|log| - 1])
  }

  lemma LogOneMore(log: seq<Logged>, e: Logged)
    ensures Reference(log + [e]) == Apply(Reference(log), e)
    ensures Lost(log + [e]) == ApplyLost(Lost(log), e)
  {
    assert (log + [e])[..|log|] == log;
  }

  /** Being lost is exactly having been evicted after the last store of the key. */
  lemma {:induction false} LostExactly(log: seq<Logged>, k: Key)
    ensures k in Lost(log) <==>
            exists i | 0 <= i < |log| :: log[i] == Evicted(k) &&
              forall j | i < j < |log| :: !(log[j].Stored? && log[j].key == k)
  {
    if log != [] {
      var n := |log| - 1;
      LostExactly(log[..n], k);
      if k in Lost(log) {
        if log[n] == Evicted(k) {
        } else {
          var i :| 0 <= i < n && log[..n][i] == Evicted(k) &&
                   forall j | i < j < n :: !(log[..n][j].Stored? && log[..n][j].key == k);
          assert log[i] == Evicted(k);
          forall j | i < j < |log| ensures !(log[j].Stored? && log[j].key == k) {
            if j < n { assert log[..n][j] == log[j]; }
          }
        }
      }
      if i :| 0 <= i < |log| && log[i] == Evicted(k) &&
              forall j | i < j < |log| :: !(log[j].Stored? && log[j].key == k) {
        if i < n {
          assert log[..n][i] == Evicted(k);
          assert k in Lost(log[..n]);
        }
      }
    }
  }

  /** An entry of the reference is exactly the last store of its key that nothing
      obsoleted or cleared since. */
  lemma {:induction false} ReferenceExactly(log: seq<Logged>, k: Key, e: Entry)
    ensures k in Reference(log) && Reference(log)[k] == e <==>
            exists i | 0 <= i < |log| :: log[i] == Stored(k, e) && forall j | i < j < |log| :: !Supersedes(log[j], k)
  {
    if log != [] {
      var n := |log| - 1;
      ReferenceExactly(log[..n], k, e);
      if i :| 0 <= i < |log| && log[i] == Stored(k, e) && forall j | i < j < |log| :: !Supersedes(log[j], k) {
        if i < n {
          assert log[..n][i] == Stored(k, e) && !Supersedes(log[n], k);
        }
      }
      if k in Reference(log) && Reference(log)[k] == e && log[n] != Stored(k, e) {
        var i :| 0 <= i < n && log[..n][i] == Stored(k, e) && forall j | i < j < n :: !Supersedes(log[..n][j], k);
        assert log[i] == Stored(k, e);
        forall j | i < j < |log| ensures !Supersedes(log[j], k) {
          if j < n { assert log[..n][j] == log[j]; }
        }
      }
    }
  }

  /** What replaces or obsoletes an earlier store of `k`. */
  predicate Supersedes(e: Logged, k: Key) {
    match e
    case Stored(k', _) => k' == k
    case Noticed(n) => Obsoletes(n, k)
    case Cleared => true
    case Evicted(_) => false
  }

  // ---- the cache ----------------------------------------------------------------------

  function Fresh(m: Table, now: nat): Table {
    map k | k in m && m[k].expiresAt > now :: m[k]
  }

  ghost predicate IsSoonest(m: Table, k: Key) {
    k in m && forall j | j in m :: m[k].expiresAt <= m[j].expiresAt
  }

  /** What the cache holds is in the reference; what it has let go had expired or was evicted. */
  ghost predicate Agrees(m: Table, log: seq<Logged>, clock: nat) {
    var ref := Reference(log);
    && (forall k | k in m :: k in ref && m[k] == ref[k] && k !in Lost(log))
    && (forall k | k in ref && k !in m :: ref[k].expiresAt <= clock || k in Lost(log))
  }

  lemma AgreesAfterRetain(m: Table, log: seq<Logged>, clock: nat, now: nat)
    requires Agrees(m, log, clock) && clock <= now
    ensures Agrees(Fresh(m, now), log, now)
  {
  }

  lemma AgreesAfterEvict(m: Table, log: seq<Logged>, clock: nat, k: Key)
    requires Agrees(m, log, clock)
    ensures Agrees(m - {k}, log + [Evicted(k)], clock)
  {
    LogOneMore(log, Evicted(k));
  }

  lemma AgreesAfterStore(m: Table, log: seq<Logged>, clock: nat, later: nat, k: Key, e: Entry)
    requires Agrees(m, log, clock) && clock <= later
    ensures Agrees(m[k := e], log + [Stored(k, e)], later)
  {
    LogOneMore(log, Stored(k, e));
  }

  class Cache {
    var entries: Table
    ghost var log: seq<Logged>
    /** The latest clock reading taken. */
    ghost var clock: nat

    ghost predicate Valid()
      reads this
    {
      |entries| <= MAX_ENTRIES && Agrees(entries, log, clock)
    }

    constructor ()
      ensures Valid() && log == [] && entries == map[]
    {
      entries, log, clock := map[], [], 0;
    }

    /** A hit is exactly the last cacheable value stored for the key, not obsoleted
        since, unexpired now, and not evicted since it was stored. */
    method Get(key: Key, now: nat) returns (r: Option<Json>)
      requires Valid() && clock <= now
      modifies this
      ensures Valid() && clock == now && log == old(log)
      ensures r == if key in Reference(log) && Reference(log)[key].expiresAt > now && key !in Lost(log)
                   then Some(Reference(log)[key].value) else None
      ensures entries == if key in old(entries) && old(entries)[key].expiresAt <= now
                         then old(entries) - {key} else old(entries)
    {
      clock := now;
      if key !in entries { return None; }
      if entries[key].expiresAt > now { return Some(entries[key].value); }
      DropOneSize(entries, key);
      entries := entries - {key};
      r := None;
    }

    /** `now` is read when making room, `later` for the deadline. Room is made
        whenever the cache is full, even for a key it already holds: expired
        entries go first, and only if none was expired is the soonest to expire evicted. */
    method Store(key: Key, value: Json, now: nat, later: nat) returns (ghost evicted: Option<Key>)
      requires Valid() && clock <= now <= later
      modifies this
      ensures Valid()
      ensures CacheableFor(value).None? ==> entries == old(entries) && log == old(log) && evicted.None?
      ensures CacheableFor(value).Some? ==>
                var entry := Entry(value, later + CacheableFor(value).value * 1_000_000);
                var live := map k | k in old(entries) && old(entries)[k].expiresAt > now :: old(entries)[k];
                && log == old(log) + (if evicted.Some? then [Evicted(evicted.value)] else []) + [Stored(key, entry)]
                && (evicted.Some? <==> |old(entries)| == 1024 && live == old(entries))
                && (evicted.Some? ==>
                      evicted.value in old(entries) &&
                      forall k | k in old(entries) :: old(entries)[evicted.value].expiresAt <= old(entries)[k].expiresAt)
                && entries == (if evicted.Some? then old(entries) - {evicted.value}
                               else if |old(entries)| == 1024 then live
                               else old(entries))[key := entry]
    {
      evicted := None;
      var ttl := CacheableFor(value);
      if ttl.None? { return; }
      clock := later;
      var entry := Entry(value, later + ttl.value * NANOS_PER_MILLI);
      if |entries| >= MAX_ENTRIES {
        FreshSize(entries, now);
        AgreesAfterRetain(entries, log, old(clock), now);
        entries := Fresh(entries, now);
      }
      if |entries| >= MAX_ENTRIES {
        var soonest := Soonest();
        evicted := Some(soonest);
        AgreesAfterEvict(entries, log, now, soonest);
        log := log + [Evicted(soonest)];
        DropOneSize(entries, soonest);
        entries := entries - {soonest};
      }
      AgreesAfterStore(entries, log, if |old(entries)| >= MAX_ENTRIES then now else old(clock), later, key, entry);
      log := log + [Stored(key, entry)];
      PutSize(entries, key, entry);
      entries := entries[key := entry];
    }

    /** `min_by_key` on the deadline. */
    method Soonest() returns (soonest: Key)
      requires entries != map[]
      ensures IsSoonest(entries, soonest)
    {
      soonest :| soonest in entries;
      var keys := entries.Keys - {soonest};
      while keys != {}
        invariant soonest in entries && keys <= entries.Keys
        invariant forall j | j in entries && j !in keys :: entries[soonest].expiresAt <= entries[j].expiresAt
        decreases keys
      {
        var key :| key in keys;
        if entries[key].expiresAt < entries[soonest].expiresAt {
          soonest := key;
        }
        keys := keys - {key};
      }
    }

    method OnNotification(rpc: string, params: Option<Json>)
      requires Valid()
      modifies this`entries, this`log
      ensures Valid()
      ensures log == old(log) + [Noticed(NoticeOf(rpc, params))]
      ensures entries == StillValid(old(entries), NoticeOf(rpc, params))
    {
      var notice := NoticeOf(rpc, params);
      LogOneMore(log, Noticed(notice));
      log := log + [Noticed(notice)];
      var gone := set k | k in entries && Obsoletes(notice, k);
      DropSize(entries, gone);
      entries := entries - gone;
    }

    method Clear()
      requires Valid()
      modifies this`entries, this`log
      ensures Valid() && entries == map[] && log == old(log) + [Cleared]
    {
      LogOneMore(log, Cleared);
      log := log + [Cleared];
      entries := map[];
    }
  }

  lemma DropSize(m: Table, gone: set<Key>)
    ensures |m - gone| <= |m|
  {
    assert m.Keys == (m - gone).Keys + (m.Keys - (m - gone).Keys);
  }

  lemma DropOneSize(m: Table, k: Key)
    requires k in m
    ensures |m - {k}| == |m| - 1
  {
    assert (m - {k}).Keys == m.Keys - {k};
  }

  lemma PutSize(m: Table, key: Key, e: Entry)
    ensures |m[key := e]| <= |m| + 1
  {
    assert m[key := e].Keys == m.Keys + {key};
  }

  /** Dropping expired entries makes room unless there were none. */
  lemma FreshSize(m: Table, now: nat)
    ensures |Fresh(m, now)| <= |m|
    ensures |Fresh(m, now)| == |m| <==> Fresh(m, now) == m
  {
    var kept := Fresh(m, now).Keys;
    assert m.Keys == kept + (m.Keys - kept);
    if |Fresh(m, now)| == |m| {
      assert |m.Keys - kept| == 0;
    }
  }
}
