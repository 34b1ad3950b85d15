/** Cached requests in flight: replies and notifications arrive on one connection, in
    order; a notification is handled as it arrives, and a reply is stored only when
    the caller that awaits it runs again. */
module CacheRace {
  import opened Wrappers
  import opened Json
  import opened ResponseCache

  datatype Message = Reply(call: nat, value: Json) | Notified(notice: Notice)

  /** A `cached_request` that missed: waiting, handed its reply (message `at`), over. */
  datatype Phase = Waiting | Handed(at: nat) | Over

  datatype Call = Call(key: Key, phase: Phase)

  /** An entry, with its history: which message brought it, and how many messages had
      arrived when it was stored. */
  datatype Held = Held(value: Json, from: nat, storedAt: nat)

  datatype State = State(received: seq<Message>, calls: seq<Call>, cache: map<Key, Held>)

  const INIT := State([], [], map[])

  /** `Lose` stands for an entry expiring or being evicted. */
  datatype Event = Begin(key: Key) | Receive(message: Message) | Resume(call: nat) | Lose(key: Key) | Clear

  function Handle(s: State, m: Message): State {
    var s' := s.(received := s.received + [m]);
    match m
    case Reply(c, _) =>
      if c < |s.calls| && s.calls[c].phase.Waiting? then
        s'.(calls := s.calls[c := s.calls[c].(phase := Handed(|s.received|))])
      else s'
    case Notified(n) => s'.(cache := map k | k in s.cache && !Obsoletes(n, k) :: s.cache[k])
  }

  /** The caller runs again and stores what it was handed, if that may be cached. */
  function Store(s: State, c: nat): State
    requires c < |s.calls| && s.calls[c].phase.Handed? && s.calls[c].phase.at < |s.received|
    requires s.received[s.calls[c].phase.at].Reply?
  {
    var at, key := s.calls[c].phase.at, s.calls[c].key;
    var value := s.received[at].value;
    var s' := s.(calls := s.calls[c := Call(key, Over)]);
    if CacheableFor(value).Some? then s'.(cache := s.cache[key := Held(value, at, |s.received|)]) else s'
  }

  function Step(s: State, e: Event): Option<State> {
    match e
    case Begin(key) => Some(s.(calls := s.calls + [Call(key, Waiting)]))
    case Receive(m) => Some(Handle(s, m))
    case Resume(c) =>
      if c < |s.calls| && s.calls[c].phase.Handed? && s.calls[c].phase.at < |s.received|
         && s.received[s.calls[c].phase.at].Reply?
      then Some(Store(s, c)) else None
    case Lose(key) => Some(s.(cache := s.cache - {key}))
    case Clear => Some(s.(cache := map[]))
  }

  function Run(s: State, es: seq<Event>): Option<State>
    decreases |es|
  {
    if es == [] then Some(s)
    else match Step(s, es[0])
      case None => None
      case Some(s') => Run(s', es[1..])
  }

  // ---- what every state keeps ------------------------------------------------------------

  /** Message `j` says that entries under `key` are out of date. */
  predicate IsObsoleting(received: seq<Message>, j: int, key: Key) {
    0 <= j < |received| && received[j].Notified? && Obsoletes(received[j].notice, key)
  }

  ghost predicate HeldOk(held: Held, key: Key, received: seq<Message>) {
    && held.from < held.storedAt <= |received|
    && received[held.from].Reply? && received[held.from].value == held.value
    && forall j | held.storedAt <= j < |received| :: !IsObsoleting(received, j, key)
  }

  ghost predicate Inv(s: State) {
    && (forall k | k in s.cache :: HeldOk(s.cache[k], k, s.received))
    && (forall c | 0 <= c < |s.calls| && s.calls[c].phase.Handed? ::
          s.calls[c].phase.at < |s.received| && s.received[s.calls[c].phase.at].Reply?)
  }

  lemma HeldGrows(held: Held, key: Key, received: seq<Message>, m: Message)
    requires HeldOk(held, key, received) && (m.Notified? ==> !Obsoletes(m.notice, key))
    ensures HeldOk(held, key, received + [m])
  {
    forall j | held.storedAt <= j < |received + [m]| ensures !IsObsoleting(received + [m], j, key) {
      if j < |received| { assert !IsObsoleting(received, j, key); }
    }
  }

  lemma HandleInv(s: State, m: Message)
    requires Inv(s)
    ensures Inv(Handle(s, m))
  {
    var s' := Handle(s, m);
    forall k | k in s'.cache ensures HeldOk(s'.cache[k], k, s'.received) {
      HeldGrows(s.cache[k], k, s.received, m);
    }
  }

  lemma StepInv(s: State, e: Event, s': State)
    requires Inv(s) && Step(s, e) == Some(s')
    ensures Inv(s')
  {
    if e.Receive? { HandleInv(s, e.message); }
  }

  lemma {:induction false} RunInv(s: State, es: seq<Event>)
    requires Inv(s) && Run(s, es).Some?
    ensures Inv(Run(s, es).value)
    decreases |es|
  {
    if es != [] {
      var s1 := Step(s, es[0]).value;
      StepInv(s, es[0], s1);
      RunInv(s1, es[1..]);
    }
  }

  lemma {:induction false} RunLast(s: State, es: seq<Event>) returns (mid: State)
    requires es != [] && Run(s, es).Some?
    ensures Run(s, es[..|es| - 1]) == Some(mid) && Step(mid, es[|es| - 1]) == Run(s, es)
    decreases |es|
  {
    if |es| == 1 {
      mid := s;
      assert es[1..] == [] && es[..0] == [];
    } else {
      mid := RunLast(Step(s, es[0]).value, es[1..]);
      assert es[..|es| - 1][1..] == es[1..][..|es[1..]| - 1] && es[1..][|es[1..]| - 1] == es[|es| - 1];
    }
  }

  /** What the last event of a run leaves in the cache under a key: nothing after a clear,
      a loss or a notification that obsoletes it; the reply the caller was handed, if it
      may be cached; and otherwise what was there. */
  lemma LastEventTells(es: seq<Event>, key: Key) returns (mid: State)
    requires es != [] && Run(INIT, es).Some?
    ensures Run(INIT, es[..|es| - 1]) == Some(mid)
    ensures var s := Run(INIT, es).value;
            match es[|es| - 1]
            case Clear => key !in s.cache
            case Lose(k) => if k == key then key !in s.cache else Kept(mid, s, key)
            case Receive(Notified(n)) => if Obsoletes(n, key) then key !in s.cache else Kept(mid, s, key)
            case Resume(c) =>
              && c < |mid.calls| == |s.calls| && mid.calls[c].phase.Handed? && s.calls[c].phase.Over?
              && (if mid.calls[c].key == key && CacheableFor(HandedTo(mid, c)).Some? then
                    key in s.cache && s.cache[key].value == HandedTo(mid, c)
                  else Kept(mid, s, key))
            case _ => Kept(mid, s, key)
  {
    mid := RunLast(INIT, es);
  }

  ghost predicate Kept(s: State, s': State, key: Key) {
    (key in s'.cache <==> key in s.cache) && (key in s.cache ==> s'.cache[key] == s.cache[key])
  }

  function HandedTo(s: State, c: nat): Json {
    if c < |s.calls| && s.calls[c].phase.Handed? && s.calls[c].phase.at < |s.received| && s.received[s.calls[c].phase.at].Reply?
    then s.received[s.calls[c].phase.at].value else Null
  }

  // ---- exactly when an entry is stale ------------------------------------------------------

  /** A notification that obsoletes the entry arrived after the reply it holds. */
  ghost predicate IsStale(s: State, key: Key)
    requires key in s.cache
  {
    exists j :: s.cache[key].from < j && IsObsoleting(s.received, j, key)
  }

  /** In every run, an entry in the cache is out of date exactly if the notification
      that says so was handled between the arrival of its reply and the moment the
      caller stored it; none that came later was missed. */
  lemma StaleExactly(es: seq<Event>, key: Key)
    requires Run(INIT, es).Some? && key in Run(INIT, es).value.cache
    ensures var s := Run(INIT, es).value;
            var held := s.cache[key];
            && held.from < held.storedAt <= |s.received| && s.received[held.from].Reply?
            && s.received[held.from].value == held.value
            && (IsStale(s, key) <==> exists j :: held.from < j < held.storedAt && IsObsoleting(s.received, j, key))
  {
    RunInv(INIT, es);
    var s := Run(INIT, es).value;
    assert HeldOk(s.cache[key], key, s.received);
  }

  /** And that does happen, under every key, with every cacheable result and every
      notification that obsoletes it. */
  lemma StaleHappens(key: Key, value: Json, n: Notice) returns (es: seq<Event>)
    requires CacheableFor(value).Some? && Obsoletes(n, key)
    ensures Run(INIT, es).Some? && key in Run(INIT, es).value.cache
    ensures Run(INIT, es).value.cache[key].value == value && IsStale(Run(INIT, es).value, key)
  {
    es := [Begin(key), Receive(Reply(0, value)), Receive(Notified(n)), Resume(0)];
    var s1 := Step(INIT, es[0]).value;
    var s2 := Step(s1, es[1]).value;
    var s3 := Step(s2, es[2]).value;
    assert s3.received == [Reply(0, value), Notified(n)] && s3.calls == [Call(key, Handed(0))];
    var s4 := Step(s3, es[3]).value;
    assert es[1..] == [es[1], es[2], es[3]] && es[1..][1..] == [es[2], es[3]] && es[1..][1..][1..] == [es[3]];
    assert Run(s3, [es[3]]) == Some(s4);
    assert Run(s2, [es[2], es[3]]) == Some(s4);
    assert Run(s1, es[1..]) == Some(s4);
    assert IsObsoleting(s4.received, 1, key);
  }
}
