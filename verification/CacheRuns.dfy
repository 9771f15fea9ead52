/** Every run of additions, deletions and queries on the cache of a node: the counters agree with the cache, and a
    segment that is asked for again and again is queued for download after a bounded number of queries. */
module CacheRuns {
  import opened Common
  import opened CacheKeys
  import opened CacheIndex

  datatype Event =
    | Added(item: string)
    | Deleted(item: string)
    | Queried(source: string, isUrl: bool, level: int, light: bool)
    | Dequeued(key: string)

  function Step(cfg: Config, s: State, event: Event): State {
    match event
    case Added(k) => s.(items := s.items + {k}, record := OnAdd(cfg, s.record, k))
    case Deleted(k) => s.(items := s.items - {k}, record := OnDelete(cfg, s.record, k))
    case Queried(source, isUrl, level, light) =>
      if !isUrl && source in s.queue then s else CountRequest(cfg, s, source, isUrl, level, light)
    case Dequeued(key) => s.(queue := s.queue - {key})
  }

  function Run(cfg: Config, s: State, events: seq<Event>): State
    decreases events
  {
    if events == [] then s else Run(cfg, Step(cfg, s, events[0]), events[1..])
  }

  // ---------- The counters agree with the cache ----------

  /** Only absent items are added and only cached ones deleted; fewer than 2^32 items. */
  ghost predicate Plausible(cfg: Config, s: State, events: seq<Event>)
    decreases events
  {
    && |s.items| < 0xFFFF_FFFF
    && (events != [] ==>
        && (events[0].Added? ==> events[0].item !in s.items)
        && (events[0].Deleted? ==> events[0].item in s.items)
        && Plausible(cfg, Step(cfg, s, events[0]), events[1..]))
  }

  predicate NoUris(cfg: Config, events: seq<Event>) {
    forall event <- events :: event.Added? ==> !cfg.isUri(event.item)
  }

  lemma SubsetSize(a: set<string>, b: set<string>)
    requires a <= b
    ensures |a| <= |b|
  {
    assert b == a + (b - a);
  }

  lemma UnderPlus(cfg: Config, items: set<string>, k: string, key: string)
    requires k !in items
    ensures |Under(cfg, items + {k}, key)| ==
            |Under(cfg, items, key)| + if CounterKey(cfg.reading, k) == key then 1 else 0
  {
    if CounterKey(cfg.reading, k) == key {
      assert Under(cfg, items + {k}, key) == Under(cfg, items, key) + {k};
    } else {
      assert Under(cfg, items + {k}, key) == Under(cfg, items, key);
    }
  }

  /** Adding an item keeps the counters right exactly when its key does not parse as a request URI: such an item is
      not counted when added, and yet subtracted when deleted. */
  lemma AddKeepsAgreementIff(cfg: Config, s: State, k: string)
    requires Agrees(cfg, s) && k !in s.items && |s.items| < 0xFFFF_FFFF
    ensures Agrees(cfg, Step(cfg, s, Added(k))) <==> !cfg.isUri(k)
  {
    if cfg.isUri(k) {
      UriBreaksAgreement(cfg, s, k);
    } else {
      AddKeepsAgreement(cfg, s, k);
    }
  }

  lemma UriBreaksAgreement(cfg: Config, s: State, k: string)
    requires Agrees(cfg, s) && k !in s.items && cfg.isUri(k)
    ensures !Agrees(cfg, Step(cfg, s, Added(k)))
  {
    var s', own := Step(cfg, s, Added(k)), CounterKey(cfg.reading, k);
    UnderPlus(cfg, s.items, k, own);
    assert Count(s'.record, own, Fragments) == Count(s.record, own, Fragments) == |Under(cfg, s.items, own)|;
  }

  lemma AddKeepsAgreement(cfg: Config, s: State, k: string)
    requires Agrees(cfg, s) && k !in s.items && !cfg.isUri(k) && |s.items| < 0xFFFF_FFFF
    ensures Agrees(cfg, Step(cfg, s, Added(k)))
  {
    var s' := Step(cfg, s, Added(k));
    forall key ensures Count(s'.record, key, Fragments) == |Under(cfg, s'.items, key)| {
      UnderPlus(cfg, s.items, k, key);
      SubsetSize(Under(cfg, s.items, key), s.items);
      assert Count(s.record, key, Fragments) == |Under(cfg, s.items, key)|;
    }
  }

  /** Deleting a cached item: its counter is positive, so the saturating decrement never saturates. */
  lemma DeleteKeepsAgreement(cfg: Config, s: State, k: string)
    requires Agrees(cfg, s) && k in s.items
    ensures Count(s.record, CounterKey(cfg.reading, k), Fragments) > 0
    ensures Agrees(cfg, Step(cfg, s, Deleted(k)))
  {
    var s', own := Step(cfg, s, Deleted(k)), CounterKey(cfg.reading, k);
    assert s.items == (s.items - {k}) + {k};
    UnderPlus(cfg, s.items - {k}, k, own);
    assert Count(s.record, own, Fragments) == |Under(cfg, s.items, own)|;
    forall key ensures Count(s'.record, key, Fragments) == |Under(cfg, s'.items, key)| {
      UnderPlus(cfg, s.items - {k}, k, key);
      assert Count(s.record, key, Fragments) == |Under(cfg, s.items, key)|;
    }
  }

  lemma QueryKeepsAgreement(cfg: Config, s: State, event: Event)
    requires Agrees(cfg, s) && (event.Queried? || event.Dequeued?)
    ensures Agrees(cfg, Step(cfg, s, event))
  {
    var s' := Step(cfg, s, event);
    forall key ensures Count(s'.record, key, Fragments) == |Under(cfg, s'.items, key)| {
      assert Count(s.record, key, Fragments) == |Under(cfg, s.items, key)|;
    }
  }

  /** Every state of the run agrees. */
  ghost predicate AlwaysAgrees(cfg: Config, s: State, events: seq<Event>)
    decreases events
  {
    Agrees(cfg, s) && (events != [] ==> AlwaysAgrees(cfg, Step(cfg, s, events[0]), events[1..]))
  }

  lemma StepKeepsAgreementIff(cfg: Config, s: State, event: Event)
    requires Agrees(cfg, s) && Plausible(cfg, s, [event])
    ensures Agrees(cfg, Step(cfg, s, event)) <==> event.Added? ==> !cfg.isUri(event.item)
  {
    match event {
      case Added(k) => AddKeepsAgreementIff(cfg, s, k);
      case Deleted(k) => DeleteKeepsAgreement(cfg, s, k);
      case Queried(_, _, _, _) => QueryKeepsAgreement(cfg, s, event);
      case Dequeued(_) => QueryKeepsAgreement(cfg, s, event);
    }
  }

  lemma {:induction false} RunKeepsAgreementIff(cfg: Config, s: State, events: seq<Event>)
    requires Agrees(cfg, s) && Plausible(cfg, s, events)
    ensures AlwaysAgrees(cfg, s, events) <==> NoUris(cfg, events)
    decreases events
  {
    if events != [] {
      var next, rest := Step(cfg, s, events[0]), events[1..];
      assert events == [events[0]] + rest;
      assert [events[0]][1..] == [];
      assert Plausible(cfg, next, rest) ==> |next.items| < 0xFFFF_FFFF;
      StepKeepsAgreementIff(cfg, s, events[0]);
      if Agrees(cfg, next) {
        RunKeepsAgreementIff(cfg, next, rest);
      }
    }
  }

  lemma {:induction false} LastAgrees(cfg: Config, s: State, events: seq<Event>)
    requires AlwaysAgrees(cfg, s, events)
    ensures Agrees(cfg, Run(cfg, s, events))
    decreases events
  {
    if events != [] {
      LastAgrees(cfg, Step(cfg, s, events[0]), events[1..]);
    }
  }

  lemma EmptyAgrees(cfg: Config)
    ensures Agrees(cfg, EMPTY)
  {
    forall k ensures Count(EMPTY.record, k, Fragments) == |Under(cfg, {}, k)| {
      assert Under(cfg, {}, k) == {};
    }
  }

  /** Index agreement, exactly: the counters are right throughout a run from an empty cache if and only if no key that
      parses as a request URI is added. */
  lemma IndexAgreesIff(cfg: Config, events: seq<Event>)
    requires Plausible(cfg, EMPTY, events)
    ensures AlwaysAgrees(cfg, EMPTY, events) <==> NoUris(cfg, events)
  {
    EmptyAgrees(cfg);
    RunKeepsAgreementIff(cfg, EMPTY, events);
  }

  /** From an empty cache on, every counter is the number of cached items filed under its key. */
  lemma IndexAgrees(cfg: Config, events: seq<Event>, key: string)
    requires Plausible(cfg, EMPTY, events) && NoUris(cfg, events)
    ensures var s := Run(cfg, EMPTY, events);
            Agrees(cfg, s) && Count(s.record, key, Fragments) == |Under(cfg, s.items, key)|
  {
    IndexAgreesIff(cfg, events);
    LastAgrees(cfg, EMPTY, events);
  }

  /** A request URI is an absolute path or has a scheme. The keys of the cache are neither: hexadecimal hashes, alone
      or joined by slashes. */
  lemma HashKeysAreNoUris(cfg: Config, k: string, length: nat)
    requires forall u: string :: cfg.isUri(u) ==> u != "" && (u[0] == '/' || ':' in u)
    requires length > 0 && ':' !in k && (IsFragmentKey(k, length) || IsHash(k, length))
    ensures !cfg.isUri(k)
  {
    if IsFragmentKey(k, length) {
      assert k[..2 * length + 1][..length][0] == k[0];
    }
  }

  // ---------- What single events do to requests and queue ----------

  /** Deleting a cached item sets the request counter of its directory back to zero exactly when fewer fragments are
      left there than restore a segment, and touches no other request counter. */
  lemma DeleteResetsIff(cfg: Config, s: State, k: string, key: string)
    requires Agrees(cfg, s) && k in s.items
    ensures var left := |Under(cfg, s.items - {k}, key)|;
            Count(Step(cfg, s, Deleted(k)).record, key, Requests)
            == if CounterKey(cfg.reading, k) == key && left < cfg.shards then 0 else Count(s.record, key, Requests)
  {
    DeleteKeepsAgreement(cfg, s, k);
    var s' := Step(cfg, s, Deleted(k));
    assert s'.items == s.items - {k};
    assert Count(s'.record, key, Fragments) == |Under(cfg, s'.items, key)|;
  }

  /** A query adds one to the request counter of its key, up to 2^32, and to no other; a segment that is queued already
      is the exception. */
  lemma QueryCounts(cfg: Config, s: State, source: string, isUrl: bool, level: int, light: bool, key: string)
    ensures var before, after := Count(s.record, key, Requests),
                                 Count(Step(cfg, s, Queried(source, isUrl, level, light)).record, key, Requests);
            if KeyOf(cfg, source, isUrl) == key && (isUrl || source !in s.queue)
            then after == if before == 0xFFFF_FFFF then 0 else before + 1
            else after == before
  {
  }

  /** The event is a query for this key. */
  predicate Asks(cfg: Config, event: Event, key: string) {
    event.Queried? && KeyOf(cfg, event.source, event.isUrl) == key
  }

  /** A key that a run has queued has the task of the query that queued it, and has been queued ever since. */
  lemma {:induction false} TaskIsOfItsQuery(cfg: Config, s: State, events: seq<Event>, key: string) returns (i: nat)
    requires key !in s.queue && key in Run(cfg, s, events).queue
    ensures i < |events| && Asks(cfg, events[i], key) && key !in Run(cfg, s, events[..i]).queue
    ensures forall j: nat :: i < j <= |events| ==> key in Run(cfg, s, events[..j]).queue
    ensures Run(cfg, s, events).queue[key] == Task(events[i].source, events[i].isUrl)
    decreases |events|
  {
    var last := |events| - 1;
    var front := events[..last];
    RunSnoc(cfg, s, front, events[last]);
    assert front + [events[last]] == events == events[..|events|];
    if key in Run(cfg, s, front).queue {
      i := TaskIsOfItsQuery(cfg, s, front, key);
      forall j: nat | j <= last ensures front[..j] == events[..j] {
      }
    } else {
      i := last;
    }
  }

  lemma {:induction false} RunSnoc(cfg: Config, s: State, events: seq<Event>, event: Event)
    ensures Run(cfg, s, events + [event]) == Step(cfg, Run(cfg, s, events), event)
    decreases events
  {
    if events == [] {
      assert [] + [event] == [event] && [event][1..] == [];
    } else {
      assert (events + [event])[1..] == events[1..] + [event];
      RunSnoc(cfg, Step(cfg, s, events[0]), events[1..], event);
    }
  }

  // ---------- The early return ----------

  lemma {:induction false} TraverseFinds(order: seq<string>, key: string, length: nat)
    requires IsSegmentKey(key, length)
    requires forall k <- order :: HashKey(k, key, length)
    ensures Traverse(order, key) == [] <==> forall k <- order :: CounterKey(Intended, k) != key
  {
    if order != [] {
      assert order == [order[0]] + order[1..] && order[0] in order;
      if IsHash(order[0], length) {
        HashIsElsewhere(order[0], key, length);
      } else {
        ContainsIff(order[0], key, length);
        FragmentDir(order[0], length);
      }
      TraverseFinds(order[1..], key, length);
    }
  }

  /** The early return on a zero counter gives the same answer as traversing the whole cache. As written it looks the
      counter up under a key that is never written, and gives the same answer exactly when there is nothing to find. */
  lemma EarlyReturnIff(cfg: Config, s: State, order: seq<string>, key: string, length: nat)
    requires Agrees(cfg, s) && Lists(order, s.items) && HashKeyed(s.items, key, length)
    ensures Lookup(s.record, order, key) == Traverse(order, key)
       <==> cfg.reading.Intended? || forall k <- s.items :: CounterKey(Intended, k) != key
  {
    forall k ensures k in order <==> k in s.items {
      assert k in order <==> k in multiset(order);
    }
    TraverseFinds(order, key, length);
    assert Count(s.record, key, Fragments) == |Under(cfg, s.items, key)|;
    match cfg.reading
    case Intended =>
      if Under(cfg, s.items, key) == {} {
        assert forall k <- s.items :: CounterKey(Intended, k) != key by {
          forall k <- s.items ensures CounterKey(Intended, k) != key {
            assert k !in Under(cfg, s.items, key);
          }
        }
      }
    case AsWritten =>
      forall k <- s.items ensures CounterKey(AsWritten, k) != key {
        if IsHash(k, length) {
          HashIsElsewhere(k, key, length);
        } else {
          FragmentDir(k, length);
          assert |CounterKey(AsWritten, k)| == 2 * length + 2;
        }
      }
      assert Under(cfg, s.items, key) == {};
  }

  /** So in every run that adds no request URI. */
  lemma EarlyReturnInRunsIff(cfg: Config, events: seq<Event>, order: seq<string>, key: string, length: nat)
    requires Plausible(cfg, EMPTY, events) && NoUris(cfg, events)
    requires Lists(order, Run(cfg, EMPTY, events).items) && HashKeyed(Run(cfg, EMPTY, events).items, key, length)
    ensures var s := Run(cfg, EMPTY, events);
            Lookup(s.record, order, key) == Traverse(order, key)
            <==> cfg.reading.Intended? || forall k <- s.items :: CounterKey(Intended, k) != key
  {
    IndexAgrees(cfg, events, key);
    EarlyReturnIff(cfg, Run(cfg, EMPTY, events), order, key, length);
  }

  // ---------- Bounded admission ----------

  /** It leaves the key unqueued. */
  predicate TurnedAway(cfg: Config, s: State, event: Event, key: string) {
    Asks(cfg, event, key) && key !in s.queue && key !in Step(cfg, s, event).queue
  }

  /** Queries for the key that were counted and left it unqueued. */
  function Unqueued(cfg: Config, s: State, events: seq<Event>, key: string): nat
    decreases events
  {
    if events == [] then 0
    else
      var next := Step(cfg, s, events[0]);
      (if TurnedAway(cfg, s, events[0], key) then 1 else 0)
      + Unqueued(cfg, next, events[1..], key)
  }

  /** A step that sets the key's request counter back to zero: a deletion that leaves too few fragments, or the 2^32nd
      query. */
  predicate Resets(cfg: Config, s: State, event: Event, key: string) {
    Count(Step(cfg, s, event).record, key, Requests) == 0 && Count(s.record, key, Requests) > 0
  }

  function ResetCount(cfg: Config, s: State, events: seq<Event>, key: string): nat
    decreases events
  {
    if events == [] then 0
    else (if Resets(cfg, s, events[0], key) then 1 else 0) + ResetCount(cfg, Step(cfg, s, events[0]), events[1..], key)
  }

  function Spent(s: State, key: string): nat {
    var n := Count(s.record, key, Requests);
    if n < 4 then n else 4
  }

  lemma StepSpends(cfg: Config, s: State, event: Event, key: string)
    ensures var next := Step(cfg, s, event);
            (if TurnedAway(cfg, s, event, key) then 1 else 0) + Spent(s, key)
            <= Spent(next, key) + if Resets(cfg, s, event, key) then 4 else 0
  {
  }

  lemma {:induction false} RunSpends(cfg: Config, s: State, events: seq<Event>, key: string)
    ensures Unqueued(cfg, s, events, key) + Spent(s, key) <= 4 + 4 * ResetCount(cfg, s, events, key)
    decreases events
  {
    if events != [] {
      StepSpends(cfg, s, events[0], key);
      RunSpends(cfg, Step(cfg, s, events[0]), events[1..], key);
    }
  }

  /** Bounded admission: whatever the trust levels and load ratios, at most four queries for a key are answered without
      leaving it queued between two resets of its request counter. */
  lemma AdmissionIsBounded(cfg: Config, s: State, events: seq<Event>, key: string)
    ensures Unqueued(cfg, s, events, key) <= 4 * (1 + ResetCount(cfg, s, events, key))
  {
    RunSpends(cfg, s, events, key);
  }

  /** A queued key stays queued through any events but its own leaving. Until then no query for a segment is counted:
      its request counter stands still, except that a deletion may set it back to zero, once. */
  lemma {:induction false} QueuedStaysQueued(cfg: Config, s: State, events: seq<Event>, key: string)
    requires key in s.queue && Dequeued(key) !in events
    requires forall event <- events :: Asks(cfg, event, key) ==> !event.isUrl
    ensures key in Run(cfg, s, events).queue
    ensures Unqueued(cfg, s, events, key) == 0
    ensures ResetCount(cfg, s, events, key) <= if Count(s.record, key, Requests) > 0 then 1 else 0
    ensures Count(Run(cfg, s, events).record, key, Requests)
         == if ResetCount(cfg, s, events, key) == 0 then Count(s.record, key, Requests) else 0
    decreases events
  {
    if events != [] {
      assert events[0] in events;
      QueuedStaysQueued(cfg, Step(cfg, s, events[0]), events[1..], key);
    }
  }

  lemma RunCons(cfg: Config, s: State, event: Event, rest: seq<Event>, key: string)
    ensures Run(cfg, s, [event] + rest) == Run(cfg, Step(cfg, s, event), rest)
    ensures var next := Step(cfg, s, event);
            Unqueued(cfg, s, [event] + rest, key) ==
            (if TurnedAway(cfg, s, event, key) then 1 else 0) + Unqueued(cfg, next, rest, key)
  {
    assert ([event] + rest)[1..] == rest;
  }

  /** How often an account is turned away before the key is queued: never for the owner, nor for any account that is
      not untrusted while the load is light; once for a trusted account; four times for the others. */
  function Patience(level: int, light: bool): nat {
    if level == 0 || (light && level < 3) then 0 else if level < 2 then 1 else 4
  }

  /** The admission rule, exactly, in any state: a query queues its key when the key has been asked for as often before
      as the account's patience says. */
  lemma QueryQueuesIff(cfg: Config, s: State, query: Event, key: string)
    requires Asks(cfg, query, key) && key !in s.queue && Count(s.record, key, Requests) < 0xFFFF_FFFF
    ensures key in Step(cfg, s, query).queue
       <==> Count(s.record, key, Requests) >= Patience(query.level, query.light)
  {
  }

  /** Queries of one account, each after the one before. */
  function Insist(n: nat, query: Event): seq<Event> {
    if n == 0 then [] else [query] + Insist(n - 1, query)
  }

  lemma {:induction false} InsistCounts(cfg: Config, s: State, n: nat, query: Event, key: string)
    requires Asks(cfg, query, key) && key !in s.queue
    requires Count(s.record, key, Requests) + n == Patience(query.level, query.light)
    ensures Unqueued(cfg, s, Insist(n + 1, query), key) == n
    ensures key in Run(cfg, s, Insist(n + 1, query)).queue
    decreases n
  {
    RunCons(cfg, s, query, Insist(n, query), key);
    if n > 0 {
      InsistCounts(cfg, Step(cfg, s, query), n - 1, query, key);
    }
  }

  /** So an account that keeps asking for a new key, of a segment or a URL, is turned away as
      often as its patience says, and its next query queues the key. The bound of four is thereby reached. */
  lemma QueuedAfterPatience(cfg: Config, query: Event, key: string)
    requires Asks(cfg, query, key)
    ensures var n := Patience(query.level, query.light);
            && Unqueued(cfg, EMPTY, Insist(n + 1, query), key) == n
            && key in Run(cfg, EMPTY, Insist(n + 1, query)).queue
  {
    InsistCounts(cfg, EMPTY, Patience(query.level, query.light), query, key);
  }

  /** With the directory key as written, a deletion never resets the request counter of a segment. */
  lemma AsWrittenDeletionsNeverReset(cfg: Config, s: State, k: string, key: string, length: nat)
    requires cfg.reading.AsWritten? && length > 0 && IsSegmentKey(key, length)
    ensures !Resets(cfg, s, Deleted(k), key)
  {
    assert CounterKey(AsWritten, k) != key by {
      assert '/' !in key[length + 1..];
      assert key[length + 1..][length - 1] == key[2 * length];
    }
  }
}
