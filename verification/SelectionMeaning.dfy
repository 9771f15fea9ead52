/** What DownloadStoragedFiles selects and brings, said without its loops: which segments are examined, what is read
    from storage, and how many segments a strategy allows. */
module SelectionMeaning {
  import opened Recovery
  import opened Selection

  // ---------- Which segments are examined ----------

  /** Examining this segment counts: fewer neighbours have it than the strategy wants. */
  predicate IsCounted(net: Network, s: Strategy, k: nat) {
    net.adverts(k).None? || |net.adverts(k).value| < s.avgCached
  }

  /** How many of these segments are counted and come before segment k. */
  function CountedBefore(net: Network, s: Strategy, examined: seq<nat>, k: nat): nat {
    if examined == [] then 0
    else (if examined[0] < k && IsCounted(net, s, examined[0]) then 1 else 0) + CountedBefore(net, s, examined[1..], k)
  }

  /** The segment asked for has been seen before segment k, or is among segments k to q. */
  predicate Seen(segments: seq<Segment>, asked: string, k: nat, done: bool, q: nat)
    requires q < |segments|
  {
    done || exists r: nat | k <= r <= q :: segments[r].hash == asked
  }

  /** The rule of the loop from segment k on, when `num` are counted so far: a segment is examined while fewer than the
      cache number are counted, one place being kept for the segment asked for until that is seen. */
  ghost predicate Selects(net: Network, asked: string, segments: seq<Segment>, s: Strategy, cacheNum: int, k: nat,
                          num: nat, done: bool, examined: seq<nat>) {
    && (forall i, j :: 0 <= i < j < |examined| ==> examined[i] < examined[j])
    && (forall q: nat :: q in examined <==>
          && k <= q < |segments|
          && num + CountedBefore(net, s, examined, q) < cacheNum - if Seen(segments, asked, k, done, q) then 0 else 1)
  }

  predicate InRange(segments: seq<Segment>, examined: seq<nat>) {
    forall i :: 0 <= i < |examined| ==> examined[i] < |segments|
  }

  /** What the examined segments bring, one after the other. */
  function Brought(net: Network, fileHash: string, asked: string, segments: seq<Segment>, s: Strategy, shards: nat,
                   examined: seq<nat>): seq<Response>
    requires InRange(segments, examined)
  {
    if examined == [] then []
    else Examine(net, examined[0], fileHash, asked, segments[examined[0]], s, shards).0
         + Brought(net, fileHash, asked, segments, s, shards, examined[1..])
  }

  lemma {:induction false} NothingBefore(net: Network, s: Strategy, examined: seq<nat>, k: nat)
    requires forall i :: 0 <= i < |examined| ==> k <= examined[i]
    ensures CountedBefore(net, s, examined, k) == 0
  {
    if examined != [] {
      NothingBefore(net, s, examined[1..], k);
    }
  }

  lemma SeenStep(segments: seq<Segment>, asked: string, k: nat, done: bool, q: nat)
    requires k < q < |segments|
    ensures Seen(segments, asked, k, done, q) <==> Seen(segments, asked, k + 1, done || segments[k].hash == asked, q)
  {
    if r: nat :| k <= r <= q && segments[r].hash == asked {
      if r > k {
        assert segments[r].hash == asked;
      }
    }
  }

  lemma SkipKeepsRule(net: Network, asked: string, segments: seq<Segment>, s: Strategy, cacheNum: int, k: nat,
                      num: nat, rest: seq<nat>)
    requires k < |segments| && segments[k].hash != asked && cacheNum - 1 <= num < cacheNum
    requires Selects(net, asked, segments, s, cacheNum, k + 1, num, false, rest)
    ensures Selects(net, asked, segments, s, cacheNum, k, num, false, rest)
  {
    forall q: nat | k < q < |segments|
      ensures Seen(segments, asked, k, false, q) <==> Seen(segments, asked, k + 1, false, q)
    {
      SeenStep(segments, asked, k, false, q);
    }
    forall i | 0 <= i < |rest| ensures k + 1 <= rest[i] {
      assert rest[i] in rest;
    }
    NothingBefore(net, s, rest, k);
  }

  lemma TakeKeepsRule(net: Network, asked: string, segments: seq<Segment>, s: Strategy, cacheNum: int, k: nat,
                      num: nat, done: bool, rest: seq<nat>)
    requires k < |segments| && num < cacheNum
    requires done || segments[k].hash == asked || num < cacheNum - 1
    requires Selects(net, asked, segments, s, cacheNum, k + 1, if IsCounted(net, s, k) then num + 1 else num,
                     done || segments[k].hash == asked, rest)
    ensures Selects(net, asked, segments, s, cacheNum, k, num, done, [k] + rest)
  {
    assert ([k] + rest)[1..] == rest;
    forall i | 0 <= i < |rest| ensures k + 1 <= rest[i] {
      assert rest[i] in rest;
    }
    NothingBefore(net, s, rest, k);
    assert Seen(segments, asked, k, done, k) <==> done || segments[k].hash == asked;
    forall q: nat
      ensures q in [k] + rest <==>
        && k <= q < |segments|
        && num + CountedBefore(net, s, [k] + rest, q) < cacheNum - if Seen(segments, asked, k, done, q) then 0 else 1
    {
      if k < q < |segments| {
        SeenStep(segments, asked, k, done, q);
      }
    }
  }

  /** The segments examined are those of the rule. */
  lemma {:induction false} SelectFollowsRule(net: Network, fileHash: string, asked: string, segments: seq<Segment>,
                                             s: Strategy, shards: nat, cacheNum: int, k: nat, num: nat, done: bool)
    requires k <= |segments|
    ensures Selects(net, asked, segments, s, cacheNum, k, num, done,
                    Select(net, fileHash, asked, segments, s, shards, cacheNum, k, num, done).0)
    decreases |segments| - k
  {
    if k < |segments| && num < cacheNum {
      var done' := done || segments[k].hash == asked;
      if !done' && num >= cacheNum - 1 {
        SelectFollowsRule(net, fileHash, asked, segments, s, shards, cacheNum, k + 1, num, done');
        SkipKeepsRule(net, asked, segments, s, cacheNum, k, num,
                      Select(net, fileHash, asked, segments, s, shards, cacheNum, k + 1, num, done').0);
      } else {
        var num' := if IsCounted(net, s, k) then num + 1 else num;
        SelectFollowsRule(net, fileHash, asked, segments, s, shards, cacheNum, k + 1, num', done');
        var rest := Select(net, fileHash, asked, segments, s, shards, cacheNum, k + 1, num', done').0;
        TakeKeepsRule(net, asked, segments, s, cacheNum, k, num, done, rest);
      }
    }
  }

  /** What they bring is put together in order, and those that count are counted. */
  lemma {:induction false} SelectPutsTogether(net: Network, fileHash: string, asked: string, segments: seq<Segment>,
                                              s: Strategy, shards: nat, cacheNum: int, k: nat, num: nat, done: bool)
    requires k <= |segments|
    ensures var (examined, resps, total) :=
              Select(net, fileHash, asked, segments, s, shards, cacheNum, k, num, done);
            && InRange(segments, examined)
            && resps == Brought(net, fileHash, asked, segments, s, shards, examined)
            && total == num + CountedBefore(net, s, examined, |segments|)
    decreases |segments| - k
  {
    if k < |segments| && num < cacheNum {
      var done' := done || segments[k].hash == asked;
      if !done' && num >= cacheNum - 1 {
        SelectPutsTogether(net, fileHash, asked, segments, s, shards, cacheNum, k + 1, num, done');
      } else {
        var num' := if IsCounted(net, s, k) then num + 1 else num;
        SelectPutsTogether(net, fileHash, asked, segments, s, shards, cacheNum, k + 1, num', done');
        var rest := Select(net, fileHash, asked, segments, s, shards, cacheNum, k + 1, num', done').0;
        assert ([k] + rest)[1..] == rest;
      }
    }
  }

  /** Selection, exactly: the segments examined are those of the rule, in order; what they bring is put together in that
      order; and those that count are counted. */
  lemma SelectIs(net: Network, fileHash: string, asked: string, segments: seq<Segment>, s: Strategy, shards: nat,
                 cacheNum: int)
    ensures var (examined, resps, total) :=
              Select(net, fileHash, asked, segments, s, shards, cacheNum, 0, 0, false);
            && Selects(net, asked, segments, s, cacheNum, 0, 0, false, examined)
            && InRange(segments, examined)
            && resps == Brought(net, fileHash, asked, segments, s, shards, examined)
            && total == CountedBefore(net, s, examined, |segments|)
  {
    SelectFollowsRule(net, fileHash, asked, segments, s, shards, cacheNum, 0, 0, false);
    SelectPutsTogether(net, fileHash, asked, segments, s, shards, cacheNum, 0, 0, false);
  }

  // ---------- What an examined segment brings ----------

  /** Nothing when enough neighbours have the segment; what the neighbours share when one of them offers something; what
      can be read from storage otherwise. */
  lemma ExamineIs(net: Network, k: nat, fileHash: string, asked: string, segment: Segment, s: Strategy, shards: nat)
    ensures var (resps, counts) := Examine(net, k, fileHash, asked, segment, s, shards);
            var adverts := net.adverts(k);
            && (counts <==> IsCounted(net, s, k))
            && if !IsCounted(net, s, k) then resps == []
               else if adverts.Some? && shards > 0 && Offered(net, k, adverts.value)
               then resps == Share(net, k, fileHash, segment.hash, adverts.value, shards, |adverts.value|).0 != []
               else resps == FromStorage(net, k, fileHash, asked, segment, shards, |segment.fragments|)
  {
    if net.adverts(k).Some? {
      SharingBringsIff(net, k, fileHash, segment.hash, net.adverts(k).value, shards);
    }
  }

  predicate IsReadable(net: Network, k: nat, f: nat) { net.miner(k, f) && net.stored(k, f) }

  /** These are the first `shards` readable ones of n fragments, in order. */
  ghost predicate FirstReadable(net: Network, k: nat, shards: nat, n: nat, read: seq<nat>) {
    && |read| <= shards
    && (forall i :: 0 <= i < |read| ==> read[i] < n && IsReadable(net, k, read[i]))
    && (forall i, j :: 0 <= i < j < |read| ==> read[i] < read[j])
    && (forall f: nat :: f < n && IsReadable(net, k, f) ==>
          f in read || (|read| == shards && forall i :: 0 <= i < |read| ==> read[i] < f))
  }

  /** Reading from storage, exactly: the first `shards` fragments that can be read, under the segment asked for. */
  lemma {:induction false} StorageIs(net: Network, k: nat, fileHash: string, asked: string, segment: Segment,
                                     shards: nat, n: nat) returns (read: seq<nat>)
    requires n <= |segment.fragments|
    ensures FirstReadable(net, k, shards, n, read)
    ensures var resps := FromStorage(net, k, fileHash, asked, segment, shards, n);
            && |resps| == |read|
            && forall i :: 0 <= i < |read| ==> resps[i] == Response(fileHash, asked, segment.fragments[read[i]], Site)
  {
    if n == 0 {
      read := [];
    } else {
      read := StorageIs(net, k, fileHash, asked, segment, shards, n - 1);
      if |read| < shards && IsReadable(net, k, n - 1) {
        var before := read;
        read := read + [n - 1];
        assert forall f <- before :: f in read;
        assert (n - 1) as nat in read;
      }
    }
  }

  // ---------- How many segments a strategy allows ----------

  /** The cache number, defaults included: the minimum and one more for so many segments as there are neighbours, up to
      the maximum. */
  lemma CacheNumIs(strategy: Strategy, segments: nat) returns (extra: nat)
    requires strategy.neighbours >= 0
    ensures var neighbours := if strategy.neighbours == 0 then 64 else strategy.neighbours;
            var least := if strategy.minCached == 0 then 3 else strategy.minCached;
            var most := if strategy.maxCached == 0 then 16 else strategy.maxCached;
            && extra * neighbours <= segments < (extra + 1) * neighbours
            && CacheNum(WithDefaults(strategy), segments) == if least + extra > most then most else least + extra
  {
    var neighbours := if strategy.neighbours == 0 then 64 else strategy.neighbours;
    extra := segments / neighbours;
  }
}
