/** Filling a cache: DownloadStoragedFiles and SharedSegmentFromNeighborCacher of
    cd2n-node/actors/resource_actor.go. What each neighbour, miner and storage node answers is given in advance. */
module Selection {
  import opened Chunks
  import opened Common
  import opened Recovery
  import Shuffle

  datatype Origin = Site | Neighbour(account: string)

  /** One fragment put at the cache's disposal, under the key fileHash/segmentHash/fragment. */
  datatype Response = Response(fileHash: string, segmentHash: string, fragment: string, origin: Origin)

  /** What a neighbour says it has of a segment. */
  datatype Advert = Advert(loading: bool, files: seq<string>, account: string)

  datatype Strategy = Strategy(maxCached: int, avgCached: int, minCached: int, neighbours: int)

  /** The answers of the network: which neighbours know segment k, or that the query failed; whether neighbour p
      sends its file number i; and whether fragment f can be read from storage. */
  datatype Network = Network(
    adverts: nat -> Option<seq<Advert>>,
    sends: (nat, nat, nat) -> bool,
    miner: (nat, nat) -> bool,
    stored: (nat, nat) -> bool)

  // ---------- Sharing between neighbours ----------

  predicate NewFile(resps: seq<Response>, file: string) {
    forall resp <- resps :: resp.fragment != file
  }

  predicate KeysDiffer(resps: seq<Response>) {
    forall i, j :: 0 <= i < j < |resps| ==> resps[i].fragment != resps[j].fragment
  }

  function LongestList(peers: seq<Advert>): (n: nat)
    ensures forall peer <- peers :: |peer.files| <= n
  {
    if peers == [] then 0
    else if |peers[0].files| > LongestList(peers[1..]) then |peers[0].files| else LongestList(peers[1..])
  }

  predicate Has(resps: seq<Response>, file: string) { !NewFile(resps, file) }

  function ResponseOf(fileHash: string, segmentHash: string, peer: Advert, i: nat): Response
    requires i < |peer.files|
  {
    Response(fileHash, segmentHash, peer.files[i], Neighbour(peer.account))
  }

  /** The fragments held after the first i files of a neighbour, having held `had` before. */
  function Take(fileHash: string, segmentHash: string, peer: Advert, sends: nat -> bool, had: seq<Response>, i: nat):
      seq<Response>
    requires i <= |peer.files|
  {
    if i == 0 then had
    else
      var before := Take(fileHash, segmentHash, peer, sends, had, i - 1);
      if NewFile(before, peer.files[i - 1]) && sends(i - 1)
      then before + [ResponseOf(fileHash, segmentHash, peer, i - 1)] else before
  }

  function From(net: Network, k: nat, p: nat): nat -> bool { (i: nat) => net.sends(k, p, i) }

  /** The fragments held after the first p neighbours of segment k, and which of them were asked. */
  function Share(net: Network, k: nat, fileHash: string, segmentHash: string, peers: seq<Advert>, shards: nat, p: nat):
      (seq<Response>, seq<nat>)
    requires p <= |peers|
  {
    if p == 0 then ([], [])
    else
      var (held, asked) := Share(net, k, fileHash, segmentHash, peers, shards, p - 1);
      if peers[p - 1].loading || |held| >= shards then (held, asked)
      else (Take(fileHash, segmentHash, peers[p - 1], From(net, k, p - 1), held, |peers[p - 1].files|), asked + [p - 1])
  }

  method FetchFromNeighbour(fileHash: string, segmentHash: string, peer: Advert, sends: nat -> bool, had: seq<Response>)
      returns (resps: seq<Response>)
    ensures resps == Take(fileHash, segmentHash, peer, sends, had, |peer.files|)
  {
    resps := had;
    for i := 0 to |peer.files|
      invariant resps == Take(fileHash, segmentHash, peer, sends, had, i)
    {
      if NewFile(resps, peer.files[i]) && sends(i) {
        resps := resps + [Response(fileHash, segmentHash, peer.files[i], Neighbour(peer.account))];
      }
    }
  }

  lemma {:induction false} EnoughIsEnough(net: Network, k: nat, fileHash: string, segmentHash: string,
                                          peers: seq<Advert>, shards: nat, p: nat, n: nat)
    requires p <= n <= |peers| && |Share(net, k, fileHash, segmentHash, peers, shards, p).0| >= shards
    ensures Share(net, k, fileHash, segmentHash, peers, shards, n)
         == Share(net, k, fileHash, segmentHash, peers, shards, p)
    decreases n
  {
    if p < n {
      EnoughIsEnough(net, k, fileHash, segmentHash, peers, shards, p, n - 1);
    }
  }

  /** Neighbours in the order they are visited: loading ones are skipped, and the loop ends when enough arrived. */
  method SharedSegmentFromNeighborCacher(net: Network, k: nat, fileHash: string, segmentHash: string,
                                         peers: seq<Advert>, shards: nat) returns (resps: seq<Response>)
    ensures resps == Share(net, k, fileHash, segmentHash, peers, shards, |peers|).0
  {
    resps := [];
    for p := 0 to |peers|
      invariant resps == Share(net, k, fileHash, segmentHash, peers, shards, p).0
    {
      if peers[p].loading {
        continue;
      }
      if |resps| >= shards {
        EnoughIsEnough(net, k, fileHash, segmentHash, peers, shards, p, |peers|);
        break;
      }
      resps := FetchFromNeighbour(fileHash, segmentHash, peers[p], From(net, k, p), resps);
    }
  }

  lemma LongerHasMore(before: seq<Response>, after: seq<Response>, file: string)
    requires before <= after && Has(before, file)
    ensures Has(after, file)
  {
    var resp :| resp in before && resp.fragment == file;
    assert resp in after;
  }

  predicate Under(resps: seq<Response>, fileHash: string, segmentHash: string) {
    forall resp <- resps :: resp.fileHash == fileHash && resp.segmentHash == segmentHash
  }

  lemma {:induction false} TakeKeeps(fileHash: string, segmentHash: string, peer: Advert, sends: nat -> bool,
                                     had: seq<Response>, i: nat)
    requires KeysDiffer(had) && Under(had, fileHash, segmentHash) && i <= |peer.files|
    ensures var held := Take(fileHash, segmentHash, peer, sends, had, i);
            had <= held && KeysDiffer(held) && Under(held, fileHash, segmentHash) && |held| <= |had| + i
  {
    if i > 0 {
      TakeKeeps(fileHash, segmentHash, peer, sends, had, i - 1);
      var before := Take(fileHash, segmentHash, peer, sends, had, i - 1);
      if NewFile(before, peer.files[i - 1]) {
        forall j | 0 <= j < |before| ensures before[j].fragment != peer.files[i - 1] {
          assert before[j] in before;
        }
      }
    }
  }

  lemma {:induction false} TakeTakes(fileHash: string, segmentHash: string, peer: Advert, sends: nat -> bool,
                                     had: seq<Response>, i: nat, j: nat)
    requires j < i <= |peer.files| && sends(j)
    ensures Has(Take(fileHash, segmentHash, peer, sends, had, i), peer.files[j])
    decreases i
  {
    var before, after := Take(fileHash, segmentHash, peer, sends, had, i - 1),
                         Take(fileHash, segmentHash, peer, sends, had, i);
    if j == i - 1 {
      if NewFile(before, peer.files[j]) {
        assert after[|before|] in after;
      }
    } else {
      TakeTakes(fileHash, segmentHash, peer, sends, had, i - 1, j);
      LongerHasMore(before, after, peer.files[j]);
    }
  }

  lemma LongestIsLongest(peers: seq<Advert>, p: nat)
    requires p < |peers|
    ensures |peers[p].files| <= LongestList(peers)
  {
    assert peers[p] in peers;
  }

  /** Neighbour sharing, for every order of the neighbours and every pattern of failures: the keys are all different;
      loading neighbours are not asked; none is asked once `shards` fragments are there, so there are fewer than that
      plus the longest list; and a neighbour is passed over only when loading or not needed. */
  lemma {:induction false} SharingIsSound(net: Network, k: nat, fileHash: string, segmentHash: string,
                                          peers: seq<Advert>, shards: nat, p: nat)
    requires p <= |peers|
    ensures var (held, asked) := Share(net, k, fileHash, segmentHash, peers, shards, p);
            && KeysDiffer(held) && Under(held, fileHash, segmentHash)
            && (held == [] || |held| < shards + LongestList(peers))
            && (forall q: nat :: q in asked ==> q < p && !peers[q].loading)
            && (forall q: nat :: q < p && !peers[q].loading && q !in asked ==> |held| >= shards)
  {
    if p > 0 {
      SharingIsSound(net, k, fileHash, segmentHash, peers, shards, p - 1);
      var (before, asked) := Share(net, k, fileHash, segmentHash, peers, shards, p - 1);
      TakeKeeps(fileHash, segmentHash, peers[p - 1], From(net, k, p - 1), before, |peers[p - 1].files|);
      LongestIsLongest(peers, p - 1);
    }
  }

  /** A neighbour is asked exactly when it is not loading and fewer than `shards` fragments are held at its turn. */
  lemma {:induction false} AskedIff(net: Network, k: nat, fileHash: string, segmentHash: string, peers: seq<Advert>,
                                    shards: nat, p: nat, q: nat)
    requires p <= |peers|
    ensures q in Share(net, k, fileHash, segmentHash, peers, shards, p).1
       <==> q < p && !peers[q].loading && |Share(net, k, fileHash, segmentHash, peers, shards, q).0| < shards
    decreases p
  {
    if p > 0 {
      AskedIff(net, k, fileHash, segmentHash, peers, shards, p - 1, q);
    }
  }

  /** Whatever an asked neighbour sends is among the fragments at the end, from it or from an earlier one. */
  lemma {:induction false} SharingIsComplete(net: Network, k: nat, fileHash: string, segmentHash: string,
                                             peers: seq<Advert>, shards: nat, p: nat, q: nat, i: nat)
    requires p <= |peers| && q in Share(net, k, fileHash, segmentHash, peers, shards, p).1
    requires q < |peers| && i < |peers[q].files| && net.sends(k, q, i)
    ensures Has(Share(net, k, fileHash, segmentHash, peers, shards, p).0, peers[q].files[i])
    decreases p
  {
    var (before, asked) := Share(net, k, fileHash, segmentHash, peers, shards, p - 1);
    SharingIsSound(net, k, fileHash, segmentHash, peers, shards, p - 1);
    TakeKeeps(fileHash, segmentHash, peers[p - 1], From(net, k, p - 1), before, |peers[p - 1].files|);
    if q in asked {
      SharingIsComplete(net, k, fileHash, segmentHash, peers, shards, p - 1, q, i);
      LongerHasMore(before, Share(net, k, fileHash, segmentHash, peers, shards, p).0, peers[q].files[i]);
    } else {
      TakeTakes(fileHash, segmentHash, peers[q], From(net, k, q), before, |peers[q].files|, i);
    }
  }

  /** The response is file i of neighbour p, which that neighbour sends. */
  predicate IsSent(net: Network, k: nat, fileHash: string, segmentHash: string, peers: seq<Advert>, p: nat, i: nat,
                   resp: Response) {
    && p < |peers| && i < |peers[p].files| && net.sends(k, p, i)
    && resp == Response(fileHash, segmentHash, peers[p].files[i], Neighbour(peers[p].account))
  }

  lemma {:induction false} TakeIsSent(fileHash: string, segmentHash: string, peer: Advert, sends: nat -> bool,
                                      had: seq<Response>, n: nat, resp: Response) returns (i: nat)
    requires n <= |peer.files| && resp in Take(fileHash, segmentHash, peer, sends, had, n) && resp !in had
    ensures i < n && sends(i) && resp == ResponseOf(fileHash, segmentHash, peer, i) && NewFile(had, peer.files[i])
  {
    var before := Take(fileHash, segmentHash, peer, sends, had, n - 1);
    if resp in before {
      i := TakeIsSent(fileHash, segmentHash, peer, sends, had, n - 1, resp);
    } else {
      i := n - 1;
      TakeGrows(fileHash, segmentHash, peer, sends, had, n - 1);
    }
  }

  lemma {:induction false} TakeGrows(fileHash: string, segmentHash: string, peer: Advert, sends: nat -> bool,
                                     had: seq<Response>, n: nat)
    requires n <= |peer.files|
    ensures had <= Take(fileHash, segmentHash, peer, sends, had, n)
  {
    if n > 0 {
      TakeGrows(fileHash, segmentHash, peer, sends, had, n - 1);
    }
  }

  /** Whatever is held was sent: each fragment comes, under its own key and account, from the first neighbour asked that
      sends it. */
  lemma {:induction false} SharedIsSent(net: Network, k: nat, fileHash: string, segmentHash: string, peers: seq<Advert>,
                                        shards: nat, n: nat, resp: Response) returns (p: nat, i: nat)
    requires n <= |peers| && resp in Share(net, k, fileHash, segmentHash, peers, shards, n).0
    ensures p < n && p in Share(net, k, fileHash, segmentHash, peers, shards, n).1
    ensures IsSent(net, k, fileHash, segmentHash, peers, p, i, resp)
    ensures forall q: nat, j: nat ::
              q < p && q in Share(net, k, fileHash, segmentHash, peers, shards, n).1
              && j < |peers[q].files| && net.sends(k, q, j)
              ==> peers[q].files[j] != resp.fragment
    decreases n
  {
    var (before, asked) := Share(net, k, fileHash, segmentHash, peers, shards, n - 1);
    SharingIsSound(net, k, fileHash, segmentHash, peers, shards, n - 1);
    if resp in before {
      p, i := SharedIsSent(net, k, fileHash, segmentHash, peers, shards, n - 1, resp);
    } else {
      p := n - 1;
      i := TakeIsSent(fileHash, segmentHash, peers[p], From(net, k, p), before, |peers[p].files|, resp);
      forall q: nat, j: nat | q in asked && j < |peers[q].files| && net.sends(k, q, j)
        ensures peers[q].files[j] != resp.fragment
      {
        SharingIsComplete(net, k, fileHash, segmentHash, peers, shards, n - 1, q, j);
      }
    }
  }

  // ---------- Selecting segments ----------

  /** NewResourceActor replaces the values left at zero. */
  function WithDefaults(s: Strategy): Strategy {
    Strategy(if s.maxCached == 0 then 16 else s.maxCached, if s.avgCached == 0 then 5 else s.avgCached,
             if s.minCached == 0 then 3 else s.minCached, if s.neighbours == 0 then 64 else s.neighbours)
  }

  /** Go's division of a length by a nonzero number truncates toward zero. */
  function Quotient(n: nat, d: int): int
    requires d != 0
  {
    if d > 0 then n / d else -(n / -d)
  }

  function CacheNum(s: Strategy, segments: nat): int
    requires s.neighbours != 0
  {
    var n := s.minCached + Quotient(segments, s.neighbours);
    if n > s.maxCached then s.maxCached else n
  }

  /** The fragments read from storage, at most `shards`, among the first f of segment k. They are filed under the
      segment that was asked for, whatever segment they belong to. */
  function FromStorage(net: Network, k: nat, fileHash: string, asked: string, segment: Segment, shards: nat, f: nat):
      seq<Response>
    requires f <= |segment.fragments|
  {
    if f == 0 then []
    else
      var before := FromStorage(net, k, fileHash, asked, segment, shards, f - 1);
      if |before| < shards && net.miner(k, f - 1) && net.stored(k, f - 1)
      then before + [Response(fileHash, asked, segment.fragments[f - 1], Site)] else before
  }

  method ReadFromStorage(net: Network, k: nat, fileHash: string, asked: string, segment: Segment, shards: nat)
      returns (resps: seq<Response>)
    ensures resps == FromStorage(net, k, fileHash, asked, segment, shards, |segment.fragments|)
  {
    resps := [];
    for f := 0 to |segment.fragments|
      invariant resps == FromStorage(net, k, fileHash, asked, segment, shards, f)
    {
      if |resps| >= shards {
        StorageIsEnough(net, k, fileHash, asked, segment, shards, f, |segment.fragments|);
        break;
      }
      if net.miner(k, f) && net.stored(k, f) {
        resps := resps + [Response(fileHash, asked, segment.fragments[f], Site)];
      }
    }
  }

  lemma {:induction false} StorageIsEnough(net: Network, k: nat, fileHash: string, asked: string, segment: Segment,
                                           shards: nat, f: nat, n: nat)
    requires f <= n <= |segment.fragments|
    requires |FromStorage(net, k, fileHash, asked, segment, shards, f)| >= shards
    ensures FromStorage(net, k, fileHash, asked, segment, shards, n)
         == FromStorage(net, k, fileHash, asked, segment, shards, f)
    decreases n
  {
    if f < n {
      StorageIsEnough(net, k, fileHash, asked, segment, shards, f, n - 1);
    }
  }

  /** What examining segment k brings, and whether it counts: not when enough neighbours have it already. */
  function Examine(net: Network, k: nat, fileHash: string, asked: string, segment: Segment, s: Strategy, shards: nat):
      (seq<Response>, bool)
  {
    var adverts := net.adverts(k);
    if adverts.Some? && |adverts.value| >= s.avgCached then ([], false)
    else
      var shared := if adverts.None? then []
                    else Share(net, k, fileHash, segment.hash, adverts.value, shards, |adverts.value|).0;
      if shared != [] then (shared, true)
      else (FromStorage(net, k, fileHash, asked, segment, shards, |segment.fragments|), true)
  }

  /** The loop from segment k on: which segments are examined, what they bring, and how many were counted in the end. */
  function Select(net: Network, fileHash: string, asked: string, segments: seq<Segment>, s: Strategy, shards: nat,
                  cacheNum: int, k: nat, num: nat, done: bool): (seq<nat>, seq<Response>, nat)
    requires k <= |segments|
    decreases |segments| - k
  {
    if k == |segments| || num >= cacheNum then ([], [], num)
    else
      var done' := done || segments[k].hash == asked;
      if !done' && num >= cacheNum - 1 then
        Select(net, fileHash, asked, segments, s, shards, cacheNum, k + 1, num, done')
      else
        var (resps, counts) := Examine(net, k, fileHash, asked, segments[k], s, shards);
        var (examined, rest, total) := Select(net, fileHash, asked, segments, s, shards, cacheNum, k + 1,
                                              if counts then num + 1 else num, done');
        ([k] + examined, resps + rest, total)
  }

  method ExamineSegment(net: Network, k: nat, fileHash: string, asked: string, segment: Segment, s: Strategy,
                        shards: nat)
      returns (resps: seq<Response>, counts: bool)
    ensures (resps, counts) == Examine(net, k, fileHash, asked, segment, s, shards)
  {
    var adverts := net.adverts(k);
    if adverts.Some? {
      if |adverts.value| >= s.avgCached {
        return [], false;
      }
      resps := SharedSegmentFromNeighborCacher(net, k, fileHash, segment.hash, adverts.value, shards);
      if |resps| > 0 {
        return resps, true;
      }
    }
    resps := ReadFromStorage(net, k, fileHash, asked, segment, shards);
    counts := true;
  }

  lemma Regroup<T>(a: seq<T>, b: seq<T>, c: seq<T>)
    ensures a + (b + c) == (a + b) + c
  {
  }

  /** The loop, over the shuffled segments. */
  method SelectSegments(net: Network, fileHash: string, asked: string, segments: seq<Segment>, s: Strategy, shards: nat,
                        cacheNum: int) returns (totalResps: seq<Response>, examined: seq<nat>, num: nat)
    ensures (examined, totalResps, num) == Select(net, fileHash, asked, segments, s, shards, cacheNum, 0, 0, false)
  {
    ghost var all := Select(net, fileHash, asked, segments, s, shards, cacheNum, 0, 0, false);
    totalResps, examined, num := [], [], 0;
    var done := false;
    var k := 0;
    assert [] + all.0 == all.0 && [] + all.1 == all.1;
    while k < |segments| && num < cacheNum
      invariant 0 <= k <= |segments|
      invariant var rest := Select(net, fileHash, asked, segments, s, shards, cacheNum, k, num, done);
                all.0 == examined + rest.0 && all.1 == totalResps + rest.1 && all.2 == rest.2
      decreases |segments| - k
    {
      if segments[k].hash == asked {
        done := true;
      }
      if done || num < cacheNum - 1 {
        var resps, counts := ExamineSegment(net, k, fileHash, asked, segments[k], s, shards);
        ghost var rest := Select(net, fileHash, asked, segments, s, shards, cacheNum, k + 1,
                                 if counts then num + 1 else num, done);
        Regroup(examined, [k], rest.0);
        Regroup(totalResps, resps, rest.1);
        totalResps := totalResps + resps;
        examined := examined + [k];
        if counts {
          num := num + 1;
        }
      }
      k := k + 1;
    }
    assert examined + [] == examined && totalResps + [] == totalResps;
  }

  method DownloadStoragedFiles(net: Network, fileHash: string, asked: string, segments: array<Segment>,
                               choices: seq<nat>, strategy: Strategy, shards: nat)
      returns (totalResps: seq<Response>, examined: seq<nat>, num: nat)
    requires |choices| == segments.Length && Shuffle.Drawn(choices)
    modifies segments
    ensures segments[..] == Shuffle.Shuffled(old(segments[..]), choices)
    ensures (examined, totalResps, num)
         == Select(net, fileHash, asked, segments[..], WithDefaults(strategy), shards,
                   CacheNum(WithDefaults(strategy), segments.Length), 0, 0, false)
  {
    var s := WithDefaults(strategy);
    Shuffle.ShuffleSegments(segments, choices);
    totalResps, examined, num :=
      SelectSegments(net, fileHash, asked, segments[..], s, shards, CacheNum(s, segments.Length));
  }

  // ---------- The reserved slot ----------

  predicate Requested(segments: seq<Segment>, asked: string, r: nat) {
    r < |segments| && segments[r].hash == asked && forall k :: 0 <= k < r ==> segments[k].hash != asked
  }

  lemma {:induction false} SlotIsReserved(net: Network, fileHash: string, asked: string, segments: seq<Segment>,
                                          s: Strategy, shards: nat, cacheNum: int, k: nat, num: nat, r: nat)
    requires Requested(segments, asked, r) && k <= r && num < cacheNum
    ensures r in Select(net, fileHash, asked, segments, s, shards, cacheNum, k, num, false).0
    decreases |segments| - k
  {
    if k < r {
      SlotIsReserved(net, fileHash, asked, segments, s, shards, cacheNum, k + 1, num, r);
      if num < cacheNum - 1 {
        SlotIsReserved(net, fileHash, asked, segments, s, shards, cacheNum, k + 1, num + 1, r);
      }
    }
  }

  lemma {:induction false} CountStaysWithin(net: Network, fileHash: string, asked: string, segments: seq<Segment>,
                                            s: Strategy, shards: nat, cacheNum: int, k: nat, num: nat, done: bool)
    requires k <= |segments|
    ensures var total := Select(net, fileHash, asked, segments, s, shards, cacheNum, k, num, done).2;
            num <= total && (total <= cacheNum || total == num)
    decreases |segments| - k
  {
    if k < |segments| && num < cacheNum {
      var done' := done || segments[k].hash == asked;
      CountStaysWithin(net, fileHash, asked, segments, s, shards, cacheNum, k + 1, num, done');
      CountStaysWithin(net, fileHash, asked, segments, s, shards, cacheNum, k + 1, num + 1, done');
    }
  }

  /** Reserved slot: for every order of the segments and every answer of the network, the segment asked for is
      examined exactly when the cache number is positive, and never more segments are counted than that number. */
  lemma RequestedIsExaminedIff(net: Network, fileHash: string, asked: string, segments: seq<Segment>, s: Strategy,
                               shards: nat, cacheNum: int, r: nat)
    requires Requested(segments, asked, r)
    ensures var (examined, _, num) := Select(net, fileHash, asked, segments, s, shards, cacheNum, 0, 0, false);
            && (r in examined <==> cacheNum > 0)
            && num <= if cacheNum > 0 then cacheNum else 0
  {
    CountStaysWithin(net, fileHash, asked, segments, s, shards, cacheNum, 0, 0, false);
    if cacheNum > 0 {
      SlotIsReserved(net, fileHash, asked, segments, s, shards, cacheNum, 0, 0, r);
    }
  }

  /** A strategy without negative values always leaves room. */
  lemma PositiveStrategy(strategy: Strategy, segments: nat)
    requires strategy.minCached >= 0 && strategy.maxCached >= 0 && strategy.neighbours >= 0
    ensures CacheNum(WithDefaults(strategy), segments) > 0
  {
  }

  // ---------- The keys of the fragments ----------

  lemma {:induction false} StorageFilesUnderAsked(net: Network, k: nat, fileHash: string, asked: string,
                                                  segment: Segment, shards: nat, f: nat)
    requires f <= |segment.fragments|
    ensures var resps := FromStorage(net, k, fileHash, asked, segment, shards, f);
            Under(resps, fileHash, asked) && |resps| <= shards
            && forall resp <- resps :: resp.fragment in segment.fragments
  {
    if f > 0 {
      StorageFilesUnderAsked(net, k, fileHash, asked, segment, shards, f - 1);
    }
  }

  predicate Readable(net: Network, k: nat, segment: Segment) {
    exists f: nat | f < |segment.fragments| :: net.miner(k, f) && net.stored(k, f)
  }

  /** Some neighbour that is not loading sends a file it lists. */
  predicate Offered(net: Network, k: nat, peers: seq<Advert>) {
    exists p: nat, i: nat | p < |peers| && i < |peers[p].files| :: !peers[p].loading && net.sends(k, p, i)
  }

  lemma {:induction false} StorageBringsIff(net: Network, k: nat, fileHash: string, asked: string, segment: Segment,
                                            shards: nat, f: nat)
    requires f <= |segment.fragments|
    ensures FromStorage(net, k, fileHash, asked, segment, shards, f) != []
       <==> shards > 0 && exists g: nat | g < f :: net.miner(k, g) && net.stored(k, g)
  {
    if f > 0 {
      StorageBringsIff(net, k, fileHash, asked, segment, shards, f - 1);
    }
  }

  lemma {:induction false} TakeBringsOnlyIf(fileHash: string, segmentHash: string, peer: Advert, sends: nat -> bool,
                                            i: nat)
    requires i <= |peer.files| && Take(fileHash, segmentHash, peer, sends, [], i) != []
    ensures exists j: nat | j < i :: sends(j)
  {
    if Take(fileHash, segmentHash, peer, sends, [], i - 1) == [] {
      assert sends(i - 1);
    } else {
      TakeBringsOnlyIf(fileHash, segmentHash, peer, sends, i - 1);
    }
  }

  lemma {:induction false} SharingBringsOnlyIf(net: Network, k: nat, fileHash: string, segmentHash: string,
                                               peers: seq<Advert>, shards: nat, p: nat)
    requires p <= |peers| && Share(net, k, fileHash, segmentHash, peers, shards, p).0 != []
    ensures shards > 0 && Offered(net, k, peers)
  {
    if Share(net, k, fileHash, segmentHash, peers, shards, p - 1).0 == [] {
      TakeBringsOnlyIf(fileHash, segmentHash, peers[p - 1], From(net, k, p - 1), |peers[p - 1].files|);
      var i: nat :| i < |peers[p - 1].files| && From(net, k, p - 1)(i);
      assert net.sends(k, p - 1, i);
    } else {
      SharingBringsOnlyIf(net, k, fileHash, segmentHash, peers, shards, p - 1);
    }
  }

  /** The neighbours bring something exactly when one of them offers something, in every order. */
  lemma SharingBringsIff(net: Network, k: nat, fileHash: string, segmentHash: string, peers: seq<Advert>, shards: nat)
    ensures Share(net, k, fileHash, segmentHash, peers, shards, |peers|).0 != []
       <==> shards > 0 && Offered(net, k, peers)
  {
    if Share(net, k, fileHash, segmentHash, peers, shards, |peers|).0 != [] {
      SharingBringsOnlyIf(net, k, fileHash, segmentHash, peers, shards, |peers|);
    } else if Offered(net, k, peers) && shards > 0 {
      var p: nat, i: nat :| p < |peers| && i < |peers[p].files| && !peers[p].loading && net.sends(k, p, i);
      SharingIsSound(net, k, fileHash, segmentHash, peers, shards, |peers|);
      SharingIsComplete(net, k, fileHash, segmentHash, peers, shards, |peers|, p, i);
    }
  }

  /** What a neighbour sends is copied like any answer of a cache node, so for full fragments of a size that is a
      multiple of 1024 sharing never brings anything. */
  lemma FullFragmentsAreNeverShared(net: Network, k: nat, fileHash: string, segmentHash: string, peers: seq<Advert>,
                                    shards: nat, fragmentSize: nat)
    requires fragmentSize % 1024 == 0
    requires forall p: nat, i: nat :: net.sends(k, p, i) ==> CopySucceeds(fragmentSize)
    ensures Share(net, k, fileHash, segmentHash, peers, shards, |peers|).0 == []
  {
    SharingBringsIff(net, k, fileHash, segmentHash, peers, shards);
  }

  /** The fragments an examined segment brings are filed under that segment exactly when it is the one asked for, or
      enough neighbours have it already, or a neighbour sends some of it, or none of it can be read from storage. What
      is read from storage always goes under the segment asked for. */
  lemma FiledUnderOwnSegmentIff(net: Network, k: nat, fileHash: string, asked: string, segment: Segment, s: Strategy,
                                shards: nat)
    ensures Under(Examine(net, k, fileHash, asked, segment, s, shards).0, fileHash, segment.hash)
       <==> || segment.hash == asked || shards == 0
            || (net.adverts(k).Some?
                && (|net.adverts(k).value| >= s.avgCached || Offered(net, k, net.adverts(k).value)))
            || !Readable(net, k, segment)
  {
    StorageFilesUnderAsked(net, k, fileHash, asked, segment, shards, |segment.fragments|);
    StorageBringsIff(net, k, fileHash, asked, segment, shards, |segment.fragments|);
    var adverts := net.adverts(k);
    if adverts.Some? {
      SharingIsSound(net, k, fileHash, segment.hash, adverts.value, shards, |adverts.value|);
      SharingBringsIff(net, k, fileHash, segment.hash, adverts.value, shards);
    }
    var resps := Examine(net, k, fileHash, asked, segment, s, shards).0;
    if resps != [] {
      assert resps[0] in resps;
    }
  }

  /** For instance when no neighbour knows a segment beside the one asked for: all that is read of it is misfiled. */
  lemma AdjacentSegmentIsMisfiled(net: Network, k: nat, fileHash: string, asked: string, segment: Segment, s: Strategy,
                                  shards: nat)
    requires segment.hash != asked && shards > 0
    requires net.adverts(k) == Some([]) && s.avgCached > 0 && Readable(net, k, segment)
    ensures var resps := Examine(net, k, fileHash, asked, segment, s, shards).0;
            resps != [] && forall resp <- resps :: resp.segmentHash != segment.hash
  {
    StorageFilesUnderAsked(net, k, fileHash, asked, segment, shards, |segment.fragments|);
    StorageBringsIff(net, k, fileHash, asked, segment, shards, |segment.fragments|);
  }
}
