/** The state of CacheActor in cd2n-node/actors/cache_actor.go: the cached items, the counters kept beside them, and
    the queue of downloads. The store is taken to have no errors but missing keys. */
module CacheIndex {
  import opened Common
  import opened CacheKeys

  type u32 = x: int | 0 <= x < 0x1_0000_0000

  datatype Kind = Fragments | Requests

  /** Counters are stored under a key and a suffix for their kind; the two suffixes never make equal keys. */
  type Records = map<(string, Kind), u32>

  /** What is to be downloaded for a queued key. */
  datatype Task = Task(source: string, fromSite: bool)

  datatype State = State(items: set<string>, record: Records, queue: map<string, Task>)

  const EMPTY := State({}, map[], map[])

  /** isUri tells the keys that parse as a request URI; shards is the number of fragments that restores a segment;
      digest is the hash of the last part of a URL. */
  datatype Config = Config(reading: Reading, isUri: string -> bool, shards: nat, digest: string -> string)

  function WrapU32(x: int): u32 { if 0 <= x < 0x1_0000_0000 then x else x % 0x1_0000_0000 }

  /** GetFileRecord: zero when there is none. */
  function Count(record: Records, key: string, kind: Kind): u32 {
    if (key, kind) in record then record[(key, kind)] else 0
  }

  // ---------- The callbacks ----------

  function OnAdd(cfg: Config, record: Records, k: string): Records {
    if cfg.isUri(k) then record
    else
      var key := CounterKey(cfg.reading, k);
      record[(key, Fragments) := WrapU32(1 + Count(record, key, Fragments))]
  }

  function OnDelete(cfg: Config, record: Records, k: string): Records {
    var key := CounterKey(cfg.reading, k);
    if (key, Fragments) !in record then record
    else
      var value := if record[(key, Fragments)] > 0 then record[(key, Fragments)] - 1 else 0;
      var record' := record[(key, Fragments) := value];
      if value < cfg.shards then record'[(key, Requests) := 0] else record'
  }

  // ---------- Queries ----------

  /** Level 0 is the owner's, 3 the untrusted one. `light` says that the load ratio is below 0.8. */
  predicate Admits(level: int, light: bool, req: int) {
    level == 0 || (light && level < 3) || (level < 2 && req >= 2) || req > 4
  }

  /** The key of what is wanted: a segment under its own key, the resource of a URL under a hash. */
  function KeyOf(cfg: Config, source: string, isUrl: bool): string {
    if isUrl then cfg.digest(source) else source
  }

  /** The part of QueryCacheResource that counts the request and may queue the key for download. A key that is queued
      already keeps its task. */
  function CountRequest(cfg: Config, s: State, source: string, isUrl: bool, level: int, light: bool): State {
    var key := KeyOf(cfg, source, isUrl);
    var req := Count(s.record, key, Requests) + 1;
    s.(record := s.record[(key, Requests) := WrapU32(req)],
       queue := if Admits(level, light, req) && key !in s.queue then s.queue[key := Task(source, isUrl)] else s.queue)
  }

  function FoundAs(item: string, key: string): seq<string> {
    if item == key then [item] else if Contains(item, key) then [BaseOf(item)] else []
  }

  /** What the traversal of the cache finds for a segment key, in the order the cache is traversed. */
  function Traverse(order: seq<string>, key: string): seq<string> {
    if order == [] then []
    else FoundAs(order[0], key) + Traverse(order[1..], key)
  }

  function Lookup(record: Records, order: seq<string>, key: string): seq<string> {
    if Count(record, key, Fragments) <= 0 then [] else Traverse(order, key)
  }

  lemma Regroup(a: seq<string>, b: seq<string>, c: seq<string>)
    ensures a + (b + c) == (a + b) + c
  {
  }

  /** `order` lists the items, each once. */
  ghost predicate Lists(order: seq<string>, items: set<string>) {
    multiset(order) == multiset(items)
  }

  // ---------- When the counters agree with the cache ----------

  /** The cached items whose counter is kept under this key. */
  function Under(cfg: Config, items: set<string>, key: string): set<string> {
    set k <- items | CounterKey(cfg.reading, k) == key
  }

  ghost predicate Agrees(cfg: Config, s: State) {
    forall key :: Count(s.record, key, Fragments) == |Under(cfg, s.items, key)|
  }

  // ---------- What a query finds, on hash keys ----------

  /** Fragments are cached under hash keys, resources of URLs under a single hash; and no segment and fragment of a
      fragment key are together the key asked for. */
  predicate HashKey(k: string, key: string, length: nat) {
    (IsFragmentKey(k, length) && k[length + 1..] != key) || IsHash(k, length)
  }

  ghost predicate HashKeyed(items: set<string>, key: string, length: nat) {
    IsSegmentKey(key, length) && forall k <- items :: HashKey(k, key, length)
  }

  lemma HashIsElsewhere(k: string, key: string, length: nat)
    requires IsHash(k, length) && IsSegmentKey(key, length)
    ensures !Contains(k, key) && k != key && LastSlash(k) == 0
  {
  }

  lemma FoundAsIs(item: string, key: string, length: nat)
    requires IsSegmentKey(key, length) && HashKey(item, key, length)
    ensures |FoundAs(item, key)| <= 1
    ensures forall f <- FoundAs(item, key) :: IsHash(f, length) && item == key + "/" + f
    ensures forall f: string :: IsHash(f, length) && item == key + "/" + f ==> f in FoundAs(item, key)
  {
    if IsHash(item, length) {
      HashIsElsewhere(item, key, length);
    } else {
      ContainsIff(item, key, length);
      FragmentDir(item, length);
      assert item == item[..2 * length + 1] + "/" + item[2 * length + 2..];
      assert BaseOf(item) == item[2 * length + 2..];
    }
    forall f: string | IsHash(f, length) && item == key + "/" + f ensures f in FoundAs(item, key) {
      assert item[2 * length + 1] == '/';
      assert item[..2 * length + 1] == key && item[2 * length + 2..] == f;
    }
  }

  lemma {:induction false} TraverseIs(order: seq<string>, key: string, length: nat)
    requires IsSegmentKey(key, length) && forall k <- order :: HashKey(k, key, length)
    ensures forall f <- Traverse(order, key) :: IsHash(f, length) && key + "/" + f in order
    ensures forall f: string :: IsHash(f, length) && key + "/" + f in order ==> f in Traverse(order, key)
  {
    if order != [] {
      assert order == [order[0]] + order[1..] && order[0] in order;
      FoundAsIs(order[0], key, length);
      TraverseIs(order[1..], key, length);
    }
  }

  lemma {:induction false} TraverseRepeatsNothing(order: seq<string>, key: string, length: nat)
    requires IsSegmentKey(key, length) && (forall k <- order :: HashKey(k, key, length)) && Distinct(order)
    ensures Distinct(Traverse(order, key))
  {
    if order != [] {
      assert order == [order[0]] + order[1..] && order[0] in order;
      FoundAsIs(order[0], key, length);
      TraverseIs(order[1..], key, length);
      TraverseRepeatsNothing(order[1..], key, length);
      forall f <- FoundAs(order[0], key) ensures f !in Traverse(order[1..], key) {
        assert order[0] !in order[1..];
      }
      PrependDistinct(FoundAs(order[0], key), Traverse(order[1..], key));
    }
  }

  lemma PrependDistinct(first: seq<string>, rest: seq<string>)
    requires |first| <= 1 && Distinct(rest) && forall f <- first :: f !in rest
    ensures Distinct(first + rest)
  {
    if first != [] {
      assert first + rest == [first[0]] + rest && first[0] in first;
    } else {
      assert first + rest == rest;
    }
  }

  lemma ListsOnce(order: seq<string>, items: set<string>)
    requires Lists(order, items)
    ensures Distinct(order) && forall k: string :: k in order <==> k in items
  {
    forall k: string ensures k in order <==> k in items {
      assert k in order <==> k in multiset(order);
    }
    forall i, j | 0 <= i < j < |order| ensures order[i] != order[j] {
      assert multiset(items)[order[i]] <= 1;
      assert order == order[..j] + order[j..] && order[i] in order[..j] && order[j] in order[j..];
    }
  }

  /** The files are the fragments cached under a segment key, each once. */
  ghost predicate AreFragments(files: seq<string>, items: set<string>, key: string, length: nat) {
    Distinct(files) && forall f: string :: f in files <==> IsHash(f, length) && key + "/" + f in items
  }

  /** What a query for a segment finds is exactly what is cached of it; as written, nothing. */
  lemma LookupIs(cfg: Config, s: State, order: seq<string>, key: string, length: nat)
    requires Agrees(cfg, s) && Lists(order, s.items) && HashKeyed(s.items, key, length)
    ensures cfg.reading.Intended? ==> AreFragments(Lookup(s.record, order, key), s.items, key, length)
    ensures cfg.reading.AsWritten? ==> Lookup(s.record, order, key) == []
  {
    ListsOnce(order, s.items);
    TraverseIs(order, key, length);
    TraverseRepeatsNothing(order, key, length);
    assert Count(s.record, key, Fragments) == |Under(cfg, s.items, key)|;
    match cfg.reading
    case Intended =>
      forall f: string | IsHash(f, length) && key + "/" + f in s.items
        ensures key + "/" + f in Under(cfg, s.items, key)
      {
        FragmentKeyIs(key, f, length);
      }
    case AsWritten =>
      forall k <- s.items ensures CounterKey(AsWritten, k) != key {
        if IsHash(k, length) {
          HashIsElsewhere(k, key, length);
        } else {
          FragmentDir(k, length);
          assert |CounterKey(AsWritten, k)| == 2 * length + 2;
        }
      }
      assert Under(cfg, s.items, key) == {};
  }

  lemma FragmentKeyIs(key: string, f: string, length: nat)
    requires IsSegmentKey(key, length) && IsHash(f, length)
    ensures CounterKey(Intended, key + "/" + f) == key
  {
    var k := key + "/" + f;
    assert k[2 * length + 1] == '/' && k[2 * length + 2..] == f && k[..2 * length + 1] == key;
    LastSlashIs(k, 2 * length + 2);
  }

  datatype Reply = Loading | Hit(files: seq<string>) | Miss

  /** What a reply for a segment says of the cache: a hit lists its cached fragments, a miss says there are none. */
  ghost predicate Tells(reply: Reply, items: set<string>, key: string, length: nat) {
    match reply
    case Loading => false
    case Hit(files) => files != [] && AreFragments(files, items, key, length)
    case Miss => AreFragments([], items, key, length)
  }

  class CacheActor {
    const cfg: Config
    var items: set<string>
    var record: Records
    var queue: map<string, Task>

    ghost function View(): State
      reads this
    {
      State(items, record, queue)
    }

    constructor (cfg: Config)
      ensures this.cfg == cfg && View() == EMPTY
    {
      this.cfg := cfg;
      items, record, queue := {}, map[], map[];
    }

    method GetFileRecord(key: string, kind: Kind) returns (value: u32, ok: bool)
      ensures value == Count(record, key, kind) && (ok <==> (key, kind) in record)
    {
      ok := (key, kind) in record;
      value := if ok then record[(key, kind)] else 0;
    }

    method PutFileRecord(key: string, kind: Kind, value: int)
      modifies this`record
      ensures record == old(record)[(key, kind) := WrapU32(value)]
    {
      record := record[(key, kind) := WrapU32(value)];
    }

    method AddItem(k: string)
      modifies this
      ensures View() == old(View()).(items := old(items) + {k}, record := OnAdd(cfg, old(record), k))
    {
      items := items + {k};
      if cfg.isUri(k) {
        return;
      }
      var value, _ := GetFileRecord(CounterKey(cfg.reading, k), Fragments);
      PutFileRecord(CounterKey(cfg.reading, k), Fragments, 1 + value as int);
    }

    method DeleteItem(k: string)
      modifies this
      ensures View() == old(View()).(items := old(items) - {k}, record := OnDelete(cfg, old(record), k))
    {
      items := items - {k};
      var key := CounterKey(cfg.reading, k);
      var value, ok := GetFileRecord(key, Fragments);
      if ok {
        if value > 0 {
          value := value - 1;
        }
        PutFileRecord(key, Fragments, value);
        if value < cfg.shards {
          PutFileRecord(key, Requests, 0);
        }
      }
    }

    method TraverseCache(order: seq<string>, key: string) returns (res: seq<string>)
      ensures res == Traverse(order, key)
    {
      res := [];
      for i := 0 to |order|
        invariant res + Traverse(order[i..], key) == Traverse(order, key)
      {
        assert order[i..][1..] == order[i + 1..];
        Regroup(res, FoundAs(order[i], key), Traverse(order[i + 1..], key));
        var found := Examine(order[i], key);
        res := res + found;
      }
      assert order[|order|..] == [];
    }

    method Examine(item: string, key: string) returns (found: seq<string>)
      ensures found == FoundAs(item, key)
    {
      if item == key {
        found := [item];
      } else if Contains(item, key) {
        found := [BaseOf(item)];
      } else {
        found := [];
      }
    }

    /** Its first half: count the request, and queue the key when it is admitted. */
    method CountQuery(source: string, isUrl: bool, level: int, light: bool) returns (key: string)
      modifies this
      ensures View() == CountRequest(cfg, old(View()), source, isUrl, level, light)
      ensures key == KeyOf(cfg, source, isUrl)
    {
      key := if isUrl then cfg.digest(source) else source;
      var value, _ := GetFileRecord(key, Requests);
      var req := value as int + 1;
      PutFileRecord(key, Requests, req);
      if level == 0 || (light && level < 3) || (level < 2 && req >= 2) || req > 4 {
        if key !in queue {
          queue := queue[key := Task(source, isUrl)];
        }
      }
    }

    method QueryCacheResource(source: string, isUrl: bool, level: int, light: bool, order: seq<string>,
                              ghost length: nat)
        returns (res: seq<string>)
      requires Lists(order, items)
      modifies this
      ensures View() == CountRequest(cfg, old(View()), source, isUrl, level, light)
      ensures !isUrl ==> res == Lookup(old(record), order, source)
      ensures !isUrl && cfg.reading.Intended? && Agrees(cfg, old(View())) && HashKeyed(items, source, length)
              ==> AreFragments(res, items, source, length)
      ensures isUrl ==> res == if cfg.digest(source) in items then [cfg.digest(source)] else []
    {
      ghost var before := View();
      var key := CountQuery(source, isUrl, level, light);
      assert Lookup(record, order, source) == Lookup(before.record, order, source);
      if Agrees(cfg, before) && HashKeyed(items, source, length) {
        LookupIs(cfg, before, order, source, length);
      }
      if isUrl {
        return if key in items then [key] else [];
      }
      var count, _ := GetFileRecord(key, Fragments);
      if count <= 0 {
        return [];
      }
      res := TraverseCache(order, key);
    }

    /** A query that has passed the credit check, for a segment or for a URL. Only segments answer loading. */
    method Query(source: string, isUrl: bool, level: int, light: bool, order: seq<string>, ghost length: nat)
        returns (reply: Reply)
      requires Lists(order, items)
      modifies this
      ensures !isUrl && source in old(queue) ==> reply == Loading && View() == old(View())
      ensures isUrl || source !in old(queue) ==>
                && View() == CountRequest(cfg, old(View()), source, isUrl, level, light)
                && (isUrl ==> reply == if cfg.digest(source) in items then Hit([cfg.digest(source)]) else Miss)
                && (!isUrl ==> reply == var files := Lookup(old(record), order, source);
                                        if files == [] then Miss else Hit(files))
      ensures !isUrl && source !in old(queue)
              && cfg.reading.Intended? && Agrees(cfg, old(View())) && HashKeyed(items, source, length)
              ==> Tells(reply, items, source, length)
    {
      if !isUrl && source in queue {
        return Loading;
      }
      var files := QueryCacheResource(source, isUrl, level, light, order, length);
      reply := if |files| > 0 then Hit(files) else Miss;
    }

    /** A download has been handed over: the key leaves the queue. */
    method Dequeue(key: string)
      modifies this
      ensures View() == old(View()).(queue := old(queue) - {key})
    {
      queue := queue - {key};
    }
  }
}
