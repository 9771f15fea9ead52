/** Fetching a whole file from the storage network: DownloadFileFromStorage of cd2n-lib/lib.go.
    Every network answer is given in advance: fragment k of segment i is asked for at most once. */
module Storage {
  import opened Common
  import opened Recovery

  /** A fetch that fails may leave anything under the path it was to write, or leave it alone. */
  datatype Fetch = Got(content: Bytes) | Lost(leftover: Option<Bytes>)

  datatype Network = Network(
    dirExists: bool,
    fileCreated: bool,
    metadata: Option<Metadata>,
    miner: (nat, nat) -> bool,
    fetch: (nat, nat) -> Fetch,
    restore: seq<Bytes> -> Option<Bytes>)

  datatype Gathered = Restored | Short | Aborted

  function FragmentPaths(dir: string, segment: Segment): set<Path> {
    set name <- segment.fragments :: Path(dir, name)
  }

  function SegmentPaths(dir: string, segment: Segment): set<Path> {
    {Path(dir, segment.hash)} + FragmentPaths(dir, segment)
  }

  /** Every path the deferred cleanup removes. */
  function TemporaryPaths(dir: string, segments: seq<Segment>): set<Path> {
    if segments == [] then {} else SegmentPaths(dir, segments[0]) + TemporaryPaths(dir, segments[1..])
  }

  // ---------- What is assumed of the network for the file to come back ----------

  function Contents(shard: nat -> Bytes, indices: seq<nat>): seq<Bytes> {
    seq(|indices|, j requires 0 <= j < |indices| => shard(indices[j]))
  }

  ghost predicate Increasing(indices: seq<nat>, bound: nat) {
    && (forall j :: 0 <= j < |indices| ==> indices[j] < bound)
    && (forall j, k :: 0 <= j < k < |indices| ==> indices[j] < indices[k])
  }

  /** One segment: a fetch that succeeds gives the right fragment, any `shards` different fragments restore
      the stored segment, and no two names collide. */
  ghost predicate HonestSegment(net: Network, i: nat, segment: Segment, stored: Bytes, shard: nat -> Bytes,
                                shards: nat) {
    && segment.hash !in segment.fragments
    && Distinct(segment.fragments)
    && (forall k: nat :: k < |segment.fragments| && net.fetch(i, k).Got? ==> net.fetch(i, k).content == shard(k))
    && (forall indices: seq<nat> :: |indices| == shards && Increasing(indices, |segment.fragments|)
          ==> net.restore(Contents(shard, indices)) == Some(stored))
  }

  // ---------- Which fragments arrive ----------

  /** Successful fetches among the first k fragments of segment i. */
  function Arrived(net: Network, i: nat, k: nat): nat {
    if k == 0 then 0 else Arrived(net, i, k - 1) + if net.fetch(i, k - 1).Got? then 1 else 0
  }

  predicate MinersKnown(net: Network, i: nat, k: nat) {
    forall j: nat :: j < k ==> net.miner(i, j)
  }

  /** The segment can be restored: enough fragments arrive before the first miner that cannot be looked up. */
  predicate Reachable(net: Network, i: nat, count: nat, shards: nat) {
    exists k: nat | k <= count :: Arrived(net, i, k) >= shards && MinersKnown(net, i, k)
  }

  lemma {:induction false} ArrivedGrows(net: Network, i: nat, j: nat, k: nat)
    requires j <= k
    ensures Arrived(net, i, j) <= Arrived(net, i, k)
    decreases k
  {
    if j < k {
      ArrivedGrows(net, i, j, k - 1);
    }
  }

  lemma UnreachableIf(net: Network, i: nat, k: nat, count: nat, shards: nat)
    requires k <= count && Arrived(net, i, k) < shards
    requires k == count || !net.miner(i, k)
    ensures !Reachable(net, i, count, shards)
  {
    forall j: nat | j <= count && Arrived(net, i, j) >= shards
      ensures !MinersKnown(net, i, j)
    {
      if j <= k {
        ArrivedGrows(net, i, j, k);
      }
    }
  }

  // ---------- The program ----------

  class TempDir {
    var files: Disk

    constructor (files: Disk)
      ensures this.files == files
    {
      this.files := files;
    }

    method Put(path: Path, content: Bytes)
      modifies this
      ensures files == old(files)[path := content]
    {
      files := files[path := content];
    }

    method Remove(paths: set<Path>)
      modifies this
      ensures files == old(files) - paths
    {
      files := files - paths;
    }
  }

  function ReadAll(files: Disk, paths: seq<Path>): seq<Bytes>
    requires forall path <- paths :: path in files
  {
    seq(|paths|, j requires 0 <= j < |paths| => files[paths[j]])
  }

  /** The fragments collected so far, by index, and where they are. */
  ghost predicate Collected(files: Disk, dir: string, segment: Segment, paths: seq<Path>, indices: seq<nat>, k: nat) {
    && |paths| == |indices| && k <= |segment.fragments| && Increasing(indices, k)
    && forall j :: 0 <= j < |paths| ==> paths[j] == Path(dir, segment.fragments[indices[j]]) && paths[j] in files
  }

  ghost predicate Right(files: Disk, paths: seq<Path>, indices: seq<nat>, shard: nat -> Bytes) {
    && |paths| == |indices|
    && forall j :: 0 <= j < |paths| ==> paths[j] in files && files[paths[j]] == shard(indices[j])
  }

  /** Writing fragment k leaves the fragments collected before it alone: their names differ. */
  lemma LaterFragmentKeepsRight(files: Disk, files': Disk, dir: string, segment: Segment, paths: seq<Path>,
                                indices: seq<nat>, shard: nat -> Bytes, k: nat)
    requires Distinct(segment.fragments) && k < |segment.fragments|
    requires Collected(files, dir, segment, paths, indices, k)
    requires Right(files, paths, indices, shard)
    requires files' - {Path(dir, segment.fragments[k])} == files - {Path(dir, segment.fragments[k])}
    ensures Right(files', paths, indices, shard)
  {
    var path := Path(dir, segment.fragments[k]);
    forall j | 0 <= j < |paths|
      ensures paths[j] in files' && files'[paths[j]] == shard(indices[j])
    {
      assert paths[j] != path;
      assert paths[j] in files - {path};
      assert (files' - {path})[paths[j]] == (files - {path})[paths[j]];
    }
  }

  method FetchFragment(tmp: TempDir, dir: string, segment: Segment, k: nat, answer: Fetch,
                       ghost paths: seq<Path>, ghost indices: seq<nat>, ghost shard: nat -> Bytes)
      returns (arrived: bool)
    requires k < |segment.fragments| && Collected(tmp.files, dir, segment, paths, indices, k)
    modifies tmp
    ensures tmp.files - SegmentPaths(dir, segment) == old(tmp.files) - SegmentPaths(dir, segment)
    ensures Collected(tmp.files, dir, segment, paths, indices, k + 1)
    ensures arrived <==> answer.Got?
    ensures arrived ==> Path(dir, segment.fragments[k]) in tmp.files
    ensures arrived ==> tmp.files[Path(dir, segment.fragments[k])] == answer.content
    ensures Distinct(segment.fragments) && Right(old(tmp.files), paths, indices, shard)
            ==> Right(tmp.files, paths, indices, shard)
  {
    var path := Path(dir, segment.fragments[k]);
    match answer {
      case Got(content) =>
        tmp.Put(path, content);
        arrived := true;
      case Lost(leftover) =>
        if leftover.Some? {
          tmp.Put(path, leftover.value);
        }
        arrived := false;
    }
    FrameWithin(old(tmp.files), tmp.files, {path}, SegmentPaths(dir, segment));
    if Distinct(segment.fragments) && Right(old(tmp.files), paths, indices, shard) {
      LaterFragmentKeepsRight(old(tmp.files), tmp.files, dir, segment, paths, indices, shard, k);
    }
  }

  lemma HonestRestores(net: Network, i: nat, segment: Segment, stored: Bytes, shard: nat -> Bytes, shards: nat,
                       files: Disk, paths: seq<Path>, indices: seq<nat>)
    requires HonestSegment(net, i, segment, stored, shard, shards)
    requires |paths| == shards && Increasing(indices, |segment.fragments|) && Right(files, paths, indices, shard)
    ensures net.restore(ReadAll(files, paths)) == Some(stored)
  {
    assert ReadAll(files, paths) == Contents(shard, indices);
  }

  method RestoreSegment(tmp: TempDir, paths: seq<Path>, target: Path, net: Network) returns (restored: bool)
    requires forall path <- paths :: path in tmp.files
    modifies tmp
    ensures tmp.files - {target} == old(tmp.files) - {target}
    ensures restored <==> net.restore(ReadAll(old(tmp.files), paths)).Some?
    ensures restored ==> target in tmp.files
    ensures restored ==> tmp.files[target] == net.restore(ReadAll(old(tmp.files), paths)).value
  {
    var content := net.restore(ReadAll(tmp.files, paths));
    restored := content.Some?;
    if restored {
      tmp.Put(target, content.value);
    }
  }

  /** The inner loop: fetch fragments until `shards` of them are there, then restore the segment. */
  method GatherSegment(tmp: TempDir, dir: string, net: Network, i: nat, segment: Segment, shards: nat,
                       ghost stored: Bytes, ghost shard: nat -> Bytes) returns (result: Gathered)
    requires shards > 0
    modifies tmp
    ensures tmp.files - SegmentPaths(dir, segment) == old(tmp.files) - SegmentPaths(dir, segment)
    ensures result.Restored? ==> Reachable(net, i, |segment.fragments|, shards)
    ensures HonestSegment(net, i, segment, stored, shard, shards) ==>
              (result.Restored? <==> Reachable(net, i, |segment.fragments|, shards))
    ensures HonestSegment(net, i, segment, stored, shard, shards) && result.Restored? ==>
              Path(dir, segment.hash) in tmp.files && tmp.files[Path(dir, segment.hash)] == stored
  {
    ghost var honest := HonestSegment(net, i, segment, stored, shard, shards);
    var paths: seq<Path> := [];
    ghost var indices: seq<nat> := [];
    var k := 0;
    while k < |segment.fragments|
      invariant 0 <= k <= |segment.fragments|
      invariant tmp.files - SegmentPaths(dir, segment) == old(tmp.files) - SegmentPaths(dir, segment)
      invariant |paths| == Arrived(net, i, k) < shards
      invariant MinersKnown(net, i, k)
      invariant Collected(tmp.files, dir, segment, paths, indices, k)
      invariant honest ==> Right(tmp.files, paths, indices, shard)
    {
      if !net.miner(i, k) {
        UnreachableIf(net, i, k, |segment.fragments|, shards);
        return Aborted;
      }
      var path := Path(dir, segment.fragments[k]);
      var arrived := FetchFragment(tmp, dir, segment, k, net.fetch(i, k), paths, indices, shard);
      k := k + 1;
      if !arrived {
        continue;
      }
      paths := paths + [path];
      indices := indices + [k - 1];
      if |paths| >= shards {
        assert Arrived(net, i, k) >= shards && MinersKnown(net, i, k);
        if honest {
          HonestRestores(net, i, segment, stored, shard, shards, tmp.files, paths, indices);
        }
        ghost var before := tmp.files;
        var restored := RestoreSegment(tmp, paths, Path(dir, segment.hash), net);
        FrameWithin(before, tmp.files, {Path(dir, segment.hash)}, SegmentPaths(dir, segment));
        return if restored then Restored else Aborted;
      }
    }
    UnreachableIf(net, i, k, |segment.fragments|, shards);
    result := Short;
  }

  lemma FrameWithin(before: Disk, after: Disk, changed: set<Path>, allowed: set<Path>)
    requires after - changed == before - changed && changed <= allowed
    ensures after - allowed == before - allowed
  {
    assert (after - changed) - allowed == after - allowed;
    assert (before - changed) - allowed == before - allowed;
  }

  // ---------- The whole file ----------

  /** What is stored: the plaintext pieces, the stored segments, and the fragments of each segment. */
  datatype World = World(original: Bytes, plains: seq<Bytes>, stored: seq<Bytes>, shard: nat -> nat -> Bytes)

  /** The metadata describes the stored file, every segment is honest, and the names of the file, of its
      segments and of their fragments do not collide. Equal segments may share a name. */
  ghost predicate Honest(net: Network, world: World, fileHash: string, cipher: Cipher, segmentSize: int, shards: nat) {
    && net.metadata.Some?
    && var meta := net.metadata.value;
    && meta.size == |world.original| < 0x1_0000_0000_0000_0000
    && |meta.segments| == |world.plains| == |world.stored|
    && IsSplit(world.original, Stride(cipher, segmentSize), world.plains)
    && (forall i: nat :: i < |meta.segments| ==>
          && HonestSegment(net, i, meta.segments[i], world.stored[i], world.shard(i), shards)
          && Decode(cipher, world.stored[i]) == Some(world.plains[i])
          && fileHash != meta.segments[i].hash && fileHash !in meta.segments[i].fragments)
    && (forall i: nat, j: nat :: i < |meta.segments| && j < |meta.segments| ==>
          && meta.segments[i].hash !in meta.segments[j].fragments
          && (meta.segments[i].hash == meta.segments[j].hash ==> world.stored[i] == world.stored[j]))
  }

  ghost predicate AllReachable(net: Network, segments: seq<Segment>, count: nat, shards: nat)
    requires count <= |segments|
  {
    forall i: nat :: i < count ==> Reachable(net, i, |segments[i].fragments|, shards)
  }

  lemma ReachableStep(net: Network, segments: seq<Segment>, i: nat, shards: nat)
    requires i < |segments|
    ensures AllReachable(net, segments, i + 1, shards)
       <==> AllReachable(net, segments, i, shards) && Reachable(net, i, |segments[i].fragments|, shards)
    ensures !Reachable(net, i, |segments[i].fragments|, shards) ==> !AllReachable(net, segments, |segments|, shards)
  {
  }

  lemma {:induction false} TemporaryPathsContain(dir: string, segments: seq<Segment>, i: nat)
    requires i < |segments|
    ensures SegmentPaths(dir, segments[i]) <= TemporaryPaths(dir, segments)
  {
    if i > 0 {
      TemporaryPathsContain(dir, segments[1..], i - 1);
    }
  }

  /** Every segment restored so far is still on the disk. */
  ghost predicate AllRestored(files: Disk, dir: string, segments: seq<Segment>, stored: seq<Bytes>, paths: seq<Path>) {
    && |paths| <= |segments| == |stored|
    && forall j :: 0 <= j < |paths| ==>
         paths[j] == Path(dir, segments[j].hash) && paths[j] in files && files[paths[j]] == stored[j]
  }

  /** Gathering segment i does not disturb the segments restored before it. */
  lemma LaterSegmentKeepsRestored(files: Disk, files': Disk, dir: string, segments: seq<Segment>, stored: seq<Bytes>,
                                  paths: seq<Path>, i: nat)
    requires i < |segments| && |paths| == i && AllRestored(files, dir, segments, stored, paths)
    requires files' - SegmentPaths(dir, segments[i]) == files - SegmentPaths(dir, segments[i])
    requires Path(dir, segments[i].hash) in files' && files'[Path(dir, segments[i].hash)] == stored[i]
    requires forall j: nat :: j < i ==>
               && segments[j].hash !in segments[i].fragments
               && (segments[j].hash == segments[i].hash ==> stored[j] == stored[i])
    ensures AllRestored(files', dir, segments, stored, paths + [Path(dir, segments[i].hash)])
  {
    var changed := SegmentPaths(dir, segments[i]);
    forall j | 0 <= j < i
      ensures paths[j] in files' && files'[paths[j]] == stored[j]
    {
      if segments[j].hash != segments[i].hash {
        assert paths[j] !in changed;
        assert paths[j] in files - changed;
        assert (files' - changed)[paths[j]] == (files - changed)[paths[j]];
      }
    }
  }

  /** One turn of the outer loop. */
  method GatherNext(tmp: TempDir, dir: string, fileHash: string, cipher: Cipher, segmentSize: int, net: Network,
                    shards: nat, i: nat, ghost paths: seq<Path>, ghost world: World) returns (result: Gathered)
    requires net.metadata.Some? && shards > 0 && i < |net.metadata.value.segments|
    modifies tmp
    ensures var temporary := TemporaryPaths(dir, net.metadata.value.segments);
            tmp.files - temporary == old(tmp.files) - temporary
    ensures result.Restored? ==> Reachable(net, i, |net.metadata.value.segments[i].fragments|, shards)
    ensures Honest(net, world, fileHash, cipher, segmentSize, shards) ==>
              var segments := net.metadata.value.segments;
              && (result.Restored? <==> Reachable(net, i, |segments[i].fragments|, shards))
              && (result.Restored? && |paths| == i && AllRestored(old(tmp.files), dir, segments, world.stored, paths)
                  ==> AllRestored(tmp.files, dir, segments, world.stored, paths + [Path(dir, segments[i].hash)]))
  {
    var segments := net.metadata.value.segments;
    ghost var honest := Honest(net, world, fileHash, cipher, segmentSize, shards);
    ghost var stored: Bytes := if honest then world.stored[i] else [];
    result := GatherSegment(tmp, dir, net, i, segments[i], shards, stored, world.shard(i));
    TemporaryPathsContain(dir, segments, i);
    FrameWithin(old(tmp.files), tmp.files, SegmentPaths(dir, segments[i]), TemporaryPaths(dir, segments));
    if honest {
      assert HonestSegment(net, i, segments[i], stored, world.shard(i), shards);
      if result.Restored? && |paths| == i && AllRestored(old(tmp.files), dir, segments, world.stored, paths) {
        LaterSegmentKeepsRestored(old(tmp.files), tmp.files, dir, segments, world.stored, paths, i);
      }
    }
  }

  /** The outer loop. */
  method GatherSegments(tmp: TempDir, dir: string, fileHash: string, cipher: Cipher, segmentSize: int, net: Network,
                        shards: nat, ghost world: World) returns (aborted: bool, paths: seq<Path>)
    requires net.metadata.Some? && shards > 0
    modifies tmp
    ensures var temporary := TemporaryPaths(dir, net.metadata.value.segments);
            tmp.files - temporary == old(tmp.files) - temporary
    ensures !aborted && |paths| == |net.metadata.value.segments| ==>
              AllReachable(net, net.metadata.value.segments, |net.metadata.value.segments|, shards)
    ensures Honest(net, world, fileHash, cipher, segmentSize, shards) ==>
              var segments := net.metadata.value.segments;
              && (!aborted && |paths| == |segments| <==> AllReachable(net, segments, |segments|, shards))
              && (!aborted && |paths| == |segments| ==> AllRestored(tmp.files, dir, segments, world.stored, paths))
  {
    var segments := net.metadata.value.segments;
    ghost var honest := Honest(net, world, fileHash, cipher, segmentSize, shards);
    ghost var temporary := TemporaryPaths(dir, segments);
    paths := [];
    var i := 0;
    while i < |segments|
      invariant 0 <= i <= |segments| && |paths| <= i
      invariant tmp.files - temporary == old(tmp.files) - temporary
      invariant |paths| == i ==> AllReachable(net, segments, i, shards)
      invariant honest ==> (|paths| == i <==> AllReachable(net, segments, i, shards))
      invariant honest && |paths| == i ==> AllRestored(tmp.files, dir, segments, world.stored, paths)
    {
      var result := GatherNext(tmp, dir, fileHash, cipher, segmentSize, net, shards, i, paths, world);
      ReachableStep(net, segments, i, shards);
      if result.Aborted? {
        return true, paths;
      }
      if result.Restored? {
        paths := paths + [Path(dir, segments[i].hash)];
      }
      i := i + 1;
    }
    aborted := false;
  }

  /** Restored segments are what recovery needs. */
  lemma RestoredHolds(files: Disk, dir: string, meta: Metadata, cipher: Cipher, stored: seq<Bytes>,
                      plains: seq<Bytes>, paths: seq<Path>)
    requires |meta.segments| == |paths| == |plains|
    requires AllRestored(files, dir, meta.segments, stored, paths)
    requires forall i: nat :: i < |stored| ==> Decode(cipher, stored[i]) == Some(plains[i])
    ensures Holds(meta, paths, files, cipher, plains)
  {
    forall i | 0 <= i < |plains|
      ensures Plaintext(meta.segments[i].hash, paths, files, cipher) == Some(plains[i])
    {
      var first := FirstWith(paths, meta.segments[i].hash);
      assert paths[i] in paths && paths[i].base == meta.segments[i].hash;
      assert first.value == paths[i];
    }
  }

  lemma HonestRecovers(files: Disk, dir: string, fileHash: string, cipher: Cipher, segmentSize: int, shards: nat,
                       net: Network, world: World, paths: seq<Path>)
    requires Honest(net, world, fileHash, cipher, segmentSize, shards)
    requires |paths| == |net.metadata.value.segments|
    requires AllRestored(files, dir, net.metadata.value.segments, world.stored, paths)
    ensures Recover(net.metadata.value, paths, files, cipher, segmentSize) == (world.original, Done)
  {
    var meta := net.metadata.value;
    RestoredHolds(files, dir, meta, cipher, world.stored, world.plains, paths);
    RecoveryInvertsSplit(world.original, meta, paths, files, cipher, segmentSize, world.plains);
  }

  method Assemble(files: Disk, meta: Metadata, cipher: Cipher, segmentSize: int, aborted: bool, paths: seq<Path>)
      returns (outcome: Outcome, data: Bytes)
    ensures aborted || |paths| != |meta.segments| ==> outcome == Failed && data == []
    ensures !aborted && |paths| == |meta.segments|
            ==> (data, outcome) == Recover(meta, paths, files, cipher, segmentSize)
  {
    if aborted || |paths| != |meta.segments| {
      return Failed, [];
    }
    var writer := new Writer();
    outcome := RecoveryFileViaSegments(paths, meta, cipher, segmentSize, files, writer);
    data := writer.data;
    assert data == Recover(meta, paths, files, cipher, segmentSize).0;
  }

  /** The data is made of plaintexts of all the segments: their files were there, could be read and decoded. */
  ghost predicate Assembled(data: Bytes, meta: Metadata, cipher: Cipher, segmentSize: int) {
    exists files: Disk, paths: seq<Path>, plains: seq<Bytes> ::
      Holds(meta, paths, files, cipher, plains) && IsAssembled(data, meta, cipher, segmentSize, plains)
  }

  lemma DoneIsAssembled(data: Bytes, meta: Metadata, paths: seq<Path>, files: Disk, cipher: Cipher, segmentSize: int)
    requires Recover(meta, paths, files, cipher, segmentSize) == (data, Done)
    ensures Assembled(data, meta, cipher, segmentSize)
  {
    var plains := RecoveredIsAssembled(meta, paths, files, cipher, segmentSize);
  }

  /** Downloading a file. On any network it succeeds only when every segment is reachable and decoded. On an honest
      network it succeeds exactly when every segment is reachable, and then leaves exactly the original bytes. In every
      case the temporary files are gone and no other file is touched. */
  method DownloadFileFromStorage(tmp: TempDir, dir: string, fileHash: string, cipher: Cipher, segmentSize: int,
                                 shards: nat, net: Network, ghost world: World) returns (outcome: Outcome)
    requires shards > 0
    modifies tmp
    ensures !net.dirExists || !net.fileCreated ==> outcome == Failed && tmp.files == old(tmp.files)
    ensures net.dirExists && net.fileCreated && net.metadata.None?
            ==> outcome == Failed && tmp.files == old(tmp.files)[Path(dir, fileHash) := []]
    ensures net.dirExists && net.fileCreated && net.metadata.Some?
            ==> tmp.files - {Path(dir, fileHash)}
                == old(tmp.files) - TemporaryPaths(dir, net.metadata.value.segments) - {Path(dir, fileHash)}
    ensures net.dirExists && net.fileCreated && Honest(net, world, fileHash, cipher, segmentSize, shards)
            ==> && outcome != Panicked
                && (outcome == Done <==> AllReachable(net, net.metadata.value.segments,
                                                      |net.metadata.value.segments|, shards))
    ensures outcome == Done
            ==> && net.dirExists && net.fileCreated && net.metadata.Some?
                && AllReachable(net, net.metadata.value.segments, |net.metadata.value.segments|, shards)
                && Path(dir, fileHash) in tmp.files
                && Assembled(tmp.files[Path(dir, fileHash)], net.metadata.value, cipher, segmentSize)
    ensures outcome == Done && Honest(net, world, fileHash, cipher, segmentSize, shards)
            ==> tmp.files[Path(dir, fileHash)] == world.original
  {
    if !net.dirExists || !net.fileCreated {
      return Failed;
    }
    var userFile := Path(dir, fileHash);
    tmp.Put(userFile, []);
    if net.metadata.None? {
      return Failed;
    }
    var meta := net.metadata.value;
    ghost var temporary := TemporaryPaths(dir, meta.segments);
    ghost var before := tmp.files;
    var aborted, paths := GatherSegments(tmp, dir, fileHash, cipher, segmentSize, net, shards, world);
    var data;
    outcome, data := Assemble(tmp.files, meta, cipher, segmentSize, aborted, paths);
    if Honest(net, world, fileHash, cipher, segmentSize, shards) && !aborted && |paths| == |meta.segments| {
      HonestRecovers(tmp.files, dir, fileHash, cipher, segmentSize, shards, net, world, paths);
    }
    if outcome == Done {
      DoneIsAssembled(data, meta, paths, tmp.files, cipher, segmentSize);
    }
    tmp.Remove(TemporaryPaths(dir, meta.segments));
    tmp.Put(userFile, data);
    assert old(tmp.files) - temporary - {userFile} == before - temporary - {userFile};
  }

  /** The promise in its simplest form: when every miner can be looked up, a file comes back whenever enough
      fragments of each of its segments arrive, wherever the failures are. */
  lemma EnoughFragmentsMakeReachable(net: Network, segments: seq<Segment>, shards: nat)
    requires forall i: nat :: i < |segments| ==> MinersKnown(net, i, |segments[i].fragments|)
    ensures AllReachable(net, segments, |segments|, shards)
       <==> forall i: nat :: i < |segments| ==> Arrived(net, i, |segments[i].fragments|) >= shards
  {
    forall i: nat | i < |segments|
      ensures Reachable(net, i, |segments[i].fragments|, shards)
         <==> Arrived(net, i, |segments[i].fragments|) >= shards
    {
      var count := |segments[i].fragments|;
      if Arrived(net, i, count) < shards {
        UnreachableIf(net, i, count, count, shards);
      }
    }
  }

  /** A network that stores every segment whole in each of its fragments. */
  function Mirror(size: nat, segments: seq<Segment>, stored: seq<Bytes>): Network {
    Network(true, true, Some(Metadata(size, segments)), (i: nat, k: nat) => true,
            (i: nat, k: nat) => Got(PieceAt(stored, i)), FirstPart)
  }

  function MirrorWorld(original: Bytes, stored: seq<Bytes>): World {
    World(original, stored, stored, (i: nat) => ((k: nat) => PieceAt(stored, i)))
  }

  function PieceAt(pieces: seq<Bytes>, i: nat): Bytes { if i < |pieces| then pieces[i] else [] }

  function FirstPart(parts: seq<Bytes>): Option<Bytes> { if parts == [] then None else Some(parts[0]) }

  lemma MirrorRestores(original: Bytes, segments: seq<Segment>, stored: seq<Bytes>, i: nat, shards: nat)
    requires i < |segments| == |stored| && 2 <= shards <= 3 == |segments[i].fragments|
    requires Distinct(segments[i].fragments) && segments[i].hash !in segments[i].fragments
    ensures var net := Mirror(|original|, segments, stored);
            && HonestSegment(net, i, segments[i], stored[i], MirrorWorld(original, stored).shard(i), shards)
            && Reachable(net, i, 3, shards)
  {
    var net := Mirror(|original|, segments, stored);
    assert Arrived(net, i, 1) == 1;
    assert Arrived(net, i, 3) == 1 + Arrived(net, i, 2) == 3;
    assert MinersKnown(net, i, 3);
  }

  lemma TwoPieces(original: Bytes, segmentSize: nat)
    requires segmentSize < |original| <= 2 * segmentSize
    ensures |Split(original, segmentSize, 0)| == 2
  {
    var rest := original[segmentSize..];
    assert |Split(rest, segmentSize, 0)| == 1 by {
      if |rest| == segmentSize {
        assert rest[segmentSize..] == [];
        assert |Split(rest[segmentSize..], segmentSize, 0)| == 0;
      }
    }
  }

  ghost predicate NamesApart(fileHash: string, segments: seq<Segment>) {
    && (forall segment <- segments :: fileHash != segment.hash && fileHash !in segment.fragments
          && |segment.fragments| == 3 && Distinct(segment.fragments))
    && (forall i: nat, j: nat :: i < |segments| && j < |segments| ==> segments[i].hash !in segments[j].fragments)
    && (forall i: nat, j: nat :: i < j < |segments| ==> segments[i].hash != segments[j].hash)
  }

  lemma MirrorIsHonest(original: Bytes, segments: seq<Segment>, stored: seq<Bytes>, segmentSize: nat, shards: nat)
    requires |original| < 0x1_0000_0000_0000_0000 && |segments| == |stored| && 2 <= shards <= 3
    requires IsSplit(original, segmentSize, stored) && NamesApart("file", segments)
    ensures Honest(Mirror(|original|, segments, stored), MirrorWorld(original, stored), "file", NoCipher, segmentSize,
                   shards)
    ensures AllReachable(Mirror(|original|, segments, stored), segments, |segments|, shards)
  {
    forall i: nat | i < |segments|
      ensures HonestSegment(Mirror(|original|, segments, stored), i, segments[i], stored[i],
                            MirrorWorld(original, stored).shard(i), shards)
      ensures Reachable(Mirror(|original|, segments, stored), i, |segments[i].fragments|, shards)
    {
      assert segments[i] in segments;
      MirrorRestores(original, segments, stored, i, shards);
    }
  }

  const TWO_SEGMENTS := [Segment("s", ["a", "b", "c"]), Segment("t", ["d", "e", "f"])]

  /** The conditions can be met: a file of two segments with three fragments each, any two or three of which restore
      their segment. */
  lemma SomeNetworkIsHonest(original: Bytes, segmentSize: nat, shards: nat) returns (net: Network, world: World)
    requires segmentSize < |original| <= 2 * segmentSize && |original| < 0x1_0000_0000_0000_0000
    requires 2 <= shards <= 3
    ensures Honest(net, world, "file", NoCipher, segmentSize, shards)
    ensures net.metadata.value.segments == TWO_SEGMENTS && AllReachable(net, TWO_SEGMENTS, 2, shards)
  {
    var plains := Split(original, segmentSize, 0);
    TwoPieces(original, segmentSize);
    SplitIsSplit(original, segmentSize, 0);
    TwoSegmentsApart();
    MirrorIsHonest(original, TWO_SEGMENTS, plains, segmentSize, shards);
    net, world := Mirror(|original|, TWO_SEGMENTS, plains), MirrorWorld(original, plains);
  }

  lemma TwoSegmentsApart()
    ensures NamesApart("file", TWO_SEGMENTS)
  {
  }
}
