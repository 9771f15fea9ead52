/** Reassembling a file from its segments: RecoveryFileViaSegments of cd2n-lib/lib.go.
    Decryption is a function given as a parameter; the disk is a map from paths to contents. */
module Recovery {
  import opened Common

  datatype Path = Path(dir: string, base: string)

  type Disk = map<Path, Bytes>

  datatype Segment = Segment(hash: string, fragments: seq<string>)

  datatype Metadata = Metadata(size: nat, segments: seq<Segment>)

  /** Ciphered segments carry 16 bytes less than plain ones. */
  datatype Cipher = NoCipher | Aes(decrypt: Bytes -> Option<Bytes>)

  datatype Outcome = Done | Failed | Panicked

  function Decode(cipher: Cipher, content: Bytes): Option<Bytes> {
    if cipher.NoCipher? then Some(content) else cipher.decrypt(content)
  }

  /** Plaintext bytes in every segment but the last. */
  function Stride(cipher: Cipher, segmentSize: int): int {
    if cipher.NoCipher? then segmentSize else segmentSize - 16
  }

  function FirstWith(paths: seq<Path>, base: string): (r: Option<Path>)
    ensures r.None? <==> forall p <- paths :: p.base != base
    ensures r.Some? ==> r.value in paths && r.value.base == base
  {
    if paths == [] then None
    else if paths[0].base == base then Some(paths[0])
    else FirstWith(paths[1..], base)
  }

  lemma {:induction false} FirstWithIsFirst(paths: seq<Path>, base: string, j: nat)
    requires j < |paths| && paths[j].base == base && forall i :: 0 <= i < j ==> paths[i].base != base
    ensures FirstWith(paths, base) == Some(paths[j])
  {
    if j > 0 {
      FirstWithIsFirst(paths[1..], base, j - 1);
    }
  }

  /** FileSize - writecount * stride in unsigned 64-bit arithmetic. */
  function Cut(size: nat, written: nat, stride: int): nat {
    (size - written * stride) % 0x1_0000_0000_0000_0000
  }

  /** What the loop writes from segment i on, having processed `written` segments. */
  function RecoverFrom(i: nat, written: nat, meta: Metadata, paths: seq<Path>, disk: Disk, cipher: Cipher,
                       segmentSize: int): (Bytes, Outcome)
    requires i <= |meta.segments|
    decreases |meta.segments| - i
  {
    if i == |meta.segments| then ([], if written == i then Done else Failed)
    else match FirstWith(paths, meta.segments[i].hash)
      case None => RecoverFrom(i + 1, written, meta, paths, disk, cipher, segmentSize)
      case Some(path) =>
        if path !in disk || Decode(cipher, disk[path]).None? then ([], Failed)
        else
          var buf := Decode(cipher, disk[path]).value;
          var cut := Cut(meta.size, written, Stride(cipher, segmentSize));
          if written + 1 < |meta.segments| then
            var (rest, outcome) := RecoverFrom(i + 1, written + 1, meta, paths, disk, cipher, segmentSize);
            (buf + rest, outcome)
          else if cut > |buf| then ([], Panicked)
          else
            var (rest, outcome) := RecoverFrom(i + 1, written + 1, meta, paths, disk, cipher, segmentSize);
            (buf[..cut] + rest, outcome)
  }

  function Recover(meta: Metadata, paths: seq<Path>, disk: Disk, cipher: Cipher, segmentSize: int): (Bytes, Outcome) {
    RecoverFrom(0, 0, meta, paths, disk, cipher, segmentSize)
  }

  class Writer {
    var data: Bytes

    constructor ()
      ensures data == []
    {
      data := [];
    }

    method Write(bytes: Bytes)
      modifies this
      ensures data == old(data) + bytes
    {
      data := data + bytes;
    }
  }

  method RecoveryFileViaSegments(paths: seq<Path>, meta: Metadata, cipher: Cipher, segmentSize: int, disk: Disk,
                                 writer: Writer) returns (outcome: Outcome)
    modifies writer
    ensures writer.data == old(writer.data) + Recover(meta, paths, disk, cipher, segmentSize).0
    ensures outcome == Recover(meta, paths, disk, cipher, segmentSize).1
  {
    ghost var all := Recover(meta, paths, disk, cipher, segmentSize);
    ghost var start := writer.data;
    var written := 0;
    var i := 0;
    while i < |meta.segments|
      invariant 0 <= i <= |meta.segments| && 0 <= written
      invariant var rest := RecoverFrom(i, written, meta, paths, disk, cipher, segmentSize);
                start + all.0 == writer.data + rest.0 && all.1 == rest.1
    {
      var j := 0;
      while j < |paths| && meta.segments[i].hash != paths[j].base
        invariant 0 <= j <= |paths|
        invariant FirstWith(paths, meta.segments[i].hash) == FirstWith(paths[j..], meta.segments[i].hash)
      {
        j := j + 1;
      }
      assert writer.data + [] == writer.data;
      assert j < |paths| ==> FirstWith(paths[j..], meta.segments[i].hash) == Some(paths[j]);
      if j < |paths| {
        if paths[j] !in disk {
          return Failed;
        }
        var decoded := Decode(cipher, disk[paths[j]]);
        if decoded.None? {
          return Failed;
        }
        var buf := decoded.value;
        ghost var before := writer.data;
        if written + 1 >= |meta.segments| {
          var cut := Cut(meta.size, written, Stride(cipher, segmentSize));
          if cut > |buf| {
            return Panicked;
          }
          buf := buf[..cut];
        }
        writer.Write(buf);
        written := written + 1;
        ghost var rest := RecoverFrom(i + 1, written, meta, paths, disk, cipher, segmentSize).0;
        assert before + (buf + rest) == writer.data + rest;
      }
      i := i + 1;
    }
    assert writer.data + [] == writer.data;
    outcome := if written == |meta.segments| then Done else Failed;
  }

  // ---------- A segment that is missing or cannot be read ----------

  /** The plaintext found for a segment name, if its file is among the paths and can be read and decoded. */
  function Plaintext(name: string, paths: seq<Path>, disk: Disk, cipher: Cipher): Option<Bytes> {
    match FirstWith(paths, name)
    case None => None
    case Some(path) => if path in disk then Decode(cipher, disk[path]) else None
  }

  lemma {:induction false} UnreadableFrom(i: nat, written: nat, missing: nat, meta: Metadata, paths: seq<Path>,
                                          disk: Disk, cipher: Cipher, segmentSize: int)
    requires i <= |meta.segments| && missing < |meta.segments|
    requires Plaintext(meta.segments[missing].hash, paths, disk, cipher).None?
    requires written <= i && (missing < i ==> written < i)
    ensures RecoverFrom(i, written, meta, paths, disk, cipher, segmentSize).1 == Failed
    decreases |meta.segments| - i
  {
    if i < |meta.segments| {
      UnreadableFrom(i + 1, written, missing, meta, paths, disk, cipher, segmentSize);
      if i != missing {
        UnreadableFrom(i + 1, written + 1, missing, meta, paths, disk, cipher, segmentSize);
      }
    }
  }

  /** A set of paths that misses a segment always ends in an error: the truncating slice is never reached,
      so no slice is out of range, whatever the files hold. */
  lemma MissingSegmentFails(meta: Metadata, paths: seq<Path>, disk: Disk, cipher: Cipher, segmentSize: int,
                            missing: nat)
    requires missing < |meta.segments|
    requires forall p <- paths :: p.base != meta.segments[missing].hash
    ensures Recover(meta, paths, disk, cipher, segmentSize).1 == Failed
  {
    UnreadableFrom(0, 0, missing, meta, paths, disk, cipher, segmentSize);
  }

  // ---------- A complete set ----------

  predicate Holds(meta: Metadata, paths: seq<Path>, disk: Disk, cipher: Cipher, plains: seq<Bytes>) {
    && |plains| == |meta.segments|
    && forall i :: 0 <= i < |plains| ==>
         Plaintext(meta.segments[i].hash, paths, disk, cipher) == Some(plains[i])
  }

  lemma {:induction false} CompleteFrom(i: nat, meta: Metadata, paths: seq<Path>, disk: Disk, cipher: Cipher,
                                        segmentSize: int, plains: seq<Bytes>)
    requires Holds(meta, paths, disk, cipher, plains)
    requires i < |plains|
    ensures var n, cut := |plains|, Cut(meta.size, |plains| - 1, Stride(cipher, segmentSize));
            var (out, outcome) := RecoverFrom(i, i, meta, paths, disk, cipher, segmentSize);
            if cut <= |plains[n - 1]|
            then out == Concat(plains[i..n - 1]) + plains[n - 1][..cut] && outcome == Done
            else outcome == Panicked
    decreases |plains| - i
  {
    var n := |plains|;
    var path := FirstWith(paths, meta.segments[i].hash).value;
    assert Decode(cipher, disk[path]) == Some(plains[i]);
    if i + 1 < n {
      CompleteFrom(i + 1, meta, paths, disk, cipher, segmentSize, plains);
      assert plains[i..n - 1][1..] == plains[i + 1..n - 1];
      assert plains[i..n - 1][0] == plains[i];
      var cut := Cut(meta.size, n - 1, Stride(cipher, segmentSize));
      if cut <= |plains[n - 1]| {
        assert plains[i] + (Concat(plains[i + 1..n - 1]) + plains[n - 1][..cut])
            == Concat(plains[i..n - 1]) + plains[n - 1][..cut];
      }
    } else {
      assert plains[i..n - 1] == [];
      assert RecoverFrom(i + 1, i + 1, meta, paths, disk, cipher, segmentSize) == ([], Done);
    }
  }

  /** The file cut into pieces of `stride` bytes, the last one filled up with arbitrary bytes. */
  predicate IsSplit(original: Bytes, stride: int, plains: seq<Bytes>) {
    && (forall plain <- plains :: |plain| == stride)
    && original <= Concat(plains)
    && (plains != [] ==> (|plains| - 1) * stride <= |original|)
  }

  lemma {:induction false} ConcatLength(parts: seq<Bytes>, stride: int)
    requires forall part <- parts :: |part| == stride
    ensures |Concat(parts)| == |parts| * stride
  {
    if parts != [] {
      ConcatLength(parts[1..], stride);
      OneMore(|parts[1..]|, stride);
    }
  }

  lemma {:induction false} ConcatLast(parts: seq<Bytes>)
    requires parts != []
    ensures Concat(parts) == Concat(parts[..|parts| - 1]) + parts[|parts| - 1]
  {
    var front := parts[..|parts| - 1];
    if |parts| == 1 {
      assert Concat(parts[1..]) == [];
    } else {
      ConcatLast(parts[1..]);
      assert parts[1..][..|parts| - 2] == front[1..];
      ConcatAssociates(parts[0], Concat(front[1..]), parts[|parts| - 1]);
    }
  }

  lemma ConcatAssociates(a: Bytes, b: Bytes, c: Bytes)
    ensures a + (b + c) == (a + b) + c
  {
  }

  lemma SplitTail(original: Bytes, stride: int, plains: seq<Bytes>)
    requires IsSplit(original, stride, plains) && plains != []
    ensures var n := |plains|;
            var cut := |original| - (n - 1) * stride;
            0 <= cut <= |plains[n - 1]| && original == Concat(plains[..n - 1]) + plains[n - 1][..cut]
    ensures 0 <= (|plains| - 1) * stride
  {
    var n := |plains|;
    ConcatLength(plains, stride);
    ConcatLength(plains[..n - 1], stride);
    OneMore(n - 1, stride);
    ConcatLast(plains);
    assert original == (Concat(plains[..n - 1]) + plains[n - 1])[..|original|];
  }

  /** Recovery inverts splitting: whatever the order of the paths and whatever else is among them, a complete
      set of segments gives back exactly the original bytes. */
  lemma RecoveryInvertsSplit(original: Bytes, meta: Metadata, paths: seq<Path>, disk: Disk, cipher: Cipher,
                             segmentSize: int, plains: seq<Bytes>)
    requires Holds(meta, paths, disk, cipher, plains)
    requires IsSplit(original, Stride(cipher, segmentSize), plains)
    requires meta.size == |original| < 0x1_0000_0000_0000_0000
    ensures Recover(meta, paths, disk, cipher, segmentSize) == (original, Done)
  {
    var stride, n := Stride(cipher, segmentSize), |plains|;
    if n > 0 {
      SplitTail(original, stride, plains);
      CutInRange(|original|, n - 1, stride);
      CompleteFrom(0, meta, paths, disk, cipher, segmentSize, plains);
      assert plains[0..n - 1] == plains[..n - 1];
    }
  }

  lemma CutInRange(size: nat, written: nat, stride: int)
    requires written * stride <= size < 0x1_0000_0000_0000_0000
    requires 0 <= written * stride
    ensures Cut(size, written, stride) == size - written * stride
  {
  }

  /** The last segment is cut out of range, and the program panics, exactly when a complete set of segments does
      not fit the recorded size: when the size ends before the last segment or after it. */
  lemma CompleteRecoveryPanicsIff(meta: Metadata, paths: seq<Path>, disk: Disk, cipher: Cipher, segmentSize: int,
                                  plains: seq<Bytes>)
    requires Holds(meta, paths, disk, cipher, plains) && plains != []
    requires 0 <= (|plains| - 1) * Stride(cipher, segmentSize)
    requires (|plains| - 1) * Stride(cipher, segmentSize) + |plains[|plains| - 1]| < 0x1_0000_0000_0000_0000
    requires meta.size < 0x1_0000_0000_0000_0000
    ensures var start := (|plains| - 1) * Stride(cipher, segmentSize);
            var outcome := Recover(meta, paths, disk, cipher, segmentSize).1;
            && (outcome == Panicked <==> !(start <= meta.size <= start + |plains[|plains| - 1]|))
            && outcome != Failed
  {
    CompleteFrom(0, meta, paths, disk, cipher, segmentSize, plains);
  }

  /** All plaintexts, when each can be had. */
  lemma {:induction false} AllPlains(meta: Metadata, paths: seq<Path>, disk: Disk, cipher: Cipher, n: nat)
      returns (plains: seq<Bytes>)
    requires n <= |meta.segments|
    requires forall segment <- meta.segments :: Plaintext(segment.hash, paths, disk, cipher).Some?
    ensures |plains| == n
    ensures forall i :: 0 <= i < n ==> Plaintext(meta.segments[i].hash, paths, disk, cipher) == Some(plains[i])
  {
    if n == 0 {
      plains := [];
    } else {
      plains := AllPlains(meta, paths, disk, cipher, n - 1);
      plains := plains + [Plaintext(meta.segments[n - 1].hash, paths, disk, cipher).value];
    }
  }

  /** Recovery reports an error exactly when some segment is missing, or cannot be read, or cannot be decoded. */
  lemma RecoveryFailsIff(meta: Metadata, paths: seq<Path>, disk: Disk, cipher: Cipher, segmentSize: int)
    ensures Recover(meta, paths, disk, cipher, segmentSize).1 == Failed
       <==> exists segment <- meta.segments :: Plaintext(segment.hash, paths, disk, cipher).None?
  {
    if segment :| segment in meta.segments && Plaintext(segment.hash, paths, disk, cipher).None? {
      var i :| 0 <= i < |meta.segments| && meta.segments[i] == segment;
      UnreadableFrom(0, 0, i, meta, paths, disk, cipher, segmentSize);
    } else if meta.segments != [] {
      var plains := AllPlains(meta, paths, disk, cipher, |meta.segments|);
      CompleteFrom(0, meta, paths, disk, cipher, segmentSize, plains);
    }
  }

  /** The pieces in front as they are, and the last one cut to what is left of the recorded size. */
  ghost predicate IsAssembled(data: Bytes, meta: Metadata, cipher: Cipher, segmentSize: int, plains: seq<Bytes>) {
    && |plains| == |meta.segments|
    && if plains == [] then data == []
       else
         var n := |plains|;
         var cut := (meta.size - (n - 1) * Stride(cipher, segmentSize)) % 0x1_0000_0000_0000_0000;
         cut <= |plains[n - 1]| && data == Concat(plains[..n - 1]) + plains[n - 1][..cut]
  }

  /** When recovery succeeds, every segment was found and decoded, and what is written is made of those plaintexts in
      the order of the metadata. */
  lemma RecoveredIsAssembled(meta: Metadata, paths: seq<Path>, disk: Disk, cipher: Cipher, segmentSize: int)
      returns (plains: seq<Bytes>)
    requires Recover(meta, paths, disk, cipher, segmentSize).1 == Done
    ensures Holds(meta, paths, disk, cipher, plains)
    ensures IsAssembled(Recover(meta, paths, disk, cipher, segmentSize).0, meta, cipher, segmentSize, plains)
  {
    RecoveryFailsIff(meta, paths, disk, cipher, segmentSize);
    plains := AllPlains(meta, paths, disk, cipher, |meta.segments|);
    if plains != [] {
      CompleteFrom(0, meta, paths, disk, cipher, segmentSize, plains);
      assert plains[0..|plains| - 1] == plains[..|plains| - 1];
    }
  }

  // ---------- Which paths matter ----------

  /** No two paths of the list lead to different files of the same name. */
  predicate OnePathPerName(paths: seq<Path>) {
    forall p, q :: p in paths && q in paths && p.base == q.base ==> p == q
  }

  predicate NamesSegment(meta: Metadata, base: string) {
    exists segment :: segment in meta.segments && segment.hash == base
  }

  /** The order of the path list, repetitions in it and paths of other files do not matter. */
  lemma RecoveryIsOrderIndependent(meta: Metadata, paths: seq<Path>, other: seq<Path>, disk: Disk, cipher: Cipher,
                                   segmentSize: int)
    requires OnePathPerName(paths) && OnePathPerName(other)
    requires forall p: Path :: NamesSegment(meta, p.base) ==> (p in paths <==> p in other)
    ensures Recover(meta, paths, disk, cipher, segmentSize) == Recover(meta, other, disk, cipher, segmentSize)
  {
    OrderIndependentFrom(0, 0, meta, paths, other, disk, cipher, segmentSize);
  }

  lemma {:induction false} OrderIndependentFrom(i: nat, written: nat, meta: Metadata, paths: seq<Path>,
                                                other: seq<Path>, disk: Disk, cipher: Cipher, segmentSize: int)
    requires i <= |meta.segments|
    requires OnePathPerName(paths) && OnePathPerName(other)
    requires forall p: Path :: NamesSegment(meta, p.base) ==> (p in paths <==> p in other)
    ensures RecoverFrom(i, written, meta, paths, disk, cipher, segmentSize)
         == RecoverFrom(i, written, meta, other, disk, cipher, segmentSize)
    decreases |meta.segments| - i
  {
    if i < |meta.segments| {
      SameFirst(meta, meta.segments[i], paths, other);
      OrderIndependentFrom(i + 1, written, meta, paths, other, disk, cipher, segmentSize);
      OrderIndependentFrom(i + 1, written + 1, meta, paths, other, disk, cipher, segmentSize);
    }
  }

  lemma SameFirst(meta: Metadata, segment: Segment, paths: seq<Path>, other: seq<Path>)
    requires segment in meta.segments
    requires OnePathPerName(paths) && OnePathPerName(other)
    requires forall p: Path :: NamesSegment(meta, p.base) ==> (p in paths <==> p in other)
    ensures FirstWith(paths, segment.hash) == FirstWith(other, segment.hash)
  {
    assert NamesSegment(meta, segment.hash);
    var a, b := FirstWith(paths, segment.hash), FirstWith(other, segment.hash);
    if a.Some? {
      assert NamesSegment(meta, a.value.base);
      assert a.value in other;
    }
    if b.Some? {
      assert NamesSegment(meta, b.value.base);
      assert b.value in paths;
    }
  }

  // ---------- Splitting ----------

  function Split(original: Bytes, stride: nat, padding: bv8): seq<Bytes>
    requires stride > 0
    decreases |original|
  {
    if original == [] then []
    else if |original| < stride then [original + seq(stride - |original|, _ => padding)]
    else [original[..stride]] + Split(original[stride..], stride, padding)
  }

  lemma {:induction false} SplitIsSplit(original: Bytes, stride: nat, padding: bv8)
    requires stride > 0
    ensures IsSplit(original, stride, Split(original, stride, padding))
    decreases |original|
  {
    if original == [] {
    } else if |original| < stride {
      SinglePart(original, original + seq(stride - |original|, _ => padding), stride);
    } else {
      var rest := original[stride..];
      SplitIsSplit(rest, stride, padding);
      SplitPrepends(original[..stride], rest, stride, Split(rest, stride, padding));
    }
  }

  lemma SinglePart(original: Bytes, part: Bytes, stride: nat)
    requires original <= part && |part| == stride
    ensures IsSplit(original, stride, [part])
  {
    assert Concat([part]) == part + Concat([]) == part;
  }

  lemma SplitPrepends(first: Bytes, rest: Bytes, stride: nat, parts: seq<Bytes>)
    requires |first| == stride && IsSplit(rest, stride, parts)
    ensures IsSplit(first + rest, stride, [first] + parts)
  {
    assert ([first] + parts)[1..] == parts;
    assert rest == Concat(parts)[..|rest|];
    assert first + rest == (first + Concat(parts))[..|first + rest|];
    if parts != [] {
      OneMore(|parts| - 1, stride);
    }
  }
}
