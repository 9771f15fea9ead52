/** Uploading a directory: the check of UploadDirAsBoxFile in cd2n-client/client/files.go, and for which sizes of plates
    and segments every box, or every box that passes the check, gives all its files back. */
module BoxUpload {
  import opened Common
  import opened FileBox
  import opened BoxLayout
  import opened BoxRoundTrip
  import Recovery

  // ---------- The check ----------

  /** The check of UploadDirAsBoxFile: as many segments as plates. */
  predicate UploadAccepts(box: Box, out: Bytes, segmentSize: nat)
    requires segmentSize > 0
  {
    |Recovery.Split(out, segmentSize, 0)| == |box.plates|
  }

  /** The check compares the number of plates with the length of the box over the segment size, rounded up. */
  lemma UploadAcceptsIff(box: Box, out: Bytes, segmentSize: nat)
    requires segmentSize > 0
    ensures UploadAccepts(box, out, segmentSize)
       <==> (|box.plates| - 1) * segmentSize < |out| <= |box.plates| * segmentSize
  {
    SegmentCount(out, segmentSize, |box.plates|);
  }

  lemma EncodedPlates(p: Packing, g: Grouping, capacity: nat)
    requires Encodes(p, g, capacity)
    ensures |Finish(Intended, p).value.plates| == |g.closed| + 1
    ensures Finish(AsWritten, p).Some? <==> |g.closed| > 0
    ensures Finish(AsWritten, p).Some? ==> |Finish(AsWritten, p).value.plates| == |g.closed|
  {
  }

  lemma EncodedShape(p: Packing, g: Grouping, capacity: nat)
    requires EncodedOpen(p, g, capacity)
    ensures |p.out| == |g.closed| * capacity + SizeOf(g.open) && SizeOf(g.open) <= capacity
  {
    GroupsFitSnoc(g.closed, g.open, capacity);
    PaddedAllLength(g.closed, capacity);
  }

  lemma BoxShape(files: seq<File>, capacity: nat)
    requires Packable(files) && Fits(files, capacity)
    ensures EncodedOpen(Pack(files, capacity), NextFit(files, capacity), capacity)
    ensures SizeOf(NextFit(files, capacity).open) > 0 <==> files != []
  {
    PackEncodes(files, capacity);
    NextFitFits(files, capacity);
    OpenPlateHolds(files, capacity);
  }

  ghost predicate EncodedOpen(p: Packing, g: Grouping, capacity: nat) {
    Encodes(p, g, capacity) && GroupsFit(g.All(), capacity)
  }

  /** The check in terms of the plates: n closed ones and what is in the open one. As written there is a box only
      when a plate was closed, and the open plate is not among those counted. */
  ghost predicate AcceptedByCount(p: Packing, g: Grouping, capacity: nat, segmentSize: nat)
    requires segmentSize > 0
  {
    var n := |g.closed|;
    var length := n * capacity + SizeOf(g.open);
    && (UploadAccepts(Finish(Intended, p).value, p.out, segmentSize)
        <==> n * segmentSize < length <= (n + 1) * segmentSize)
    && (Finish(AsWritten, p).Some? <==> n > 0)
    && (n > 0 ==> (UploadAccepts(Finish(AsWritten, p).value, p.out, segmentSize)
                   <==> (n - 1) * segmentSize < length <= n * segmentSize))
  }

  lemma PlateCount(files: seq<File>, capacity: nat, segmentSize: nat)
    requires segmentSize > 0 && Packable(files) && Fits(files, capacity)
    ensures AcceptedByCount(Pack(files, capacity), NextFit(files, capacity), capacity, segmentSize)
  {
    BoxShape(files, capacity);
    EncodedCount(Pack(files, capacity), NextFit(files, capacity), capacity, segmentSize);
  }

  lemma EncodedCount(p: Packing, g: Grouping, capacity: nat, segmentSize: nat)
    requires segmentSize > 0 && EncodedOpen(p, g, capacity)
    ensures AcceptedByCount(p, g, capacity, segmentSize)
  {
    EncodedPlates(p, g, capacity);
    EncodedShape(p, g, capacity);
    UploadAcceptsIff(Finish(Intended, p).value, p.out, segmentSize);
    if Finish(AsWritten, p).Some? {
      UploadAcceptsIff(Finish(AsWritten, p).value, p.out, segmentSize);
    }
  }

  lemma OpenFits(files: seq<File>, capacity: nat)
    requires Packable(files) && Fits(files, capacity)
    ensures SizeOf(NextFit(files, capacity).open) <= capacity
    ensures SizeOf(NextFit(files, capacity).open) > 0 <==> files != []
  {
    BoxShape(files, capacity);
    EncodedShape(Pack(files, capacity), NextFit(files, capacity), capacity);
  }

  lemma Scale(n: nat, a: nat, b: nat)
    requires a <= b
    ensures 0 <= n * a <= n * b
  {
  }

  /** With segments as large as plates, uploading is accepted with the intended ending and never as written. */
  lemma PlateSizedSegments(files: seq<File>, capacity: nat)
    requires capacity > 0 && Packable(files) && Fits(files, capacity) && files != []
    ensures var p := Pack(files, capacity);
            && UploadAccepts(Finish(Intended, p).value, p.out, capacity)
            && (Finish(AsWritten, p).Some? ==> !UploadAccepts(Finish(AsWritten, p).value, p.out, capacity))
  {
    PlateCount(files, capacity, capacity);
    OpenFits(files, capacity);
    OneMore(|NextFit(files, capacity).closed|, capacity);
  }

  lemma Multiples(n: nat, open: nat, capacity: nat, segmentSize: nat)
    requires 0 < open <= capacity && 3 * capacity <= segmentSize
    ensures n * segmentSize < n * capacity + open <= (n + 1) * segmentSize <==> n == 0
    ensures n > 0 ==> ((n - 1) * segmentSize < n * capacity + open <= n * segmentSize <==> n == 1)
  {
    if n > 0 {
      OneMore(n - 1, segmentSize);
      OneMore(n - 1, capacity);
      Scale(n - 1, 3 * capacity, segmentSize);
      Tripled(n - 1, capacity);
    }
  }

  lemma Tripled(n: nat, capacity: nat)
    requires capacity > 0
    ensures n * (3 * capacity) == 3 * (n * capacity)
    ensures n > 0 ==> n * capacity >= capacity
  {
  }

  /** With segments of at least three plates, only a box of one plate is accepted with the intended ending, and as
      written only one of two plates, the last of which is lost. */
  lemma LargeSegments(files: seq<File>, capacity: nat, segmentSize: nat)
    requires capacity > 0 && Packable(files) && Fits(files, capacity) && files != []
    requires segmentSize >= 3 * capacity
    ensures var p, n := Pack(files, capacity), |NextFit(files, capacity).closed|;
            && (UploadAccepts(Finish(Intended, p).value, p.out, segmentSize) <==> n == 0)
            && (Finish(AsWritten, p).Some? ==>
                  (UploadAccepts(Finish(AsWritten, p).value, p.out, segmentSize) <==> n == 1))
  {
    PlateCount(files, capacity, segmentSize);
    OpenFits(files, capacity);
    Multiples(|NextFit(files, capacity).closed|, SizeOf(NextFit(files, capacity).open), capacity, segmentSize);
  }

  // ---------- Which segment sizes are safe ----------

  /** A file of exactly one plate, and another. */
  function TwoFiles(capacity: nat, size: nat): seq<File> {
    [File("a", capacity, Zeros(capacity)), File("b", size, Zeros(size))]
  }

  lemma TwoFilesLayout(capacity: nat, size: nat)
    requires 0 < size <= capacity
    ensures var files := TwoFiles(capacity, size);
            && Packable(files) && Fits(files, capacity)
            && NextFit(files, capacity) == Grouping([[files[0]]], [files[1]])
            && SizeOf([files[0]]) == capacity && SizeOf([files[1]]) == size
  {
    var files := TwoFiles(capacity, size);
    GroupSnoc([], files[0]);
    GroupSnoc([], files[1]);
    assert [] + [files[0]] == [files[0]] && [] + [files[1]] == [files[1]];
    assert files[..1] == [files[0]] && files[..1][..0] == [];
    assert NextFit([files[0]], capacity) == Place(NextFit([], capacity), files[0], capacity);
  }

  /** The full plate has no end mark: its file comes back with the length of a segment. */
  lemma TwoFilesComeBackOnlyIf(capacity: nat, size: nat, segmentSize: nat)
    requires 0 < size <= capacity && segmentSize > 0
    ensures AllComeBack(TwoFiles(capacity, size), capacity, segmentSize) ==> segmentSize == capacity
  {
    var files := TwoFiles(capacity, size);
    TwoFilesLayout(capacity, size);
    AlignedIff(Intended, files, capacity, segmentSize, 0, 0);
    assert files[0] in files;
  }

  ghost predicate RoundTrips(files: seq<File>, capacity: nat, segmentSize: nat)
    requires segmentSize > 0
  {
    Packable(files) && Fits(files, capacity) ==> AllComeBack(files, capacity, segmentSize)
  }

  /** Every directory of files that fit a plate comes back from its box exactly when segments are as large as plates. */
  lemma RoundTripsIff(capacity: nat, segmentSize: nat)
    requires capacity > 0 && segmentSize > 0
    ensures (forall files :: RoundTrips(files, capacity, segmentSize)) <==> segmentSize == capacity
  {
    if segmentSize == capacity {
      forall files ensures RoundTrips(files, capacity, segmentSize) {
        if Packable(files) && Fits(files, capacity) {
          BoxRoundTripIff(files, capacity);
        }
      }
    } else {
      TwoFilesLayout(capacity, 1);
      TwoFilesComeBackOnlyIf(capacity, 1, segmentSize);
      assert !RoundTrips(TwoFiles(capacity, 1), capacity, segmentSize);
    }
  }

  ghost predicate UploadedRoundTrips(files: seq<File>, capacity: nat, segmentSize: nat)
    requires segmentSize > 0
  {
    && Packable(files) && Fits(files, capacity)
    && UploadAccepts(Finish(Intended, Pack(files, capacity)).value, Pack(files, capacity).out, segmentSize)
    ==> AllComeBack(files, capacity, segmentSize)
  }

  lemma FarMultiples(n: nat, open: nat, capacity: nat, segmentSize: nat)
    requires 0 < open <= capacity
    requires segmentSize >= 2 * capacity || 2 * segmentSize <= capacity
    requires n * segmentSize < n * capacity + open <= (n + 1) * segmentSize
    ensures n == 0
  {
    if n > 0 {
      OneMore(n, segmentSize);
      OneMore(n - 1, capacity);
      OneMore(n - 1, segmentSize);
      if segmentSize >= 2 * capacity {
        Scale(n, 2 * capacity, segmentSize);
        Scale(n - 1, 0, capacity);
      } else {
        Scale(n, 2 * segmentSize, capacity);
        Scale(n - 1, 0, segmentSize);
      }
      Doubled(n, capacity);
      Doubled(n, segmentSize);
    }
  }

  lemma Doubled(n: nat, size: nat)
    ensures n * (2 * size) == 2 * (n * size)
  {
  }

  /** When segment and plate sizes are far apart, only boxes of one plate are accepted, and those come back. */
  lemma FarApart(files: seq<File>, capacity: nat, segmentSize: nat)
    requires capacity > 0 && segmentSize > 0 && Packable(files) && Fits(files, capacity)
    requires segmentSize >= 2 * capacity || 2 * segmentSize <= capacity
    requires UploadAccepts(Finish(Intended, Pack(files, capacity)).value, Pack(files, capacity).out, segmentSize)
    ensures NextFit(files, capacity).closed == [] && SizeOf(NextFit(files, capacity).open) <= segmentSize
  {
    PlateCount(files, capacity, segmentSize);
    OpenFits(files, capacity);
    if files != [] {
      FarCount(Pack(files, capacity), NextFit(files, capacity), capacity, segmentSize);
    }
  }

  lemma FarCount(p: Packing, g: Grouping, capacity: nat, segmentSize: nat)
    requires segmentSize > 0 && 0 < SizeOf(g.open) <= capacity
    requires segmentSize >= 2 * capacity || 2 * segmentSize <= capacity
    requires AcceptedByCount(p, g, capacity, segmentSize)
    requires UploadAccepts(Finish(Intended, p).value, p.out, segmentSize)
    ensures g.closed == [] && SizeOf(g.open) <= segmentSize
  {
    FarMultiples(|g.closed|, SizeOf(g.open), capacity, segmentSize);
  }

  /** Sizes close to each other but different: a box of two plates passes the check. */
  lemma TwoFilesAccepted(capacity: nat, size: nat, segmentSize: nat)
    requires 0 < size <= capacity && segmentSize < capacity + size <= 2 * segmentSize
    ensures var p := Pack(TwoFiles(capacity, size), capacity);
            UploadAccepts(Finish(Intended, p).value, p.out, segmentSize)
  {
    TwoFilesLayout(capacity, size);
    PlateCount(TwoFiles(capacity, size), capacity, segmentSize);
  }

  /** What passes the check when it is uploaded comes back, for every directory, exactly when segments are as large as
      plates, at least twice as large, or at most half as large: in between, a box of two plates passes and is cut
      in the wrong places. */
  lemma UploadedRoundTripsIff(capacity: nat, segmentSize: nat)
    requires capacity > 0 && segmentSize > 0
    ensures (forall files :: UploadedRoundTrips(files, capacity, segmentSize))
       <==> segmentSize == capacity || segmentSize >= 2 * capacity || 2 * segmentSize <= capacity
  {
    if segmentSize == capacity || segmentSize >= 2 * capacity || 2 * segmentSize <= capacity {
      forall files ensures UploadedRoundTrips(files, capacity, segmentSize) {
        UploadedComesBack(files, capacity, segmentSize);
      }
    } else {
      var size := if segmentSize > capacity then segmentSize - capacity + 1 else 1;
      TwoFilesLayout(capacity, size);
      TwoFilesAccepted(capacity, size, segmentSize);
      TwoFilesComeBackOnlyIf(capacity, size, segmentSize);
      assert !UploadedRoundTrips(TwoFiles(capacity, size), capacity, segmentSize);
    }
  }

  lemma UploadedComesBack(files: seq<File>, capacity: nat, segmentSize: nat)
    requires capacity > 0 && segmentSize > 0
    requires segmentSize == capacity || segmentSize >= 2 * capacity || 2 * segmentSize <= capacity
    ensures UploadedRoundTrips(files, capacity, segmentSize)
  {
    if Packable(files) && Fits(files, capacity)
      && UploadAccepts(Finish(Intended, Pack(files, capacity)).value, Pack(files, capacity).out, segmentSize) {
      if segmentSize == capacity {
        BoxRoundTripIff(files, capacity);
      } else {
        FarApart(files, capacity, segmentSize);
        SinglePlateIff(files, capacity, segmentSize);
      }
    }
  }
}
