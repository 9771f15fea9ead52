/** Which files a box gives back, with the intended ending and as written. Plates have the size of a fragment and the
    stored box is cut into segments of another size; every result says what it needs of the two. */
module BoxRoundTrip {
  import opened Common
  import opened FileBox
  import opened BoxLayout
  import Recovery

  // ---------- The segments of the stored box ----------

  /** The segments of the box when it is stored without a cipher. */
  function SegmentsOf(out: Bytes, segmentSize: nat): nat -> Option<Bytes>
    requires segmentSize > 0
  {
    var segments := Recovery.Split(out, segmentSize, 0);
    (i: nat) => if i < |segments| then Some(segments[i]) else None
  }

  /** `length` bytes of the box from `start` on, zeros behind its end. */
  function Window(out: Bytes, start: nat, length: nat): Bytes {
    seq(length, k requires 0 <= k < length => if start + k < |out| then out[start + k] else 0)
  }

  /** There is a segment i exactly when the box reaches that far, and it holds that part of the box. */
  lemma {:induction false} SegmentAt(out: Bytes, segmentSize: nat, i: nat)
    requires segmentSize > 0
    ensures 0 <= i * segmentSize
    ensures SegmentsOf(out, segmentSize)(i).Some? <==> i * segmentSize < |out|
    ensures SegmentsOf(out, segmentSize)(i).Some? ==>
              SegmentsOf(out, segmentSize)(i).value == Window(out, i * segmentSize, segmentSize)
    decreases i
  {
    if i > 0 {
      OneMore(i - 1, segmentSize);
      SegmentAt(if |out| < segmentSize then [] else out[segmentSize..], segmentSize, i - 1);
    }
  }

  /** The number of segments is the length of the box over the segment size, rounded up. */
  lemma SegmentCount(out: Bytes, segmentSize: nat, count: nat)
    requires segmentSize > 0
    ensures |Recovery.Split(out, segmentSize, 0)| == count
       <==> (count - 1) * segmentSize < |out| <= count * segmentSize
  {
    SegmentAt(out, segmentSize, count);
    if count > 0 {
      SegmentAt(out, segmentSize, count - 1);
    }
  }

  // ---------- Segments as large as a plate are the padded groups ----------

  function PaddedEach(groups: seq<seq<File>>, capacity: nat): seq<Bytes> {
    seq(|groups|, i requires 0 <= i < |groups| => Padded(groups[i], capacity))
  }

  lemma SplitFirst(first: Bytes, rest: Bytes, capacity: nat)
    requires |first| == capacity > 0
    ensures Recovery.Split(first + rest, capacity, 0) == [first] + Recovery.Split(rest, capacity, 0)
  {
    assert (first + rest)[..capacity] == first && (first + rest)[capacity..] == rest;
  }

  lemma {:induction false} SplitClosed(closed: seq<seq<File>>, rest: Bytes, capacity: nat)
    requires capacity > 0 && GroupsFit(closed, capacity)
    ensures Recovery.Split(PaddedAll(closed, capacity) + rest, capacity, 0)
         == PaddedEach(closed, capacity) + Recovery.Split(rest, capacity, 0)
  {
    if closed == [] {
      assert [] + rest == rest;
      assert PaddedEach(closed, capacity) == [];
    } else {
      var front, last := closed[..|closed| - 1], closed[|closed| - 1];
      assert PaddedAll(closed, capacity) + rest == PaddedAll(front, capacity) + (Padded(last, capacity) + rest);
      SplitClosed(front, Padded(last, capacity) + rest, capacity);
      SplitFirst(Padded(last, capacity), rest, capacity);
      assert PaddedEach(closed, capacity) == PaddedEach(front, capacity) + [Padded(last, capacity)];
    }
  }

  lemma SplitOpen(open: seq<File>, capacity: nat)
    requires 0 < SizeOf(open) <= capacity
    ensures Recovery.Split(Flat(open), capacity, 0) == [Padded(open, capacity)]
  {
    if SizeOf(open) < capacity {
      assert Padded(open, capacity) == Flat(open) + seq(capacity - SizeOf(open), _ => 0);
    } else {
      SplitFirst(Flat(open), [], capacity);
      assert Flat(open) + [] == Flat(open) == Padded(open, capacity);
    }
  }

  lemma EncodedSegments(p: Packing, g: Grouping, capacity: nat)
    requires capacity > 0 && Encodes(p, g, capacity) && GroupsFit(g.All(), capacity) && p.size > 0
    ensures Recovery.Split(p.out, capacity, 0) == PaddedEach(g.All(), capacity)
  {
    GroupsFitSnoc(g.closed, g.open, capacity);
    SplitClosed(g.closed, Flat(g.open), capacity);
    SplitOpen(g.open, capacity);
    assert PaddedEach(g.All(), capacity) == PaddedEach(g.closed, capacity) + [Padded(g.open, capacity)];
  }

  /** The splitter cuts the box at the plates exactly when segments are as large as plates. */
  lemma SegmentsArePlatesIff(files: seq<File>, capacity: nat, segmentSize: nat)
    requires capacity > 0 && segmentSize > 0 && Packable(files) && Fits(files, capacity) && files != []
    ensures (Recovery.Split(Pack(files, capacity).out, segmentSize, 0)
             == PaddedEach(NextFit(files, capacity).All(), capacity)) <==> segmentSize == capacity
  {
    PackEncodes(files, capacity);
    NextFitFits(files, capacity);
    OpenPlateHolds(files, capacity);
    EncodedSegments(Pack(files, capacity), NextFit(files, capacity), capacity);
    SegmentAt(Pack(files, capacity).out, segmentSize, 0);
    var first := NextFit(files, capacity).All()[0];
    assert SizeOf(first) <= capacity;
    assert |PaddedEach(NextFit(files, capacity).All(), capacity)[0]| == |Padded(first, capacity)| == capacity;
  }

  // ---------- One plate ----------

  lemma PrefixSlice(a: Bytes, b: Bytes, start: nat, end: nat)
    requires start <= end <= |a|
    ensures (a + b)[start..end] == a[start..end]
  {
  }

  lemma {:induction false} OffsetAt(group: seq<File>, j: nat)
    requires j < |group|
    ensures Offsets(group)[j] == SizeOf(group[..j])
    ensures SizeOf(group[..j + 1]) == SizeOf(group[..j]) + |group[j].content| <= SizeOf(group)
  {
    var front := group[..|group| - 1];
    assert group[..j + 1][..j] == group[..j];
    if j == |front| {
      assert group[..j + 1] == group;
    } else {
      OffsetAt(front, j);
      assert front[..j] == group[..j] && front[..j + 1] == group[..j + 1];
    }
  }

  lemma {:induction false} ContentAt(group: seq<File>, j: nat)
    requires j < |group|
    ensures SizeOf(group[..j]) <= SizeOf(group[..j + 1]) <= SizeOf(group)
    ensures Flat(group)[SizeOf(group[..j])..SizeOf(group[..j + 1])] == group[j].content
  {
    var front := group[..|group| - 1];
    OffsetAt(group, j);
    if j == |front| {
      assert group[..j + 1] == group;
    } else {
      ContentAt(front, j);
      assert front[..j] == group[..j] && front[..j + 1] == group[..j + 1];
      PrefixSlice(Flat(front), group[|front|].content, SizeOf(front[..j]), SizeOf(front[..j + 1]));
    }
  }

  /** Where the program takes the file at place j of a plate to end in a segment of this size. */
  function EndAt(plate: Plate, j: nat, segmentSize: nat): int {
    if j + 1 < |plate.indexs| then plate.indexs[j + 1] else segmentSize
  }

  /** A slice of a segment gives a file back exactly when it ends where the file does, inside the segment, and the
      bytes of the file are there. */
  lemma SliceIff(plate: Plate, j: nat, out: Bytes, base: nat, segmentSize: nat, content: Bytes)
    requires j < |plate.indexs| && 0 <= plate.indexs[j]
    ensures SliceAt(plate, j, Window(out, base, segmentSize)) == Found(content)
       <==> && plate.indexs[j] + |content| == EndAt(plate, j, segmentSize) <= segmentSize
            && Window(out, base + plate.indexs[j], |content|) == content
  {
    var data, start := Window(out, base, segmentSize), plate.indexs[j];
    if SliceAt(plate, j, data) == Found(content) && |plate.indexs| == j + 1 {
      assert data[start..] == data[start..|data|];
    }
    if start + |content| <= segmentSize {
      assert data[start..start + |content|] == Window(out, base + start, |content|);
    }
  }

  // ---------- Finding the plate ----------

  lemma NameAt(group: seq<File>, j: nat)
    requires j < |group|
    ensures group[j].name in Names(group)
  {
    assert Names(group)[j] == group[j].name;
  }

  /** The plates list the files of the groups, and possibly the empty end marker. */
  ghost predicate Lists(plates: seq<Plate>, groups: seq<seq<File>>) {
    && |plates| <= |groups|
    && forall i :: 0 <= i < |plates| ==>
         plates[i].files == Names(groups[i]) || plates[i].files == Names(groups[i]) + [""]
  }

  lemma PlacedIsPacked(files: seq<File>, capacity: nat, i: nat, j: nat)
    requires i < |NextFit(files, capacity).All()| && j < |NextFit(files, capacity).All()[i]|
    ensures NextFit(files, capacity).All()[i][j] in files
  {
    GroupingKeepsFiles(files, capacity);
    var k := UngroupIndex(NextFit(files, capacity).All(), i, j);
  }

  /** Looking a packed name up finds its plate if that is among the plates, and nothing otherwise. */
  lemma FindPlaced(files: seq<File>, capacity: nat, plates: seq<Plate>, i: nat, j: nat)
    requires Packable(files)
    requires Lists(plates, NextFit(files, capacity).All())
    requires i < |NextFit(files, capacity).All()| && j < |NextFit(files, capacity).All()[i]|
    ensures var name := NextFit(files, capacity).All()[i][j].name;
            FindFile(plates, name) == if i < |plates| then Some((i, j)) else None
  {
    var groups: seq<seq<File>> := NextFit(files, capacity).All();
    var name := groups[i][j].name;
    PlacedIsPacked(files, capacity, i, j);
    if i < |plates| {
      NameAt(groups[i], j);
      assert name in plates[i].files;
    }
    match FindFile(plates, name)
    case None =>
    case Some((a, b)) =>
      assert plates[a].files[b] == name != "";
      assert b < |groups[a]|;
      PlaceIsUnique(files, capacity, a, b, i, j);
  }

  lemma NotListed(plates: seq<Plate>, groups: seq<seq<File>>, name: string)
    requires Lists(plates, groups) && name != ""
    requires forall i: nat, j: nat :: i < |groups| && j < |groups[i]| ==> groups[i][j].name != name
    ensures FindFile(plates, name).None?
  {
  }

  lemma EncodedLists(reading: Reading, p: Packing, g: Grouping, capacity: nat)
    requires Encodes(p, g, capacity) && Finish(reading, p).Some?
    ensures Lists(Finish(reading, p).value.plates, g.All())
  {
  }

  lemma FinishLists(reading: Reading, files: seq<File>, capacity: nat)
    requires Steady(files)
    requires Finish(reading, Pack(files, capacity)).Some?
    ensures Lists(Finish(reading, Pack(files, capacity)).value.plates, NextFit(files, capacity).All())
  {
    PackEncodes(files, capacity);
    EncodedLists(reading, Pack(files, capacity), NextFit(files, capacity), capacity);
  }

  // ---------- Fetching a file ----------

  function Fetch(reading: Reading, files: seq<File>, capacity: nat, segmentSize: nat, name: string): Lookup
    requires segmentSize > 0 && Finish(reading, Pack(files, capacity)).Some?
  {
    var p := Pack(files, capacity);
    Retrieve(Finish(reading, p).value, name, SegmentsOf(p.out, segmentSize))
  }

  /** A name that was not packed is not found. */
  lemma AbsentIsNotFound(reading: Reading, files: seq<File>, capacity: nat, segmentSize: nat, name: string)
    requires segmentSize > 0 && Packable(files) && name != ""
    requires forall file <- files :: file.name != name
    requires Finish(reading, Pack(files, capacity)).Some?
    ensures Fetch(reading, files, capacity, segmentSize, name) == NotFound
  {
    var groups: seq<seq<File>> := NextFit(files, capacity).All();
    FinishLists(reading, files, capacity);
    forall i: nat, j: nat | i < |groups| && j < |groups[i]| ensures groups[i][j].name != name {
      PlacedIsPacked(files, capacity, i, j);
    }
    NotListed(Finish(reading, Pack(files, capacity)).value.plates, groups, name);
  }

  /** What a lookup comes down to: plate i is looked for in segment i. */
  lemma FetchIsSlice(reading: Reading, files: seq<File>, capacity: nat, segmentSize: nat, i: nat, j: nat)
    requires segmentSize > 0 && Packable(files)
    requires Finish(reading, Pack(files, capacity)).Some?
    requires i < |NextFit(files, capacity).All()| && j < |NextFit(files, capacity).All()[i]|
    ensures 0 <= i * segmentSize
    ensures var p := Pack(files, capacity);
            var plates := Finish(reading, p).value.plates;
            Fetch(reading, files, capacity, segmentSize, NextFit(files, capacity).All()[i][j].name) ==
            if i >= |plates| then NotFound
            else if i * segmentSize >= |p.out| then NotFetched
            else SliceAt(plates[i], j, Window(p.out, i * segmentSize, segmentSize))
  {
    FinishLists(reading, files, capacity);
    FindPlaced(files, capacity, Finish(reading, Pack(files, capacity)).value.plates, i, j);
    SegmentAt(Pack(files, capacity).out, segmentSize, i);
  }

  /** The plates whose offsets are recorded: as written all but the open one. */
  function Recorded(reading: Reading, g: Grouping): nat {
    if reading.AsWritten? then |g.closed| else |g.All()|
  }

  /** Where the offsets recorded for plate i say that its file j ends. A full plate has no end mark, and is then read
      to the end of the segment. As written, the last closed plate gets the end mark of the open one behind its own. */
  function RecordedEnd(reading: Reading, g: Grouping, capacity: nat, segmentSize: nat, i: nat, j: nat): int
    requires i < Recorded(reading, g) && j < |g.All()[i]|
  {
    if j + 1 < |g.All()[i]| || SizeOf(g.All()[i]) < capacity then SizeOf(g.All()[i][..j + 1])
    else if reading.AsWritten? && i + 1 == |g.closed| then SizeOf(g.open)
    else if reading.Intended? && i == |g.closed| then SizeOf(g.open)
    else segmentSize
  }

  /** The marks behind the offsets of plate i. */
  function Tail(reading: Reading, g: Grouping, capacity: nat, i: nat): seq<int>
    requires i < Recorded(reading, g)
  {
    (if i < |g.closed| && SizeOf(g.closed[i]) < capacity then [SizeOf(g.closed[i])] else [])
    + (if i + 1 == Recorded(reading, g) then [SizeOf(g.open)] else [])
  }

  lemma PlateIs(reading: Reading, p: Packing, g: Grouping, capacity: nat, i: nat)
    requires Encodes(p, g, capacity) && Finish(reading, p).Some?
    requires i < Recorded(reading, g)
    ensures i < |Finish(reading, p).value.plates|
    ensures Finish(reading, p).value.plates[i].indexs == Offsets(g.All()[i]) + Tail(reading, g, capacity, i)
  {
  }

  lemma RecordedPlate(reading: Reading, g: Grouping, capacity: nat, segmentSize: nat, i: nat, j: nat, plate: Plate)
    requires i < Recorded(reading, g) && j < |g.All()[i]|
    requires plate.indexs == Offsets(g.All()[i]) + Tail(reading, g, capacity, i)
    ensures j < |plate.indexs| && plate.indexs[j] == SizeOf(g.All()[i][..j])
    ensures EndAt(plate, j, segmentSize) == RecordedEnd(reading, g, capacity, segmentSize, i, j)
  {
    var group := g.All()[i];
    OffsetAt(group, j);
    if j + 1 < |group| {
      OffsetAt(group, j + 1);
    } else {
      assert group[..j + 1] == group;
    }
  }

  /** The recorded offsets of the file at place j of plate i cut its bytes out of a segment starting at `base`. */
  predicate CutsOut(reading: Reading, p: Packing, g: Grouping, capacity: nat, segmentSize: nat, base: nat,
                    i: nat, j: nat)
    requires i < |g.All()| && j < |g.All()[i]|
  {
    var content, start := g.All()[i][j].content, SizeOf(g.All()[i][..j]);
    && i < Recorded(reading, g) && base < |p.out|
    && RecordedEnd(reading, g, capacity, segmentSize, i, j) == start + |content| <= segmentSize
    && Window(p.out, base + start, |content|) == content
  }

  lemma CutsOutIff(reading: Reading, p: Packing, g: Grouping, capacity: nat, segmentSize: nat, base: nat,
                   i: nat, j: nat)
    requires Encodes(p, g, capacity) && Finish(reading, p).Some?
    requires i < |g.All()| && j < |g.All()[i]|
    ensures var plates := Finish(reading, p).value.plates;
            (if i >= |plates| then NotFound else if base >= |p.out| then NotFetched
             else SliceAt(plates[i], j, Window(p.out, base, segmentSize))) == Found(g.All()[i][j].content)
            <==> CutsOut(reading, p, g, capacity, segmentSize, base, i, j)
  {
    if i < Recorded(reading, g) {
      PlateIs(reading, p, g, capacity, i);
      RecordedPlate(reading, g, capacity, segmentSize, i, j, Finish(reading, p).value.plates[i]);
      SliceIff(Finish(reading, p).value.plates[i], j, p.out, base, segmentSize, g.All()[i][j].content);
    }
  }

  /** Exactly when a packed file comes back, under both readings and for segments of any size: its plate is recorded,
      the recorded end is the right one and inside the segment, and the bytes there are those of the file. */
  lemma ComesBackIff(reading: Reading, files: seq<File>, capacity: nat, segmentSize: nat, i: nat, j: nat)
    requires segmentSize > 0 && Packable(files)
    requires Finish(reading, Pack(files, capacity)).Some?
    requires i < |NextFit(files, capacity).All()| && j < |NextFit(files, capacity).All()[i]|
    ensures 0 <= i * segmentSize
    ensures var p, g := Pack(files, capacity), NextFit(files, capacity);
            Fetch(reading, files, capacity, segmentSize, g.All()[i][j].name) == Found(g.All()[i][j].content)
            <==> CutsOut(reading, p, g, capacity, segmentSize, i * segmentSize, i, j)
  {
    FetchIsSlice(reading, files, capacity, segmentSize, i, j);
    PackEncodes(files, capacity);
    CutsOutIff(reading, Pack(files, capacity), NextFit(files, capacity), capacity, segmentSize, i * segmentSize, i, j);
  }

  // ---------- Where the bytes of a file are ----------

  predicate IsAt(out: Bytes, start: nat, content: Bytes) {
    start + |content| <= |out| && out[start..start + |content|] == content
  }

  lemma IsAtExtends(before: Bytes, out: Bytes, after: Bytes, start: nat, content: Bytes)
    requires IsAt(out, start, content)
    ensures IsAt(before + out, |before| + start, content)
    ensures IsAt(out + after, start, content)
  {
  }

  lemma FlatAt(group: seq<File>, j: nat)
    requires j < |group|
    ensures IsAt(Flat(group), SizeOf(group[..j]), group[j].content)
  {
    ContentAt(group, j);
    OffsetAt(group, j);
  }

  lemma {:induction false} ClosedAt(closed: seq<seq<File>>, capacity: nat, i: nat, j: nat)
    requires i < |closed| && j < |closed[i]|
    ensures IsAt(PaddedAll(closed, capacity), |PaddedAll(closed[..i], capacity)| + SizeOf(closed[i][..j]),
                 closed[i][j].content)
    decreases |closed|
  {
    var front, last := closed[..|closed| - 1], closed[|closed| - 1];
    var start, content := SizeOf(closed[i][..j]), closed[i][j].content;
    if i < |front| {
      ClosedAt(front, capacity, i, j);
      assert front[..i] == closed[..i];
      IsAtExtends([], PaddedAll(front, capacity), Padded(last, capacity), |PaddedAll(front[..i], capacity)| + start,
                  content);
    } else {
      FlatAt(last, j);
      var padding := Zeros(if SizeOf(last) < capacity then capacity - SizeOf(last) else 0);
      IsAtExtends([], Flat(last), padding, start, content);
      IsAtExtends(PaddedAll(front, capacity), Padded(last, capacity), [], start, content);
    }
  }

  lemma EncodedAt(p: Packing, g: Grouping, capacity: nat, i: nat, j: nat)
    requires Encodes(p, g, capacity) && i < |g.All()| && j < |g.All()[i]|
    ensures IsAt(p.out, |PaddedAll(g.closed[..i], capacity)| + SizeOf(g.All()[i][..j]), g.All()[i][j].content)
  {
    if i < |g.closed| {
      ClosedAt(g.closed, capacity, i, j);
      IsAtExtends([], PaddedAll(g.closed, capacity), Flat(g.open),
                  |PaddedAll(g.closed[..i], capacity)| + SizeOf(g.closed[i][..j]), g.closed[i][j].content);
    } else {
      assert g.closed[..i] == g.closed;
      FlatAt(g.open, j);
      IsAtExtends(PaddedAll(g.closed, capacity), Flat(g.open), [], SizeOf(g.open[..j]), g.open[j].content);
    }
  }

  /** The plates before plate i fill `base` bytes. */
  predicate Before(files: seq<File>, capacity: nat, i: nat, base: nat) {
    (i == 0 && base == 0) || (base == i * capacity && Fits(files, capacity))
  }

  lemma PlatesBefore(files: seq<File>, capacity: nat, i: nat, base: nat)
    requires Before(files, capacity, i, base)
    requires i <= |NextFit(files, capacity).closed|
    ensures |PaddedAll(NextFit(files, capacity).closed[..i], capacity)| == base
  {
    if i > 0 {
      var closed: seq<seq<File>> := NextFit(files, capacity).closed;
      NextFitFits(files, capacity);
      GroupsFitSnoc(closed, NextFit(files, capacity).open, capacity);
      PaddedAllLength(closed[..i], capacity);
    }
  }

  /** The bytes of a file are in the box at its offset behind the plates before it. */
  lemma FileAt(files: seq<File>, capacity: nat, i: nat, j: nat, base: nat)
    requires Packable(files) && Before(files, capacity, i, base)
    requires i < |NextFit(files, capacity).All()| && j < |NextFit(files, capacity).All()[i]|
    ensures var group := NextFit(files, capacity).All()[i];
            IsAt(Pack(files, capacity).out, base + SizeOf(group[..j]), group[j].content)
    ensures NextFit(files, capacity).All()[i][j].content != []
  {
    PackEncodes(files, capacity);
    EncodedAt(Pack(files, capacity), NextFit(files, capacity), capacity, i, j);
    PlatesBefore(files, capacity, i, base);
    PlacedIsPacked(files, capacity, i, j);
  }

  // ---------- Segments as large as a plate, and first plates ----------

  /** The end recorded for a file is its own, and inside the segment. */
  predicate EndsRight(reading: Reading, g: Grouping, capacity: nat, segmentSize: nat, i: nat, j: nat)
    requires i < |g.All()| && j < |g.All()[i]|
  {
    && i < Recorded(reading, g)
    && RecordedEnd(reading, g, capacity, segmentSize, i, j) == SizeOf(g.All()[i][..j + 1]) <= segmentSize
  }

  lemma AlignedCutsOut(reading: Reading, p: Packing, g: Grouping, capacity: nat, segmentSize: nat, base: nat,
                       i: nat, j: nat)
    requires i < |g.All()| && j < |g.All()[i]| && g.All()[i][j].content != []
    requires IsAt(p.out, base + SizeOf(g.All()[i][..j]), g.All()[i][j].content)
    ensures CutsOut(reading, p, g, capacity, segmentSize, base, i, j)
       <==> EndsRight(reading, g, capacity, segmentSize, i, j)
  {
    OffsetAt(g.All()[i], j);
    IsInWindow(p.out, base + SizeOf(g.All()[i][..j]), g.All()[i][j].content);
  }

  lemma IsInWindow(out: Bytes, start: nat, content: Bytes)
    requires IsAt(out, start, content)
    ensures Window(out, start, |content|) == content
  {
  }

  lemma Aligned(reading: Reading, files: seq<File>, capacity: nat, segmentSize: nat, i: nat, j: nat, base: nat)
    requires Packable(files) && Before(files, capacity, i, base)
    requires i < |NextFit(files, capacity).All()| && j < |NextFit(files, capacity).All()[i]|
    ensures var g := NextFit(files, capacity);
            CutsOut(reading, Pack(files, capacity), g, capacity, segmentSize, base, i, j)
            <==> EndsRight(reading, g, capacity, segmentSize, i, j)
  {
    FileAt(files, capacity, i, j, base);
    AlignedCutsOut(reading, Pack(files, capacity), NextFit(files, capacity), capacity, segmentSize, base, i, j);
  }

  lemma StartTogether(files: seq<File>, capacity: nat, segmentSize: nat, i: nat)
    requires i == 0 || (segmentSize == capacity && Fits(files, capacity))
    ensures 0 <= i * segmentSize && Before(files, capacity, i, i * segmentSize)
  {
  }

  /** When plates and segments start together, only the recorded end matters. */
  lemma AlignedIff(reading: Reading, files: seq<File>, capacity: nat, segmentSize: nat, i: nat, j: nat)
    requires segmentSize > 0 && Packable(files)
    requires i == 0 || (segmentSize == capacity && Fits(files, capacity))
    requires Finish(reading, Pack(files, capacity)).Some?
    requires i < |NextFit(files, capacity).All()| && j < |NextFit(files, capacity).All()[i]|
    ensures var g := NextFit(files, capacity);
            Fetch(reading, files, capacity, segmentSize, g.All()[i][j].name) == Found(g.All()[i][j].content)
            <==> EndsRight(reading, g, capacity, segmentSize, i, j)
  {
    ComesBackIff(reading, files, capacity, segmentSize, i, j);
    StartTogether(files, capacity, segmentSize, i);
    Aligned(reading, files, capacity, segmentSize, i, j, i * segmentSize);
  }

  lemma IntendedEnd(g: Grouping, capacity: nat, segmentSize: nat, i: nat, j: nat)
    requires i < |g.All()| && j < |g.All()[i]|
    requires segmentSize == capacity >= SizeOf(g.All()[i]) || g.closed == []
    ensures RecordedEnd(Intended, g, capacity, segmentSize, i, j) == SizeOf(g.All()[i][..j + 1]) <= SizeOf(g.All()[i])
  {
    OffsetAt(g.All()[i], j);
    if j + 1 == |g.All()[i]| {
      assert g.All()[i][..j + 1] == g.All()[i];
    }
  }

  /** The box round trip: with the open plate closed at the end, every packed file comes back when segments are as
      large as plates, or when there is only one plate and it is not longer than a segment. */
  lemma BoxRoundTrip(files: seq<File>, capacity: nat, segmentSize: nat, file: File)
    requires segmentSize > 0 && Packable(files) && file in files
    requires || (segmentSize == capacity && Fits(files, capacity))
             || (NextFit(files, capacity).closed == [] && SizeOf(NextFit(files, capacity).open) <= segmentSize)
    ensures Fetch(Intended, files, capacity, segmentSize, file.name) == Found(file.content)
  {
    var g := NextFit(files, capacity);
    GroupingKeepsFiles(files, capacity);
    var k :| 0 <= k < |files| && files[k] == file;
    var i, j := UngroupFind(g.All(), k);
    NextFitFits(files, capacity);
    IntendedEnd(g, capacity, segmentSize, i, j);
    AlignedIff(Intended, files, capacity, segmentSize, i, j);
  }

  predicate AllComeBack(files: seq<File>, capacity: nat, segmentSize: nat)
    requires segmentSize > 0
  {
    forall file <- files :: Fetch(Intended, files, capacity, segmentSize, file.name) == Found(file.content)
  }

  lemma {:induction false} LongFileIsLost(files: seq<File>, capacity: nat, segmentSize: nat, file: File)
    requires segmentSize > 0 && |file.content| > segmentSize
    ensures Fetch(Intended, files, capacity, segmentSize, file.name) != Found(file.content)
  {
    var p := Pack(files, capacity);
    match FindFile(Finish(Intended, p).value.plates, file.name)
    case None =>
    case Some((i, j)) => SegmentAt(p.out, segmentSize, i);
  }

  /** With segments as large as plates, all files come back exactly when none is larger than a plate. */
  lemma BoxRoundTripIff(files: seq<File>, capacity: nat)
    requires capacity > 0 && Packable(files)
    ensures Fits(files, capacity) <==> AllComeBack(files, capacity, capacity)
  {
    forall file <- files
      ensures Fits(files, capacity) ==> Fetch(Intended, files, capacity, capacity, file.name) == Found(file.content)
      ensures |file.content| > capacity ==> Fetch(Intended, files, capacity, capacity, file.name) != Found(file.content)
    {
      if Fits(files, capacity) {
        BoxRoundTrip(files, capacity, capacity, file);
      }
      if |file.content| > capacity {
        LongFileIsLost(files, capacity, capacity, file);
      }
    }
  }

  /** From a box of one plate all files come back exactly when the plate is not longer than a segment; in particular
      whenever segments are at least as large as plates. */
  lemma SinglePlateIff(files: seq<File>, capacity: nat, segmentSize: nat)
    requires segmentSize > 0 && Packable(files) && NextFit(files, capacity).closed == []
    ensures AllComeBack(files, capacity, segmentSize) <==> SizeOf(NextFit(files, capacity).open) <= segmentSize
  {
    var open := NextFit(files, capacity).open;
    if SizeOf(open) <= segmentSize {
      forall file <- files ensures Fetch(Intended, files, capacity, segmentSize, file.name) == Found(file.content) {
        BoxRoundTrip(files, capacity, segmentSize, file);
      }
    } else {
      var j := |open| - 1;
      assert NextFit(files, capacity).All()[0] == open && open[..j + 1] == open;
      IntendedEnd(NextFit(files, capacity), capacity, segmentSize, 0, j);
      AlignedIff(Intended, files, capacity, segmentSize, 0, j);
      PlacedIsPacked(files, capacity, 0, j);
    }
  }

  // ---------- As written ----------

  /** The file at place j of plate i survives the ending as written: its plate was closed, it ends inside a segment,
      and if it fills its plate to the end then what marks its end happens to be right: the size of the plate left
      open for the last closed plate, the size of a segment for the others. */
  predicate Survives(g: Grouping, capacity: nat, segmentSize: nat, i: nat, j: nat)
    requires i < |g.All()| && j < |g.All()[i]|
  {
    && i < |g.closed| && SizeOf(g.closed[i][..j + 1]) <= segmentSize
    && (|| j + 1 < |g.closed[i]| || SizeOf(g.closed[i]) < capacity
        || SizeOf(g.closed[i]) == if i + 1 < |g.closed| then segmentSize else SizeOf(g.open))
  }

  /** As written, a file comes back exactly when it survives, for segments as large as plates and for the first plate
      of any box; and there is no box at all when no plate was closed. */
  lemma AsWrittenRoundTripIff(files: seq<File>, capacity: nat, segmentSize: nat, i: nat, j: nat)
    requires segmentSize > 0 && Packable(files)
    requires i == 0 || (segmentSize == capacity && Fits(files, capacity))
    requires i < |NextFit(files, capacity).All()| && j < |NextFit(files, capacity).All()[i]|
    ensures var g := NextFit(files, capacity);
            && (Finish(AsWritten, Pack(files, capacity)).Some? <==> g.closed != [])
            && (g.closed != [] ==>
                  (Fetch(AsWritten, files, capacity, segmentSize, g.All()[i][j].name) == Found(g.All()[i][j].content)
                   <==> Survives(g, capacity, segmentSize, i, j)))
  {
    var g := NextFit(files, capacity);
    PackEncodes(files, capacity);
    if g.closed != [] {
      AlignedIff(AsWritten, files, capacity, segmentSize, i, j);
      if i < |g.closed| && j + 1 == |g.closed[i]| {
        assert g.closed[i][..j + 1] == g.closed[i];
      }
    }
  }

  /** So as written the file packed last is always lost, whatever the size of the segments. */
  lemma AsWrittenLosesTheLast(files: seq<File>, capacity: nat, segmentSize: nat)
    requires segmentSize > 0 && Packable(files) && files != []
    requires Finish(AsWritten, Pack(files, capacity)).Some?
    ensures Fetch(AsWritten, files, capacity, segmentSize, files[|files| - 1].name) == NotFound
  {
    var g := NextFit(files, capacity);
    PackEncodes(files, capacity);
    LastIsOpen(files, capacity);
    FetchIsSlice(AsWritten, files, capacity, segmentSize, |g.closed|, |g.open| - 1);
  }

  lemma LastIsOpen(files: seq<File>, capacity: nat)
    requires files != []
    ensures NextFit(files, capacity).open != []
    ensures NextFit(files, capacity).open[|NextFit(files, capacity).open| - 1] == files[|files| - 1]
  {
    PlaceKeepsFiles(NextFit(files[..|files| - 1], capacity), files[|files| - 1], capacity);
  }
}
