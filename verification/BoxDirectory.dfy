/** From a directory listing to a box and back: CreateAFileBox and UploadDirAsBoxFile of cd2n-client/client/files.go,
    and what they promise of the entries of the directory. */
module BoxDirectory {
  import opened Common
  import opened FileBox
  import opened BoxLayout
  import opened BoxRoundTrip
  import opened BoxUpload
  import Recovery

  /** A directory entry: its size is None when it cannot be examined, its content None when it cannot be read. */
  datatype Entry = Entry(name: string, isDir: bool, size: Option<nat>, content: Option<Bytes>)

  predicate Skipped(entry: Entry) { entry.isDir || entry.size.None? || entry.size.value == 0 }

  predicate Unreadable(entry: Entry) { !Skipped(entry) && entry.content.None? }

  /** The entries the loop packs. */
  function Accepted(entries: seq<Entry>): seq<File> {
    if entries == [] then []
    else
      var rest, last := Accepted(entries[..|entries| - 1]), entries[|entries| - 1];
      if Skipped(last) || last.content.None? then rest
      else rest + [File(last.name, last.size.value, last.content.value)]
  }

  // ---------- What a box means for the directory ----------

  /** No name is listed twice and none is empty, and no file changes between being examined and being read. */
  predicate Listing(entries: seq<Entry>) {
    && (forall i, j :: 0 <= i < j < |entries| ==> entries[i].name != entries[j].name)
    && (forall entry <- entries :: entry.name != "" && !Unreadable(entry)
          && (!Skipped(entry) ==> |entry.content.value| == entry.size.value))
  }

  predicate AllFit(entries: seq<Entry>, capacity: nat) {
    forall entry <- entries :: !Skipped(entry) ==> entry.size.value <= capacity
  }

  function SizeOfAll(entries: seq<Entry>): nat {
    if entries == [] then 0
    else (if Skipped(entries[0]) then 0 else entries[0].size.value) + SizeOfAll(entries[1..])
  }

  /** Every file of the directory comes back from the segments under its own name, byte for byte. */
  ghost predicate GivesBack(box: Box, out: Bytes, entries: seq<Entry>, segmentSize: nat)
    requires segmentSize > 0 && Listing(entries)
  {
    forall entry <- entries :: !Skipped(entry) ==>
      Retrieve(box, entry.name, SegmentsOf(out, segmentSize)) == Found(entry.content.value)
  }

  /** And nothing comes back under any other name. */
  ghost predicate NothingElse(box: Box, out: Bytes, entries: seq<Entry>, segmentSize: nat)
    requires segmentSize > 0
  {
    forall name: string :: name != "" && Lacks(entries, name)
      ==> Retrieve(box, name, SegmentsOf(out, segmentSize)) == NotFound
  }

  predicate Lacks(entries: seq<Entry>, name: string) {
    forall entry <- entries :: !Skipped(entry) ==> entry.name != name
  }

  lemma {:induction false} AcceptedIff(entries: seq<Entry>, file: File)
    ensures file in Accepted(entries)
       <==> exists entry <- entries :: !Skipped(entry) && entry.content.Some?
              && file == File(entry.name, entry.size.value, entry.content.value)
  {
    if entries != [] {
      AcceptedIff(entries[..|entries| - 1], file);
      assert entries == entries[..|entries| - 1] + [entries[|entries| - 1]];
    }
  }

  lemma {:induction false} AcceptedPackable(entries: seq<Entry>)
    requires Listing(entries)
    ensures Packable(Accepted(entries))
  {
    if entries != [] {
      var front, last := entries[..|entries| - 1], entries[|entries| - 1];
      assert last in entries && forall entry <- front :: entry in entries;
      AcceptedPackable(front);
      forall file <- Accepted(front) ensures file.name != last.name {
        AcceptedIff(front, file);
      }
    }
  }

  lemma AcceptedFit(entries: seq<Entry>, capacity: nat)
    requires Listing(entries)
    ensures AllFit(entries, capacity) <==> Fits(Accepted(entries), capacity)
  {
    forall entry <- entries | !Skipped(entry)
      ensures File(entry.name, entry.size.value, entry.content.value) in Accepted(entries)
    {
      AcceptedIff(entries, File(entry.name, entry.size.value, entry.content.value));
    }
    forall file <- Accepted(entries)
      ensures exists entry <- entries :: !Skipped(entry) && |file.content| == entry.size.value
    {
      AcceptedIff(entries, file);
    }
  }

  lemma {:induction false} SizeOfAllSnoc(entries: seq<Entry>)
    requires entries != []
    ensures var last := entries[|entries| - 1];
            SizeOfAll(entries) == SizeOfAll(entries[..|entries| - 1]) + if Skipped(last) then 0 else last.size.value
  {
    if |entries| > 1 {
      SizeOfAllSnoc(entries[1..]);
      assert entries[..|entries| - 1][1..] == entries[1..][..|entries| - 2];
    }
  }

  lemma {:induction false} AcceptedSize(entries: seq<Entry>)
    requires Listing(entries)
    ensures SizeOf(Accepted(entries)) == SizeOfAll(entries)
  {
    if entries != [] {
      var front, last := entries[..|entries| - 1], entries[|entries| - 1];
      assert last in entries && forall entry <- front :: entry in entries;
      AcceptedSize(front);
      SizeOfAllSnoc(entries);
      if !Skipped(last) {
        GroupSnoc(Accepted(front), File(last.name, last.size.value, last.content.value));
      }
    }
  }

  lemma AllGivesBackIff(entries: seq<Entry>, capacity: nat, segmentSize: nat)
    requires segmentSize > 0 && Listing(entries)
    ensures var p := Pack(Accepted(entries), capacity);
            AllComeBack(Accepted(entries), capacity, segmentSize)
            <==> GivesBack(Finish(Intended, p).value, p.out, entries, segmentSize)
  {
    forall entry <- entries | !Skipped(entry)
      ensures File(entry.name, entry.size.value, entry.content.value) in Accepted(entries)
    {
      AcceptedIff(entries, File(entry.name, entry.size.value, entry.content.value));
    }
    forall file <- Accepted(entries)
      ensures exists entry <- entries ::
                !Skipped(entry) && file.name == entry.name && file.content == entry.content.value
    {
      AcceptedIff(entries, file);
    }
  }

  lemma OtherIsNotFound(reading: Reading, entries: seq<Entry>, capacity: nat, segmentSize: nat, name: string)
    requires segmentSize > 0 && Listing(entries) && Finish(reading, Pack(Accepted(entries), capacity)).Some?
    requires name != "" && Lacks(entries, name)
    ensures Fetch(reading, Accepted(entries), capacity, segmentSize, name) == NotFound
  {
    AcceptedPackable(entries);
    forall file <- Accepted(entries) ensures file.name != name {
      AcceptedIff(entries, file);
    }
    AbsentIsNotFound(reading, Accepted(entries), capacity, segmentSize, name);
  }

  lemma OthersAreNotFound(reading: Reading, entries: seq<Entry>, capacity: nat, segmentSize: nat)
    requires segmentSize > 0 && Listing(entries) && Finish(reading, Pack(Accepted(entries), capacity)).Some?
    ensures var p := Pack(Accepted(entries), capacity);
            NothingElse(Finish(reading, p).value, p.out, entries, segmentSize)
  {
    forall name: string | name != "" && Lacks(entries, name)
      ensures Fetch(reading, Accepted(entries), capacity, segmentSize, name) == NotFound
    {
      OtherIsNotFound(reading, entries, capacity, segmentSize, name);
    }
  }

  // ---------- The program ----------

  datatype Created = Created(box: Box, out: Bytes) | Failed | Panicked

  /** The packing loop. */
  method PackEntries(entries: seq<Entry>, capacity: nat) returns (packed: Option<Packing>)
    ensures packed.None? <==> exists entry <- entries :: Unreadable(entry)
    ensures packed.Some? ==> packed.value == Pack(Accepted(entries), capacity)
  {
    var size: nat, totalSize: nat, paddingSize: nat := 0, 0, 0;
    var plates: seq<Plate>, plate, out: Bytes := [], NO_PLATE, [];
    for i := 0 to |entries|
      invariant Packing(plates, plate, size, totalSize, paddingSize, out) == Pack(Accepted(entries[..i]), capacity)
      invariant forall entry <- entries[..i] :: !Unreadable(entry)
    {
      var entry := entries[i];
      assert entries[..i + 1][..i] == entries[..i];
      if Skipped(entry) {
        continue;
      }
      if entry.content.None? {
        assert Unreadable(entry);
        return None;
      }
      ghost var packed := Accepted(entries[..i]);
      assert (packed + [File(entry.name, entry.size.value, entry.content.value)])[..|packed|] == packed;
      if size == capacity || entry.size.value + size > capacity {
        if capacity > size {
          out := out + Zeros(capacity - size);
          plate := plate.(indexs := plate.indexs + [size]);
          paddingSize := paddingSize + (capacity - size);
        }
        plates := plates + [plate];
        plate := NO_PLATE;
        size := 0;
      }
      plate := Plate(plate.files + [entry.name], plate.indexs + [size]);
      size := size + entry.size.value;
      totalSize := totalSize + entry.size.value;
      out := out + entry.content.value;
    }
    assert entries[..|entries|] == entries;
    packed := Some(Packing(plates, plate, size, totalSize, paddingSize, out));
  }

  /** What creating a box achieves, for the entries of the directory. Intended: every file comes back and nothing else,
      and the recorded total is the length of the box. As written there is a panic exactly when one plate is enough. */
  ghost predicate Achieves(reading: Reading, entries: seq<Entry>, capacity: nat, r: Created) {
    Listing(entries) && capacity > 0 ==>
      && r != Failed
      && (r == Panicked <==> reading.AsWritten? && SizeOfAll(entries) <= capacity)
      && (r.Created? ==>
            && |r.out| == SizeOfAll(entries) + r.box.paddingSize
            && NothingElse(r.box, r.out, entries, capacity)
            && (reading.Intended? ==> r.box.totalSize == |r.out|)
            && (reading.Intended? ==> (AllFit(entries, capacity) <==> GivesBack(r.box, r.out, entries, capacity))))
  }

  method CreateAFileBox(reading: Reading, entries: seq<Entry>, capacity: nat) returns (r: Created)
    ensures r == Failed <==> exists entry <- entries :: Unreadable(entry)
    ensures r != Failed ==> r == Ended(reading, Pack(Accepted(entries), capacity))
    ensures Achieves(reading, entries, capacity, r)
  {
    var packed := PackEntries(entries, capacity);
    if packed.None? {
      return Failed;
    }
    r := Ended(reading, packed.value);
    if Listing(entries) && capacity > 0 {
      CreatingAchieves(reading, entries, capacity);
    }
  }

  function Ended(reading: Reading, p: Packing): Created {
    match Finish(reading, p)
    case None => Panicked
    case Some(box) => Created(box, p.out)
  }

  lemma CreatingAchieves(reading: Reading, entries: seq<Entry>, capacity: nat)
    requires Listing(entries) && capacity > 0
    ensures Achieves(reading, entries, capacity, Ended(reading, Pack(Accepted(entries), capacity)))
  {
    var files := Accepted(entries);
    AcceptedPackable(entries);
    AcceptedSize(entries);
    OnePlateIff(files, capacity);
    PackEncodes(files, capacity);
    if Finish(reading, Pack(files, capacity)).Some? {
      RecordedTotal(reading, files, capacity);
      OthersAreNotFound(reading, entries, capacity, capacity);
      if reading.Intended? {
        GivesBackIffAllFit(entries, capacity);
      }
    }
  }

  lemma GivesBackIffAllFit(entries: seq<Entry>, capacity: nat)
    requires Listing(entries) && capacity > 0
    ensures var p := Pack(Accepted(entries), capacity);
            AllFit(entries, capacity) <==> GivesBack(Finish(Intended, p).value, p.out, entries, capacity)
  {
    AcceptedPackable(entries);
    AcceptedFit(entries, capacity);
    BoxRoundTripIff(Accepted(entries), capacity);
    AllGivesBackIff(entries, capacity, capacity);
  }

  // ---------- Uploading ----------

  datatype Uploaded = Uploaded(box: Box, out: Bytes) | Refused | Crashed

  predicate SafeSizes(capacity: nat, segmentSize: nat) {
    segmentSize == capacity || segmentSize >= 2 * capacity || 2 * segmentSize <= capacity
  }

  /** What uploading a directory whose files fit achieves. Intended, for plates and segments of safe sizes: what is
      accepted comes back, and what is accepted is any directory with files when the sizes are equal, and one that needs
      no second plate when segments are larger. As written what is accepted never comes back whole. */
  ghost predicate UploadAchieves(reading: Reading, entries: seq<Entry>, capacity: nat, segmentSize: nat, r: Uploaded)
    requires segmentSize > 0
  {
    Listing(entries) && AllFit(entries, capacity) && capacity > 0 ==>
      && (r.Uploaded? && reading.Intended? && SafeSizes(capacity, segmentSize) ==>
            GivesBack(r.box, r.out, entries, segmentSize))
      && (reading.Intended? && segmentSize == capacity ==> (r.Uploaded? <==> SizeOfAll(entries) > 0))
      && (reading.Intended? && segmentSize >= 2 * capacity ==> (r.Uploaded? <==> 0 < SizeOfAll(entries) <= capacity))
      && (r.Uploaded? && reading.AsWritten? ==>
            segmentSize != capacity && !GivesBack(r.box, r.out, entries, segmentSize))
  }

  function Sent(reading: Reading, p: Packing, segmentSize: nat): Uploaded
    requires segmentSize > 0
  {
    match Finish(reading, p)
    case None => Crashed
    case Some(box) => if UploadAccepts(box, p.out, segmentSize) then Uploaded(box, p.out) else Refused
  }

  method UploadDirAsBoxFile(reading: Reading, entries: seq<Entry>, capacity: nat, segmentSize: nat)
      returns (r: Uploaded)
    requires segmentSize > 0
    ensures (exists entry <- entries :: Unreadable(entry)) ==> r == Refused
    ensures r.Uploaded? ==> |Recovery.Split(r.out, segmentSize, 0)| == |r.box.plates|
    ensures UploadAchieves(reading, entries, capacity, segmentSize, r)
  {
    var created := CreateAFileBox(reading, entries, capacity);
    match created {
      case Failed => r := Refused;
      case Panicked => r := Crashed;
      case Created(box, out) =>
        var segments := Recovery.Split(out, segmentSize, 0);
        r := if |segments| != |box.plates| then Refused else Uploaded(box, out);
    }
    if Listing(entries) && AllFit(entries, capacity) && capacity > 0 {
      SentAchieves(reading, entries, capacity, segmentSize);
    }
  }

  lemma SentAchieves(reading: Reading, entries: seq<Entry>, capacity: nat, segmentSize: nat)
    requires segmentSize > 0 && Listing(entries) && AllFit(entries, capacity) && capacity > 0
    ensures UploadAchieves(reading, entries, capacity, segmentSize,
                           Sent(reading, Pack(Accepted(entries), capacity), segmentSize))
  {
    AcceptedPackable(entries);
    AcceptedFit(entries, capacity);
    AcceptedSize(entries);
    match reading
    case Intended => IntendedUpload(entries, capacity, segmentSize);
    case AsWritten => AsWrittenUpload(entries, capacity, segmentSize);
  }

  lemma IntendedUpload(entries: seq<Entry>, capacity: nat, segmentSize: nat)
    requires segmentSize > 0 && Listing(entries) && AllFit(entries, capacity) && capacity > 0
    ensures UploadAchieves(Intended, entries, capacity, segmentSize,
                           Sent(Intended, Pack(Accepted(entries), capacity), segmentSize))
  {
    var files := Accepted(entries);
    var p := Pack(files, capacity);
    AcceptedPackable(entries);
    AcceptedFit(entries, capacity);
    AcceptedSize(entries);
    if SafeSizes(capacity, segmentSize) && UploadAccepts(Finish(Intended, p).value, p.out, segmentSize) {
      UploadedComesBack(files, capacity, segmentSize);
      AllGivesBackIff(entries, capacity, segmentSize);
    }
    AcceptedWhen(files, capacity, segmentSize);
  }

  lemma AcceptedWhen(files: seq<File>, capacity: nat, segmentSize: nat)
    requires segmentSize > 0 && Packable(files) && Fits(files, capacity) && capacity > 0
    ensures var p := Pack(files, capacity);
            && (segmentSize == capacity ==>
                  (UploadAccepts(Finish(Intended, p).value, p.out, segmentSize) <==> SizeOf(files) > 0))
            && (segmentSize >= 2 * capacity ==>
                  (UploadAccepts(Finish(Intended, p).value, p.out, segmentSize) <==> 0 < SizeOf(files) <= capacity))
  {
    OnePlateIff(files, capacity);
    PlateCount(files, capacity, segmentSize);
    OpenFits(files, capacity);
    if files == [] {
      assert SizeOf(files) == 0;
    } else {
      MemberFits(files, files[0]);
      if segmentSize == capacity {
        PlateSizedSegments(files, capacity);
      } else if segmentSize >= 2 * capacity
             && UploadAccepts(Finish(Intended, Pack(files, capacity)).value, Pack(files, capacity).out, segmentSize) {
        FarApart(files, capacity, segmentSize);
      }
    }
  }

  lemma AsWrittenUpload(entries: seq<Entry>, capacity: nat, segmentSize: nat)
    requires segmentSize > 0 && Listing(entries) && AllFit(entries, capacity) && capacity > 0
    ensures UploadAchieves(AsWritten, entries, capacity, segmentSize,
                           Sent(AsWritten, Pack(Accepted(entries), capacity), segmentSize))
  {
    var files := Accepted(entries);
    AcceptedPackable(entries);
    AcceptedFit(entries, capacity);
    if Finish(AsWritten, Pack(files, capacity)).Some? {
      assert files != [];
      AsWrittenLosesTheLast(files, capacity, segmentSize);
      AcceptedIff(entries, files[|files| - 1]);
      if segmentSize == capacity {
        PlateSizedSegments(files, capacity);
      }
    }
  }
}
