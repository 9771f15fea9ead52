/** What packing achieves: the layout of a box, and which files come back out of it. */
module BoxLayout {
  import opened Common
  import opened FileBox

  // ---------- Next-fit grouping: the layout without bytes and offsets ----------

  datatype Grouping = Grouping(closed: seq<seq<File>>, open: seq<File>) {
    function All(): seq<seq<File>> { closed + [open] }
  }

  function SizeOf(group: seq<File>): nat {
    if group == [] then 0 else SizeOf(group[..|group| - 1]) + |group[|group| - 1].content|
  }

  function Flat(group: seq<File>): (r: Bytes)
    ensures |r| == SizeOf(group)
  {
    if group == [] then [] else Flat(group[..|group| - 1]) + group[|group| - 1].content
  }

  function Place(g: Grouping, file: File, capacity: nat): Grouping {
    if SizeOf(g.open) == capacity || |file.content| + SizeOf(g.open) > capacity
    then Grouping(g.closed + [g.open], [file])
    else Grouping(g.closed, g.open + [file])
  }

  function NextFit(files: seq<File>, capacity: nat): Grouping {
    if files == [] then Grouping([], [])
    else Place(NextFit(files[..|files| - 1], capacity), files[|files| - 1], capacity)
  }

  predicate Fits(files: seq<File>, capacity: nat) {
    forall file <- files :: |file.content| <= capacity
  }

  /** No file changed between being examined and being read. */
  predicate Steady(files: seq<File>) {
    forall file <- files :: |file.content| == file.size
  }

  /** What a directory listing and the size test leave to be packed, when no file changes meanwhile. */
  predicate Packable(files: seq<File>) {
    && Steady(files)
    && (forall i, j :: 0 <= i < j < |files| ==> files[i].name != files[j].name)
    && (forall file <- files :: file.name != "" && file.content != [])
  }

  // ---------- How a grouping is laid out ----------

  function Names(group: seq<File>): seq<string> {
    seq(|group|, i requires 0 <= i < |group| => group[i].name)
  }

  function Offsets(group: seq<File>): (r: seq<int>)
    ensures |r| == |group|
  {
    if group == [] then [] else Offsets(group[..|group| - 1]) + [SizeOf(group[..|group| - 1])]
  }

  function Padded(group: seq<File>, capacity: nat): Bytes {
    Flat(group) + Zeros(if SizeOf(group) < capacity then capacity - SizeOf(group) else 0)
  }

  function PaddedAll(groups: seq<seq<File>>, capacity: nat): Bytes {
    if groups == [] then []
    else PaddedAll(groups[..|groups| - 1], capacity) + Padded(groups[|groups| - 1], capacity)
  }

  function ClosedPlate(group: seq<File>, capacity: nat): Plate {
    Plate(Names(group), Offsets(group) + if SizeOf(group) < capacity then [SizeOf(group)] else [])
  }

  ghost predicate Encodes(p: Packing, g: Grouping, capacity: nat) {
    && |p.plates| == |g.closed|
    && (forall i :: 0 <= i < |p.plates| ==> p.plates[i] == ClosedPlate(g.closed[i], capacity))
    && p.plate == Plate(Names(g.open), Offsets(g.open))
    && p.size == SizeOf(g.open)
    && p.out == PaddedAll(g.closed, capacity) + Flat(g.open)
    && |p.out| == p.totalSize + p.paddingSize
  }

  lemma GroupSnoc(group: seq<File>, file: File)
    ensures SizeOf(group + [file]) == SizeOf(group) + |file.content|
    ensures Flat(group + [file]) == Flat(group) + file.content
    ensures Offsets(group + [file]) == Offsets(group) + [SizeOf(group)]
    ensures Names(group + [file]) == Names(group) + [file.name]
  {
    assert (group + [file])[..|group|] == group;
  }

  lemma PaddedAllSnoc(groups: seq<seq<File>>, group: seq<File>, capacity: nat)
    ensures PaddedAll(groups + [group], capacity) == PaddedAll(groups, capacity) + Padded(group, capacity)
  {
    assert (groups + [group])[..|groups|] == groups;
  }

  lemma CloseEncodes(p: Packing, g: Grouping, capacity: nat)
    requires Encodes(p, g, capacity)
    ensures Encodes(Close(p, capacity), Grouping(g.closed + [g.open], []), capacity)
  {
    PaddedAllSnoc(g.closed, g.open, capacity);
    assert Names([]) == [];
    assert Flat(g.open) + Zeros(0) == Flat(g.open);
    assert Close(p, capacity).out == PaddedAll(g.closed + [g.open], capacity) + [];
  }

  lemma PutEncodes(p: Packing, g: Grouping, file: File, capacity: nat)
    requires Encodes(p, g, capacity) && |file.content| == file.size
    ensures Encodes(Put(p, file), Grouping(g.closed, g.open + [file]), capacity)
  {
    GroupSnoc(g.open, file);
  }

  /** The packing loop lays out exactly the next-fit grouping, and every byte it writes is accounted for. */
  lemma {:induction false} PackEncodes(files: seq<File>, capacity: nat)
    requires Steady(files)
    ensures Encodes(Pack(files, capacity), NextFit(files, capacity), capacity)
  {
    if files == [] {
      assert Names([]) == [];
    } else {
      var front, file := files[..|files| - 1], files[|files| - 1];
      PackEncodes(front, capacity);
      var p, g := Pack(front, capacity), NextFit(front, capacity);
      if SizeOf(g.open) == capacity || |file.content| + SizeOf(g.open) > capacity {
        CloseEncodes(p, g, capacity);
        assert [] + [file] == [file];
        PutEncodes(Close(p, capacity), Grouping(g.closed + [g.open], []), file, capacity);
      } else {
        PutEncodes(p, g, file, capacity);
      }
    }
  }

  // ---------- Grouping keeps every file, once, in order ----------

  function Ungroup(groups: seq<seq<File>>): seq<File> {
    if groups == [] then [] else Ungroup(groups[..|groups| - 1]) + groups[|groups| - 1]
  }

  lemma UngroupSnoc(groups: seq<seq<File>>, group: seq<File>)
    ensures Ungroup(groups + [group]) == Ungroup(groups) + group
  {
    assert (groups + [group])[..|groups|] == groups;
  }

  lemma PlaceKeepsFiles(g: Grouping, file: File, capacity: nat)
    ensures Ungroup(Place(g, file, capacity).All()) == Ungroup(g.All()) + [file]
    ensures |Place(g, file, capacity).open| > 0
    ensures Place(g, file, capacity).open[|Place(g, file, capacity).open| - 1] == file
  {
    UngroupSnoc(g.closed, g.open);
    if SizeOf(g.open) == capacity || |file.content| + SizeOf(g.open) > capacity {
      UngroupSnoc(g.closed + [g.open], [file]);
    } else {
      UngroupSnoc(g.closed, g.open + [file]);
      assert Ungroup(g.closed) + (g.open + [file]) == (Ungroup(g.closed) + g.open) + [file];
    }
  }

  lemma {:induction false} GroupingKeepsFiles(files: seq<File>, capacity: nat)
    ensures Ungroup(NextFit(files, capacity).All()) == files
    ensures files == [] <==> NextFit(files, capacity).open == []
  {
    if files == [] {
      UngroupSnoc([], []);
    } else {
      var front, file := files[..|files| - 1], files[|files| - 1];
      GroupingKeepsFiles(front, capacity);
      PlaceKeepsFiles(NextFit(front, capacity), file, capacity);
      assert front + [file] == files;
    }
  }

  /** Where a file of the grouping is in the original list. */
  lemma {:induction false} UngroupIndex(groups: seq<seq<File>>, i: nat, j: nat) returns (k: nat)
    requires i < |groups| && j < |groups[i]|
    ensures k == |Ungroup(groups[..i])| + j < |Ungroup(groups)|
    ensures Ungroup(groups)[k] == groups[i][j]
  {
    var front := groups[..|groups| - 1];
    if i == |groups| - 1 {
      k := |Ungroup(front)| + j;
    } else {
      k := UngroupIndex(front, i, j);
      assert front[..i] == groups[..i];
    }
  }

  lemma {:induction false} UngroupFind(groups: seq<seq<File>>, k: nat) returns (i: nat, j: nat)
    requires k < |Ungroup(groups)|
    ensures i < |groups| && j < |groups[i]| && groups[i][j] == Ungroup(groups)[k]
  {
    var front := groups[..|groups| - 1];
    if k < |Ungroup(front)| {
      i, j := UngroupFind(front, k);
    } else {
      i, j := |groups| - 1, k - |Ungroup(front)|;
    }
  }

  lemma {:induction false} UngroupPrefixLength(groups: seq<seq<File>>, i: nat, i': nat)
    requires i < i' <= |groups|
    ensures |Ungroup(groups[..i])| + |groups[i]| <= |Ungroup(groups[..i'])|
    decreases i'
  {
    assert groups[..i'][..i' - 1] == groups[..i' - 1];
    if i + 1 < i' {
      UngroupPrefixLength(groups, i, i' - 1);
    }
  }

  /** With distinct names, a name has one place in the grouping. */
  lemma PlaceIsUnique(files: seq<File>, capacity: nat, i: nat, j: nat, i': nat, j': nat)
    requires Packable(files)
    requires var groups := NextFit(files, capacity).All();
             && i < |groups| && j < |groups[i]| && i' < |groups| && j' < |groups[i']|
             && groups[i][j].name == groups[i'][j'].name
    ensures i == i' && j == j'
  {
    var groups := NextFit(files, capacity).All();
    GroupingKeepsFiles(files, capacity);
    var k := UngroupIndex(groups, i, j);
    var k' := UngroupIndex(groups, i', j');
    assert k == k';
    if i < i' {
      UngroupPrefixLength(groups, i, i');
    } else if i' < i {
      UngroupPrefixLength(groups, i', i);
    }
  }

  // ---------- Grouping is next-fit ----------

  /** A file was put on the open plate when that was not full and had room for it. */
  predicate HadRoom(group: seq<File>, j: nat, capacity: nat)
    requires j < |group|
  {
    SizeOf(group[..j]) != capacity && SizeOf(group[..j + 1]) <= capacity
  }

  /** The files from place `from` on were put on a plate that had room. */
  predicate Filled(group: seq<File>, from: nat, capacity: nat) {
    forall j: nat :: from <= j < |group| ==> HadRoom(group, j, capacity)
  }

  /** The plate was full, or the first file of the next one did not fit. */
  predicate Exhausted(group: seq<File>, next: seq<File>, capacity: nat) {
    next != [] && (SizeOf(group) == capacity || SizeOf(group) + |next[0].content| > capacity)
  }

  /** A plate is closed only when it is full or the next file does not fit, and otherwise the next file goes on it. */
  ghost predicate IsNextFit(g: Grouping, capacity: nat) {
    && (forall i: nat :: i < |g.closed| ==> Exhausted(g.closed[i], g.All()[i + 1], capacity))
    && (forall i: nat :: i < |g.All()| ==> Filled(g.All()[i], if i == 0 then 0 else 1, capacity))
  }

  lemma SnocHadRoom(group: seq<File>, file: File, capacity: nat)
    ensures forall j: nat :: j < |group| ==> (HadRoom(group + [file], j, capacity) <==> HadRoom(group, j, capacity))
    ensures HadRoom(group + [file], |group|, capacity)
       <==> SizeOf(group) != capacity && SizeOf(group) + |file.content| <= capacity
  {
    GroupSnoc(group, file);
    assert (group + [file])[..|group|] == group && (group + [file])[..|group| + 1] == group + [file];
    forall j: nat | j < |group| ensures HadRoom(group + [file], j, capacity) <==> HadRoom(group, j, capacity) {
      assert (group + [file])[..j] == group[..j] && (group + [file])[..j + 1] == group[..j + 1];
    }
  }

  lemma CloseIsNextFit(g: Grouping, file: File, capacity: nat)
    requires IsNextFit(g, capacity)
    requires SizeOf(g.open) == capacity || |file.content| + SizeOf(g.open) > capacity
    ensures IsNextFit(Grouping(g.closed + [g.open], [file]), capacity)
  {
    var g' := Grouping(g.closed + [g.open], [file]);
    assert g'.All() == g.All() + [[file]];
    forall i: nat | i < |g'.closed| ensures Exhausted(g'.closed[i], g'.All()[i + 1], capacity) {
      if i < |g.closed| {
        assert Exhausted(g.closed[i], g.All()[i + 1], capacity);
      }
    }
  }

  lemma PutIsNextFit(g: Grouping, file: File, capacity: nat)
    requires IsNextFit(g, capacity)
    requires SizeOf(g.open) != capacity && |file.content| + SizeOf(g.open) <= capacity
    ensures IsNextFit(Grouping(g.closed, g.open + [file]), capacity)
  {
    var g' := Grouping(g.closed, g.open + [file]);
    SnocHadRoom(g.open, file, capacity);
    forall i: nat | i < |g.closed| ensures Exhausted(g'.closed[i], g'.All()[i + 1], capacity) {
      assert Exhausted(g.closed[i], g.All()[i + 1], capacity);
    }
    forall i: nat | i < |g'.All()| ensures Filled(g'.All()[i], if i == 0 then 0 else 1, capacity) {
      assert Filled(g.All()[i], if i == 0 then 0 else 1, capacity);
    }
  }

  /** The grouping is next-fit, whatever the sizes of the files. */
  lemma {:induction false} GroupingIsNextFit(files: seq<File>, capacity: nat)
    ensures IsNextFit(NextFit(files, capacity), capacity)
  {
    if files != [] {
      GroupingIsNextFit(files[..|files| - 1], capacity);
      var g, file := NextFit(files[..|files| - 1], capacity), files[|files| - 1];
      if SizeOf(g.open) == capacity || |file.content| + SizeOf(g.open) > capacity {
        CloseIsNextFit(g, file, capacity);
      } else {
        PutIsNextFit(g, file, capacity);
      }
    }
  }

  // ---------- Accounting ----------

  predicate GroupsFit(groups: seq<seq<File>>, capacity: nat) {
    forall i :: 0 <= i < |groups| ==> SizeOf(groups[i]) <= capacity
  }

  lemma {:induction false} MemberFits(group: seq<File>, file: File)
    requires file in group
    ensures |file.content| <= SizeOf(group)
  {
    if file != group[|group| - 1] {
      MemberFits(group[..|group| - 1], file);
    }
  }

  lemma GroupsFitSnoc(groups: seq<seq<File>>, group: seq<File>, capacity: nat)
    ensures GroupsFit(groups + [group], capacity) <==> GroupsFit(groups, capacity) && SizeOf(group) <= capacity
  {
    var all := groups + [group];
    assert forall i :: 0 <= i < |groups| ==> all[i] == groups[i];
    assert all[|groups|] == group;
  }

  lemma PlaceFits(g: Grouping, file: File, capacity: nat)
    ensures GroupsFit(Place(g, file, capacity).All(), capacity)
       <==> GroupsFit(g.All(), capacity) && |file.content| <= capacity
  {
    GroupsFitSnoc(g.closed, g.open, capacity);
    if SizeOf(g.open) == capacity || |file.content| + SizeOf(g.open) > capacity {
      GroupSnoc([], file);
      assert [] + [file] == [file];
      GroupsFitSnoc(g.closed + [g.open], [file], capacity);
    } else {
      GroupSnoc(g.open, file);
      GroupsFitSnoc(g.closed, g.open + [file], capacity);
    }
  }

  lemma FitsSnoc(files: seq<File>, capacity: nat)
    requires files != []
    ensures Fits(files, capacity)
       <==> Fits(files[..|files| - 1], capacity) && |files[|files| - 1].content| <= capacity
  {
    assert files == files[..|files| - 1] + [files[|files| - 1]];
  }

  lemma {:induction false} NextFitFits(files: seq<File>, capacity: nat)
    ensures Fits(files, capacity) <==> GroupsFit(NextFit(files, capacity).All(), capacity)
  {
    if files == [] {
      GroupsFitSnoc([], [], capacity);
    } else {
      NextFitFits(files[..|files| - 1], capacity);
      FitsSnoc(files, capacity);
      PlaceFits(NextFit(files[..|files| - 1], capacity), files[|files| - 1], capacity);
    }
  }

  lemma {:induction false} PaddedAllLength(groups: seq<seq<File>>, capacity: nat)
    ensures |PaddedAll(groups, capacity)| >= |groups| * capacity
    ensures |PaddedAll(groups, capacity)| == |groups| * capacity <==> GroupsFit(groups, capacity)
  {
    if groups != [] {
      var front := groups[..|groups| - 1];
      var last := groups[|front|];
      PaddedAllLength(front, capacity);
      OneMore(|front|, capacity);
      assert groups == front + [last];
      GroupsFitSnoc(front, last, capacity);
      assert |Padded(last, capacity)| == if SizeOf(last) < capacity then capacity else SizeOf(last);
    }
  }

  lemma EncodedLength(p: Packing, g: Grouping, capacity: nat)
    requires Encodes(p, g, capacity)
    ensures |p.out| == |p.plates| * capacity + p.size && p.size <= capacity <==> GroupsFit(g.All(), capacity)
  {
    PaddedAllLength(g.closed, capacity);
    GroupsFitSnoc(g.closed, g.open, capacity);
  }

  /** Box accounting: what is written is the files plus the padding, and the closed plates fill whole capacities
      exactly when no file is larger than a plate. */
  lemma BoxAccounting(files: seq<File>, capacity: nat)
    requires Steady(files)
    ensures var p := Pack(files, capacity);
            && |p.out| == p.totalSize + p.paddingSize
            && (|p.out| == |p.plates| * capacity + p.size && p.size <= capacity <==> Fits(files, capacity))
  {
    PackEncodes(files, capacity);
    EncodedLength(Pack(files, capacity), NextFit(files, capacity), capacity);
    NextFitFits(files, capacity);
  }

  /** The open plate is never empty once a file is packed, so there is always something to lose at the end. */
  lemma OpenPlateHolds(files: seq<File>, capacity: nat)
    requires Packable(files)
    ensures Pack(files, capacity).size > 0 <==> files != []
  {
    PackEncodes(files, capacity);
    if files != [] {
      PlaceKeepsFiles(NextFit(files[..|files| - 1], capacity), files[|files| - 1], capacity);
      MemberFits(NextFit(files, capacity).open, files[|files| - 1]);
    }
  }

  lemma {:induction false} PackTotals(files: seq<File>, capacity: nat)
    requires Steady(files)
    ensures Pack(files, capacity).totalSize == SizeOf(files)
  {
    if files != [] {
      PackTotals(files[..|files| - 1], capacity);
    }
  }

  /** The recorded sizes. The padding is what the box is longer than its files. The total is intended to be the length
      of the box; as written it counts the bytes of the open plate twice, and those are never none. */
  lemma RecordedTotal(reading: Reading, files: seq<File>, capacity: nat)
    requires Packable(files) && Finish(reading, Pack(files, capacity)).Some?
    ensures var box, length := Finish(reading, Pack(files, capacity)).value, |Pack(files, capacity).out|;
            var open := SizeOf(NextFit(files, capacity).open);
            && box.paddingSize == length - SizeOf(files)
            && box.totalSize == length + (if reading.AsWritten? then open else 0)
            && (open > 0 <==> files != [])
  {
    PackEncodes(files, capacity);
    PackTotals(files, capacity);
    OpenPlateHolds(files, capacity);
  }

  /** One plate is enough exactly when the files together are not larger. */
  lemma {:induction false} OnePlateIff(files: seq<File>, capacity: nat)
    requires Packable(files)
    ensures NextFit(files, capacity).closed == [] <==> SizeOf(files) <= capacity
    ensures NextFit(files, capacity).closed == [] ==> NextFit(files, capacity).open == files
  {
    if files != [] {
      var front, last := files[..|files| - 1], files[|files| - 1];
      assert files == front + [last] && last in files;
      assert |last.content| > 0;
      OnePlateIff(front, capacity);
    }
  }
}
