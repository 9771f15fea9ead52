/** Packing files into one box of equal plates and finding a file in it again: the packing loop of CreateAFileBox, and
    DownloadFileInBox, in cd2n-client/client/files.go.
    Plates have a symbolic capacity; how the box is cut into segments when it is stored is left to its users. */
module FileBox {
  import opened Common

  /** An accepted entry: its size when it was examined, and what was read from it afterwards. */
  datatype File = File(name: string, size: nat, content: Bytes)

  datatype Plate = Plate(files: seq<string>, indexs: seq<int>)

  datatype Box = Box(totalSize: int, paddingSize: int, plates: seq<Plate>)

  const NO_PLATE := Plate([], [])

  /** The variables of the packing loop, and what has been written to the box file. */
  datatype Packing = Packing(plates: seq<Plate>, plate: Plate, size: nat, totalSize: nat, paddingSize: nat, out: Bytes)

  const EMPTY := Packing([], NO_PLATE, 0, 0, 0, [])

  function Zeros(n: nat): Bytes { seq(n, _ => 0) }

  function Close(p: Packing, capacity: nat): Packing {
    if p.size < capacity then
      Packing(p.plates + [p.plate.(indexs := p.plate.indexs + [p.size])], NO_PLATE, 0, p.totalSize,
              p.paddingSize + (capacity - p.size), p.out + Zeros(capacity - p.size))
    else
      Packing(p.plates + [p.plate], NO_PLATE, 0, p.totalSize, p.paddingSize, p.out)
  }

  function Put(p: Packing, file: File): Packing {
    Packing(p.plates, Plate(p.plate.files + [file.name], p.plate.indexs + [p.size]), p.size + file.size,
            p.totalSize + file.size, p.paddingSize, p.out + file.content)
  }

  function PackOne(p: Packing, file: File, capacity: nat): Packing {
    if p.size == capacity || file.size + p.size > capacity then Put(Close(p, capacity), file)
    else Put(p, file)
  }

  function Pack(files: seq<File>, capacity: nat): Packing {
    if files == [] then EMPTY
    else PackOne(Pack(files[..|files| - 1], capacity), files[|files| - 1], capacity)
  }

  // ---------- Finishing the box ----------

  function EndLastPlate(plates: seq<Plate>, size: nat): seq<Plate>
    requires plates != []
  {
    var last := plates[|plates| - 1];
    plates[..|plates| - 1] + [Plate(last.files + [""], last.indexs + [size])]
  }

  /** As written, the end marker of the open plate goes to the last closed plate, the open plate is lost, the total
      counts its bytes twice, and there is a panic when no plate was closed. Intended: the open plate is closed. */
  function Finish(reading: Reading, p: Packing): Option<Box> {
    match reading
    case AsWritten =>
      if p.plates == [] then None
      else Some(Box(p.totalSize + p.size + p.paddingSize, p.paddingSize, EndLastPlate(p.plates, p.size)))
    case Intended =>
      Some(Box(p.totalSize + p.paddingSize, p.paddingSize, EndLastPlate(p.plates + [p.plate], p.size)))
  }

  // ---------- Finding a file ----------

  datatype Lookup = Found(data: Bytes) | NotFound | NotFetched | OutOfRange

  /** Where a name is: the last plate that has it, and its first place there. */
  function FindFile(plates: seq<Plate>, name: string): (r: Option<(nat, nat)>)
    ensures r.None? <==> forall plate <- plates :: name !in plate.files
    ensures r.Some? ==>
      && r.value.0 < |plates| && r.value.1 < |plates[r.value.0].files|
      && plates[r.value.0].files[r.value.1] == name && name !in plates[r.value.0].files[..r.value.1]
      && forall i :: r.value.0 < i < |plates| ==> name !in plates[i].files
  {
    if plates == [] then None
    else
      var i := |plates| - 1;
      if name in plates[i].files then Some((i, FirstIndex(plates[i].files, name))) else FindFile(plates[..i], name)
  }

  function FirstIndex(names: seq<string>, name: string): (j: nat)
    requires name in names
    ensures j < |names| && names[j] == name && name !in names[..j]
  {
    if names[0] == name then 0
    else
      var j := 1 + FirstIndex(names[1..], name);
      assert names[..j] == [names[0]] + names[1..][..j - 1];
      j
  }

  function SliceAt(plate: Plate, j: nat, data: Bytes): Lookup {
    if |plate.indexs| > j + 1 then
      if 0 <= plate.indexs[j] <= plate.indexs[j + 1] <= |data|
      then Found(data[plate.indexs[j]..plate.indexs[j + 1]]) else OutOfRange
    else if |plate.indexs| == j + 1 then
      if 0 <= plate.indexs[j] <= |data| then Found(data[plate.indexs[j]..]) else OutOfRange
    else Found(data)
  }

  /** Segment i of the stored box, or None when it cannot be downloaded. */
  function Retrieve(box: Box, name: string, segment: nat -> Option<Bytes>): Lookup {
    match FindFile(box.plates, name)
    case None => NotFound
    case Some((i, j)) =>
      match segment(i)
      case None => NotFetched
      case Some(data) => SliceAt(box.plates[i], j, data)
  }

  lemma FirstIndexIs(names: seq<string>, name: string, j: nat)
    requires j < |names| && names[j] == name && name !in names[..j]
    ensures FirstIndex(names, name) == j
  {
    var k := FirstIndex(names, name);
  }

  /** The name is at this place of this plate, not before in the plate, and in no later plate. */
  predicate LastPlace(plates: seq<Plate>, name: string, i: nat, j: nat) {
    && i < |plates| && j < |plates[i].files| && plates[i].files[j] == name && name !in plates[i].files[..j]
    && forall k :: i < k < |plates| ==> name !in plates[k].files
  }

  /** What is cut out of a segment for file j: from its offset to the next one, or to the end behind the last; the whole
      segment when the plate has no offset for it; and a panic when the offsets do not fit the segment. */
  predicate IsCut(r: Lookup, indexs: seq<int>, j: nat, data: Bytes) {
    var start, end := if j < |indexs| then indexs[j] else 0, if j + 1 < |indexs| then indexs[j + 1] else |data|;
    if 0 <= start <= end <= |data| then r == Found(data[start..end]) else r == OutOfRange
  }

  lemma SliceIsCut(plate: Plate, j: nat, data: Bytes)
    ensures IsCut(SliceAt(plate, j, data), plate.indexs, j, data)
  {
    assert data[0..|data|] == data;
    if j < |plate.indexs| && 0 <= plate.indexs[j] <= |data| {
      assert data[plate.indexs[j]..] == data[plate.indexs[j]..|data|];
    }
  }

  lemma PlaceIsLast(plates: seq<Plate>, name: string, i: nat, j: nat)
    requires LastPlace(plates, name, i, j)
    ensures FindFile(plates, name) == Some((i, j))
  {
    assert plates[i] in plates;
    var (i', j') := FindFile(plates, name).value;
    assert i' == i;
  }

  /** The two nested loops over the plates and their files. */
  method FindPlace(plates: seq<Plate>, name: string) returns (place: Option<(nat, nat)>)
    ensures place == FindFile(plates, name)
  {
    place := None;
    for i := 0 to |plates|
      invariant place == FindFile(plates[..i], name)
    {
      assert plates[..i + 1][..i] == plates[..i];
      var names := plates[i].files;
      var j := 0;
      while j < |names| && names[j] != name
        invariant 0 <= j <= |names|
        invariant name !in names[..j]
      {
        j := j + 1;
      }
      if j < |names| {
        FirstIndexIs(names, name, j);
        place := Some((i, j));
      } else {
        assert names[..j] == names;
      }
    }
    assert plates[..|plates|] == plates;
  }

  method DownloadFileInBox(box: Box, name: string, segment: nat -> Option<Bytes>) returns (r: Lookup)
    ensures r == Retrieve(box, name, segment)
    ensures r == NotFound <==> forall plate <- box.plates :: name !in plate.files
    ensures forall i: nat, j: nat :: LastPlace(box.plates, name, i, j) ==>
              && (r == NotFetched <==> segment(i).None?)
              && (segment(i).Some? ==> IsCut(r, box.plates[i].indexs, j, segment(i).value))
  {
    var place := FindPlace(box.plates, name);
    if place.None? {
      return NotFound;
    }
    var (sidx, didx) := place.value;
    forall i: nat, j: nat | LastPlace(box.plates, name, i, j) ensures i == sidx && j == didx {
      PlaceIsLast(box.plates, name, i, j);
    }
    var data := segment(sidx);
    if data.None? {
      return NotFetched;
    }
    r := SliceAt(box.plates[sidx], didx, data.value);
    SliceIsCut(box.plates[sidx], didx, data.value);
  }
}
