/** The chunked copies of cd2n-lib/lib.go: ReadData, WriteData, and the cache download built on WriteData.
    Both loops take a read shorter than their 1024-byte buffer for the end of the data. */
module Chunks {
  import opened Common

  /** What a stream delivers, one entry a read, before it ends or fails. */
  predicate Delivers(chunks: seq<Bytes>) {
    forall chunk <- chunks :: 0 < |chunk| <= 1024
  }

  function FirstShort(chunks: seq<Bytes>): (k: nat)
    ensures k <= |chunks|
    ensures forall i :: 0 <= i < k ==> |chunks[i]| >= 1024
    ensures k < |chunks| ==> |chunks[k]| < 1024
  {
    if chunks == [] || |chunks[0]| < 1024 then 0 else 1 + FirstShort(chunks[1..])
  }

  lemma {:induction false} ConcatSnoc(chunks: seq<Bytes>, i: nat)
    requires i < |chunks|
    ensures Concat(chunks[..i + 1]) == Concat(chunks[..i]) + chunks[i]
  {
    if i == 0 {
      assert chunks[..1] == [chunks[0]] + [];
      assert Concat(chunks[..1]) == chunks[0] + Concat([]);
    } else {
      ConcatSnoc(chunks[1..], i - 1);
      assert chunks[..i + 1][1..] == chunks[1..][..i] && chunks[..i][1..] == chunks[1..][..i - 1];
    }
  }

  /** Everything up to and including the first short read; an error when the stream ends before one. */
  function Received(chunks: seq<Bytes>): Option<Bytes> {
    var k := FirstShort(chunks);
    if k < |chunks| then Some(Concat(chunks[..k + 1])) else None
  }

  lemma ReceivedIs(chunks: seq<Bytes>)
    ensures forall k | 0 <= k < |chunks| && |chunks[k]| < 1024 && (forall i :: 0 <= i < k ==> |chunks[i]| >= 1024) ::
              Received(chunks) == Some(Concat(chunks[..k + 1]))
    ensures (forall chunk <- chunks :: |chunk| >= 1024) ==> Received(chunks) == None
  {
    var first := FirstShort(chunks);
    forall k | 0 <= k < |chunks| && |chunks[k]| < 1024 && (forall i :: 0 <= i < k ==> |chunks[i]| >= 1024)
      ensures k == first
    {
    }
  }

  method ReadData(chunks: seq<Bytes>) returns (data: Option<Bytes>)
    ensures data == Received(chunks)
    ensures forall k | 0 <= k < |chunks| && |chunks[k]| < 1024 && (forall i :: 0 <= i < k ==> |chunks[i]| >= 1024) ::
              data == Some(Concat(chunks[..k + 1]))
    ensures (forall chunk <- chunks :: |chunk| >= 1024) ==> data == None
  {
    ReceivedIs(chunks);
    var res: Bytes := [];
    var i := 0;
    while true
      invariant 0 <= i <= FirstShort(chunks)
      invariant res == Concat(chunks[..i])
      decreases |chunks| - i
    {
      if i == |chunks| {
        return None;
      }
      ConcatSnoc(chunks, i);
      res := res + chunks[i];
      if |chunks[i]| < 1024 {
        return Some(res);
      }
      i := i + 1;
    }
  }

  lemma {:induction false} ConcatPositive(chunks: seq<Bytes>)
    requires Delivers(chunks) && chunks != []
    ensures |Concat(chunks)| > 0
  {
  }

  lemma {:induction false} ConcatSplit(chunks: seq<Bytes>, k: nat)
    requires k <= |chunks|
    ensures Concat(chunks) == Concat(chunks[..k]) + Concat(chunks[k..])
  {
    if k == 0 {
      assert chunks[..0] == [] && chunks[0..] == chunks;
    } else {
      ConcatSplit(chunks[1..], k - 1);
      assert chunks[1..][..k - 1] == chunks[..k][1..] && chunks[1..][k - 1..] == chunks[k..];
    }
  }

  /** ReadData returns the whole message exactly when its last read, and no earlier one, is short: a message
      delivered in full chunks only is refused, and one with a short read inside is cut there. */
  lemma ReadDataIsWholeIff(chunks: seq<Bytes>)
    requires Delivers(chunks)
    ensures Received(chunks) == Some(Concat(chunks))
       <==> chunks != [] && |chunks[|chunks| - 1]| < 1024 && forall i :: 0 <= i < |chunks| - 1 ==> |chunks[i]| == 1024
  {
    var k := FirstShort(chunks);
    if k + 1 < |chunks| {
      ConcatSplit(chunks, k + 1);
      ConcatPositive(chunks[k + 1..]);
    } else if k < |chunks| {
      assert chunks[..k + 1] == chunks;
    }
  }

  /** Copying this many bytes from a cache node's answer is reported as a success. */
  predicate CopySucceeds(length: nat) { length % 1024 != 0 }

  /** Copying from memory through a 4096-byte buffered reader. Everything is always written, but success is
      reported exactly when the length is not a multiple of 1024. */
  method WriteData(source: Bytes) returns (written: Bytes, ok: bool)
    ensures written == source
    ensures ok <==> CopySucceeds(|source|)
  {
    written := [];
    var position, buffered := 0, 0;
    while true
      invariant 0 <= position <= |source| && written == source[..position]
      invariant position % 1024 == 0
      invariant 0 <= buffered <= |source| - position
      invariant buffered % 1024 == 0 || buffered == |source| - position
      decreases |source| - position
    {
      if buffered == 0 {
        if position == |source| {
          return written, false;
        }
        buffered := if |source| - position < 4096 then |source| - position else 4096;
      }
      var n := if buffered < 1024 then buffered else 1024;
      written := written + source[position..position + n];
      position := position + n;
      buffered := buffered - n;
      if n < 1024 {
        return written, true;
      }
    }
  }

  /** The answer of a cache node, or None when the request failed. `file` is what lies at the target path. */
  method DownloadFileFromCache(response: Option<Bytes>, created: bool) returns (file: Option<Bytes>, ok: bool)
    ensures ok <==> response.Some? && created && CopySucceeds(|response.value|)
    ensures file == if response.Some? && response.value != [] && created then response else None
  {
    if response.None? || response.value == [] || !created {
      return None, false;
    }
    var written;
    written, ok := WriteData(response.value);
    file := Some(written);
  }
}
