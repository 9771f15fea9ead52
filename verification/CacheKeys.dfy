/** The strings that cd2n-node/actors/cache_actor.go uses as keys: cached fragments are fileHash/segmentHash/fragment,
    counters belong to their directory, and a segment is looked up by a substring test. */
module CacheKeys {
  import opened Common

  /** The length of the directory part of a path, slash included. */
  function LastSlash(k: string): (n: nat)
    ensures n <= |k| && (n > 0 ==> k[n - 1] == '/') && '/' !in k[n..]
  {
    if k == [] then 0 else if k[|k| - 1] == '/' then |k| else
      var n := LastSlash(k[..|k| - 1]);
      assert k[n..] == k[..|k| - 1][n..] + [k[|k| - 1]];
      n
  }

  function DirOf(k: string): string { k[..LastSlash(k)] }

  function BaseOf(k: string): string { k[LastSlash(k)..] }

  /** The key under which the add and delete callbacks keep the counters of an item: as written the directory with its
      trailing slash, while queries look them up without it. */
  function CounterKey(reading: Reading, k: string): string {
    var n := LastSlash(k);
    if reading.Intended? && n > 0 then k[..n - 1] else k[..n]
  }

  predicate Contains(k: string, part: string) {
    exists o: nat | o <= |k| :: StandsAt(k, part, o)
  }

  predicate StandsAt(k: string, part: string, o: nat) {
    o + |part| <= |k| && k[o..o + |part|] == part
  }

  // ---------- Keys made of hashes ----------

  predicate IsHash(h: string, length: nat) { |h| == length && '/' !in h }

  /** file/segment */
  predicate IsSegmentKey(k: string, length: nat) {
    |k| == 2 * length + 1 && k[length] == '/' && IsHash(k[..length], length) && IsHash(k[length + 1..], length)
  }

  /** file/segment/fragment */
  predicate IsFragmentKey(k: string, length: nat) {
    |k| == 3 * length + 2 && IsSegmentKey(k[..2 * length + 1], length)
    && k[2 * length + 1] == '/' && IsHash(k[2 * length + 2..], length)
  }

  lemma LastSlashIs(k: string, n: nat)
    requires 0 < n <= |k| && k[n - 1] == '/' && '/' !in k[n..]
    ensures LastSlash(k) == n
  {
    var m := LastSlash(k);
  }

  lemma FragmentDir(k: string, length: nat)
    requires IsFragmentKey(k, length)
    ensures DirOf(k) == k[..2 * length + 1] + "/"
    ensures CounterKey(Intended, k) == k[..2 * length + 1]
  {
    LastSlashIs(k, 2 * length + 2);
  }

  lemma SlashesOf(k: string, length: nat, i: nat)
    requires IsFragmentKey(k, length) && i < |k| && k[i] == '/'
    ensures i == length || i == 2 * length + 1
  {
  }

  /** The substring test on hash keys: a fragment key contains a segment key exactly when it lies under it, or when its
      segment and fragment happen to be the file and segment asked for. */
  lemma ContainsIff(k: string, key: string, length: nat)
    requires IsFragmentKey(k, length) && IsSegmentKey(key, length)
    ensures Contains(k, key) <==> k[..2 * length + 1] == key || k[length + 1..] == key
  {
    if Contains(k, key) {
      var o: nat :| o <= |k| && StandsAt(k, key, o);
      assert k[o..o + |key|][length] == '/';
      SlashesOf(k, length, o + length);
      if o > 0 {
        assert k[length + 1..] == k[o..o + |key|];
      }
    }
    if k[..2 * length + 1] == key {
      assert StandsAt(k, key, 0);
    }
    if k[length + 1..] == key {
      assert k[length + 1..] == k[length + 1..length + 1 + |key|];
      assert StandsAt(k, key, length + 1);
    }
  }
}
