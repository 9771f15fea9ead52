/** One pass of UploadServer in cd2n-client/client/files.go over the placement slots of a task.
    Everything the network answers during a pass is given in advance: an iterator yields each storage node at
    most once, so each (slot, node) pair is tried at most once. */
module Upload {
  import opened Common

  /** One slot of UploadStats.Group. Whether the flush interval has passed is an input of the pass. */
  datatype Slot = Slot(minerId: string, peerId: string, saved: bool, onChain: bool)

  const BLANK := Slot("", "", false, false)

  datatype Pass = Pass(
    complete: seq<(nat, string)>,
    peers: seq<string>,
    recent: nat -> bool,
    connects: (nat, nat) -> bool,
    segments: nat,
    wellFormed: (nat, nat) -> bool,
    writes: (nat, nat, nat) -> bool)

  /** Node p of the iterator takes every well-formed fragment of slot i. */
  predicate Accepts(pass: Pass, i: nat, p: nat) {
    pass.connects(i, p) && forall j: nat :: j < pass.segments && pass.wellFormed(j, i) ==> pass.writes(i, p, j)
  }

  function SavedPeers(group: seq<Slot>): set<string> {
    set slot <- group | slot.saved && slot.peerId != "" :: slot.peerId
  }

  /** The miner of the first entry of the completion list with this index. */
  function MinerOf(complete: seq<(nat, string)>, i: nat): Option<string> {
    if complete == [] then None
    else if complete[0].0 == i then Some(complete[0].1)
    else MinerOf(complete[1..], i)
  }

  function Mark(slot: Slot, complete: seq<(nat, string)>, i: nat): Slot {
    if slot.onChain then slot
    else match MinerOf(complete, i)
      case None => slot
      case Some(miner) => slot.(saved := true, onChain := true, minerId := miner)
  }

  /** The first node from position `from` on that is new and accepts; |peers| when there is none. */
  function NextPeer(pass: Pass, taken: set<string>, i: nat, from: nat): (p: nat)
    requires from <= |pass.peers|
    ensures from <= p <= |pass.peers|
    ensures p < |pass.peers| ==> pass.peers[p] !in taken && Accepts(pass, i, p)
    ensures forall q :: from <= q < p ==> pass.peers[q] in taken || !Accepts(pass, i, q)
    decreases |pass.peers| - from
  {
    if from == |pass.peers| || (pass.peers[from] !in taken && Accepts(pass, i, from)) then from
    else NextPeer(pass, taken, i, from + 1)
  }

  /** Slot i after the pass, and the iterator's position, from the slot before and the position before. */
  function ServeSlot(pass: Pass, taken: set<string>, slot: Slot, i: nat, position: nat): (r: (Slot, nat))
    requires position <= |pass.peers|
    ensures position <= r.1 <= |pass.peers|
  {
    var marked := Mark(slot, pass.complete, i);
    if marked.onChain || (marked.saved && pass.recent(i)) then (marked, position)
    else
      var p := NextPeer(pass, taken, i, position);
      if p == |pass.peers| then (marked, p) else (marked.(saved := true, peerId := pass.peers[p]), p + 1)
  }

  /** The first i slots served. */
  function Serve(pass: Pass, group: seq<Slot>, i: nat): (r: (seq<Slot>, nat))
    requires i <= |group|
    ensures |r.0| == |group| && r.1 <= |pass.peers|
    ensures r.0[i..] == group[i..]
  {
    if i == 0 then (group, 0)
    else
      var (before, position) := Serve(pass, group, i - 1);
      assert before[i - 1] == before[i - 1..][0] == group[i - 1];
      var (slot, position') := ServeSlot(pass, SavedPeers(group), before[i - 1], i - 1, position);
      (before[i - 1 := slot], position')
  }

  function AfterPass(pass: Pass, group: seq<Slot>): (after: seq<Slot>)
    ensures |after| == |group|
  {
    Serve(pass, group, |group|).0
  }

  function OnChainCount(group: seq<Slot>): nat {
    if group == [] then 0 else OnChainCount(group[..|group| - 1]) + if group[|group| - 1].onChain then 1 else 0
  }

  // ---------- The program ----------

  method UploadFragments(pass: Pass, i: nat, p: nat) returns (uploaded: bool)
    requires pass.connects(i, p)
    ensures uploaded <==> Accepts(pass, i, p)
  {
    for j := 0 to pass.segments
      invariant forall k: nat :: k < j && pass.wellFormed(k, i) ==> pass.writes(i, p, k)
    {
      if pass.wellFormed(j, i) && !pass.writes(i, p, j) {
        return false;
      }
    }
    uploaded := true;
  }

  method FindPeer(pass: Pass, taken: set<string>, i: nat, from: nat) returns (p: nat)
    requires from <= |pass.peers|
    ensures p == NextPeer(pass, taken, i, from)
  {
    p := from;
    while p < |pass.peers|
      invariant from <= p <= |pass.peers|
      invariant NextPeer(pass, taken, i, from) == NextPeer(pass, taken, i, p)
    {
      if pass.peers[p] !in taken && pass.connects(i, p) {
        var uploaded := UploadFragments(pass, i, p);
        if uploaded {
          return;
        }
      }
      p := p + 1;
    }
  }

  method MarkCompleted(pass: Pass, slot: Slot, i: nat) returns (marked: Slot)
    ensures marked == Mark(slot, pass.complete, i)
  {
    marked := slot;
    var j := 0;
    while j < |pass.complete|
      invariant 0 <= j <= |pass.complete|
      invariant Mark(marked, pass.complete[j..], i) == Mark(slot, pass.complete, i)
    {
      if pass.complete[j].0 == i && !marked.onChain {
        marked := marked.(saved := true, onChain := true, minerId := pass.complete[j].1);
      }
      j := j + 1;
    }
  }

  method ServeOne(pass: Pass, taken: set<string>, slot: Slot, i: nat, position: nat) returns (served: Slot, next: nat)
    requires position <= |pass.peers|
    ensures (served, next) == ServeSlot(pass, taken, slot, i, position)
  {
    served := MarkCompleted(pass, slot, i);
    next := position;
    if !served.onChain && !(served.saved && pass.recent(i)) {
      next := FindPeer(pass, taken, i, position);
      if next < |pass.peers| {
        served := served.(saved := true, peerId := pass.peers[next]);
        next := next + 1;
      }
    }
  }

  /** One pass over a task's slots, in place. The count of slots on chain decides whether the task is done. */
  method ServePass(group: array<Slot>, pass: Pass) returns (sucCount: nat)
    modifies group
    ensures group[..] == AfterPass(pass, old(group[..]))
    ensures sucCount == OnChainCount(group[..])
  {
    ghost var start := group[..];
    var taken := {};
    for i := 0 to group.Length
      invariant taken == SavedPeers(start[..i])
    {
      assert start[..i + 1] == start[..i] + [start[i]];
      if group[i].saved && group[i].peerId != "" {
        taken := taken + {group[i].peerId};
      }
    }
    assert start[..group.Length] == start;
    sucCount := 0;
    var position := 0;
    for i := 0 to group.Length
      invariant (group[..], position) == Serve(pass, start, i)
      invariant sucCount == OnChainCount(group[..i])
    {
      ghost var before := group[..];
      assert group[i] == before[i..][0] == start[i..][0];
      var slot;
      slot, position := ServeOne(pass, taken, group[i], i, position);
      group[i] := slot;
      assert group[..] == before[i := slot];
      assert group[..i + 1][..i] == before[..i];
      if slot.onChain {
        sucCount := sucCount + 1;
      }
    }
    assert group[..group.Length] == group[..];
  }

  // ---------- Every run of passes ----------

  /** An iterator yields no node twice, and every node has a name. */
  predicate Iterates(pass: Pass) {
    "" !in pass.peers && forall i, j :: 0 <= i < j < |pass.peers| ==> pass.peers[i] != pass.peers[j]
  }

  /** No two slots are placed on the same node. */
  predicate Independent(group: seq<Slot>) {
    forall i, j :: 0 <= i < j < |group| && group[i].peerId != "" ==> group[i].peerId != group[j].peerId
  }

  /** A slot that is on chain or placed somewhere is saved. */
  predicate Consistent(group: seq<Slot>) {
    forall slot <- group :: slot.onChain || slot.peerId != "" ==> slot.saved
  }

  /** Slots on chain stay on chain, with their miner and their node. */
  predicate ChainKept(before: seq<Slot>, after: seq<Slot>) {
    |before| == |after| && forall i :: 0 <= i < |before| && before[i].onChain ==> after[i] == before[i]
  }

  /** During a pass: a slot's node is the one it had, or one the iterator has already yielded and that was free. */
  ghost predicate Placed(pass: Pass, start: seq<Slot>, group: seq<Slot>, position: nat, i: nat) {
    && |group| == |start| && i <= |start| && position <= |pass.peers|
    && (forall k :: i <= k < |group| ==> group[k] == start[k])
    && (forall k :: 0 <= k < |group| && group[k].peerId != start[k].peerId ==>
          group[k].peerId in pass.peers[..position] && group[k].peerId !in SavedPeers(start))
  }

  lemma OwnPeerIsTaken(start: seq<Slot>, k: nat)
    requires k < |start| && start[k].saved && start[k].peerId != ""
    ensures start[k].peerId in SavedPeers(start)
  {
    assert start[k] in start;
  }

  /** Slot i moves to node p, which no slot has: the others stay distinct from it. */
  lemma MoveKeepsIndependent(pass: Pass, start: seq<Slot>, group: seq<Slot>, position: nat, i: nat, p: nat, slot: Slot)
    requires Iterates(pass) && Consistent(start) && Independent(group)
    requires Placed(pass, start, group, position, i) && i < |start|
    requires position <= p < |pass.peers| && pass.peers[p] !in SavedPeers(start)
    requires slot.peerId == pass.peers[p]
    ensures Independent(group[i := slot])
    ensures Placed(pass, start, group[i := slot], p + 1, i + 1)
  {
    var after := group[i := slot];
    forall k | 0 <= k < |group| && k != i
      ensures group[k].peerId != slot.peerId
    {
      if group[k].peerId == start[k].peerId {
        assert start[k] in start;
        if start[k].peerId != "" {
          OwnPeerIsTaken(start, k);
        }
      }
    }
    forall k | 0 <= k < |after| && after[k].peerId != start[k].peerId
      ensures after[k].peerId in pass.peers[..p + 1] && after[k].peerId !in SavedPeers(start)
    {
      if k == i {
        assert pass.peers[..p + 1][p] == slot.peerId;
      } else {
        var q :| 0 <= q < position && pass.peers[..position][q] == group[k].peerId;
        assert pass.peers[..p + 1][q] == group[k].peerId;
      }
    }
  }

  lemma StayKeepsIndependent(pass: Pass, start: seq<Slot>, group: seq<Slot>, position: nat, i: nat, position': nat,
                             slot: Slot)
    requires Independent(group) && Placed(pass, start, group, position, i) && i < |start|
    requires position <= position' <= |pass.peers| && slot.peerId == start[i].peerId
    ensures Independent(group[i := slot])
    ensures Placed(pass, start, group[i := slot], position', i + 1)
  {
    var after := group[i := slot];
    forall k | 0 <= k < |after| && after[k].peerId != start[k].peerId
      ensures after[k].peerId in pass.peers[..position']
    {
      var q :| 0 <= q < position && pass.peers[..position][q] == group[k].peerId;
      assert pass.peers[..position'][q] == group[k].peerId;
    }
  }

  lemma ServeSlotKeeps(pass: Pass, start: seq<Slot>, group: seq<Slot>, position: nat, i: nat)
    requires Iterates(pass) && Consistent(start) && Independent(group)
    requires Placed(pass, start, group, position, i) && i < |start|
    ensures var (slot, position') := ServeSlot(pass, SavedPeers(start), group[i], i, position);
            Placed(pass, start, group[i := slot], position', i + 1) && Independent(group[i := slot])
  {
    var (slot, position') := ServeSlot(pass, SavedPeers(start), group[i], i, position);
    var marked := Mark(group[i], pass.complete, i);
    if slot == marked {
      StayKeepsIndependent(pass, start, group, position, i, position', slot);
    } else {
      var p := NextPeer(pass, SavedPeers(start), i, position);
      MoveKeepsIndependent(pass, start, group, position, i, p, slot);
    }
  }

  lemma {:induction false} ServeKeeps(pass: Pass, start: seq<Slot>, i: nat)
    requires Iterates(pass) && Consistent(start) && Independent(start) && i <= |start|
    ensures Placed(pass, start, Serve(pass, start, i).0, Serve(pass, start, i).1, i)
    ensures Independent(Serve(pass, start, i).0)
  {
    if i > 0 {
      ServeKeeps(pass, start, i - 1);
      var (before, position) := Serve(pass, start, i - 1);
      ServeSlotKeeps(pass, start, before, position, i - 1);
    }
  }

  lemma {:induction false} ServeEach(pass: Pass, start: seq<Slot>, i: nat)
    requires i <= |start|
    ensures var group := Serve(pass, start, i).0;
            ChainKept(start, group) && (Consistent(start) ==> Consistent(group))
  {
    if i > 0 {
      ServeEach(pass, start, i - 1);
      var (before, position) := Serve(pass, start, i - 1);
      assert before[i - 1] == before[i - 1..][0] == start[i - 1];
      assert before[i - 1] in before;
    }
  }

  function AfterPasses(passes: seq<Pass>, group: seq<Slot>): seq<Slot> {
    if passes == [] then group else AfterPasses(passes[1..], AfterPass(passes[0], group))
  }

  /** Placement independence: over any number of passes, with any failures, re-uploads and completions in between,
      no two slots of a task are ever on the same node, slots on chain never change again, and whatever is on chain
      or placed is saved. */
  lemma {:induction false} PlacementStaysIndependent(passes: seq<Pass>, group: seq<Slot>)
    requires forall pass <- passes :: Iterates(pass)
    requires Independent(group) && Consistent(group)
    ensures var after := AfterPasses(passes, group);
            Independent(after) && Consistent(after) && ChainKept(group, after)
  {
    if passes != [] {
      var next := AfterPass(passes[0], group);
      ServeKeeps(passes[0], group, |group|);
      ServeEach(passes[0], group, |group|);
      PlacementStaysIndependent(passes[1..], next);
    }
  }

  /** A task starts with blank slots. */
  lemma BlankIsIndependent(slots: nat)
    ensures Independent(seq(slots, _ => BLANK)) && Consistent(seq(slots, _ => BLANK))
  {
  }

  lemma {:induction false} OnChainCountAll(group: seq<Slot>)
    ensures OnChainCount(group) <= |group|
    ensures OnChainCount(group) == |group| <==> forall slot <- group :: slot.onChain
  {
    if group != [] {
      OnChainCountAll(group[..|group| - 1]);
      assert group == group[..|group| - 1] + [group[|group| - 1]];
    }
  }

  // ---------- What one pass means ----------

  /** The chain lists the slot for the first time with entry j of the completion list. */
  predicate FirstListed(complete: seq<(nat, string)>, i: nat, j: nat) {
    j < |complete| && complete[j].0 == i && forall k :: 0 <= k < j ==> complete[k].0 != i
  }

  predicate Listed(complete: seq<(nat, string)>, i: nat) {
    exists j: nat | j < |complete| :: complete[j].0 == i
  }

  /** The slot is neither on chain nor recently uploaded: this pass looks for a node for it. */
  predicate Due(pass: Pass, slot: Slot, i: nat) {
    !slot.onChain && !Listed(pass.complete, i) && !(slot.saved && pass.recent(i))
  }

  /** Slot i could not have gone to node q: it is taken, or refuses, or an earlier slot went to it or beyond. */
  ghost predicate PassedOver(pass: Pass, group: seq<Slot>, places: seq<Option<nat>>, i: nat, q: nat)
    requires q < |pass.peers| && i <= |places|
  {
    || pass.peers[q] in SavedPeers(group) || !Accepts(pass, i, q)
    || exists k: nat | k < i :: places[k].Some? && q <= places[k].value
  }

  /** What becomes of a due slot, in terms of the nodes found for the slots before it. */
  ghost predicate Explained(pass: Pass, group: seq<Slot>, after: seq<Slot>, places: seq<Option<nat>>, i: nat)
    requires i < |group| == |after| && i < |places|
  {
    && (places[i].Some? ==> Due(pass, group[i], i))
    && (Due(pass, group[i], i) ==> match places[i]
          case Some(p) =>
            && p < |pass.peers| && after[i] == group[i].(saved := true, peerId := pass.peers[p])
            && pass.peers[p] !in SavedPeers(group) && Accepts(pass, i, p)
            && (forall k: nat | k < i :: places[k].Some? ==> places[k].value < p)
            && (forall k: nat | k < i :: Due(pass, group[k], k) ==> places[k].Some?)
            && (forall q: nat | q < p :: PassedOver(pass, group, places, i, q))
          case None =>
            && after[i] == group[i]
            && (|| (exists k: nat | k < i :: Due(pass, group[k], k) && places[k].None?)
                || forall q: nat | q < |pass.peers| :: PassedOver(pass, group, places, i, q)))
    && (!Due(pass, group[i], i) ==>
          if !group[i].onChain && Listed(pass.complete, i)
          then exists j: nat | FirstListed(pass.complete, i, j) ::
                 after[i] == group[i].(saved := true, onChain := true, minerId := pass.complete[j].1)
          else after[i] == group[i])
  }

  /** Where the iterator stands: behind the last node found, or at its end once a due slot found none. */
  ghost predicate Stands(pass: Pass, group: seq<Slot>, places: seq<Option<nat>>, i: nat, position: nat)
    requires i <= |group| && i <= |places| && position <= |pass.peers|
  {
    && (forall k: nat | k < i :: places[k].Some? ==> places[k].value < position)
    && if exists k: nat | k < i :: Due(pass, group[k], k) && places[k].None? then position == |pass.peers|
       else position == 0 || exists k: nat | k < i :: places[k] == Some((position - 1) as nat)
  }

  lemma {:induction false} MinerOfIs(complete: seq<(nat, string)>, i: nat)
    ensures MinerOf(complete, i).Some? <==> Listed(complete, i)
    ensures MinerOf(complete, i).Some? ==>
              exists j: nat | FirstListed(complete, i, j) :: complete[j].1 == MinerOf(complete, i).value
  {
    if complete == [] {
    } else if complete[0].0 == i {
      assert FirstListed(complete, i, 0);
    } else {
      MinerOfIs(complete[1..], i);
      if Listed(complete[1..], i) {
        var j: nat :| FirstListed(complete[1..], i, j) && complete[1..][j].1 == MinerOf(complete[1..], i).value;
        assert FirstListed(complete, i, j + 1);
      }
      if j: nat :| j < |complete| && complete[j].0 == i {
        assert complete[1..][j - 1].0 == i;
      }
    }
  }

  lemma DueIs(pass: Pass, slot: Slot, i: nat)
    ensures var marked := Mark(slot, pass.complete, i);
            && (Due(pass, slot, i) <==> !(marked.onChain || (marked.saved && pass.recent(i))))
            && (Due(pass, slot, i) ==> marked == slot)
  {
    MinerOfIs(pass.complete, i);
  }

  /** The node found for slot k. */
  function FoundFor(pass: Pass, group: seq<Slot>, k: nat): Option<nat>
    requires k < |group|
  {
    var p := NextPeer(pass, SavedPeers(group), k, Serve(pass, group, k).1);
    if Mark(group[k], pass.complete, k).onChain || (Mark(group[k], pass.complete, k).saved && pass.recent(k)) then None
    else if p == |pass.peers| then None else Some(p)
  }

  function Places(pass: Pass, group: seq<Slot>): seq<Option<nat>> {
    seq(|group|, k requires 0 <= k < |group| => FoundFor(pass, group, k))
  }

  lemma ServeStep(pass: Pass, group: seq<Slot>, i: nat)
    requires i < |group|
    ensures var (position, position') := (Serve(pass, group, i).1, Serve(pass, group, i + 1).1);
            var p := NextPeer(pass, SavedPeers(group), i, position);
            && Places(pass, group)[i] ==
               (if Due(pass, group[i], i) && p < |pass.peers| then Some(p) else None)
            && position' == (if !Due(pass, group[i], i) then position else if p < |pass.peers| then p + 1 else p)
            && AfterPass(pass, group)[i] ==
               (if Due(pass, group[i], i) && p < |pass.peers| then group[i].(saved := true, peerId := pass.peers[p])
                else Mark(group[i], pass.complete, i))
  {
    var (before, position) := Serve(pass, group, i);
    assert before[i] == before[i..][0] == group[i];
    DueIs(pass, group[i], i);
    ServeLater(pass, group, i + 1, |group|);
    assert Serve(pass, group, |group|).0[..i + 1][i] == Serve(pass, group, i + 1).0[..i + 1][i];
  }

  lemma {:induction false} StandsAt(pass: Pass, group: seq<Slot>, i: nat)
    requires i <= |group|
    ensures Stands(pass, group, Places(pass, group), i, Serve(pass, group, i).1)
  {
    if i > 0 {
      StandsAt(pass, group, i - 1);
      ServeStep(pass, group, i - 1);
      StandsStep(pass, group, Places(pass, group), i - 1, Serve(pass, group, i - 1).1, Serve(pass, group, i).1);
    }
  }

  lemma StandsStep(pass: Pass, group: seq<Slot>, places: seq<Option<nat>>, i: nat, position: nat, position': nat)
    requires i < |group| && i < |places| && position <= |pass.peers|
    requires Stands(pass, group, places, i, position)
    requires if !Due(pass, group[i], i) then places[i] == None && position' == position
             else var p := NextPeer(pass, SavedPeers(group), i, position);
                  if p < |pass.peers| then places[i] == Some(p) && position' == p + 1
                  else places[i] == None && position' == p
    ensures position' <= |pass.peers| && Stands(pass, group, places, i + 1, position')
  {
  }

  lemma FoundIsExplained(pass: Pass, group: seq<Slot>, after: seq<Slot>, places: seq<Option<nat>>, i: nat,
                         position: nat)
    requires i < |group| == |after| && i < |places| && position <= |pass.peers|
    requires Stands(pass, group, places, i, position) && Due(pass, group[i], i)
    requires var p := NextPeer(pass, SavedPeers(group), i, position);
             && places[i] == (if p < |pass.peers| then Some(p) else None)
             && after[i] == if p < |pass.peers| then group[i].(saved := true, peerId := pass.peers[p]) else group[i]
    ensures Explained(pass, group, after, places, i)
  {
    var p := NextPeer(pass, SavedPeers(group), i, position);
    if !(exists k: nat | k < i :: Due(pass, group[k], k) && places[k].None?) {
      forall q: nat | q < p ensures PassedOver(pass, group, places, i, q) {
        if q < position {
          var k: nat :| k < i && places[k] == Some((position - 1) as nat);
          assert places[k].Some? && q <= places[k].value;
        }
      }
    }
  }

  /** What a pass means for each slot. A slot is put on chain with the miner of the first entry that lists it; left
      alone when it was recently uploaded or is on chain already; otherwise it moves to the first node the iterator has
      not passed yet that no slot is on and that takes all its fragments, and stays as it was when there is none. The
      nodes found are given by their places in the iterator's order; nothing here depends on how a pass is computed. */
  lemma PassMeaning(pass: Pass, group: seq<Slot>) returns (places: seq<Option<nat>>)
    ensures AllExplained(pass, group, AfterPass(pass, group), places)
  {
    places := Places(pass, group);
    forall i: nat | i < |group| ensures Explained(pass, group, AfterPass(pass, group), places, i) {
      StandsAt(pass, group, i);
      ServeStep(pass, group, i);
      if Due(pass, group[i], i) {
        DueIs(pass, group[i], i);
        FoundIsExplained(pass, group, AfterPass(pass, group), places, i, Serve(pass, group, i).1);
      } else {
        MinerOfIs(pass.complete, i);
      }
    }
  }

  ghost predicate AllExplained(pass: Pass, group: seq<Slot>, after: seq<Slot>, places: seq<Option<nat>>) {
    && |group| == |after| == |places|
    && forall i: nat | i < |group| :: Explained(pass, group, after, places, i)
  }

  /** So a node that a due slot did not get was another slot's before the pass, or went to an earlier due slot, or was
      refused by this or an earlier one; and a due slot is left without a node only when that is so of every node. */
  lemma {:induction false} NoNodeIsWasted(pass: Pass, group: seq<Slot>, after: seq<Slot>, places: seq<Option<nat>>,
                                          i: nat, q: nat)
    requires AllExplained(pass, group, after, places) && i < |group| && Due(pass, group[i], i) && q < |pass.peers|
    requires places[i].Some? ==> q < places[i].value
    ensures || pass.peers[q] in SavedPeers(group)
            || (exists k: nat | k < i :: Due(pass, group[k], k) && after[k].saved && after[k].peerId == pass.peers[q])
            || (exists k: nat | k <= i :: Due(pass, group[k], k) && !Accepts(pass, k, q))
  {
    assert Explained(pass, group, after, places, i);
    if k: nat :| k < i && Due(pass, group[k], k) && places[k].None? {
      NoNodeIsWasted(pass, group, after, places, k, q);
    } else {
      assert PassedOver(pass, group, places, i, q);
      if pass.peers[q] !in SavedPeers(group) && Accepts(pass, i, q) {
        var k: nat :| k < i && places[k].Some? && q <= places[k].value;
        assert Explained(pass, group, after, places, k);
        if q < places[k].value {
          NoNodeIsWasted(pass, group, after, places, k, q);
        }
      }
    }
  }

  function DueBefore(pass: Pass, group: seq<Slot>, i: nat): nat
    requires i <= |group|
  {
    if i == 0 then 0 else DueBefore(pass, group, i - 1) + if Due(pass, group[i - 1], i - 1) then 1 else 0
  }

  lemma {:induction false} DueBeforeGrows(pass: Pass, group: seq<Slot>, k: nat, i: nat)
    requires k < i <= |group| && Due(pass, group[k], k)
    ensures DueBefore(pass, group, k) < DueBefore(pass, group, i)
    decreases i
  {
    if k < i - 1 {
      DueBeforeGrows(pass, group, k, i - 1);
    }
  }

  lemma {:induction false} LastDue(pass: Pass, group: seq<Slot>, i: nat) returns (k: nat)
    requires i <= |group| && DueBefore(pass, group, i) > 0
    ensures k < i && Due(pass, group[k], k) && DueBefore(pass, group, k) == DueBefore(pass, group, i) - 1
  {
    if Due(pass, group[i - 1], i - 1) {
      k := i - 1;
    } else {
      k := LastDue(pass, group, i - 1);
    }
  }

  /** When every node accepts and none is taken, the due slots get the nodes in the iterator's order, one each. */
  lemma {:induction false} DueSlotsGetNodesInOrder(pass: Pass, group: seq<Slot>, after: seq<Slot>,
                                                   places: seq<Option<nat>>, i: nat)
    requires AllExplained(pass, group, after, places) && i < |group| && Due(pass, group[i], i)
    requires forall k: nat, q: nat :: k < |group| && q < |pass.peers| ==> Accepts(pass, k, q)
    requires forall peer <- pass.peers :: peer !in SavedPeers(group)
    ensures var j := DueBefore(pass, group, i);
            && places[i] == (if j < |pass.peers| then Some(j) else None)
            && (j < |pass.peers| ==> after[i].saved && after[i].peerId == pass.peers[j])
  {
    var j := DueBefore(pass, group, i);
    assert Explained(pass, group, after, places, i);
    forall k: nat | k < i && Due(pass, group[k], k)
      ensures places[k] == (if DueBefore(pass, group, k) < |pass.peers| then Some(DueBefore(pass, group, k)) else None)
      ensures DueBefore(pass, group, k) < j
    {
      DueSlotsGetNodesInOrder(pass, group, after, places, k);
      DueBeforeGrows(pass, group, k, i);
    }
    if j > 0 {
      var k := LastDue(pass, group, i);
    }
    EarlierPlaces(pass, group, after, places, i, if places[i].Some? then places[i].value else |pass.peers|);
  }

  lemma EarlierPlaces(pass: Pass, group: seq<Slot>, after: seq<Slot>, places: seq<Option<nat>>, i: nat, p: nat)
    requires AllExplained(pass, group, after, places) && i < |group| && p <= |pass.peers|
    requires forall k: nat, q: nat :: k < |group| && q < |pass.peers| ==> Accepts(pass, k, q)
    requires forall peer <- pass.peers :: peer !in SavedPeers(group)
    ensures p > 0 && PassedOver(pass, group, places, i, p - 1) ==>
              exists k: nat | k < i :: Due(pass, group[k], k) && places[k].Some? && places[k].value >= p - 1
  {
    if p > 0 && PassedOver(pass, group, places, i, p - 1) {
      assert pass.peers[p - 1] in pass.peers;
      var k: nat :| k < i && places[k].Some? && p - 1 <= places[k].value;
      assert Explained(pass, group, after, places, k);
    }
  }

  lemma {:induction false} ServeLater(pass: Pass, group: seq<Slot>, i: nat, n: nat)
    requires i <= n <= |group|
    ensures Serve(pass, group, n).0[..i] == Serve(pass, group, i).0[..i]
    decreases n
  {
    if i < n {
      ServeLater(pass, group, i, n - 1);
    }
  }
}
