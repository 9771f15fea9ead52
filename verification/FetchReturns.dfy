/** Whether the parallel fetch comes to an end when no request fails: some run returns exactly when the nodes offer
    enough different fragments, and some run gets stuck exactly when one node does not offer enough of them alone. */
module FetchReturns {
  import opened ParallelFetch
  import opened FetchRuns

  // ---------- One round of one worker ----------

  /** What a round without failures does from place `at` on: it claims the rest of the list, or ends the worker. */
  ghost predicate RoundDone(cfg: Config, s: State, s': State, w: nat, at: nat)
    requires w < |s.places| && w < |cfg.lists| && at <= |cfg.lists[w]|
  {
    && s'.dl == s.dl && s'.failures == s.failures
    && s.claimed <= s'.claimed <= s.claimed + Names(cfg.lists[w][at..]) && s'.dld == |s'.claimed|
    && (|| (s'.places == s.places[w := Head] && Names(cfg.lists[w][at..]) <= s'.claimed)
        || (s'.places == s.places[w := Done] && s'.dld >= cfg.shards))
  }

  lemma {:induction false} Round(cfg: Config, s: State, w: nat, at: nat) returns (moves: seq<Move>)
    requires Placed(cfg, s) && w < |s.places| && s.places[w] == Looking(at) && at <= |cfg.lists[w]|
    requires s.dld == |s.claimed|
    ensures RoundDone(cfg, s, Run(cfg, s, moves), w, at)
    decreases |cfg.lists[w]| - at
  {
    if at == |cfg.lists[w]| || s.dld >= cfg.shards {
      moves := [Move(w, true)];
      OneMove(cfg, s, Move(w, true));
    } else {
      var first := PassOne(cfg, s, w, at);
      var middle := Run(cfg, s, first);
      assert middle.dld == |middle.claimed|;
      var rest := Round(cfg, middle, w, at + 1);
      RunAppend(cfg, s, first, rest);
      moves := first + rest;
      RoundGoesOn(cfg, s, middle, Run(cfg, middle, rest), w, at);
    }
  }

  lemma RoundGoesOn(cfg: Config, s: State, middle: State, s': State, w: nat, at: nat)
    requires w < |s.places| && w < |cfg.lists| && at < |cfg.lists[w]|
    requires middle.places == s.places[w := Looking(at + 1)] && RoundDone(cfg, middle, s', w, at + 1)
    requires middle.claimed == s.claimed + {cfg.lists[w][at]} && middle.dl == s.dl && middle.failures == s.failures
    ensures RoundDone(cfg, s, s', w, at)
  {
    assert cfg.lists[w][at..] == [cfg.lists[w][at]] + cfg.lists[w][at + 1..];
    assert middle.places[w := Head] == s.places[w := Head] && middle.places[w := Done] == s.places[w := Done];
  }

  /** A whole round from the head of the loop. */
  lemma WholeRound(cfg: Config, s: State, w: nat) returns (moves: seq<Move>)
    requires Placed(cfg, s) && w < |s.places| && s.places[w].Head? && s.dld == |s.claimed|
    requires s.dld < cfg.shards && s.dl < cfg.shards
    ensures RoundDone(cfg, s.(dl := s.dl + 1), Run(cfg, s, moves), w, 0)
  {
    Enter(cfg, s, w);
    var s1 := Run(cfg, s, [Move(w, true)]);
    var rest := Round(cfg, s1, w, 0);
    moves := [Move(w, true)] + rest;
    RunAppend(cfg, s, [Move(w, true)], rest);
    assert s1.places[w := Head] == s.places[w := Head] && s1.places[w := Done] == s.places[w := Done];
  }

  // ---------- Some run returns ----------

  /** Between rounds: no worker is inside its list, and none has stopped early. */
  ghost predicate Quiet(cfg: Config, s: State) {
    && Placed(cfg, s) && s.failures == 0 && s.dld == |s.claimed|
    && forall place <- s.places :: place.Head? || (place.Done? && s.dld >= cfg.shards)
  }

  lemma {:induction false} FindFragment(lists: seq<seq<string>>, name: string) returns (w: nat)
    requires name in AllFragments(lists)
    ensures w < |lists| && name in lists[w]
  {
    if name in lists[0] {
      w := 0;
    } else {
      w := FindFragment(lists[1..], name);
      w := w + 1;
    }
  }

  /** A fragment still to be claimed, while too few are. */
  lemma Unclaimed(cfg: Config, s: State) returns (w: nat)
    requires |s.claimed| < cfg.shards <= |AllFragments(cfg.lists)|
    ensures w < |cfg.lists| && !(Names(cfg.lists[w]) <= s.claimed)
  {
    var all := AllFragments(cfg.lists);
    if all <= s.claimed {
      LargerSet(all, s.claimed);
    }
    var name :| name in all && name !in s.claimed;
    w := FindFragment(cfg.lists, name);
    assert name in Names(cfg.lists[w]);
  }

  lemma LargerSet(a: set<string>, b: set<string>)
    requires a <= b
    ensures |a| <= |b| && (|a| == |b| ==> a == b)
  {
    assert b == a + (b - a);
  }

  lemma ProductiveRound(cfg: Config, s: State) returns (moves: seq<Move>)
    requires Quiet(cfg, s) && s.dl <= s.dld < cfg.shards <= |AllFragments(cfg.lists)|
    ensures var s' := Run(cfg, s, moves);
            Quiet(cfg, s') && s'.dl == s.dl + 1 && s'.dld > s.dld
  {
    var w := Unclaimed(cfg, s);
    assert s.places[w] in s.places;
    moves := WholeRound(cfg, s, w);
    var s' := Run(cfg, s, moves);
    assert cfg.lists[w][0..] == cfg.lists[w];
    LargerSet(s.claimed, s'.claimed);
    forall place | place in s'.places ensures place.Head? || (place.Done? && s'.dld >= cfg.shards) {
      if place != s'.places[w] {
        assert place in s.places;
      }
    }
  }

  lemma {:induction false} Gather(cfg: Config, s: State) returns (moves: seq<Move>)
    requires Quiet(cfg, s) && s.dl <= s.dld && cfg.shards <= |AllFragments(cfg.lists)|
    ensures Quiet(cfg, Run(cfg, s, moves)) && Run(cfg, s, moves).dld >= cfg.shards
    decreases cfg.shards - s.dld
  {
    if s.dld >= cfg.shards {
      moves := [];
    } else {
      var first := ProductiveRound(cfg, s);
      var rest := Gather(cfg, Run(cfg, s, first));
      moves := first + rest;
      RunAppend(cfg, s, first, rest);
    }
  }

  /** With enough recorded, the workers leave one after the other. */
  lemma {:induction false} Leave(cfg: Config, s: State, w: nat) returns (moves: seq<Move>)
    requires Quiet(cfg, s) && s.dld >= cfg.shards && w <= |s.places|
    requires forall v: nat :: v < w ==> s.places[v].Done?
    ensures Returned(Run(cfg, s, moves)) && Run(cfg, s, moves).failures == 0
    decreases |s.places| - w
  {
    if w == |s.places| {
      moves := [];
    } else {
      assert s.places[w] in s.places;
      OneMove(cfg, s, Move(w, true));
      var s1 := Run(cfg, s, [Move(w, true)]);
      forall place | place in s1.places ensures place.Head? || place.Done? {
        if place != s1.places[w] {
          assert place in s.places;
        }
      }
      var rest := Leave(cfg, s1, w + 1);
      moves := [Move(w, true)] + rest;
      RunAppend(cfg, s, [Move(w, true)], rest);
    }
  }

  lemma SomeRunReturns(cfg: Config) returns (moves: seq<Move>)
    requires cfg.shards <= |AllFragments(cfg.lists)|
    ensures Returned(Run(cfg, Initial(cfg), moves)) && Run(cfg, Initial(cfg), moves).failures == 0
  {
    var first := Gather(cfg, Initial(cfg));
    var rest := Leave(cfg, Run(cfg, Initial(cfg), first), 0);
    moves := first + rest;
    RunAppend(cfg, Initial(cfg), first, rest);
  }

  ghost predicate ReturnsWithoutFailure(cfg: Config, moves: seq<Move>) {
    Returned(Run(cfg, Initial(cfg), moves)) && Run(cfg, Initial(cfg), moves).failures == 0
  }

  /** Without failures the call can return exactly when the nodes together offer enough different fragments. */
  lemma ReturnsIff(cfg: Config)
    requires cfg.lists != []
    ensures (exists moves :: ReturnsWithoutFailure(cfg, moves)) <==> cfg.shards <= |AllFragments(cfg.lists)|
  {
    if cfg.shards <= |AllFragments(cfg.lists)| {
      var moves := SomeRunReturns(cfg);
      assert ReturnsWithoutFailure(cfg, moves);
    } else {
      forall moves ensures !ReturnsWithoutFailure(cfg, moves) {
        if ReturnsWithoutFailure(cfg, moves) {
          ReturnsOnlyIf(cfg, moves);
        }
      }
    }
  }

  // ---------- Some run gets stuck ----------

  lemma {:induction false} UseUpRounds(cfg: Config, s: State, w: nat) returns (moves: seq<Move>)
    requires Placed(cfg, s) && w < |s.places| && (forall place <- s.places :: place.Head?) && s.failures == 0
    requires s.dld == |s.claimed| && s.claimed <= Names(cfg.lists[w]) && |Names(cfg.lists[w])| < cfg.shards
    requires s.dl <= cfg.shards
    ensures Jammed(cfg, Run(cfg, s, moves)) && Run(cfg, s, moves).failures == 0
    decreases cfg.shards - s.dl
  {
    LargerSet(s.claimed, Names(cfg.lists[w]));
    if s.dl == cfg.shards {
      moves := [];
    } else {
      var first := WholeRound(cfg, s, w);
      var s1 := Run(cfg, s, first);
      assert cfg.lists[w][0..] == cfg.lists[w];
      LargerSet(s1.claimed, Names(cfg.lists[w]));
      assert s.places[w := Head] == s.places;
      var rest := UseUpRounds(cfg, s1, w);
      moves := first + rest;
      RunAppend(cfg, s, first, rest);
    }
  }

  function PassedPlaces(place: Place): nat {
    match place
    case Looking(at) => at
    case Fetching(at) => at + 1
    case Failing(at) => at + 1
    case Recording(at, _) => at + 1
    case Booking(at) => at + 1
    case _ => 0
  }

  /** Without failures: what a worker has passed in its list is claimed; once a round was started, some worker is
      inside its list, has stopped, or has claimed all of it; and what is claimed is recorded or under way. */
  ghost predicate Swept(cfg: Config, s: State)
    requires Placed(cfg, s)
  {
    && (forall w: nat :: w < |s.places| ==> PassedAreClaimed(cfg, s, w))
    && (s.dl > 0 ==> SomeSwept(cfg, s))
    && |s.claimed| == s.dld + UnderWayCount(s.places)
  }

  predicate PassedAreClaimed(cfg: Config, s: State, w: nat)
    requires Placed(cfg, s) && w < |s.places|
  {
    !s.places[w].Failing? && Names(cfg.lists[w][..PassedPlaces(s.places[w])]) <= s.claimed
  }

  ghost predicate SomeSwept(cfg: Config, s: State)
    requires Placed(cfg, s)
  {
    exists w: nat :: w < |s.places| && HasSwept(cfg, s, w)
  }

  predicate HasSwept(cfg: Config, s: State, w: nat)
    requires Placed(cfg, s) && w < |s.places|
  {
    !s.places[w].Head? || Names(cfg.lists[w]) <= s.claimed
  }

  lemma StepKeepsSwept(cfg: Config, s: State, m: Move)
    requires Placed(cfg, s) && Swept(cfg, s) && Step(cfg, s, m).failures == s.failures
    ensures Swept(cfg, Step(cfg, s, m))
  {
    if m.worker < |s.places| {
      var s', w := Step(cfg, s, m), m.worker;
      assert PassedAreClaimed(cfg, s, w);
      StepKeepsClaimCount(cfg, s, m);
      StepClaims(cfg, s, m);
      if s'.dl > 0 {
        StepKeepsSomeSwept(cfg, s, m);
      }
      forall v: nat | v < |s'.places| ensures PassedAreClaimed(cfg, s', v) {
        assert PassedAreClaimed(cfg, s, v);
      }
    }
  }

  lemma StepKeepsSomeSwept(cfg: Config, s: State, m: Move)
    requires Placed(cfg, s) && m.worker < |s.places| && s.claimed <= Step(cfg, s, m).claimed
    requires s.places[m.worker] == Looking(|cfg.lists[m.worker]|) ==> Names(cfg.lists[m.worker]) <= s.claimed
    requires s.dl > 0 ==> SomeSwept(cfg, s)
    ensures Step(cfg, s, m).dl > 0 ==> SomeSwept(cfg, Step(cfg, s, m))
  {
    var s', w := Step(cfg, s, m), m.worker;
    if s.dl > 0 {
      var v: nat :| v < |s.places| && HasSwept(cfg, s, v);
      assert HasSwept(cfg, s', v) || HasSwept(cfg, s', w);
    } else if s'.dl > 0 {
      assert HasSwept(cfg, s', w);
    }
  }

  lemma StepKeepsClaimCount(cfg: Config, s: State, m: Move)
    requires Placed(cfg, s) && m.worker < |s.places| && !s.places[m.worker].Failing?
    requires |s.claimed| == s.dld + UnderWayCount(s.places)
    ensures |Step(cfg, s, m).claimed| == Step(cfg, s, m).dld + UnderWayCount(Step(cfg, s, m).places)
  {
    var s', w := Step(cfg, s, m), m.worker;
    CountsUpdate(s.places, w, s'.places[w]);
    assert s'.places == s.places[w := s'.places[w]];
  }

  lemma StepClaims(cfg: Config, s: State, m: Move)
    requires Placed(cfg, s) && m.worker < |s.places| && Step(cfg, s, m).failures == s.failures
    requires PassedAreClaimed(cfg, s, m.worker)
    ensures var s', w := Step(cfg, s, m), m.worker;
            && s.claimed <= s'.claimed && PassedAreClaimed(cfg, s', w)
            && (s.places[w] == Looking(|cfg.lists[w]|) ==> Names(cfg.lists[w]) <= s.claimed)
  {
    var w := m.worker;
    match s.places[w]
    case Looking(at) =>
      if at < |cfg.lists[w]| {
        assert cfg.lists[w][..at + 1] == cfg.lists[w][..at] + [cfg.lists[w][at]];
      } else {
        assert cfg.lists[w][..at] == cfg.lists[w];
      }
    case _ =>
  }

  lemma {:induction false} RunKeepsSwept(cfg: Config, s: State, moves: seq<Move>)
    requires Placed(cfg, s) && Swept(cfg, s) && Run(cfg, s, moves).failures == s.failures
    ensures Swept(cfg, Run(cfg, s, moves))
    decreases moves
  {
    if moves != [] {
      FailuresGrow(cfg, Step(cfg, s, moves[0]), moves[1..]);
      StepKeepsSwept(cfg, s, moves[0]);
      RunKeepsSwept(cfg, Step(cfg, s, moves[0]), moves[1..]);
    }
  }

  lemma {:induction false} FailuresGrow(cfg: Config, s: State, moves: seq<Move>)
    requires Placed(cfg, s)
    ensures Run(cfg, s, moves).failures >= s.failures
    decreases moves
  {
    if moves != [] {
      FailuresGrow(cfg, Step(cfg, s, moves[0]), moves[1..]);
    }
  }

  lemma JamsOnlyIf(cfg: Config, moves: seq<Move>) returns (w: nat)
    requires cfg.shards > 0 && JamsWithoutFailure(cfg, moves)
    ensures w < |cfg.lists| && |Names(cfg.lists[w])| < cfg.shards
  {
    var s := Run(cfg, Initial(cfg), moves);
    NothingCounted(Initial(cfg).places);
    RunKeepsSwept(cfg, Initial(cfg), moves);
    w :| w < |s.places| && HasSwept(cfg, s, w);
    assert s.places[w] in s.places;
    NothingCounted(s.places);
    LargerSet(Names(cfg.lists[w]), s.claimed);
  }

  ghost predicate JamsWithoutFailure(cfg: Config, moves: seq<Move>) {
    Jammed(cfg, Run(cfg, Initial(cfg), moves)) && Run(cfg, Initial(cfg), moves).failures == 0
  }

  /** Without failures the call can get stuck exactly when some node offers fewer fragments than are needed, even when
      all nodes together offer enough: that node's worker may take every round. */
  lemma JamsIff(cfg: Config)
    requires cfg.shards > 0
    ensures (exists moves :: JamsWithoutFailure(cfg, moves))
       <==> exists w: nat :: w < |cfg.lists| && |Names(cfg.lists[w])| < cfg.shards
  {
    if w: nat :| w < |cfg.lists| && |Names(cfg.lists[w])| < cfg.shards {
      var moves := UseUpRounds(cfg, Initial(cfg), w);
      assert JamsWithoutFailure(cfg, moves);
    }
    if moves :| JamsWithoutFailure(cfg, moves) {
      var w := JamsOnlyIf(cfg, moves);
    }
  }
}
