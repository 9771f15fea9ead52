/** DownloadSegmentFromCachers of cd2n-client/client/files.go: one worker for each cache node, sharing counters under
    one lock. Each critical section, each request and each credit booking is one atomic step. */
module ParallelFetch {
  import opened Chunks
  import opened Common

  /** Where a worker is. `at` is its place in its own list of fragments.
      Head: about to enter the outer loop's critical section. Looking: about to examine fragment `at`.
      Fetching: its request is under way. Failing: the request failed, before the first critical section after it.
      Recording: before the second one. Booking: before the credit is added. */
  datatype Place =
    | Head
    | Looking(at: nat)
    | Fetching(at: nat)
    | Failing(at: nat)
    | Recording(at: nat, arrived: bool)
    | Booking(at: nat)
    | Done

  /** The shared variables dl, dld, res and cachedFragments, the credit booked so far and the place of each worker;
      and as history, the recorded fragments that did arrive and the number of requests that failed. */
  datatype State = State(dl: int, dld: nat, res: seq<string>, claimed: set<string>, credit: nat, places: seq<Place>,
                         fetched: seq<string>, failures: nat)

  datatype Config = Config(lists: seq<seq<string>>, shards: nat, fragmentSize: nat)

  /** The next step of one worker. `arrives` is only looked at when its request is under way. */
  datatype Move = Move(worker: nat, arrives: bool)

  function Initial(cfg: Config): State {
    State(0, 0, [], {}, 0, seq(|cfg.lists|, _ => Head), [], 0)
  }

  /** Every worker is at a place that exists. */
  predicate Placed(cfg: Config, s: State) {
    && |s.places| == |cfg.lists|
    && forall w :: 0 <= w < |s.places| ==> match s.places[w]
         case Head => true
         case Done => true
         case Looking(at) => at <= |cfg.lists[w]|
         case Fetching(at) => at < |cfg.lists[w]|
         case Failing(at) => at < |cfg.lists[w]|
         case Recording(at, _) => at < |cfg.lists[w]|
         case Booking(at) => at < |cfg.lists[w]|
  }

  function Step(cfg: Config, s: State, m: Move): (s': State)
    requires Placed(cfg, s)
    ensures Placed(cfg, s')
  {
    if m.worker >= |s.places| then s
    else
      var w := m.worker;
      match s.places[w]
      case Done => s
      case Head =>
        if s.dld >= cfg.shards then s.(places := s.places[w := Done])
        else if s.dl < cfg.shards then s.(dl := s.dl + 1, places := s.places[w := Looking(0)])
        else s
      case Looking(at) =>
        if at == |cfg.lists[w]| then s.(places := s.places[w := Head])
        else if s.dld >= cfg.shards then s.(places := s.places[w := Done])
        else if cfg.lists[w][at] in s.claimed then s.(places := s.places[w := Looking(at + 1)])
        else s.(claimed := s.claimed + {cfg.lists[w][at]}, places := s.places[w := Fetching(at)])
      case Fetching(at) =>
        if m.arrives then s.(places := s.places[w := Recording(at, true)])
        else s.(failures := s.failures + 1, places := s.places[w := Failing(at)])
      case Failing(at) =>
        s.(dl := s.dl - 1, claimed := s.claimed - {cfg.lists[w][at]}, places := s.places[w := Recording(at, false)])
      case Recording(at, arrived) =>
        s.(dld := s.dld + 1, res := s.res + [cfg.lists[w][at]], places := s.places[w := Booking(at)],
           fetched := if arrived then s.fetched + [cfg.lists[w][at]] else s.fetched)
      case Booking(at) =>
        s.(credit := s.credit + cfg.fragmentSize, places := s.places[w := Looking(at + 1)])
  }

  function Run(cfg: Config, s: State, moves: seq<Move>): (s': State)
    requires Placed(cfg, s)
    ensures Placed(cfg, s')
    decreases moves
  {
    if moves == [] then s else Run(cfg, Step(cfg, s, moves[0]), moves[1..])
  }

  predicate Returned(s: State) {
    forall place <- s.places :: place.Done?
  }

  // ---------- Counting workers ----------

  /** A request counts as under way until its fragment is recorded. */
  predicate UnderWay(place: Place) { place.Fetching? || place.Failing? || place.Recording? }

  function UnderWayCount(places: seq<Place>): nat {
    if places == [] then 0 else UnderWayCount(places[1..]) + if UnderWay(places[0]) then 1 else 0
  }

  function BookingCount(places: seq<Place>): nat {
    if places == [] then 0 else BookingCount(places[1..]) + if places[0].Booking? then 1 else 0
  }

  /** Requests that failed and are not recorded yet. */
  predicate Failed(place: Place) { place.Failing? || (place.Recording? && !place.arrived) }

  function FailedCount(places: seq<Place>): nat {
    if places == [] then 0 else FailedCount(places[1..]) + if Failed(places[0]) then 1 else 0
  }

  lemma {:induction false} CountsUpdate(places: seq<Place>, w: nat, place: Place)
    requires w < |places|
    ensures UnderWayCount(places[w := place]) ==
            UnderWayCount(places) - (if UnderWay(places[w]) then 1 else 0) + if UnderWay(place) then 1 else 0
    ensures BookingCount(places[w := place]) ==
            BookingCount(places) - (if places[w].Booking? then 1 else 0) + if place.Booking? then 1 else 0
    ensures FailedCount(places[w := place]) ==
            FailedCount(places) - (if Failed(places[w]) then 1 else 0) + if Failed(place) then 1 else 0
  {
    if w == 0 {
      assert places[0 := place][1..] == places[1..];
    } else {
      CountsUpdate(places[1..], w - 1, place);
      assert places[w := place][1..] == places[1..][w - 1 := place];
    }
  }

  lemma {:induction false} CountsBounded(places: seq<Place>)
    ensures UnderWayCount(places) <= |places|
    ensures (exists w :: 0 <= w < |places| && !UnderWay(places[w])) ==> UnderWayCount(places) < |places|
    ensures (forall place <- places :: place.Done?) ==> BookingCount(places) == 0
  {
    if places != [] {
      CountsBounded(places[1..]);
      assert places[0] in places;
      if w :| 0 <= w < |places| && !UnderWay(places[w]) {
        if w > 0 {
          assert places[1..][w - 1] == places[w];
        }
      }
    }
  }

  // ---------- The overshoot ----------

  ghost predicate Counted(cfg: Config, s: State) {
    && s.dld == |s.res|
    && (s.dld + UnderWayCount(s.places) == 0 || s.dld + UnderWayCount(s.places) <= cfg.shards - 1 + |cfg.lists|)
  }

  ghost predicate Credited(cfg: Config, s: State) {
    s.credit + BookingCount(s.places) * cfg.fragmentSize == s.dld * cfg.fragmentSize
  }

  lemma StepKeepsCounts(cfg: Config, s: State, m: Move)
    requires Placed(cfg, s) && Counted(cfg, s)
    ensures Counted(cfg, Step(cfg, s, m))
  {
    if m.worker < |s.places| {
      var s', w := Step(cfg, s, m), m.worker;
      CountsUpdate(s.places, w, s'.places[w]);
      CountsBounded(s.places);
      assert s'.places == s.places[w := s'.places[w]];
    }
  }

  lemma StepKeepsCredit(cfg: Config, s: State, m: Move)
    requires Placed(cfg, s) && Credited(cfg, s)
    ensures Credited(cfg, Step(cfg, s, m))
  {
    if m.worker < |s.places| {
      var s', w := Step(cfg, s, m), m.worker;
      CountsUpdate(s.places, w, s'.places[w]);
      assert s'.places == s.places[w := s'.places[w]];
      if s.places[w].Recording? {
        OneMore(s.dld, cfg.fragmentSize);
        OneMore(BookingCount(s.places), cfg.fragmentSize);
      } else if s.places[w].Booking? {
        OneMore(BookingCount(s'.places), cfg.fragmentSize);
      }
    }
  }

  lemma {:induction false} RunKeepsCounts(cfg: Config, s: State, moves: seq<Move>)
    requires Placed(cfg, s) && Counted(cfg, s) && Credited(cfg, s)
    ensures Counted(cfg, Run(cfg, s, moves)) && Credited(cfg, Run(cfg, s, moves))
    decreases moves
  {
    if moves != [] {
      StepKeepsCounts(cfg, s, moves[0]);
      StepKeepsCredit(cfg, s, moves[0]);
      RunKeepsCounts(cfg, Step(cfg, s, moves[0]), moves[1..]);
    }
  }

  lemma {:induction false} NothingCounted(places: seq<Place>)
    requires forall place <- places :: place.Head?
    ensures UnderWayCount(places) == 0 && BookingCount(places) == 0 && FailedCount(places) == 0
  {
    if places != [] {
      NothingCounted(places[1..]);
      assert places[0] in places;
    }
  }

  /** Bounded overshoot: in every interleaving at most one fragment for each worker but the last is fetched beyond
      the ones needed, and when all workers have returned every recorded fragment has been credited. */
  lemma OvershootIsBounded(cfg: Config, moves: seq<Move>)
    requires cfg.shards > 0
    ensures var s := Run(cfg, Initial(cfg), moves);
            && s.dld == |s.res|
            && (s.res == [] || |s.res| <= cfg.shards - 1 + |cfg.lists|)
            && (Returned(s) ==> s.credit == |s.res| * cfg.fragmentSize)
  {
    var s := Run(cfg, Initial(cfg), moves);
    NothingCounted(Initial(cfg).places);
    RunKeepsCounts(cfg, Initial(cfg), moves);
    if Returned(s) {
      CountsBounded(s.places);
      assert 0 * cfg.fragmentSize == 0;
    }
  }

  // ---------- The overshoot does not grow with the number of workers ----------

  predicate Inside(place: Place) { !place.Head? && !place.Done? }

  function InsideCount(places: seq<Place>): nat {
    if places == [] then 0 else InsideCount(places[1..]) + if Inside(places[0]) then 1 else 0
  }

  function FailingCount(places: seq<Place>): nat {
    if places == [] then 0 else FailingCount(places[1..]) + if places[0].Failing? then 1 else 0
  }

  lemma {:induction false} InsideUpdate(places: seq<Place>, w: nat, place: Place)
    requires w < |places|
    ensures InsideCount(places[w := place]) ==
            InsideCount(places) - (if Inside(places[w]) then 1 else 0) + if Inside(place) then 1 else 0
    ensures FailingCount(places[w := place]) ==
            FailingCount(places) - (if places[w].Failing? then 1 else 0) + if place.Failing? then 1 else 0
  {
    if w == 0 {
      assert places[0 := place][1..] == places[1..];
    } else {
      InsideUpdate(places[1..], w - 1, place);
      assert places[w := place][1..] == places[1..][w - 1 := place];
    }
  }

  lemma {:induction false} UnderWayIsInside(places: seq<Place>)
    ensures UnderWayCount(places) <= InsideCount(places)
    ensures (forall place <- places :: place.Head?) ==> InsideCount(places) == FailingCount(places) == 0
  {
    if places != [] {
      UnderWayIsInside(places[1..]);
      assert places[0] in places;
    }
  }

  /** A worker enters its list only by starting a round, and at most `shards` rounds are open, failures aside. */
  ghost predicate Rounds(cfg: Config, s: State) {
    s.dl <= cfg.shards && InsideCount(s.places) + FailingCount(s.places) <= s.dl + s.failures
  }

  ghost predicate FewExtra(cfg: Config, s: State) {
    s.dld + UnderWayCount(s.places) == 0 || s.dld + UnderWayCount(s.places) <= 2 * cfg.shards - 1 + s.failures
  }

  lemma StepKeepsRounds(cfg: Config, s: State, m: Move)
    requires Placed(cfg, s) && Rounds(cfg, s)
    ensures Rounds(cfg, Step(cfg, s, m))
  {
    if m.worker < |s.places| {
      var s', w := Step(cfg, s, m), m.worker;
      InsideUpdate(s.places, w, s'.places[w]);
      assert s'.places == s.places[w := s'.places[w]];
    }
  }

  lemma StepKeepsFewExtra(cfg: Config, s: State, m: Move)
    requires Placed(cfg, s) && FewExtra(cfg, s) && Rounds(cfg, Step(cfg, s, m))
    ensures FewExtra(cfg, Step(cfg, s, m))
  {
    if m.worker < |s.places| {
      var s', w := Step(cfg, s, m), m.worker;
      CountsUpdate(s.places, w, s'.places[w]);
      UnderWayIsInside(s'.places);
      assert s'.places == s.places[w := s'.places[w]];
    }
  }

  lemma {:induction false} RunKeepsRounds(cfg: Config, s: State, moves: seq<Move>)
    requires Placed(cfg, s) && Rounds(cfg, s) && FewExtra(cfg, s)
    ensures FewExtra(cfg, Run(cfg, s, moves))
    decreases moves
  {
    if moves != [] {
      StepKeepsRounds(cfg, s, moves[0]);
      StepKeepsFewExtra(cfg, s, moves[0]);
      RunKeepsRounds(cfg, Step(cfg, s, moves[0]), moves[1..]);
    }
  }

  /** However many workers there are, a run without failures fetches fewer than twice the fragments needed, and each
      failure allows at most one more. */
  lemma OvershootWithoutFailures(cfg: Config, moves: seq<Move>)
    requires cfg.shards > 0
    ensures |Run(cfg, Initial(cfg), moves).res| <= 2 * cfg.shards - 1 + Run(cfg, Initial(cfg), moves).failures
  {
    NothingCounted(Initial(cfg).places);
    UnderWayIsInside(Initial(cfg).places);
    RunKeepsRounds(cfg, Initial(cfg), moves);
    RunKeepsCounts(cfg, Initial(cfg), moves);
  }

  // ---------- Who fetches what ----------

  /** The worker has claimed its fragment and has not given it back. */
  predicate Holds(place: Place) { place.Fetching? || place.Failing? || (place.Recording? && place.arrived) }

  function Held(cfg: Config, s: State, w: nat): string
    requires Placed(cfg, s) && w < |s.places| && Holds(s.places[w])
  {
    cfg.lists[w][s.places[w].at]
  }

  /** Held fragments are claimed, by one worker each, and have not arrived before; no fragment arrives twice. */
  ghost predicate Exclusive(cfg: Config, s: State)
    requires Placed(cfg, s)
  {
    && (forall w: nat :: w < |s.places| && Holds(s.places[w]) ==>
          Held(cfg, s, w) in s.claimed && Held(cfg, s, w) !in s.fetched)
    && (forall v: nat, w: nat :: v < w < |s.places| && Holds(s.places[v]) && Holds(s.places[w]) ==>
          Held(cfg, s, v) != Held(cfg, s, w))
    && (forall name <- s.fetched :: name in s.claimed)
    && Distinct(s.fetched)
  }

  lemma StepKeepsExclusive(cfg: Config, s: State, m: Move)
    requires Placed(cfg, s) && Exclusive(cfg, s)
    ensures Exclusive(cfg, Step(cfg, s, m))
  {
    if m.worker < |s.places| {
      var s', w := Step(cfg, s, m), m.worker;
      forall v: nat | v < |s.places| && v != w && Holds(s.places[v])
        ensures s'.places[v] == s.places[v]
        ensures Holds(s.places[w]) ==> Held(cfg, s, v) != Held(cfg, s, w)
      {
        if Holds(s.places[w]) {
          if v < w { assert Held(cfg, s, v) != Held(cfg, s, w); } else { assert Held(cfg, s, w) != Held(cfg, s, v); }
        }
      }
    }
  }

  /** Recorded fragments either arrived or belong to a failed request. */
  ghost predicate Balanced(cfg: Config, s: State)
    requires Placed(cfg, s)
  {
    && |s.res| + FailedCount(s.places) == |s.fetched| + s.failures
    && (s.failures == 0 ==> s.res == s.fetched)
    && (forall name <- s.fetched :: name in AllFragments(cfg.lists))
    && ((exists place <- s.places :: place.Done?) ==> s.dld >= cfg.shards)
  }

  function AllFragments(lists: seq<seq<string>>): set<string> {
    if lists == [] then {} else (set name <- lists[0]) + AllFragments(lists[1..])
  }

  lemma {:induction false} ListedFragment(lists: seq<seq<string>>, w: nat, at: nat)
    requires w < |lists| && at < |lists[w]|
    ensures lists[w][at] in AllFragments(lists)
  {
    if w > 0 {
      ListedFragment(lists[1..], w - 1, at);
    }
  }

  lemma StepKeepsBalance(cfg: Config, s: State, m: Move)
    requires Placed(cfg, s) && Balanced(cfg, s)
    ensures Balanced(cfg, Step(cfg, s, m))
  {
    if m.worker < |s.places| {
      var s', w := Step(cfg, s, m), m.worker;
      CountsUpdate(s.places, w, s'.places[w]);
      assert s'.places == s.places[w := s'.places[w]];
      if s.places[w].Recording? {
        ListedFragment(cfg.lists, w, s.places[w].at);
      }
      forall place | place in s'.places && place.Done?
        ensures s'.dld >= cfg.shards
      {
        if place != s'.places[w] {
          assert place in s.places;
        }
      }
    }
  }

  lemma {:induction false} RunKeepsBalance(cfg: Config, s: State, moves: seq<Move>)
    requires Placed(cfg, s) && Balanced(cfg, s) && Exclusive(cfg, s)
    ensures Balanced(cfg, Run(cfg, s, moves)) && Exclusive(cfg, Run(cfg, s, moves))
    decreases moves
  {
    if moves != [] {
      StepKeepsBalance(cfg, s, moves[0]);
      StepKeepsExclusive(cfg, s, moves[0]);
      RunKeepsBalance(cfg, Step(cfg, s, moves[0]), moves[1..]);
    }
  }

  lemma FromInitial(cfg: Config, moves: seq<Move>)
    ensures var s := Run(cfg, Initial(cfg), moves);
            Balanced(cfg, s) && Exclusive(cfg, s)
  {
    NothingCounted(Initial(cfg).places);
    RunKeepsBalance(cfg, Initial(cfg), moves);
  }

  /** No fragment is being fetched by two workers at once, in any interleaving and with any failures. */
  lemma FetchesAreExclusive(cfg: Config, moves: seq<Move>, v: nat, w: nat)
    requires v < w < |cfg.lists|
    requires var places := Run(cfg, Initial(cfg), moves).places;
             places[v].Fetching? && places[w].Fetching?
    ensures var places := Run(cfg, Initial(cfg), moves).places;
            cfg.lists[v][places[v].at] != cfg.lists[w][places[w].at]
  {
    FromInitial(cfg, moves);
    var s := Run(cfg, Initial(cfg), moves);
    assert Held(cfg, s, v) != Held(cfg, s, w);
  }

  /** Failed requests are recorded like the others. The result holds at least as many different fragments that did
      arrive as its length less the failures; without failures, its fragments are all different. */
  lemma ResultsLessFailures(cfg: Config, moves: seq<Move>)
    ensures var s := Run(cfg, Initial(cfg), moves);
            && Distinct(s.fetched) && |s.fetched| >= |s.res| - s.failures
            && (s.failures == 0 ==> Distinct(s.res))
  {
    FromInitial(cfg, moves);
  }

  lemma {:induction false} DistinctCount(names: seq<string>, all: set<string>)
    requires Distinct(names) && forall name <- names :: name in all
    ensures |names| <= |all|
  {
    if names != [] {
      var rest, last := names[..|names| - 1], names[|names| - 1];
      DistinctCount(rest, all - {last});
    }
  }

  /** The call returns only when the fragments offered, each counted once, together with the failed requests reach
      the number needed. In particular, without failures it never returns when the nodes offer too few fragments. */
  lemma ReturnsOnlyIf(cfg: Config, moves: seq<Move>)
    requires cfg.lists != [] && Returned(Run(cfg, Initial(cfg), moves))
    ensures cfg.shards <= |AllFragments(cfg.lists)| + Run(cfg, Initial(cfg), moves).failures
  {
    var s := Run(cfg, Initial(cfg), moves);
    FromInitial(cfg, moves);
    NothingCounted(Initial(cfg).places);
    RunKeepsCounts(cfg, Initial(cfg), moves);
    assert s.places[0] in s.places;
    DistinctCount(s.fetched, AllFragments(cfg.lists));
  }

  /** Every round has been started, too few fragments are recorded, and every worker waits for another round. */
  predicate Jammed(cfg: Config, s: State) {
    s.dld < cfg.shards <= s.dl && forall place <- s.places :: place.Head?
  }

  /** From then on no worker moves again. */
  lemma {:induction false} StuckForever(cfg: Config, s: State, moves: seq<Move>)
    requires Placed(cfg, s) && Jammed(cfg, s)
    ensures Run(cfg, s, moves) == s
  {
    if moves != [] {
      assert Step(cfg, s, moves[0]) == s by {
        if moves[0].worker < |s.places| {
          assert s.places[moves[0].worker] in s.places;
        }
      }
      StuckForever(cfg, s, moves[1..]);
    }
  }

  /** Copying a full fragment from a cache node always reports an error when its size is a multiple of 1024. Every
      request is then a failure, so that nothing recorded has arrived as far as the workers know. */
  lemma FullFragmentsNeverArrive(cfg: Config, moves: seq<Move>)
    requires cfg.fragmentSize % 1024 == 0
    requires forall m <- moves :: m.arrives ==> CopySucceeds(cfg.fragmentSize)
    ensures var s := Run(cfg, Initial(cfg), moves);
            s.fetched == [] && |s.res| + FailedCount(s.places) == s.failures
  {
    FromInitial(cfg, moves);
    NoneArrive(cfg, Initial(cfg), moves);
  }

  lemma {:induction false} NoneArrive(cfg: Config, s: State, moves: seq<Move>)
    requires Placed(cfg, s) && s.fetched == []
    requires forall m <- moves :: !m.arrives
    requires forall place <- s.places :: place.Recording? ==> !place.arrived
    ensures Run(cfg, s, moves).fetched == []
    decreases moves
  {
    if moves != [] {
      var s', w := Step(cfg, s, moves[0]), moves[0].worker;
      assert !moves[0].arrives;
      forall place | place in s'.places && place.Recording? ensures !place.arrived {
        if w < |s.places| && place != s'.places[w] {
          assert place in s.places;
        }
      }
      NoneArrive(cfg, s', moves[1..]);
    }
  }
}
