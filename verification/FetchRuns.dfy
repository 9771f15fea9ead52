/** Runs of the parallel fetch that do happen: which configurations can record a fragment twice, which can return
    without a failure, and which can get stuck. */
module FetchRuns {
  import opened Common
  import opened ParallelFetch

  function Names(list: seq<string>): set<string> { set name <- list }

  lemma {:induction false} RunAppend(cfg: Config, s: State, first: seq<Move>, second: seq<Move>)
    requires Placed(cfg, s)
    ensures Run(cfg, s, first + second) == Run(cfg, Run(cfg, s, first), second)
    decreases first
  {
    if first == [] {
      assert first + second == second;
    } else {
      assert (first + second)[1..] == first[1..] + second;
      RunAppend(cfg, Step(cfg, s, first[0]), first[1..], second);
    }
  }

  // ---------- One worker passing over its list ----------

  /** The worker is about to examine place `at` of its list and will not stop there. */
  predicate At(cfg: Config, s: State, w: nat, at: nat) {
    Placed(cfg, s) && w < |s.places| && s.places[w] == Looking(at) && at < |cfg.lists[w]| && s.dld < cfg.shards
  }

  function Recorded(cfg: Config, s: State, w: nat, at: nat, arrived: bool): State
    requires w < |s.places| && w < |cfg.lists| && at < |cfg.lists[w]|
  {
    s.(dld := s.dld + 1, res := s.res + [cfg.lists[w][at]], credit := s.credit + cfg.fragmentSize,
       places := s.places[w := Looking(at + 1)],
       fetched := if arrived then s.fetched + [cfg.lists[w][at]] else s.fetched)
  }

  /** Recording and booking. */
  lemma RecordRuns(cfg: Config, s: State, w: nat, at: nat, arrived: bool)
    requires Placed(cfg, s) && w < |s.places| && s.places[w] == Recording(at, arrived)
    ensures Run(cfg, s, [Move(w, true), Move(w, true)]) == Recorded(cfg, s, w, at, arrived)
  {
    var s1 := Step(cfg, s, Move(w, true));
    var s2 := Step(cfg, s1, Move(w, true));
    assert [Move(w, true), Move(w, true)][1..] == [Move(w, true)] && [Move(w, true)][1..] == [];
    assert s2.places == s.places[w := Looking(at + 1)];
    assert Run(cfg, s1, [Move(w, true)]) == Run(cfg, s2, []) == s2;
  }

  /** A fragment that nobody has claimed arrives and is recorded. */
  lemma VisitArrives(cfg: Config, s: State, w: nat, at: nat) returns (moves: seq<Move>)
    requires At(cfg, s, w, at) && cfg.lists[w][at] !in s.claimed
    ensures Run(cfg, s, moves) == Recorded(cfg, s, w, at, true).(claimed := s.claimed + {cfg.lists[w][at]})
  {
    var first := [Move(w, true), Move(w, true)];
    var s1 := Step(cfg, s, Move(w, true));
    var s2 := Step(cfg, s1, Move(w, true));
    assert first[1..] == [Move(w, true)] && first[1..][1..] == [];
    assert Run(cfg, s, first) == Run(cfg, s1, first[1..]) == s2;
    RecordRuns(cfg, s2, w, at, true);
    assert s2.places[w := Looking(at + 1)] == s.places[w := Looking(at + 1)];
    moves := first + [Move(w, true), Move(w, true)];
    RunAppend(cfg, s, first, [Move(w, true), Move(w, true)]);
  }

  /** Its request fails, and it is given back but not yet recorded. */
  lemma VisitFails(cfg: Config, s: State, w: nat, at: nat) returns (moves: seq<Move>)
    requires At(cfg, s, w, at) && cfg.lists[w][at] !in s.claimed
    ensures Run(cfg, s, moves)
         == s.(dl := s.dl - 1, failures := s.failures + 1, places := s.places[w := Recording(at, false)])
  {
    moves := [Move(w, false), Move(w, false), Move(w, false)];
    var s1 := Step(cfg, s, Move(w, false));
    var s2 := Step(cfg, s1, Move(w, false));
    var s3 := Step(cfg, s2, Move(w, false));
    assert moves[1..] == [Move(w, false), Move(w, false)] && moves[1..][1..] == [Move(w, false)];
    assert moves[1..][1..][1..] == [];
    assert s3.claimed == s.claimed && s3.places == s.places[w := Recording(at, false)];
    assert Run(cfg, s, moves) == Run(cfg, s1, moves[1..]) == Run(cfg, s2, moves[1..][1..]) == Run(cfg, s3, []);
  }

  lemma OneMove(cfg: Config, s: State, m: Move)
    requires Placed(cfg, s)
    ensures Run(cfg, s, [m]) == Step(cfg, s, m)
  {
    assert [m][1..] == [];
  }

  /** What passing over places at..to of its list without failures does: the names not claimed before are recorded. */
  ghost predicate Passed(cfg: Config, s: State, s': State, w: nat, at: nat, to: nat)
    requires w < |s.places| && w < |cfg.lists| && at <= to <= |cfg.lists[w]|
  {
    && s'.places == s.places[w := Looking(to)]
    && s'.claimed == s.claimed + Names(cfg.lists[w][at..to])
    && s'.dld - |s'.claimed| == s.dld - |s.claimed|
    && s'.dl == s.dl && s'.failures == s.failures
    && s.res <= s'.res
    && forall name :: name in s'.claimed && name !in s.claimed ==> name in s'.res[|s.res|..]
  }

  lemma NamesStep(list: seq<string>, at: nat, to: nat, claimed: set<string>)
    requires at < to <= |list|
    ensures Names(list[at..to]) == {list[at]} + Names(list[at + 1..to])
    ensures |Names(list[at..to]) - claimed| ==
            |Names(list[at + 1..to]) - (claimed + {list[at]})| + if list[at] in claimed then 0 else 1
  {
    assert list[at..to] == [list[at]] + list[at + 1..to];
    var rest := Names(list[at + 1..to]) - (claimed + {list[at]});
    if list[at] in claimed {
      assert Names(list[at..to]) - claimed == rest;
    } else {
      assert Names(list[at..to]) - claimed == rest + {list[at]};
    }
  }

  /** Passing over the list as long as fewer than `shards` are recorded in the end. */
  lemma {:induction false} Walk(cfg: Config, s: State, w: nat, at: nat, to: nat) returns (moves: seq<Move>)
    requires Placed(cfg, s) && w < |s.places| && s.places[w] == Looking(at) && at <= to <= |cfg.lists[w]|
    requires s.dld + |Names(cfg.lists[w][at..to]) - s.claimed| < cfg.shards
    ensures Passed(cfg, s, Run(cfg, s, moves), w, at, to)
    decreases |cfg.lists[w]| - at
  {
    var list := cfg.lists[w];
    if at == to {
      moves := [];
      assert list[at..to] == [] && s.places[w := Looking(to)] == s.places;
    } else {
      NamesStep(list, at, to, s.claimed);
      var first := PassOne(cfg, s, w, at);
      var middle := Run(cfg, s, first);
      assert middle.claimed == s.claimed + {list[at]};
      var rest := Walk(cfg, middle, w, at + 1, to);
      moves := first + rest;
      RunAppend(cfg, s, first, rest);
      PassedTwice(cfg, s, middle, Run(cfg, middle, rest), w, at, to);
    }
  }

  lemma PassOne(cfg: Config, s: State, w: nat, at: nat) returns (moves: seq<Move>)
    requires At(cfg, s, w, at)
    ensures Passed(cfg, s, Run(cfg, s, moves), w, at, at + 1)
    ensures Run(cfg, s, moves).claimed == s.claimed + {cfg.lists[w][at]}
    ensures Run(cfg, s, moves).dld == s.dld + if cfg.lists[w][at] in s.claimed then 0 else 1
  {
    assert cfg.lists[w][at..at + 1] == [cfg.lists[w][at]];
    if cfg.lists[w][at] in s.claimed {
      moves := [Move(w, true)];
      OneMove(cfg, s, Move(w, true));
      assert s.claimed + {cfg.lists[w][at]} == s.claimed;
    } else {
      moves := VisitArrives(cfg, s, w, at);
    }
  }

  lemma PassedTwice(cfg: Config, s: State, middle: State, s': State, w: nat, at: nat, to: nat)
    requires w < |s.places| && w < |cfg.lists| && at < to <= |cfg.lists[w]|
    requires Passed(cfg, s, middle, w, at, at + 1) && w < |middle.places| && Passed(cfg, middle, s', w, at + 1, to)
    ensures Passed(cfg, s, s', w, at, to)
  {
    assert cfg.lists[w][at..to] == cfg.lists[w][at..at + 1] + cfg.lists[w][at + 1..to];
    assert s'.res[|s.res|..] == middle.res[|s.res|..] + s'.res[|middle.res|..];
  }

  // ---------- A fragment recorded twice ----------

  lemma Repeated(first: seq<string>, second: seq<string>, name: string)
    requires first <= second && name in first && name in second[|first|..]
    ensures !Distinct(second)
  {
    var i :| 0 <= i < |first| && first[i] == name;
    var j :| 0 <= j < |second| - |first| && second[|first|..][j] == name;
    assert second[i] == second[|first| + j];
  }

  lemma {:induction false} Occurs(list: seq<string>, name: string) returns (at: nat)
    requires name in list
    ensures at < |list| && list[at] == name && name !in list[..at]
  {
    if list[0] == name {
      at := 0;
    } else {
      at := Occurs(list[1..], name);
      at := at + 1;
      assert list[..at] == [list[0]] + list[1..][..at - 1];
    }
  }

  /** Starting a round. */
  lemma Enter(cfg: Config, s: State, w: nat)
    requires Placed(cfg, s) && w < |s.places| && s.places[w].Head? && s.dld < cfg.shards && s.dl < cfg.shards
    ensures Run(cfg, s, [Move(w, true)]) == s.(dl := s.dl + 1, places := s.places[w := Looking(0)])
  {
    OneMove(cfg, s, Move(w, true));
  }

  /** A new round up to a place of the list. */
  lemma EnterAndWalk(cfg: Config, s: State, w: nat, to: nat) returns (moves: seq<Move>)
    requires Placed(cfg, s) && w < |s.places| && s.places[w].Head? && to <= |cfg.lists[w]| && s.dl < cfg.shards
    requires s.dld + |Names(cfg.lists[w][..to]) - s.claimed| < cfg.shards
    ensures Passed(cfg, s.(dl := s.dl + 1), Run(cfg, s, moves), w, 0, to)
  {
    Enter(cfg, s, w);
    var s1 := Run(cfg, s, [Move(w, true)]);
    assert cfg.lists[w][0..to] == cfg.lists[w][..to];
    var rest := Walk(cfg, s1, w, 0, to);
    moves := [Move(w, true)] + rest;
    RunAppend(cfg, s, [Move(w, true)], rest);
    assert s1.places[w := Looking(to)] == s.places[w := Looking(to)];
  }

  /** The first request for the fragment at place `at` fails, and its node is about to record it. */
  lemma FailFirst(cfg: Config, w: nat, at: nat) returns (moves: seq<Move>)
    requires w < |cfg.lists| && at < |cfg.lists[w]| && cfg.lists[w][at] !in cfg.lists[w][..at]
    requires |Names(cfg.lists[w][..at])| < cfg.shards
    ensures var s, s' := Initial(cfg), Run(cfg, Initial(cfg), moves);
            && s'.places == s.places[w := Recording(at, false)] && s'.claimed == Names(cfg.lists[w][..at])
            && s'.dld == |s'.claimed| && s'.dl == 0 && s'.failures == 1
  {
    var s := Initial(cfg);
    assert Names(cfg.lists[w][..at]) - s.claimed == Names(cfg.lists[w][..at]);
    assert cfg.lists[w][0..at] == cfg.lists[w][..at];
    var first := EnterAndWalk(cfg, s, w, at);
    var s1 := Run(cfg, s, first);
    var second := VisitFails(cfg, s1, w, at);
    moves := first + second;
    RunAppend(cfg, s, first, second);
    assert s1.places[w := Recording(at, false)] == s.places[w := Recording(at, false)];
  }

  /** Asking again for a fragment that was recorded as failed records it twice. */
  lemma Again(cfg: Config, s: State, w: nat, at: nat) returns (moves: seq<Move>)
    requires At(cfg, s, w, at) && cfg.lists[w][at] !in s.claimed && cfg.lists[w][at] in s.res
    ensures !Distinct(Run(cfg, s, moves).res) && Run(cfg, s, moves).failures == s.failures
  {
    moves := VisitArrives(cfg, s, w, at);
    Repeated(s.res, Run(cfg, s, moves).res, cfg.lists[w][at]);
  }

  lemma SmallerWithout(part: set<string>, name: string, all: set<string>)
    requires part <= all && name in all && name !in part
    ensures |part| < |all|
  {
    assert all == part + (all - part - {name}) + {name};
  }

  lemma NamesOfPart(list: seq<string>, from: nat, to: nat)
    requires from <= to <= |list|
    ensures Names(list[from..to]) <= Names(list)
  {
  }

  /** What is still to be recorded of places from..to when `claimed` is, and one failure was. */
  lemma RoomLeft(list: seq<string>, at: nat, to: nat, claimed: set<string>, shards: nat)
    requires at < to <= |list| && claimed == Names(list[..at]) && |Names(list)| < shards
    requires list[at] !in list[..at] && list[at] !in list[at + 1..to]
    ensures |claimed| + 1 + |Names(list[at + 1..to]) - claimed| < shards
    ensures claimed + Names(list[at + 1..to]) <= Names(list) - {list[at]}
    ensures |claimed + Names(list[at + 1..to])| < |Names(list)|
  {
    NamesOfPart(list, 0, at);
    NamesOfPart(list, at + 1, to);
    assert list[0..at] == list[..at];
    var later := Names(list[at + 1..to]);
    SmallerWithout(claimed + later, list[at], Names(list));
    assert claimed + later == claimed + (later - claimed);
  }

  /** One node is enough: when it lists fewer different fragments than are needed, any of them can be recorded twice
      after failing once. */
  lemma RetryRepeats(cfg: Config, w: nat, name: string) returns (moves: seq<Move>)
    requires w < |cfg.lists| && name in cfg.lists[w] && |Names(cfg.lists[w])| < cfg.shards
    ensures var s := Run(cfg, Initial(cfg), moves);
            s.failures == 1 && !Distinct(s.res)
  {
    var list := cfg.lists[w];
    var at := Occurs(list, name);
    assert list[0..at] == list[..at];
    NamesOfPart(list, 0, at);
    SmallerWithout(Names(list[..at]), name, Names(list));
    var fail := FailFirst(cfg, w, at);
    var s1 := Run(cfg, Initial(cfg), fail);
    RecordRuns(cfg, s1, w, at, false);
    var record := [Move(w, true), Move(w, true)];
    RunAppend(cfg, Initial(cfg), fail, record);
    var rest := Retry(cfg, Run(cfg, s1, record), w, at);
    RunAppend(cfg, Initial(cfg), fail + record, rest);
    moves := fail + record + rest;
  }

  lemma Retry(cfg: Config, s: State, w: nat, at: nat) returns (moves: seq<Move>)
    requires Placed(cfg, s) && w < |s.places| && at < |cfg.lists[w]| && s.places[w] == Looking(at + 1)
    requires |Names(cfg.lists[w])| < cfg.shards && cfg.lists[w][at] !in cfg.lists[w][..at]
    requires s.claimed == Names(cfg.lists[w][..at]) && s.dld == |s.claimed| + 1 && s.dl == 0
    requires cfg.lists[w][at] in s.res
    ensures !Distinct(Run(cfg, s, moves).res) && Run(cfg, s, moves).failures == s.failures
  {
    var list := cfg.lists[w];
    var to := |list|;
    if list[at] in list[at + 1..] {
      var k := Occurs(list[at + 1..], list[at]);
      to := at + 1 + k;
      assert list[at + 1..][..k] == list[at + 1..to];
    } else {
      assert list[at + 1..] == list[at + 1..to];
    }
    var walk := WalkPast(cfg, s, w, at, to);
    var rest;
    if to < |list| {
      rest := Again(cfg, Run(cfg, s, walk), w, to);
    } else {
      rest := NextRound(cfg, Run(cfg, s, walk), w, at);
    }
    moves := walk + rest;
    RunAppend(cfg, s, walk, rest);
  }

  lemma WalkPast(cfg: Config, s: State, w: nat, at: nat, to: nat) returns (moves: seq<Move>)
    requires Placed(cfg, s) && w < |s.places| && at < to <= |cfg.lists[w]| && s.places[w] == Looking(at + 1)
    requires |Names(cfg.lists[w])| < cfg.shards && cfg.lists[w][at] !in cfg.lists[w][..at]
    requires cfg.lists[w][at] !in cfg.lists[w][at + 1..to]
    requires s.claimed == Names(cfg.lists[w][..at]) && s.dld == |s.claimed| + 1
    requires cfg.lists[w][at] in s.res
    ensures var s' := Run(cfg, s, moves);
            && s'.places == s.places[w := Looking(to)] && s'.dl == s.dl && s'.failures == s.failures
            && s'.dld < cfg.shards && s.claimed <= s'.claimed
            && cfg.lists[w][at] !in s'.claimed && cfg.lists[w][at] in s'.res
  {
    RoomLeft(cfg.lists[w], at, to, s.claimed, cfg.shards);
    moves := Walk(cfg, s, w, at + 1, to);
  }

  /** Back at the head, the next round skips everything before the fragment that was given back. */
  lemma NextRound(cfg: Config, s: State, w: nat, at: nat) returns (moves: seq<Move>)
    requires Placed(cfg, s) && w < |s.places| && at < |cfg.lists[w]| && s.places[w] == Looking(|cfg.lists[w]|)
    requires s.dld < cfg.shards && s.dl == 0
    requires Names(cfg.lists[w][..at]) <= s.claimed && cfg.lists[w][at] !in s.claimed && cfg.lists[w][at] in s.res
    ensures !Distinct(Run(cfg, s, moves).res) && Run(cfg, s, moves).failures == s.failures
  {
    OneMove(cfg, s, Move(w, true));
    var s1 := Run(cfg, s, [Move(w, true)]);
    assert Names(cfg.lists[w][..at]) - s1.claimed == {};
    var walk := EnterAndWalk(cfg, s1, w, at);
    var s2 := Run(cfg, s1, walk);
    assert cfg.lists[w][0..at] == cfg.lists[w][..at];
    assert s2.claimed == s1.claimed;
    var again := Again(cfg, s2, w, at);
    RunAppend(cfg, s1, walk, again);
    moves := [Move(w, true)] + (walk + again);
    RunAppend(cfg, s, [Move(w, true)], walk + again);
  }

  /** Two nodes that list the same fragment: one of them fails it and the other asks for it again. */
  lemma SecondNodeRepeats(cfg: Config, w: nat, v: nat, p: nat, q: nat) returns (moves: seq<Move>)
    requires w < |cfg.lists| && v < |cfg.lists| && v != w && SharesEarly(cfg, w, v, p, q)
    ensures var s := Run(cfg, Initial(cfg), moves);
            s.failures == 1 && !Distinct(s.res)
  {
    var mine, theirs := Names(cfg.lists[w][..p]), Names(cfg.lists[v][..q]);
    assert mine + theirs == mine + (theirs - mine);
    var fail := FailFirst(cfg, w, p);
    var s1 := Run(cfg, Initial(cfg), fail);
    var walk := EnterAndWalk(cfg, s1, v, q);
    var s2 := Run(cfg, s1, walk);
    assert cfg.lists[v][0..q] == cfg.lists[v][..q];
    assert s2.claimed == mine + theirs;
    var visit := VisitArrives(cfg, s2, v, q);
    var s3 := Run(cfg, s2, visit);
    RecordRuns(cfg, s3, w, p, false);
    var record := [Move(w, true), Move(w, true)];
    Repeated(s3.res, Run(cfg, s3, record).res, cfg.lists[w][p]);
    RunAppend(cfg, Initial(cfg), fail, walk);
    RunAppend(cfg, Initial(cfg), fail + walk, visit);
    RunAppend(cfg, Initial(cfg), fail + walk + visit, record);
    moves := fail + walk + visit + record;
  }

  /** Both nodes list the same fragment, with fewer different fragments before it than are needed. */
  predicate SharesEarly(cfg: Config, w: nat, v: nat, p: nat, q: nat)
    requires w < |cfg.lists| && v < |cfg.lists|
  {
    && p < |cfg.lists[w]| && q < |cfg.lists[v]| && cfg.lists[w][p] == cfg.lists[v][q]
    && cfg.lists[w][p] !in cfg.lists[w][..p] && cfg.lists[v][q] !in cfg.lists[v][..q]
    && |Names(cfg.lists[w][..p]) + Names(cfg.lists[v][..q])| < cfg.shards
  }

  ghost predicate CanRepeat(cfg: Config) {
    || (exists w: nat | w < |cfg.lists| :: cfg.lists[w] != [] && |Names(cfg.lists[w])| < cfg.shards)
    || (exists w: nat, v: nat, p: nat, q: nat | w < |cfg.lists| && v < |cfg.lists| ::
          v != w && SharesEarly(cfg, w, v, p, q))
  }

  ghost predicate RecordsOnce(cfg: Config, moves: seq<Move>, failures: nat) {
    Run(cfg, Initial(cfg), moves).failures <= failures ==> Distinct(Run(cfg, Initial(cfg), moves).res)
  }

  /** When a node lists something but fewer fragments than are needed, or two nodes list the same fragment early
      enough, one failure is enough to record a fragment twice: all runs with at most that many failures record
      different fragments exactly when that many is none. */
  lemma RecordsOnceIff(cfg: Config, failures: nat)
    requires CanRepeat(cfg)
    ensures (forall moves :: RecordsOnce(cfg, moves, failures)) <==> failures == 0
  {
    if failures == 0 {
      forall moves ensures RecordsOnce(cfg, moves, failures) {
        ResultsLessFailures(cfg, moves);
      }
    } else if w: nat :| w < |cfg.lists| && cfg.lists[w] != [] && |Names(cfg.lists[w])| < cfg.shards {
      var moves := RetryRepeats(cfg, w, cfg.lists[w][0]);
      assert !RecordsOnce(cfg, moves, failures);
    } else {
      var w: nat, v: nat, p: nat, q: nat :|
        w < |cfg.lists| && v < |cfg.lists| && v != w && SharesEarly(cfg, w, v, p, q);
      var moves := SecondNodeRepeats(cfg, w, v, p, q);
      assert !RecordsOnce(cfg, moves, failures);
    }
  }

  // ---------- A single node, exactly ----------

  /** A single node in its first round has recorded the beginning of its list, or the rounds are over. */
  ghost predicate FirstRound(cfg: Config, s: State)
    requires |cfg.lists| == 1 && Placed(cfg, s)
  {
    var list, done := cfg.lists[0], |s.res|;
    && s.dld == done <= |list| && s.res == list[..done]
    && match s.places[0]
       case Head => (done == 0 && s.claimed == {}) || done >= cfg.shards
       case Looking(at) => at == done && s.claimed <= Names(list[..at])
       case Fetching(at) => at == done && s.claimed <= Names(list[..at + 1])
       case Failing(at) => at == done && s.claimed <= Names(list[..at + 1])
       case Recording(at, _) => at == done && s.claimed <= Names(list[..at + 1])
       case Booking(at) => at + 1 == done && s.claimed <= Names(list[..at + 1])
       case Done => true
  }

  lemma PrefixNames(list: seq<string>, at: nat)
    requires at < |list| && Distinct(list)
    ensures list[..at + 1] == list[..at] + [list[at]] && list[at] !in Names(list[..at])
    ensures Names(list[..at + 1]) == Names(list[..at]) + {list[at]}
  {
    assert list[..at + 1] == list[..at] + [list[at]];
  }

  lemma StepKeepsFirstRound(cfg: Config, s: State, m: Move)
    requires |cfg.lists| == 1 && Placed(cfg, s) && FirstRound(cfg, s)
    requires Distinct(cfg.lists[0]) && (cfg.lists[0] == [] || |cfg.lists[0]| >= cfg.shards)
    ensures FirstRound(cfg, Step(cfg, s, m))
  {
    if m.worker == 0 {
      match s.places[0]
      case Looking(at) => if at < |cfg.lists[0]| { PrefixNames(cfg.lists[0], at); }
      case Recording(at, _) => PrefixNames(cfg.lists[0], at);
      case _ =>
    }
  }

  lemma {:induction false} RunKeepsFirstRound(cfg: Config, s: State, moves: seq<Move>)
    requires |cfg.lists| == 1 && Placed(cfg, s) && FirstRound(cfg, s)
    requires Distinct(cfg.lists[0]) && (cfg.lists[0] == [] || |cfg.lists[0]| >= cfg.shards)
    ensures FirstRound(cfg, Run(cfg, s, moves))
    decreases moves
  {
    if moves != [] {
      StepKeepsFirstRound(cfg, s, moves[0]);
      RunKeepsFirstRound(cfg, Step(cfg, s, moves[0]), moves[1..]);
    }
  }

  lemma {:induction false} NamesOfDistinct(list: seq<string>)
    requires Distinct(list)
    ensures |Names(list)| == |list|
  {
    if list != [] {
      var at := |list| - 1;
      PrefixNames(list, at);
      NamesOfDistinct(list[..at]);
      assert list[..at + 1] == list;
    }
  }

  /** With a single node, whatever fails, a fragment can be recorded twice exactly when the node lists some, but fewer
      than are needed. */
  lemma SingleNodeRepeatsIff(cfg: Config)
    requires |cfg.lists| == 1 && Distinct(cfg.lists[0])
    ensures (exists moves :: !Distinct(Run(cfg, Initial(cfg), moves).res)) <==> 0 < |cfg.lists[0]| < cfg.shards
  {
    NamesOfDistinct(cfg.lists[0]);
    if 0 < |cfg.lists[0]| < cfg.shards {
      var moves := RetryRepeats(cfg, 0, cfg.lists[0][0]);
      assert !Distinct(Run(cfg, Initial(cfg), moves).res);
    } else {
      forall moves ensures Distinct(Run(cfg, Initial(cfg), moves).res) {
        RunKeepsFirstRound(cfg, Initial(cfg), moves);
      }
    }
  }
}
