/** Every interleaving of the requests a cache node serves, and the debt an account can run up.
    A download is two atomic steps on the ledger, a check and a charge, with other requests in between. */
module CreditRuns {
  import opened Credit

  /** A download that passed its check and has not been charged yet. */
  datatype Flight = Flight(account: string, size: nat)

  datatype Event =
    | Download(account: string, size: nat, evidence: Evidence)
    | Charge(which: nat)
    | Abandon(which: nat)
    | Query(account: string, evidence: Evidence)
    | Dial(account: string)
    | Reward(account: string, amount: nat)
    | DownloadUrl(account: string, size: nat)

  datatype Node = Node(ledger: Ledger, flights: seq<Flight>)

  const IDLE := Node(map[], [])

  predicate Signed(n: int) { -0x8000_0000_0000_0000 <= n < 0x8000_0000_0000_0000 }

  /** Sizes and amounts are signed 64-bit in the program: other events change nothing. */
  function Step(cfg: Config, node: Node, event: Event): Node {
    match event
    case Download(account, size, evidence) =>
      var (ledger, admitted) := CheckCredit(cfg, node.ledger, account, evidence);
      Node(ledger, if admitted then node.flights + [Flight(account, size)] else node.flights)
    case Charge(which) =>
      if which < |node.flights| && Signed(0 - node.flights[which].size) then
        Node(AddCreditPoint(node.ledger, node.flights[which].account, 0 - node.flights[which].size),
             node.flights[..which] + node.flights[which + 1..])
      else node
    case Abandon(which) =>
      if which < |node.flights| then
        node.(flights := node.flights[..which] + node.flights[which + 1..])
      else node
    case Query(account, evidence) =>
      node.(ledger := CheckCredit(cfg, IsLimited(cfg, node.ledger, account), account, evidence).0)
    case Dial(account) =>
      node.(ledger := IsLimited(cfg, node.ledger, account))
    case Reward(account, amount) =>
      if Signed(amount) then node.(ledger := AddCreditPoint(node.ledger, account, amount)) else node
    case DownloadUrl(account, size) =>
      if Signed(0 - size) then node.(ledger := AddCreditPoint(node.ledger, account, 0 - size)) else node
  }

  function Run(cfg: Config, node: Node, events: seq<Event>): Node
    decreases events
  {
    if events == [] then node else Run(cfg, Step(cfg, node, events[0]), events[1..])
  }

  // ---------- What the bound assumes of a run ----------

  function InFlight(flights: seq<Flight>, account: string): nat {
    if flights == [] then 0
    else (if flights[0].account == account then 1 else 0) + InFlight(flights[1..], account)
  }

  function BytesInFlight(flights: seq<Flight>, account: string): nat {
    if flights == [] then 0
    else (if flights[0].account == account then flights[0].size else 0) + BytesInFlight(flights[1..], account)
  }

  /** At most `parallel` downloads of one account between check and charge, each of at most `largest`
      bytes, and no download by URL (that request is charged but never checked). */
  ghost predicate Within(cfg: Config, node: Node, events: seq<Event>, parallel: nat, largest: nat)
    decreases events
  {
    && (forall account :: InFlight(node.flights, account) <= parallel)
    && (events != [] ==>
        && !events[0].DownloadUrl?
        && (events[0].Download? ==> events[0].size <= largest)
        && Within(cfg, Step(cfg, node, events[0]), events[1..], parallel, largest))
  }

  function CountIn(cfg: Config, evidence: Evidence): nat {
    if evidence.Order? && cfg.price.Some? then OrderCount(cfg.price.value, evidence.value) else 0
  }

  function CreditIn(cfg: Config, event: Event): nat {
    match event
    case Download(_, _, evidence) => CountIn(cfg, evidence)
    case Query(_, evidence) => CountIn(cfg, evidence)
    case Reward(_, amount) => amount
    case _ => 0
  }

  function TotalCredit(cfg: Config, events: seq<Event>): nat {
    if events == [] then 0 else CreditIn(cfg, events[0]) + TotalCredit(cfg, events[1..])
  }

  // ---------- The bound ----------

  function Debt(node: Node, account: string): int { Balance(Read(node.ledger, account)) }

  ghost predicate Bounded(cfg: Config, node: Node, parallel: nat, largest: nat, credit: nat) {
    && (forall flight <- node.flights :: flight.size <= largest)
    && forall account: string ::
        && (account in node.ledger ==> node.ledger[account].Decodable?)
        && Covered(cfg, node, account, parallel * largest, credit)
  }

  /** One account: what it was sent and what is on its way stay within what it gave plus the allowance. */
  predicate Covered(cfg: Config, node: Node, account: string, allowance: nat, credit: nat) {
    var r := Read(node.ledger, account);
    && r.received <= credit
    && r.sent + BytesInFlight(node.flights, account) <= r.received + cfg.limit + allowance
  }

  lemma {:induction false} FlightsAppend(flights: seq<Flight>, flight: Flight, account: string)
    ensures InFlight(flights + [flight], account) ==
            InFlight(flights, account) + if flight.account == account then 1 else 0
    ensures BytesInFlight(flights + [flight], account) ==
            BytesInFlight(flights, account) + if flight.account == account then flight.size else 0
  {
    if flights == [] {
    } else {
      assert (flights + [flight])[1..] == flights[1..] + [flight];
      FlightsAppend(flights[1..], flight, account);
    }
  }

  lemma {:induction false} FlightsRemove(flights: seq<Flight>, which: nat, account: string)
    requires which < |flights|
    ensures BytesInFlight(flights[..which] + flights[which + 1..], account) ==
            BytesInFlight(flights, account) - if flights[which].account == account then flights[which].size else 0
  {
    if which == 0 {
      assert flights[..0] + flights[1..] == flights[1..];
    } else {
      var rest := flights[1..];
      assert (flights[..which] + flights[which + 1..])[1..] == rest[..which - 1] + rest[which..];
      FlightsRemove(rest, which - 1, account);
    }
  }

  lemma {:induction false} BytesAtMost(flights: seq<Flight>, account: string, parallel: nat, largest: nat)
    requires forall flight <- flights :: flight.size <= largest
    requires InFlight(flights, account) <= parallel
    ensures BytesInFlight(flights, account) <= parallel * largest
  {
    if flights == [] {
    } else if flights[0].account == account {
      BytesAtMost(flights[1..], account, parallel - 1, largest);
      assert parallel * largest == (parallel - 1) * largest + largest;
    } else {
      BytesAtMost(flights[1..], account, parallel, largest);
    }
  }

  /** What one ledger operation may do to the record of `account`. */
  predicate Moves(before: Ledger, after: Ledger, account: string, sent: int, received: int) {
    && (account in before ==> before[account].Decodable?)
    && (account in after ==> after[account].Decodable?)
    && after - {account} == before - {account}
    && Read(after, account).sent == Read(before, account).sent + sent
    && Read(after, account).received == Read(before, account).received + received
  }

  lemma CheckMoves(cfg: Config, ledger: Ledger, account: string, evidence: Evidence) returns (received: nat)
    requires cfg.reading.Intended?
    requires account in ledger ==> ledger[account].Decodable?
    requires Read(ledger, account).received + CountIn(cfg, evidence) < 0xFFFF_FFFF_FFFF_FFFF
    ensures var (ledger', admitted) := CheckCredit(cfg, ledger, account, evidence);
            && Moves(ledger, ledger', account, 0, received) && received <= CountIn(cfg, evidence)
            && (admitted ==> Balance(Read(ledger', account)) <= cfg.limit)
  {
    var (ledger', admitted) := CheckCredit(cfg, ledger, account, evidence);
    received := Read(ledger', account).received - Read(ledger, account).received;
    if admitted && account in ledger {
      AdmittedOwesAtMostLimit(cfg.limit, Read(ledger', account));
    }
  }

  lemma ChargeMoves(ledger: Ledger, account: string, size: nat)
    requires account in ledger ==> ledger[account].Decodable?
    requires Signed(0 - size) && Read(ledger, account).sent + size < 0x1_0000_0000_0000_0000
    requires Read(ledger, account).received < 0xFFFF_FFFF_FFFF_FFFF
    ensures Moves(ledger, AddCreditPoint(ledger, account, 0 - size), account, size, 0)
  {
  }

  lemma RewardMoves(ledger: Ledger, account: string, amount: nat)
    requires account in ledger ==> ledger[account].Decodable?
    requires Signed(amount) && Read(ledger, account).received + amount < 0xFFFF_FFFF_FFFF_FFFF
    ensures Moves(ledger, AddCreditPoint(ledger, account, amount), account, 0, amount)
  {
  }

  /** Moving one account's record keeps the bound for all of them, if it keeps it for that one. */
  lemma MoveKeepsBound(cfg: Config, before: Node, after: Node, account: string, sent: int, received: nat,
                       parallel: nat, largest: nat, credit: nat, credit': nat)
    requires Bounded(cfg, before, parallel, largest, credit)
    requires Moves(before.ledger, after.ledger, account, sent, received)
    requires credit <= credit'
    requires forall flight <- after.flights :: flight.size <= largest
    requires forall other :: other != account ==>
               BytesInFlight(after.flights, other) <= BytesInFlight(before.flights, other)
    requires Covered(cfg, after, account, parallel * largest, credit')
    ensures Bounded(cfg, after, parallel, largest, credit')
  {
    forall other: string
      ensures other in after.ledger ==> after.ledger[other].Decodable?
      ensures Covered(cfg, after, other, parallel * largest, credit')
    {
      if other != account {
        assert Covered(cfg, before, other, parallel * largest, credit);
        assert other in after.ledger <==> other in after.ledger - {account};
        assert other in before.ledger <==> other in before.ledger - {account};
        if other in after.ledger {
          assert (after.ledger - {account})[other] == (before.ledger - {account})[other];
        }
      }
    }
  }

  lemma GainKeepsBound(cfg: Config, node: Node, ledger: Ledger, account: string, received: nat,
                       parallel: nat, largest: nat, credit: nat, credit': nat)
    requires Bounded(cfg, node, parallel, largest, credit)
    requires Moves(node.ledger, ledger, account, 0, received)
    requires credit + received <= credit'
    ensures Bounded(cfg, node.(ledger := ledger), parallel, largest, credit')
  {
    assert Covered(cfg, node, account, parallel * largest, credit);
    MoveKeepsBound(cfg, node, node.(ledger := ledger), account, 0, received, parallel, largest, credit, credit');
  }

  lemma CheckKeepsBound(cfg: Config, node: Node, account: string, evidence: Evidence,
                        parallel: nat, largest: nat, credit: nat)
    requires cfg.reading.Intended?
    requires Bounded(cfg, node, parallel, largest, credit)
    requires credit + CountIn(cfg, evidence) < 0xFFFF_FFFF_FFFF_FFFF
    ensures var (ledger, admitted) := CheckCredit(cfg, node.ledger, account, evidence);
            && Bounded(cfg, node.(ledger := ledger), parallel, largest, credit + CountIn(cfg, evidence))
            && (admitted ==> Balance(Read(ledger, account)) <= cfg.limit)
  {
    assert Covered(cfg, node, account, parallel * largest, credit);
    var received := CheckMoves(cfg, node.ledger, account, evidence);
    var ledger := CheckCredit(cfg, node.ledger, account, evidence).0;
    GainKeepsBound(cfg, node, ledger, account, received, parallel, largest, credit, credit + CountIn(cfg, evidence));
  }

  lemma TakeoffCovers(cfg: Config, node: Node, flight: Flight, other: string, allowance: nat, credit: nat)
    requires Covered(cfg, node, other, allowance, credit)
    requires Balance(Read(node.ledger, flight.account)) <= cfg.limit
    requires BytesInFlight(node.flights + [flight], flight.account) <= allowance
    ensures Covered(cfg, node.(flights := node.flights + [flight]), other, allowance, credit)
  {
    FlightsAppend(node.flights, flight, other);
  }

  lemma TakeoffKeepsBound(cfg: Config, node: Node, flight: Flight, parallel: nat, largest: nat, credit: nat)
    requires Bounded(cfg, node, parallel, largest, credit)
    requires Balance(Read(node.ledger, flight.account)) <= cfg.limit
    requires flight.size <= largest
    requires InFlight(node.flights + [flight], flight.account) <= parallel
    ensures Bounded(cfg, node.(flights := node.flights + [flight]), parallel, largest, credit)
  {
    BytesAtMost(node.flights + [flight], flight.account, parallel, largest);
    forall other: string
      ensures Covered(cfg, node.(flights := node.flights + [flight]), other, parallel * largest, credit)
    {
      TakeoffCovers(cfg, node, flight, other, parallel * largest, credit);
    }
  }

  lemma LandingKeepsBound(cfg: Config, node: Node, which: nat, parallel: nat, largest: nat, credit: nat)
    requires Bounded(cfg, node, parallel, largest, credit)
    requires which < |node.flights|
    ensures Bounded(cfg, node.(flights := node.flights[..which] + node.flights[which + 1..]),
                    parallel, largest, credit)
    ensures var (account, size) := (node.flights[which].account, node.flights[which].size);
            Read(node.ledger, account).sent + size
            + BytesInFlight(node.flights[..which] + node.flights[which + 1..], account)
            <= Read(node.ledger, account).received + cfg.limit + parallel * largest
  {
    var node' := node.(flights := node.flights[..which] + node.flights[which + 1..]);
    forall other: string
      ensures Covered(cfg, node', other, parallel * largest, credit)
      ensures BytesInFlight(node'.flights, other) == BytesInFlight(node.flights, other)
              - if node.flights[which].account == other then node.flights[which].size else 0
    {
      assert Covered(cfg, node, other, parallel * largest, credit);
      FlightsRemove(node.flights, which, other);
    }
    assert Covered(cfg, node, node.flights[which].account, parallel * largest, credit);
  }

  lemma ChargeKeepsBound(cfg: Config, node: Node, which: nat, ledger: Ledger, parallel: nat, largest: nat, credit: nat)
    requires Bounded(cfg, node, parallel, largest, credit)
    requires which < |node.flights|
    requires Moves(node.ledger, ledger, node.flights[which].account, node.flights[which].size, 0)
    ensures Bounded(cfg, Node(ledger, node.flights[..which] + node.flights[which + 1..]), parallel, largest, credit)
  {
    var landed := node.(flights := node.flights[..which] + node.flights[which + 1..]);
    LandingKeepsBound(cfg, node, which, parallel, largest, credit);
    assert Covered(cfg, landed, node.flights[which].account, parallel * largest, credit);
    MoveKeepsBound(cfg, landed, landed.(ledger := ledger), node.flights[which].account, node.flights[which].size, 0,
                   parallel, largest, credit, credit);
  }

  lemma ChargeFits(ledger: Ledger, account: string, size: nat, limit: nat, allowance: nat, credit: nat)
    requires account in ledger ==> ledger[account].Decodable?
    requires Signed(0 - size) && Read(ledger, account).received <= credit
    requires Read(ledger, account).sent + size <= Read(ledger, account).received + limit + allowance
    requires credit + limit + allowance < 0xFFFF_FFFF_FFFF_FFFF
    ensures Moves(ledger, AddCreditPoint(ledger, account, 0 - size), account, size, 0)
  {
    ChargeMoves(ledger, account, size);
  }

  lemma LandedFits(cfg: Config, node: Node, which: nat, allowance: nat, credit: nat)
    requires which < |node.flights| && Signed(0 - node.flights[which].size)
    requires var account := node.flights[which].account;
             && (account in node.ledger ==> node.ledger[account].Decodable?)
             && Covered(cfg, node, account, allowance, credit)
    requires credit + cfg.limit + allowance < 0xFFFF_FFFF_FFFF_FFFF
    ensures var Flight(account, size) := node.flights[which];
            Moves(node.ledger, AddCreditPoint(node.ledger, account, 0 - size), account, size, 0)
  {
    var Flight(account, size) := node.flights[which];
    FlightsRemove(node.flights, which, account);
    ChargeFits(node.ledger, account, size, cfg.limit, allowance, credit);
  }

  lemma LandedMoves(cfg: Config, node: Node, which: nat, parallel: nat, largest: nat, credit: nat)
    requires Bounded(cfg, node, parallel, largest, credit)
    requires which < |node.flights| && Signed(0 - node.flights[which].size)
    requires credit + cfg.limit + parallel * largest < 0xFFFF_FFFF_FFFF_FFFF
    ensures var Flight(account, size) := node.flights[which];
            Moves(node.ledger, AddCreditPoint(node.ledger, account, 0 - size), account, size, 0)
  {
    assert Covered(cfg, node, node.flights[which].account, parallel * largest, credit);
    LandedFits(cfg, node, which, parallel * largest, credit);
  }

  lemma LandedKeepsBound(cfg: Config, node: Node, which: nat, parallel: nat, largest: nat, credit: nat)
    requires Bounded(cfg, node, parallel, largest, credit)
    requires which < |node.flights| && Signed(0 - node.flights[which].size)
    requires credit + cfg.limit + parallel * largest < 0xFFFF_FFFF_FFFF_FFFF
    ensures Bounded(cfg, Step(cfg, node, Charge(which)), parallel, largest, credit)
  {
    var Flight(account, size) := node.flights[which];
    LandedMoves(cfg, node, which, parallel, largest, credit);
    ChargeKeepsBound(cfg, node, which, AddCreditPoint(node.ledger, account, 0 - size), parallel, largest, credit);
  }

  lemma RewardKeepsBound(cfg: Config, node: Node, account: string, amount: nat, parallel: nat, largest: nat,
                         credit: nat)
    requires Bounded(cfg, node, parallel, largest, credit)
    requires credit + amount < 0xFFFF_FFFF_FFFF_FFFF
    ensures Bounded(cfg, Step(cfg, node, Reward(account, amount)), parallel, largest, credit + amount)
  {
    assert Covered(cfg, node, account, parallel * largest, credit);
    if Signed(amount) {
      RewardMoves(node.ledger, account, amount);
      GainKeepsBound(cfg, node, AddCreditPoint(node.ledger, account, amount), account, amount,
                     parallel, largest, credit, credit + amount);
    } else {
      GainKeepsBound(cfg, node, node.ledger, account, 0, parallel, largest, credit, credit + amount);
    }
  }

  lemma DialKeepsBound(cfg: Config, node: Node, account: string, parallel: nat, largest: nat, credit: nat)
    requires cfg.reading.Intended?
    requires Bounded(cfg, node, parallel, largest, credit)
    ensures Bounded(cfg, Step(cfg, node, Dial(account)), parallel, largest, credit)
  {
    assert Covered(cfg, node, account, parallel * largest, credit);
    GainKeepsBound(cfg, node, IsLimited(cfg, node.ledger, account), account, 0, parallel, largest, credit, credit);
  }

  lemma DownloadKeepsBound(cfg: Config, node: Node, account: string, size: nat, evidence: Evidence,
                           parallel: nat, largest: nat, credit: nat)
    requires cfg.reading.Intended?
    requires Bounded(cfg, node, parallel, largest, credit)
    requires size <= largest && credit + CountIn(cfg, evidence) < 0xFFFF_FFFF_FFFF_FFFF
    requires InFlight(Step(cfg, node, Download(account, size, evidence)).flights, account) <= parallel
    ensures Bounded(cfg, Step(cfg, node, Download(account, size, evidence)), parallel, largest,
                    credit + CountIn(cfg, evidence))
  {
    var (ledger, admitted) := CheckCredit(cfg, node.ledger, account, evidence);
    CheckKeepsBound(cfg, node, account, evidence, parallel, largest, credit);
    if admitted {
      TakeoffKeepsBound(cfg, node.(ledger := ledger), Flight(account, size), parallel, largest,
                        credit + CountIn(cfg, evidence));
    }
  }

  lemma QueryKeepsBound(cfg: Config, node: Node, account: string, evidence: Evidence,
                        parallel: nat, largest: nat, credit: nat)
    requires cfg.reading.Intended?
    requires Bounded(cfg, node, parallel, largest, credit)
    requires credit + CountIn(cfg, evidence) < 0xFFFF_FFFF_FFFF_FFFF
    ensures Bounded(cfg, Step(cfg, node, Query(account, evidence)), parallel, largest,
                    credit + CountIn(cfg, evidence))
  {
    DialKeepsBound(cfg, node, account, parallel, largest, credit);
    CheckKeepsBound(cfg, Step(cfg, node, Dial(account)), account, evidence, parallel, largest, credit);
  }

  lemma StepKeepsBound(cfg: Config, node: Node, event: Event, parallel: nat, largest: nat, credit: nat)
    requires cfg.reading.Intended?
    requires Bounded(cfg, node, parallel, largest, credit)
    requires !event.DownloadUrl? && (event.Download? ==> event.size <= largest)
    requires forall account :: InFlight(Step(cfg, node, event).flights, account) <= parallel
    requires credit + CreditIn(cfg, event) + cfg.limit + parallel * largest < 0xFFFF_FFFF_FFFF_FFFF
    ensures Bounded(cfg, Step(cfg, node, event), parallel, largest, credit + CreditIn(cfg, event))
  {
    match event
    case Download(account, size, evidence) =>
      DownloadKeepsBound(cfg, node, account, size, evidence, parallel, largest, credit);
    case Charge(which) =>
      if which < |node.flights| && Signed(0 - node.flights[which].size) {
        LandedKeepsBound(cfg, node, which, parallel, largest, credit);
      }
    case Abandon(which) =>
      if which < |node.flights| {
        LandingKeepsBound(cfg, node, which, parallel, largest, credit);
      }
    case Query(account, evidence) =>
      QueryKeepsBound(cfg, node, account, evidence, parallel, largest, credit);
    case Dial(account) =>
      DialKeepsBound(cfg, node, account, parallel, largest, credit);
    case Reward(account, amount) =>
      RewardKeepsBound(cfg, node, account, amount, parallel, largest, credit);
  }

  /** The debt bound. For every interleaving, an account's debt never exceeds the limit plus one largest
      file for each download it may have under way, provided the flag of GetCreditRecord means what its
      callers take it to mean and no sum reaches 2^64 - 1. */
  lemma {:induction false} DebtStaysBounded(cfg: Config, node: Node, events: seq<Event>,
                                            parallel: nat, largest: nat, credit: nat)
    requires cfg.reading.Intended?
    requires Bounded(cfg, node, parallel, largest, credit)
    requires Within(cfg, node, events, parallel, largest)
    requires credit + TotalCredit(cfg, events) + cfg.limit + parallel * largest < 0xFFFF_FFFF_FFFF_FFFF
    ensures Bounded(cfg, Run(cfg, node, events), parallel, largest, credit + TotalCredit(cfg, events))
    decreases events
  {
    if events != [] {
      var next := Step(cfg, node, events[0]);
      StepKeepsBound(cfg, node, events[0], parallel, largest, credit);
      DebtStaysBounded(cfg, next, events[1..], parallel, largest, credit + CreditIn(cfg, events[0]));
    }
  }

  lemma DebtBound(cfg: Config, events: seq<Event>, parallel: nat, largest: nat, account: string)
    requires cfg.reading.Intended?
    requires Within(cfg, IDLE, events, parallel, largest)
    requires TotalCredit(cfg, events) + cfg.limit + parallel * largest < 0xFFFF_FFFF_FFFF_FFFF
    ensures Debt(Run(cfg, IDLE, events), account) <= cfg.limit + parallel * largest
  {
    assert Bounded(cfg, IDLE, parallel, largest, 0);
    DebtStaysBounded(cfg, IDLE, events, parallel, largest, 0);
    assert Covered(cfg, Run(cfg, IDLE, events), account, parallel * largest, TotalCredit(cfg, events));
  }

  // ---------- The bound is exact, and needs the flag ----------

  predicate Owes(node: Node, account: string, debt: nat) {
    && (account in node.ledger ==> node.ledger[account].Decodable?)
    && Read(node.ledger, account).sent == debt
    && Read(node.ledger, account).received == 0
  }

  function Copies(n: nat, flight: Flight): seq<Flight> {
    if n == 0 then [] else [flight] + Copies(n - 1, flight)
  }

  lemma {:induction false} CopiesOf(n: nat, flight: Flight)
    ensures Copies(n, flight) + [flight] == Copies(n + 1, flight)
    ensures forall account :: InFlight(Copies(n, flight), account) <= n
  {
    if n == 0 {
    } else {
      CopiesOf(n - 1, flight);
      assert Copies(n, flight) + [flight] == [flight] + (Copies(n - 1, flight) + [flight]);
    }
  }

  /** A run within the assumptions, without credit, after which the account owes `debt`. */
  ghost predicate Reaches(cfg: Config, node: Node, events: seq<Event>, parallel: nat, largest: nat,
                          account: string, debt: nat) {
    && Within(cfg, node, events, parallel, largest)
    && TotalCredit(cfg, events) == 0
    && Owes(Run(cfg, node, events), account, debt)
  }

  lemma Prepend(cfg: Config, node: Node, event: Event, rest: seq<Event>, parallel: nat, largest: nat,
                account: string, debt: nat)
    requires Reaches(cfg, Step(cfg, node, event), rest, parallel, largest, account, debt)
    requires forall other :: InFlight(node.flights, other) <= parallel
    requires event.Charge? || (event.Download? && event.size <= largest && event.evidence.Missing?)
    ensures Reaches(cfg, node, [event] + rest, parallel, largest, account, debt)
  {
    assert ([event] + rest)[1..] == rest;
  }

  lemma Takeoff(cfg: Config, node: Node, account: string, size: nat, debt: nat)
    requires Owes(node, account, debt)
    requires cfg.reading.AsWritten? || debt <= cfg.limit
    ensures var node' := Step(cfg, node, Download(account, size, Missing));
            Owes(node', account, debt) && node'.flights == node.flights + [Flight(account, size)]
  {
  }

  lemma Landing(cfg: Config, node: Node, account: string, size: nat, debt: nat)
    requires Owes(node, account, debt)
    requires node.flights != [] && node.flights[0] == Flight(account, size)
    requires debt + size < 0x8000_0000_0000_0000
    ensures var node' := Step(cfg, node, Charge(0));
            Owes(node', account, debt + size) && node'.flights == node.flights[1..]
  {
    ChargeMoves(node.ledger, account, size);
  }

  /** Launch as many downloads as may run at once, then charge them all. */
  function Launch(flight: Flight, launched: nat, parallel: nat): seq<Event>
    requires launched <= parallel
    decreases parallel - launched
  {
    if launched == parallel then Land(parallel)
    else [Download(flight.account, flight.size, Missing)] + Launch(flight, launched + 1, parallel)
  }

  function Land(n: nat): seq<Event> {
    if n == 0 then [] else [Charge(0)] + Land(n - 1)
  }

  lemma {:induction false} LandRuns(cfg: Config, node: Node, flight: Flight, n: nat, parallel: nat, debt: nat)
    requires Owes(node, flight.account, debt) && node.flights == Copies(n, flight) && n <= parallel
    requires debt + n * flight.size < 0x8000_0000_0000_0000
    ensures Reaches(cfg, node, Land(n), parallel, flight.size, flight.account, debt + n * flight.size)
    decreases n
  {
    CopiesOf(n, flight);
    if n > 0 {
      ProductStep(n, flight.size);
      Landing(cfg, node, flight.account, flight.size, debt);
      LandRuns(cfg, Step(cfg, node, Charge(0)), flight, n - 1, parallel, debt + flight.size);
      Prepend(cfg, node, Charge(0), Land(n - 1), parallel, flight.size, flight.account, debt + n * flight.size);
    }
  }

  lemma ProductStep(n: nat, size: nat)
    requires n > 0
    ensures n * size == (n - 1) * size + size && 0 <= (n - 1) * size
  {
  }

  lemma {:induction false} LaunchRuns(cfg: Config, node: Node, flight: Flight, launched: nat, parallel: nat, debt: nat)
    requires cfg.reading.AsWritten? || debt <= cfg.limit
    requires Owes(node, flight.account, debt) && node.flights == Copies(launched, flight) && launched <= parallel
    requires debt + parallel * flight.size < 0x8000_0000_0000_0000
    ensures Reaches(cfg, node, Launch(flight, launched, parallel), parallel, flight.size,
                    flight.account, debt + parallel * flight.size)
    decreases parallel - launched
  {
    CopiesOf(launched, flight);
    if launched == parallel {
      LandRuns(cfg, node, flight, parallel, parallel, debt);
    } else {
      var event := Download(flight.account, flight.size, Missing);
      Takeoff(cfg, node, flight.account, flight.size, debt);
      LaunchRuns(cfg, Step(cfg, node, event), flight, launched + 1, parallel, debt);
      Prepend(cfg, node, event, Launch(flight, launched + 1, parallel), parallel, flight.size,
              flight.account, debt + parallel * flight.size);
    }
  }

  /** Download one file after another up to `target`, then launch. */
  function Fill(flight: Flight, debt: nat, target: nat, parallel: nat): seq<Event>
    requires debt <= target && flight.size > 0
    decreases target - debt
  {
    if debt == target then Launch(flight, 0, parallel)
    else
      var size := if flight.size <= target - debt then flight.size else target - debt;
      [Download(flight.account, size, Missing)] + ([Charge(0)] + Fill(flight, debt + size, target, parallel))
  }

  /** One download, started and charged with nothing else under way, in front of a run. */
  lemma PrependDownload(cfg: Config, node: Node, account: string, size: nat, debt: nat, rest: seq<Event>,
                        parallel: nat, largest: nat, end: nat)
    requires cfg.reading.AsWritten? || debt <= cfg.limit
    requires Owes(node, account, debt) && node.flights == [] && parallel > 0 && size <= largest
    requires debt + size < 0x8000_0000_0000_0000
    requires forall after: Node :: Owes(after, account, debt + size) && after.flights == [] ==>
               Reaches(cfg, after, rest, parallel, largest, account, end)
    ensures Reaches(cfg, node, [Download(account, size, Missing)] + ([Charge(0)] + rest), parallel, largest, account,
                    end)
  {
    var middle := Step(cfg, node, Download(account, size, Missing));
    Takeoff(cfg, node, account, size, debt);
    Landing(cfg, middle, account, size, debt);
    var after := Step(cfg, middle, Charge(0));
    assert Owes(after, account, debt + size) && after.flights == [];
    assert forall other :: InFlight(middle.flights, other) <= 1;
    Prepend(cfg, middle, Charge(0), rest, parallel, largest, account, end);
    Prepend(cfg, node, Download(account, size, Missing), [Charge(0)] + rest, parallel, largest, account, end);
  }

  lemma {:induction false} FillRuns(cfg: Config, node: Node, flight: Flight, debt: nat, target: nat, parallel: nat,
                                    end: nat)
    requires cfg.reading.AsWritten? || target <= cfg.limit
    requires Owes(node, flight.account, debt) && node.flights == [] && debt <= target <= end
    requires flight.size > 0 && parallel > 0
    requires end == target + parallel * flight.size && end < 0x8000_0000_0000_0000
    ensures Reaches(cfg, node, Fill(flight, debt, target, parallel), parallel, flight.size, flight.account, end)
    decreases target - debt
  {
    if debt == target {
      LaunchRuns(cfg, node, flight, 0, parallel, debt);
    } else {
      var size := if flight.size <= target - debt then flight.size else target - debt;
      var rest := Fill(flight, debt + size, target, parallel);
      forall after: Node | Owes(after, flight.account, debt + size) && after.flights == []
        ensures Reaches(cfg, after, rest, parallel, flight.size, flight.account, end)
      {
        FillRuns(cfg, after, flight, debt + size, target, parallel, end);
      }
      PrependDownload(cfg, node, flight.account, size, debt, rest, parallel, flight.size, end);
    }
  }

  lemma FillFromIdle(cfg: Config, account: string, target: nat, parallel: nat, largest: nat)
      returns (events: seq<Event>)
    requires cfg.reading.AsWritten? || target <= cfg.limit
    requires largest > 0 && parallel > 0
    requires target + parallel * largest < 0x8000_0000_0000_0000
    ensures Within(cfg, IDLE, events, parallel, largest) && TotalCredit(cfg, events) == 0
    ensures Debt(Run(cfg, IDLE, events), account) == target + parallel * largest
  {
    events := Fill(Flight(account, largest), 0, target, parallel);
    ProductStep(parallel, largest);
    FillRuns(cfg, IDLE, Flight(account, largest), 0, target, parallel, target + parallel * largest);
  }

  /** The bound cannot be lowered: some run reaches it exactly. */
  lemma DebtBoundIsAttained(cfg: Config, account: string, parallel: nat, largest: nat) returns (events: seq<Event>)
    requires cfg.reading.Intended? && parallel > 0 && largest > 0
    requires cfg.limit + parallel * largest < 0x8000_0000_0000_0000
    ensures Within(cfg, IDLE, events, parallel, largest) && TotalCredit(cfg, events) == 0
    ensures Debt(Run(cfg, IDLE, events), account) == cfg.limit + parallel * largest
  {
    events := FillFromIdle(cfg, account, cfg.limit, parallel, largest);
  }

  /** With the flag as written there is no bound at all: one download at a time reaches any debt. */
  lemma AsWrittenThereIsNoBound(cfg: Config, account: string, largest: nat, debt: nat) returns (events: seq<Event>)
    requires cfg.reading.AsWritten? && 0 < largest <= debt < 0x8000_0000_0000_0000
    ensures Within(cfg, IDLE, events, 1, largest) && TotalCredit(cfg, events) == 0
    ensures Debt(Run(cfg, IDLE, events), account) == debt
  {
    events := FillFromIdle(cfg, account, debt - largest, 1, largest);
  }

  /** The run respects a bound on the debt, or goes beyond the assumptions of that bound. */
  ghost predicate StaysWithin(cfg: Config, events: seq<Event>, account: string, parallel: nat, largest: nat,
                              bound: nat) {
    Within(cfg, IDLE, events, parallel, largest) && TotalCredit(cfg, events) + bound < 0xFFFF_FFFF_FFFF_FFFF
    ==> Debt(Run(cfg, IDLE, events), account) <= bound
  }

  lemma IntendedStaysWithin(cfg: Config, events: seq<Event>, account: string, parallel: nat, largest: nat, bound: nat)
    requires cfg.reading.Intended? && bound == cfg.limit + parallel * largest
    ensures StaysWithin(cfg, events, account, parallel, largest, bound)
  {
    if Within(cfg, IDLE, events, parallel, largest) && TotalCredit(cfg, events) + bound < 0xFFFF_FFFF_FFFF_FFFF {
      DebtBound(cfg, events, parallel, largest, account);
    }
  }

  lemma Escapes(cfg: Config, events: seq<Event>, account: string, parallel: nat, largest: nat, bound: nat)
    requires Within(cfg, IDLE, events, parallel, largest) && TotalCredit(cfg, events) == 0
    requires bound < 0xFFFF_FFFF_FFFF_FFFF && Debt(Run(cfg, IDLE, events), account) > bound
    ensures !StaysWithin(cfg, events, account, parallel, largest, bound)
  {
  }

  /** The debt bound holds of every run exactly when the flag means "a decodable record exists". */
  lemma DebtBoundIff(cfg: Config, account: string, parallel: nat, largest: nat, bound: nat)
    requires parallel > 0 && largest > 0 && bound == cfg.limit + parallel * largest
    requires bound + largest < 0x8000_0000_0000_0000
    ensures cfg.reading.Intended? <==> forall events :: StaysWithin(cfg, events, account, parallel, largest, bound)
  {
    match cfg.reading
    case Intended =>
      forall events ensures StaysWithin(cfg, events, account, parallel, largest, bound) {
        IntendedStaysWithin(cfg, events, account, parallel, largest, bound);
      }
    case AsWritten =>
      var events := FillFromIdle(cfg, account, cfg.limit + largest, parallel, largest);
      Escapes(cfg, events, account, parallel, largest, bound);
  }

  function Repeated(n: nat, event: Event): seq<Event> {
    if n == 0 then [] else [event] + Repeated(n - 1, event)
  }

  /** Downloads by URL are charged without a check: they pass the limit under either reading. */
  lemma {:induction false} UrlDownloadsAreUnbounded(cfg: Config, node: Node, account: string, size: nat, n: nat,
                                                    debt: nat)
    requires Owes(node, account, debt)
    requires debt + n * size < 0x8000_0000_0000_0000
    ensures Owes(Run(cfg, node, Repeated(n, DownloadUrl(account, size))), account, debt + n * size)
    decreases n
  {
    if n > 0 {
      ProductStep(n, size);
      ChargeMoves(node.ledger, account, size);
      UrlDownloadsAreUnbounded(cfg, Step(cfg, node, DownloadUrl(account, size)), account, size, n - 1, debt + size);
      var rest := Repeated(n - 1, DownloadUrl(account, size));
      assert ([DownloadUrl(account, size)] + rest)[1..] == rest;
    }
  }
}
