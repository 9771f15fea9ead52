/** Paying a cache node: the bill of PaymentCacheOrder in cd2n-client/client/client.go,
    and the fragment count the node recovers from it in CheckCredit. */
module Settlement {
  import opened Common
  import opened Credit

  /** Signed 64-bit division truncates toward zero in Go. The unit is a positive fragment size. */
  function TruncatedDiv(x: i64, unit: int): int
    requires 0 < unit
  {
    if x >= 0 then x / unit else -(-(x as int) / unit)
  }

  /** The number of fragments billed for an advertised limit. None when the account is in credit. */
  function BilledCount(creditLimit: i64, fragmentSize: i64): Option<int>
    requires 0 < fragmentSize
  {
    var debt := TruncatedDiv(NegateI64(creditLimit), fragmentSize);
    if creditLimit > 0 then None
    else Some(if debt == 0 then 1 else debt)
  }

  function Bill(price: int, count: int): int { price * count }

  lemma DivideProduct(price: int, count: int)
    requires price != 0
    ensures price * count / price == count
  {
    var quotient, remainder := price * count / price, price * count % price;
    assert price * count == quotient * price + remainder;
    assert (count - quotient) * price == remainder;
    if count > quotient {
      if price > 0 { SmallProduct(count - quotient, price); } else { SmallProduct(count - quotient, -price); }
    } else if count < quotient {
      if price > 0 { SmallProduct(quotient - count, price); } else { SmallProduct(quotient - count, -price); }
    }
  }

  lemma SmallProduct(a: int, b: int)
    requires a > 0 && b > 0
    ensures a * b >= b
  {
  }

  lemma OrderCountOfBill(price: int, count: int)
    ensures OrderCount(price, Bill(price, count)) == if LowWord(price) == 0 then 0 else LowWord(count)
  {
    if LowWord(price) == 0 {
      MultipleOfWord(price, count);
    } else {
      DivideProduct(price, count);
    }
  }

  /** The node recovers the billed count from the order value exactly when the price counts as nonzero
      (its low 64 bits are not all zero) and the advertised limit is not the smallest signed 64-bit integer,
      whose negation wraps to itself and is billed as a negative count. */
  lemma RecoveredCountIff(price: int, creditLimit: i64, fragmentSize: i64)
    requires creditLimit <= 0 && 1 < fragmentSize
    ensures OrderCount(price, Bill(price, BilledCount(creditLimit, fragmentSize).value))
            == BilledCount(creditLimit, fragmentSize).value
       <==> LowWord(price) != 0 && creditLimit != -0x8000_0000_0000_0000
  {
    CountFits(creditLimit, fragmentSize);
    OrderCountOfBill(price, BilledCount(creditLimit, fragmentSize).value);
  }

  lemma CountFits(creditLimit: i64, fragmentSize: i64)
    requires creditLimit <= 0 && 1 < fragmentSize
    ensures creditLimit == -0x8000_0000_0000_0000
            ==> -0x8000_0000_0000_0000 < BilledCount(creditLimit, fragmentSize).value < 0
    ensures creditLimit > -0x8000_0000_0000_0000
            ==> 0 < BilledCount(creditLimit, fragmentSize).value < 0x8000_0000_0000_0000
  {
    var debt := if creditLimit == -0x8000_0000_0000_0000 then 0x8000_0000_0000_0000 else -(creditLimit as int);
    QuotientSmaller(debt, fragmentSize);
    if debt >= fragmentSize && debt / fragmentSize == 0 {
      assert false;
    }
    if creditLimit == -0x8000_0000_0000_0000 {
      var p := WrapI64Multiple(0x8000_0000_0000_0000);
      assert NegateI64(creditLimit) == creditLimit;
    }
  }

  lemma QuotientSmaller(x: int, unit: int)
    requires 0 <= x && 1 < unit
    ensures 0 <= x / unit && (x > 0 ==> x / unit < x)
    ensures x - unit < x / unit * unit <= x
  {
    ProductLarger(x / unit, unit, x % unit);
  }

  lemma ProductLarger(q: int, unit: int, rest: int)
    requires 1 < unit && 0 <= rest < unit && 0 <= q * unit + rest
    ensures 0 <= q && (q * unit + rest > 0 ==> q < q * unit + rest)
  {
    if q > 0 {
      assert q * unit >= q * 2;
    }
  }

  lemma MultipleOfWord(price: int, count: int)
    requires LowWord(price) == 0
    ensures LowWord(price * count) == 0
  {
    var q := price / 0x1_0000_0000_0000_0000;
    assert price == q * 0x1_0000_0000_0000_0000;
    assert price * count == (q * count) * 0x1_0000_0000_0000_0000;
    assert -(price * count) == (-(q * count)) * 0x1_0000_0000_0000_0000;
  }

  /** The billed count is within one fragment of the advertised overrun, and never zero. */
  lemma BillCoversOverrun(creditLimit: i64, fragmentSize: i64)
    requires -0x8000_0000_0000_0000 < creditLimit <= 0 && 1 < fragmentSize
    ensures var overrun := -(creditLimit as int);
            var paid := BilledCount(creditLimit, fragmentSize).value * fragmentSize;
            overrun - fragmentSize < paid && (paid <= overrun || (overrun < fragmentSize && paid == fragmentSize))
  {
    QuotientSmaller(-(creditLimit as int), fragmentSize);
  }

  /** What settling achieves. The client bills whole fragments for an overrun in bytes, and CheckCredit adds
      that count to a counter of bytes: the paid account is let in again exactly when it was over by one byte. */
  lemma SettledAccountAdmittedIff(cfg: Config, ledger: Ledger, key: string, fragmentSize: i64)
    requires cfg.reading.Intended? && cfg.price.Some? && LowWord(cfg.price.value) != 0
    requires key in ledger && ledger[key].Decodable? && 1 < fragmentSize && cfg.limit > 0
    requires var r := Read(ledger, key);
             0 < Balance(r) - cfg.limit < 0x8000_0000_0000_0000
    ensures var told := Advertise(IsLimitedAnswer(cfg, ledger, key));
            var overrun := Balance(Read(ledger, key)) - cfg.limit;
            && told == -overrun
            && (CheckCredit(cfg, ledger, key, Order(Bill(cfg.price.value, BilledCount(told, fragmentSize).value))).1
               <==> overrun == 1)
  {
    var r := Read(ledger, key);
    var told := Advertise(IsLimitedAnswer(cfg, ledger, key));
    AdvertisedIsExactIff(cfg.limit, r);
    var overrun := Balance(r) - cfg.limit;
    assert told == -overrun;
    var count := BilledCount(told, fragmentSize).value;
    CountFits(told, fragmentSize);
    RecoveredCountIff(cfg.price.value, told, fragmentSize);
    QuotientSmaller(overrun, fragmentSize);
    assert overrun == 1 ==> count == 1;
    assert overrun > 1 ==> count < overrun;
    assert OrderCount(cfg.price.value, Bill(cfg.price.value, count)) == count;
    AdmittedIff(cfg.limit, r, count);
  }

  lemma AdmittedIff(limit: u64, r: RecordItem, count: int)
    requires limit > 0 && 0 < count <= Balance(r) - limit
    ensures WrapU64(r.received + count) == r.received + count < 0xFFFF_FFFF_FFFF_FFFF
    ensures !Limited(limit, r.(received := WrapU64(r.received + count))) <==> count == Balance(r) - limit
  {
  }

  // ---------- The settlement loop ----------

  /** One response taken from the settlement queue, with whether the chain accepts the order it leads to. */
  datatype Offer = Offer(account: string, creditLimit: i64, price: Option<int>, created: bool)

  predicate Payable(offer: Offer) { offer.creditLimit <= 0 && offer.price.Some? }

  function BillOf(offer: Offer, fragmentSize: i64): int
    requires 0 < fragmentSize && Payable(offer)
  {
    Bill(offer.price.value, BilledCount(offer.creditLimit, fragmentSize).value)
  }

  /** The bills a queue of offers leads to, in order. */
  function Bills(offers: seq<Offer>, fragmentSize: i64): seq<(string, int)>
    requires 0 < fragmentSize
  {
    if offers == [] then []
    else (if Payable(offers[0]) then [(offers[0].account, BillOf(offers[0], fragmentSize))] else [])
         + Bills(offers[1..], fragmentSize)
  }

  function BookOne(cfg: Config, ledger: Ledger, offer: Offer, fragmentSize: i64): Ledger
    requires 0 < fragmentSize
  {
    if !Payable(offer) then ledger
    else PaymentCreditBill(cfg, ledger, offer.account, offer.created, Some(BillOf(offer, fragmentSize)))
  }

  /** The payer's ledger after the queue: each accepted bill is booked at the payer's own price. */
  function Book(cfg: Config, ledger: Ledger, offers: seq<Offer>, fragmentSize: i64): Ledger
    requires 0 < fragmentSize
    decreases offers
  {
    if offers == [] then ledger
    else Book(cfg, BookOne(cfg, ledger, offers[0], fragmentSize), offers[1..], fragmentSize)
  }

  method PaymentCacheOrder(credit: Manager, offers: seq<Offer>, fragmentSize: i64)
      returns (bills: seq<(string, int)>)
    requires 0 < fragmentSize
    modifies credit
    ensures bills == Bills(offers, fragmentSize)
    ensures credit.record == Book(credit.cfg, old(credit.record), offers, fragmentSize)
  {
    bills := [];
    var i := 0;
    while i < |offers|
      invariant 0 <= i <= |offers|
      invariant bills + Bills(offers[i..], fragmentSize) == Bills(offers, fragmentSize)
      invariant Book(credit.cfg, credit.record, offers[i..], fragmentSize)
             == Book(credit.cfg, old(credit.record), offers, fragmentSize)
    {
      var offer := offers[i];
      assert offers[i..][1..] == offers[i + 1..];
      i := i + 1;
      var debt := TruncatedDiv(NegateI64(offer.creditLimit), fragmentSize);
      if offer.creditLimit > 0 || offer.price.None? {
        continue;
      }
      if debt == 0 {
        debt := 1;
      }
      var bill := offer.price.value * debt;
      bills := bills + [(offer.account, bill)];
      credit.Pay(offer.account, offer.created, Some(bill));
    }
  }

  // ---------- What the loop achieves ----------

  /** The count billed for an advertised limit: whole fragments of the overrun, rounded down but never none. For the
      smallest 64-bit limit the negation wraps around and the count is negative. */
  predicate IsCountOf(count: int, creditLimit: i64, fragmentSize: i64) {
    if creditLimit == -0x8000_0000_0000_0000 then
      count < 0 && -count * fragmentSize <= 0x8000_0000_0000_0000 < (-count + 1) * fragmentSize
    else
      var overrun := -(creditLimit as int);
      || (0 <= overrun < fragmentSize && count == 1)
      || (0 < count && count * fragmentSize <= overrun < (count + 1) * fragmentSize)
  }

  lemma Rounded(x: nat, unit: nat) returns (q: nat)
    requires unit > 0
    ensures q == x / unit && q * unit <= x < (q + 1) * unit
    ensures q == 0 <==> x < unit
  {
    q := x / unit;
    assert x == q * unit + x % unit;
    OneMore(q, unit);
    if q == 0 {
      assert q * unit == 0;
    } else {
      OneMore(q - 1, unit);
      assert 0 <= (q - 1) * unit;
    }
  }

  lemma CountFrom(creditLimit: i64, fragmentSize: i64, q: int)
    requires 0 <= q && creditLimit <= 0 && 0 < fragmentSize
    requires q * fragmentSize <= -(creditLimit as int) < (q + 1) * fragmentSize
    requires q == 0 <==> -(creditLimit as int) < fragmentSize
    ensures IsCountOf(if creditLimit == -0x8000_0000_0000_0000 then -q else if q == 0 then 1 else q,
                      creditLimit, fragmentSize)
  {
  }

  lemma BilledCountIs(creditLimit: i64, fragmentSize: i64)
    requires creditLimit <= 0 && 0 < fragmentSize
    ensures IsCountOf(BilledCount(creditLimit, fragmentSize).value, creditLimit, fragmentSize)
  {
    var q := Rounded(-(creditLimit as int), fragmentSize);
    CountFrom(creditLimit, fragmentSize, q);
    CountIsQuotient(creditLimit, fragmentSize, q);
  }

  lemma CountIsQuotient(creditLimit: i64, fragmentSize: i64, q: int)
    requires 0 <= q && creditLimit <= 0 && 0 < fragmentSize && q == -(creditLimit as int) / fragmentSize
    requires q == 0 <==> -(creditLimit as int) < fragmentSize
    ensures BilledCount(creditLimit, fragmentSize).value
         == if creditLimit == -0x8000_0000_0000_0000 then -q else if q == 0 then 1 else q
  {
    if creditLimit == -0x8000_0000_0000_0000 {
      var p := WrapI64Multiple(0x8000_0000_0000_0000);
      assert NegateI64(creditLimit) == creditLimit;
    }
  }

  /** These are the places of the offers that lead to a bill. */
  ghost predicate ArePayable(offers: seq<Offer>, from: seq<nat>) {
    && (forall i: nat :: i in from <==> i < |offers| && offers[i].creditLimit <= 0 && offers[i].price.Some?)
    && (forall m, n :: 0 <= m < n < |from| ==> from[m] < from[n])
  }

  ghost predicate AreBillsOf(bills: seq<(string, int)>, offers: seq<Offer>, from: seq<nat>, fragmentSize: i64) {
    && |bills| == |from|
    && forall m :: 0 <= m < |from| ==> from[m] < |offers| && IsBillOf(bills[m], offers[from[m]], fragmentSize)
  }

  /** One bill for each offer that is not in credit and names a price, in the order of the queue: the price times the
      count for the advertised limit, for the account that made the offer. */
  lemma {:induction false} BillsAre(offers: seq<Offer>, fragmentSize: i64) returns (from: seq<nat>)
    requires 0 < fragmentSize
    ensures ArePayable(offers, from) && AreBillsOf(Bills(offers, fragmentSize), offers, from, fragmentSize)
  {
    if offers == [] {
      from := [];
    } else {
      var rest := BillsAre(offers[1..], fragmentSize);
      from := (if Payable(offers[0]) then [0] else []) + Later(rest);
      PayableStep(offers, rest);
      LaterBills(Bills(offers[1..], fragmentSize), offers, rest, fragmentSize);
      if Payable(offers[0]) {
        BilledCountIs(offers[0].creditLimit, fragmentSize);
        assert IsBillOf((offers[0].account, BillOf(offers[0], fragmentSize)), offers[0], fragmentSize);
      } else {
        assert [] + Later(rest) == Later(rest);
      }
    }
  }

  lemma LaterBills(bills: seq<(string, int)>, offers: seq<Offer>, rest: seq<nat>, fragmentSize: i64)
    requires offers != [] && AreBillsOf(bills, offers[1..], rest, fragmentSize)
    ensures AreBillsOf(bills, offers, Later(rest), fragmentSize)
  {
    forall m | 0 <= m < |rest|
      ensures Later(rest)[m] < |offers| && IsBillOf(bills[m], offers[Later(rest)[m]], fragmentSize)
    {
      assert offers[Later(rest)[m]] == offers[1..][rest[m]];
    }
  }

  lemma PayableStep(offers: seq<Offer>, rest: seq<nat>)
    requires offers != [] && ArePayable(offers[1..], rest)
    ensures ArePayable(offers, (if Payable(offers[0]) then [0] else []) + Later(rest))
  {
    LaterIs(rest);
    var first: seq<nat> := if Payable(offers[0]) then [0] else [];
    forall i: nat ensures i in first + Later(rest) <==> i < |offers| && Payable(offers[i]) {
      if i > 0 {
        assert (i - 1) as nat in rest <==> i - 1 < |offers[1..]| && Payable(offers[1..][i - 1]);
      }
    }
  }

  ghost predicate IsBillOf(bill: (string, int), offer: Offer, fragmentSize: i64) {
    && bill.0 == offer.account && offer.price.Some?
    && exists count: int :: IsCountOf(count, offer.creditLimit, fragmentSize) && bill.1 == offer.price.value * count
  }

  function Later(places: seq<nat>): seq<nat> {
    seq(|places|, m requires 0 <= m < |places| => places[m] + 1)
  }

  lemma LaterIs(places: seq<nat>)
    ensures forall i: nat :: i in Later(places) <==> i > 0 && (i - 1) as nat in places
  {
    forall i: nat | i > 0 && (i - 1) as nat in places ensures i in Later(places) {
      var m :| 0 <= m < |places| && places[m] == (i - 1) as nat;
      assert Later(places)[m] == i;
    }
  }

  /** What one accepted bill adds to the account's counter: the fragments the payer's own price makes of it. */
  function AddedBy(cfg: Config, offer: Offer, account: string, fragmentSize: i64): nat
    requires 0 < fragmentSize
  {
    if Payable(offer) && offer.created && offer.account == account && cfg.price.Some?
    then OrderCount(cfg.price.value, BillOf(offer, fragmentSize)) else 0
  }

  function Added(cfg: Config, offers: seq<Offer>, account: string, fragmentSize: i64): nat
    requires 0 < fragmentSize
  {
    if offers == [] then 0
    else AddedBy(cfg, offers[0], account, fragmentSize) + Added(cfg, offers[1..], account, fragmentSize)
  }

  /** The ledger after the queue, whatever prices are advertised: every account's counter has grown by its accepted
      bills and nothing else. */
  lemma {:induction false} BookAddsBills(cfg: Config, ledger: Ledger, offers: seq<Offer>, account: string,
                                         fragmentSize: i64)
    requires 0 < fragmentSize
    requires Read(ledger, account).sent + Added(cfg, offers, account, fragmentSize) < 0x1_0000_0000_0000_0000
    requires Read(ledger, account).received < 0xFFFF_FFFF_FFFF_FFFF
    ensures var after := Read(Book(cfg, ledger, offers, fragmentSize), account);
            && after.sent == Read(ledger, account).sent + Added(cfg, offers, account, fragmentSize)
            && after.received == Read(ledger, account).received
    decreases offers
  {
    if offers != [] {
      OneBillAdds(cfg, ledger, offers[0], account, fragmentSize);
      BookAddsBills(cfg, BookOne(cfg, ledger, offers[0], fragmentSize), offers[1..], account, fragmentSize);
    }
  }

  lemma OneBillAdds(cfg: Config, ledger: Ledger, offer: Offer, account: string, fragmentSize: i64)
    requires 0 < fragmentSize
    requires Read(ledger, account).sent + AddedBy(cfg, offer, account, fragmentSize) < 0x1_0000_0000_0000_0000
    requires Read(ledger, account).received < 0xFFFF_FFFF_FFFF_FFFF
    ensures var after := Read(BookOne(cfg, ledger, offer, fragmentSize), account);
            && after.sent == Read(ledger, account).sent + AddedBy(cfg, offer, account, fragmentSize)
            && after.received == Read(ledger, account).received
  {
    if Payable(offer) && cfg.price.Some? {
      var bill := BillOf(offer, fragmentSize);
      PaymentBooks(cfg, ledger, offer.account, account, offer.created, bill, OrderCount(cfg.price.value, bill));
    }
  }

  /** The fragments a price makes of a value: the value over the price, rounded down; a price whose low 64 bits are zero
      counts as 1. */
  lemma OrderCountIs(price: int, value: int, count: nat)
    requires 0 < price && count < 0x1_0000_0000_0000_0000
    requires var unit := if price % 0x1_0000_0000_0000_0000 == 0 then 1 else price;
             count * unit <= value < (count + 1) * unit
    ensures OrderCount(price, value) == count
  {
    var unit := if LowWord(price) == 0 then 1 else price;
    Ordered(0, count, unit);
    QuotientIs(value, unit, count);
  }

  /** The count of one offer, if its account is this one and the chain accepts it. */
  function CountOf(offer: Offer, account: string, fragmentSize: i64): int
    requires 0 < fragmentSize
  {
    if Payable(offer) && offer.created && offer.account == account
    then BilledCount(offer.creditLimit, fragmentSize).value else 0
  }

  function CountFor(offers: seq<Offer>, account: string, fragmentSize: i64): int
    requires 0 < fragmentSize
  {
    if offers == [] then 0
    else CountOf(offers[0], account, fragmentSize) + CountFor(offers[1..], account, fragmentSize)
  }

  lemma AddedIsCount(cfg: Config, offer: Offer, account: string, fragmentSize: i64)
    requires 1 < fragmentSize && cfg.price.Some? && LowWord(cfg.price.value) != 0
    requires offer.price == cfg.price && offer.creditLimit > -0x8000_0000_0000_0000
    ensures AddedBy(cfg, offer, account, fragmentSize) == CountOf(offer, account, fragmentSize)
  {
    if Payable(offer) {
      CountFits(offer.creditLimit, fragmentSize);
      OrderCountOfBill(cfg.price.value, BilledCount(offer.creditLimit, fragmentSize).value);
    }
  }

  lemma {:induction false} AllAddedIsCount(cfg: Config, offers: seq<Offer>, account: string, fragmentSize: i64)
    requires 1 < fragmentSize && cfg.price.Some? && LowWord(cfg.price.value) != 0
    requires forall offer <- offers :: offer.price == cfg.price && offer.creditLimit > -0x8000_0000_0000_0000
    ensures Added(cfg, offers, account, fragmentSize) == CountFor(offers, account, fragmentSize)
  {
    if offers != [] {
      AddedIsCount(cfg, offers[0], account, fragmentSize);
      AllAddedIsCount(cfg, offers[1..], account, fragmentSize);
    }
  }

  lemma PaymentBooks(cfg: Config, ledger: Ledger, payee: string, account: string, created: bool, bill: int, count: u64)
    requires cfg.price.Some? && OrderCount(cfg.price.value, bill) == count
    requires Read(ledger, account).received < 0xFFFF_FFFF_FFFF_FFFF
    requires created && payee == account ==> Read(ledger, account).sent + count < 0x1_0000_0000_0000_0000
    ensures var after := Read(PaymentCreditBill(cfg, ledger, payee, created, Some(bill)), account);
            && after.sent == Read(ledger, account).sent + (if created && payee == account then count else 0)
            && after.received == Read(ledger, account).received
  {
  }

  /** When the payer's own price is the advertised one, its ledger records for every account exactly the
      fragments it was billed for. */
  lemma BookRecordsBilledCounts(cfg: Config, ledger: Ledger, offers: seq<Offer>, account: string, fragmentSize: i64)
    requires 1 < fragmentSize && cfg.price.Some? && LowWord(cfg.price.value) != 0
    requires forall offer <- offers :: offer.price == cfg.price && offer.creditLimit > -0x8000_0000_0000_0000
    requires Read(ledger, account).sent + CountFor(offers, account, fragmentSize) < 0x1_0000_0000_0000_0000
    requires Read(ledger, account).received < 0xFFFF_FFFF_FFFF_FFFF
    ensures var after := Read(Book(cfg, ledger, offers, fragmentSize), account);
            && after.sent == Read(ledger, account).sent + CountFor(offers, account, fragmentSize)
            && after.received == Read(ledger, account).received
  {
    AllAddedIsCount(cfg, offers, account, fragmentSize);
    BookAddsBills(cfg, ledger, offers, account, fragmentSize);
  }
}
