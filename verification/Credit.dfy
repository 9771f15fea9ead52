/** The credit ledger of cd2n-lib/credit/credit.go.
    Counters are 64-bit unsigned and wrap; advertised limits are 64-bit signed and wrap. */
module Credit {
  import opened Common

  type u64 = x: int | 0 <= x < 0x1_0000_0000_0000_0000
  type i64 = x: int | -0x8000_0000_0000_0000 <= x < 0x8000_0000_0000_0000

  function WrapU64(x: int): u64 {
    if 0 <= x < 0x1_0000_0000_0000_0000 then x else x % 0x1_0000_0000_0000_0000
  }

  function WrapI64(x: int): i64 {
    if -0x8000_0000_0000_0000 <= x < 0x8000_0000_0000_0000 then x else
    var u := WrapU64(x);
    if u < 0x8000_0000_0000_0000 then u else u - 0x1_0000_0000_0000_0000
  }

  function NegateI64(x: int): i64 { WrapI64(-x) }

  lemma WrapMultiple(x: int) returns (q: int)
    ensures WrapU64(x) == x + q * 0x1_0000_0000_0000_0000
  {
    q := if 0 <= x < 0x1_0000_0000_0000_0000 then 0 else -(x / 0x1_0000_0000_0000_0000);
  }

  lemma WrapI64Multiple(x: int) returns (q: int)
    ensures WrapI64(x) == x + q * 0x1_0000_0000_0000_0000
  {
    if -0x8000_0000_0000_0000 <= x < 0x8000_0000_0000_0000 {
      return 0;
    }
    q := WrapMultiple(x);
    q := if WrapU64(x) < 0x8000_0000_0000_0000 then q else q - 1;
  }

  lemma WrapI64Unique(x: int, y: i64, q: int)
    requires y == x + q * 0x1_0000_0000_0000_0000
    ensures WrapI64(x) == y
  {
    var p := WrapI64Multiple(x);
  }

  const LEVEL_UNTRUST := 3

  // LastAccess is a wall-clock value and CheckedTimes is never used: neither is modelled.
  datatype RecordItem = RecordItem(level: int, sent: u64, received: u64)

  /** What the database holds under a key. `partial` is what a failed decoding leaves behind. */
  datatype Stored = Decodable(item: RecordItem) | Corrupt(partial: RecordItem)

  type Ledger = map<string, Stored>

  const FRESH := RecordItem(0, 0, 0)

  /** `price` is None when the configured price does not parse as an integer. */
  datatype Config = Config(reading: Reading, price: Option<int>, limit: u64)

  /** The order data attached to a request: none, or refused (by the chain, or because its value
      does not parse), or accepted with this value. */
  datatype Evidence = Missing | Refused | Order(value: int)

  // ---------- Reading a record ----------

  function Read(ledger: Ledger, key: string): RecordItem {
    if key !in ledger then FRESH
    else match ledger[key]
      case Decodable(item) => item
      case Corrupt(partial) => partial
  }

  /** The second result of GetCreditRecord. As written it is set only when decoding fails. */
  predicate Found(reading: Reading, ledger: Ledger, key: string) {
    key in ledger && match reading
      case AsWritten => ledger[key].Corrupt?
      case Intended => ledger[key].Decodable?
  }

  function Balance(r: RecordItem): int { r.sent - r.received }

  // ---------- The limit ----------

  function CalcLimit(limit: u64, r: RecordItem): (u64, bool) {
    if WrapU64(r.sent - r.received) > limit then
      (WrapU64(WrapU64(r.sent - r.received) - limit), true)
    else if r.sent > r.received then
      (WrapU64(limit - WrapU64(r.sent - r.received)), false)
    else
      (WrapU64(r.received - WrapU64(r.sent - limit)), false)
  }

  predicate Limited(limit: u64, r: RecordItem) { CalcLimit(limit, r).1 }

  /** Limited is "over the limit" unless the account is in credit by less than 2^64 - limit:
      then the unsigned comparison reports it limited although it owes nothing. */
  lemma LimitedIffOverLimit(limit: u64, r: RecordItem)
    ensures (Limited(limit, r) <==> Balance(r) > limit)
       <==> !(0 < r.received - r.sent < 0x1_0000_0000_0000_0000 - limit)
  {
    if r.sent >= r.received {
      assert WrapU64(r.sent - r.received) == r.sent - r.received;
    } else {
      assert WrapU64(r.sent - r.received) == r.sent - r.received + 0x1_0000_0000_0000_0000;
    }
  }

  lemma AdmittedOwesAtMostLimit(limit: u64, r: RecordItem)
    requires !Limited(limit, r)
    ensures Balance(r) <= limit
  {
    if r.sent >= r.received {
      assert WrapU64(r.sent - r.received) == r.sent - r.received;
    }
  }

  // ---------- The advertised credit ----------

  /** CreditLimit as GetCacheInfo derives it from the pair returned by calcLimit. */
  function Advertise(answer: (u64, bool)): i64 {
    if answer.1 then NegateI64(WrapI64(answer.0)) else WrapI64(answer.0)
  }

  function IsLimitedAnswer(cfg: Config, ledger: Ledger, key: string): (u64, bool) {
    if Found(cfg.reading, ledger, key) then CalcLimit(cfg.limit, Read(ledger, key)) else (cfg.limit, false)
  }

  /** All three branches of calcLimit, with the sign GetCacheInfo applies, advertise the same thing. */
  lemma AdvertisedIsBranchIndependent(limit: u64, r: RecordItem)
    ensures Advertise(CalcLimit(limit, r)) == WrapI64(limit - r.sent + r.received)
  {
    if WrapU64(r.sent - r.received) > limit {
      var q := WrapMultiple(r.sent - r.received);
      OverLimitAdvertises(limit, r, WrapU64(r.sent - r.received), q);
    } else if r.sent > r.received {
      assert CalcLimit(limit, r).0 == limit - r.sent + r.received;
    } else {
      var p := WrapMultiple(r.sent - limit);
      InCreditAdvertises(limit, r, WrapU64(r.sent - limit), p);
    }
  }

  lemma OverLimitAdvertises(limit: u64, r: RecordItem, difference: u64, q: int)
    requires difference == r.sent - r.received + q * 0x1_0000_0000_0000_0000
    requires difference > limit
    ensures NegateI64(WrapI64(WrapU64(difference - limit))) == WrapI64(limit - r.sent + r.received)
  {
    assert WrapU64(difference - limit) == difference - limit;
    NegatedWrap(difference - limit, limit - r.sent + r.received, -q);
  }

  lemma InCreditAdvertises(limit: u64, r: RecordItem, overdraft: u64, p: int)
    requires overdraft == r.sent - limit + p * 0x1_0000_0000_0000_0000
    ensures WrapI64(WrapU64(r.received - overdraft)) == WrapI64(limit - r.sent + r.received)
  {
    var t := WrapMultiple(r.received - overdraft);
    SameWrap(WrapU64(r.received - overdraft), limit - r.sent + r.received, t - p);
  }

  lemma SameWrap(x: int, y: int, q: int)
    requires x == y + q * 0x1_0000_0000_0000_0000
    ensures WrapI64(x) == WrapI64(y)
  {
    var p := WrapI64Multiple(x);
    WrapI64Unique(y, WrapI64(x), p + q);
  }

  lemma NegatedWrap(x: int, y: int, q: int)
    requires -x == y + q * 0x1_0000_0000_0000_0000
    ensures NegateI64(WrapI64(x)) == WrapI64(y)
  {
    var p := WrapI64Multiple(x);
    SameWrap(-(WrapI64(x) as int), y, q - p);
  }

  /** The advertised number is the true remaining credit exactly when that number fits in 64 bits. */
  lemma AdvertisedIsExactIff(limit: u64, r: RecordItem)
    ensures Advertise(CalcLimit(limit, r)) == limit - Balance(r)
       <==> -0x8000_0000_0000_0000 <= limit - Balance(r) < 0x8000_0000_0000_0000
  {
    AdvertisedIsBranchIndependent(limit, r);
  }

  /** What a user is told. With the flag as written a decodable record is taken for a missing one, so the
      advertised credit ignores the record; it is then right exactly when the record is balanced. */
  lemma AdvertisedToUserIff(cfg: Config, ledger: Ledger, key: string)
    requires key in ledger ==> ledger[key].Decodable?
    ensures var told := Advertise(IsLimitedAnswer(cfg, ledger, key));
            var r := Read(ledger, key);
            told == WrapI64(cfg.limit - r.sent + r.received) <==> cfg.reading.Intended? || r.sent == r.received
  {
    var r := Read(ledger, key);
    AdvertisedIsBranchIndependent(cfg.limit, r);
    var p := WrapI64Multiple(cfg.limit);
    var q := WrapI64Multiple(cfg.limit - r.sent + r.received);
  }

  // ---------- Updating a record ----------

  /** int(x) % LEVEL_UNTRUST on a signed 64-bit x: Go truncates toward zero. */
  function TruncatedMod(x: i64): int {
    if x >= 0 then x % LEVEL_UNTRUST else -(-(x as int) % LEVEL_UNTRUST)
  }

  /** The trust level of an account. The division panics when received is 2^64 - 1. */
  function LevelOf(sent: u64, received: u64): int
    requires received < 0xFFFF_FFFF_FFFF_FFFF
  {
    1 + TruncatedMod(WrapI64(sent / (received + 1)))
  }

  /** A level that has been computed lies between trusted (1) and untrusted (3), and is not the owner's 0, exactly
      when the number of times over that the account was sent what it gave fits in 63 bits, or wraps around to a
      multiple of 3. */
  lemma LevelRangeIff(sent: u64, received: u64)
    requires received < 0xFFFF_FFFF_FFFF_FFFF
    ensures 1 <= LevelOf(sent, received) <= LEVEL_UNTRUST
       <==> sent / (received + 1) < 0x8000_0000_0000_0000 || (sent / (received + 1)) % LEVEL_UNTRUST == 1
    ensures sent <= received ==> LevelOf(sent, received) == 1
  {
    SmallQuotient(sent, received + 1);
    SignedLevel(sent / (received + 1));
  }

  /** The level, exactly. An account that was sent `times` as much as it gave, rounded down, has level 1, 2 or 3 as that
      number leaves 0, 1 or 2 when divided by 3. A number of 2^63 or more wraps around to a negative one, and the level
      is then 1, 0 or -1. */
  lemma LevelIs(sent: u64, received: u64, times: nat)
    requires received < 0xFFFF_FFFF_FFFF_FFFF
    requires times * (received + 1) <= sent < (times + 1) * (received + 1)
    ensures times < 0x8000_0000_0000_0000 ==>
              && (LevelOf(sent, received) == 1 <==> times % 3 == 0)
              && (LevelOf(sent, received) == 2 <==> times % 3 == 1)
              && (LevelOf(sent, received) == 3 <==> times % 3 == 2)
    ensures times >= 0x8000_0000_0000_0000 ==>
              && (LevelOf(sent, received) == 1 <==> times % 3 == 1)
              && (LevelOf(sent, received) == 0 <==> times % 3 == 0)
              && (LevelOf(sent, received) == -1 <==> times % 3 == 2)
  {
    QuotientIs(sent, received + 1, times);
    SmallQuotient(sent, received + 1);
    SignedLevel(times);
  }

  lemma QuotientIs(x: nat, d: nat, q: nat)
    requires d > 0 && q * d <= x < (q + 1) * d
    ensures x / d == q
  {
    var p := x / d;
    assert x == d * p + x % d;
    if p < q {
      Ordered(p + 1, q, d);
    } else if p > q {
      Ordered(q + 1, p, d);
    }
  }

  lemma Ordered(a: nat, b: nat, d: nat)
    requires a <= b
    ensures a * d <= b * d
  {
  }

  lemma SmallQuotient(x: nat, d: nat)
    requires d > 0
    ensures 0 <= x / d <= x
    ensures x < d ==> x / d == 0
  {
    AtLeastOnce(x / d, d);
  }

  lemma AtLeastOnce(q: nat, d: nat)
    requires d > 0
    ensures q <= d * q
  {
  }

  lemma SignedLevel(q: u64)
    ensures q < 0x8000_0000_0000_0000 ==> TruncatedMod(WrapI64(q)) == q % 3
    ensures q >= 0x8000_0000_0000_0000 ==> TruncatedMod(WrapI64(q)) == -((0x1_0000_0000_0000_0000 - q) % 3)
    ensures q >= 0x8000_0000_0000_0000 ==> ((0x1_0000_0000_0000_0000 - q) % 3 == 0 <==> q % 3 == 1)
  {
  }

  /** Store the record with its level recomputed. A panic in that computation leaves the ledger as it was. */
  function Store(ledger: Ledger, key: string, sent: u64, received: u64): Ledger {
    if received == 0xFFFF_FFFF_FFFF_FFFF then ledger
    else ledger[key := Decodable(RecordItem(LevelOf(sent, received), sent, received))]
  }

  function AddCreditPoint(ledger: Ledger, key: string, resource: i64): Ledger {
    var r := Read(ledger, key);
    if resource < 0 then Store(ledger, key, WrapU64(r.sent - resource), r.received)
    else Store(ledger, key, r.sent, WrapU64(r.received + resource))
  }

  function IsLimited(cfg: Config, ledger: Ledger, key: string): Ledger {
    if Found(cfg.reading, ledger, key) then ledger else ledger[key := Decodable(Read(ledger, key))]
  }

  /** The sum of two counters, with 64-bit wrap-around. */
  predicate IsSum(sum: u64, a: u64, b: nat) {
    sum == a + b || sum == a + b - 0x1_0000_0000_0000_0000
  }

  /** What adding points does: one of the two counters grows, the level follows from both, the record is readable
      afterwards, and no other account is touched. Nothing happens when the level's division would be by zero. */
  lemma PointsAreAdded(ledger: Ledger, key: string, resource: i64)
    ensures var (before, ledger') := (Read(ledger, key), AddCreditPoint(ledger, key, resource));
            && ledger' - {key} == ledger - {key}
            && (ledger' == ledger || (key in ledger' && ledger'[key].Decodable?))
            && (ledger' != ledger ==>
                  && var after := ledger'[key].item;
                  && IsSum(after.sent, before.sent, if resource < 0 then -(resource as int) else 0)
                  && IsSum(after.received, before.received, if resource < 0 then 0 else resource as int)
                  && after.received != 0xFFFF_FFFF_FFFF_FFFF
                  && after.level == LevelOf(after.sent, after.received))
            && (before.received + (if resource < 0 then 0 else resource as int) < 0xFFFF_FFFF_FFFF_FFFF ==>
                  key in ledger' && ledger'[key].Decodable?)
  {
  }

  /** Uint64 of a big integer: the low 64 bits of its magnitude (Go leaves other values undefined). */
  function LowWord(x: int): u64 { (if x < 0 then -x else x) % 0x1_0000_0000_0000_0000 }

  /** The fragment count bought by an order of this value. A price whose low word is zero counts as 1.
      Go's big-integer Div is Euclidean, like the division here. */
  function OrderCount(price: int, value: int): u64 {
    var p := if LowWord(price) == 0 then 1 else price;
    LowWord(value / p)
  }

  function CheckCredit(cfg: Config, ledger: Ledger, key: string, evidence: Evidence): (Ledger, bool) {
    var r := Read(ledger, key);
    if !Found(cfg.reading, ledger, key) then (ledger[key := Decodable(r)], true)
    else if !(evidence.Order? && cfg.price.Some?) then (ledger, !Limited(cfg.limit, r))
    else
      var received := WrapU64(r.received + OrderCount(cfg.price.value, evidence.value));
      if received == 0xFFFF_FFFF_FFFF_FFFF then (ledger, false)
      else (Store(ledger, key, r.sent, received), !Limited(cfg.limit, r.(received := received)))
  }

  /** The account owes more than the limit, or is in credit by so little that the unsigned test takes it for that. */
  predicate Refusable(limit: u64, r: RecordItem) {
    Balance(r) > limit || 0 < r.received - r.sent < 0x1_0000_0000_0000_0000 - limit
  }

  lemma LimitedIff(limit: u64, r: RecordItem)
    ensures Limited(limit, r) <==> Refusable(limit, r)
  {
    LimitedIffOverLimit(limit, r);
  }

  /** What a credit check does to the record of an account that has one, when `count` is booked to what it gave: the
      account is admitted exactly when it is not refusable after that. Only the level's division can fail. */
  predicate Booked(limit: u64, before: RecordItem, count: u64, ledger: Ledger, key: string, admitted: bool) {
    && key in ledger && ledger[key].Decodable?
    && if before.received + count == 0xFFFF_FFFF_FFFF_FFFF then !admitted && ledger[key].item == before
       else
         && IsSum(ledger[key].item.received, before.received, count) && ledger[key].item.sent == before.sent
         && (admitted <==> !Refusable(limit, ledger[key].item))
  }

  lemma StoreBooks(limit: u64, ledger: Ledger, key: string, count: u64)
    requires key in ledger && ledger[key].Decodable?
    ensures var r := ledger[key].item;
            var received := WrapU64(r.received + count);
            if received == 0xFFFF_FFFF_FFFF_FFFF then Booked(limit, r, count, ledger, key, false)
            else Booked(limit, r, count, Store(ledger, key, r.sent, received), key,
                        !Limited(limit, r.(received := received)))
  {
    var r := ledger[key].item;
    LimitedIff(limit, r.(received := WrapU64(r.received + count)));
  }

  /** A credit check, with the flag as intended. An account without a readable record is admitted and gets one. Without
      an accepted order nothing changes; with one its count is booked. No other account is touched. */
  lemma CheckIs(cfg: Config, ledger: Ledger, key: string, evidence: Evidence)
    requires cfg.reading.Intended?
    ensures var (ledger', admitted) := CheckCredit(cfg, ledger, key, evidence);
            && ledger' - {key} == ledger - {key}
            && if key !in ledger || ledger[key].Corrupt? then
                 admitted && key in ledger' && ledger'[key] == Decodable(Read(ledger, key))
               else if evidence.Order? && cfg.price.Some? then
                 Booked(cfg.limit, ledger[key].item, OrderCount(cfg.price.value, evidence.value), ledger', key,
                        admitted)
               else
                 ledger' == ledger && (admitted <==> !Refusable(cfg.limit, ledger[key].item))
  {
    if key in ledger && ledger[key].Decodable? {
      if evidence.Order? && cfg.price.Some? {
        StoreBooks(cfg.limit, ledger, key, OrderCount(cfg.price.value, evidence.value));
      } else {
        LimitedIff(cfg.limit, ledger[key].item);
      }
    }
  }

  /** The payer's side: the order was created on the chain, or creating it failed. */
  function PaymentCreditBill(cfg: Config, ledger: Ledger, key: string, created: bool, value: Option<int>): Ledger {
    var r := Read(ledger, key);
    if !created || value.None? || cfg.price.None? then ledger
    else Store(ledger, key, WrapU64(r.sent + OrderCount(cfg.price.value, value.value)), r.received)
  }

  /** The object that owns the record database. Each operation is one atomic step on it. */
  class Manager {
    const cfg: Config
    var record: Ledger

    constructor (cfg: Config)
      ensures this.cfg == cfg && record == map[]
    {
      this.cfg := cfg;
      record := map[];
    }

    method GetCreditRecord(key: string) returns (item: RecordItem, ok: bool)
      ensures item == Read(record, key)
      ensures ok == Found(cfg.reading, record, key)
      ensures key !in record ==> item == FRESH && !ok
      ensures key in record && record[key].Decodable? ==> item == record[key].item && (ok <==> cfg.reading.Intended?)
      ensures key in record && record[key].Corrupt? ==> item == record[key].partial && (ok <==> cfg.reading.AsWritten?)
    {
      item, ok := FRESH, false;
      if key in record {
        match record[key] {
          case Decodable(decoded) => item, ok := decoded, cfg.reading.Intended?;
          case Corrupt(partial) => item, ok := partial, cfg.reading.AsWritten?;
        }
      }
    }

    method PutCreditRecord(key: string, item: RecordItem)
      modifies this
      ensures record == old(record)[key := Decodable(item)]
    {
      record := record[key := Decodable(item)];
    }

    /** Recompute the level and put the record back. The level's division panics on received = 2^64 - 1. */
    method Save(key: string, item: RecordItem) returns (panicked: bool)
      modifies this
      ensures record == Store(old(record), key, item.sent, item.received)
      ensures panicked <==> item.received == 0xFFFF_FFFF_FFFF_FFFF
    {
      panicked := item.received == 0xFFFF_FFFF_FFFF_FFFF;
      if !panicked {
        PutCreditRecord(key, item.(level := LevelOf(item.sent, item.received)));
      }
    }

    method AddPoint(key: string, resource: i64) returns (panicked: bool)
      modifies this
      ensures record == AddCreditPoint(old(record), key, resource)
      ensures panicked ==> record == old(record)
    {
      var item, _ := GetCreditRecord(key);
      if resource < 0 {
        item := item.(sent := WrapU64(item.sent - resource));
      } else {
        item := item.(received := WrapU64(item.received + resource));
      }
      panicked := Save(key, item);
    }

    method Check(key: string, evidence: Evidence) returns (admitted: bool)
      modifies this
      ensures (record, admitted) == CheckCredit(cfg, old(record), key, evidence)
    {
      var item, ok := GetCreditRecord(key);
      if !ok {
        PutCreditRecord(key, item);
        return true;
      }
      var over := CalcLimit(cfg.limit, item).1;
      if !evidence.Order? || cfg.price.None? {
        return !over;
      }
      item := item.(received := WrapU64(item.received + OrderCount(cfg.price.value, evidence.value)));
      over := CalcLimit(cfg.limit, item).1;
      var panicked := Save(key, item);
      admitted := !panicked && !over;
    }

    method Limit(key: string) returns (limit: u64, over: bool)
      modifies this
      ensures (limit, over) == IsLimitedAnswer(cfg, old(record), key)
      ensures record == IsLimited(cfg, old(record), key)
      ensures record - {key} == old(record) - {key} && key in record
      ensures over <==> Found(cfg.reading, old(record), key) && Refusable(cfg.limit, Read(old(record), key))
    {
      var item, ok := GetCreditRecord(key);
      if !ok {
        PutCreditRecord(key, item);
        return cfg.limit, false;
      }
      LimitedIff(cfg.limit, item);
      var answer := CalcLimit(cfg.limit, item);
      limit, over := answer.0, answer.1;
    }

    method Pay(key: string, created: bool, value: Option<int>)
      modifies this
      ensures record == PaymentCreditBill(cfg, old(record), key, created, value)
    {
      var item, _ := GetCreditRecord(key);
      if !created || value.None? || cfg.price.None? {
        return;
      }
      var _ := Save(key, item.(sent := WrapU64(item.sent + OrderCount(cfg.price.value, value.value))));
    }
  }
}
