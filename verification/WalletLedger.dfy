/** Seeding a wallet's ledger: apps/mobile/scripts/wallet-ledger-seed.ts and the copies of its cursor
    algorithm in apps/backend/scripts/seed-manual.ts and repair-local-dev-state.ts, with the balances that
    apps/backend/src/modules/wallet/invariant-service.ts computes back from a ledger.

    Amounts are exact; a money text is represented by the number of cents it shows. */
module WalletLedger {

  /** `toMoneyString`: two decimals, halves away from zero. */
  function Cents(x: real): int {
    if x >= 0.0 then (x * 100.0 + 0.5).Floor else -(-x * 100.0 + 0.5).Floor
  }

  datatype Wallet = Wallet(withdrawable: real, bonus: real, locked: real, wagered: real) {
    function Funding(): real {
      withdrawable + locked + wagered
    }

    predicate HasNegative() {
      withdrawable < 0.0 || bonus < 0.0 || locked < 0.0 || wagered < 0.0
    }

    function Shown(): Balances {
      Balances(Cents(withdrawable), Cents(bonus), Cents(locked), Cents(wagered))
    }
  }

  datatype Balances = Balances(withdrawable: int, bonus: int, locked: int, wagered: int)

  /** The wallet whose balances are these whole numbers of cents. */
  function OfCents(b: Balances): Wallet {
    Wallet(b.withdrawable as real / 100.0, b.bonus as real / 100.0, b.locked as real / 100.0, b.wagered as real / 100.0)
  }

  datatype EntryType = DepositCredit | WithdrawRequest | DrawCost | GamificationReward

  datatype Entry = Entry(entryType: EntryType, amount: int, before: int, after: int, reference: string)

  // ---- the entries ----

  /** The withdrawable balance after the first, second and third entry that may be written. */
  function Cursor(w: Wallet, step: nat): real {
    var funded := if w.Funding() > 0.0 then w.Funding() else 0.0;
    var unlocked := if w.locked > 0.0 then funded - w.locked else funded;
    var spent := if w.wagered > 0.0 then unlocked - w.wagered else unlocked;
    if step == 0 then 0.0 else if step == 1 then funded else if step == 2 then unlocked else spent
  }

  function DepositPart(w: Wallet, reference: string): seq<Entry> {
    if w.Funding() > 0.0 then
      [Entry(DepositCredit, Cents(w.Funding()), Cents(0.0), Cents(w.Funding()), reference)]
    else []
  }

  function LockedPart(w: Wallet, reference: string): seq<Entry> {
    if w.locked > 0.0 then
      [Entry(WithdrawRequest, Cents(-w.locked), Cents(Cursor(w, 1)), Cents(Cursor(w, 2)), reference)]
    else []
  }

  function WageredPart(w: Wallet, reference: string): seq<Entry> {
    if w.wagered > 0.0 then
      [Entry(DrawCost, Cents(-w.wagered), Cents(Cursor(w, 2)), Cents(Cursor(w, 3)), reference)]
    else []
  }

  function BonusPart(w: Wallet, reference: string): seq<Entry> {
    if w.bonus > 0.0 then [Entry(GamificationReward, Cents(w.bonus), 0, Cents(w.bonus), reference)] else []
  }

  /** The entries that concern the withdrawable balance, and all entries. */
  function WithdrawableEntries(w: Wallet, reference: string): seq<Entry> {
    DepositPart(w, reference) + LockedPart(w, reference) + WageredPart(w, reference)
  }

  function SeedEntries(w: Wallet, reference: string): seq<Entry> {
    WithdrawableEntries(w, reference) + BonusPart(w, reference)
  }

  datatype Built = Thrown | Entries(entries: seq<Entry>)

  const MOBILE_REFERENCE := "mobile_maestro_seed"

  method BuildWalletLedgerSeedEntries(w: Wallet) returns (built: Built)
    ensures built == if w.withdrawable < 0.0 || w.bonus < 0.0 || w.locked < 0.0 || w.wagered < 0.0 then Thrown
                     else Entries(SeedEntries(w, "mobile_maestro_seed"))
  {
    if w.withdrawable < 0.0 || w.bonus < 0.0 || w.locked < 0.0 || w.wagered < 0.0 {
      return Thrown;
    }
    var entries := [];
    var cursor := 0.0;
    var funding := w.withdrawable + w.locked + w.wagered;
    if funding > 0.0 {
      entries := entries
        + [Entry(DepositCredit, Cents(funding), Cents(cursor), Cents(cursor + funding), MOBILE_REFERENCE)];
      cursor := cursor + funding;
    }
    if w.locked > 0.0 {
      entries := entries
        + [Entry(WithdrawRequest, Cents(-w.locked), Cents(cursor), Cents(cursor - w.locked), MOBILE_REFERENCE)];
      cursor := cursor - w.locked;
    }
    if w.wagered > 0.0 {
      entries := entries
        + [Entry(DrawCost, Cents(-w.wagered), Cents(cursor), Cents(cursor - w.wagered), MOBILE_REFERENCE)];
      cursor := cursor - w.wagered;
    }
    if w.bonus > 0.0 {
      entries := entries + [Entry(GamificationReward, Cents(w.bonus), 0, Cents(w.bonus), MOBILE_REFERENCE)];
    }
    return Entries(entries);
  }

  // ---- reading a ledger back ----

  function EntryBalances(e: Entry): Balances {
    match e.entryType
    case DepositCredit => Balances(e.amount, 0, 0, 0)
    case WithdrawRequest => Balances(e.amount, 0, -e.amount, 0)
    case DrawCost => Balances(e.amount, 0, 0, -e.amount)
    case GamificationReward => Balances(0, e.amount, 0, 0)
  }

  function Plus(a: Balances, b: Balances): Balances {
    Balances(a.withdrawable + b.withdrawable, a.bonus + b.bonus, a.locked + b.locked, a.wagered + b.wagered)
  }

  /** The expected balances: the sums of the invariant query over the entries of one user. */
  function Replay(entries: seq<Entry>): Balances {
    if entries == [] then Balances(0, 0, 0, 0) else Plus(EntryBalances(entries[0]), Replay(entries[1..]))
  }

  lemma {:induction false} ReplayConcat(a: seq<Entry>, b: seq<Entry>)
    ensures Replay(a + b) == Plus(Replay(a), Replay(b))
  {
    if a == [] {
      assert a + b == b;
    } else {
      assert (a + b)[1..] == a[1..] + b;
      ReplayConcat(a[1..], b);
    }
  }

  lemma {:induction false} CentsNegated(x: real)
    ensures Cents(-x) == -Cents(x)
  {}

  lemma {:induction false} ReplayAtMostOne(es: seq<Entry>)
    requires |es| <= 1
    ensures Replay(es) == if es == [] then Balances(0, 0, 0, 0) else EntryBalances(es[0])
  {}

  lemma {:induction false} ReplayParts(w: Wallet, reference: string)
    ensures Replay(DepositPart(w, reference))
         == Balances(if w.Funding() > 0.0 then Cents(w.Funding()) else 0, 0, 0, 0)
    ensures Replay(LockedPart(w, reference))
         == (var c := if w.locked > 0.0 then Cents(w.locked) else 0; Balances(-c, 0, c, 0))
    ensures Replay(WageredPart(w, reference))
         == (var c := if w.wagered > 0.0 then Cents(w.wagered) else 0; Balances(-c, 0, 0, c))
    ensures Replay(BonusPart(w, reference)) == Balances(0, if w.bonus > 0.0 then Cents(w.bonus) else 0, 0, 0)
  {
    hide Cents, Replay;
    ReplayAtMostOne(DepositPart(w, reference));
    ReplayAtMostOne(LockedPart(w, reference));
    ReplayAtMostOne(WageredPart(w, reference));
    ReplayAtMostOne(BonusPart(w, reference));
    CentsNegated(w.locked);
    CentsNegated(w.wagered);
  }

  /** What replaying the seeded entries gives, for every wallet. */
  lemma {:induction false} ReplaySeeded(w: Wallet, reference: string)
    ensures Replay(SeedEntries(w, reference)) ==
            Balances((if w.Funding() > 0.0 then Cents(w.Funding()) else 0)
                     - (if w.locked > 0.0 then Cents(w.locked) else 0)
                     - (if w.wagered > 0.0 then Cents(w.wagered) else 0),
                     if w.bonus > 0.0 then Cents(w.bonus) else 0,
                     if w.locked > 0.0 then Cents(w.locked) else 0,
                     if w.wagered > 0.0 then Cents(w.wagered) else 0)
  {
    hide Cents, Replay;
    ReplayParts(w, reference);
    var d, l := DepositPart(w, reference), LockedPart(w, reference);
    var g, b := WageredPart(w, reference), BonusPart(w, reference);
    ReplayConcat(d + l + g, b);
    ReplayConcat(d + l, g);
    ReplayConcat(d, l);
  }

  lemma {:induction false} CentsOfWhole(n: int)
    ensures Cents(n as real / 100.0) == n
  {
    FloorPlusHalf(n);
    FloorPlusHalf(-n);
    assert n as real / 100.0 * 100.0 == n as real;
    assert -(n as real / 100.0) * 100.0 == (-n) as real;
  }

  lemma {:induction false} FloorPlusHalf(n: int)
    ensures (n as real + 0.5).Floor == n
  {}

  /** A wallet in whole cents shows exactly its balances. */
  lemma {:induction false} ShownOfCents(b: Balances)
    ensures OfCents(b).Shown() == b
  {
    hide Cents;
    CentsOfWhole(b.withdrawable);
    CentsOfWhole(b.bonus);
    CentsOfWhole(b.locked);
    CentsOfWhole(b.wagered);
  }

  /** Half a cent is rounded away from zero. */
  lemma {:induction false} HalvesRoundAway(n: nat)
    ensures Cents((n as real + 0.5) / 100.0) == n + 1
    ensures Cents(-((n as real + 0.5) / 100.0)) == -(n + 1)
  {
    var x := (n as real + 0.5) / 100.0;
    assert x * 100.0 == n as real + 0.5;
    FloorOfSum(n + 1);
    CentsNegated(x);
  }

  lemma {:induction false} FloorOfSum(n: int)
    ensures (n as real).Floor == n
  {}

  /** The bonus has one entry of its own, the last one, exactly when there is a bonus: it starts at zero and
      ends at the rounded bonus.  All entries carry the reference. */
  lemma {:induction false} BonusStartsAtZero(w: Wallet, reference: string)
    ensures var es := SeedEntries(w, reference);
            var rest := if w.bonus > 0.0 then |es| - 1 else |es|;
            (w.bonus > 0.0 ==>
               es != [] && es[|es| - 1] == Entry(GamificationReward, Cents(w.bonus), 0, Cents(w.bonus), reference))
            && (forall i :: 0 <= i < rest ==> es[i].entryType != GamificationReward)
            && (forall i :: 0 <= i < |es| ==> es[i].reference == reference)
  {
    hide Cents;
  }

  /** There is one entry for each positive amount, and none for the others. */
  lemma {:induction false} OneEntryPerPositiveAmount(w: Wallet, reference: string)
    ensures |SeedEntries(w, reference)|
         == (if w.withdrawable + w.locked + w.wagered > 0.0 then 1 else 0) + (if w.locked > 0.0 then 1 else 0)
            + (if w.wagered > 0.0 then 1 else 0) + (if w.bonus > 0.0 then 1 else 0)
  {
    hide Cents;
  }

  /** Can the four kinds of seeded entries add up to these balances? */
  predicate Representable(b: Balances) {
    b.bonus >= 0 && b.locked >= 0 && b.wagered >= 0 && b.withdrawable + b.locked + b.wagered >= 0
  }

  /** For wallets in whole cents, of any sign: replaying the seeded ledger gives back every balance exactly
      when nothing but the withdrawable balance is negative, and the funding is not negative either. */
  lemma {:induction false} ReplayInvertsSeeding(b: Balances, reference: string)
    ensures Replay(SeedEntries(OfCents(b), reference)) == b <==> Representable(b)
  {
    hide Cents, Replay, SeedEntries;
    var w := OfCents(b);
    ReplaySeeded(w, reference);
    CentsOfWhole(b.bonus);
    CentsOfWhole(b.locked);
    CentsOfWhole(b.wagered);
    var funding := b.withdrawable + b.locked + b.wagered;
    assert w.Funding() == funding as real / 100.0;
    CentsOfWhole(funding);
  }

  // ---- inputs of any precision ----

  lemma {:induction false} CentsError(x: real)
    ensures -0.5 <= Cents(x) as real - x * 100.0 <= 0.5
  {}

  /** From non-negative balances of any precision: the withdrawable entries start at zero, follow each other
      without a gap, each balances up to a cent, and they end at the rounded withdrawable balance. */
  lemma {:induction false} EntriesChain(w: Wallet, reference: string)
    requires !w.HasNegative()
    ensures var es := WithdrawableEntries(w, reference);
            (es != [] ==> es[0].before == 0 && es[|es| - 1].after == Cents(w.withdrawable))
            && (forall i :: 0 <= i < |es| - 1 ==> es[i].after == es[i + 1].before)
            && (forall i :: 0 <= i < |es| ==> -1 <= es[i].before + es[i].amount - es[i].after <= 1)
            && (es == [] ==> Cents(w.withdrawable) == 0)
  {
    hide Cents;
    CentsZero();
    CentsBalance(0.0, w.Funding());
    CentsBalance(Cursor(w, 1), -w.locked);
    CentsBalance(Cursor(w, 2), -w.wagered);
  }

  lemma {:induction false} CentsZero()
    ensures Cents(0.0) == 0
  {}

  lemma {:induction false} CentsBalance(x: real, y: real)
    ensures -1 <= Cents(x) + Cents(y) - Cents(x + y) <= 1
  {
    CentsError(x);
    CentsError(y);
    CentsError(x + y);
  }

  /** ... and the signed amounts add up to the withdrawable balance within one and a half cents, while the
      locked, wagered and bonus balances replay to their own rounding. */
  lemma {:induction false} ReplayWithinRounding(w: Wallet, reference: string)
    requires !w.HasNegative()
    ensures var r := Replay(SeedEntries(w, reference));
            -0.015 <= r.withdrawable as real / 100.0 - w.withdrawable <= 0.015
            && r.locked == Cents(w.locked) && r.wagered == Cents(w.wagered) && r.bonus == Cents(w.bonus)
  {
    hide Cents;
    ReplaySeeded(w, reference);
    CentsZero();
    CentsError(w.Funding());
    CentsError(w.locked);
    CentsError(w.wagered);
  }

  lemma {:induction false} CentsSign(x: real)
    ensures x >= 0.0 ==> Cents(x) >= 0
    ensures x <= 0.0 ==> Cents(x) <= 0
  {}

  /** Exactly when the ledger replays to what the wallet shows, for every wallet of any sign and precision:
      no part may show a negative amount, and rounding what was funded must give the sum of the rounded
      parts. */
  lemma {:induction false} ReplayShowsWalletIff(w: Wallet, reference: string)
    ensures var funded := if w.Funding() > 0.0 then Cents(w.Funding()) else 0;
            Replay(SeedEntries(w, reference)) == w.Shown() <==>
              Cents(w.bonus) >= 0 && Cents(w.locked) >= 0 && Cents(w.wagered) >= 0
              && funded == Cents(w.withdrawable) + Cents(w.locked) + Cents(w.wagered)
  {
    hide Cents, Replay, SeedEntries;
    ReplaySeeded(w, reference);
    CentsSign(w.bonus);
    CentsSign(w.locked);
    CentsSign(w.wagered);
  }

  /** For the wallets that the builder accepts only the rounding of the funding is left to check. */
  lemma {:induction false} ReplayDriftsUnless(w: Wallet, reference: string)
    requires !w.HasNegative()
    ensures Replay(SeedEntries(w, reference)) == w.Shown() <==>
              Cents(w.Funding()) == Cents(w.withdrawable) + Cents(w.locked) + Cents(w.wagered)
  {
    hide Cents, Replay, SeedEntries;
    ReplayShowsWalletIff(w, reference);
    CentsSign(w.bonus);
    CentsSign(w.locked);
    CentsSign(w.wagered);
    CentsSign(w.Funding());
  }

  /** The condition can fail: three amounts below half a cent leave a cent in the ledger that the wallet
      does not show. */
  lemma {:induction false} RoundingDrifts()
    ensures var w := Wallet(0.004, 0.0, 0.004, 0.004);
            !w.HasNegative()
            && Replay(SeedEntries(w, MOBILE_REFERENCE)).withdrawable == 1 && w.Shown().withdrawable == 0
  {
    var w := Wallet(0.004, 0.0, 0.004, 0.004);
    ReplaySeeded(w, MOBILE_REFERENCE);
    assert Cents(0.012) == 1 && Cents(0.004) == 0;
  }
}
