/** The ledger table, the code that seeds it, and the repair loop of
    apps/backend/scripts/repair-local-dev-state.ts. */
module WalletRepair {
  import opened WalletLedger

  /** Ledger rows by user; a user without rows need not be listed. */
  type Rows = map<nat, seq<Entry>>
  type Wallets = map<nat, Wallet>

  const REPAIR_REFERENCE := "local_repair"
  const MANUAL_REFERENCE := "manual_seed"

  function RowsOf(rows: Rows, user: nat): seq<Entry> {
    if user in rows then rows[user] else []
  }

  function Appended(rows: Rows, user: nat, more: seq<Entry>): Rows {
    if more == [] then rows else rows[user := RowsOf(rows, user) + more]
  }

  /** The wallet as its money texts show it. */
  function Rounded(w: Wallet): Wallet {
    OfCents(w.Shown())
  }

  class LedgerDb {
    var rows: Rows
    const wallets: Wallets

    constructor (rows: Rows, wallets: Wallets)
      ensures this.rows == rows && this.wallets == wallets
    {
      this.rows, this.wallets := rows, wallets;
    }

    method Insert(user: nat, entry: Entry)
      modifies this`rows
      ensures rows == Appended(old(rows), user, [entry])
    {
      rows := rows[user := (if user in rows then rows[user] else []) + [entry]];
    }

    /** The copy of the repair script: no check of the signs. */
    method SeedWalletLedger(user: nat, w: Wallet, reference: string)
      modifies this`rows
      ensures rows == Appended(old(rows), user, SeedEntries(w, reference))
    {
      hide Cents;
      var cursor := 0.0;
      var funding := w.withdrawable + w.locked + w.wagered;
      assert cursor + funding == w.Funding();
      ghost var done := DepositPart(w, reference);
      if funding > 0.0 {
        Insert(user, Entry(DepositCredit, Cents(funding), Cents(cursor), Cents(cursor + funding), reference));
        cursor := cursor + funding;
      }
      assert rows == Appended(old(rows), user, done) && cursor == Cursor(w, 1);
      if w.locked > 0.0 {
        Insert(user, Entry(WithdrawRequest, Cents(-w.locked), Cents(cursor), Cents(cursor - w.locked), reference));
        cursor := cursor - w.locked;
      }
      AppendTwice(old(rows), user, done, LockedPart(w, reference));
      done := done + LockedPart(w, reference);
      assert rows == Appended(old(rows), user, done) && cursor == Cursor(w, 2);
      if w.wagered > 0.0 {
        Insert(user, Entry(DrawCost, Cents(-w.wagered), Cents(cursor), Cents(cursor - w.wagered), reference));
        cursor := cursor - w.wagered;
      }
      AppendTwice(old(rows), user, done, WageredPart(w, reference));
      done := done + WageredPart(w, reference);
      assert rows == Appended(old(rows), user, done);
      if w.bonus > 0.0 {
        Insert(user, Entry(GamificationReward, Cents(w.bonus), 0, Cents(w.bonus), reference));
      }
      AppendTwice(old(rows), user, done, BonusPart(w, reference));
    }

    /** The copy of the manual seed: negative wallets are refused first, then the same steps follow. */
    method SeedManually(user: nat, w: Wallet) returns (thrown: bool)
      modifies this`rows
      ensures thrown == (w.withdrawable < 0.0 || w.bonus < 0.0 || w.locked < 0.0 || w.wagered < 0.0)
      ensures rows == if thrown then old(rows) else Appended(old(rows), user, SeedEntries(w, "manual_seed"))
    {
      hide Cents;
      if w.withdrawable < 0.0 || w.bonus < 0.0 || w.locked < 0.0 || w.wagered < 0.0 {
        return true;
      }
      var cursor := 0.0;
      var funding := w.withdrawable + w.locked + w.wagered;
      assert cursor + funding == w.Funding();
      ghost var done := DepositPart(w, MANUAL_REFERENCE);
      if funding > 0.0 {
        Insert(user, Entry(DepositCredit, Cents(funding), Cents(cursor), Cents(cursor + funding), MANUAL_REFERENCE));
        cursor := cursor + funding;
      }
      assert rows == Appended(old(rows), user, done) && cursor == Cursor(w, 1);
      if w.locked > 0.0 {
        Insert(user, Entry(WithdrawRequest, Cents(-w.locked), Cents(cursor), Cents(cursor - w.locked),
                           MANUAL_REFERENCE));
        cursor := cursor - w.locked;
      }
      AppendTwice(old(rows), user, done, LockedPart(w, MANUAL_REFERENCE));
      done := done + LockedPart(w, MANUAL_REFERENCE);
      assert rows == Appended(old(rows), user, done) && cursor == Cursor(w, 2);
      if w.wagered > 0.0 {
        Insert(user, Entry(DrawCost, Cents(-w.wagered), Cents(cursor), Cents(cursor - w.wagered), MANUAL_REFERENCE));
        cursor := cursor - w.wagered;
      }
      AppendTwice(old(rows), user, done, WageredPart(w, MANUAL_REFERENCE));
      done := done + WageredPart(w, MANUAL_REFERENCE);
      assert rows == Appended(old(rows), user, done);
      if w.bonus > 0.0 {
        Insert(user, Entry(GamificationReward, Cents(w.bonus), 0, Cents(w.bonus), MANUAL_REFERENCE));
      }
      AppendTwice(old(rows), user, done, BonusPart(w, MANUAL_REFERENCE));
      return false;
    }

    /** The mobile reseed deletes the user's rows first, also when building the new ones then throws. */
    method ReseedWalletLedger(user: nat, w: Wallet) returns (thrown: bool)
      modifies this`rows
      ensures thrown == (w.withdrawable < 0.0 || w.bonus < 0.0 || w.locked < 0.0 || w.wagered < 0.0)
      ensures rows == Appended(old(rows) - {user}, user, if thrown then [] else SeedEntries(w, "mobile_maestro_seed"))
    {
      rows := rows - {user};
      var built := BuildWalletLedgerSeedEntries(w);
      if built.Thrown? {
        return true;
      }
      if built.entries != [] {
        rows := rows[user := built.entries];
        assert RowsOf(old(rows) - {user}, user) + built.entries == built.entries;
      }
      return false;
    }

    /** The loop of `repairWalletDrift` over the users with a mismatch. */
    method RepairWalletDrift(mismatches: seq<nat>) returns (repaired: seq<nat>)
      modifies this`rows
      ensures rows == Repaired(old(rows), wallets, mismatches)
      ensures repaired == Reported(old(rows), wallets, mismatches)
    {
      repaired := [];
      for i := 0 to |mismatches|
        invariant rows == Repaired(old(rows), wallets, mismatches[..i])
        invariant repaired == Reported(old(rows), wallets, mismatches[..i])
      {
        var user := mismatches[i];
        assert mismatches[..i + 1] == mismatches[..i] + [user];
        RepairedAppend(old(rows), wallets, mismatches[..i], user);
        ReportedAppend(old(rows), wallets, mismatches[..i], user);
        if user in rows && rows[user] != [] {
          continue;
        }
        if user !in wallets {
          continue;
        }
        SeedWalletLedger(user, Rounded(wallets[user]), REPAIR_REFERENCE);
        repaired := repaired + [user];
      }
      assert mismatches[..|mismatches|] == mismatches;
    }
  }

  lemma {:induction false} AppendTwice(rows: Rows, user: nat, a: seq<Entry>, b: seq<Entry>)
    ensures Appended(Appended(rows, user, a), user, b) == Appended(rows, user, a + b)
  {
    if a == [] {
      assert a + b == b;
    } else if b == [] {
      assert a + b == a;
    } else {
      assert RowsOf(rows, user) + a + b == RowsOf(rows, user) + (a + b);
    }
  }

  // ---- the repair, one user after the other ----

  /** The rows that the repair adds for a user. */
  function RepairFor(rows: Rows, wallets: Wallets, user: nat): seq<Entry> {
    if RowsOf(rows, user) == [] && user in wallets then SeedEntries(Rounded(wallets[user]), REPAIR_REFERENCE) else []
  }

  function Repaired(rows: Rows, wallets: Wallets, users: seq<nat>): Rows
    decreases |users|
  {
    if users == [] then rows
    else Repaired(Appended(rows, users[0], RepairFor(rows, wallets, users[0])), wallets, users[1..])
  }

  lemma {:induction false} RepairedAppend(rows: Rows, wallets: Wallets, users: seq<nat>, user: nat)
    ensures var before := Repaired(rows, wallets, users);
            Repaired(rows, wallets, users + [user]) == Appended(before, user, RepairFor(before, wallets, user))
    decreases |users|
  {
    if users == [] {
      assert users + [user] == [user];
      assert [user][1..] == [];
    } else {
      assert (users + [user])[1..] == users[1..] + [user];
      RepairedAppend(Appended(rows, users[0], RepairFor(rows, wallets, users[0])), wallets, users[1..], user);
    }
  }

  /** The users that the repair reports, in order. */
  function Reported(rows: Rows, wallets: Wallets, users: seq<nat>): seq<nat>
    decreases |users|
  {
    if users == [] then []
    else (if RowsOf(rows, users[0]) == [] && users[0] in wallets then [users[0]] else [])
         + Reported(Appended(rows, users[0], RepairFor(rows, wallets, users[0])), wallets, users[1..])
  }

  lemma {:induction false} ReportedAppend(rows: Rows, wallets: Wallets, users: seq<nat>, user: nat)
    ensures var before := Repaired(rows, wallets, users);
            Reported(rows, wallets, users + [user])
            == Reported(rows, wallets, users) + (if RowsOf(before, user) == [] && user in wallets then [user] else [])
    decreases |users|
  {
    hide SeedEntries;
    if users == [] {
      assert users + [user] == [user];
      assert [user][1..] == [];
    } else {
      assert (users + [user])[1..] == users[1..] + [user];
      ReportedAppend(Appended(rows, users[0], RepairFor(rows, wallets, users[0])), wallets, users[1..], user);
    }
  }

  lemma {:induction false} RowsAppended(rows: Rows, user: nat, more: seq<Entry>, u: nat)
    ensures RowsOf(Appended(rows, user, more), u) == if u == user then RowsOf(rows, u) + more else RowsOf(rows, u)
  {}

  lemma {:induction false} CountConcat(a: seq<nat>, b: seq<nat>, u: nat)
    ensures multiset(a + b)[u] == multiset(a)[u] + multiset(b)[u]
  {}

  lemma {:induction false} CountHead(users: seq<nat>, u: nat)
    requires users != []
    ensures multiset(users)[u] == (if users[0] == u then 1 else 0) + multiset(users[1..])[u]
  {
    assert users == [users[0]] + users[1..];
  }

  lemma {:induction false} ReportedHead(rows: Rows, wallets: Wallets, users: seq<nat>, u: nat)
    requires users != []
    ensures var next := Appended(rows, users[0], RepairFor(rows, wallets, users[0]));
            multiset(Reported(rows, wallets, users))[u]
            == (if users[0] == u && RowsOf(rows, u) == [] && u in wallets then 1 else 0)
               + multiset(Reported(next, wallets, users[1..]))[u]
  {
    hide RepairFor, Appended;
    var next := Appended(rows, users[0], RepairFor(rows, wallets, users[0]));
    CountConcat(if RowsOf(rows, users[0]) == [] && users[0] in wallets then [users[0]] else [],
                Reported(next, wallets, users[1..]), u);
  }

  /** How often a user is reported: a repair that adds rows once, however often the user is listed; a
      repair of an empty wallet, which adds none, every time; anybody else never. */
  lemma {:induction false} ReportedCount(rows: Rows, wallets: Wallets, users: seq<nat>, u: nat)
    ensures var times := multiset(users)[u];
            multiset(Reported(rows, wallets, users))[u]
            == if RowsOf(rows, u) != [] || u !in wallets then 0
               else if RepairFor(rows, wallets, u) != [] && times > 0 then 1
               else times
    decreases |users|
  {
    if users != [] {
      hide SeedEntries, Appended, RowsOf, Reported;
      var next := Appended(rows, users[0], RepairFor(rows, wallets, users[0]));
      ReportedCount(next, wallets, users[1..], u);
      RowsAppended(rows, users[0], RepairFor(rows, wallets, users[0]), u);
      ReportedHead(rows, wallets, users, u);
      CountHead(users, u);
    }
  }

  /** Of users who are listed once each, those are reported, in the order of the list, who have a wallet and no
      rows. */
  lemma {:induction false} ReportedInOrder(rows: Rows, wallets: Wallets, users: seq<nat>)
    requires forall i, j :: 0 <= i < j < |users| ==> users[i] != users[j]
    ensures Reported(rows, wallets, users) == WithoutRows(rows, wallets, users)
    decreases |users|
  {
    if users != [] {
      hide SeedEntries, Appended, RowsOf;
      var next := Appended(rows, users[0], RepairFor(rows, wallets, users[0]));
      ReportedInOrder(next, wallets, users[1..]);
      forall u | u in users[1..] ensures RowsOf(next, u) == RowsOf(rows, u) {
        RowsAppended(rows, users[0], RepairFor(rows, wallets, users[0]), u);
      }
      SameWithoutRows(next, rows, wallets, users[1..]);
    }
  }

  function WithoutRows(rows: Rows, wallets: Wallets, users: seq<nat>): seq<nat> {
    if users == [] then []
    else (if RowsOf(rows, users[0]) == [] && users[0] in wallets then [users[0]] else [])
         + WithoutRows(rows, wallets, users[1..])
  }

  lemma {:induction false} SameWithoutRows(a: Rows, b: Rows, wallets: Wallets, users: seq<nat>)
    requires forall u :: u in users ==> RowsOf(a, u) == RowsOf(b, u)
    ensures WithoutRows(a, wallets, users) == WithoutRows(b, wallets, users)
  {
    if users != [] {
      SameWithoutRows(a, b, wallets, users[1..]);
    }
  }

  /** The rows that a repair adds carry the repair's reference. */
  lemma {:induction false} RepairIsMarked(rows: Rows, wallets: Wallets, u: nat)
    ensures forall i :: 0 <= i < |RepairFor(rows, wallets, u)| ==>
              RepairFor(rows, wallets, u)[i].reference == "local_repair"
  {
    hide SeedEntries, Cents;
    if u in wallets { BonusStartsAtZero(Rounded(wallets[u]), "local_repair"); }
  }

  /** The repair meant user by user: listed users with a wallet and no rows get the seeded rows once,
      however often they are listed; nobody else is touched. */
  lemma {:induction false} RowsAfterRepair(rows: Rows, wallets: Wallets, users: seq<nat>, u: nat)
    ensures RowsOf(Repaired(rows, wallets, users), u)
         == if u in users then RowsOf(rows, u) + RepairFor(rows, wallets, u) else RowsOf(rows, u)
    decreases |users|
  {
    if users != [] {
      var next := Appended(rows, users[0], RepairFor(rows, wallets, users[0]));
      RowsAfterRepair(next, wallets, users[1..], u);
    }
  }

  // ---- what the repair achieves ----

  function Expected(rows: Rows, user: nat): Balances {
    Replay(RowsOf(rows, user))
  }

  /** The wallet's shown balances; a missing wallet counts as empty. */
  function Actual(wallets: Wallets, user: nat): Balances {
    if user in wallets then wallets[user].Shown() else Balances(0, 0, 0, 0)
  }

  /** `listWalletInvariantMismatches`, for ledgers with known entry types. */
  predicate Mismatched(rows: Rows, wallets: Wallets, user: nat) {
    Expected(rows, user) != Actual(wallets, user)
  }

  /** After repairing any list that names `u`, the user is still mismatched exactly when the mismatch was
      there before and the repair could not help: rows already existed, or no seeded rows add up to the
      wallet. */
  lemma {:induction false} RepairedUnless(rows: Rows, wallets: Wallets, users: seq<nat>, u: nat)
    requires u in users
    ensures Mismatched(Repaired(rows, wallets, users), wallets, u)
            <==> Mismatched(rows, wallets, u) && (RowsOf(rows, u) != [] || !Representable(Actual(wallets, u)))
  {
    hide Cents, SeedEntries;
    RowsAfterRepair(rows, wallets, users, u);
    if RowsOf(rows, u) == [] && u in wallets {
      ReplayInvertsSeeding(wallets[u].Shown(), REPAIR_REFERENCE);
      var more := RepairFor(rows, wallets, u);
      assert [] + more == more;
    } else {
      assert RowsOf(rows, u) + [] == RowsOf(rows, u);
    }
  }

  /** A user with a non-negative wallet and no rows ends with a ledger that replays to the wallet. */
  lemma {:induction false} NonNegativeWalletRepaired(rows: Rows, wallets: Wallets, users: seq<nat>, u: nat)
    requires u in users && u in wallets && RowsOf(rows, u) == [] && !wallets[u].HasNegative()
    ensures Expected(Repaired(rows, wallets, users), u) == wallets[u].Shown()
  {
    RepairedUnless(rows, wallets, users, u);
    assert Representable(wallets[u].Shown());
  }

  /** Users who are not listed, have rows, or have no wallet keep what they had. */
  lemma {:induction false} OthersUntouched(rows: Rows, wallets: Wallets, users: seq<nat>, u: nat)
    requires u !in users || RowsOf(rows, u) != [] || u !in wallets
    ensures RowsOf(Repaired(rows, wallets, users), u) == RowsOf(rows, u)
  {
    RowsAfterRepair(rows, wallets, users, u);
  }

  /** A second repair, of any list of users that the first one went through, changes nothing. */
  lemma {:induction false} SecondRepairChangesNothing(rows: Rows, wallets: Wallets, users: seq<nat>, again: seq<nat>)
    requires forall u :: u in again ==> u in users
    ensures var once := Repaired(rows, wallets, users);
            Repaired(once, wallets, again) == once
    decreases |again|
  {
    if again != [] {
      var once := Repaired(rows, wallets, users);
      RowsAfterRepair(rows, wallets, users, again[0]);
      assert RepairFor(once, wallets, again[0]) == [];
      SecondRepairChangesNothing(rows, wallets, users, again[1..]);
    }
  }
}
