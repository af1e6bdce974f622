/** apps/mobile/src/slot-machine.ts: ranking prizes, giving them symbols, and building the reels of a
    draw's finale.  A random function is the sequence of the numbers it returns, each in [0, 1); the
    functions take the numbers they draw, in order. */
module SlotMachine {
  import opened JsText

  datatype Symbol = Crown | Gem | Star | Comet | Coin | Vault

  datatype Prize = Prize(id: int, reward: real)

  datatype Status = Miss | Won | OutOfStock | BudgetExhausted | PayoutLimited

  datatype Tone = Win | NearMiss | Blocked

  datatype Window = Window(top: Symbol, center: Symbol, bottom: Symbol)

  datatype Line = Line(first: Symbol, second: Symbol, third: Symbol)

  datatype Reels = Reels(first: Window, second: Window, third: Window)

  datatype Finale = Finale(reels: Reels, centerLine: Line, prize: Option<Prize>, tone: Tone)

  /** `prizeId` is absent both when it is missing and when it is zero. */
  datatype DrawResult = DrawResult(status: Status, prize: Option<Prize>, prizeId: Option<int>)

  const PRIZE_SYMBOL_ORDER := [Crown, Gem, Star, Comet, Coin, Vault]
  const NON_WIN_SYMBOL_ORDER := [Coin, Star, Comet, Gem, Vault]

  // ---- ranking ----

  /** The comparator puts `a` strictly before `b`. */
  predicate Before(a: Prize, b: Prize) {
    a.reward > b.reward || (a.reward == b.reward && a.id < b.id)
  }

  /** A stable sort: a prize goes behind those that are not after it. */
  function Insert(p: Prize, ranked: seq<Prize>): seq<Prize> {
    if ranked == [] || Before(p, ranked[0]) then [p] + ranked
    else [ranked[0]] + Insert(p, ranked[1..])
  }

  function RankPrizes(prizes: seq<Prize>): seq<Prize> {
    if prizes == [] then [] else Insert(prizes[|prizes| - 1], RankPrizes(prizes[..|prizes| - 1]))
  }

  ghost predicate Ranked(s: seq<Prize>) {
    forall i, j :: 0 <= i < j < |s| ==> !Before(s[j], s[i])
  }

  ghost predicate DistinctIds(s: seq<Prize>) {
    forall i, j :: 0 <= i < j < |s| ==> s[i].id != s[j].id
  }

  lemma {:induction false} InsertRanks(p: Prize, s: seq<Prize>)
    requires Ranked(s)
    ensures Ranked(Insert(p, s))
    ensures multiset(Insert(p, s)) == multiset(s) + multiset{p}
  {
    if s != [] && !Before(p, s[0]) {
      InsertRanks(p, s[1..]);
      assert s == [s[0]] + s[1..];
      var r := Insert(p, s[1..]);
      forall j | 0 <= j < |r| ensures !Before(r[j], s[0]) {
        assert r[j] in multiset(r);
        assert r[j] == p || r[j] in multiset(s[1..]);
        if r[j] != p { assert r[j] in s[1..]; }
      }
    } else if s != [] {
      assert [p] + s == Insert(p, s);
    }
  }

  /** Ranking puts higher rewards first and lower ids first among equal rewards, and keeps every prize. */
  lemma {:induction false} RankPrizesSorts(prizes: seq<Prize>)
    ensures Ranked(RankPrizes(prizes))
    ensures forall i, j :: 0 <= i < j < |RankPrizes(prizes)| ==>
              var p, q := RankPrizes(prizes)[i], RankPrizes(prizes)[j];
              p.reward > q.reward || (p.reward == q.reward && p.id <= q.id)
    ensures multiset(RankPrizes(prizes)) == multiset(prizes)
    ensures |RankPrizes(prizes)| == |prizes|
  {
    if prizes != [] {
      var front, last := prizes[..|prizes| - 1], prizes[|prizes| - 1];
      RankPrizesSorts(front);
      InsertRanks(last, RankPrizes(front));
      assert prizes == front + [last];
    }
    assert |multiset(RankPrizes(prizes))| == |multiset(prizes)|;
  }

  lemma {:induction false} FirstRanked(a: seq<Prize>, b: seq<Prize>)
    requires Ranked(a) && Ranked(b) && a != [] && b != []
    requires a[0] in b && b[0] in a
    requires a[0] != b[0] ==> a[0].id != b[0].id
    ensures a[0] == b[0]
  {
    var i :| 0 <= i < |a| && a[i] == b[0];
    var j :| 0 <= j < |b| && b[j] == a[0];
  }

  lemma {:induction false} TailMultiset(a: seq<Prize>)
    requires a != []
    ensures multiset(a[1..]) == multiset(a) - multiset{a[0]}
    ensures a == [a[0]] + a[1..]
  {
    assert a == [a[0]] + a[1..];
  }

  /** With distinct ids there is one ranked order only. */
  lemma {:induction false} RankedUnique(a: seq<Prize>, b: seq<Prize>)
    requires Ranked(a) && Ranked(b)
    requires multiset(a) == multiset(b)
    requires forall p, q :: p in a && q in a && p != q ==> p.id != q.id
    ensures a == b
  {
    assert |multiset(a)| == |multiset(b)|;
    if a != [] {
      assert a[0] in multiset(b) && b[0] in multiset(a);
      assert a[0] in a;
      FirstRanked(a, b);
      TailMultiset(a);
      TailMultiset(b);
      RankedUnique(a[1..], b[1..]);
    }
  }

  // ---- symbols of prizes ----

  type SymbolMap = map<int, Symbol>

  function Assigned(ranked: seq<Prize>): SymbolMap {
    if ranked == [] then map[]
    else
      var n := |ranked| - 1;
      Assigned(ranked[..n])[ranked[n].id := PRIZE_SYMBOL_ORDER[n % 6]]
  }

  function PrizeSymbolMap(prizes: seq<Prize>): SymbolMap {
    Assigned(RankPrizes(prizes))
  }

  method BuildPrizeSymbolMap(prizes: seq<Prize>) returns (symbolMap: SymbolMap)
    ensures symbolMap == PrizeSymbolMap(prizes)
  {
    symbolMap := map[];
    var ranked := RankPrizes(prizes);
    for index := 0 to |ranked|
      invariant symbolMap == Assigned(ranked[..index])
    {
      assert ranked[..index + 1][..index] == ranked[..index];
      symbolMap := symbolMap[ranked[index].id := PRIZE_SYMBOL_ORDER[index % |PRIZE_SYMBOL_ORDER|]];
    }
    assert ranked[..|ranked|] == ranked;
  }

  lemma {:induction false} AssignedAt(ranked: seq<Prize>, i: nat)
    requires DistinctIds(ranked) && i < |ranked|
    ensures ranked[i].id in Assigned(ranked) && Assigned(ranked)[ranked[i].id] == PRIZE_SYMBOL_ORDER[i % 6]
    decreases |ranked|
  {
    var n := |ranked| - 1;
    if i < n {
      AssignedAt(ranked[..n], i);
    }
  }

  lemma {:induction false} AssignedKeys(ranked: seq<Prize>, id: int)
    ensures id in Assigned(ranked) <==> exists i :: 0 <= i < |ranked| && ranked[i].id == id
    decreases |ranked|
  {
    if ranked != [] {
      var n := |ranked| - 1;
      AssignedKeys(ranked[..n], id);
      if id == ranked[n].id { assert ranked[n].id == id; }
    }
  }

  lemma {:induction false} DistinctIdsMembers(s: seq<Prize>, p: Prize, q: Prize)
    requires DistinctIds(s) && p in s && q in s && p != q
    ensures p.id != q.id
  {}

  /** The map does not depend on the order of the catalogue. */
  lemma {:induction false} SymbolsIgnoreOrder(prizes: seq<Prize>, shuffled: seq<Prize>)
    requires DistinctIds(prizes)
    requires multiset(prizes) == multiset(shuffled)
    ensures PrizeSymbolMap(prizes) == PrizeSymbolMap(shuffled)
  {
    RankPrizesSorts(prizes);
    RankPrizesSorts(shuffled);
    var a := RankPrizes(prizes);
    forall p, q | p in a && q in a && p != q ensures p.id != q.id {
      assert p in multiset(a) && q in multiset(a);
      assert p in multiset(prizes) && q in multiset(prizes);
      DistinctIdsMembers(prizes, p, q);
    }
    RankedUnique(a, RankPrizes(shuffled));
  }

  lemma {:induction false} RankingKeepsIdsDistinct(prizes: seq<Prize>)
    requires DistinctIds(prizes)
    ensures DistinctIds(RankPrizes(prizes))
  {
    RankPrizesSorts(prizes);
    var r := RankPrizes(prizes);
    forall i, j | 0 <= i < j < |r| ensures r[i].id != r[j].id {
      assert r == r[..i] + [r[i]] + r[i + 1..j] + [r[j]] + r[j + 1..];
      assert r[i] in multiset(prizes) && r[j] in multiset(prizes);
      if r[i] == r[j] {
        assert multiset(prizes)[r[i]] >= 2;
        OneOfEach(prizes, r[i]);
      } else {
        DistinctIdsMembers(prizes, r[i], r[j]);
      }
    }
  }

  lemma {:induction false} OneOfEach(s: seq<Prize>, p: Prize)
    requires DistinctIds(s)
    ensures multiset(s)[p] <= 1
  {
    if s != [] {
      OneOfEach(s[1..], p);
      assert s == [s[0]] + s[1..];
    }
  }

  /** The i-th best prize (highest reward first, lowest id among equals) has the i-th symbol, cycling. */
  lemma {:induction false} SymbolByRank(prizes: seq<Prize>, i: nat)
    requires DistinctIds(prizes) && i < |prizes|
    ensures var ranked := RankPrizes(prizes);
            |ranked| == |prizes| && Ranked(ranked) && multiset(ranked) == multiset(prizes)
            && ranked[i].id in PrizeSymbolMap(prizes)
            && PrizeSymbolMap(prizes)[ranked[i].id] == [Crown, Gem, Star, Comet, Coin, Vault][i % 6]
  {
    RankPrizesSorts(prizes);
    RankingKeepsIdsDistinct(prizes);
    AssignedAt(RankPrizes(prizes), i);
  }

  /** The two prizes have symbols, and not the same one. */
  predicate TellsApart(symbols: SymbolMap, p: Prize, q: Prize) {
    p.id in symbols && q.id in symbols && symbols[p.id] != symbols[q.id]
  }

  lemma {:induction false} RanksTellApart(prizes: seq<Prize>, i: nat, j: nat)
    requires DistinctIds(prizes) && i < |prizes| && j < |prizes|
    ensures var ranked := RankPrizes(prizes);
            |ranked| == |prizes| && (TellsApart(PrizeSymbolMap(prizes), ranked[i], ranked[j]) <==> i % 6 != j % 6)
  {
    hide PrizeSymbolMap, RankPrizes;
    SymbolByRank(prizes, i);
    SymbolByRank(prizes, j);
  }

  lemma {:induction false} RankOf(prizes: seq<Prize>, p: Prize) returns (i: nat)
    requires p in prizes
    ensures i < |RankPrizes(prizes)| == |prizes| && RankPrizes(prizes)[i] == p
  {
    RankPrizesSorts(prizes);
    assert p in multiset(RankPrizes(prizes));
    i :| 0 <= i < |RankPrizes(prizes)| && RankPrizes(prizes)[i] == p;
  }

  lemma {:induction false} FewAreToldApart(prizes: seq<Prize>, p: Prize, q: Prize)
    requires DistinctIds(prizes) && |prizes| <= 6
    requires p in prizes && q in prizes && p != q
    ensures TellsApart(PrizeSymbolMap(prizes), p, q)
  {
    hide PrizeSymbolMap, RankPrizes, TellsApart;
    var i := RankOf(prizes, p);
    var j := RankOf(prizes, q);
    RanksTellApart(prizes, i, j);
  }

  lemma {:induction false} ManyAreNot(prizes: seq<Prize>) returns (p: Prize, q: Prize)
    requires DistinctIds(prizes) && 6 < |prizes|
    ensures p in prizes && q in prizes && p != q && !TellsApart(PrizeSymbolMap(prizes), p, q)
  {
    hide PrizeSymbolMap, RankPrizes, TellsApart;
    RankPrizesSorts(prizes);
    RankingKeepsIdsDistinct(prizes);
    RanksTellApart(prizes, 0, 6);
    p, q := RankPrizes(prizes)[0], RankPrizes(prizes)[6];
    assert p in multiset(prizes) && q in multiset(prizes);
  }

  /** All prizes of a catalogue have different symbols exactly when there are at most six. */
  lemma {:induction false} SymbolsDistinctUpToSix(prizes: seq<Prize>)
    requires DistinctIds(prizes)
    ensures (forall p, q :: p in prizes && q in prizes && p != q ==> TellsApart(PrizeSymbolMap(prizes), p, q))
            <==> |prizes| <= 6
  {
    hide PrizeSymbolMap, TellsApart;
    if |prizes| <= 6 {
      forall p, q | p in prizes && q in prizes && p != q ensures TellsApart(PrizeSymbolMap(prizes), p, q) {
        FewAreToldApart(prizes, p, q);
      }
    } else {
      var p, q := ManyAreNot(prizes);
    }
  }

  // ---- sampling ----

  type Random = nat -> real

  function PickFrom(items: seq<Symbol>, r: real): (s: Symbol)
    requires items != []
    ensures s in items
  {
    items[(r * |items| as real).Floor % |items|]
  }

  function Excluding(items: seq<Symbol>, excluded: seq<Symbol>): (r: seq<Symbol>)
    ensures forall s :: s in r <==> s in items && s !in excluded
  {
    if items == [] then []
    else (if items[0] in excluded then [] else [items[0]]) + Excluding(items[1..], excluded)
  }

  function PickDifferent(items: seq<Symbol>, excluded: seq<Symbol>, r: real): (s: Symbol)
    requires items != []
    ensures s in items
    ensures s in excluded ==> forall t :: t in items ==> t in excluded
  {
    var filtered := Excluding(items, excluded);
    PickFrom(if filtered != [] then filtered else items, r)
  }

  /** What is left after excluding some symbols stands in the same order. */
  lemma {:induction false} ExcludingKeepsOrder(a: seq<Symbol>, s: Symbol, b: seq<Symbol>, excluded: seq<Symbol>)
    ensures Excluding(a + [s] + b, excluded)
         == Excluding(a, excluded) + (if s in excluded then [] else [s]) + Excluding(b, excluded)
  {
    hide Excluding;
    var whole := a + [s] + b;
    if a == [] {
      assert whole[0] == s && whole[1..] == b;
      ExcludingStep(whole, excluded);
      NothingLeft(excluded);
    } else {
      assert whole[0] == a[0] && whole[1..] == a[1..] + [s] + b;
      ExcludingStep(whole, excluded);
      ExcludingStep(a, excluded);
      ExcludingKeepsOrder(a[1..], s, b, excluded);
    }
  }

  lemma {:induction false} ExcludingStep(items: seq<Symbol>, excluded: seq<Symbol>)
    requires items != []
    ensures Excluding(items, excluded)
         == (if items[0] in excluded then [] else [items[0]]) + Excluding(items[1..], excluded)
  {}

  lemma {:induction false} NothingLeft(excluded: seq<Symbol>)
    ensures Excluding([], excluded) == []
  {}

  lemma {:induction false} ScaledInRange(r: real, n: real)
    requires 0.0 <= r < 1.0 && 0.0 < n
    ensures 0.0 <= r * n < n
  {}

  lemma {:induction false} FloorIs(t: real, k: nat, n: nat)
    requires 0.0 <= t < n as real
    ensures 0 <= t.Floor < n && t.Floor % n == t.Floor
    ensures k as real <= t < (k + 1) as real <==> t.Floor == k
  {}

  /** With a number from [0, 1) the wrap-around of the index never happens, and each item is picked on an
      interval of its own. */
  lemma {:induction false} PickFromIndex(items: seq<Symbol>, r: real, k: nat)
    requires 0.0 <= r < 1.0 && k < |items|
    requires k as real <= r * |items| as real < (k + 1) as real
    ensures PickFrom(items, r) == items[k]
  {
    ScaledInRange(r, |items| as real);
    FloorIs(r * |items| as real, k, |items|);
  }

  function UniqueSymbols(symbols: seq<Symbol>): (r: seq<Symbol>)
    ensures forall s :: s in r <==> s in symbols
    ensures forall i, j :: 0 <= i < j < |r| ==> r[i] != r[j]
  {
    if symbols == [] then []
    else
      var front := UniqueSymbols(symbols[..|symbols| - 1]);
      var last := symbols[|symbols| - 1];
      assert symbols == symbols[..|symbols| - 1] + [last];
      if last in front then front else front + [last]
  }

  /** The first occurrence of each symbol is what counts. */
  lemma {:induction false} UniqueKeepsFirst(front: seq<Symbol>, s: Symbol)
    ensures UniqueSymbols(front + [s]) == if s in front then UniqueSymbols(front) else UniqueSymbols(front) + [s]
  {
    assert (front + [s])[..|front|] == front;
  }

  /** The symbols that the prizes of the catalogue have, in catalogue order. */
  function PrizeSymbols(prizes: seq<Prize>, symbols: SymbolMap): seq<Symbol> {
    if prizes == [] then []
    else (if prizes[0].id in symbols then [symbols[prizes[0].id]] else []) + PrizeSymbols(prizes[1..], symbols)
  }

  function SymbolPool(prizes: seq<Prize>): (pool: seq<Symbol>)
    ensures forall s :: s in NON_WIN_SYMBOL_ORDER ==> s in pool
    ensures forall i, j :: 0 <= i < j < |pool| ==> pool[i] != pool[j]
  {
    var prizeSymbols := PrizeSymbols(prizes, PrizeSymbolMap(prizes));
    UniqueSymbols(if prizeSymbols != [] then prizeSymbols + NON_WIN_SYMBOL_ORDER else PRIZE_SYMBOL_ORDER)
  }

  /** What a pool is made of: all symbols for an empty catalogue, and else the symbols of the prizes in the order
      of the catalogue, followed by the ones that never win, each where it comes first. */
  lemma {:induction false} PoolContents(prizes: seq<Prize>)
    requires DistinctIds(prizes)
    ensures prizes == [] ==> SymbolPool(prizes) == [Crown, Gem, Star, Comet, Coin, Vault]
    ensures prizes != [] ==>
              var symbols := PrizeSymbolMap(prizes);
              (forall i :: 0 <= i < |prizes| ==> prizes[i].id in symbols)
              && SymbolPool(prizes)
                 == UniqueSymbols(seq(|prizes|, i requires 0 <= i < |prizes| => symbols[prizes[i].id])
                                  + [Coin, Star, Comet, Gem, Vault])
  {
    hide UniqueSymbols;
    if prizes == [] {
      AllSixAreDistinct();
    } else {
      hide PrizeSymbolMap;
      forall i | 0 <= i < |prizes| ensures prizes[i].id in PrizeSymbolMap(prizes) {
        PrizeHasSymbol(prizes, prizes[i]);
      }
      PrizeSymbolsInOrder(prizes, PrizeSymbolMap(prizes));
    }
  }

  lemma {:induction false} AllSixAreDistinct()
    ensures UniqueSymbols([Crown, Gem, Star, Comet, Coin, Vault]) == [Crown, Gem, Star, Comet, Coin, Vault]
  {
    var all := [Crown, Gem, Star, Comet, Coin, Vault];
    assert forall i, j :: 0 <= i < j < |all| ==> all[i] != all[j];
    DistinctAreKept(all);
  }

  lemma {:induction false} DistinctAreKept(symbols: seq<Symbol>)
    requires forall i, j :: 0 <= i < j < |symbols| ==> symbols[i] != symbols[j]
    ensures UniqueSymbols(symbols) == symbols
  {
    if symbols != [] {
      var front := symbols[..|symbols| - 1];
      DistinctAreKept(front);
      assert symbols == front + [symbols[|symbols| - 1]];
    }
  }

  lemma {:induction false} PrizeHasSymbol(prizes: seq<Prize>, p: Prize)
    requires DistinctIds(prizes) && p in prizes
    ensures p.id in PrizeSymbolMap(prizes)
  {
    hide PrizeSymbolMap, RankPrizes;
    var i := RankOf(prizes, p);
    SymbolByRank(prizes, i);
  }

  lemma {:induction false} PrizeSymbolsInOrder(prizes: seq<Prize>, symbols: SymbolMap)
    requires forall i :: 0 <= i < |prizes| ==> prizes[i].id in symbols
    ensures PrizeSymbols(prizes, symbols)
         == seq(|prizes|, i requires 0 <= i < |prizes| => symbols[prizes[i].id])
  {
    if prizes != [] {
      PrizeSymbolsInOrder(prizes[1..], symbols);
    }
  }

  /** Enough symbols for a window: at least three of them are not the two that a window already has. */
  ghost predicate IsPool(pool: seq<Symbol>) {
    Coin in pool && Star in pool && Comet in pool
  }

  predicate ThreeDistinct(w: Window) {
    w.top != w.center && w.center != w.bottom && w.top != w.bottom
  }

  function BuildWindow(center: Symbol, pool: seq<Symbol>, r0: real, r1: real): (w: Window)
    requires IsPool(pool)
    ensures w.center == center && w.top in pool && w.bottom in pool
    ensures ThreeDistinct(w)
  {
    var top := PickDifferent(pool, [center], r0);
    var bottom := PickDifferent(pool, [center, top], r1);
    Window(top, center, bottom)
  }

  function BuildMissLine(pool: seq<Symbol>, r0: real, r1: real): (line: Line)
    requires IsPool(pool)
    ensures line.first == line.second != line.third
    ensures line.first in pool && line.third in pool
  {
    var primary := PickFrom(pool, r0);
    Line(primary, primary, PickDifferent(pool, [primary], r1))
  }

  function BuildBlockedLine(status: Status): Line {
    match status
    case PayoutLimited => Line(Crown, Crown, Vault)
    case OutOfStock => Line(Gem, Gem, Vault)
    case _ => Line(Coin, Coin, Vault)
  }

  // ---- reels ----

  function FindPrize(prizes: seq<Prize>, id: int): (found: Option<Prize>)
    ensures found == None <==> forall i :: 0 <= i < |prizes| ==> prizes[i].id != id
    ensures found.Some? ==>
              exists i :: 0 <= i < |prizes| && prizes[i] == found.value && prizes[i].id == id
                          && forall j :: 0 <= j < i ==> prizes[j].id != id
  {
    if prizes == [] then None
    else if prizes[0].id == id then Some(prizes[0])
    else
      assert forall i :: 1 <= i < |prizes| ==> prizes[i] == prizes[1..][i - 1];
      var found := FindPrize(prizes[1..], id);
      assert found.Some? ==>
          exists i :: 0 <= i < |prizes| && prizes[i] == found.value && prizes[i].id == id
                      && forall j :: 0 <= j < i ==> prizes[j].id != id by {
        if found.Some? {
          var i :| 0 <= i < |prizes[1..]| && prizes[1..][i] == found.value && prizes[1..][i].id == id
                   && forall j :: 0 <= j < i ==> prizes[1..][j].id != id;
          assert prizes[i + 1] == found.value;
        }
      }
      found
  }

  function ResultPrize(result: DrawResult, prizes: seq<Prize>): Option<Prize> {
    if result.prize.Some? then result.prize
    else if result.prizeId.Some? then FindPrize(prizes, result.prizeId.value)
    else None
  }

  predicate ThreeOfAKind(line: Line) {
    line.first == line.second == line.third
  }

  /** The line of a finale by its tone: the prize's own symbol (a crown for a prize that is not in the
      catalogue) three times, a pair from the pool, or a fixed line. */
  ghost predicate LineFits(f: Finale, status: Status, prizes: seq<Prize>) {
    match f.tone
    case Win =>
      var symbols := PrizeSymbolMap(prizes);
      f.prize.Some? && ThreeOfAKind(f.centerLine)
      && f.centerLine.first == if f.prize.value.id in symbols then symbols[f.prize.value.id] else Crown
    case NearMiss =>
      f.centerLine.first == f.centerLine.second && f.centerLine.first in SymbolPool(prizes)
      && f.centerLine.third in SymbolPool(prizes)
    case Blocked =>
      f.centerLine == match status
                      case PayoutLimited => Line(Crown, Crown, Vault)
                      case OutOfStock => Line(Gem, Gem, Vault)
                      case BudgetExhausted => Line(Coin, Coin, Vault)
                      case Miss => Line(Coin, Coin, Vault)
                      case Won => Line(Coin, Coin, Vault)
  }

  /** What the finale promises, for every catalogue, result and random source: the line is three of a kind
      exactly for a win, and the reels show the line in windows without repeats. */
  ghost predicate Honest(f: Finale, result: DrawResult, prizes: seq<Prize>) {
    && f.prize == (if result.prize.Some? then result.prize
                   else if result.prizeId.Some? then FindPrize(prizes, result.prizeId.value)
                   else None)
    && (f.tone == Win <==> result.status == Won && f.prize.Some?)
    && (f.tone == NearMiss <==> result.status == Miss)
    && (ThreeOfAKind(f.centerLine) <==> f.tone == Win)
    && LineFits(f, result.status, prizes)
    && Shows(f.reels, f.centerLine) && CleanReels(f.reels, SymbolPool(prizes))
  }

  predicate Shows(reels: Reels, line: Line) {
    reels.first.center == line.first && reels.second.center == line.second && reels.third.center == line.third
  }

  predicate CleanWindow(w: Window, pool: seq<Symbol>) {
    ThreeDistinct(w) && w.top in pool && w.bottom in pool
  }

  predicate CleanReels(reels: Reels, pool: seq<Symbol>) {
    CleanWindow(reels.first, pool) && CleanWindow(reels.second, pool) && CleanWindow(reels.third, pool)
  }

  method BuildSlotFinale(result: DrawResult, prizes: seq<Prize>, random: Random) returns (finale: Finale)
    ensures Honest(finale, result, prizes)
    ensures DrawnFrom(finale, SymbolPool(prizes), random)
  {
    hide PrizeSymbolMap, SymbolPool, IsPool, BuildWindow, BuildMissLine, FindPrize, PickDifferent, PickFrom,
         Shows, CleanReels, DrawnReels;
    var prizeMap := BuildPrizeSymbolMap(prizes);
    var pool := SymbolPool(prizes);
    PoolSuffices(prizes);
    PoolNotEmpty(pool);
    BlockedLineMisses(result.status);
    var prize := ResultPrize(result, prizes);
    var drawn := 0;
    var centerLine: Line;
    var tone: Tone;
    if result.status == Won && prize.Some? {
      var winningSymbol := if prize.value.id in prizeMap then prizeMap[prize.value.id] else Crown;
      centerLine := Line(winningSymbol, winningSymbol, winningSymbol);
      tone := Win;
    } else if result.status == Miss {
      centerLine := BuildMissLine(pool, random(0), random(1));
      LineIsDrawn(pool, random(0), random(1));
      drawn := 2;
      tone := NearMiss;
    } else {
      centerLine := BuildBlockedLine(result.status);
      tone := Blocked;
    }
    var first := BuildWindow(centerLine.first, pool, random(drawn), random(drawn + 1));
    var second := BuildWindow(centerLine.second, pool, random(drawn + 2), random(drawn + 3));
    var third := BuildWindow(centerLine.third, pool, random(drawn + 4), random(drawn + 5));
    ReelsFit(centerLine, pool, random, drawn);
    finale := Finale(Reels(first, second, third), centerLine, prize, tone);
  }

  /** A window takes the next two random numbers, for its top and then its bottom. */
  predicate DrawnWindow(w: Window, pool: seq<Symbol>, random: Random, drawn: nat)
    requires pool != []
  {
    w.top == PickDifferent(pool, [w.center], random(drawn))
    && w.bottom == PickDifferent(pool, [w.center, w.top], random(drawn + 1))
  }

  lemma {:induction false} PoolNotEmpty(pool: seq<Symbol>)
    requires IsPool(pool)
    ensures pool != []
  {}

  lemma {:induction false} WindowIsDrawn(center: Symbol, pool: seq<Symbol>, random: Random, drawn: nat)
    requires IsPool(pool) && pool != []
    ensures DrawnWindow(BuildWindow(center, pool, random(drawn), random(drawn + 1)), pool, random, drawn)
  {
    hide PickDifferent;
  }

  lemma {:induction false} LineIsDrawn(pool: seq<Symbol>, r0: real, r1: real)
    requires IsPool(pool) && pool != []
    ensures var line := BuildMissLine(pool, r0, r1);
            line.first == PickFrom(pool, r0) && line.third == PickDifferent(pool, [line.first], r1)
  {
    hide PickDifferent, PickFrom;
  }

  /** How a finale uses the random numbers, in order: two for the line of a miss and none for another line, then
      two for each reel. */
  predicate DrawnFrom(f: Finale, pool: seq<Symbol>, random: Random) {
    pool != []
    && (f.tone == NearMiss ==> f.centerLine.first == PickFrom(pool, random(0))
                               && f.centerLine.third == PickDifferent(pool, [f.centerLine.first], random(1)))
    && DrawnReels(f.reels, pool, random, if f.tone == NearMiss then 2 else 0)
  }

  predicate DrawnReels(reels: Reels, pool: seq<Symbol>, random: Random, drawn: nat)
    requires pool != []
  {
    DrawnWindow(reels.first, pool, random, drawn)
    && DrawnWindow(reels.second, pool, random, drawn + 2)
    && DrawnWindow(reels.third, pool, random, drawn + 4)
  }

  lemma {:induction false} ReelsFit(line: Line, pool: seq<Symbol>, random: Random, drawn: nat)
    requires IsPool(pool) && pool != []
    ensures var reels := Reels(BuildWindow(line.first, pool, random(drawn), random(drawn + 1)),
                               BuildWindow(line.second, pool, random(drawn + 2), random(drawn + 3)),
                               BuildWindow(line.third, pool, random(drawn + 4), random(drawn + 5)));
            Shows(reels, line) && CleanReels(reels, pool) && DrawnReels(reels, pool, random, drawn)
  {
    hide BuildWindow, DrawnWindow, PickDifferent;
    WindowIsDrawn(line.first, pool, random, drawn);
    WindowIsDrawn(line.second, pool, random, drawn + 2);
    WindowIsDrawn(line.third, pool, random, drawn + 4);
  }

  lemma {:induction false} BlockedLineMisses(status: Status)
    ensures !ThreeOfAKind(BuildBlockedLine(status))
  {}

  lemma {:induction false} PoolSuffices(prizes: seq<Prize>)
    ensures IsPool(SymbolPool(prizes))
  {
    var order := NON_WIN_SYMBOL_ORDER;
    assert order[0] == Coin && order[1] == Star && order[2] == Comet;
    assert Coin in order && Star in order && Comet in order;
  }

  function ReelOf(reels: Reels, i: nat): Window
    requires i < 3
  {
    if i == 0 then reels.first else if i == 1 then reels.second else reels.third
  }

  /** A reel that still rolls draws three numbers: for its centre, its top and its bottom. */
  function RollingWindow(pool: seq<Symbol>, random: Random, drawn: nat): (w: Window)
    requires IsPool(pool)
    ensures CleanWindow(w, pool) && w.center in pool
  {
    BuildWindow(PickFrom(pool, random(drawn)), pool, random(drawn + 1), random(drawn + 2))
  }

  /** How many reels show the finale. */
  function Locked(finale: Option<Finale>, lockedCount: int): nat {
    if finale.None? || lockedCount < 0 then 0 else if lockedCount > 3 then 3 else lockedCount
  }

  /** A clean window with a centre from the pool, on three numbers: for its centre, its top and its bottom. */
  predicate RolledFrom(w: Window, pool: seq<Symbol>, random: Random, drawn: nat)
    requires pool != []
  {
    CleanWindow(w, pool) && w.center in pool
    && w.center == PickFrom(pool, random(drawn)) && DrawnWindow(w, pool, random, drawn + 1)
  }

  lemma {:induction false} RollingIsDrawn(pool: seq<Symbol>, random: Random, drawn: nat)
    requires IsPool(pool) && pool != []
    ensures RolledFrom(RollingWindow(pool, random, drawn), pool, random, drawn)
  {
    hide PickFrom, DrawnWindow, BuildWindow, CleanWindow;
    WindowIsDrawn(PickFrom(pool, random(drawn)), pool, random, drawn + 1);
  }

  /** The reels below `lockedCount` are the finale's; the others roll, each on fresh numbers. */
  method CreateRollingReels(prizes: seq<Prize>, finale: Option<Finale>, lockedCount: int, random: Random)
      returns (reels: Reels)
    ensures SymbolPool(prizes) != []
    ensures forall i :: 0 <= i < 3 ==>
              if finale.Some? && i < lockedCount then ReelOf(reels, i) == ReelOf(finale.value.reels, i)
              else RolledFrom(ReelOf(reels, i), SymbolPool(prizes), random, 3 * (i - Locked(finale, lockedCount)))
  {
    hide SymbolPool, IsPool, RolledFrom, RollingWindow;
    var pool := SymbolPool(prizes);
    PoolSuffices(prizes);
    PoolNotEmpty(pool);
    ghost var locked := Locked(finale, lockedCount);
    var windows: seq<Window> := [];
    var drawn := 0;
    for reelIndex := 0 to 3
      invariant |windows| == reelIndex
      invariant drawn == if reelIndex <= locked then 0 else 3 * (reelIndex - locked)
      invariant forall i :: 0 <= i < reelIndex ==>
                  if finale.Some? && i < lockedCount then windows[i] == ReelOf(finale.value.reels, i)
                  else RolledFrom(windows[i], pool, random, 3 * (i - locked))
    {
      if finale.Some? && reelIndex < lockedCount {
        windows := windows + [ReelOf(finale.value.reels, reelIndex)];
      } else {
        RollingIsDrawn(pool, random, drawn);
        windows := windows + [RollingWindow(pool, random, drawn)];
        drawn := drawn + 3;
      }
    }
    reels := Reels(windows[0], windows[1], windows[2]);
  }
}
