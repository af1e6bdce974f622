/** The fallback hashes of apps/mobile/src/device-fingerprint.ts and apps/frontend/lib/device-fingerprint.ts.
    A text is the sequence of its UTF-16 code units, as `charCodeAt` returns them. */
module DeviceHash {

  type CodeUnit = x: int | 0 <= x < 0x1_0000
  type Word = x: int | 0 <= x < 0x1_0000_0000

  const MODULUS := 0x1_0000_0000

  /** Integers up to here are exact in double arithmetic. */
  const EXACT := 0x20_0000_0000_0000

  function Pow(base: nat, n: nat): nat {
    if n == 0 then 1 else base * Pow(base, n - 1)
  }

  /** The weighted sum of the code units, the last one with weight one. */
  function Weighted(text: seq<CodeUnit>, base: nat): nat {
    if text == [] then 0 else text[0] * Pow(base, |text| - 1) + Weighted(text[1..], base)
  }

  /** The loop, from a given state. */
  function Hash(text: seq<CodeUnit>, base: nat, state: Word): Word {
    if text == [] then state else Hash(text[1..], base, (state * base + text[0]) % MODULUS)
  }

  /** The loop with its intermediates: none leaves the range in which doubles are exact. */
  method HashLoop(text: seq<CodeUnit>, base: nat, seed: Word) returns (hash: Word)
    requires base <= 33
    ensures hash == Hash(text, base, seed)
    ensures forall i :: 0 <= i < |text| ==> Hash(text[..i], base, seed) * base + text[i] < EXACT
  {
    hash := seed;
    for index := 0 to |text|
      invariant hash == Hash(text[..index], base, seed)
      invariant forall i :: 0 <= i < index ==> Hash(text[..i], base, seed) * base + text[i] < EXACT
    {
      ProductStaysExact(hash, base, text[index]);
      HashOneMore(text[..index], text[index], base, seed);
      assert text[..index + 1] == text[..index] + [text[index]];
      hash := (hash * base + text[index]) % MODULUS;
    }
    assert text[..|text|] == text;
  }

  lemma {:induction false} HashOneMore(text: seq<CodeUnit>, unit: CodeUnit, base: nat, seed: Word)
    ensures Hash(text + [unit], base, seed) == (Hash(text, base, seed) * base + unit) % MODULUS
  {
    HashConcat(text, [unit], base, seed);
    assert [unit][1..] == [];
  }

  /** No intermediate value leaves the range in which doubles are exact. */
  lemma {:induction false} ProductStaysExact(hash: Word, base: nat, unit: CodeUnit)
    requires base <= 33
    ensures 0 <= hash * base + unit < EXACT
  {
    assert hash * base <= hash * 33;
  }

  lemma {:induction false} ModShift(r: nat, k: nat)
    ensures (k * MODULUS + r) % MODULUS == r % MODULUS
  {}

  /** Reducing the state early does not change the result modulo 2^32. */
  lemma {:induction false} ReduceState(a: nat, x: nat, w: nat)
    ensures (a % MODULUS * x + w) % MODULUS == (a * x + w) % MODULUS
  {
    var q, r := a / MODULUS, a % MODULUS;
    assert a == q * MODULUS + r;
    Distribute(q, r, x);
    ModShift(r * x + w, q * x);
  }

  lemma {:induction false} Distribute(q: nat, r: nat, x: nat)
    ensures (q * MODULUS + r) * x == q * x * MODULUS + r * x
  {}

  lemma {:induction false} WeightedStep(text: seq<CodeUnit>, base: nat)
    requires text != []
    ensures Pow(base, |text|) == base * Pow(base, |text| - 1)
    ensures Weighted(text, base) == text[0] * Pow(base, |text| - 1) + Weighted(text[1..], base)
  {}

  /** The loop computes the polynomial `seed * base^n + sum of c_i * base^(n-1-i)` modulo 2^32. */
  lemma {:induction false} HashIsPolynomial(text: seq<CodeUnit>, base: nat, seed: Word)
    ensures Hash(text, base, seed) == (seed * Pow(base, |text|) + Weighted(text, base)) % MODULUS
    decreases |text|
  {
    hide Pow, Weighted, Hash;
    if text == [] {
      EmptyHash(base, seed);
    } else {
      var p, w, c := Pow(base, |text| - 1), Weighted(text[1..], base), text[0];
      calc {
        Hash(text, base, seed);
      == { HashStep(text, base, seed); }
        Hash(text[1..], base, (seed * base + c) % MODULUS);
      == { HashIsPolynomial(text[1..], base, (seed * base + c) % MODULUS); }
        ((seed * base + c) % MODULUS * p + w) % MODULUS;
      == { StateNotNegative(seed, base, c); ReduceState(seed * base + c, p, w); }
        ((seed * base + c) * p + w) % MODULUS;
      == { Regroup(seed, base, c, p, w); WeightedStep(text, base); }
        (seed * Pow(base, |text|) + Weighted(text, base)) % MODULUS;
      }
    }
  }

  lemma {:induction false} EmptyHash(base: nat, seed: Word)
    ensures Hash([], base, seed) == (seed * Pow(base, 0) + Weighted([], base)) % MODULUS
  {}

  lemma {:induction false} HashStep(text: seq<CodeUnit>, base: nat, seed: Word)
    requires text != []
    ensures 0 <= (seed * base + text[0]) % MODULUS < MODULUS
    ensures Hash(text, base, seed) == Hash(text[1..], base, (seed * base + text[0]) % MODULUS)
  {}

  lemma {:induction false} StateNotNegative(seed: nat, base: nat, c: nat)
    ensures 0 <= seed * base + c
  {}

  lemma {:induction false} Regroup(seed: nat, base: nat, c: nat, p: nat, w: nat)
    ensures (seed * base + c) * p + w == seed * (base * p) + (c * p + w)
  {
    assert (seed * base + c) * p == seed * base * p + c * p;
    assert seed * base * p == seed * (base * p);
  }

  /** Hashing goes on where the first part stopped. */
  lemma {:induction false} HashConcat(a: seq<CodeUnit>, b: seq<CodeUnit>, base: nat, seed: Word)
    ensures Hash(a + b, base, seed) == Hash(b, base, Hash(a, base, seed))
    decreases |a|
  {
    if a == [] {
      assert a + b == b;
    } else {
      assert (a + b)[1..] == a[1..] + b;
      HashConcat(a[1..], b, base, (seed * base + a[0]) % MODULUS);
    }
  }

  // ---- eight hex digits ----

  function HexDigit(n: int): char
    requires 0 <= n < 16
  {
    (if n < 10 then '0' as int + n else 'a' as int + n - 10) as char
  }

  lemma {:induction false} HexDigitIs(n: int)
    requires 0 <= n < 16
    ensures HexDigit(n) == "0123456789abcdef"[n] && HexValue("0123456789abcdef"[n]) == n
  {
    var s := "0123456789abcdef";
    assert forall i :: 0 <= i < 10 ==> s[i] == ('0' as int + i) as char;
    assert forall i :: 10 <= i < 16 ==> s[i] == ('a' as int + i - 10) as char;
  }

  predicate IsHexDigit(c: char) {
    '0' <= c <= '9' || 'a' <= c <= 'f'
  }

  function HexValue(c: char): int {
    if c <= '9' then c as int - '0' as int else c as int - 'a' as int + 10
  }

  lemma {:induction false} HexDigitsAre(c: char)
    ensures IsHexDigit(c) <==> c in "0123456789abcdef"
  {
    var s := "0123456789abcdef";
    assert forall i :: 0 <= i < 10 ==> s[i] == ('0' as int + i) as char;
    assert forall i :: 10 <= i < 16 ==> s[i] == ('a' as int + i - 10) as char;
    if '0' <= c <= '9' { assert s[c as int - '0' as int] == c; }
    if 'a' <= c <= 'f' { assert s[c as int - 'a' as int + 10] == c; }
  }

  /** `toString(16)`. */
  function HexText(n: nat): string {
    if n < 16 then [HexDigit(n)] else HexText(n / 16) + [HexDigit(n % 16)]
  }

  function Zeros(n: nat): string {
    seq(n, _ => '0')
  }

  function PadStart(s: string, width: nat): string {
    if |s| < width then Zeros(width - |s|) + s else s
  }

  function Render(hash: Word): string {
    PadStart(HexText(hash), 8)
  }

  function ReadHex(s: string): int {
    if s == "" then 0 else ReadHex(s[..|s| - 1]) * 16 + HexValue(s[|s| - 1])
  }

  lemma {:induction false} ReadZeros(n: nat, s: string)
    ensures ReadHex(Zeros(n) + s) == ReadHex(s)
    decreases |s|, n
  {
    var w := Zeros(n) + s;
    if s != "" {
      assert w[..|w| - 1] == Zeros(n) + s[..|s| - 1];
      ReadZeros(n, s[..|s| - 1]);
    } else if n != 0 {
      assert w[..|w| - 1] == Zeros(n - 1) + "";
      ReadZeros(n - 1, "");
    }
  }

  lemma {:induction false} HexTextReads(n: nat)
    ensures ReadHex(HexText(n)) == n
    ensures forall i :: 0 <= i < |HexText(n)| ==> IsHexDigit(HexText(n)[i])
  {
    if n < 16 {
      assert HexText(n)[..0] == "";
    } else {
      HexTextReads(n / 16);
      assert HexText(n)[..|HexText(n)| - 1] == HexText(n / 16);
    }
  }

  lemma {:induction false} HexTextLength(n: nat, width: nat)
    requires 1 <= width && n < Pow(16, width)
    ensures 1 <= |HexText(n)| <= width
  {
    if 16 <= n {
      assert Pow(16, width) == 16 * Pow(16, width - 1);
      HexTextLength(n / 16, width - 1);
    }
  }

  lemma {:induction false} SixteenToTheEighth()
    ensures Pow(16, 8) == MODULUS
  {
    assert Pow(16, 4) == 65536;
    assert Pow(16, 8) == 16 * (16 * (16 * (16 * Pow(16, 4))));
  }

  /** A lane of the fingerprint is exactly eight hex digits, and they read back as the hash. */
  lemma {:induction false} LaneReadsBack(hash: Word)
    ensures |Render(hash)| == 8 && ReadHex(Render(hash)) == hash
    ensures forall i :: 0 <= i < 8 ==> IsHexDigit(Render(hash)[i])
  {
    SixteenToTheEighth();
    HexTextLength(hash, 8);
    HexTextReads(hash);
    ReadZeros(8 - |HexText(hash)|, HexText(hash));
  }

  /** The web fallback, and one of the four lanes of the mobile one. */
  method WebFallbackHash(text: seq<CodeUnit>) returns (lane: string)
    ensures |lane| == 8 && forall i :: 0 <= i < 8 ==> IsHexDigit(lane[i])
    ensures ReadHex(lane) == Weighted(text, 31) % 0x1_0000_0000
  {
    var hash := HashLoop(text, 31, 0);
    HashIsPolynomial(text, 31, 0);
    LaneReadsBack(hash);
    lane := Render(hash);
  }

  const SEEDS: seq<Word> := [0x811c9dc5, 0x9e3779b9, 0x85ebca6b, 0xc2b2ae35]

  method MobileFallbackHash(text: seq<CodeUnit>) returns (fingerprint: string)
    ensures |fingerprint| == 32 && forall i :: 0 <= i < 32 ==> IsHexDigit(fingerprint[i])
    ensures forall k :: 0 <= k < 4 ==>
              ReadHex(fingerprint[8 * k..8 * k + 8])
              == ([0x811c9dc5, 0x9e3779b9, 0x85ebca6b, 0xc2b2ae35][k] * Pow(33, |text|) + Weighted(text, 33))
                 % 0x1_0000_0000
  {
    hide ReadHex, Render, Weighted, Pow, Hash;
    fingerprint := "";
    for i := 0 to 4
      invariant |fingerprint| == 8 * i && forall j :: 0 <= j < 8 * i ==> IsHexDigit(fingerprint[j])
      invariant forall k :: 0 <= k < i ==>
                  ReadHex(fingerprint[8 * k..8 * k + 8]) == (SEEDS[k] * Pow(33, |text|) + Weighted(text, 33)) % MODULUS
    {
      var hash := HashLoop(text, 33, SEEDS[i]);
      HashIsPolynomial(text, 33, SEEDS[i]);
      LaneReadsBack(hash);
      ghost var before := fingerprint;
      fingerprint := fingerprint + Render(hash);
      assert fingerprint[8 * i..8 * i + 8] == Render(hash);
      assert forall k :: 0 <= k < i ==> fingerprint[8 * k..8 * k + 8] == before[8 * k..8 * k + 8];
    }
  }
}
