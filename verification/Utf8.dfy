/** UTF-8 as used by percent-coding: encoding of scalar values, and the error-replacing decoder of
    the WHATWG Encoding Standard, section 8.1.1. */
module Utf8 {

  type byte = x: int | 0 <= x < 256

  const REPLACEMENT: char := 0xFFFD as char

  function CharBytes(c: char): (b: seq<byte>)
    ensures 1 <= |b| <= 4
    ensures (c as int) < 0x80 ==> b == [c as int]
  {
    var n := c as int;
    if n < 0x80 then [n]
    else if n < 0x800 then [0xC0 + n / 64, 0x80 + n % 64]
    else if n < 0x10000 then [0xE0 + n / 4096, 0x80 + n / 64 % 64, 0x80 + n % 64]
    else [0xF0 + n / 262144, 0x80 + n / 4096 % 64, 0x80 + n / 64 % 64, 0x80 + n % 64]
  }

  predicate IsTail(b: byte) {
    0x80 <= b < 0xC0
  }

  /** The range that the second byte of a sequence starting with `lead` must fall in. */
  predicate SecondOk(lead: byte, b: byte) {
    (if lead == 0xE0 then 0xA0 else if lead == 0xF0 then 0x90 else 0x80) <= b
    <= (if lead == 0xED then 0x9F else if lead == 0xF4 then 0x8F else 0xBF)
  }

  predicate IsScalar(n: int) {
    0 <= n < 0xD800 || 0xE000 <= n < 0x110000
  }

  function Join(w: int, x: int, y: int, z: int): int {
    ((w * 64 + x) * 64 + y) * 64 + z
  }

  function Scalar(w: int, x: int, y: int, z: int): char
    requires IsScalar(Join(w, x, y, z))
  {
    Join(w, x, y, z) as char
  }

  /** First scalar value that the decoder emits, and the number of bytes it takes.  A broken sequence
      gives one replacement character and leaves the offending byte unread. */
  function DecodeFirst(b: seq<byte>): (r: (char, nat))
    requires b != []
    ensures 1 <= r.1 <= |b| && r.1 <= 4
    ensures forall i :: 1 <= i < r.1 ==> IsTail(b[i])
  {
    var b0 := b[0];
    if b0 < 0x80 then (b0 as char, 1)
    else if 0xC2 <= b0 < 0xE0 then
      if 1 < |b| && IsTail(b[1]) then (Scalar(0, 0, b0 - 0xC0, b[1] - 0x80), 2)
      else (REPLACEMENT, 1)
    else if 0xE0 <= b0 < 0xF0 then
      if !(1 < |b| && SecondOk(b0, b[1])) then (REPLACEMENT, 1)
      else if !(2 < |b| && IsTail(b[2])) then (REPLACEMENT, 2)
      else (Scalar(0, b0 - 0xE0, b[1] - 0x80, b[2] - 0x80), 3)
    else if 0xF0 <= b0 < 0xF5 then
      if !(1 < |b| && SecondOk(b0, b[1])) then (REPLACEMENT, 1)
      else if !(2 < |b| && IsTail(b[2])) then (REPLACEMENT, 2)
      else if !(3 < |b| && IsTail(b[3])) then (REPLACEMENT, 3)
      else (Scalar(b0 - 0xF0, b[1] - 0x80, b[2] - 0x80, b[3] - 0x80), 4)
    else (REPLACEMENT, 1)
  }

  function Decode(b: seq<byte>): string {
    if b == [] then [] else
      var r := DecodeFirst(b);
      [r.0] + Decode(b[r.1..])
  }

  lemma {:induction false} Sextets(n: nat)
    ensures n == n / 64 * 64 + n % 64
    ensures n / 4096 == n / 64 / 64 && n / 262144 == n / 64 / 64 / 64
    ensures n / 4096 % 64 == n / 64 / 64 % 64
    ensures n / 64 == n / 4096 * 64 + n / 64 % 64
    ensures n / 4096 == n / 262144 * 64 + n / 4096 % 64
  {}

  /** A well-formed sequence decodes to the scalar value it came from, whatever follows. */
  lemma {:induction false} DecodeFirstOfChar(c: char, rest: seq<byte>)
    ensures DecodeFirst(CharBytes(c) + rest) == (c, |CharBytes(c)|)
  {
    var n := c as int;
    var b := CharBytes(c) + rest;
    assert forall i :: 0 <= i < |CharBytes(c)| ==> b[i] == CharBytes(c)[i];
    Sextets(n);
  }

  lemma {:induction false} DecodeChar(c: char, rest: seq<byte>)
    ensures Decode(CharBytes(c) + rest) == [c] + Decode(rest)
  {
    DecodeFirstOfChar(c, rest);
    assert (CharBytes(c) + rest)[|CharBytes(c)|..] == rest;
  }

  lemma {:induction false} DecodeFirstIgnoresAscii(a: seq<byte>, c: byte, b: seq<byte>)
    requires a != [] && c < 0x80
    ensures DecodeFirst(a + [c] + b) == DecodeFirst(a)
  {
    var w := a + [c] + b;
    assert forall i :: 0 <= i < |a| ==> w[i] == a[i];
    assert w[|a|] == c;
  }

  /** The decoder resynchronises at every ASCII byte. */
  lemma {:induction false} DecodeSplitsAtAscii(a: seq<byte>, c: byte, b: seq<byte>)
    requires c < 0x80
    ensures Decode(a + [c] + b) == Decode(a) + [c as char] + Decode(b)
    decreases |a|
  {
    var w := a + [c] + b;
    if a == [] {
      assert w[1..] == b;
    } else {
      hide DecodeFirst;
      var r := DecodeFirst(a);
      DecodeFirstIgnoresAscii(a, c, b);
      assert w[r.1..] == a[r.1..] + [c] + b;
      DecodeSplitsAtAscii(a[r.1..], c, b);
    }
  }

  /** Continuation bytes at the front are decoded one by one, each to its own character. */
  lemma {:induction false} DecodeSkipsTails(b: seq<byte>, k: nat)
    requires k <= |b|
    requires forall i :: 0 <= i < k ==> IsTail(b[i])
    ensures |Decode(b)| == k + |Decode(b[k..])|
    decreases k
  {
    if k != 0 {
      DecodeSkipsTails(b[1..], k - 1);
      assert b[1..][k - 1..] == b[k..];
    }
  }

  /** Putting one byte in front adds at most one character: whatever it swallows was counted before. */
  lemma {:induction false} DecodePrependByte(x: byte, b: seq<byte>)
    ensures |Decode([x] + b)| <= 1 + |Decode(b)|
  {
    var r := DecodeFirst([x] + b);
    var k := r.1 - 1;
    forall i | 0 <= i < k ensures IsTail(b[i]) {
      assert b[i] == ([x] + b)[i + 1];
    }
    DecodeSkipsTails(b, k);
    assert ([x] + b)[r.1..] == b[k..];
  }

  /** The other way round: what is not replaced was well-formed, and of the shortest form. */
  lemma {:induction false} DecodedIsEncoded(b: seq<byte>)
    requires b != [] && DecodeFirst(b).0 != REPLACEMENT
    ensures CharBytes(DecodeFirst(b).0) == b[..DecodeFirst(b).1]
  {
    hide CharBytes;
    if b[0] < 0x80 {
      OneByte(b[0]);
    } else if b[0] < 0xE0 {
      TwoBytes(b[0], b[1]);
    } else if b[0] < 0xF0 {
      ThreeBytes(b[0], b[1], b[2]);
    } else {
      FourBytes(b[0], b[1], b[2], b[3]);
    }
  }

  lemma {:induction false} OneByte(b0: byte)
    requires b0 < 0x80
    ensures CharBytes(b0 as char) == [b0]
  {}

  lemma {:induction false} TwoBytes(b0: byte, b1: byte)
    requires 0xC2 <= b0 < 0xE0 && IsTail(b1)
    ensures CharBytes(Scalar(0, 0, b0 - 0xC0, b1 - 0x80)) == [b0, b1]
  {
    JoinSextets(0, 0, b0 - 0xC0, b1 - 0x80);
  }

  lemma {:induction false} ThreeBytes(b0: byte, b1: byte, b2: byte)
    requires 0xE0 <= b0 < 0xF0 && SecondOk(b0, b1) && IsTail(b2)
    ensures CharBytes(Scalar(0, b0 - 0xE0, b1 - 0x80, b2 - 0x80)) == [b0, b1, b2]
  {
    JoinSextets(0, b0 - 0xE0, b1 - 0x80, b2 - 0x80);
  }

  lemma {:induction false} FourBytes(b0: byte, b1: byte, b2: byte, b3: byte)
    requires 0xF0 <= b0 < 0xF5 && SecondOk(b0, b1) && IsTail(b2) && IsTail(b3)
    ensures CharBytes(Scalar(b0 - 0xF0, b1 - 0x80, b2 - 0x80, b3 - 0x80)) == [b0, b1, b2, b3]
  {
    JoinSextets(b0 - 0xF0, b1 - 0x80, b2 - 0x80, b3 - 0x80);
  }

  lemma {:induction false} JoinSextets(w: nat, x: nat, y: nat, z: nat)
    requires x < 64 && y < 64 && z < 64
    ensures var n := Join(w, x, y, z);
            n % 64 == z && n / 64 % 64 == y && n / 4096 % 64 == x && n / 262144 == w
            && n / 64 == (w * 64 + x) * 64 + y && n / 4096 == w * 64 + x
  {}

  /** The bytes of a scalar value have one of four shapes. */
  lemma {:induction false} CharBytesShape(c: char)
    ensures var b := CharBytes(c);
            match |b|
            case 1 => b[0] < 0x80
            case 2 => 0xC2 <= b[0] < 0xE0 && IsTail(b[1])
            case 3 => 0xE0 <= b[0] < 0xF0 && SecondOk(b[0], b[1]) && IsTail(b[2])
            case _ => 0xF0 <= b[0] < 0xF5 && SecondOk(b[0], b[1]) && IsTail(b[2]) && IsTail(b[3])
  {
    Sextets(c as int);
  }

  /** Some scalar value begins with these bytes. */
  ghost predicate BeginsChar(b: seq<byte>) {
    exists c :: b <= CharBytes(c)
  }

  /** A replacement stands for as many bytes as could have begun a scalar value, or for one: section 3.9 of the
      Unicode Standard calls this the maximal subpart. */
  lemma {:induction false} ReplacedPartIsMaximal(b: seq<byte>)
    requires b != [] && DecodeFirst(b).0 == REPLACEMENT && !(CharBytes(REPLACEMENT) <= b)
    ensures var k := DecodeFirst(b).1;
            (k == 1 || BeginsChar(b[..k])) && (k < |b| ==> !BeginsChar(b[..k + 1]))
  {
    var k := DecodeFirst(b).1;
    NotDecoded(b);
    if k > 1 { PartBegins(b, k); }
    if k < |b| {
      forall c ensures !(b[..k + 1] <= CharBytes(c)) {
        CharBytesShape(c);
        if b[..k + 1] <= CharBytes(c) { PrefixBytes(b[..k + 1], c); }
      }
    }
  }

  lemma {:induction false} PrefixBytes(p: seq<byte>, c: char)
    requires p <= CharBytes(c)
    ensures |p| <= |CharBytes(c)| && forall i :: 0 <= i < |p| ==> p[i] == CharBytes(c)[i]
  {}

  /** A broken sequence is broken at the byte that is left unread. */
  lemma {:induction false} NotDecoded(b: seq<byte>)
    requires b != [] && DecodeFirst(b).0 == REPLACEMENT && !(CharBytes(REPLACEMENT) <= b)
    ensures var k := DecodeFirst(b).1;
            k <= 3 && b[0] >= 0x80
            && (k == 1 ==> |b| == 1 || !(0xC2 <= b[0] < 0xF5)
                           || (b[0] < 0xE0 && !IsTail(b[1])) || (b[0] >= 0xE0 && !SecondOk(b[0], b[1])))
            && (k >= 2 ==> 0xE0 <= b[0] < 0xF5 && SecondOk(b[0], b[1]))
            && (k == 2 ==> |b| == 2 || !IsTail(b[2]))
            && (k == 3 ==> 0xF0 <= b[0] && IsTail(b[2]) && (|b| == 3 || !IsTail(b[3])))
  {
    var (c, k) := DecodeFirst(b);
    if k == 2 && b[0] < 0xE0 {
      TwoBytes(b[0], b[1]);
    } else if k == 3 && b[0] < 0xF0 {
      ThreeBytes(b[0], b[1], b[2]);
    } else if k == 4 {
      FourBytes(b[0], b[1], b[2], b[3]);
    }
  }

  lemma {:induction false} PartBegins(b: seq<byte>, k: nat)
    requires 2 <= k <= 3 && k <= |b| && 0xE0 <= b[0] < 0xF5 && SecondOk(b[0], b[1])
    requires k == 3 ==> 0xF0 <= b[0] && IsTail(b[2])
    ensures BeginsChar(b[..k])
  {
    hide CharBytes;
    if b[0] < 0xF0 {
      ThreeBytes(b[0], b[1], 0x80);
      assert b[..k] <= CharBytes(Scalar(0, b[0] - 0xE0, b[1] - 0x80, 0));
    } else {
      var third := if k == 3 then b[2] else 0x80;
      FourBytes(b[0], b[1], third, 0x80);
      assert b[..k] <= CharBytes(Scalar(b[0] - 0xF0, b[1] - 0x80, third - 0x80, 0));
    }
  }
}
