/** The two readings of `ADMIN_SESSION_TTL` and `USER_SESSION_TTL`: scripts/ops/rotate-jwt.ts prints
    `Number.parseInt(text, 10) || default` as the time to wait, while apps/backend/src/shared/admin-session.ts
    and user-session.ts sign tokens that live for `Number(text) || default`.

    `Number` is the numeric grammar of section 7.1.4.1 of ECMA-262, with exact values in place of doubles. */
module SessionTtl {
  import opened JsText
  import opened JwtRotation
  import TokenDrain

  function DefaultSeconds(target: Target): nat {
    match target
    case Admin => 2 * 60 * 60
    case User => 8 * 60 * 60
  }

  // ---- digits and signs ----

  predicate IsDigit(c: char) {
    '0' <= c <= '9'
  }

  /** The longest front that consists of digits. */
  function LeadingDigits(s: string): (d: string)
    ensures d <= s && AllDigits(d)
    ensures |d| < |s| ==> !IsDigit(s[|d|])
  {
    if s != "" && IsDigit(s[0]) then
      var rest := LeadingDigits(s[1..]);
      assert s == [s[0]] + s[1..];
      [s[0]] + rest
    else ""
  }

  predicate AllDigits(s: string) {
    forall i :: 0 <= i < |s| ==> IsDigit(s[i])
  }

  function DigitsValue(s: string): nat
    requires AllDigits(s)
  {
    if s == "" then 0
    else
      assert IsDigit(s[|s| - 1]);
      DigitsValue(s[..|s| - 1]) * 10 + (s[|s| - 1] as int - '0' as int)
  }

  datatype Signed = Signed(negative: bool, rest: string)

  function SplitSign(s: string): Signed {
    if s != "" && s[0] == '-' then Signed(true, s[1..])
    else if s != "" && s[0] == '+' then Signed(false, s[1..])
    else Signed(false, s)
  }

  function WithSign(negative: bool, n: int): int {
    if negative then -n else n
  }

  // ---- Number.parseInt(text, 10): what the tool prints ----

  /** The integer that the text starts with, `None` for NaN. */
  function ParseInt(text: string): Option<int> {
    var signed := SplitSign(TrimStart(text));
    var digits := LeadingDigits(signed.rest);
    if digits == "" then None
    else Some(WithSign(signed.negative, DigitsValue(digits)))
  }

  function PrintedWait(text: string, default: nat): int {
    match ParseInt(text)
    case None => default
    case Some(n) => if n != 0 then n else default
  }

  // ---- Number(text): how long tokens live ----

  /** `whole.fraction` times ten to the exponent. */
  datatype Decimal = Decimal(whole: string, fraction: string, exponent: int) {
    ghost predicate Valid() {
      AllDigits(whole) && AllDigits(fraction)
    }

    ghost function Value(): real
      requires Valid()
    {
      Scaled(DigitsValue(whole) as real + DigitsValue(fraction) as real / Power(|fraction|), exponent)
    }
  }

  function Power(n: nat): (p: real)
    ensures p >= 1.0
    ensures n > 0 ==> p >= 10.0
  {
    if n == 0 then 1.0 else 10.0 * Power(n - 1)
  }

  function Scaled(x: real, exponent: int): real {
    if exponent >= 0 then x * Power(exponent) else x / Power(-exponent)
  }

  /** The exponent part, empty or `e` with an optional sign and digits to the end. */
  function ReadExponent(s: string): Option<int> {
    if s == "" then Some(0)
    else if s[0] != 'e' && s[0] != 'E' then None
    else
      var signed := SplitSign(s[1..]);
      var digits := LeadingDigits(signed.rest);
      if digits == "" || digits != signed.rest then None
      else Some(WithSign(signed.negative, DigitsValue(digits)))
  }

  function ReadDecimal(s: string): (d: Option<Decimal>)
    ensures d.Some? ==> d.value.Valid() && d.value.whole == LeadingDigits(s)
  {
    var whole := LeadingDigits(s);
    var after := s[|whole|..];
    var fraction := if after != "" && after[0] == '.' then LeadingDigits(after[1..]) else "";
    var end := if after != "" && after[0] == '.' then after[1 + |fraction|..] else after;
    if whole == "" && fraction == "" then None
    else
      match ReadExponent(end)
      case None => None
      case Some(exponent) => Some(Decimal(whole, fraction, exponent))
  }

  function RadixOf(c: char): int {
    if c == 'x' || c == 'X' then 16 else if c == 'o' || c == 'O' then 8 else if c == 'b' || c == 'B' then 2 else 0
  }

  function DigitIn(c: char): int {
    if IsDigit(c) then c as int - '0' as int
    else if 'a' <= c <= 'f' then c as int - 'a' as int + 10
    else if 'A' <= c <= 'F' then c as int - 'A' as int + 10
    else 16
  }

  function ReadRadix(s: string, radix: int): Option<int> {
    if s == "" then Some(0)
    else if DigitIn(s[|s| - 1]) >= radix then None
    else
      match ReadRadix(s[..|s| - 1], radix)
      case None => None
      case Some(n) => Some(n * radix + DigitIn(s[|s| - 1]))
  }

  /** What kind of numeric literal the text is, white space at its ends aside. */
  datatype Form =
    | Blank
    | InRadix(value: int)
    | Unlimited(negative: bool)
    | InDecimal(negative: bool, decimal: Decimal)
    | NoNumber

  function FormOf(text: string): (form: Form)
    ensures form.InDecimal? ==> form.decimal.Valid()
  {
    var t := Trim(text);
    if t == "" then Blank
    else if |t| >= 2 && t[0] == '0' && RadixOf(t[1]) != 0 then
      match ReadRadix(t[2..], RadixOf(t[1]))
      case None => NoNumber
      case Some(n) => if |t| == 2 then NoNumber else InRadix(n)
    else
      var signed := SplitSign(t);
      if signed.rest == "Infinity" then Unlimited(signed.negative)
      else
        match ReadDecimal(signed.rest)
        case None => NoNumber
        case Some(decimal) => InDecimal(signed.negative, decimal)
  }

  datatype JsNumber = NotANumber | Finite(value: real) | Infinite(negative: bool)

  ghost function Number(text: string): JsNumber {
    match FormOf(text)
    case Blank => Finite(0.0)
    case InRadix(n) => Finite(n as real)
    case Unlimited(negative) => Infinite(negative)
    case InDecimal(negative, decimal) => Finite(if negative then -decimal.Value() else decimal.Value())
    case NoNumber => NotANumber
  }

  /** Zero and NaN give way to the default. */
  ghost function Lifetime(text: string, default: nat): JsNumber {
    match Number(text)
    case NotANumber => Finite(default as real)
    case Finite(value) => Finite(if value != 0.0 then value else default as real)
    case Infinite(negative) => Infinite(negative)
  }

  // ---- when the printed wait covers the lifetime ----

  /** Waiting as long as printed, no token outlives the wait. */
  ghost predicate PrintedCovers(text: string, default: nat) {
    match Lifetime(text, default)
    case NotANumber => true
    case Finite(value) => value <= 0.0 || value <= PrintedWait(text, default) as real
    case Infinite(negative) => negative
  }

  /** The condition on the text: numbers in another radix and decimals without a positive whole part must not
      exceed the default; a decimal with one must have no positive exponent, and digits after the point only
      with a negative one; a text that is no number must start with none, with zero, or with one that is at
      least the default. */
  ghost predicate GoodTtl(text: string, default: nat) {
    match FormOf(text)
    case Blank => true
    case InRadix(n) => n <= default
    case Unlimited(negative) => negative
    case InDecimal(negative, decimal) =>
      negative
      || (if DigitsValue(decimal.whole) == 0 then decimal.Value() <= default as real
          else decimal.exponent < 0 || (decimal.exponent == 0 && DigitsValue(decimal.fraction) == 0))
    case NoNumber => ParseInt(text) == None || ParseInt(text) == Some(0) || ParseInt(text).value >= default
  }

  lemma {:induction false} LeadingDigitsTrimmed(s: string)
    ensures LeadingDigits(TrimEnd(s)) == LeadingDigits(s)
  {
    if s != "" && IsSpace(s[|s| - 1]) {
      LeadingDigitsTrimmed(s[..|s| - 1]);
      DropLast(s);
    }
  }

  lemma {:induction false} DropLast(s: string)
    requires s != "" && !IsDigit(s[|s| - 1])
    ensures LeadingDigits(s[..|s| - 1]) == LeadingDigits(s)
  {
    if |s| > 1 && IsDigit(s[0]) {
      DropLast(s[1..]);
      assert s[..|s| - 1][1..] == s[1..][..|s| - 2];
    }
  }

  lemma {:induction false} TrimEndAfter(c: char, s: string)
    requires !IsSpace(c)
    ensures TrimEnd([c] + s) == [c] + TrimEnd(s)
  {
    if s != "" && IsSpace(s[|s| - 1]) {
      TrimEndAfter(c, s[..|s| - 1]);
      assert ([c] + s)[..|s|] == [c] + s[..|s| - 1];
    }
  }

  /** The white space at the end of a text does not matter to `parseInt`. */
  lemma {:induction false} ParseIntTrimmed(text: string)
    ensures var signed := SplitSign(Trim(text));
            signed.negative == SplitSign(TrimStart(text)).negative
            && LeadingDigits(signed.rest) == LeadingDigits(SplitSign(TrimStart(text)).rest)
  {
    var s := TrimStart(text);
    TrimStartTrims(text);
    if s != "" && (s[0] == '-' || s[0] == '+') {
      assert s == [s[0]] + s[1..];
      TrimEndAfter(s[0], s[1..]);
      LeadingDigitsTrimmed(s[1..]);
    } else {
      TrimEndTrims(s);
      LeadingDigitsTrimmed(s);
    }
  }

  lemma {:induction false} DigitsBelowPower(s: string)
    requires AllDigits(s)
    ensures DigitsValue(s) as real <= Power(|s|) - 1.0
  {
    if s != "" {
      DigitsBelowPower(s[..|s| - 1]);
    }
  }

  /** A decimal with a positive whole part is at most that part exactly when it is scaled down, or has
      nothing after the point and is not scaled up. */
  lemma {:induction false} DecimalAtMostWhole(d: Decimal)
    requires d.Valid() && DigitsValue(d.whole) >= 1
    ensures d.Value() > 0.0
    ensures d.Value() <= DigitsValue(d.whole) as real <==>
              d.exponent < 0 || (d.exponent == 0 && DigitsValue(d.fraction) == 0)
  {
    hide DigitsValue, Power;
    var n, f, p := DigitsValue(d.whole) as real, DigitsValue(d.fraction) as real, Power(|d.fraction|);
    DigitsBelowPower(d.fraction);
    FractionBelowOne(f, p);
    ScaledAtMost(n, f / p, d.exponent);
  }

  lemma {:induction false} FractionBelowOne(f: real, p: real)
    requires 0.0 <= f <= p - 1.0
    ensures 0.0 <= f / p < 1.0
    ensures f / p == 0.0 <==> f == 0.0
  {
    if f / p == 0.0 { assert f == f / p * p; }
  }

  lemma {:induction false} ScaledAtMost(n: real, x: real, exponent: int)
    requires n >= 1.0 && 0.0 <= x < 1.0
    ensures Scaled(n + x, exponent) > 0.0
    ensures Scaled(n + x, exponent) <= n <==> exponent < 0 || (exponent == 0 && x == 0.0)
  {
    hide Power;
    if exponent > 0 {
      TimesTen(n + x, Power(exponent));
    } else if exponent == 0 {
      assert Power(0) == 1.0 by { PowerZero(); }
    } else {
      OverTen(n + x, Power(-exponent));
    }
  }

  lemma {:induction false} PowerZero()
    ensures Power(0) == 1.0
  {}

  lemma {:induction false} TimesTen(y: real, p: real)
    requires y > 0.0 && p >= 10.0
    ensures y * p >= 10.0 * y
  {}

  lemma {:induction false} CancelFactor(a: real, b: real, p: real)
    requires p > 0.0
    ensures a * p <= b * p <==> a <= b
  {}

  lemma {:induction false} OverTen(y: real, p: real)
    requires y > 0.0 && p >= 10.0
    ensures 0.0 < y / p <= y / 10.0
  {
    assert y / p * p == y;
    TimesTen(y / 10.0, p);
    CancelFactor(y / p, y / 10.0, p);
    CancelFactor(y / p, 0.0, p);
  }

  lemma {:induction false} ScaledSign(x: real, exponent: int)
    requires x >= 0.0
    ensures Scaled(x, exponent) >= 0.0
    ensures x > 0.0 ==> Scaled(x, exponent) > 0.0
    ensures x == 0.0 ==> Scaled(x, exponent) == 0.0
  {
    hide Power;
    if exponent < 0 {
      QuotientSign(x, Power(-exponent));
    } else {
      ProductSign(x, Power(exponent));
    }
  }

  lemma {:induction false} ProductSign(x: real, p: real)
    requires x >= 0.0 && p >= 1.0
    ensures x * p >= 0.0 && (x > 0.0 ==> x * p > 0.0) && (x == 0.0 ==> x * p == 0.0)
  {}

  lemma {:induction false} QuotientSign(x: real, p: real)
    requires x >= 0.0 && p >= 1.0
    ensures x / p >= 0.0 && (x > 0.0 ==> x / p > 0.0) && (x == 0.0 ==> x / p == 0.0)
  {
    assert x / p * p == x;
    CancelFactor(0.0, x / p, p);
    CancelFactor(x / p, 0.0, p);
  }

  lemma {:induction false} DecimalSign(d: Decimal)
    requires d.Valid()
    ensures d.Value() >= 0.0
    ensures d.Value() == 0.0 ==> DigitsValue(d.whole) == 0
  {
    hide DigitsValue, Power;
    var f, p := DigitsValue(d.fraction) as real, Power(|d.fraction|);
    QuotientSign(f, p);
    ScaledSign(DigitsValue(d.whole) as real + f / p, d.exponent);
  }

  /** The sign of a text, and the digits after it. */
  function WholePart(text: string): (r: (bool, string))
    ensures AllDigits(r.1)
  {
    var signed := SplitSign(Trim(text));
    (signed.negative, LeadingDigits(signed.rest))
  }

  /** What is printed depends on the sign and the digits after it only. */
  lemma {:induction false} PrintedByWhole(text: string, default: nat)
    ensures var n := DigitsValue(WholePart(text).1);
            PrintedWait(text, default) == if n == 0 then default else WithSign(WholePart(text).0, n)
  {
    hide DigitsValue, Trim, TrimStart, LeadingDigits;
    ParseIntTrimmed(text);
    NoDigits();
  }

  /** A decimal starts with them, and any other number with none or with zero. */
  lemma {:induction false} WholeOfForm(text: string)
    ensures FormOf(text).InDecimal? ==> WholePart(text) == (FormOf(text).negative, FormOf(text).decimal.whole)
    ensures FormOf(text).InRadix? || FormOf(text).Blank? || FormOf(text).Unlimited? ==>
              WholePart(text).1 == "" || WholePart(text).1 == "0"
  {
    hide ReadRadix, DigitsValue, Trim, ReadExponent, Power, LeadingDigits;
    var t := Trim(text);
    if t == "" {
      NoLeadingDigits(t);
    } else if FormOf(text).Unlimited? {
      assert SplitSign(t).rest[0] == 'I';
      NoLeadingDigits(SplitSign(t).rest);
    } else if FormOf(text).InRadix? {
      LeadingZero(t);
    }
  }

  lemma {:induction false} NoLeadingDigits(s: string)
    requires s == "" || !IsDigit(s[0])
    ensures LeadingDigits(s) == ""
  {}

  lemma {:induction false} LeadingZero(s: string)
    requires |s| >= 2 && s[0] == '0' && !IsDigit(s[1])
    ensures LeadingDigits(s) == "0"
  {
    NoLeadingDigits(s[1..]);
  }

  lemma {:induction false} ZeroDigit()
    ensures DigitsValue("0") == 0
  {
    assert "0"[..0] == "";
  }

  lemma {:induction false} NoDigits()
    ensures DigitsValue("") == 0
  {}

  /** Waiting as long as the tool prints is enough exactly for the good texts. */
  lemma {:induction false} PrintedCoversIff(text: string, default: nat)
    requires default > 0
    ensures PrintedCovers(text, default) <==> GoodTtl(text, default)
  {
    hide DigitsValue, FormOf, PrintedWait, WholePart, ParseInt;
    PrintedByWhole(text, default);
    WholeOfForm(text);
    ZeroDigit();
    NoDigits();
    match FormOf(text)
    case InDecimal(negative, decimal) =>
      DecimalSign(decimal);
      if DigitsValue(decimal.whole) >= 1 {
        DecimalAtMostWhole(decimal);
      }
    case NoNumber =>
      PrintedOtherwise(text, default);
    case _ =>
  }

  lemma {:induction false} PrintedOtherwise(text: string, default: nat)
    ensures PrintedWait(text, default) >= default <==>
              ParseInt(text) == None || ParseInt(text) == Some(0) || ParseInt(text).value >= default
  {}

  /** A plain whole number, the documented way to set a lifetime, reads the same both ways. */
  lemma {:induction false} WholeNumbersAgree(text: string, default: nat)
    requires FormOf(text).Blank?
             || (FormOf(text).InDecimal? && FormOf(text).decimal.fraction == "" && FormOf(text).decimal.exponent == 0)
    ensures Lifetime(text, default) == Finite(PrintedWait(text, default) as real)
    ensures default > 0 ==> GoodTtl(text, default)
  {
    hide FormOf, PrintedWait, Power, DigitsValue, WholePart;
    PrintedByWhole(text, default);
    WholeOfForm(text);
    ZeroDigit();
    NoDigits();
    PowerZero();
  }

  /** The runs in which the operator waits as long as the tool prints: a live session token is rejected in
      one of them exactly when the text is not a good one. */
  lemma {:induction false} PrintedWaitIsSafeIff(text: string, target: Target, rules: TokenDrain.Rules, secret: string)
    requires Lifetime(text, DefaultSeconds(target)) == Finite(rules.ttl)
    requires rules.wait == PrintedWait(text, DefaultSeconds(target))
    requires secret != ""
    ensures TokenDrain.SomeRunRejects(rules, secret) <==> !GoodTtl(text, DefaultSeconds(target))
  {
    hide TokenDrain.SomeRunRejects, GoodTtl, Lifetime, PrintedWait;
    TokenDrain.WaitIsExact(rules, secret);
    PrintedCoversIff(text, DefaultSeconds(target));
    assert PrintedCovers(text, DefaultSeconds(target)) == rules.Covers();
  }

  /** Two texts for which the tool prints too little: eight seconds for tokens that live eight hours, and
      one second for ten thousand. */
  lemma {:induction false} SuffixAndExponentMislead(default: nat)
    requires default > 8
    ensures PrintedWait("8h", default) == 8 && Lifetime("8h", default) == Finite(default as real)
    ensures PrintedWait("1e4", default) == 1 && Lifetime("1e4", default) == Finite(10000.0)
    ensures !GoodTtl("8h", default) && !GoodTtl("1e4", default)
  {
    hide FormOf, ParseInt, Power, DigitsValue;
    ReadsEightHours();
    ReadsTenThousand();
    TenThousand();
  }

  lemma {:induction false} TenThousand()
    ensures Power(0) == 1.0 && Power(4) == 10000.0
  {
    assert Power(2) == 100.0;
  }

  lemma {:induction false} ReadsEightHours()
    ensures FormOf("8h") == NoNumber && ParseInt("8h") == Some(8)
  {
    var s := "8h";
    TrimFixesTrimmed(s);
    assert s[1..] == "h" && LeadingDigits("h") == "" && LeadingDigits(s) == "8";
    assert "8"[..0] == "" && DigitsValue("8") == 8;
    assert s[1..][0] == 'h';
  }

  lemma {:induction false} ReadsTenThousand()
    ensures FormOf("1e4") == InDecimal(false, Decimal("1", "", 4)) && ParseInt("1e4") == Some(1)
    ensures DigitsValue("1") == 1 && DigitsValue("") == 0
  {
    var s := "1e4";
    TrimFixesTrimmed(s);
    assert s[1..] == "e4" && LeadingDigits("e4") == "" && LeadingDigits(s) == "1";
    assert "1"[..0] == "" && DigitsValue("1") == 1;
    assert "e4"[1..] == "4" && "4"[1..] == "" && LeadingDigits("4") == "4";
    assert "4"[..0] == "" && DigitsValue("4") == 4;
  }

  // ---- texts as they are written ----

  /** A number in decimal digits. */
  function InDigits(n: nat): (s: string)
    ensures s != "" && AllDigits(s)
  {
    var digit := ('0' as int + n % 10) as char;
    if n < 10 then [digit] else InDigits(n / 10) + [digit]
  }

  lemma {:induction false} DigitsRead(n: nat)
    ensures DigitsValue(InDigits(n)) == n
  {
    var s := InDigits(n);
    if n < 10 {
      assert s[..0] == "";
    } else {
      DigitsRead(n / 10);
      assert s[..|s| - 1] == InDigits(n / 10);
    }
  }

  lemma {:induction false} DigitsAreLeading(s: string)
    requires AllDigits(s)
    ensures LeadingDigits(s) == s
  {}

  lemma {:induction false} DigitIsNoSpace(s: string)
    requires s != "" && AllDigits(s)
    ensures IsTrimmed(s) && SplitSign(s) == Signed(false, s) && RadixOf(s[|s| - 1]) == 0
  {
    assert IsDigit(s[0]) && IsDigit(s[|s| - 1]);
  }

  lemma {:induction false} FormOfDigits(s: string)
    requires s != "" && AllDigits(s)
    ensures FormOf(s) == InDecimal(false, Decimal(s, "", 0))
  {
    hide DigitsValue, Trim;
    DigitIsNoSpace(s);
    TrimFixesTrimmed(s);
    DigitsAreLeading(s);
    if |s| >= 2 { assert IsDigit(s[1]); }
    assert IsDigit(s[0]) && "Infinity"[0] == 'I';
    assert s[|s|..] == "";
  }

  /** The documented way to set a lifetime: a number of seconds in digits is what is printed and how long
      tokens live, both, and zero means the default. */
  lemma {:induction false} SecondsInDigits(n: nat, default: nat)
    ensures var seconds := if n == 0 then default else n;
            PrintedWait(InDigits(n), default) == seconds
            && Lifetime(InDigits(n), default) == Finite(seconds as real)
  {
    hide FormOf, PrintedWait, DigitsValue;
    var s := InDigits(n);
    FormOfDigits(s);
    DigitsRead(n);
    PrintedByWhole(s, default);
    WholeOfForm(s);
    WholeNumbersAgree(s, default);
  }

  /** Without a text the lifetimes are two hours for admins and eight for users. */
  lemma {:induction false} DefaultLifetimes()
    ensures PrintedWait("", DefaultSeconds(Admin)) == 7200 && Lifetime("", DefaultSeconds(Admin)) == Finite(7200.0)
    ensures PrintedWait("", DefaultSeconds(User)) == 28800 && Lifetime("", DefaultSeconds(User)) == Finite(28800.0)
  {
    hide LeadingDigits;
    NoLeadingDigits("");
  }

  lemma {:induction false} LeadingStops(w: string, rest: string)
    requires AllDigits(w) && (rest == "" || !IsDigit(rest[0]))
    ensures LeadingDigits(w + rest) == w && (w + rest)[|w|..] == rest
  {
    if w == "" {
      assert w + rest == rest;
    } else {
      assert (w + rest)[1..] == w[1..] + rest;
      LeadingStops(w[1..], rest);
    }
  }

  /** Nothing, or an `e` of either case, a sign if any, and at least one digit. */
  ghost predicate IsExponent(s: string) {
    s == ""
    || (s[0] in "eE" && 1 < |s|
        && var from := if s[1] in "+-" then 2 else 1;
           from < |s| && forall i :: from <= i < |s| ==> '0' <= s[i] <= '9')
  }

  lemma {:induction false} ExponentIff(s: string)
    ensures ReadExponent(s).Some? <==> IsExponent(s)
  {
    hide DigitsValue;
    if 1 < |s| && s[0] in "eE" {
      var from := if s[1] in "+-" then 2 else 1;
      var rest := SplitSign(s[1..]).rest;
      assert rest == s[from..];
      AllOrLeading(rest);
    }
  }

  lemma {:induction false} AllOrLeading(s: string)
    ensures LeadingDigits(s) == s <==> AllDigits(s)
  {
    if AllDigits(s) { DigitsAreLeading(s); }
  }

  lemma {:induction false} ExponentReads(e: char, sign: string, digits: string)
    requires e == 'e' || e == 'E'
    requires sign == "" || sign == "+" || sign == "-"
    requires digits != "" && AllDigits(digits)
    ensures ReadExponent([e] + (sign + digits)) == Some(WithSign(sign == "-", DigitsValue(digits)))
  {
    hide DigitsValue;
    var s := [e] + (sign + digits);
    assert s[0] == e && s[1..] == sign + digits;
    assert IsDigit(digits[0]);
    DigitsAreLeading(digits);
    if sign == "" {
      assert sign + digits == digits;
    } else {
      assert (sign + digits)[0] == sign[0] && (sign + digits)[1..] == digits;
    }
  }

  /** Which texts are decimals, and what is read from them: digits, a point and digits if any, and an exponent,
      with a digit before or after the point. */
  lemma {:induction false} DecimalReads(whole: string, point: string, fraction: string, end: string)
    requires AllDigits(whole) && AllDigits(fraction) && (point == "." || (point == "" && fraction == ""))
    requires end != "" ==> !IsDigit(end[0]) && (point == "" ==> end[0] != '.')
    ensures var d := ReadDecimal(whole + (point + (fraction + end)));
            (d.Some? <==> (whole != "" || fraction != "") && IsExponent(end))
            && (d.Some? ==> ReadExponent(end).Some? && d.value == Decimal(whole, fraction, ReadExponent(end).value))
  {
    hide DigitsValue, ReadExponent, IsExponent;
    var after := point + (fraction + end);
    ExponentIff(end);
    if point == "" {
      assert after == end;
    } else {
      assert after[0] == '.' && after[1..] == fraction + end;
      LeadingStops(fraction, end);
      assert after[1 + |fraction|..] == end;
    }
    LeadingStops(whole, after);
  }

  lemma {:induction false} DigitsConcat(a: string, b: string)
    requires AllDigits(a) && AllDigits(b)
    ensures AllDigits(a + b)
    ensures DigitsValue(a + b) as real == DigitsValue(a) as real * Power(|b|) + DigitsValue(b) as real
  {
    hide DigitsValue, Power, AllDigits;
    if b == "" {
      assert a + b == a;
      NoDigits();
      PowerZero();
    } else {
      var w, c := b[..|b| - 1], b[|b| - 1];
      WithoutLast(a, b);
      DigitsConcat(a, w);
      LastDigit(a + b);
      LastDigit(b);
      PowerStep(|w|);
      OneDigitMore(DigitsValue(a), DigitsValue(w), DigitsValue(a + w), c as int - '0' as int, Power(|w|));
    }
  }

  lemma {:induction false} WithoutLast(a: string, b: string)
    requires AllDigits(a) && AllDigits(b) && b != ""
    ensures AllDigits(a + b) && AllDigits(b[..|b| - 1])
    ensures (a + b)[..|a + b| - 1] == a + b[..|b| - 1] && (a + b)[|a + b| - 1] == b[|b| - 1]
  {}

  lemma {:induction false} OneDigitMore(a: nat, w: nat, aw: nat, digit: int, p: real)
    requires aw as real == a as real * p + w as real
    ensures (aw * 10 + digit) as real == a as real * (10.0 * p) + (w * 10 + digit) as real
  {
    TenTimes(a as real, p);
    assert (aw * 10 + digit) as real == aw as real * 10.0 + digit as real;
    assert (w * 10 + digit) as real == w as real * 10.0 + digit as real;
  }

  lemma {:induction false} LastDigit(s: string)
    requires s != "" && AllDigits(s)
    ensures DigitsValue(s) == DigitsValue(s[..|s| - 1]) * 10 + (s[|s| - 1] as int - '0' as int)
  {}

  lemma {:induction false} PowerStep(n: nat)
    ensures Power(n + 1) == 10.0 * Power(n)
  {}

  lemma {:induction false} TenTimes(x: real, p: real)
    ensures x * (10.0 * p) == 10.0 * (x * p)
  {}

  /** ... and its value is that of all its digits, moved by the digits after the point and by the exponent. */
  lemma {:induction false} ValueOfDecimal(whole: string, fraction: string, exponent: int)
    requires AllDigits(whole) && AllDigits(fraction)
    ensures AllDigits(whole + fraction)
    ensures Decimal(whole, fraction, 0).Value() * Power(|fraction|) == DigitsValue(whole + fraction) as real
    ensures Decimal(whole, fraction, exponent + 1).Value() == 10.0 * Decimal(whole, fraction, exponent).Value()
  {
    hide DigitsValue, Power, Scaled;
    var w, f, p := DigitsValue(whole) as real, DigitsValue(fraction) as real, Power(|fraction|);
    DigitsConcat(whole, fraction);
    Distributes(w, f, p);
    ScaledStep(w + f / p, exponent);
    NotScaled(w + f / p);
  }

  lemma {:induction false} NotScaled(x: real)
    ensures Scaled(x, 0) == x
  {}

  lemma {:induction false} Distributes(w: real, f: real, p: real)
    requires p > 0.0
    ensures (w + f / p) * p == w * p + f
  {
    assert f / p * p == f;
  }

  lemma {:induction false} ScaledStep(x: real, exponent: int)
    ensures Scaled(x, exponent + 1) == 10.0 * Scaled(x, exponent)
  {
    if exponent >= 0 {
      assert Power(exponent + 1) == 10.0 * Power(exponent);
      TenTimes(x, Power(exponent));
    } else {
      assert Power(-exponent) == 10.0 * Power(-exponent - 1);
      TenthOf(x, Power(-exponent - 1));
    }
  }

  lemma {:induction false} TenthOf(x: real, p: real)
    requires p > 0.0
    ensures x / p == 10.0 * (x / (10.0 * p))
  {
    assert x / (10.0 * p) * (10.0 * p) == x;
    assert 10.0 * (x / (10.0 * p)) * p == x;
  }

  // ---- the other literals ----

  /** A blank text is one of white space only. */
  lemma {:induction false} BlankIff(text: string)
    ensures FormOf(text) == Blank <==> AllSpace(text)
  {
    hide ReadDecimal, ReadRadix, Trim, AllSpace;
    if Trim(text) == "" { TrimmedToNothing(text); }
    if AllSpace(text) { SpaceTrims(text); }
  }

  lemma {:induction false} TrimmedToNothing(text: string)
    requires Trim(text) == ""
    ensures AllSpace(text)
  {
    hide Trim;
    var front, back := TrimTakesSpaceOnly(text);
    assert text == front + back;
  }

  lemma {:induction false} SpaceTrims(text: string)
    requires AllSpace(text)
    ensures Trim(text) == ""
  {
    hide Trim;
    TrimIsInner("", "", text);
    assert "" + "" + text == text;
  }

  /** The letters that announce another radix. */
  lemma {:induction false} RadixLetters(c: char)
    ensures RadixOf(c) == if c in "xX" then 16 else if c in "oO" then 8 else if c in "bB" then 2 else 0
  {}

  /** The digits of all radixes, letters of either case. */
  lemma {:induction false} DigitsOfRadixes(c: char)
    ensures forall i :: 0 <= i < 16 ==> DigitIn("0123456789abcdef"[i]) == DigitIn("0123456789ABCDEF"[i]) == i
    ensures c !in "0123456789abcdef" && c !in "0123456789ABCDEF" ==> DigitIn(c) >= 16
  {
    if '0' <= c <= '9' {
      assert "0123456789abcdef"[c as int - '0' as int] == c;
    } else if 'a' <= c <= 'f' {
      assert "0123456789abcdef"[c as int - 'a' as int + 10] == c;
    } else if 'A' <= c <= 'F' {
      assert "0123456789ABCDEF"[c as int - 'A' as int + 10] == c;
    }
  }

  function RadixDigit(i: nat): char
    requires i < 16
  {
    "0123456789abcdef"[i]
  }

  lemma {:induction false} RadixDigitReads(i: nat)
    requires i < 16
    ensures DigitIn(RadixDigit(i)) == i && !IsSpace(RadixDigit(i))
  {
    DigitsOfRadixes('0');
  }

  predicate IsRadix(radix: int) {
    radix == 2 || radix == 8 || radix == 16
  }

  lemma {:induction false} DivMod(n: nat, radix: nat)
    requires IsRadix(radix)
    ensures n / radix * radix + n % radix == n && n % radix < radix
    ensures radix <= n ==> 0 < n / radix < n
    ensures n < radix ==> n % radix == n
  {}

  /** A number in the digits of a radix. */
  function InDigitsOf(n: nat, radix: nat): (s: string)
    requires IsRadix(radix)
    ensures s != ""
  {
    DivMod(n, radix);
    var digit := RadixDigit(n % radix);
    if n < radix then [digit] else InDigitsOf(n / radix, radix) + [digit]
  }

  lemma {:induction false} ReadPrintedRadix(n: nat, radix: nat)
    requires IsRadix(radix)
    ensures ReadRadix(InDigitsOf(n, radix), radix) == Some(n)
  {
    hide ReadRadix, DigitIn, RadixDigit;
    DivMod(n, radix);
    var digit := RadixDigit(n % radix);
    RadixDigitReads(n % radix);
    if n < radix {
      ReadNext("", digit, radix, 0);
      assert "" + [digit] == [digit];
    } else {
      ReadPrintedRadix(n / radix, radix);
      ReadNext(InDigitsOf(n / radix, radix), digit, radix, n / radix);
    }
  }

  lemma {:induction false} ReadNext(s: string, digit: char, radix: nat, m: nat)
    requires ReadRadix(s, radix) == Some(m) || (s == "" && m == 0)
    requires DigitIn(digit) < radix
    ensures ReadRadix(s + [digit], radix) == Some(m * radix + DigitIn(digit))
  {
    hide DigitIn;
    assert (s + [digit])[..|s|] == s;
  }

  lemma {:induction false} ReadRadixIff(s: string, radix: nat)
    ensures ReadRadix(s, radix).Some? <==> forall i :: 0 <= i < |s| ==> DigitIn(s[i]) < radix
  {
    if s != "" {
      ReadRadixIff(s[..|s| - 1], radix);
      assert forall i :: 0 <= i < |s| - 1 ==> s[..|s| - 1][i] == s[i];
    }
  }

  lemma {:induction false} MarkedForm(mark: char, digits: string)
    requires RadixOf(mark) != 0 && IsTrimmed("0" + [mark] + digits)
    ensures FormOf("0" + [mark] + digits)
         == var n := ReadRadix(digits, RadixOf(mark));
            if n == None || digits == "" then NoNumber else InRadix(n.value)
  {
    hide Trim, ReadDecimal, ReadRadix;
    var text := "0" + [mark] + digits;
    TrimFixesTrimmed(text);
    assert text[1] == mark && text[2..] == digits;
  }

  /** A number that is written in another radix is read as that number, and digits that the radix does not have,
      or none at all, make it no number. */
  lemma {:induction false} RadixReads(mark: char, n: nat, digits: string)
    requires RadixOf(mark) != 0
    ensures FormOf("0" + [mark] + InDigitsOf(n, RadixOf(mark))) == InRadix(n)
    ensures IsTrimmed("0" + [mark] + digits) ==>
              (FormOf("0" + [mark] + digits).InRadix?
               <==> digits != "" && forall i :: 0 <= i < |digits| ==> DigitIn(digits[i]) < RadixOf(mark))
  {
    hide FormOf, ReadRadix, Trim;
    var radix, s := RadixOf(mark), InDigitsOf(n, RadixOf(mark));
    ReadPrintedRadix(n, radix);
    VisibleDigits(n, radix);
    MarkedForm(mark, s);
    if IsTrimmed("0" + [mark] + digits) {
      MarkedForm(mark, digits);
      ReadRadixIff(digits, radix);
    }
  }

  lemma {:induction false} VisibleDigits(n: nat, radix: nat)
    requires IsRadix(radix)
    ensures var s := InDigitsOf(n, radix); !IsSpace(s[|s| - 1])
  {
    var s := InDigitsOf(n, radix);
    DivMod(n, radix);
    RadixDigitReads(n % radix);
    assert s[|s| - 1] == RadixDigit(n % radix);
  }

  /** The infinities. */
  lemma {:induction false} InfinityReads()
    ensures FormOf("-Infinity") == Unlimited(true) && FormOf("+Infinity") == Unlimited(false)
  {
    hide Trim, ReadDecimal, ReadRadix;
    TrimFixesTrimmed("-Infinity");
    TrimFixesTrimmed("+Infinity");
    assert "-Infinity"[1..] == "Infinity" && "+Infinity"[1..] == "Infinity";
    assert "-Infinity"[0] == '-' && "+Infinity"[0] == '+';
  }
}
