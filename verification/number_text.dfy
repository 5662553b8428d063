/**
 * The three pieces of Rust's standard library the calculator turns numbers
 * into text and back with, modelled on real numbers:
 *  - `format!("{:.p}", x)`: FixedText,
 *  - `str::parse::<f64>`: Parse,
 *  - `f64::to_string`: ToString,
 * and the `.trim_end_matches('0').trim_end_matches('.')` chain the display
 * applies to fixed text: TrimNumber.
 */
module NumberText {
  import opened Wrappers

  predicate IsDigit(c: char) { '0' <= c <= '9' }

  predicate AllDigits(s: string) { forall i :: 0 <= i < |s| ==> IsDigit(s[i]) }

  function DigitChar(d: nat): (c: char)
    requires d < 10
    ensures IsDigit(c) && c as int - '0' as int == d
  {
    ('0' as int + d) as char
  }

  /** The value of a string of decimal digits, most significant first ("" is 0). */
  function DigitsValue(s: string): nat
    requires AllDigits(s)
  {
    if s == [] then 0 else DigitsValue(s[..|s| - 1]) * 10 + (s[|s| - 1] as int - '0' as int)
  }

  function Pow10(k: nat): (r: nat)
    ensures r >= 1
  {
    if k == 0 then 1 else 10 * Pow10(k - 1)
  }

  function Abs(x: real): (r: real)
    ensures r >= 0.0 && (r == x || r == -x)
  {
    if x < 0.0 then -x else x
  }

  // ---------------------------------------------------------------------------
  // Integer arithmetic helpers

  lemma DivModUnique(n: int, m: int, k: int, t: int)
    requires m > 0 && 0 <= t < m && n == k * m + t
    ensures n / m == k && n % m == t
  {
    var d := k - n / m;
    assert d * m == n % m - t;
    MulBounds(d, m);
  }

  lemma RealOfProduct(a: int, b: int)
    ensures (a * b) as real == a as real * b as real
  {
  }

  /** A common factor cancels out of a quotient. */
  lemma CancelFactor(a: int, b: int, c: int)
    requires b >= 1 && c >= 1
    ensures (a * c) as real / (b * c) as real == a as real / b as real
  {
    RealOfProduct(a, c);
    RealOfProduct(b, c);
    var x := a as real / b as real;
    assert x * b as real == a as real;
    assert x * (b as real * c as real) == a as real * c as real;
  }

  lemma Distribute(q: int, b: int, c: int, f: int)
    ensures q * (b * c) + f * c == (q * b + f) * c
  {
  }

  lemma MulAssoc(a: int, b: int, c: int)
    ensures (a * b) * c == a * (b * c)
  {
  }

  lemma MulBounds(d: int, m: int)
    requires m > 0
    ensures d >= 1 ==> d * m >= m
    ensures d <= -1 ==> d * m <= -m
  {
  }

  lemma {:induction false} Pow10Add(a: nat, b: nat)
    ensures Pow10(a + b) == Pow10(a) * Pow10(b)
  {
    if a > 0 {
      Pow10Add(a - 1, b);
      assert Pow10(a + b) == 10 * Pow10(a - 1 + b);
    }
  }

  /** Peeling the last digit off n and off n mod 10 * p agree. */
  lemma ModTen(n: nat, p: nat)
    requires p >= 1
    ensures (n / 10 % p) * 10 + n % 10 == n % (10 * p)
  {
    var q, r := n / 10, n % 10;
    var a, b := q / p, q % p;
    assert q == a * p + b;
    assert n == a * (10 * p) + (b * 10 + r);
    DivModUnique(n, 10 * p, a, b * 10 + r);
  }

  // ---------------------------------------------------------------------------
  // Digit strings

  lemma AppendDigitValue(s: string, c: char)
    requires AllDigits(s) && IsDigit(c)
    ensures AllDigits(s + [c])
    ensures DigitsValue(s + [c]) == DigitsValue(s) * 10 + (c as int - '0' as int)
  {
    assert (s + [c])[..|s|] == s;
  }

  /** Digits written after other digits shift them left by as many places. */
  lemma {:induction false} DigitsConcat(a: string, b: string)
    requires AllDigits(a) && AllDigits(b)
    ensures AllDigits(a + b)
    ensures DigitsValue(a + b) == DigitsValue(a) * Pow10(|b|) + DigitsValue(b)
  {
    if b != [] {
      var b' := b[..|b| - 1];
      var d := b[|b| - 1] as int - '0' as int;
      DigitsConcat(a, b');
      assert (a + b)[..|a + b| - 1] == a + b';
      assert (a + b)[|a + b| - 1] == b[|b| - 1];
      var x, p', y := DigitsValue(a), Pow10(|b'|), DigitsValue(b');
      assert DigitsValue(a + b) == (x * p' + y) * 10 + d;
      assert DigitsValue(b) == y * 10 + d;
      assert Pow10(|b|) == p' * 10;
      Distribute(x, p', 10, y);
    } else {
      assert a + b == a;
    }
  }

  /** The decimal digits of n, without leading zeros ("0" for zero). */
  function NatDigits(n: nat): (s: string)
    ensures s != [] && AllDigits(s)
    ensures DigitsValue(s) == n
    ensures |s| > 1 ==> s[0] != '0'
    decreases n
  {
    if n < 10 then [DigitChar(n)]
    else
      var s := NatDigits(n / 10) + [DigitChar(n % 10)];
      AppendDigitValue(NatDigits(n / 10), DigitChar(n % 10));
      s
  }

  /** Exactly `width` digits: n mod 10^width, padded with zeros on the left. */
  function PaddedDigits(n: nat, width: nat): (s: string)
    ensures |s| == width && AllDigits(s)
    ensures DigitsValue(s) == n % Pow10(width)
  {
    if width == 0 then []
    else
      var s := PaddedDigits(n / 10, width - 1) + [DigitChar(n % 10)];
      AppendDigitValue(PaddedDigits(n / 10, width - 1), DigitChar(n % 10));
      ModTen(n, Pow10(width - 1));
      s
  }

  // ---------------------------------------------------------------------------
  // Trimming

  /** `trim_end_matches(c)`: s without its longest suffix made only of c. */
  function TrimEnd(s: string, c: char): string
  {
    if s != [] && s[|s| - 1] == c then TrimEnd(s[..|s| - 1], c) else s
  }

  /** What trimming leaves is a prefix of s. */
  lemma {:induction false} TrimEndPrefix(s: string, c: char)
    ensures |TrimEnd(s, c)| <= |s| && TrimEnd(s, c) == s[..|TrimEnd(s, c)|]
  {
    if s != [] && s[|s| - 1] == c {
      var s' := s[..|s| - 1];
      TrimEndPrefix(s', c);
      var r := TrimEnd(s', c);
      assert TrimEnd(s, c) == r;
      assert s'[..|r|] == s[..|r|];
    } else {
      assert s[..|s|] == s;
    }
  }

  /** What trimming leaves is empty or does not end in c. */
  lemma {:induction false} TrimEndLast(s: string, c: char)
    ensures TrimEnd(s, c) == [] || TrimEnd(s, c)[|TrimEnd(s, c)| - 1] != c
  {
    if s != [] && s[|s| - 1] == c {
      TrimEndLast(s[..|s| - 1], c);
    }
  }

  /** Trimming digits leaves digits. */
  lemma TrimEndDigits(s: string, c: char)
    requires AllDigits(s)
    ensures AllDigits(TrimEnd(s, c))
  {
    TrimEndPrefix(s, c);
    var r := TrimEnd(s, c);
    forall i | 0 <= i < |r| ensures IsDigit(r[i]) {
      assert r[i] == s[i];
    }
  }

  /** Trimming stops at the first character from the end that is not c. */
  lemma TrimEndKeeps(s: string, c: char)
    requires s != [] && s[|s| - 1] != c
    ensures TrimEnd(s, c) == s
  {
  }

  /** Trimming a concatenation only reaches into the front part when the back part trims away entirely. */
  lemma {:induction false} TrimEndConcat(a: string, b: string, c: char)
    ensures TrimEnd(a + b, c) == if TrimEnd(b, c) == [] then TrimEnd(a, c) else a + TrimEnd(b, c)
  {
    if b == [] {
      assert a + b == a;
    } else if b[|b| - 1] == c {
      var b' := b[..|b| - 1];
      assert (a + b)[..|a + b| - 1] == a + b';
      TrimEndConcat(a, b', c);
    } else {
      assert (a + b)[|a + b| - 1] == b[|b| - 1];
    }
  }

  /** The display's number trimming: trailing '0's, then trailing '.'s; what is left is a prefix of s that does not end in '.'. */
  function TrimNumber(s: string): (r: string)
    ensures |r| <= |s| && r == s[..|r|]
    ensures r == [] || r[|r| - 1] != '.'
  {
    var zeros := TrimEnd(s, '0');
    TrimEndPrefix(s, '0');
    TrimEndPrefix(zeros, '.');
    TrimEndLast(zeros, '.');
    TrimEnd(zeros, '.')
  }

  /** Trimming '.' off text that has just one, at its end, leaves what came before. */
  lemma TrimDot(whole: string)
    requires whole != [] && '.' !in whole
    ensures TrimEnd(whole + ".", '.') == whole
  {
    var s := whole + ".";
    assert s[..|s| - 1] == whole;
    assert whole[|whole| - 1] in whole;
    TrimEndKeeps(whole, '.');
  }

  /**
   * Trimming `whole`, '.', `digits` keeps `whole` intact and drops only the
   * trailing zeros of `digits`, and the '.' when nothing is left after it.
   */
  lemma TrimDotted(whole: string, digits: string)
    requires whole != [] && '.' !in whole
    requires AllDigits(digits)
    ensures var frac := TrimEnd(digits, '0');
            TrimNumber(whole + "." + digits) == whole + (if frac == [] then "" else "." + frac)
  {
    var frac := TrimEnd(digits, '0');
    TrimEndConcat(whole + ".", digits, '0');
    if frac == [] {
      TrimEndKeeps(whole + ".", '0');
      TrimDot(whole);
    } else {
      var r := whole + ("." + frac);
      assert whole + "." + digits == (whole + ".") + digits;
      assert (whole + ".") + frac == r;
      TrimEndDigits(digits, '0');
      assert r[|r| - 1] == frac[|frac| - 1];
      TrimEndKeeps(r, '.');
    }
  }

  // ---------------------------------------------------------------------------
  // Formatting

  /** |x| * 10^places. */
  function Scaled(x: real, places: nat): real
  {
    Abs(x) * Pow10(places) as real
  }

  /** |x| * 10^places rounded to the nearest integer, ties to even. */
  function ScaledMagnitude(x: real, places: nat): nat
  {
    var y := Scaled(x, places);
    var f := y.Floor;
    if y - f as real > 0.5 || (y - f as real == 0.5 && f % 2 == 1) then f + 1 else f
  }

  /** x rounded to `places` decimals: the value fixed text at that precision denotes. */
  function Rounded(x: real, places: nat): real
  {
    Signed(SignText(x), ScaledMagnitude(x, places) as real / Pow10(places) as real)
  }

  function SignText(x: real): string { if x < 0.0 then "-" else "" }

  function Quotient(n: nat, d: nat): nat
    requires d >= 1
  {
    n / d
  }

  lemma QuotientSplit(n: nat, d: nat)
    requires d >= 1
    ensures n == Quotient(n, d) * d + n % d
  {
  }

  /** `sign`, then the integer digits of n / 10^places. */
  function WholeText(sign: string, n: nat, places: nat): string
  {
    sign + NatDigits(Quotient(n, Pow10(places)))
  }

  lemma WholeTextShape(sign: string, n: nat, places: nat)
    requires sign == "" || sign == "-"
    ensures var w := WholeText(sign, n, places);
            w != [] && '.' !in w && IsDigit(w[|w| - 1]) && (sign == "" ==> AllDigits(w))
  {
    var digits := NatDigits(Quotient(n, Pow10(places)));
    var w := sign + digits;
    assert w[|w| - 1] == digits[|digits| - 1];
    forall i | 0 <= i < |w| ensures w[i] != '.' {
      if i >= |sign| { assert w[i] == digits[i - |sign|]; }
    }
    if sign == "" {
      assert w == digits;
    }
  }

  /** `sign`, then n / 10^places written with exactly `places` decimals. */
  function DecimalText(sign: string, n: nat, places: nat): string
  {
    WholeText(sign, n, places) + "." + PaddedDigits(n, places)
  }

  /**
   * `format!("{:.places}", x)` for places >= 1 (the calculator asks for 10): a '-' for
   * negative x, the integer digits, '.', then exactly `places` digits.
   */
  function FixedText(x: real, places: nat): string
    requires places >= 1
  {
    DecimalText(SignText(x), ScaledMagnitude(x, places), places)
  }

  /** The integer digits of n / 10^places, then '.' and the fraction up to its last non-zero digit, if it has any. */
  function TrimmedDigits(n: nat, places: nat): string
  {
    var frac := TrimEnd(PaddedDigits(n, places), '0');
    NatDigits(Quotient(n, Pow10(places))) + (if frac == [] then "" else "." + frac)
  }

  /** Trimming decimal text drops the fraction's trailing zeros, and its '.' when nothing is left after it. */
  lemma TrimmedDecimalText(sign: string, n: nat, places: nat)
    requires sign == "" || sign == "-"
    ensures TrimNumber(DecimalText(sign, n, places)) == sign + TrimmedDigits(n, places)
  {
    WholeTextShape(sign, n, places);
    TrimDotted(WholeText(sign, n, places), PaddedDigits(n, places));
    var frac := TrimEnd(PaddedDigits(n, places), '0');
    var whole := NatDigits(Quotient(n, Pow10(places)));
    var tail := if frac == [] then "" else "." + frac;
    assert (sign + whole) + tail == sign + (whole + tail);
  }

  /** Trimmed decimal text is never empty, never ends in '.', ends in a non-zero digit when it keeps a '.', and starts with its integer part. */
  lemma TrimmedDecimalShape(sign: string, n: nat, places: nat)
    requires sign == "" || sign == "-"
    ensures var r := TrimNumber(DecimalText(sign, n, places));
            r != [] && r[|r| - 1] != '.' && ('.' in r ==> r[|r| - 1] != '0') &&
            WholeText(sign, n, places) <= r
  {
    TrimmedDecimalText(sign, n, places);
    WholeTextShape(sign, n, places);
    var r := TrimNumber(DecimalText(sign, n, places));
    var whole, frac := WholeText(sign, n, places), TrimEnd(PaddedDigits(n, places), '0');
    assert r == whole + (if frac == [] then "" else "." + frac);
    TrimEndLast(PaddedDigits(n, places), '0');
    TrimEndDigits(PaddedDigits(n, places), '0');
    if frac != [] {
      assert r == whole + ("." + frac);
      assert r[|r| - 1] == frac[|frac| - 1];
    } else {
      assert r == whole;
    }
  }

  /** The text the calculator displays for x: ten decimals, trimmed. */
  function FormatNumber(x: real): (r: string)
    ensures r != []
  {
    TrimmedDecimalShape(SignText(x), ScaledMagnitude(x, 10), 10);
    TrimNumber(FixedText(x, 10))
  }

  /**
   * Displayed text never ends in '.', ends in a non-zero digit when it has
   * a '.', and starts with the sign and the integer part of x rounded.
   */
  lemma FormatNumberShape(x: real)
    ensures var r := FormatNumber(x);
            r[|r| - 1] != '.' && ('.' in r ==> r[|r| - 1] != '0') &&
            WholeText(SignText(x), ScaledMagnitude(x, 10), 10) <= r
  {
    TrimmedDecimalShape(SignText(x), ScaledMagnitude(x, 10), 10);
  }

  const ToStringPlaces: nat := 20

  /** `f64::to_string`: the shortest decimal text, here at most 20 decimals; never empty, never ending in '.'. */
  function ToString(x: real): (r: string)
    ensures r != [] && r[|r| - 1] != '.'
  {
    TrimmedDecimalShape(SignText(x), ScaledMagnitude(x, ToStringPlaces), ToStringPlaces);
    TrimNumber(FixedText(x, ToStringPlaces))
  }

  // ---------------------------------------------------------------------------
  // Parsing

  /** The position of the first c in s, or |s| when there is none. */
  function IndexOf(s: string, c: char): (i: nat)
    ensures i <= |s| && (i < |s| ==> s[i] == c)
    ensures c !in s[..i]
  {
    if s == [] || s[0] == c then 0
    else
      var i := 1 + IndexOf(s[1..], c);
      assert s[..i] == [s[0]] + s[1..][..i - 1];
      i
  }

  /** IndexOf finds the first c, wherever that is. */
  lemma {:induction false} IndexOfAt(s: string, c: char, j: nat)
    requires j <= |s| && c !in s[..j] && (j < |s| ==> s[j] == c)
    ensures IndexOf(s, c) == j
  {
    if j > 0 {
      assert s[0] == s[..j][0];
      assert s[1..][..j - 1] == s[..j][1..];
      IndexOfAt(s[1..], c, j - 1);
    }
  }

  /**
   * A literal without sign: digits, an optional '.', digits, at least one
   * digit in all. Its value is all its digits over ten to the number of
   * digits after the '.'.
   */
  function ParseUnsigned(s: string): Option<real>
  {
    var i := IndexOf(s, '.');
    var whole := s[..i];
    var frac := if i < |s| then s[i + 1..] else [];
    if AllDigits(whole) && AllDigits(frac) && |whole| + |frac| > 0 then
      Some(DigitsValue(whole + frac) as real / Pow10(|frac|) as real)
    else None
  }

  /** Some character of s is a digit. */
  predicate HasDigit(s: string)
  {
    exists k :: 0 <= k < |s| && IsDigit(s[k])
  }

  /** An unsigned literal that parses has a digit, and so has anything it ends. */
  lemma UnsignedHasDigit(s: string, d: nat)
    requires d <= |s| && ParseUnsigned(s[d..]).Some?
    ensures HasDigit(s)
  {
    var u := s[d..];
    var i := IndexOf(u, '.');
    if i > 0 {
      assert IsDigit(u[..i][0]) && s[d] == u[0];
    } else {
      assert IsDigit(u[i + 1..][0]) && s[d + i + 1] == u[i + 1];
    }
  }

  /** `str::parse::<f64>` on decimal literals: an optional '+' or '-' before an unsigned literal; what parses has a digit. */
  function Parse(s: string): (r: Option<real>)
    ensures r.Some? ==> HasDigit(s)
  {
    if s != [] && (s[0] == '-' || s[0] == '+') then
      match ParseUnsigned(s[1..])
      case None => None
      case Some(v) => UnsignedHasDigit(s, 1); Some(if s[0] == '-' then -v else v)
    else
      var r := ParseUnsigned(s);
      if r.Some? then assert s[0..] == s; UnsignedHasDigit(s, 0); r else r
  }

  /** How many characters follow the first '.' of s (0 when there is no '.'). */
  function FractionDigits(s: string): nat
  {
    var i := IndexOf(s, '.');
    if i < |s| then |s| - i - 1 else 0
  }

  /** x has at most k decimals: x * 10^k is a whole number. */
  predicate HasPlaces(x: real, k: nat)
  {
    Scaled(x, k).Floor as real == Scaled(x, k)
  }

  // ---------------------------------------------------------------------------
  // Parsing what was formatted

  /** Digits, then optionally '.' and more digits, parse to all the digits over ten to the fraction's length. */
  lemma ParseUnsignedDecimal(whole: string, frac: string)
    requires whole != [] && AllDigits(whole) && AllDigits(frac)
    ensures var s := whole + (if frac == [] then "" else "." + frac);
            ParseUnsigned(s) == Some(DigitsValue(whole + frac) as real / Pow10(|frac|) as real)
            && FractionDigits(s) == |frac|
  {
    var s := whole + (if frac == [] then "" else "." + frac);
    assert s[..|whole|] == whole;
    IndexOfAt(s, '.', |whole|);
    if frac != [] {
      assert s[|whole| + 1..] == frac;
    } else {
      assert whole + frac == whole;
    }
  }

  /** Trailing zeros add nothing to a fraction's digits but a factor of ten each. */
  lemma {:induction false} TrailingZerosValue(f: string)
    requires AllDigits(f)
    ensures AllDigits(TrimEnd(f, '0')) && |TrimEnd(f, '0')| <= |f|
    ensures DigitsValue(f) == DigitsValue(TrimEnd(f, '0')) * Pow10(|f| - |TrimEnd(f, '0')|)
  {
    var t := TrimEnd(f, '0');
    TrimEndPrefix(f, '0');
    TrimEndDigits(f, '0');
    if f != [] && f[|f| - 1] == '0' {
      var g := f[..|f| - 1];
      TrailingZerosValue(g);
      assert TrimEnd(g, '0') == t;
      var x, p := DigitsValue(t), Pow10(|g| - |t|);
      assert DigitsValue(g) == x * p;
      assert DigitsValue(f) == (x * p) * 10;
      assert Pow10(|f| - |t|) == p * 10;
      MulAssoc(x, p, 10);
    }
  }

  /** Splitting n at a power of ten and trimming the zeros of its remainder loses nothing. */
  lemma Recompose(n: int, P: int, q: int, r: int, b: int, c: int, f: int, w: int)
    requires n == q * P + r && r == f * c && P == b * c && w == q * b + f
    ensures n == w * c
  {
    assert q * P == q * (b * c) == (q * b) * c;
  }

  /** A number written as q whole units of 10^|padded| and the digits `padded` is
      q's digits followed by `padded` trimmed of zeros, scaled by the ten-powers the zeros stood for. */
  lemma SplitDigits(n: nat, q: nat, padded: string)
    requires AllDigits(padded) && n == q * Pow10(|padded|) + DigitsValue(padded)
    ensures var frac := TrimEnd(padded, '0');
            AllDigits(frac) && |frac| <= |padded| &&
            n == DigitsValue(NatDigits(q) + frac) * Pow10(|padded| - |frac|)
  {
    var frac := TrimEnd(padded, '0');
    TrailingZerosValue(padded);
    var whole := NatDigits(q);
    var P, r := Pow10(|padded|), DigitsValue(padded);
    var b, c, f := Pow10(|frac|), Pow10(|padded| - |frac|), DigitsValue(frac);
    var w := DigitsValue(whole + frac);
    assert P == b * c by { Pow10Add(|frac|, |padded| - |frac|); }
    assert w == q * b + f by { DigitsConcat(whole, frac); }
    Recompose(n, P, q, r, b, c, f, w);
  }

  /** n is the trimmed text's digits scaled by the ten-powers its trailing zeros stood for. */
  lemma ScaledDigits(n: nat, places: nat)
    ensures var frac := TrimEnd(PaddedDigits(n, places), '0');
            var whole := NatDigits(Quotient(n, Pow10(places)));
            AllDigits(frac) && |frac| <= places &&
            n == DigitsValue(whole + frac) * Pow10(places - |frac|)
  {
    QuotientSplit(n, Pow10(places));
    SplitDigits(n, Quotient(n, Pow10(places)), PaddedDigits(n, places));
  }

  /** The trimmed text's digits over ten to its fraction's length are n / 10^places. */
  lemma TrimmedValue(n: nat, places: nat)
    ensures var frac := TrimEnd(PaddedDigits(n, places), '0');
            var whole := NatDigits(Quotient(n, Pow10(places)));
            AllDigits(frac) && |frac| <= places &&
            DigitsValue(whole + frac) as real / Pow10(|frac|) as real == n as real / Pow10(places) as real
  {
    var frac := TrimEnd(PaddedDigits(n, places), '0');
    var whole := NatDigits(Quotient(n, Pow10(places)));
    ScaledDigits(n, places);
    var k := places - |frac|;
    Pow10Add(|frac|, k);
    CancelFactor(DigitsValue(whole + frac), Pow10(|frac|), Pow10(k));
  }

  /** v negated when `sign` is "-". */
  function Signed(sign: string, v: real): real
  {
    if sign == "-" then -v else v
  }

  /** A leading sign adds no fraction digits. */
  lemma FractionDigitsSigned(s: string)
    requires s != [] && (s[0] == '-' || s[0] == '+')
    ensures FractionDigits(s) == FractionDigits(s[1..])
  {
    IndexOfAt(s, '.', 1 + IndexOf(s[1..], '.'));
  }

  /** A sign in front of an unsigned literal negates its value, or keeps it, and adds no fraction digits. */
  lemma ParseSigned(sign: string, u: string, v: real)
    requires sign == "" || sign == "-"
    requires u != [] && IsDigit(u[0]) && ParseUnsigned(u) == Some(v)
    ensures Parse(sign + u) == Some(Signed(sign, v))
    ensures FractionDigits(sign + u) == FractionDigits(u)
  {
    if sign == "-" {
      ParseMinus(u, v);
    } else {
      assert sign + u == u;
    }
  }

  lemma ParseMinus(u: string, v: real)
    requires u != [] && ParseUnsigned(u) == Some(v)
    ensures Parse("-" + u) == Some(-v)
    ensures FractionDigits("-" + u) == FractionDigits(u)
  {
    var t := "-" + u;
    assert t[0] == '-' && t[1..] == u;
    FractionDigitsSigned(t);
  }

  /** Trimmed digits parse back to exactly n / 10^places, and start with a digit. */
  lemma ParseTrimmedDigits(n: nat, places: nat)
    ensures var u := TrimmedDigits(n, places);
            u != [] && IsDigit(u[0]) && FractionDigits(u) <= places &&
            ParseUnsigned(u) == Some(n as real / Pow10(places) as real)
  {
    var whole := NatDigits(Quotient(n, Pow10(places)));
    var frac := TrimEnd(PaddedDigits(n, places), '0');
    TrimmedValue(n, places);
    ParseUnsignedDecimal(whole, frac);
    var u := TrimmedDigits(n, places);
    assert u[0] == whole[0];
  }

  /** A string of digits has no '.'. */
  lemma NoDot(s: string)
    requires AllDigits(s)
    ensures IndexOf(s, '.') == |s|
  {
    assert s[..|s|] == s;
    forall k | 0 <= k < |s| ensures s[k] != '.' { assert IsDigit(s[k]); }
    IndexOfAt(s, '.', |s|);
  }

  /** A string of digits reads as the number it spells. */
  lemma UnsignedDigits(s: string)
    requires s != [] && AllDigits(s)
    ensures ParseUnsigned(s) == Some(DigitsValue(s) as real)
  {
    NoDot(s);
    assert s[..|s|] == s && s + [] == s;
    OverOne(DigitsValue(s) as real, Pow10(0));
  }

  /** Dividing by a power of ten that is one changes nothing. */
  lemma OverOne(x: real, p: nat)
    requires p == 1
    ensures x / p as real == x
  {
  }

  /** A string of digits parses to the number it spells, with no fraction digits. */
  lemma ParseDigits(s: string)
    requires s != [] && AllDigits(s)
    ensures Parse(s) == Some(DigitsValue(s) as real)
    ensures FractionDigits(s) == 0
  {
    NoDot(s);
    UnsignedDigits(s);
    assert s[0] != '-' && s[0] != '+' by { assert IsDigit(s[0]); }
    assert Parse(s) == ParseUnsigned(s);
  }

  /** Trimmed decimal text parses back to exactly n / 10^places, with the sign. */
  lemma ParseTrimmedDecimal(sign: string, n: nat, places: nat)
    requires sign == "" || sign == "-"
    ensures Parse(TrimNumber(DecimalText(sign, n, places))) == Some(Signed(sign, n as real / Pow10(places) as real))
    ensures FractionDigits(TrimNumber(DecimalText(sign, n, places))) <= places
  {
    TrimmedDecimalText(sign, n, places);
    ParseTrimmedDigits(n, places);
    ParseSigned(sign, TrimmedDigits(n, places), n as real / Pow10(places) as real);
  }

  /** The displayed text parses back to x rounded to ten decimals. */
  lemma FormatNumberParses(x: real)
    ensures Parse(FormatNumber(x)) == Some(Rounded(x, 10))
  {
    ParseTrimmedDecimal(SignText(x), ScaledMagnitude(x, 10), 10);
  }

  /** A value with few enough decimals survives rounding unchanged. */
  lemma RoundedExact(x: real, places: nat)
    requires HasPlaces(x, places)
    ensures Rounded(x, places) == x
  {
    var P := Pow10(places) as real;
    assert ScaledMagnitude(x, places) as real == Abs(x) * P;
    assert (Abs(x) * P) / P == Abs(x);
  }

  /** `to_string` round-trips through `parse` for every value with at most 20 decimals, and writes at most 20 decimals. */
  lemma ToStringParses(x: real)
    requires HasPlaces(x, ToStringPlaces)
    ensures Parse(ToString(x)) == Some(x)
    ensures FractionDigits(ToString(x)) <= ToStringPlaces
  {
    ParseTrimmedDecimal(SignText(x), ScaledMagnitude(x, ToStringPlaces), ToStringPlaces);
    RoundedExact(x, ToStringPlaces);
  }

  /** One more decimal place scales by ten more. */
  lemma ScaledTen(x: real, k: nat)
    ensures Scaled(x, k + 1) == 10.0 * Scaled(x, k)
  {
    assert Pow10(k + 1) as real == 10.0 * Pow10(k) as real;
  }

  /** More room for decimals never hurts. */
  lemma {:induction false} HasPlacesMono(x: real, k: nat, p: nat)
    requires k <= p && HasPlaces(x, k)
    ensures HasPlaces(x, p)
    decreases p - k
  {
    if k < p {
      ScaledTen(x, k);
      var m := Scaled(x, k).Floor;
      assert Scaled(x, k + 1) == (10 * m) as real;
      HasPlacesMono(x, k + 1, p);
    }
  }

  /** Only the magnitude decides how many decimals a value has. */
  lemma HasPlacesNegate(x: real, k: nat)
    ensures HasPlaces(-x, k) == HasPlaces(x, k)
  {
    assert Scaled(-x, k) == Scaled(x, k);
  }

  /** A count over ten to the k has at most k decimals. */
  lemma QuotientHasPlaces(n: nat, k: nat)
    ensures HasPlaces(n as real / Pow10(k) as real, k)
  {
    var d := Pow10(k) as real;
    var v := n as real / d;
    assert Abs(v) == v;
    assert v * d == n as real;
    assert Scaled(v, k) == n as real;
  }

  /** An unsigned literal that parses has at most as many decimals as it has characters after its '.'. */
  lemma ParseUnsignedPlaces(u: string)
    requires ParseUnsigned(u).Some?
    ensures HasPlaces(ParseUnsigned(u).value, FractionDigits(u))
  {
    var i := IndexOf(u, '.');
    var frac := if i < |u| then u[i + 1..] else [];
    assert FractionDigits(u) == |frac|;
    QuotientHasPlaces(DigitsValue(u[..i] + frac), |frac|);
  }

  /** Whatever parses has at most as many decimals as its text has characters after the '.'. */
  lemma ParsePlaces(s: string)
    requires Parse(s).Some?
    ensures HasPlaces(Parse(s).value, FractionDigits(s))
  {
    if s != [] && (s[0] == '-' || s[0] == '+') {
      var u := s[1..];
      assert ParseUnsigned(u).Some?;
      var v := ParseUnsigned(u).value;
      assert Parse(s).value == v || Parse(s).value == -v;
      FractionDigitsSigned(s);
      ParseUnsignedPlaces(u);
      HasPlacesNegate(v, FractionDigits(u));
    } else {
      assert Parse(s) == ParseUnsigned(s);
      ParseUnsignedPlaces(s);
    }
  }
}
