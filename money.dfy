/** Fixed-point number formatting: `format_money` (thousands grouped with a
    space, two decimals) and the `:.2f` / `:.10f` format specifications used
    in the replacement lists. Values are first rounded to an integer number of
    units of the last printed decimal; the text is then built from that
    integer. */
module Money {

  function Pow10(k: nat): (r: nat)
    ensures r >= 1
  {
    if k == 0 then 1 else 10 * Pow10(k - 1)
  }

  /** `x` scaled by 10^k and rounded half-up to an integer. */
  function RoundScaled(x: real, k: nat): int
  {
    (x * Pow10(k) as real + 0.5).Floor
  }

  /** Rounding to two decimals, as `round(x, 2)` in the payment formula. */
  function Round2(x: real): real
  {
    RoundScaled(x, 2) as real / 100.0
  }

  lemma Round2Close(x: real)
    ensures -0.005 < Round2(x) - x <= 0.005
  {
    var y := x * 100.0 + 0.5;
    assert y.Floor as real <= y < y.Floor as real + 1.0;
  }

  // ---------------------------------------------------------------- digits

  predicate IsDigit(c: char)
  {
    '0' <= c <= '9'
  }

  predicate AllDigits(s: string)
  {
    forall i :: 0 <= i < |s| ==> IsDigit(s[i])
  }

  function DigitChar(d: nat): (c: char)
    requires d < 10
    ensures IsDigit(c)
  {
    (48 + d) as char
  }

  /** Decimal representation of `n` without leading zeros, as `str(n)`. */
  function NatDigits(n: nat): (s: string)
    ensures |s| >= 1 && AllDigits(s)
    ensures |s| > 1 ==> s[0] != '0'
  {
    if n < 10 then [DigitChar(n)] else NatDigits(n / 10) + [DigitChar(n % 10)]
  }

  /** The last `width` decimal digits of `n`, zero-padded on the left. */
  function PadDigits(n: nat, width: nat): (s: string)
    ensures |s| == width && AllDigits(s)
  {
    if width == 0 then "" else PadDigits(n / 10, width - 1) + [DigitChar(n % 10)]
  }

  /** Value of a digit string read in base 10. */
  function DigitsValue(s: string): nat
    requires AllDigits(s)
  {
    if s == [] then 0
    else DigitsValue(s[..|s| - 1]) * 10 + (s[|s| - 1] as int - 48)
  }

  /** The digits of `s`, in order, everything else dropped. */
  function DigitsOnly(s: string): (r: string)
    ensures AllDigits(r)
  {
    if s == [] then []
    else if IsDigit(s[|s| - 1]) then DigitsOnly(s[..|s| - 1]) + [s[|s| - 1]]
    else DigitsOnly(s[..|s| - 1])
  }

  // ---------------------------------------------------------------- grouping

  /** Thousands grouping of a digit string with ' ' between the groups: the
      `,` option of the format specification followed by
      `.replace(',', ' ')`. */
  function Group(ds: string): string
  {
    if |ds| <= 3 then ds else Group(ds[..|ds| - 3]) + " " + ds[|ds| - 3..]
  }

  /** A leading group of one to three digits, then groups of exactly three
      digits, each preceded by one space. */
  predicate WellGrouped(g: string)
  {
    if |g| <= 3 then 1 <= |g| && AllDigits(g)
    else
      |g| >= 5 && g[|g| - 4] == ' ' && AllDigits(g[|g| - 3..]) && WellGrouped(g[..|g| - 4])
  }

  lemma {:induction false} GroupWellGrouped(ds: string)
    requires |ds| >= 1 && AllDigits(ds)
    ensures WellGrouped(Group(ds))
  {
    if |ds| > 3 {
      var hi, lo := ds[..|ds| - 3], ds[|ds| - 3..];
      GroupWellGrouped(hi);
      var g := Group(ds);
      assert g == Group(hi) + " " + lo;
      assert g[..|g| - 4] == Group(hi);
      assert g[|g| - 3..] == lo;
    }
  }

  /** Dropping the separators gives back the digits that were grouped. */
  lemma {:induction false} GroupDigitsOnly(ds: string)
    requires AllDigits(ds)
    ensures DigitsOnly(Group(ds)) == ds
  {
    if |ds| <= 3 {
      DigitsOnlyOfDigits(ds);
    } else {
      var hi, lo := ds[..|ds| - 3], ds[|ds| - 3..];
      var gh := Group(hi);
      assert Group(ds) == (gh + " ") + lo;
      GroupDigitsOnly(hi);
      DigitsOnlyAppend(gh + " ", lo);
      DigitsOnlyAppend(gh, " ");
      NoDigitsSpace();
      DigitsOnlyOfDigits(lo);
      assert DigitsOnly(Group(ds)) == hi + lo;
      assert ds == hi + lo;
    }
  }

  lemma NoDigitsSpace()
    ensures DigitsOnly(" ") == [] && DigitsOnly(".") == []
  {
    assert " "[..0] == [];
    assert "."[..0] == [];
  }

  lemma {:induction false} WellGroupedChars(g: string)
    requires WellGrouped(g)
    ensures forall i :: 0 <= i < |g| ==> IsDigit(g[i]) || g[i] == ' '
  {
    if |g| > 3 {
      var hi := g[..|g| - 4];
      WellGroupedChars(hi);
      assert g == hi + " " + g[|g| - 3..];
    }
  }

  // ---------------------------------------------------------------- formatting

  function SignText(u: int): string
  {
    if u < 0 then "-" else ""
  }

  function Abs(u: int): nat
  {
    if u < 0 then -u else u
  }

  /** `str(n)` for an integer. */
  function IntText(n: int): string
  {
    SignText(n) + NatDigits(Abs(n))
  }

  /** `f"{x:.{places}f}"` on the value already scaled and rounded to `u`
      units of 10^-places. */
  function FixedText(u: int, places: nat): string
    requires places > 0
  {
    SignText(u) + NatDigits(DropDigits(Abs(u), places)) + "." + PadDigits(Abs(u), places)
  }

  /** `n` with its last `k` decimal digits removed. */
  function DropDigits(n: nat, k: nat): nat
  {
    if k == 0 then n else DropDigits(n / 10, k - 1)
  }

  function Fixed(x: real, places: nat): string
    requires places > 0
  {
    FixedText(RoundScaled(x, places), places)
  }

  /** `format_money` on an amount of `c` cents. */
  function MoneyText(c: int): string
  {
    SignText(c) + Group(NatDigits(Abs(c) / 100)) + "." + PadDigits(Abs(c), 2)
  }

  /** `format_money(x)`: rounded to cents, then grouped. */
  function FormatMoney(x: real): string
  {
    MoneyText(RoundScaled(x, 2))
  }

  /** Text made of digits and of characters from `extra` only. */
  predicate DigitsOr(s: string, extra: set<char>)
  {
    forall i :: 0 <= i < |s| ==> IsDigit(s[i]) || s[i] in extra
  }

  /** `format_money` writes only digits, spaces, the point and the sign. */
  lemma MoneyTextNumeral(c: int)
    ensures DigitsOr(MoneyText(c), {' ', '.', '-'})
  {
    var extra := {' ', '.', '-'};
    var ds := NatDigits(Abs(c) / 100);
    GroupWellGrouped(ds);
    WellGroupedChars(Group(ds));
    DigitsOrConcat(SignText(c), Group(ds), extra);
    DigitsOrConcat(SignText(c) + Group(ds), ".", extra);
    DigitsOrConcat(SignText(c) + Group(ds) + ".", PadDigits(Abs(c), 2), extra);
  }

  /** The fixed-point format writes only digits, the point and the sign. */
  lemma FixedTextNumeral(u: int, places: nat)
    requires places > 0
    ensures DigitsOr(FixedText(u, places), {'.', '-'})
  {
    var extra := {'.', '-'};
    var ds := NatDigits(DropDigits(Abs(u), places));
    DigitsOrConcat(SignText(u), ds, extra);
    DigitsOrConcat(SignText(u) + ds, ".", extra);
    DigitsOrConcat(SignText(u) + ds + ".", PadDigits(Abs(u), places), extra);
  }

  /** `str(n)` writes only digits and the sign. */
  lemma IntTextNumeral(n: int)
    ensures DigitsOr(IntText(n), {'-'})
  {
    DigitsOrConcat(SignText(n), NatDigits(Abs(n)), {'-'});
  }

  lemma DigitsOrConcat(a: string, b: string, extra: set<char>)
    requires DigitsOr(a, extra) && (DigitsOr(b, extra) || AllDigits(b))
    ensures DigitsOr(a + b, extra)
  {
  }

  /** Reads back a text produced by `MoneyText`: sign, then every digit. */
  function ParseMoney(s: string): int
  {
    if |s| > 0 && s[0] == '-' then -(DigitsValue(DigitsOnly(s[1..])) as int) else DigitsValue(DigitsOnly(s))
  }

  /** The shape promised by `format_money`: an optional minus sign, the
      integer digits in well-formed space-separated groups of three, a point
      and exactly two fraction digits, and never a comma. */
  lemma MoneyTextShape(c: int)
    ensures var s := MoneyText(c);
      && ',' !in s
      && |s| >= 4
      && s[|s| - 3] == '.' && IsDigit(s[|s| - 2]) && IsDigit(s[|s| - 1])
      && (c < 0 <==> s[0] == '-')
      && WellGrouped(s[|SignText(c)|..|s| - 3])
      && '.' !in s[..|s| - 3]
  {
    var sign := SignText(c);
    var g := Group(NatDigits(Abs(c) / 100));
    var f := PadDigits(Abs(c), 2);
    var s := MoneyText(c);
    GroupWellGrouped(NatDigits(Abs(c) / 100));
    WellGroupedStartsWithDigit(g);
    assert s == (sign + g) + ("." + f);
    assert s[|sign|..|s| - 3] == g;
    assert s[..|s| - 3] == sign + g;
    assert s[|s| - 3..] == "." + f;
    assert s[0] == if c < 0 then '-' else g[0];
    NoPunctuation(sign, g, f);
  }

  lemma NoPunctuation(sign: string, g: string, f: string)
    requires sign == "" || sign == "-"
    requires WellGrouped(g) && AllDigits(f)
    ensures ',' !in (sign + g) + ("." + f)
    ensures '.' !in sign + g
  {
    WellGroupedChars(g);
    assert forall i :: 0 <= i < |sign + g| ==> (sign + g)[i] == '-' || IsDigit((sign + g)[i]) || (sign + g)[i] == ' ';
    assert forall i :: 0 <= i < |"." + f| ==> ("." + f)[i] == '.' || IsDigit(("." + f)[i]);
  }

  lemma {:induction false} WellGroupedStartsWithDigit(g: string)
    requires WellGrouped(g)
    ensures |g| >= 1 && IsDigit(g[0])
  {
    if |g| > 3 {
      WellGroupedStartsWithDigit(g[..|g| - 4]);
    }
  }

  /** `format_money` loses no information about the cents: reading the text
      back gives the amount it was made from. */
  lemma MoneyTextRoundTrip(c: int)
    ensures ParseMoney(MoneyText(c)) == c
  {
    var body := Group(NatDigits(Abs(c) / 100)) + "." + PadDigits(Abs(c), 2);
    MoneyBodyValue(Abs(c));
    if c < 0 {
      assert MoneyText(c) == "-" + body;
      assert MoneyText(c)[1..] == body;
    } else {
      assert MoneyText(c) == body;
    }
  }

  /** Reading back `format_money(x)` gives `x` to the nearest cent. */
  lemma FormatMoneyReadsBack(x: real)
    ensures ParseMoney(FormatMoney(x)) == RoundScaled(x, 2)
    ensures -0.005 < ParseMoney(FormatMoney(x)) as real / 100.0 - x <= 0.005
  {
    MoneyTextRoundTrip(RoundScaled(x, 2));
    Round2Close(x);
  }

  /** Reading back `f"{x:.{places}f}"` gives `x` scaled by `10^places` and
      rounded, that is `x` to the nearest unit of the last place. */
  lemma FixedReadsBack(x: real, places: nat)
    requires places > 0
    ensures ParseMoney(Fixed(x, places)) == RoundScaled(x, places)
    ensures -0.5 < ParseMoney(Fixed(x, places)) as real - x * Pow10(places) as real <= 0.5
  {
    var u := RoundScaled(x, places);
    var body := NatDigits(DropDigits(Abs(u), places)) + "." + PadDigits(Abs(u), places);
    FixedBodyValue(Abs(u), places);
    if u < 0 {
      assert Fixed(x, places) == "-" + body;
      assert Fixed(x, places)[1..] == body;
    } else {
      assert Fixed(x, places) == body;
    }
    RoundScaledClose(x, places);
  }

  lemma RoundScaledClose(x: real, k: nat)
    ensures -0.5 < RoundScaled(x, k) as real - x * Pow10(k) as real <= 0.5
  {
    var y := x * Pow10(k) as real + 0.5;
    assert y.Floor as real <= y < y.Floor as real + 1.0;
  }

  /** The unsigned part of `FixedText`: it starts with a digit and its
      digits spell the scaled value. */
  lemma FixedBodyValue(n: nat, places: nat)
    ensures var body := NatDigits(DropDigits(n, places)) + "." + PadDigits(n, places);
      IsDigit(body[0]) && DigitsValue(DigitsOnly(body)) == n
  {
    var ds := NatDigits(DropDigits(n, places));
    var f := PadDigits(n, places);
    var body := ds + "." + f;
    DigitsAroundPoint(ds, f);
    assert body[0] == ds[0];
    DigitsValueAppend(ds, f);
    NatDigitsValue(DropDigits(n, places));
    DropPadValue(n, places);
    assert DigitsValue(ds + f) == DropDigits(n, places) * Pow10(places) + DigitsValue(f);
  }

  lemma DigitsAroundPoint(ds: string, f: string)
    requires AllDigits(ds) && AllDigits(f)
    ensures DigitsOnly(ds + "." + f) == ds + f
  {
    assert ds + "." + f == ds + ("." + f);
    DigitsOnlyAppend(".", f);
    NoDigitsSpace();
    DigitsOnlyOfDigits(f);
    assert DigitsOnly("." + f) == f;
    DigitsOnlyAppend(ds, "." + f);
    DigitsOnlyOfDigits(ds);
  }

  /** The dropped digits and the padded ones together make up the number. */
  lemma {:induction false} DropPadValue(n: nat, k: nat)
    ensures DropDigits(n, k) * Pow10(k) + DigitsValue(PadDigits(n, k)) == n
  {
    if k > 0 {
      var s := PadDigits(n, k);
      assert s[..|s| - 1] == PadDigits(n / 10, k - 1);
      DropPadValue(n / 10, k - 1);
      ShiftDigit(DropDigits(n / 10, k - 1), Pow10(k - 1), DigitsValue(PadDigits(n / 10, k - 1)), n % 10);
    }
  }

  /** The unsigned part of `MoneyText`: it starts with a digit and its
      digits spell the amount. */
  lemma MoneyBodyValue(n: nat)
    ensures var body := Group(NatDigits(n / 100)) + "." + PadDigits(n, 2);
      IsDigit(body[0]) && DigitsValue(DigitsOnly(body)) == n
  {
    var ds := NatDigits(n / 100);
    var g := Group(ds);
    var f := PadDigits(n, 2);
    var body := g + "." + f;
    GroupDigitsOnly(ds);
    DigitsOnlyAppend(g, "." + f);
    DigitsOnlyAppend(".", f);
    NoDigitsSpace();
    DigitsOnlyOfDigits(f);
    assert body == g + ("." + f);
    assert DigitsOnly(body) == ds + f;
    CentsDigitsValue(n);
    GroupWellGrouped(ds);
    WellGroupedStartsWithDigit(g);
    assert body[0] == g[0];
  }

  // ---------------------------------------------------------------- helper lemmas

  lemma CentsDigitsValue(n: nat)
    ensures DigitsValue(NatDigits(n / 100) + PadDigits(n, 2)) == n
  {
    var ds, f := NatDigits(n / 100), PadDigits(n, 2);
    DigitsValueAppend(ds, f);
    assert Pow10(|f|) == 100;
    NatDigitsValue(n / 100);
    PadDigits2Value(n);
    var a, b := DigitsValue(ds), DigitsValue(f);
    assert a == n / 100 && b == n % 100;
    assert DigitsValue(ds + f) == a * 100 + b;
  }

  lemma {:induction false} DigitsOnlyAppend(a: string, b: string)
    ensures DigitsOnly(a + b) == DigitsOnly(a) + DigitsOnly(b)
  {
    if b == [] {
      assert a + b == a;
    } else {
      assert (a + b)[..|a + b| - 1] == a + b[..|b| - 1];
      DigitsOnlyAppend(a, b[..|b| - 1]);
    }
  }

  lemma {:induction false} DigitsOnlyOfDigits(s: string)
    requires AllDigits(s)
    ensures DigitsOnly(s) == s
  {
    if s != [] {
      DigitsOnlyOfDigits(s[..|s| - 1]);
    }
  }

  lemma {:induction false} DigitsValueAppend(a: string, b: string)
    requires AllDigits(a) && AllDigits(b)
    ensures DigitsValue(a + b) == DigitsValue(a) * Pow10(|b|) + DigitsValue(b)
  {
    if b == [] {
      assert a + b == a;
    } else {
      var b', d := b[..|b| - 1], b[|b| - 1] as int - 48;
      assert (a + b)[..|a + b| - 1] == a + b';
      DigitsValueAppend(a, b');
      ShiftDigit(DigitsValue(a), Pow10(|b'|), DigitsValue(b'), d);
    }
  }

  lemma ShiftDigit(x: int, p: int, y: int, d: int)
    ensures (x * p + y) * 10 + d == x * (p * 10) + (y * 10 + d)
  {
  }

  lemma {:induction false} NatDigitsValue(n: nat)
    ensures DigitsValue(NatDigits(n)) == n
  {
    if n >= 10 {
      var s := NatDigits(n);
      assert s[..|s| - 1] == NatDigits(n / 10);
      NatDigitsValue(n / 10);
    }
  }

  lemma PadDigits2Value(n: nat)
    ensures DigitsValue(PadDigits(n, 2)) == n % 100
  {
    var s := PadDigits(n, 2);
    var hi := PadDigits(n / 10, 1);
    assert s == hi + [DigitChar(n % 10)];
    assert s[..1] == hi;
    assert hi == PadDigits(n / 100, 0) + [DigitChar(n / 10 % 10)];
    assert hi[..0] == [];
    assert DigitsValue(hi) == n / 10 % 10;
    assert DigitsValue(s) == (n / 10 % 10) * 10 + n % 10;
    LastTwoDigits(n);
  }

  lemma LastTwoDigits(n: nat)
    ensures n % 100 == (n / 10 % 10) * 10 + n % 10
  {
    var b := n % 10;
    var m := n / 10;
    var a := m % 10;
    assert n == 10 * m + b;
    assert m == 10 * (m / 10) + a;
    assert n == 100 * (m / 10) + (10 * a + b);
    assert 0 <= 10 * a + b < 100;
  }
}
