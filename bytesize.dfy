/** The byte-count renderer: a signed 64-bit count of bytes becomes an optional
    "-", one to four decimal digits (possibly with a decimal point) and a
    binary-magnitude suffix chosen by a precision selector.

    Render is the specification, stated on unbounded integers; FormatByteSize
    is the imperative renderer over 64-bit integers, proved equal to it. */
module ByteSize {
  import opened Decimal

  /** Go's int64. Every arithmetic step on it is checked to stay in range. */
  newtype int64 = x: int | -0x8000_0000_0000_0000 <= x < 0x8000_0000_0000_0000

  const MinInt64: int := -0x8000_0000_0000_0000
  const MaxInt64: int := 0x7FFF_FFFF_FFFF_FFFF

  /** 2^60, one exbibyte, and 2^50, one pebibyte. */
  const Exbi: int64 := 0x1000_0000_0000_0000
  const Pebi: int64 := 0x4_0000_0000_0000

  /** The size of one unit of magnitude level L: 1024^L. */
  function Unit(L: nat): (u: nat) {
    if L == 0 then 1 else 1024 * Unit(L - 1)
  }

  lemma {:induction false} UnitMonotone(m: nat, n: nat)
    requires m <= n
    ensures Unit(m) <= Unit(n)
    ensures m < n ==> 1024 * Unit(m) <= Unit(n)
    decreases n - m
  {
    if m < n {
      UnitMonotone(m, n - 1);
    }
  }

  lemma UnitTable()
    ensures Unit(1) == 0x400 && Unit(2) == 0x10_0000 && Unit(3) == 0x4000_0000
    ensures Unit(4) == 0x100_0000_0000 && Unit(5) == 0x4_0000_0000_0000
    ensures Unit(6) == 0x1000_0000_0000_0000
  {
  }

  /** The magnitude level of a >= 1024: 1 for K, ..., 6 for E. */
  function Level(a: nat): (L: nat)
    requires a >= 1024
    ensures 1 <= L <= 6
    ensures Unit(L) <= a
    ensures L < 6 ==> a < Unit(L + 1)
    ensures L == 6 <==> a >= Unit(6)
  {
    UnitTable();
    if a < Unit(2) then 1
    else if a < Unit(3) then 2
    else if a < Unit(4) then 3
    else if a < Unit(5) then 4
    else if a < Unit(6) then 5
    else 6
  }

  /** The level is the only one whose unit fits a below the next unit. */
  lemma LevelUnique(a: nat, L: nat)
    requires a >= 1024 && 1 <= L <= 6
    requires Unit(L) <= a && (L < 6 ==> a < Unit(L + 1))
    ensures L == Level(a)
  {
    var M := Level(a);
    if L < M {
      UnitMonotone(L + 1, M);
    } else if M < L {
      UnitMonotone(M + 1, L);
    }
  }

  /** How many digits follow the decimal point for a value a, not a multiple
      of unit u, below 2^60: the thresholds 10u - u/200 and 100u - u/20 sit
      just below 10u and 100u so that a value that rounds up to 10.0 or 100
      is printed with the shorter fraction. */
  function Places(a: nat, u: nat): (d: nat)
    ensures d <= 2
  {
    if a < 10 * u - u / 200 then 2
    else if a < 100 * u - u / 20 then 1
    else 0
  }

  /** a / u scaled by 10^d, rounded half-up (see ScaledIsNearest). */
  function Scaled(a: nat, u: nat, d: nat): (m: nat)
    requires u > 0 && u % 2 == 0
  {
    (Pow10(d) * a + u / 2) / u
  }

  /** Scaled is rounding to the nearest integer with ties upward: it is
      within one half of 10^d * a / u, and a tie goes to the larger one. */
  lemma ScaledIsNearest(a: nat, u: nat, d: nat)
    requires u > 0 && u % 2 == 0
    ensures var r := Scaled(a, u, d);
      2 * (r * u) <= 2 * (Pow10(d) * a) + u < 2 * (r * u) + 2 * u
  {
    DivMod(Pow10(d) * a + u / 2, u);
  }

  lemma DivMod(x: nat, u: nat)
    requires u > 0
    ensures (x / u) * u <= x < (x / u) * u + u
  {
  }

  /** The thresholds choose the most decimals, up to two, for which the
      rounded number stays below 1000, so it never shows more than three
      significant digits. */
  lemma PlacesMeaning(a: nat, u: nat)
    requires u >= 2 && u % 2 == 0
    ensures Places(a, u) == 2 <==> Scaled(a, u, 2) < 1000
    ensures Places(a, u) >= 1 <==> Scaled(a, u, 1) < 1000
  {
    assert Pow10(2) == 100 && Pow10(1) == 10;
    assert Scaled(a, u, 2) < 1000 <==> a < 10 * u - u / 200 by {
      DivBelow(100 * a + u / 2, u, 1000);
      var q, r := u / 200, u % 200;
      assert u == 200 * q + r && r % 2 == 0 && u / 2 == 100 * q + r / 2;
      assert 10 * u - u / 200 == 1999 * q + 10 * r;
    }
    assert Scaled(a, u, 1) < 1000 <==> a < 100 * u - u / 20 by {
      DivBelow(10 * a + u / 2, u, 1000);
      var q, r := u / 20, u % 20;
      assert u == 20 * q + r && r % 2 == 0 && u / 2 == 10 * q + r / 2;
      assert 100 * u - u / 20 == 1999 * q + 100 * r;
    }
  }

  lemma DivBelow(x: nat, u: nat, n: nat)
    requires u > 0
    ensures x / u < n <==> x < n * u
  {
    DivMod(x, u);
    if x / u < n {
      MulMonotone(x / u + 1, n, u);
    } else {
      MulMonotone(n, x / u, u);
    }
  }

  /** The two-decimal scaled value the exbibyte path prints: the low 50 bits
      are dropped before multiplying, so that nothing exceeds 2^63. */
  function EiBScaled(a: nat): (m: nat) {
    ((a / Pebi as nat) * 100 + 512) / 1024
  }

  /** m / 10^d written with exactly d digits after the point. */
  function Fixed(m: nat, d: nat): (s: string)
    requires d <= 2
    ensures |s| > d && IsDigit(s[0])
  {
    if d == 0 then Digits(m)
    else if d == 1 then Digits(m / 10) + ['.', DigitChar(m % 10)]
    else Digits(m / 100) + ['.', DigitChar(m / 10 % 10), DigitChar(m % 10)]
  }

  /** The number printed for a magnitude a >= 1024. */
  function Mantissa(a: nat): (s: string)
    requires 1024 <= a <= -MinInt64
    ensures |s| >= 1 && IsDigit(s[0])
  {
    var L := Level(a);
    var u := Unit(L);
    if a % u == 0 then Digits(a / u)
    else if L == 6 then Fixed(EiBScaled(a), 2)
    else
      assert u % 2 == 0;
      var d := Places(a, u);
      Fixed(Scaled(a, u, d), d)
  }

  /** The letter of magnitude level L. */
  function Letter(L: nat): (c: char)
    requires 1 <= L <= 6
  {
    "!KMGTPE"[L]
  }

  /** The suffix after a number of level L >= 1: precision 0 or 1 gives the
      letter, 2 the letter and "B", anything else the letter and "iB". */
  function Suffix(L: nat, prec: int): (s: string)
    requires 1 <= L <= 6
  {
    if prec == 0 || prec == 1 then [Letter(L)]
    else if prec == 2 then [Letter(L), 'B']
    else [Letter(L), 'i', 'B']
  }

  /** The suffix after a magnitude below 1024. */
  function ByteSuffix(prec: int): (s: string) {
    if prec == 0 then "" else "B"
  }

  function Sign(v: int): (s: string) {
    if v < 0 then "-" else ""
  }

  function Magnitude(v: int): (a: nat) {
    if v < 0 then -v else v
  }

  /** The text of a non-negative magnitude a. */
  function Body(a: nat, prec: int): (s: string)
    requires a <= -MinInt64
  {
    if a < 1024 then Digits(a) + ByteSuffix(prec)
    else Mantissa(a) + Suffix(Level(a), prec)
  }

  /** The text of a signed 64-bit byte count: total over the whole range,
      the most negative value included. */
  function Render(v: int, prec: int): (r: string)
    requires MinInt64 <= v <= MaxInt64
    ensures 1 <= |r| <= 8
    ensures r[0] == '-' <==> v < 0
  {
    BodyShape(Magnitude(v), prec);
    Sign(v) + Body(Magnitude(v), prec)
  }

  /** The text of a magnitude starts with a digit and has at most seven
      characters: four for the number and three for the suffix. */
  lemma BodyShape(a: nat, prec: int)
    requires a <= -MinInt64
    ensures 1 <= |Body(a, prec)| <= 7 && IsDigit(Body(a, prec)[0])
  {
    if a < 1024 {
      assert Pow10(4) == 10000;
      DigitsLength(a, 4);
    } else {
      MantissaWidth(a);
    }
  }

  /** Inserting a point before the last two digits of a number >= 100 that
      was appended to prefix p keeps p and every digit. */
  lemma InsertPointTwo(p: string, m: nat, s: string)
    requires m >= 100 && s == p + Digits(m)
    ensures |s| >= |p| + 3
    ensures s[..|s| - 2] + ['.', s[|s| - 2], s[|s| - 1]] == p + Fixed(m, 2)
  {
    var m1 := m / 10;
    assert m1 >= 10 && m1 / 10 == m / 100 && m1 % 10 == m / 10 % 10;
    var t := Digits(m1 / 10);
    var c1, c0 := DigitChar(m1 % 10), DigitChar(m % 10);
    assert Digits(m1) == t + [c1];
    assert Digits(m) == t + [c1] + [c0];
    var q := p + t;
    assert s == q + [c1, c0];
    assert |s| == |q| + 2 && s[|s| - 2] == c1 && s[|s| - 1] == c0;
    assert s[..|s| - 2] == q;
    assert p + Fixed(m, 2) == q + ['.', c1, c0];
  }

  /** Inserting a point before the last digit of a number >= 10 that was
      appended to prefix p keeps p and every digit. */
  lemma InsertPointOne(p: string, m: nat, s: string)
    requires m >= 10 && s == p + Digits(m)
    ensures |s| >= |p| + 2
    ensures s[..|s| - 1] + ['.', s[|s| - 1]] == p + Fixed(m, 1)
  {
    assert s == p + Digits(m / 10) + [DigitChar(m % 10)];
    assert s[..|s| - 1] == p + Digits(m / 10);
  }

  lemma DivBetween(x: nat, u: nat, lo: nat, hi: nat)
    requires u > 0 && lo * u <= x < hi * u
    ensures lo <= x / u < hi
  {
    DivMod(x, u);
    var q := x / u;
    if q < lo {
      MulMonotone(q + 1, lo, u);
    }
    if q >= hi {
      MulMonotone(hi, q, u);
    }
  }

  lemma MulMonotone(m: nat, n: nat, u: nat)
    requires m <= n
    ensures m * u <= n * u
  {
    var k := n - m;
    assert n * u == m * u + k * u;
  }

  /** Below 10u - u/200 the value rounds to a number in [100, 1000) of
      hundredths of u. */
  lemma TwoPlacesRange(a: nat, u: nat)
    requires u >= 2 && u % 2 == 0 && u <= a < 10 * u - u / 200
    ensures 100 <= Scaled(a, u, 2) < 1000
  {
    assert Pow10(2) == 100;
    DivBetween(100 * a + u / 2, u, 100, 1000);
  }

  /** From 10u - u/200 up to 100u - u/20 it rounds to [100, 1000) tenths. */
  lemma OnePlaceRange(a: nat, u: nat)
    requires u >= 2 && u % 2 == 0 && 10 * u - u / 200 <= a < 100 * u - u / 20
    ensures 100 <= Scaled(a, u, 1) < 1000
  {
    assert Pow10(1) == 10;
    DivBetween(10 * a + u / 2, u, 100, 1000);
  }

  /** From 100u - u/20 up to 1024u it rounds to [100, 1024] units. */
  lemma NoPlacesRange(a: nat, u: nat)
    requires u >= 2 && u % 2 == 0 && 100 * u - u / 20 <= a < 1024 * u
    ensures 100 <= Scaled(a, u, 0) <= 1024
  {
    assert Pow10(0) == 1;
    DivBetween(a + u / 2, u, 100, 1025);
  }

  /** For a value below 2^60 that is not a multiple of its unit, the rounded
      number has exactly three digits when a point is inserted (so the point
      never swallows a digit), and lies in [100, 1024] when none is. */
  lemma ScaledRange(a: nat)
    requires 1024 <= a < Exbi as nat
    requires a % Unit(Level(a)) != 0
    ensures (var u := Unit(Level(a)); var d := Places(a, u);
      u % 2 == 0 &&
      (d > 0 ==> 100 <= Scaled(a, u, d) < 1000) &&
      (d == 0 ==> 100 <= Scaled(a, u, d) <= 1024))
  {
    LevelBelowExbi(a);
    var u := Unit(Level(a));
    assert u % 2 == 0;
    var d := Places(a, u);
    if d == 2 {
      TwoPlacesRange(a, u);
    } else if d == 1 {
      OnePlaceRange(a, u);
    } else {
      NoPlacesRange(a, u);
    }
  }

  /** The exbibyte path prints a number in [100, 800], and its largest
      intermediate value stays below 2^63. */
  lemma EiBRange(a: nat)
    requires Exbi as nat <= a <= MaxInt64
    ensures (a / Pebi as nat) * 100 + 512 <= MaxInt64
    ensures 100 <= EiBScaled(a) <= 800
  {
  }

  /** The exbibyte path is exact half-up rounding of the value with its low
      50 bits cleared. */
  lemma EiBScaledTruncates(a: nat)
    ensures EiBScaled(a) == Scaled((a / Pebi as nat) * Pebi as nat, Exbi as nat, 2)
  {
    var q := a / Pebi as nat;
    var k := Pebi as nat;
    assert Pow10(2) == 100;
    assert 100 * (q * k) + Exbi as nat / 2 == (100 * q + 512) * k;
    assert Exbi as nat == 1024 * k;
    DivCancel(100 * q + 512, 1024, k);
  }

  lemma DivCancel(x: nat, y: nat, k: nat)
    requires y > 0 && k > 0
    ensures (x * k) / (y * k) == x / y
  {
    var z, r := x / y, x % y;
    assert x == z * y + r;
    assert x * k == (z * y) * k + r * k;
    assert (z * y) * k == z * (y * k);
    MulMonotone(r + 1, y, k);
    assert (r + 1) * k == r * k + k;
    DivUnique(x * k, y * k, z, r * k);
  }

  lemma DivUnique(x: nat, y: nat, z: nat, r: nat)
    requires y > 0 && x == z * y + r && r < y
    ensures x / y == z
  {
    DivMod(x, y);
    var q := x / y;
    if q < z {
      MulMonotone(q + 1, z, y);
    } else if q > z {
      MulMonotone(z + 1, q, y);
    }
  }

  /** Dropping the low 50 bits before rounding makes the exbibyte path round
      down at most one step below exact half-up rounding. */
  lemma EiBRounding(a: nat)
    ensures Scaled(a, Exbi as nat, 2) - 1 <= EiBScaled(a) <= Scaled(a, Exbi as nat, 2)
  {
    var q, r := a / Pebi as nat, a % Pebi as nat;
    var x := 100 * q + 512;
    assert a == q * Pebi as nat + r;
    assert 100 * a + Exbi as nat / 2 == x * Pebi as nat + 100 * r;
    assert Pow10(2) == 100;
    var e := Scaled(a, Exbi as nat, 2);
    DivMod(x, 1024);
    var y := x / 1024;
    assert y * Exbi as nat <= x * Pebi as nat;
    DivBetween(x * Pebi as nat + 100 * r, Exbi as nat, y, y + 2);
  }

  /** A value the exbibyte path rounds down: (1163 << 50) - 1, which is
      1.1357... EiB, prints as 1.13 where half-up rounding gives 1.14. */
  lemma EiBRoundingLags()
    ensures EiBScaled(1163 * Pebi as nat - 1) == 113
    ensures Scaled(1163 * Pebi as nat - 1, Exbi as nat, 2) == 114
  {
    assert Pow10(2) == 100;
  }

  /** An exact multiple of its unit prints as the bare quotient: no point,
      between 1 and 1023 below 2^60, between 1 and 8 above. */
  lemma MantissaExact(a: nat)
    requires 1024 <= a <= -MinInt64
    requires a % Unit(Level(a)) == 0
    ensures Mantissa(a) == Digits(a / Unit(Level(a)))
    ensures '.' !in Mantissa(a)
    ensures 1 <= a / Unit(Level(a)) <= (if Level(a) < 6 then 1023 else 8)
  {
    var u := Unit(Level(a));
    UnitTable();
    DivMod(a, u);
    if Level(a) < 6 {
      assert a < 1024 * u;
      DivBetween(a, u, 1, 1024);
    }
  }

  lemma MantissaEiB(a: nat)
    requires Exbi as nat <= a <= MaxInt64 && a % Exbi as nat != 0
    ensures Level(a) == 6 && Mantissa(a) == Fixed(EiBScaled(a), 2)
  {
    UnitTable();
  }

  lemma MantissaScaled(a: nat)
    requires 1024 <= a < Exbi as nat && a % Unit(Level(a)) != 0
    ensures Level(a) < 6 && Unit(Level(a)) % 2 == 0
    ensures (var u := Unit(Level(a)); Mantissa(a) == Fixed(Scaled(a, u, Places(a, u)), Places(a, u)))
  {
    UnitTable();
  }

  /** Below 2^60 the level is at most 5, and its unit at most 2^50. */
  lemma LevelBelowExbi(a: nat)
    requires 1024 <= a < Exbi as nat
    ensures Level(a) <= 5 && 1024 <= Unit(Level(a)) <= Pebi as nat
    ensures a < 1024 * Unit(Level(a))
  {
    UnitTable();
    UnitMonotone(1, Level(a));
    UnitMonotone(Level(a), 5);
  }

  /** One step of the renderer below 2^60, for a value a that is not a
      multiple of its unit u: with d digits after the point and w = 10^d * a,
      the code's (w + u/2) / u is the rounded quotient m, which stays in
      range and whose text with the point inserted is the mantissa. */
  lemma ScaledStep(a: nat, u: nat, d: nat, w: nat) returns (m: nat)
    requires 1024 <= a < Exbi as nat && u == Unit(Level(a)) && a % u != 0
    requires d == Places(a, u) && w == Pow10(d) * a
    ensures u % 2 == 0 && m == (w + u / 2) / u && w + u / 2 <= MaxInt64
    ensures d > 0 ==> 100 <= m < 1000
    ensures d == 0 ==> 100 <= m <= 1024
    ensures Mantissa(a) == Fixed(m, d)
  {
    ScaledRange(a);
    MantissaScaled(a);
    UnitTable();
    UnitMonotone(Level(a), 5);
    m := Scaled(a, u, d);
  }

  lemma RenderLarge(v: int, prec: int)
    requires MinInt64 <= v <= MaxInt64 && Magnitude(v) >= 1024
    ensures Render(v, prec) == Sign(v) + Mantissa(Magnitude(v)) + Suffix(Level(Magnitude(v)), prec)
  {
  }

  /** Inserting the point d places from the right of the printed integer
      keeps every digit: the text is the digits of m with a point before the
      last d of them. */
  lemma {:induction false} FixedKeepsDigits(m: nat, d: nat)
    requires 1 <= d <= 2 && m >= Pow10(d)
    ensures var s := Digits(m);
      |s| > d && Fixed(m, d) == s[..|s| - d] + ['.'] + s[|s| - d..]
  {
    var s := Digits(m);
    var c0 := DigitChar(m % 10);
    assert s == Digits(m / 10) + [c0];
    if d == 2 {
      var c1 := DigitChar(m / 10 % 10);
      assert m / 10 >= 10 && (m / 10) / 10 == m / 100;
      assert Digits(m / 10) == Digits(m / 100) + [c1];
      assert s == Digits(m / 100) + [c1, c0];
      assert s[..|s| - 2] == Digits(m / 100) && s[|s| - 2..] == [c1, c0];
    } else {
      assert s[..|s| - 1] == Digits(m / 10) && s[|s| - 1..] == [c0];
    }
  }

  /** The number part has one to four characters. A value that is not an
      exact multiple of its unit shows three or four significant digits:
      "X.YZ", "XY.Z", "XYZ" or "1024". */
  lemma MantissaWidth(a: nat)
    requires 1024 <= a <= -MinInt64
    ensures 1 <= |Mantissa(a)| <= 4
    ensures a % Unit(Level(a)) != 0 ==> 3 <= |Mantissa(a)|
    ensures '.' in Mantissa(a) ==> |Mantissa(a)| == 4 && a % Unit(Level(a)) != 0
  {
    var u := Unit(Level(a));
    assert Pow10(4) == 10000;
    if a % u == 0 {
      MantissaExact(a);
      DigitsLength(a / u, 4);
    } else if Level(a) == 6 {
      EiBRange(a);
      MantissaEiB(a);
      FixedWidth(EiBScaled(a), 2);
    } else {
      var d := Places(a, u);
      ScaledRange(a);
      MantissaScaled(a);
      FixedWidth(Scaled(a, u, d), d);
    }
  }

  lemma FixedWidth(m: nat, d: nat)
    requires d <= 2 && 100 <= m <= (if d == 0 then 1024 else 999)
    ensures 3 <= |Fixed(m, d)| <= 4
    ensures '.' in Fixed(m, d) ==> d > 0 && |Fixed(m, d)| == 4
  {
    assert Pow10(1) == 10 && Pow10(2) == 100 && Pow10(3) == 1000 && Pow10(4) == 10000;
    if d == 0 {
      DigitsLength(m, 4);
      DigitsLength(m, 2);
      assert forall i :: 0 <= i < |Digits(m)| ==> Digits(m)[i] != '.';
    } else if d == 1 {
      DigitsLength(m / 10, 2);
      DigitsLength(m / 10, 1);
    } else {
      DigitsLength(m / 100, 1);
    }
  }

  /** A negative count prints as "-" followed by the text of its magnitude. */
  lemma NegativeMirror(v: int, prec: int)
    requires MinInt64 < v < 0
    ensures Render(v, prec) == "-" + Render(-v, prec)
  {
  }

  /** Magnitudes below 1024 print as their decimal digits (which read back
      as the magnitude) followed by "B", or by nothing at precision 0. */
  lemma SmallMagnitude(v: int, prec: int)
    requires -1024 < v < 1024
    ensures Render(v, prec) == Sign(v) + Digits(Magnitude(v)) + (if prec == 0 then "" else "B")
    ensures ValueOf(Digits(Magnitude(v))) == Magnitude(v) && |Digits(Magnitude(v))| <= 4
  {
    DigitsRoundTrip(Magnitude(v));
    assert Pow10(4) == 10000;
    DigitsLength(Magnitude(v), 4);
  }

  /** The suffix table of the package documentation: one row per precision
      0 to 3, one column per level 0 (bytes) to 6 (E). */
  const SuffixRows: seq<seq<string>> := [
    ["", "K", "M", "G", "T", "P", "E"],
    ["B", "K", "M", "G", "T", "P", "E"],
    ["B", "KB", "MB", "GB", "TB", "PB", "EB"],
    ["B", "KiB", "MiB", "GiB", "TiB", "PiB", "EiB"]
  ]

  /** The suffixes the renderer appends are those of the table. */
  lemma SuffixMatchesTable(prec: int, L: nat)
    requires 0 <= prec <= 3 && L <= 6
    ensures L == 0 ==> ByteSuffix(prec) == SuffixRows[prec][0]
    ensures L >= 1 ==> Suffix(L, prec) == SuffixRows[prec][L]
  {
  }

  /** A precision outside 0..3 renders exactly as precision 3. */
  lemma OtherPrecisionIsThree(v: int, prec: int)
    requires MinInt64 <= v <= MaxInt64 && (prec < 0 || prec > 3)
    ensures Render(v, prec) == Render(v, 3)
  {
  }

  /** The intended text of the most negative count: its magnitude 2^63 is
      exactly 8 EiB. */
  lemma RenderMinInt64(prec: int)
    ensures Render(MinInt64, prec) == "-8" + Suffix(6, prec)
  {
    UnitTable();
    assert Level(-MinInt64) == 6;
    MantissaExact(-MinInt64);
  }

  /** Go's negation of an int64: two's-complement arithmetic modulo 2^64.
      It is exact except at the most negative value, which is its own
      negation. */
  function Negate64(v: int64): (r: int64)
    ensures v as int != MinInt64 ==> r as int == -(v as int)
    ensures v as int == MinInt64 ==> r == v
  {
    ((-(v as int) - MinInt64) % 0x1_0000_0000_0000_0000 + MinInt64) as int64
  }

  /** Go's conversion of an integer to a byte keeps its low eight bits. */
  function ByteOf(x: int): (c: char)
    ensures c as int < 256 && (x - c as int) % 256 == 0
  {
    (x % 256) as char
  }

  /** appendDecimal as written, for any int64 argument: the loop runs while
      the number is at least 10, and the final byte('0' + number) keeps
      only the low eight bits. */
  function DecimalAsWritten(number: int): (s: string)
    ensures number >= 0 ==> s == Digits(number)
    decreases if number < 0 then 0 else number
  {
    if number >= 10 then DecimalAsWritten(number / 10) + [DigitChar(number % 10)]
    else [ByteOf('0' as int + number)]
  }

  /** The sign and plain-bytes branch of formatByteSize as written: the
      value is negated with wrap-around when negative, and a magnitude
      below 1024 is appended by appendDecimal, then "B" unless the
      precision is 0. */
  function SmallPathAsWritten(value: int64, prec: int): (s: string)
    requires (if value < 0 then Negate64(value) else value) < 1024
    ensures |s| >= 1 && (s[0] == '-' <==> value < 0)
  {
    var v := if value < 0 then Negate64(value) else value;
    (if value < 0 then "-" else "") + DecimalAsWritten(v as int) + (if prec != 0 then "B" else "")
  }

  /** For every other value of magnitude below 1024, the as-written branch
      gives the specified text. */
  lemma SmallPathAgrees(value: int64, prec: int)
    requires value as int != MinInt64 && -1024 < value < 1024
    ensures SmallPathAsWritten(value, prec) == Render(value as int, prec)
  {
  }

  /** The most negative count as the source handles it: the negation leaves
      it negative, hence below 1024, so the plain-bytes branch passes it to
      the decimal appender against that function's stated requirement; the
      appender's loop does not run and its single byte('0' + number) keeps
      the low eight bits, '0'. The text is "-0B" instead of "-8EiB". */
  lemma MinInt64AsWritten()
    ensures Negate64(MinInt64 as int64) as int == MinInt64
    ensures SmallPathAsWritten(MinInt64 as int64, 3) == "-0B"
    ensures SmallPathAsWritten(MinInt64 as int64, 0) == "-0"
    ensures Render(MinInt64, 3) == "-8EiB"
  {
    RenderMinInt64(3);
    assert DecimalAsWritten(MinInt64) == "0";
  }

  /** The renderer: an imperative buffer that grows step by step. The
      number of a magnitude of 1024 or more is appended by AppendExbi (at or
      above 2^60) or AppendLevel (below). */
  method FormatByteSize(value: int64, prec: int) returns (ret: string)
    requires value as int != MinInt64
    ensures ret == Render(value as int, prec)
  {
    ret := [];
    var letter: char;
    var v := value;
    if v < 0 {
      ret := ret + ['-'];
      v := -v;
    }
    assert ret == Sign(value as int) && v as int == Magnitude(value as int);
    if v < 1024 {
      ret := AppendDecimal(ret, v as int);
      if prec != 0 {
        ret := ret + ['B'];
      }
      return;
    }
    RenderLarge(value as int, prec);
    if v >= Exbi {
      ret := AppendExbi(ret, v);
      letter := 'E';
    } else {
      var level;
      ret, level := AppendLevel(ret, v);
      letter := "!KMGTPE"[level];
    }
    if prec == 0 || prec == 1 {
      ret := ret + [letter];
    } else if prec == 2 {
      ret := ret + [letter, 'B'];
    } else {
      ret := ret + [letter, 'i', 'B'];
    }
  }

  /** Appends the number for a magnitude v >= 2^60, in units of 2^60: the
      bare quotient for an exact multiple, otherwise two decimals computed
      with the low 50 bits dropped first so that no intermediate overflows. */
  method AppendExbi(prefix: string, v: int64) returns (ret: string)
    requires v >= Exbi
    ensures Level(v as nat) == 6
    ensures ret == prefix + Mantissa(v as nat)
  {
    ghost var a: nat := v as nat;
    UnitTable();
    if v % Exbi == 0 {
      MantissaExact(a);
      ret := AppendDecimal(prefix, (v / Exbi) as int);
    } else {
      EiBRange(a);
      MantissaEiB(a);
      ret := AppendDecimal(prefix, (((v / Pebi) * 100 + 512) / 1024) as int);
      InsertPointTwo(prefix, EiBScaled(a), ret);
      var n := |ret|;
      ret := ret[..n - 2] + ['.', ret[n - 2], ret[n - 1]];
    }
  }

  /** The magnitude level of 1024 <= v < 2^60 and its unit, found by a loop
      that steps k through 1024^2, 1024^3, ... while v >= k. */
  method SelectLevel(v: int64) returns (level: int64, unitSize: int64)
    requires 1024 <= v < Exbi
    ensures level as int == Level(v as nat) && level <= 5
    ensures unitSize as int == Unit(level as nat) && 1024 <= unitSize <= Pebi
  {
    level := 1;
    var k: int64 := 0x10_0000;
    UnitTable();
    while v >= k && k < Exbi
      invariant 1 <= level <= 5
      invariant k as int == Unit(level as nat + 1)
      invariant Unit(level as nat) <= v as int
      decreases Exbi - k
    {
      assert level < 5;
      UnitMonotone(level as nat + 1, 5);
      level := level + 1;
      k := k * 1024;
    }
    LevelUnique(v as nat, level as nat);
    UnitMonotone(1, level as nat);
    UnitMonotone(level as nat, 5);
    unitSize := Unit(level as nat) as int64;
  }

  /** Appends the number for a magnitude 1024 <= v < 2^60 and gives its
      level: an exact multiple of the unit prints as the bare quotient, any
      other value as a rounded quotient (AppendRounded). */
  method AppendLevel(prefix: string, v: int64) returns (ret: string, level: int64)
    requires 1024 <= v < Exbi
    ensures level as int == Level(v as nat) && level <= 5
    ensures ret == prefix + Mantissa(v as nat)
  {
    var unitSize;
    level, unitSize := SelectLevel(v);
    if v % unitSize == 0 {
      MantissaExact(v as nat);
      ret := AppendDecimal(prefix, (v / unitSize) as int);
    } else {
      ret := AppendRounded(prefix, v, unitSize);
    }
  }

  /** Appends v / unitSize rounded half-up to two, one or no digits after
      the point, for 1024 <= v < 2^60 not a multiple of its unit: the
      digits are appended first and the point is then inserted before the
      last two or the last one. */
  method AppendRounded(prefix: string, v: int64, unitSize: int64) returns (ret: string)
    requires 1024 <= v < Exbi && unitSize as int == Unit(Level(v as nat))
    requires v % unitSize != 0
    ensures ret == prefix + Mantissa(v as nat)
  {
    ghost var a: nat := v as nat;
    LevelBelowExbi(a);
    var digitsAfterPoint: nat, w := 0, v;
    if v < 10 * unitSize - unitSize / 200 {
      digitsAfterPoint, w := 2, 100 * v;
      assert w as int == Pow10(2) * a;
    } else if v < 100 * unitSize - unitSize / 20 {
      digitsAfterPoint, w := 1, 10 * v;
      assert w as int == Pow10(1) * a;
    } else {
      assert w as int == Pow10(0) * a;
    }
    ghost var m := ScaledStep(a, unitSize as nat, digitsAfterPoint, w as nat);
    ret := AppendDecimal(prefix, ((w + unitSize / 2) / unitSize) as int);
    var n := |ret|;
    if digitsAfterPoint == 2 {
      InsertPointTwo(prefix, m, ret);
      ret := ret[..n - 2] + ['.', ret[n - 2], ret[n - 1]];
    } else if digitsAfterPoint == 1 {
      InsertPointOne(prefix, m, ret);
      ret := ret[..n - 1] + ['.', ret[n - 1]];
    }
  }
}
