/** The fmt side of ByteSize: the String method, the Format method's choice
    between delegating to fmt and rendering, its precision clamp and width
    padding, and the conversion specifier it rebuilds for other verbs. */
module Formatting {
  import opened Decimal
  import opened ByteSize

  datatype Option<T> = None | Some(value: T)

  /** What a fmt.State reports to Format: the flags present, and the width
      and precision when they were given. */
  datatype FmtState = FmtState(flags: set<char>, width: Option<int>, precision: Option<int>)

  /** What Format does with the state it is handed. */
  datatype Output =
    | Delegate(format: string, arg: int)  // fmt.Fprintf(f, format, arg)
    | Written(text: string)               // bytes written with f.Write
    | Panic                               // bytes.Repeat given a negative count

  /** The String method: the text %.3v gives. */
  method String(n: int64) returns (s: string)
    requires n as int != MinInt64
    ensures s == Render(n as int, 3)
    ensures |s| >= 2 && s[|s| - 1] == 'B'
  {
    s := FormatByteSize(n, 3);
    EndsInB(n as int);
  }

  /** At precision 3 every text ends in "B", after at least one digit. */
  lemma EndsInB(v: int)
    requires MinInt64 <= v <= MaxInt64
    ensures var s := Render(v, 3); |s| >= 2 && s[|s| - 1] == 'B' && IsDigit(s[if v < 0 then 1 else 0])
  {
    var a := Magnitude(v);
    BodyShape(a, 3);
    if a >= 1024 {
      MantissaWidth(a);
    }
  }

  /** The precision Format renders with: 3 when none was given or it exceeds
      3, 0 when it is negative, otherwise the one given. */
  function EffectivePrecision(precision: Option<int>): (p: int)
    ensures 0 <= p <= 3
    ensures precision.None? ==> p == 3
    ensures precision.Some? && 0 <= precision.value <= 3 ==> p == precision.value
    ensures precision.Some? && precision.value > 3 ==> p == 3
    ensures precision.Some? && precision.value < 0 ==> p == 0
  {
    match precision
    case None => 3
    case Some(q) => if q > 3 then 3 else if q < 0 then 0 else q
  }

  /** Clamping a precision above 3 changes nothing in the text: the renderer
      already treats such precisions as 3. */
  lemma ClampKeepsText(v: int, q: int)
    requires MinInt64 <= v <= MaxInt64 && q >= 0
    ensures Render(v, EffectivePrecision(Some(q))) == Render(v, q)
  {
    if q > 3 {
      OtherPrecisionIsThree(v, q);
    }
  }

  /** n spaces, as bytes.Repeat([]byte(" "), n) gives. */
  function Spaces(n: nat): (s: string)
    ensures |s| == n && forall i :: 0 <= i < n ==> s[i] == ' '
  {
    if n == 0 then "" else Spaces(n - 1) + " "
  }

  predicate Blank(s: string) {
    forall i :: 0 <= i < |s| ==> s[i] == ' '
  }

  /** The text with its width applied: unchanged without a width, otherwise
      filled with spaces to exactly that many characters, on the right with
      the '-' flag and on the left without it. A width below the text's
      length makes bytes.Repeat panic. */
  function Pad(output: string, width: Option<int>, leftJustify: bool): (r: Output)
    ensures width.None? ==> r == Written(output)
    ensures width.Some? && width.value < |output| ==> r == Panic
    ensures width.Some? && width.value >= |output| ==>
      r.Written? && |r.text| == width.value &&
      (leftJustify ==> r.text[..|output|] == output && Blank(r.text[|output|..])) &&
      (!leftJustify ==> r.text[width.value - |output|..] == output && Blank(r.text[..width.value - |output|]))
  {
    match width
    case None => Written(output)
    case Some(w) =>
      if w < |output| then Panic
      else if leftJustify then Written(output + Spaces(w - |output|))
      else Written(Spaces(w - |output|) + output)
  }

  /** The Format method. %#v and every verb but s and v go to fmt.Fprintf;
      s and v render with the clamped precision and pad to the width. */
  method Format(b: int64, f: FmtState, verb: char) returns (out: Output)
    requires (verb == 's' || (verb == 'v' && '#' !in f.flags)) ==> b as int != MinInt64
    ensures verb == 'v' && '#' in f.flags ==> out == Delegate("ByteSize(%d)", b as int)
    ensures verb != 'v' && verb != 's' ==> out == Delegate(Specifier(f, verb), b as int)
    ensures (verb == 's' || (verb == 'v' && '#' !in f.flags)) ==>
      out == Pad(Render(b as int, EffectivePrecision(f.precision)), f.width, '-' in f.flags)
  {
    if verb == 'v' {
      if '#' in f.flags {
        return Delegate("ByteSize(%d)", b as int);
      }
    } else if verb != 's' {
      var format := EquivalentFormat(f, verb);
      return Delegate(format, b as int);
    }

    var prec := 3;
    if f.precision.Some? && f.precision.value <= 3 {
      prec := if f.precision.value < 0 then 0 else f.precision.value;
    }
    var output := FormatByteSize(b, prec);

    if f.width.None? {
      out := Written(output);
    } else {
      var diff := f.width.value - |output|;
      if diff < 0 {
        return Panic;
      }
      var padding := Spaces(diff);
      if '-' in f.flags {
        out := Written(output + padding);
      } else {
        out := Written(padding + output);
      }
    }
  }

  /** The flag characters equivalentFormat looks for, in the order it
      writes them. */
  const FlagChars: string := "#+- 0"

  /** The characters of cs that are among the flags, in the order of cs. */
  function FlagsText(flags: set<char>, cs: string): (r: string)
    ensures |r| <= |cs|
  {
    if cs == [] then ""
    else FlagsText(flags, cs[..|cs| - 1]) + (if cs[|cs| - 1] in flags then [cs[|cs| - 1]] else "")
  }

  /** A character is written exactly when it is a candidate and its flag is set. */
  lemma {:induction false} FlagsTextMembers(flags: set<char>, cs: string)
    ensures forall c :: c in FlagsText(flags, cs) <==> c in cs && c in flags
    decreases |cs|
  {
    if cs != [] {
      var last := cs[|cs| - 1];
      FlagsTextMembers(flags, cs[..|cs| - 1]);
      assert cs == cs[..|cs| - 1] + [last];
    }
  }

  /** strconv.FormatInt(n, 10). */
  function Signed(n: int): (s: string)
    ensures n >= 0 ==> IsCanonical(s) && ValueOf(s) == n
    ensures n < 0 ==> |s| >= 2 && s[0] == '-' && IsCanonical(s[1..]) && ValueOf(s[1..]) == -n
  {
    if n < 0 then
      DigitsRoundTrip(-n);
      assert ("-" + Digits(-n))[1..] == Digits(-n);
      "-" + Digits(-n)
    else
      DigitsRoundTrip(n);
      Digits(n)
  }

  /** The conversion specifier equivalent to a state and verb: '%', the
      flags present, the width, '.' and the precision, then the verb. */
  function Specifier(f: FmtState, verb: char): (s: string) {
    "%" + FlagsText(f.flags, FlagChars)
      + (if f.width.Some? then Signed(f.width.value) else "")
      + (if f.precision.Some? then "." + Signed(f.precision.value) else "")
      + [verb]
  }

  /** equivalentFormat: builds the specifier piece by piece. */
  method EquivalentFormat(f: FmtState, verb: char) returns (s: string)
    ensures s == Specifier(f, verb)
  {
    s := "%";
    for k := 0 to |FlagChars|
      invariant s == "%" + FlagsText(f.flags, FlagChars[..k])
    {
      var ch := FlagChars[k];
      assert FlagChars[..k + 1][..k] == FlagChars[..k];
      if ch in f.flags {
        s := s + [ch];
      }
    }
    assert FlagChars[..|FlagChars|] == FlagChars;
    if f.width.Some? {
      s := s + Signed(f.width.value);
    }
    if f.precision.Some? {
      s := s + ".";
      s := s + Signed(f.precision.value);
    }
    s := s + [verb];
  }

  /** A conversion specifier as fmt reads it back. */
  datatype Directive = Directive(flags: set<char>, width: Option<int>, precision: Option<int>, verb: char)

  /** The end of the run of flag characters starting at i. */
  function FlagSpan(s: string, i: nat): (j: nat)
    requires i <= |s|
    ensures i <= j <= |s|
    ensures forall k :: i <= k < j ==> s[k] in FlagChars
    ensures j < |s| ==> s[j] !in FlagChars
    decreases |s| - i
  {
    if i < |s| && s[i] in FlagChars then FlagSpan(s, i + 1) else i
  }

  /** The end of the run of digits starting at i. */
  function DigitSpan(s: string, i: nat): (j: nat)
    requires i <= |s|
    ensures i <= j <= |s|
    ensures AllDigits(s[i..j])
    ensures j < |s| ==> !IsDigit(s[j])
    decreases |s| - i
  {
    if i < |s| && IsDigit(s[i]) then
      var j := DigitSpan(s, i + 1);
      assert s[i..j] == [s[i]] + s[i + 1..j];
      j
    else i
  }

  /** How fmt reads a specifier: '%', flag characters, optional width
      digits, optional '.' with precision digits (none meaning 0), and a
      final verb character. */
  function ParseSpecifier(s: string): (r: Option<Directive>)
    ensures r.Some? ==> |s| >= 2 && s[0] == '%' && r.value.verb == s[|s| - 1]
  {
    if |s| < 2 || s[0] != '%' then None
    else
      var j := FlagSpan(s, 1);
      var k := DigitSpan(s, j);
      ParseRest(s, set c | c in s[1..j], if k > j then Some(ValueOf(s[j..k]) as int) else None, k)
  }

  /** The rest of a specifier once its flags and width end at k. */
  function ParseRest(s: string, flags: set<char>, width: Option<int>, k: nat): (r: Option<Directive>)
    requires k <= |s|
    ensures r.Some? ==> |s| >= 1 && r.value.verb == s[|s| - 1]
  {
    if k < |s| && s[k] == '.' then
      var m := DigitSpan(s, k + 1);
      if m + 1 == |s| then Some(Directive(flags, width, Some(ValueOf(s[k + 1..m]) as int), s[m]))
      else None
    else if k + 1 == |s| then Some(Directive(flags, width, None, s[k]))
    else None
  }

  lemma {:induction false} FlagSpanEnds(s: string, i: nat, j: nat)
    requires i <= j <= |s|
    requires forall k :: i <= k < j ==> s[k] in FlagChars
    requires j < |s| ==> s[j] !in FlagChars
    ensures FlagSpan(s, i) == j
    decreases j - i
  {
    if i < j {
      FlagSpanEnds(s, i + 1, j);
    }
  }

  lemma {:induction false} DigitSpanEnds(s: string, i: nat, j: nat)
    requires i <= j <= |s|
    requires AllDigits(s[i..j])
    requires j < |s| ==> !IsDigit(s[j])
    ensures DigitSpan(s, i) == j
    decreases j - i
  {
    if i < j {
      assert s[i] == s[i..j][0];
      assert s[i + 1..j] == s[i..j][1..];
      DigitSpanEnds(s, i + 1, j);
    }
  }

  /** The flag characters, width digits and verb of a specifier without a
      precision are read back as written. */
  lemma ParseWithoutPrecision(F: string, W: string, verb: char)
    requires forall i :: 0 <= i < |F| ==> F[i] in FlagChars
    requires W == [] || (IsCanonical(W) && W[0] != '0')
    requires verb !in FlagChars && verb != '.' && !IsDigit(verb)
    ensures ParseSpecifier("%" + F + W + [verb])
      == Some(Directive(set c | c in F, if W == [] then None else Some(ValueOf(W) as int), None, verb))
  {
    var s := "%" + F + W + [verb];
    var j := 1 + |F|;
    var k := j + |W|;
    assert s[1..j] == F && s[j..k] == W && s[k] == verb && |s| == k + 1;
    FlagSpanEnds(s, 1, j);
    DigitSpanEnds(s, j, k);
  }

  /** After the width, '.' and precision digits before the verb are read as
      the precision. */
  lemma RestWithPrecision(s: string, flags: set<char>, width: Option<int>, k: nat, Q: string, verb: char)
    requires k < |s| && s[k..] == "." + Q + [verb]
    requires AllDigits(Q) && !IsDigit(verb)
    ensures ParseRest(s, flags, width, k) == Some(Directive(flags, width, Some(ValueOf(Q) as int), verb))
  {
    var m := k + 1 + |Q|;
    assert s[k] == s[k..][0] == '.';
    assert s[k + 1..m] == s[k..][1..1 + |Q|] == Q;
    assert |s| == m + 1 && s[m] == s[k..][1 + |Q|] == verb;
    DigitSpanEnds(s, k + 1, m);
  }

  /** The same with a precision: '.' and its digits before the verb. */
  lemma ParseWithPrecision(F: string, W: string, Q: string, verb: char)
    requires forall i :: 0 <= i < |F| ==> F[i] in FlagChars
    requires W == [] || (IsCanonical(W) && W[0] != '0')
    requires AllDigits(Q)
    requires verb !in FlagChars && verb != '.' && !IsDigit(verb)
    ensures ParseSpecifier("%" + F + W + "." + Q + [verb])
      == Some(Directive(set c | c in F, if W == [] then None else Some(ValueOf(W) as int),
                        Some(ValueOf(Q) as int), verb))
  {
    var s := "%" + F + W + "." + Q + [verb];
    var j := 1 + |F|;
    var k := j + |W|;
    assert s == ("%" + F) + W + ("." + Q + [verb]);
    assert s[1..j] == F && s[j..k] == W && s[k..] == "." + Q + [verb];
    FlagSpanEnds(s, 1, j);
    DigitSpanEnds(s, j, k);
    RestWithPrecision(s, set c | c in F, if W == [] then None else Some(ValueOf(W) as int), k, Q, verb);
  }

  /** fmt reads the specifier back as the state it was built from: the flags
      among "#+- 0", the width, the precision and the verb. This holds for the
      states fmt reports (width and precision never negative) except width
      0, whose "0" fmt would take for the zero-padding flag, and for verbs
      that cannot be mistaken for a flag, a digit or '.'. */
  lemma SpecifierRoundTrip(f: FmtState, verb: char)
    requires f.width.Some? ==> f.width.value >= 1
    requires f.precision.Some? ==> f.precision.value >= 0
    requires verb !in FlagChars && verb != '.' && !IsDigit(verb)
    ensures ParseSpecifier(Specifier(f, verb))
      == Some(Directive(f.flags * (set c | c in FlagChars), f.width, f.precision, verb))
  {
    var F := FlagsText(f.flags, FlagChars);
    FlagsReadBack(f.flags);
    var W := WidthReadBack(f.width);
    if f.precision.Some? {
      var Q := Digits(f.precision.value);
      DigitsRoundTrip(f.precision.value);
      assert Specifier(f, verb) == "%" + F + W + "." + Q + [verb];
      ParseWithPrecision(F, W, Q, verb);
    } else {
      assert Specifier(f, verb) == "%" + F + W + [verb];
      ParseWithoutPrecision(F, W, verb);
    }
  }

  lemma FlagsReadBack(flags: set<char>)
    ensures var F := FlagsText(flags, FlagChars);
      (forall i :: 0 <= i < |F| ==> F[i] in FlagChars) &&
      (set c | c in F) == flags * (set c | c in FlagChars)
  {
    FlagsTextMembers(flags, FlagChars);
  }

  lemma WidthReadBack(width: Option<int>) returns (W: string)
    requires width.Some? ==> width.value >= 1
    ensures W == (if width.Some? then Digits(width.value) else "")
    ensures W == [] || (IsCanonical(W) && W[0] != '0')
    ensures (if W == [] then None else Some(ValueOf(W) as int)) == width
  {
    if width.Some? {
      W := Digits(width.value);
      DigitsRoundTrip(width.value);
    } else {
      W := "";
    }
  }
}
