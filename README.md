# bytesize in Dafny

A model of the Go package `bytesize`. Its type `ByteSize` is a signed 64-bit
count of bytes that prints as "1B", "2KiB", "3.45MiB", "-67.8GiB" and
"8.00EiB". The text is an optional "-", one to four decimal digits (possibly
with a decimal point), and a binary-magnitude suffix (K = 2^10, …, E = 2^60).
A format precision picks the suffix style (`""`/`K`, `B`/`K`, `B`/`KB`,
`B`/`KiB`). It never changes the digits. The largest positive int64,
2^63−1, prints as "8.00EiB". The only magnitude of exactly 8·2^60 belongs to
the most negative count (see Findings). The "1023EiB" in the package comment
(bytesize.go:2) cannot occur.

The project has four modules:

- `Decimal` (decimal.dfy) covers base-10 text. `Digits` and `ValueOf` are
  the specification. `AppendDecimal` models `appendDecimal`: it fills a
  20-character array from the back and appends the used tail.
- `ByteSize` (bytesize.dfy) holds the renderer. `Render` is the
  specification, stated on unbounded integers. `FormatByteSize` models
  `formatByteSize` as imperative code over a `newtype int64`, so every
  intermediate value is proved to stay in range. It is proved equal to
  `Render`. Its steps are methods of their own:
  - `AppendExbi`: the exact multiple of 2^60 and the overflow-free
    exbibyte path;
  - `SelectLevel`: the loop that finds the magnitude level;
  - `AppendLevel` and `AppendRounded`: the exact quotient, or the quotient
    rounded half-up with 2, 1 or 0 decimals, then the decimal point
    inserted into the appended digits.

  The shifts and masks become divisions and remainders by powers of two.
- `Formatting` (formatting.dfy) models the `fmt` side:
  - `String`;
  - `Format`: it chooses between delegating to `fmt.Fprintf` and
    rendering, clamps the precision, and pads to the width;
  - `EquivalentFormat`: it rebuilds the conversion specifier for other
    verbs, and `ParseSpecifier` reads it back.
- `ByteSizeExamples` (examples.dfy) states rows of the package's test
  table against `Render`.

The other levels round half-up (bytesize.go:188-197). The exbibyte path
instead drops the low 50 bits before rounding, to avoid overflow
(bytesize.go:162-169). So its last digit can be one below the half-up
digit. A description of this path as exact half-up rounding would disagree
with the code. The model follows the code: `EiBScaled` is what the code
computes, and `EiBRounding` bounds the difference to one step in the last
digit. `EiBRoundingLags` gives a value where the code prints "1.13EiB"
and half-up rounding would print "1.14EiB".

## Model

| member | source | states |
|---|---|---|
| Decimal.Digits | bytesize.go:223-234 | The decimal text of n is canonical: at least one digit, and it starts with '0' exactly when n is 0 |
| Decimal.DigitsRoundTrip | bytesize.go:223-234 | Reading the written digits back gives the number that was written |
| Decimal.ParseRoundTrip | bytesize.go:223-234 | Every canonical digit string is the text of its own value, so the text of a number is unique |
| Decimal.DigitsLength | bytesize.go:224 | A number has at most k digits exactly when it is below 10^k, so every int64 fits the 20-byte buffer |
| Decimal.AppendDecimal | bytesize.go:223-234 | Appends to the buffer exactly the decimal digits of a non-negative number, most significant first |
| ByteSize.FormatByteSize | bytesize.go:145-218 | For every int64 except the most negative, the bytes built equal the specification text: the sign, the number of the magnitude level, and the suffix the precision selects |
| ByteSize.AppendExbi | bytesize.go:162-174 | At or above 2^60 the level is E, and the digits appended are the exact quotient by 2^60 or its two-decimal rounding, with no intermediate overflow |
| ByteSize.SelectLevel | bytesize.go:176-180 | The loop stops at the unique level L with 1024^L <= v < 1024^(L+1), at most 5 below 2^60, and its unit is 1024^L without overflow |
| ByteSize.AppendLevel | bytesize.go:175-207 | Below 2^60 it appends the mantissa of the value: the bare quotient for an exact multiple of the unit, otherwise the rounded quotient |
| ByteSize.AppendRounded | bytesize.go:188-205 | Appends the quotient rounded half-up to 2, 1 or 0 decimals, chosen by the two thresholds, with the point inserted before the last 2 or 1 digits |
| ByteSize.Render | bytesize.go:145-218 | The text of any int64 count is 1 to 8 bytes long, so it fits the 32-byte buffer, and it starts with '-' exactly when the count is negative |
| ByteSize.BodyShape | bytesize.go:154-216 | Without the sign, the text is 1 to 7 bytes and starts with a digit |
| ByteSize.Level | bytesize.go:176-181 | The level is between 1 and 6, its unit fits the value, the next unit exceeds it, and it is 6 exactly from 2^60 upward |
| ByteSize.LevelUnique | bytesize.go:176-181 | Any level whose unit fits a value below the next unit is the level the renderer chooses |
| ByteSize.ScaledIsNearest | bytesize.go:188-197 | Adding half the unit before dividing rounds 10^d·a/u to the nearest integer, ties upward |
| ByteSize.PlacesMeaning | bytesize.go:189-196 | The two thresholds choose 2 decimals exactly when the number rounded to 2 decimals stays below 1000, and at least 1 exactly when the number rounded to 1 decimal does |
| ByteSize.ScaledRange | bytesize.go:181-205 | Below 2^60, for a value that is not a multiple of its unit, the rounded number has exactly three digits when a point is inserted and lies in [100, 1024] when none is |
| ByteSize.ScaledStep | bytesize.go:189-197 | The code's (w + u/2)/u is the rounded quotient, stays in range, and with the point inserted is the mantissa |
| ByteSize.EiBRange | bytesize.go:162-169 | On the exbibyte path the largest intermediate stays within int64, and the number printed is in [100, 800] |
| ByteSize.EiBScaledTruncates | bytesize.go:169 | The exbibyte number is the exact half-up rounding, to 2 decimals, of the value with its low 50 bits cleared |
| ByteSize.EiBRounding | bytesize.go:169 | Dropping the low 50 bits first makes the exbibyte rounding at most one step below exact half-up rounding, never above it |
| ByteSize.EiBRoundingLags | bytesize.go:169 | (1163<<50)-1 prints 113 hundredths where half-up rounding gives 114 |
| ByteSize.MantissaExact | bytesize.go:165-186 | An exact multiple of its unit, in the exbibyte branch (lines 165-167) or the level branch (lines 184-186), prints as the bare quotient, with no point: 1 to 1023 below 2^60, 1 to 8 above |
| ByteSize.InsertPointTwo | bytesize.go:171-172 | Re-slicing the buffer to put '.' before the last two digits keeps the prefix and every digit |
| ByteSize.InsertPointOne | bytesize.go:203-204 | Re-slicing the buffer to put '.' before the last digit keeps the prefix and every digit |
| ByteSize.FixedKeepsDigits | bytesize.go:198-205 | The number with d decimals is the integer's digits with a point before the last d of them |
| ByteSize.MantissaWidth | bytesize.go:8-10 | The number part has 1 to 4 characters. A value that is not an exact multiple of its unit shows 3 or 4, and a point only appears in a 4-character number |
| ByteSize.NegativeMirror | bytesize.go:150-153 | A negative count prints as "-" followed by the text of its magnitude |
| ByteSize.SmallMagnitude | bytesize.go:154-161 | Below 1024 in magnitude the text is the sign, the plain digits (which read back as the magnitude, at most 4 of them) and "B", or nothing at precision 0 |
| ByteSize.SuffixMatchesTable | bytesize.go:14-21 | The suffix for each precision 0 to 3 and each level 0 to 6 is the one in the package documentation's table |
| ByteSize.OtherPrecisionIsThree | bytesize.go:21 | Any precision outside 0 to 3 gives the same text as precision 3 |
| ByteSize.Negate64 | bytesize.go:152 | Go's int64 negation is exact except at the most negative value, which it maps to itself |
| ByteSize.ByteOf | bytesize.go:228-232 | Go's byte conversion gives a byte congruent to the value modulo 256 |
| ByteSize.DecimalAsWritten | bytesize.go:223-234 | appendDecimal's digits, for any int64 including negative ones; for a non-negative number they are its decimal text |
| ByteSize.SmallPathAsWritten | bytesize.go:150-161 | The code's path for a magnitude below 1024 after the negation gives a non-empty text that begins with '-' exactly for a negative count |
| ByteSize.SmallPathAgrees | bytesize.go:150-161 | For every count between -1023 and 1023 the code's small path gives the specification text |
| ByteSize.MinInt64AsWritten | bytesize.go:150-161 | For the most negative count, the negation leaves it negative, the small path is taken, and the code prints "-0B" (or "-0" at precision 0) where the specification gives "-8EiB" |
| ByteSize.RenderMinInt64 | bytesize.go:150-153 | The specification gives the most negative count its intended text, "-8" and the E suffix |
| Formatting.String | bytesize.go:58-60 | String gives the precision-3 text, which always ends in "B" |
| Formatting.EndsInB | bytesize.go:50-52 | Every default text has at least two characters, starts with a digit after any "-", and ends in "B" |
| Formatting.EffectivePrecision | bytesize.go:100-105 | The precision used is 3 when none was given or it exceeds 3, 0 when it is negative, otherwise the one given |
| Formatting.ClampKeepsText | bytesize.go:100-105 | Clamping a precision above 3 down to 3 does not change the text |
| Formatting.Spaces | bytesize.go:114 | The padding has exactly the requested number of characters, all spaces |
| Formatting.Pad | bytesize.go:109-122 | With a width, the result is exactly that wide: the text is on the left with '-' and on the right without it, and the rest is spaces. A width narrower than the text panics. Without a width the text is written unchanged |
| Formatting.Format | bytesize.go:87-123 | %#v and every verb except s and v are delegated to fmt with "ByteSize(%d)" or the equivalent specifier. s and v write the rendered text at the clamped precision, padded to the width |
| Formatting.FlagsTextMembers | bytesize.go:129-133 | A flag character is written exactly when it is one of "#+- 0" and its flag is set |
| Formatting.Signed | bytesize.go:134-139 | A non-negative width or precision is written as canonical digits that read back as the value; a negative one as '-' and canonical digits that read back as its magnitude |
| Formatting.EquivalentFormat | bytesize.go:127-142 | Builds '%', the set flags in the order "#+- 0", the width, '.' and the precision, then the verb |
| Formatting.SpecifierRoundTrip | bytesize.go:125-142 | fmt reads the rebuilt specifier back as the same flags, width, precision and verb |
| ByteSizeExamples.PlainBytes1 | bytesize_test.go:32-34 | 0, 1 and 1000 print as "0B", "1B" and "1000B" |
| ByteSizeExamples.PlainBytes2 | bytesize_test.go:35-39 | 1023, -1 and -1023 print in plain bytes |
| ByteSizeExamples.KibiRows1 | bytesize_test.go:40-43 | -1024, -1025 and 1024 print as "-1KiB", "-1.00KiB" and "1KiB" |
| ByteSizeExamples.KibiRows2 | bytesize_test.go:44-46 | 1025, 1029 and 1030 print as "1.00KiB", "1.00KiB" and "1.01KiB" |
| ByteSizeExamples.KibiRows3 | bytesize_test.go:47-48 | 1039 and 1049 print as "1.01KiB" and "1.02KiB" |
| ByteSizeExamples.FewKibiRows1 | bytesize_test.go:50-52 | 5119, 5120 and 5121 print as "5.00KiB", "5KiB" and "5.00KiB" |
| ByteSizeExamples.FewKibiRows2 | bytesize_test.go:54 | 9000 prints as "8.79KiB" |
| ByteSizeExamples.TenKibiRows1 | bytesize_test.go:56-58 | 10234 prints "9.99KiB", and 10235 and 10239 switch to "10.0KiB" |
| ByteSizeExamples.TenKibiRows2 | bytesize_test.go:59-61 | 10240, 10241 and 10291 print as "10KiB", "10.0KiB" and "10.0KiB" |
| ByteSizeExamples.TenKibiRows3 | bytesize_test.go:62 | 10292 prints as "10.1KiB" |
| ByteSizeExamples.HundredKibiRows1 | bytesize_test.go:64-66 | 102348 prints "99.9KiB", and 102349 and 102400 switch to "100KiB" |
| ByteSizeExamples.HundredKibiRows2 | bytesize_test.go:67-69 | 102911, 102912 and 102920 print as "100KiB", "101KiB" and "101KiB" |
| ByteSizeExamples.MebiRows1 | bytesize_test.go:71 | 1048063 prints as "1023KiB" |
| ByteSizeExamples.MebiRows2 | bytesize_test.go:72 | 1048064 prints as "1024KiB" |
| ByteSizeExamples.MebiRows3 | bytesize_test.go:73 | 1048575 prints as "1024KiB" |
| ByteSizeExamples.MebiRows4 | bytesize_test.go:74 | 1048576 prints as "1MiB" |
| ByteSizeExamples.MebiRows5 | bytesize_test.go:75 | 1048577 prints as "1.00MiB" |
| ByteSizeExamples.LargeRows1 | bytesize_test.go:77 | 2^30 prints as "1GiB" |
| ByteSizeExamples.LargeRows2 | bytesize_test.go:78 | 2^40 prints as "1TiB" |
| ByteSizeExamples.LargeRows3 | bytesize_test.go:79 | 2^50 prints as "1PiB" |
| ByteSizeExamples.LargeRows4 | bytesize_test.go:80 | 2^60 prints as "1EiB" |
| ByteSizeExamples.LargeRows5 | bytesize_test.go:81 | 1025<<50 prints as "1.00EiB" |
| ByteSizeExamples.LargeRows6 | bytesize_test.go:82 | 1256<<50 prints as "1.23EiB" |
| ByteSizeExamples.LargeRows7 | bytesize_test.go:83 | 8191<<50 prints as "8.00EiB" |
| ByteSizeExamples.PrecisionRows | bytesize_test.go:97-124 | Precisions 0, 1, 2, 4 and 45678 give the suffixes of the table for 1023 and 1025, with the same digits |

## Left out

- GoString and the %#v branch of Format produce `fmt.Sprintf("ByteSize(%d)", …)`. The model records the delegation (`Delegate` with the format and the argument), not fmt's text.
- Verbs other than s and v are also delegated to `fmt.Fprintf`. How fmt prints the int64 is not modelled; the model only records which specifier is passed.
- `fmt.State` is modelled as a value: the flags, the optional width and the optional precision. The writes through `f.Write` are collected into one `Written` text.
- `utf8.RuneCount` of the output is modelled as its length. The renderer's output is ASCII, so the two agree.
- `bytes.Repeat` with a negative count panics. `Pad` and `Format` return the outcome `Panic` instead.
- Byte slices are modelled as strings (values). In-place reuse of the slice's backing array by `append(ret[:n-2], …)` is not modelled.
- ByteSize.FormatByteSize: requires its argument to differ from the most negative int64, for which the code as written produces "-0B" (see Findings). `Render` gives the intended text for that value.
- Formatting.String: requires the count to differ from the most negative int64, for the same reason.
- Formatting.Format: requires the count to differ from the most negative int64 on the s and v path, for the same reason.
- Formatting.SpecifierRoundTrip: excludes three kinds of input:
  - a width of 0, whose "0" fmt reads as the zero-padding flag;
  - a negative width or precision, which fmt never reports;
  - verbs that are flag characters, digits or '.'.

## Findings

| source | as written | input that shows it | evidently intended | confidence | as-written member | corrected member |
|---|---|---|---|---|---|---|
| bytesize.go:150-156 | `value = -value` wraps the most negative int64 to itself. The still-negative value passes the `value < 1024` test, and appendDecimal, whose comment demands a positive number, writes `byte('0' + number)` = '0' | ByteSize(-9223372036854775808).String() | "-8EiB", the text of a magnitude of exactly 2^63 | not executed | ByteSize.MinInt64AsWritten | ByteSize.RenderMinInt64 |
