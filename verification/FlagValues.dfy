/** Typed values of command line flags and their textual form. Text is a C string: it holds no NUL. */
module FlagValues {
  import opened Basics

  datatype FlagType = BoolFlag | Int32Flag | Int64Flag | Uint64Flag | StringFlag

  datatype FlagValue =
    | BoolValue(b: bool)
    | Int32Value(i: int)
    | Int64Value(i: int)
    | Uint64Value(i: int)
    | StringValue(s: string)
  {
    function Type(): FlagType {
      match this
      case BoolValue(_) => BoolFlag
      case Int32Value(_) => Int32Flag
      case Int64Value(_) => Int64Flag
      case Uint64Value(_) => Uint64Flag
      case StringValue(_) => StringFlag
    }

    /** The value fits its C type; strings are C strings. */
    predicate InRange() {
      match this
      case BoolValue(_) => true
      case Int32Value(i) => -0x8000_0000 <= i < 0x8000_0000
      case Int64Value(i) => -TWO_63 <= i < TWO_63
      case Uint64Value(i) => 0 <= i < 2 * TWO_63
      case StringValue(s) => '\0' !in s
    }
  }

  const TWO_63: int := 0x8000_0000_0000_0000

  // ----- Characters, in the C locale -----

  predicate IsSpace(c: char) {
    c == ' ' || '\t' <= c <= '\r'
  }

  function ToLower(c: char): char {
    if 'A' <= c <= 'Z' then (c as int + 32) as char else c
  }

  /** strcasecmp(s, t) == 0 for a lower-case `t`. */
  predicate EqualsIgnoringCase(s: string, t: string) {
    |s| == |t| && forall i :: 0 <= i < |s| ==> ToLower(s[i]) == t[i]
  }

  /** The digit that `c` denotes in `base`, or `base` when it denotes none. */
  function DigitValue(c: char, base: nat): (d: nat)
    requires 10 <= base <= 16
    ensures d <= base
  {
    var l := ToLower(c);
    if '0' <= c <= '9' then c as int - '0' as int
    else if 'a' <= l <= 'z' && l as int - 'a' as int + 10 < base then l as int - 'a' as int + 10
    else base
  }

  predicate IsDigits(s: string, base: nat)
    requires 10 <= base <= 16
  {
    forall i :: 0 <= i < |s| ==> DigitValue(s[i], base) < base
  }

  function Number(s: string, base: nat): (n: nat)
    requires 10 <= base <= 16
  {
    if s == [] then 0 else Number(s[..|s| - 1], base) * base + DigitValue(s[|s| - 1], base)
  }

  // ----- strtoll and strtoull, section 7.22.1.4 of ISO/IEC 9899:2011 -----

  function SkipSpaces(s: string): string {
    if s != [] && IsSpace(s[0]) then SkipSpaces(s[1..]) else s
  }

  predicate HasSign(s: string) {
    s != [] && (s[0] == '-' || s[0] == '+')
  }

  predicate HasHexPrefix(s: string) {
    |s| >= 2 && s[0] == '0' && (s[1] == 'x' || s[1] == 'X')
  }

  /** The signed number when the conversion consumes all of `s`; None when there are no digits or something follows them. */
  function Convert(s: string, base: nat): Option<int>
    requires 10 <= base <= 16
  {
    var subject := SkipSpaces(s);
    var unsigned := if HasSign(subject) then subject[1..] else subject;
    var digits := if base == 16 && HasHexPrefix(unsigned) then unsigned[2..] else unsigned;
    if digits == [] || !IsDigits(digits, base) then None
    else
      var n: int := Number(digits, base);
      Some(if HasSign(subject) && subject[0] == '-' then -n else n)
  }

  /** strtoull negates in the unsigned type, so "-1" is the largest value; out of range is an error. */
  function ConvertUnsigned(s: string, base: nat): Option<int>
    requires 10 <= base <= 16
  {
    match Convert(s, base)
    case None => None
    case Some(n) =>
      if -2 * TWO_63 < n < 0 then Some(n + 2 * TWO_63)
      else if 0 <= n < 2 * TWO_63 then Some(n)
      else None
  }

  // ----- FlagValue::ParseFrom and FlagValue::ToString -----

  function SkipBlanks(s: string): string {
    if s != [] && s[0] == ' ' then SkipBlanks(s[1..]) else s
  }

  predicate MeansTrue(text: string) {
    || EqualsIgnoringCase(text, "1") || EqualsIgnoringCase(text, "t") || EqualsIgnoringCase(text, "true")
    || EqualsIgnoringCase(text, "y") || EqualsIgnoringCase(text, "yes")
  }

  predicate MeansFalse(text: string) {
    || EqualsIgnoringCase(text, "0") || EqualsIgnoringCase(text, "f") || EqualsIgnoringCase(text, "false")
    || EqualsIgnoringCase(text, "n") || EqualsIgnoringCase(text, "no")
  }

  function Base(text: string): nat {
    if HasHexPrefix(text) then 16 else 10
  }

  /** The value that a flag of type `t` takes from `text`, if `text` is legal for it. */
  function ParseFrom(t: FlagType, text: string): (r: Option<FlagValue>)
    ensures r.Some? ==> r.value.Type() == t && (t != StringFlag ==> r.value.InRange())
  {
    match t
    case BoolFlag =>
      if MeansTrue(text) then Some(BoolValue(true))
      else if MeansFalse(text) then Some(BoolValue(false))
      else None
    case StringFlag => Some(StringValue(text))
    case Int32Flag =>
      var r := if text == [] then None else Convert(text, Base(text));
      if r.Some? && Int32Value(r.value).InRange() then Some(Int32Value(r.value)) else None
    case Int64Flag =>
      var r := if text == [] then None else Convert(text, Base(text));
      if r.Some? && Int64Value(r.value).InRange() then Some(Int64Value(r.value)) else None
    case Uint64Flag =>
      var rest := SkipBlanks(text);
      if text == [] then None
      else if rest == [] then Some(Uint64Value(0))  // nothing is converted, and nothing is left over
      else if rest[0] == '-' then None
      else
        var r := ConvertUnsigned(rest, Base(text));
        if r.Some? then Some(Uint64Value(r.value)) else None
  }

  function Decimal(n: nat): (s: string)
    ensures s != [] && '0' <= s[0] <= '9'
  {
    var digit := ('0' as int + n % 10) as char;
    if n < 10 then [digit] else Decimal(n / 10) + [digit]
  }

  function SignedDecimal(i: int): string {
    if i < 0 then "-" + Decimal(-i) else Decimal(i)
  }

  function ToString(v: FlagValue): string {
    match v
    case BoolValue(b) => if b then "true" else "false"
    case StringValue(s) => s
    case _ => SignedDecimal(v.i)
  }

  /** What is printed reads back: digits, sign and range checks agree. */
  lemma ParsePrinted(v: FlagValue)
    requires v.InRange()
    ensures ParseFrom(v.Type(), ToString(v)) == Some(v)
  {
    match v
    case BoolValue(_) =>
    case StringValue(_) =>
    case _ => ConvertPrinted(v.i);
  }

  lemma ConvertPrinted(i: int)
    ensures Convert(SignedDecimal(i), 10) == Some(i)
    ensures !HasHexPrefix(SignedDecimal(i))
    ensures 0 <= i ==> SkipBlanks(SignedDecimal(i)) == SignedDecimal(i)
  {
    hide Decimal, Number, DigitValue;
    var n := if i < 0 then -i else i;
    DecimalDigits(n);
    var s := SignedDecimal(i);
    if i < 0 { assert s[1..] == Decimal(n); }
    assert SkipSpaces(s) == s;
    assert 'x' !in s && 'X' !in s;
  }

  lemma {:induction false} DecimalDigits(n: nat)
    ensures IsDigits(Decimal(n), 10) && Number(Decimal(n), 10) == n
    ensures forall c <- Decimal(n) :: '0' <= c <= '9'
  {
    if n >= 10 {
      DecimalDigits(n / 10);
      assert Decimal(n)[..|Decimal(n)| - 1] == Decimal(n / 10);
    } else {
      assert Decimal(n)[..0] == [];
    }
  }

  /** Only the value of a string flag can break a line. */
  lemma PrintedOnOneLine(v: FlagValue)
    requires !v.StringValue?
    ensures '\n' !in ToString(v) && '\0' !in ToString(v)
  {
    hide Decimal;
    if !v.BoolValue? {
      DecimalDigits(if v.i < 0 then -v.i else v.i);
    }
  }

  // ----- Which texts are numbers -----

  /** What a character stands for as a digit of any base; other characters stand for more than any digit. */
  ghost function Face(c: char): nat {
    if 48 <= c as int <= 57 then c as int - 48
    else if 97 <= c as int <= 122 then c as int - 87
    else if 65 <= c as int <= 90 then c as int - 55
    else 36
  }

  ghost function Power(base: nat, n: nat): nat {
    if n == 0 then 1 else base * Power(base, n - 1)
  }

  /** Each digit counts as often as its place says. */
  ghost function PositionalValue(digits: string, base: nat): nat {
    if digits == "" then 0 else Face(digits[0]) * Power(base, |digits| - 1) + PositionalValue(digits[1..], base)
  }

  lemma {:induction false} PositionalAppend(digits: string, c: char, base: nat)
    ensures PositionalValue(digits + [c], base) == PositionalValue(digits, base) * base + Face(c)
    decreases |digits|
  {
    var all := digits + [c];
    if digits == "" {
      assert all == [c] && all[1..] == "";
    } else {
      assert all[1..] == digits[1..] + [c];
      PositionalAppend(digits[1..], c, base);
      var f, p, v := Face(digits[0]), Power(base, |digits| - 1), PositionalValue(digits[1..], base);
      ShiftPlaces(f, p, v, base);
    }
  }

  lemma ShiftPlaces(f: nat, p: nat, v: nat, base: nat)
    ensures f * (base * p) + v * base == (f * p + v) * base
  {
    assert f * (base * p) == (f * p) * base;
  }

  lemma DigitFace(c: char, base: nat)
    requires 10 <= base <= 16
    ensures DigitValue(c, base) == if Face(c) < base then Face(c) else base
  {
  }

  /** Reading digits from left to right gives their positional value. */
  lemma {:induction false} NumberIsPositional(digits: string, base: nat)
    requires 10 <= base <= 16
    ensures IsDigits(digits, base) <==> forall i :: 0 <= i < |digits| ==> Face(digits[i]) < base
    ensures IsDigits(digits, base) ==> Number(digits, base) == PositionalValue(digits, base)
    decreases |digits|
  {
    forall i | 0 <= i < |digits| ensures DigitValue(digits[i], base) == if Face(digits[i]) < base then Face(digits[i]) else base {
      DigitFace(digits[i], base);
    }
    hide DigitValue, Face;
    if digits != "" {
      var n := |digits| - 1;
      NumberIsPositional(digits[..n], base);
      PositionalAppend(digits[..n], digits[n], base);
      assert digits[..n] + [digits[n]] == digits;
    }
  }

  /** `text` is white space, a sign, a prefix and digits that denote `n`; all but the digits may be missing. */
  ghost predicate Spells(text: string, n: int, base: nat, spaces: string, sign: string, prefix: string, digits: string)
    requires 10 <= base <= 16
  {
    && text == spaces + (sign + (prefix + digits))
    && (forall i :: 0 <= i < |spaces| ==> spaces[i] == ' ' || 9 <= spaces[i] as int <= 13)
    && (sign == "" || sign == "+" || sign == "-")
    && (prefix == "" || (base == 16 && (prefix == "0x" || prefix == "0X")))
    && digits != "" && (forall i :: 0 <= i < |digits| ==> Face(digits[i]) < base)
    && n == if sign == "-" then 0 - PositionalValue(digits, base) else PositionalValue(digits, base)
  }

  ghost predicate IsNumber(text: string, n: int, base: nat)
    requires 10 <= base <= 16
  {
    exists spaces, sign, prefix, digits :: Spells(text, n, base, spaces, sign, prefix, digits)
  }

  lemma {:induction false} SpacesInFront(spaces: string, rest: string)
    requires forall i :: 0 <= i < |spaces| ==> IsSpace(spaces[i])
    requires rest == "" || !IsSpace(rest[0])
    ensures SkipSpaces(spaces + rest) == rest
    decreases |spaces|
  {
    if spaces == "" {
      assert spaces + rest == rest;
    } else {
      assert (spaces + rest)[1..] == spaces[1..] + rest;
      SpacesInFront(spaces[1..], rest);
    }
  }

  lemma {:induction false} SkippedSpaces(s: string) returns (spaces: string)
    ensures s == spaces + SkipSpaces(s)
    ensures forall i :: 0 <= i < |spaces| ==> IsSpace(spaces[i])
    decreases |s|
  {
    if s != "" && IsSpace(s[0]) {
      var more := SkippedSpaces(s[1..]);
      spaces := [s[0]] + more;
      assert s == [s[0]] + s[1..] && [s[0]] + (more + SkipSpaces(s)) == spaces + SkipSpaces(s);
    } else {
      spaces := "";
    }
  }

  lemma DigitsAreDistinct(c: char, base: nat)
    requires 10 <= base <= 16 && DigitValue(c, base) < base
    ensures !IsSpace(c) && c != '+' && c != '-' && c != 'x' && c != 'X'
  {
  }

  lemma TakenPrefix(base: nat, prefix: string, digits: string)
    requires 10 <= base <= 16 && digits != "" && IsDigits(digits, base)
    requires prefix == "" || (base == 16 && (prefix == "0x" || prefix == "0X"))
    ensures var unsigned := prefix + digits;
            && unsigned != "" && !IsSpace(unsigned[0]) && !HasSign(unsigned)
            && (if base == 16 && HasHexPrefix(unsigned) then unsigned[2..] else unsigned) == digits
  {
    hide DigitValue, IsSpace;
    DigitsAreDistinct(digits[0], base);
    if |digits| > 1 { DigitsAreDistinct(digits[1], base); }
    if prefix == "" {
      assert prefix + digits == digits;
    } else {
      assert DigitValue('0', base) < base by { Zero(base); }
      DigitsAreDistinct('0', base);
      assert (prefix + digits)[2..] == digits;
    }
  }

  lemma Zero(base: nat)
    requires 10 <= base <= 16
    ensures DigitValue('0', base) == 0
  {
  }

  lemma TakenSign(sign: string, unsigned: string)
    requires unsigned != "" && !IsSpace(unsigned[0]) && !HasSign(unsigned)
    requires sign == "" || sign == "+" || sign == "-"
    ensures var subject := sign + unsigned;
            && !IsSpace(subject[0]) && (HasSign(subject) <==> sign != "") && (sign != "" ==> [subject[0]] == sign)
            && (if HasSign(subject) then subject[1..] else subject) == unsigned
  {
    if sign == "" {
      assert sign + unsigned == unsigned;
    } else {
      assert (sign + unsigned)[1..] == unsigned;
    }
  }

  /** A text is converted to `n` exactly if it spells `n`. */
  lemma ConvertExactly(text: string, n: int, base: nat)
    requires 10 <= base <= 16
    ensures Convert(text, base) == Some(n) <==> IsNumber(text, n, base)
  {
    if spaces, sign, prefix, digits :| Spells(text, n, base, spaces, sign, prefix, digits) {
      SpelledConverts(text, n, base, spaces, sign, prefix, digits);
    }
    if Convert(text, base) == Some(n) { ConvertedSpells(text, n, base); }
  }

  lemma SpelledConverts(text: string, n: int, base: nat, spaces: string, sign: string, prefix: string, digits: string)
    requires 10 <= base <= 16 && Spells(text, n, base, spaces, sign, prefix, digits)
    ensures Convert(text, base) == Some(n)
  {
    hide IsDigits, Number, HasHexPrefix, HasSign, Face, PositionalValue;
    NumberIsPositional(digits, base);
    TakenPrefix(base, prefix, digits);
    TakenSign(sign, prefix + digits);
    SpacesInFront(spaces, sign + (prefix + digits));
  }

  lemma SignInFrontOf(subject: string) returns (sign: string, unsigned: string)
    ensures subject == sign + unsigned && unsigned == if HasSign(subject) then subject[1..] else subject
    ensures if HasSign(subject) then (sign == "+" || sign == "-") && sign == [subject[0]] else sign == ""
  {
    if HasSign(subject) {
      sign, unsigned := [subject[0]], subject[1..];
    } else {
      sign, unsigned := "", subject;
    }
  }

  lemma PrefixInFrontOf(unsigned: string, base: nat) returns (prefix: string, digits: string)
    ensures unsigned == prefix + digits
    ensures digits == if base == 16 && HasHexPrefix(unsigned) then unsigned[2..] else unsigned
    ensures prefix == "" || (base == 16 && (prefix == "0x" || prefix == "0X"))
  {
    if base == 16 && HasHexPrefix(unsigned) {
      prefix, digits := [unsigned[0], unsigned[1]], unsigned[2..];
    } else {
      prefix, digits := "", unsigned;
    }
  }

  lemma ConvertedSpells(text: string, n: int, base: nat)
    requires 10 <= base <= 16 && Convert(text, base) == Some(n)
    ensures IsNumber(text, n, base)
  {
    hide IsDigits, Number, SkipSpaces, Face, PositionalValue, HasSign, HasHexPrefix;
    var spaces := SkippedSpaces(text);
    var sign, unsigned := SignInFrontOf(SkipSpaces(text));
    var prefix, digits := PrefixInFrontOf(unsigned, base);
    NumberIsPositional(digits, base);
    assert Spells(text, n, base, spaces, sign, prefix, digits);
  }

  /** Only a leading "0x" or "0X" leaves base 10; a leading zero does not select base 8. */
  lemma BaseIs(text: string)
    ensures Base(text) == if |text| >= 2 && (text[..2] == "0x" || text[..2] == "0X") then 16 else 10
  {
    if |text| >= 2 { assert text[..2] == [text[0], text[1]]; }
  }

  /** A signed flag takes exactly the texts that spell a number of its range, and takes them as that number. */
  lemma SignedParsesExactly(text: string, n: int)
    ensures ParseFrom(Int32Flag, text) == Some(Int32Value(n)) <==>
              IsNumber(text, n, Base(text)) && -2147483648 <= n <= 2147483647
    ensures ParseFrom(Int64Flag, text) == Some(Int64Value(n)) <==>
              IsNumber(text, n, Base(text)) && -9223372036854775808 <= n <= 9223372036854775807
  {
    hide Convert;
    ConvertExactly(text, n, Base(text));
    if text == "" { NothingConverts(Base(text)); }
  }

  /** Which of the numbers that unsigned flags are about are numbers of their range. */
  lemma UnsignedRange(n: int)
    ensures Uint64Value(n).InRange() <==> 0 <= n <= 18446744073709551615
    ensures 2 * TWO_63 == 18446744073709551616
  {
  }

  lemma NothingConverts(base: nat)
    requires 10 <= base <= 16
    ensures Convert("", base) == None
  {
  }

  // ----- Boolean flags -----

  ghost predicate IsLowerCaseOf(t: string, text: string) {
    && |t| == |text|
    && forall i :: 0 <= i < |text| ==>
         t[i] == if 65 <= text[i] as int <= 90 then (text[i] as int + 32) as char else text[i]
  }

  lemma EqualIffLower(text: string, t: string, word: string)
    requires IsLowerCaseOf(t, text)
    ensures EqualsIgnoringCase(text, word) <==> t == word
  {
  }

  /** A boolean flag takes exactly ten words, in upper and lower case. */
  lemma BoolParsesExactly(text: string, t: string)
    requires IsLowerCaseOf(t, text)
    ensures ParseFrom(BoolFlag, text) == Some(BoolValue(true)) <==>
              t == "1" || t == "t" || t == "true" || t == "y" || t == "yes"
    ensures ParseFrom(BoolFlag, text) == Some(BoolValue(false)) <==>
              t == "0" || t == "f" || t == "false" || t == "n" || t == "no"
    ensures ParseFrom(BoolFlag, text) == None <==>
              t !in ["1", "t", "true", "y", "yes", "0", "f", "false", "n", "no"]
  {
    hide EqualsIgnoringCase, IsLowerCaseOf;
    EqualIffLower(text, t, "1");
    EqualIffLower(text, t, "t");
    EqualIffLower(text, t, "true");
    EqualIffLower(text, t, "y");
    EqualIffLower(text, t, "yes");
    EqualIffLower(text, t, "0");
    EqualIffLower(text, t, "f");
    EqualIffLower(text, t, "false");
    EqualIffLower(text, t, "n");
    EqualIffLower(text, t, "no");
  }

  /** The words that stand for a boolean flag without a value. */
  lemma SwitchWords()
    ensures ParseFrom(BoolFlag, "1") == Some(BoolValue(true))
    ensures ParseFrom(BoolFlag, "0") == Some(BoolValue(false))
  {
    BoolParsesExactly("1", "1");
    BoolParsesExactly("0", "0");
  }

  // ----- The printed form -----

  /** Numbers are printed without a plus sign and without leading zeros, and boolean values as words. */
  lemma {:induction false} PrintedForm(n: nat)
    ensures ToString(BoolValue(true)) == "true" && ToString(BoolValue(false)) == "false"
    ensures n < 10 ==> |Decimal(n)| == 1
    ensures n > 0 ==> Decimal(n)[0] != '0'
    ensures n > 0 ==> SignedDecimal(0 - n) == "-" + Decimal(n)
    ensures SignedDecimal(n) == Decimal(n)
  {
    if n >= 10 { PrintedForm(n / 10); }
  }

  // ----- Unsigned flags -----

  lemma {:induction false} BlanksAreSpaces(text: string)
    ensures SkipSpaces(SkipBlanks(text)) == SkipSpaces(text)
    ensures text != "" && SkipBlanks(text) != text ==> text[0] == ' '
    decreases |text|
  {
    if text != "" && text[0] == ' ' { BlanksAreSpaces(text[1..]); }
  }

  lemma BlanksConvert(text: string, base: nat)
    requires 10 <= base <= 16
    ensures Convert(SkipBlanks(text), base) == Convert(text, base)
  {
    BlanksAreSpaces(text);
  }

  /** The number in the range of the type that the text denotes. */
  function UnsignedMeaning(text: string): Option<FlagValue> {
    match Convert(text, Base(text))
    case None => None
    case Some(n) => if 0 <= n < 2 * TWO_63 then Some(Uint64Value(n)) else None
  }

  /** Nothing but blanks, though not nothing at all. */
  predicate IsBlank(text: string) {
    text != "" && SkipBlanks(text) == ""
  }

  predicate StartsWithMinus(text: string) {
    SkipBlanks(text) != "" && SkipBlanks(text)[0] == '-'
  }

  /** A negative number within the width of the type, whose sign stands behind white space other than blanks. */
  predicate HidesMinus(text: string) {
    var r := Convert(text, Base(text));
    r.Some? && -2 * TWO_63 < r.value < 0 && !StartsWithMinus(text)
  }

  lemma ParsesUnsigned(text: string)
    ensures ParseFrom(Uint64Flag, text) ==
            var rest := SkipBlanks(text);
            if text == "" then None
            else if rest == "" then Some(Uint64Value(0))
            else if rest[0] == '-' || ConvertUnsigned(rest, Base(text)).None? then None
            else Some(Uint64Value(ConvertUnsigned(rest, Base(text)).value))
  {
    hide ConvertUnsigned, SkipBlanks;
  }

  /** An unsigned flag takes a text for what it denotes, with exactly three exceptions: blanks are taken as zero,
      a minus that is hidden wraps around, and a zero with a minus in front is refused. */
  lemma UnsignedParsesExactly(text: string)
    ensures ParseFrom(Uint64Flag, text) == UnsignedMeaning(text) <==>
              !IsBlank(text) && !HidesMinus(text) && !(StartsWithMinus(text) && Convert(text, Base(text)) == Some(0))
    ensures IsBlank(text) ==> ParseFrom(Uint64Flag, text) == Some(Uint64Value(0))
    ensures HidesMinus(text) ==>
              ParseFrom(Uint64Flag, text) == Some(Uint64Value(Convert(text, Base(text)).value + 2 * TWO_63))
    ensures StartsWithMinus(text) ==> ParseFrom(Uint64Flag, text) == None
  {
    BlanksAreSpaces(text);
    BlanksConvert(text, Base(text));
    if StartsWithMinus(text) { MinusIsNegative(SkipBlanks(text), Base(text)); }
    ParsesUnsigned(text);
    hide Convert, SkipBlanks, SkipSpaces, ParseFrom;
    if text == "" { NothingConverts(Base(text)); }
    if SkipBlanks(text) == "" { NothingConverts(Base(text)); }
  }

  lemma MinusIsNegative(text: string, base: nat)
    requires 10 <= base <= 16 && text != "" && text[0] == '-'
    ensures Convert(text, base).Some? ==> Convert(text, base).value <= 0
  {
    hide Number, IsDigits;
  }

  /** A negative number within the width of the type is taken exactly if its minus is not in sight behind the blanks,
      and white space alone is taken exactly if it consists of blanks. */
  lemma UnsignedTakesNonsense(text: string)
    ensures var r := Convert(text, Base(text));
            r.Some? && -2 * TWO_63 < r.value < 0 ==> (ParseFrom(Uint64Flag, text).Some? <==> !StartsWithMinus(text))
    ensures text != "" && SkipSpaces(text) == "" ==> (ParseFrom(Uint64Flag, text).Some? <==> SkipBlanks(text) == "")
  {
    UnsignedParsesExactly(text);
    if SkipSpaces(text) == "" { SpacesConvert(text, Base(text)); }
    hide Convert;
    BlanksAreSpaces(text);
  }

  lemma SpacesConvert(text: string, base: nat)
    requires 10 <= base <= 16 && SkipSpaces(text) == ""
    ensures Convert(text, base) == None
  {
  }

  lemma SkipOne(c: char, s: string)
    requires IsSpace(c)
    ensures SkipSpaces([c] + s) == SkipSpaces(s)
    ensures c == ' ' ==> SkipBlanks([c] + s) == SkipBlanks(s)
    ensures c != ' ' ==> SkipBlanks([c] + s) == [c] + s
    ensures Base([c] + s) == 10
  {
    assert ([c] + s)[1..] == s;
  }

  /** Instances: a minus behind a blank, and behind a tabulator. */
  lemma UnsignedSigns(n: int)
    requires -2 * TWO_63 < n < 0
    ensures ParseFrom(Uint64Flag, [' '] + SignedDecimal(n)) == None
    ensures ParseFrom(Uint64Flag, ['\t'] + SignedDecimal(n)) == Some(Uint64Value(n + 2 * TWO_63))
  {
    hide Decimal, Convert, SkipBlanks, ParseFrom, Base;
    var negative := SignedDecimal(n);
    ConvertPrinted(n);
    SkipOne(' ', negative);
    SkipOne('\t', negative);
    SignInFront(n);
    SameSubject(['\t'] + negative, negative, 10);
    UnsignedParsesExactly([' '] + negative);
    UnsignedParsesExactly(['\t'] + negative);
  }

  lemma SignInFront(n: int)
    requires n < 0
    ensures SignedDecimal(n)[0] == '-' && SkipBlanks(SignedDecimal(n)) == SignedDecimal(n)
  {
    hide Decimal;
  }

  lemma SameSubject(s: string, t: string, base: nat)
    requires 10 <= base <= 16 && SkipSpaces(s) == SkipSpaces(t)
    ensures Convert(s, base) == Convert(t, base)
  {
  }
}
