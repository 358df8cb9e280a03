/** Printing the bytes of a narrow string as C++ string literals, and reading such literals back. */
module StringLiterals {
  import opened Basics

  // ----- Characters -----

  const QUOTE: char := '"'
  const BACKSLASH: char := '\\'

  type Byte = c: char | c as int < 256 witness 'a'

  predicate IsPrintableAscii(c: char) {
    0x20 <= c as int <= 0x7E
  }

  predicate IsOctalDigit(c: char) {
    '0' <= c <= '7'
  }

  predicate IsXDigit(c: char) {
    '0' <= c <= '9' || 'a' <= c <= 'f' || 'A' <= c <= 'F'
  }

  function XDigitValue(c: char): (v: nat)
    requires IsXDigit(c)
    ensures v < 16
  {
    if c <= '9' then c as int - '0' as int
    else if c <= 'F' then c as int - 'A' as int + 10
    else c as int - 'a' as int + 10
  }

  function XDigit(v: nat): (c: char)
    requires v < 16
    ensures IsXDigit(c) && XDigitValue(c) == v
  {
    if v < 10 then ('0' as int + v) as char else ('A' as int + v - 10) as char
  }

  // ----- Printing -----

  /** A byte in capital hexadecimal digits, without leading zeros. */
  function FormatHex(v: nat): string
    requires v < 256
  {
    if v < 16 then [XDigit(v)] else [XDigit(v / 16), XDigit(v % 16)]
  }

  /** The letter of a simple escape sequence, if the byte has one in a string literal. */
  function EscapeLetter(c: char): Option<char> {
    var v := c as int;
    if v == 0 then Some('0')
    else if c == QUOTE then Some(QUOTE)
    else if c == BACKSLASH then Some(BACKSLASH)
    else if v == 7 then Some('a')
    else if v == 8 then Some('b')
    else if v == 12 then Some('f')
    else if v == 10 then Some('n')
    else if v == 13 then Some('r')
    else if v == 9 then Some('t')
    else if v == 11 then Some('v')
    else None
  }

  predicate PrintsAsHex(c: char) {
    EscapeLetter(c).None? && !IsPrintableAscii(c)
  }

  function PrintChar(c: Byte): (s: string)
    ensures s != []
  {
    if EscapeLetter(c).Some? then [BACKSLASH, EscapeLetter(c).value]
    else if IsPrintableAscii(c) then [c]
    else [BACKSLASH, 'x'] + FormatHex(c as int)
  }

  const BREAK: string := "\" \""

  /** What is printed for `c`: after a hexadecimal escape, a digit starts a new literal. */
  function Piece(c: Byte, afterHex: bool): string {
    (if afterHex && IsXDigit(c) then BREAK else []) + PrintChar(c)
  }

  /** The inside of the literals for the rest of a string. */
  ghost function Body(s: seq<Byte>, afterHex: bool): string
    decreases |s|
  {
    if s == [] then [] else Piece(s[0], afterHex) + Body(s[1..], PrintsAsHex(s[0]))
  }

  ghost function Printed(s: seq<Byte>): string {
    [QUOTE] + Body(s, false) + [QUOTE]
  }

  // ----- How things are printed -----

  /** Printable characters without quotes and backslashes are printed as they are, in one literal. */
  lemma {:induction false} PlainTextIsPlain(s: seq<Byte>)
    requires forall i :: 0 <= i < |s| ==> 32 <= s[i] as int <= 126 && s[i] != '"' && s[i] != '\\'
    ensures Body(s, false) == s && Printed(s) == "\"" + s + "\""
    decreases |s|
  {
    if s != [] { PlainTextIsPlain(s[1..]); }
  }

  /** The other characters: a quote, a backslash and the control characters with letters, and the rest in capital
      hexadecimal digits without leading zeros. */
  lemma PrintedSpecially(c: Byte)
    ensures c as int == 0 ==> PrintChar(c) == "\\0"
    ensures c == '"' ==> PrintChar(c) == "\\\""
    ensures c == '\\' ==> PrintChar(c) == "\\\\"
    ensures c as int == 7 ==> PrintChar(c) == "\\a"
    ensures c as int == 8 ==> PrintChar(c) == "\\b"
    ensures c as int == 9 ==> PrintChar(c) == "\\t"
    ensures c as int == 10 ==> PrintChar(c) == "\\n"
    ensures c as int == 11 ==> PrintChar(c) == "\\v"
    ensures c as int == 12 ==> PrintChar(c) == "\\f"
    ensures c as int == 13 ==> PrintChar(c) == "\\r"
    ensures PrintsAsHex(c) <==> 0 < c as int < 7 || 13 < c as int < 32 || c as int > 126
    ensures PrintsAsHex(c) ==> PrintChar(c) == "\\x" + FormatHex(c as int)
  {
  }

  lemma HexDigitsAre(v: nat)
    requires v < 256
    ensures forall i :: 0 <= i < |FormatHex(v)| ==> '0' <= FormatHex(v)[i] <= '9' || 'A' <= FormatHex(v)[i] <= 'F'
    ensures |FormatHex(v)| == if v < 16 then 1 else 2
  {
  }

  /** A new literal is started exactly where a digit follows a hexadecimal escape. */
  lemma BreaksWhereNeeded(c: Byte, afterHex: bool)
    ensures Piece(c, afterHex)
         == (if afterHex && ('0' <= c <= '9' || 'a' <= c <= 'f' || 'A' <= c <= 'F') then "\" \"" else "") + PrintChar(c)
  {
  }

  method PrintCharsAsStringTo(s: seq<Byte>) returns (os: string)
    ensures os == Printed(s)
  {
    hide PrintChar, PrintsAsHex, IsXDigit;
    os := [QUOTE];
    var isPreviousHex := false;
    for index := 0 to |s|
      invariant [QUOTE] + Body(s, false) == os + Body(s[index..], isPreviousHex)
    {
      var cur := s[index];
      assert s[index..][0] == cur && s[index..][1..] == s[index + 1..];
      ghost var before := os;
      if isPreviousHex && IsXDigit(cur) {
        os := os + BREAK;
      }
      os := os + PrintChar(cur);
      assert os == before + Piece(cur, isPreviousHex);
      assert os + Body(s[index + 1..], PrintsAsHex(cur))
          == before + (Piece(cur, isPreviousHex) + Body(s[index + 1..], PrintsAsHex(cur)));
      isPreviousHex := PrintsAsHex(cur);
    }
    os := os + [QUOTE];
  }

  // ----- Reading: sections 2.14.3 and 2.14.5 of ISO/IEC 14882:2011, without trigraphs -----

  function OctalPrefix(t: string, limit: nat): (k: nat)
    ensures k <= limit && k <= |t| && (forall i :: 0 <= i < k ==> IsOctalDigit(t[i]))
    ensures k < limit && k < |t| ==> !IsOctalDigit(t[k])
  {
    if limit == 0 || t == [] || !IsOctalDigit(t[0]) then 0 else OctalPrefix(t[1..], limit - 1) + 1
  }

  function OctalDigitValue(c: char): (v: nat)
    requires IsOctalDigit(c)
    ensures v < 8
  {
    c as int - '0' as int
  }

  function OctalValue(t: string): (v: nat)
    requires forall i :: 0 <= i < |t| ==> IsOctalDigit(t[i])
    ensures |t| <= 1 ==> v < 8
    ensures |t| <= 2 ==> v < 64
  {
    if t == [] then 0 else OctalValue(t[..|t| - 1]) * 8 + OctalDigitValue(t[|t| - 1])
  }

  function HexPrefix(t: string): (k: nat)
    ensures k <= |t| && (forall i :: 0 <= i < k ==> IsXDigit(t[i]))
    ensures k < |t| ==> !IsXDigit(t[k])
  {
    if t == [] || !IsXDigit(t[0]) then 0 else HexPrefix(t[1..]) + 1
  }

  function HexValue(t: string): nat
    requires forall i :: 0 <= i < |t| ==> IsXDigit(t[i])
  {
    if t == [] then 0 else HexValue(t[..|t| - 1]) * 16 + XDigitValue(t[|t| - 1])
  }

  /** The byte of a simple escape sequence. */
  function SimpleEscape(c: char): Option<char> {
    if c == '\'' || c == QUOTE || c == '?' || c == BACKSLASH then Some(c)
    else if c == 'a' then Some(7 as char)
    else if c == 'b' then Some(8 as char)
    else if c == 'f' then Some(12 as char)
    else if c == 'n' then Some(10 as char)
    else if c == 'r' then Some(13 as char)
    else if c == 't' then Some(9 as char)
    else if c == 'v' then Some(11 as char)
    else None
  }

  /** What follows a backslash: the byte and the number of characters it takes up. */
  function ReadEscape(t: string): (r: Option<(char, nat)>)
    ensures r.Some? ==> 0 < r.value.1 <= |t|
  {
    if t == [] then None
    else if SimpleEscape(t[0]).Some? then Some((SimpleEscape(t[0]).value, 1))
    else if IsOctalDigit(t[0]) then
      var k := OctalPrefix(t, 3);
      var v := OctalValue(t[..k]);
      if v < 256 then Some((v as char, k)) else None
    else if t[0] == 'x' then
      var k := HexPrefix(t[1..]);
      var v := HexValue(t[1..][..k]);
      if 0 < k && v < 256 then Some((v as char, k + 1)) else None
    else None
  }

  function Prepend(c: char, r: Option<string>): Option<string> {
    if r.None? then None else Some([c] + r.value)
  }

  /** Adjacent string literals, separated by blanks: the bytes of all of them, or None if the text is no such thing. */
  function Read(t: string, inside: bool): Option<string>
    decreases |t|
  {
    if t == [] then if inside then None else Some([])
    else if !inside then
      if t[0] == QUOTE then Read(t[1..], true)
      else if t[0] == ' ' then Read(t[1..], false)
      else None
    else if t[0] == QUOTE then Read(t[1..], false)
    else if t[0] == BACKSLASH then
      var e := ReadEscape(t[1..]);
      if e.None? then None else Prepend(e.value.0, Read(t[1 + e.value.1..], true))
    else if t[0] as int == 10 || t[0] as int >= 256 then None
    else Prepend(t[0], Read(t[1..], true))
  }

  // ----- What printing and reading do together -----

  /** The effect of the bare octal escape for NUL: it swallows up to two octal digits that follow. */
  ghost function Collapsed(s: seq<Byte>): seq<Byte>
    decreases |s|
  {
    if s == [] then []
    else if s[0] as int == 0 then
      var k := OctalPrefix(s[1..], 2);
      [OctalValue(s[1..][..k]) as char] + Collapsed(s[1 + k..])
    else [s[0]] + Collapsed(s[1..])
  }

  /** The text from some point inside a literal up to the end. */
  ghost function Tail(s: seq<Byte>, afterHex: bool): string {
    Body(s, afterHex) + [QUOTE]
  }

  lemma TailStarts(s: seq<Byte>, afterHex: bool)
    requires s != []
    ensures Tail(s, afterHex) == Piece(s[0], afterHex) + Tail(s[1..], PrintsAsHex(s[0]))
  {
    assert Piece(s[0], afterHex) + Body(s[1..], PrintsAsHex(s[0])) + [QUOTE]
        == Piece(s[0], afterHex) + (Body(s[1..], PrintsAsHex(s[0])) + [QUOTE]);
  }

  /** The first printed character: the byte itself or a backslash. */
  lemma PrintCharStarts(c: Byte)
    ensures PrintChar(c)[0] == if EscapeLetter(c).None? && IsPrintableAscii(c) then c else BACKSLASH
    ensures IsXDigit(c) ==> PrintChar(c) == [c] && !PrintsAsHex(c)
    ensures Piece(c, false) == PrintChar(c)
    ensures Piece(c, true) == if IsXDigit(c) then BREAK + PrintChar(c) else PrintChar(c)
  {
  }

  /** Without a hexadecimal escape in front, the text starts with an octal digit exactly when the string does. */
  lemma OctalStart(s: seq<Byte>)
    ensures var t := Tail(s, false);
            t != [] && (IsOctalDigit(t[0]) <==> s != [] && IsOctalDigit(s[0]))
    ensures s != [] && IsOctalDigit(s[0]) ==> Tail(s, false) == [s[0]] + Tail(s[1..], false)
  {
    hide Tail, PrintChar, Piece, PrintsAsHex, EscapeLetter;
    if s != [] {
      TailStarts(s, false);
      PrintCharStarts(s[0]);
    } else {
      TailOfNothing();
    }
  }

  /** After a hexadecimal escape, no digit follows that could be taken for a part of it. */
  lemma NoDigitAfterHex(s: seq<Byte>)
    ensures Tail(s, true) != [] && !IsXDigit(Tail(s, true)[0])
  {
    hide Tail, PrintChar, Piece, PrintsAsHex, EscapeLetter;
    if s != [] {
      TailStarts(s, true);
      PrintCharStarts(s[0]);
    } else {
      TailOfNothing();
    }
  }

  lemma ReadBreak(u: string)
    ensures Read(BREAK + u, true) == Read(u, true)
  {
    var t0 := BREAK + u;
    var t1 := t0[1..];
    var t2 := t1[1..];
    assert t2[1..] == u;
    assert Read(t0, true) == Read(t1, false) == Read(t2, false) == Read(t2[1..], true);
  }

  /** The new literal after a hexadecimal escape is read as if there had been no break. */
  lemma BreakIsTransparent(s: seq<Byte>)
    ensures Read(Tail(s, true), true) == Read(Tail(s, false), true)
  {
    hide Read, Tail, Piece, PrintsAsHex;
    if s != [] {
      TailStarts(s, true);
      TailStarts(s, false);
      BreakInFront(s[0], Tail(s[1..], PrintsAsHex(s[0])));
      ReadBreak(Tail(s, false));
    } else {
      TailOfNothing();
    }
  }

  lemma TailOfNothing()
    ensures Tail([], true) == Tail([], false) == [QUOTE]
  {
  }

  lemma BreakInFront(c: Byte, u: string)
    ensures Piece(c, true) + u == if IsXDigit(c) then BREAK + (Piece(c, false) + u) else Piece(c, false) + u
  {
    assert Piece(c, false) == PrintChar(c);
    if IsXDigit(c) {
      assert BREAK + PrintChar(c) + u == BREAK + (PrintChar(c) + u);
    }
  }

  lemma TakeNone(s: string, u: string)
    ensures s[0..] == s && s[..0] + u == u
  {
  }

  lemma Regroup(a: char, b: char, x: string, y: string)
    ensures [a] + ([b] + x) + y == [a, b] + (x + y)
  {
  }

  lemma SplitConcat(c: char, a: string, b: string)
    ensures ([c] + a + b)[0] == c && ([c] + a + b)[1..] == a + b
    ensures (a + b)[..|a|] == a && (a + b)[|a|..] == b
  {
  }

  lemma OctalPrefixCons(c: char, t: string, limit: nat)
    requires limit > 0
    ensures OctalPrefix([c] + t, limit) == if IsOctalDigit(c) then OctalPrefix(t, limit - 1) + 1 else 0
  {
    assert ([c] + t)[1..] == t;
  }

  lemma ConsTake(s: string, k: nat, rest: string)
    requires s != [] && k <= |s[1..]|
    ensures [s[0]] + (s[1..][..k] + rest) == s[..k + 1] + rest && s[1..][k..] == s[k + 1..]
  {
  }

  lemma OctalPrefixOfTail(s: seq<Byte>, limit: nat)
    ensures var k := OctalPrefix(s, limit);
            && OctalPrefix(Tail(s, false), limit) == k
            && Tail(s, false) == s[..k] + Tail(s[k..], false)
    decreases limit
  {
    hide Tail, OctalPrefix;
    OctalStart(s);
    var t := Tail(s, false);
    if limit == 0 {
      TakeNone(s, t);
    } else {
      OctalPrefixCons(t[0], t[1..], limit);
      assert [t[0]] + t[1..] == t;
      if s != [] {
        OctalPrefixCons(s[0], s[1..], limit);
        assert [s[0]] + s[1..] == s;
      }
      if s != [] && IsOctalDigit(s[0]) {
        OctalPrefixOfTail(s[1..], limit - 1);
        var k := OctalPrefix(s[1..], limit - 1);
        ConsTake(s, k, Tail(s[1..][k..], false));
        assert t[1..] == Tail(s[1..], false);
      } else {
        TakeNone(s, t);
      }
    }
  }

  lemma ReadPlain(c: Byte, u: string)
    requires IsPrintableAscii(c) && EscapeLetter(c).None?
    ensures Read(PrintChar(c) + u, true) == Prepend(c, Read(u, true))
  {
    assert (PrintChar(c) + u)[1..] == u;
  }

  /** An escape sequence that is read completely, and no further. */
  lemma ReadEscaped(e: string, c: Byte, u: string)
    requires ReadEscape(e + u) == Some((c, |e|))
    ensures Read([BACKSLASH] + e + u, true) == Prepend(c, Read(u, true))
  {
    var t := [BACKSLASH] + e + u;
    assert t[0] == BACKSLASH && t[1..] == e + u && t[1 + |e|..] == u;
  }

  lemma ReadSimple(c: Byte, u: string)
    requires EscapeLetter(c).Some? && c as int != 0
    ensures Read(PrintChar(c) + u, true) == Prepend(c, Read(u, true))
  {
    hide Read;
    var e := [EscapeLetter(c).value];
    assert (e + u)[0] == EscapeLetter(c).value;
    ReadEscaped(e, c, u);
    assert PrintChar(c) == [BACKSLASH] + e;
  }

  lemma {:induction false} HexPrefixIs(digits: string, u: string)
    requires forall i :: 0 <= i < |digits| ==> IsXDigit(digits[i])
    requires u != [] && !IsXDigit(u[0])
    ensures HexPrefix(digits + u) == |digits|
    decreases |digits|
  {
    if digits == [] {
      assert digits + u == u;
    } else {
      assert (digits + u)[1..] == digits[1..] + u;
      HexPrefixIs(digits[1..], u);
    }
  }

  lemma OneXDigit(v: nat)
    requires v < 16
    ensures HexValue([XDigit(v)]) == v
  {
    assert [XDigit(v)][..0] == [];
  }

  lemma HexReadsBack(v: nat)
    requires v < 256
    ensures forall i :: 0 <= i < |FormatHex(v)| ==> IsXDigit(FormatHex(v)[i])
    ensures HexValue(FormatHex(v)) == v && FormatHex(v) != []
  {
    if v < 16 {
      OneXDigit(v);
    } else {
      OneXDigit(v / 16);
      assert FormatHex(v)[..1] == [XDigit(v / 16)];
    }
  }

  /** What reading does with a hexadecimal escape. */
  lemma ReadHexEscape(t: string, k: nat)
    requires t != [] && t[0] == 'x' && HexPrefix(t[1..]) == k && k > 0 && HexValue(t[1..][..k]) < 256
    ensures ReadEscape(t) == Some((HexValue(t[1..][..k]) as char, k + 1))
  {
    hide HexPrefix, HexValue, OctalPrefix, OctalValue;
  }

  lemma HexEscape(digits: string, u: string)
    requires digits != [] && forall i :: 0 <= i < |digits| ==> IsXDigit(digits[i])
    requires u != [] && !IsXDigit(u[0]) && HexValue(digits) < 256
    ensures ReadEscape(['x'] + digits + u) == Some((HexValue(digits) as char, |digits| + 1))
  {
    hide HexValue, HexPrefix, ReadEscape, IsXDigit;
    HexPrefixIs(digits, u);
    SplitConcat('x', digits, u);
    ReadHexEscape(['x'] + digits + u, |digits|);
  }

  lemma ReadHex(c: Byte, u: string)
    requires PrintsAsHex(c) && u != [] && !IsXDigit(u[0])
    ensures Read(PrintChar(c) + u, true) == Prepend(c, Read(u, true))
  {
    hide Read, FormatHex, EscapeLetter, ReadEscape, HexValue;
    var digits := FormatHex(c as int);
    HexReadsBack(c as int);
    HexEscape(digits, u);
    ReadEscaped(['x'] + digits, c, u);
    assert PrintChar(c) == [BACKSLASH] + (['x'] + digits);
  }

  lemma {:induction false} LeadingZero(t: string)
    requires forall i :: 0 <= i < |t| ==> IsOctalDigit(t[i])
    ensures OctalValue(['0'] + t) == OctalValue(t)
    decreases |t|
  {
    if t != [] {
      assert (['0'] + t)[..|t|] == ['0'] + t[..|t| - 1];
      LeadingZero(t[..|t| - 1]);
    }
  }

  lemma NulEscape(digits: string, u: string)
    requires |digits| <= 2 && forall i :: 0 <= i < |digits| ==> IsOctalDigit(digits[i])
    requires OctalPrefix(digits + u, 2) == |digits|
    ensures ReadEscape(['0'] + digits + u) == Some((OctalValue(digits) as char, |digits| + 1))
  {
    hide OctalValue;
    var t := ['0'] + digits + u;
    assert t[0] == '0' && t[1..] == digits + u;
    assert OctalPrefix(t, 3) == |digits| + 1;
    assert t[..|digits| + 1] == ['0'] + digits;
    LeadingZero(digits);
  }

  lemma ReadNul(c: Byte, s: seq<Byte>)
    requires c as int == 0
    ensures Read(PrintChar(c) + Tail(s, false), true)
         == Prepend(OctalValue(s[..OctalPrefix(s, 2)]) as char, Read(Tail(s[OctalPrefix(s, 2)..], false), true))
  {
    hide Read, Tail, OctalPrefix, OctalValue, ReadEscape;
    var k := OctalPrefix(s, 2);
    var digits, rest := s[..k], Tail(s[k..], false);
    OctalPrefixOfTail(s, 2);
    NulEscape(digits, rest);
    ReadEscaped(['0'] + digits, OctalValue(digits) as char, rest);
    NulPrints(c);
    Regroup(BACKSLASH, '0', digits, rest);
  }

  /** Reading what was printed, for every string: exactly the swallowed digits are lost. */
  lemma {:induction false} ReadTail(s: seq<Byte>, afterHex: bool)
    ensures Read(Tail(s, afterHex), true) == Some(Collapsed(s))
    decreases |s|
  {
    hide Read, Tail, EscapeLetter, FormatHex, PrintChar;
    if afterHex { BreakIsTransparent(s); }
    if s == [] {
      ReadEnd();
    } else {
      var c := s[0];
      TailStarts(s, false);
      assert Piece(c, false) == PrintChar(c);
      if c as int == 0 {
        var k := OctalPrefix(s[1..], 2);
        NulPrints(c);
        ReadNul(c, s[1..]);
        assert s[1..][k..] == s[1 + k..];
        ReadTail(s[1 + k..], false);
      } else {
        var hex := PrintsAsHex(c);
        ReadTail(s[1..], hex);
        if EscapeLetter(c).Some? {
          ReadSimple(c, Tail(s[1..], hex));
        } else if IsPrintableAscii(c) {
          ReadPlain(c, Tail(s[1..], hex));
        } else {
          NoDigitAfterHex(s[1..]);
          ReadHex(c, Tail(s[1..], hex));
        }
      }
    }
  }

  lemma ReadEnd()
    ensures Read(Tail([], false), true) == Some([])
  {
    assert Tail([], false) == [QUOTE] && [QUOTE][1..] == [];
  }

  lemma NulPrints(c: Byte)
    requires c as int == 0
    ensures PrintChar(c) == [BACKSLASH, '0'] && !PrintsAsHex(c)
  {
  }

  /** No NUL is directly followed by an octal digit. */
  predicate Unambiguous(s: seq<Byte>) {
    forall i :: 0 <= i < |s| - 1 ==> !(s[i] as int == 0 && IsOctalDigit(s[i + 1]))
  }

  lemma {:induction false} CollapsedShrinks(s: seq<Byte>)
    ensures |Collapsed(s)| <= |s|
    ensures Unambiguous(s) ==> Collapsed(s) == s
    ensures !Unambiguous(s) ==> |Collapsed(s)| < |s|
    decreases |s|
  {
    if s != [] {
      assert s == [s[0]] + s[1..];
      if s[0] as int == 0 {
        var k := OctalPrefix(s[1..], 2);
        CollapsedShrinks(s[1 + k..]);
        if k == 0 {
          UnambiguousTail(s);
        }
      } else {
        CollapsedShrinks(s[1..]);
        UnambiguousTail(s);
      }
    }
  }

  lemma UnambiguousTail(s: seq<Byte>)
    requires s != []
    ensures Unambiguous(s) <==> Unambiguous(s[1..]) && !(|s| > 1 && s[0] as int == 0 && IsOctalDigit(s[1]))
  {
  }

  /** The printed text of a string is always well formed, and it reads back as the string if and only if
      no NUL of the string is directly followed by an octal digit. */
  lemma RoundTrip(s: seq<Byte>)
    ensures Read(Printed(s), false) == Some(Collapsed(s))
    ensures Read(Printed(s), false) == Some(s) <==> Unambiguous(s)
  {
    assert Printed(s)[1..] == Tail(s, false);
    ReadTail(s, false);
    CollapsedShrinks(s);
  }
}
