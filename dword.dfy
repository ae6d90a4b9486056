/** The REG_DWORD codec of regedit_dialog.c: IVAL/SIVAL little-endian
    conversion, the "0x%x" rendering done by fill_value_buffer, the
    strtoul-based parsing done by set_value, and the validation pattern
    ^ *([0-9]+|0[xX][0-9a-fA-F]+) *$ that the data field carries. */
module Dword {
  import opened RegTypes
  import opened Text

  const TWO32: nat := 0x1_0000_0000
  /** unsigned long is taken to be 64 bits wide (LP64). */
  const ULONG_MAX: nat := 0xFFFF_FFFF_FFFF_FFFF

  // ---------------------------------------------------------------------
  // Little-endian bytes (IVAL / SIVAL)

  function Pow256(n: nat): (p: nat)
    ensures p >= 1
  {
    if n == 0 then 1 else 256 * Pow256(n - 1)
  }

  /** The unsigned number whose little-endian bytes are b. */
  function FromLE(b: seq<byte>): nat {
    if |b| == 0 then 0 else b[0] as nat + 256 * FromLE(b[1..])
  }

  /** The n little-endian bytes of v, higher bytes dropped. */
  function ToLE(v: nat, n: nat): (b: seq<byte>)
    ensures |b| == n
  {
    if n == 0 then [] else [(v % 256) as byte] + ToLE(v / 256, n - 1)
  }

  lemma {:induction false} FromLEBound(b: seq<byte>)
    ensures FromLE(b) < Pow256(|b|)
  {
    if |b| > 0 {
      FromLEBound(b[1..]);
      assert FromLE(b[1..]) + 1 <= Pow256(|b| - 1);
      assert 256 * (FromLE(b[1..]) + 1) <= 256 * Pow256(|b| - 1);
    }
  }

  lemma SplitByte(v: nat)
    ensures v == v % 256 + 256 * (v / 256)
    ensures v % 256 < 256
  {
  }

  lemma JoinByte(lo: nat, hi: nat)
    requires lo < 256
    ensures (lo + 256 * hi) % 256 == lo
    ensures (lo + 256 * hi) / 256 == hi
  {
  }

  /** Writing v as n little-endian bytes and reading them back gives v. */
  lemma {:induction false} FromLEOfToLE(v: nat, n: nat)
    requires v < Pow256(n)
    ensures FromLE(ToLE(v, n)) == v
  {
    if n > 0 {
      var q := v / 256;
      var r := v % 256;
      SplitByte(v);
      assert Pow256(n) == 256 * Pow256(n - 1);
      assert q < Pow256(n - 1);
      FromLEOfToLE(q, n - 1);
      var b := ToLE(v, n);
      assert b[0] == r as byte && b[1..] == ToLE(q, n - 1);
      assert FromLE(b) == b[0] as nat + 256 * FromLE(b[1..]);
    }
  }

  /** Reading bytes as a number and writing it back gives the same bytes. */
  lemma {:induction false} ToLEOfFromLE(b: seq<byte>)
    ensures ToLE(FromLE(b), |b|) == b
  {
    if |b| > 0 {
      var v := FromLE(b);
      var rest := FromLE(b[1..]);
      var lo := b[0] as nat;
      assert v == lo + 256 * rest;
      JoinByte(lo, rest);
      ToLEOfFromLE(b[1..]);
      assert (lo as byte) == b[0];
      assert ToLE(v, |b|) == [(v % 256) as byte] + ToLE(v / 256, |b| - 1);
      assert ToLE(v, |b|) == [b[0]] + b[1..];
    }
  }

  /** IVAL(data, 0) when at least four bytes are present, else 0
      (fill_value_buffer, REG_DWORD). */
  function DwordOf(data: seq<byte>): (v: nat)
    ensures v < TWO32
  {
    if |data| >= 4 then
      FromLEBound(data[..4]);
      FromLE(data[..4])
    else
      0
  }

  // ---------------------------------------------------------------------
  // Digits

  predicate IsDecimalDigit(c: char) { '0' <= c <= '9' }

  predicate IsHexDigit(c: char) {
    '0' <= c <= '9' || 'a' <= c <= 'f' || 'A' <= c <= 'F'
  }

  /** A digit of the given base (10 or 16), as strtoul accepts it. */
  predicate IsDigitIn(c: char, base: nat) {
    if base == 16 then IsHexDigit(c) else IsDecimalDigit(c)
  }

  function DigitValue(c: char): (d: nat)
    requires IsHexDigit(c)
    ensures d < 16
    ensures IsDecimalDigit(c) ==> d < 10
  {
    if '0' <= c <= '9' then (c as int - '0' as int)
    else if 'a' <= c <= 'f' then (c as int - 'a' as int + 10)
    else (c as int - 'A' as int + 10)
  }

  /** The lower-case hexadecimal digit for d, as printf's %x writes it. */
  function HexDigit(d: nat): (c: char)
    requires d < 16
    ensures IsHexDigit(c) && DigitValue(c) == d
  {
    if d < 10 then (('0' as int) + d) as char else (('a' as int) + d - 10) as char
  }

  predicate AllDigits(ds: string, base: nat) {
    forall i :: 0 <= i < |ds| ==> IsDigitIn(ds[i], base)
  }

  /** The number a run of digits denotes, most significant first. */
  function DigitsValue(ds: string, base: nat): nat
    requires base == 10 || base == 16
    requires AllDigits(ds, base)
  {
    if |ds| == 0 then 0
    else DigitsValue(ds[..|ds| - 1], base) * base + DigitValue(ds[|ds| - 1])
  }

  /** printf's %x: lower-case hexadecimal, no leading zeros, "0" for zero. */
  function Hex(v: nat): (s: string)
    ensures |s| >= 1
    ensures AllDigits(s, 16)
    ensures |s| > 1 ==> s[0] != '0'
    decreases v
  {
    if v < 16 then [HexDigit(v)] else Hex(v / 16) + [HexDigit(v % 16)]
  }

  /** %x is read back by a base-16 digit run. */
  lemma {:induction false} HexValue(v: nat)
    ensures DigitsValue(Hex(v), 16) == v
    decreases v
  {
    if v >= 16 {
      var s := Hex(v);
      HexValue(v / 16);
      assert s[..|s| - 1] == Hex(v / 16);
    }
  }

  // ---------------------------------------------------------------------
  // strtoul

  /** isspace in the C locale. */
  predicate IsCSpace(c: char) {
    c == ' ' || c == '\t' || c == '\n' || c == '\r' || c as int == 11 || c as int == 12
  }

  /** The text after strtoul's leading white space. */
  function SkipSpace(s: string): (r: string)
    ensures |r| <= |s|
    ensures |r| == 0 || !IsCSpace(r[0])
    decreases |s|
  {
    if |s| > 0 && IsCSpace(s[0]) then SkipSpace(s[1..]) else s
  }

  /** The number of digits of the base at the front of s. */
  function DigitCount(s: string, base: nat): (n: nat)
    ensures n <= |s|
    ensures forall i :: 0 <= i < n ==> IsDigitIn(s[i], base)
    ensures n == |s| || !IsDigitIn(s[n], base)
    decreases |s|
  {
    if |s| > 0 && IsDigitIn(s[0], base) then 1 + DigitCount(s[1..], base) else 0
  }

  /** The longest prefix of s made of digits of the base. */
  function DigitRun(s: string, base: nat): (r: string)
    ensures AllDigits(r, base)
    ensures |r| <= |s| && r == s[..|r|]
    ensures |r| == |s| || !IsDigitIn(s[|r|], base)
  {
    s[..DigitCount(s, base)]
  }

  /** The digit run ends at the first character that is not a digit. */
  lemma DigitRunEndsAt(s: string, base: nat, n: nat)
    requires n <= |s| && AllDigits(s[..n], base)
    requires n == |s| || !IsDigitIn(s[n], base)
    ensures DigitRun(s, base) == s[..n]
  {
  }

  predicate StartsWithHexPrefix(s: string) {
    |s| >= 2 && s[0] == '0' && (s[1] == 'x' || s[1] == 'X')
  }

  /** The text after the white space and the sign strtoul skips. */
  function Unsigned(s: string): string {
    var t := SkipSpace(s);
    if |t| > 0 && (t[0] == '+' || t[0] == '-') then t[1..] else t
  }

  predicate IsNegative(s: string) {
    var t := SkipSpace(s);
    |t| > 0 && t[0] == '-'
  }

  /** The digits strtoul reads: for base 16 after an optional 0x/0X. */
  function Digits(s: string, base: nat): (ds: string)
    ensures AllDigits(ds, base)
  {
    var u := Unsigned(s);
    var w := if base == 16 && StartsWithHexPrefix(u) then u[2..] else u;
    DigitRun(w, base)
  }

  /** strtoul(s, NULL, base) for base 10 or 16: skip white space, an
      optional sign, for base 16 an optional 0x/0X, then the longest digit
      run; an out-of-range magnitude gives ULONG_MAX, and a minus sign
      negates modulo 2^64. */
  function Strtoul(s: string, base: nat): (r: nat)
    requires base == 10 || base == 16
    ensures r <= ULONG_MAX
  {
    var mag := DigitsValue(Digits(s, base), base);
    if mag > ULONG_MAX then ULONG_MAX
    else if IsNegative(s) then (ULONG_MAX + 1 - mag) % (ULONG_MAX + 1)
    else mag
  }

  // ---------------------------------------------------------------------
  // The REG_DWORD text of the data field

  /** fill_value_buffer's "0x%x" rendering of the stored DWORD. */
  function DwordText(data: seq<byte>): string {
    "0x" + Hex(DwordOf(data))
  }

  /** set_value's REG_DWORD parse exactly as written: the 0x test looks at
      buf[0] and buf[1] only, then strtoul's result is truncated to the
      uint32_t val. */
  function ParseDwordAsWritten(buf: string): (v: nat)
    ensures v < TWO32
  {
    var base := if StartsWithHexPrefix(buf) then 16 else 10;
    Strtoul(buf, base) % TWO32
  }

  /** The corrected parse: the 0x test skips the leading spaces that the
      field's pattern allows, as strtoul itself does. */
  function ParseDword(buf: string): (v: nat)
    ensures v < TWO32
  {
    var base := if StartsWithHexPrefix(TrimFront(buf)) then 16 else 10;
    Strtoul(buf, base) % TWO32
  }

  /** The four bytes set_value stores for a REG_DWORD (SIVAL). */
  function DwordBytes(buf: string): (b: seq<byte>)
    ensures |b| == 4
  {
    ToLE(ParseDword(buf), 4)
  }

  // ---------------------------------------------------------------------
  // The validation pattern

  predicate IsDecimalLiteral(t: string) {
    |t| > 0 && AllDigits(t, 10)
  }

  predicate IsHexLiteral(t: string) {
    |t| > 2 && StartsWithHexPrefix(t) && AllDigits(t[2..], 16)
  }

  /** ([0-9]+|0[xX][0-9a-fA-F]+): a decimal or a 0x/0X hexadecimal literal. */
  predicate IsLiteral(t: string) {
    IsDecimalLiteral(t) || IsHexLiteral(t)
  }

  /** t between a run of a spaces and a run of b spaces. */
  function Framed(a: nat, t: string, b: nat): string {
    Blanks(a) + t + Blanks(b)
  }

  /** A literal neither starts nor ends with a space, so trimming its
      frame gives it back. */
  lemma FramedLiteralTrims()
    ensures forall a: nat, t: string, b: nat {:trigger Framed(a, t, b)} ::
              IsLiteral(t) ==> Trim(Framed(a, t, b)) == t
  {
    forall a: nat, t: string, b: nat | IsLiteral(t)
      ensures Trim(Framed(a, t, b)) == t
    {
      if IsHexLiteral(t) {
        assert t[|t| - 1] == t[2..][|t| - 3];
      }
      TrimOfPadded(a, t, b);
    }
  }

  /** ^ *([0-9]+|0[xX][0-9a-fA-F]+) *$ : a literal framed by spaces. Neither
      literal contains a space, so the frame is exactly what Trim strips. */
  predicate DwordPattern(s: string): (r: bool)
    ensures r ==> |Trim(s)| > 0 && IsDecimalDigit(Trim(s)[0]) && IsHexDigit(Trim(s)[|Trim(s)| - 1])
  {
    var t := Trim(s);
    assert IsHexLiteral(t) ==> t[|t| - 1] == t[2..][|t| - 3];
    IsLiteral(t)
  }

  /** The pattern, read as the regular expression it is: the text is a
      decimal or hexadecimal literal with any run of spaces on either side. */
  lemma DwordPatternIsFramedLiteral(s: string)
    ensures DwordPattern(s) <==>
              exists a: nat, t: string, b: nat {:trigger Framed(a, t, b)} :: s == Framed(a, t, b) && IsLiteral(t)
  {
    FramedLiteralTrims();
    TrimFrames(s);
    assert s == Framed(LeadingBlanks(s), Trim(s), |s| - LeadingBlanks(s) - |Trim(s)|);
  }

  /** What a text matching the pattern denotes once stored in a uint32_t:
      its decimal or hexadecimal value, saturated by strtoul, truncated. */
  function PatternValue(s: string): (v: nat)
    requires DwordPattern(s)
    ensures v < TWO32
  {
    var t := Trim(s);
    var mag := if IsHexLiteral(t) then DigitsValue(t[2..], 16) else DigitsValue(t, 10);
    Min(mag, ULONG_MAX) % TWO32
  }

  lemma {:induction false} SkipSpaceOfBlanks(a: nat, u: string)
    requires |u| == 0 || !IsCSpace(u[0])
    ensures SkipSpace(Blanks(a) + u) == u
  {
    if a > 0 {
      assert (Blanks(a) + u)[1..] == Blanks(a - 1) + u;
      SkipSpaceOfBlanks(a - 1, u);
    } else {
      assert Blanks(a) + u == u;
    }
  }

  lemma DigitRunStopsAtBlank(ds: string, base: nat, b: nat)
    requires AllDigits(ds, base)
    ensures DigitRun(ds + Blanks(b), base) == ds
  {
    var s := ds + Blanks(b);
    assert s[..|ds|] == ds;
    if b > 0 {
      assert s[|ds|] == ' ';
    }
    DigitRunEndsAt(s, base, |ds|);
  }

  /** strtoul skips the frame in front of a literal that starts with a
      digit, and finds no sign. */
  lemma UnsignedOfFramed(a: nat, t: string, b: nat)
    requires |t| > 0 && IsDecimalDigit(t[0])
    ensures Unsigned(Blanks(a) + t + Blanks(b)) == t + Blanks(b)
    ensures !IsNegative(Blanks(a) + t + Blanks(b))
  {
    var u := t + Blanks(b);
    assert Blanks(a) + t + Blanks(b) == Blanks(a) + u;
    assert u[0] == t[0];
    SkipSpaceOfBlanks(a, u);
  }

  /** strtoul on a literal framed by spaces reads exactly the literal's
      digits, and no sign. */
  lemma StrtoulOfFramedLiteral(a: nat, t: string, b: nat, base: nat)
    requires (base == 10 && IsDecimalLiteral(t)) || (base == 16 && IsHexLiteral(t))
    ensures Digits(Blanks(a) + t + Blanks(b), base) == if base == 16 then t[2..] else t
    ensures !IsNegative(Blanks(a) + t + Blanks(b))
  {
    UnsignedOfFramed(a, t, b);
    if base == 16 {
      FramedHexDigits(t, b);
    } else {
      DigitRunStopsAtBlank(t, 10, b);
    }
  }

  lemma FramedHexDigits(t: string, b: nat)
    requires IsHexLiteral(t)
    ensures DigitRun((t + Blanks(b))[2..], 16) == t[2..]
  {
    assert (t + Blanks(b))[2..] == t[2..] + Blanks(b);
    DigitRunStopsAtBlank(t[2..], 16, b);
  }

  /** The corrected parse gives every text the pattern admits the value it
      denotes. */
  lemma ParseDwordMatchesPattern(s: string)
    requires DwordPattern(s)
    ensures ParseDword(s) == PatternValue(s)
  {
    var t := Trim(s);
    var a := LeadingBlanks(s);
    var b := |s| - a - |t|;
    TrimFrames(s);
    assert s == Blanks(a) + t + Blanks(b);
    assert TrimFront(s) == t + Blanks(b) by {
      assert s == Blanks(a) + (t + Blanks(b));
      TrimFrontOfBlanks(a, t + Blanks(b));
    }
    if IsHexLiteral(t) {
      assert StartsWithHexPrefix(TrimFront(s));
      StrtoulOfFramedLiteral(a, t, b, 16);
    } else {
      assert !StartsWithHexPrefix(TrimFront(s));
      StrtoulOfFramedLiteral(a, t, b, 10);
    }
  }

  /** Without a leading space the source's parse and the corrected one agree. */
  lemma ParseDwordAgreesWithoutLeadingSpace(s: string)
    requires |s| == 0 || s[0] != ' '
    ensures ParseDwordAsWritten(s) == ParseDword(s)
  {
    assert TrimFront(s) == s;
  }

  /** A blank field, which REQ_VALIDATION lets through, parses as 0: no
      prefix is found, and strtoul reads no digit. */
  lemma BlankParsesAsZero(s: string)
    requires Trim(s) == ""
    ensures ParseDword(s) == 0 && ParseDwordAsWritten(s) == 0
  {
    TrimEmptyIffBlank(s);
    assert Blanks(|s|) + "" == s;
    SkipSpaceOfBlanks(|s|, "");
    TrimFrontOfBlanks(|s|, "");
    assert Digits(s, 10) == "";
    assert !StartsWithHexPrefix(s) by {
      if |s| > 0 {
        assert s[0] == ' ';
      }
    }
  }

  /** The text fill_value_buffer writes, padded by the field, passes the
      field's pattern. */
  lemma DwordTextMatchesPattern(data: seq<byte>, k: nat)
    ensures DwordPattern(DwordText(data) + Blanks(k))
    ensures Trim(DwordText(data) + Blanks(k)) == DwordText(data)
  {
    var t := DwordText(data);
    assert Blanks(0) + t + Blanks(k) == t + Blanks(k);
    TrimOfPadded(0, t, k);
    assert t[2..] == Hex(DwordOf(data));
  }

  /** The REG_DWORD round trip: parsing the rendered text, with any field
      padding after it, gives back the value, and storing it reproduces the
      first four bytes (four zero bytes when fewer than four were stored).
      The source's own parse agrees on this text. */
  lemma SmallModulo(v: nat)
    requires v < TWO32
    ensures v % TWO32 == v
  {
  }

  lemma {:induction false} ZeroBytes(n: nat)
    ensures ToLE(0, n) == seq(n, _ => 0)
  {
    if n > 0 {
      ZeroBytes(n - 1);
      assert ToLE(0, n) == [0] + ToLE(0, n - 1);
    }
  }

  lemma {:induction false} DwordTextParses(data: seq<byte>, k: nat)
    ensures ParseDword(DwordText(data) + Blanks(k)) == DwordOf(data)
  {
    var t := DwordText(data);
    var s := t + Blanks(k);
    var v := DwordOf(data);
    DwordTextMatchesPattern(data, k);
    assert t[2..] == Hex(v);
    assert IsHexLiteral(t);
    ParseDwordMatchesPattern(s);
    HexValue(v);
    assert PatternValue(s) == Min(v, ULONG_MAX) % TWO32;
    assert Min(v, ULONG_MAX) == v;
    SmallModulo(v);
  }

  lemma DwordRoundTrip(data: seq<byte>, k: nat)
    ensures ParseDword(DwordText(data) + Blanks(k)) == DwordOf(data)
    ensures ParseDwordAsWritten(DwordText(data) + Blanks(k)) == DwordOf(data)
    ensures DwordBytes(DwordText(data) + Blanks(k)) == if |data| >= 4 then data[..4] else [0, 0, 0, 0]
  {
    var s := DwordText(data) + Blanks(k);
    DwordTextParses(data, k);
    ParseDwordAgreesWithoutLeadingSpace(s);
    if |data| >= 4 {
      ToLEOfFromLE(data[..4]);
    } else {
      ZeroBytes(4);
    }
  }

  /** " 0x1A" passes the field's pattern and denotes 26. */
  lemma LeadingSpaceHexDenotes26()
    ensures DwordPattern(" 0x1A")
    ensures PatternValue(" 0x1A") == 26
  {
    var s := " 0x1A";
    var t := "0x1A";
    assert Trim(s) == t by {
      assert s == Blanks(1) + t + Blanks(0);
      TrimOfPadded(1, t, 0);
    }
    assert IsHexLiteral(t) by {
      assert t[2..] == "1A";
    }
    assert DigitsValue(t[2..], 16) == 26 by {
      assert t[2..] == "1A";
      assert "1A"[..1] == "1";
      assert "1"[..0] == "";
    }
    assert PatternValue(s) == Min(26, ULONG_MAX) % TWO32;
  }

  lemma LeadingSpaceSkipped()
    ensures SkipSpace(" 0x1A") == "0x1A"
  {
    var s := " 0x1A";
    assert s[1..] == "0x1A";
  }

  lemma ZeroThenXDigitRun()
    ensures DigitRun("0x1A", 10) == "0"
  {
    assert "0x1A"[..1] == "0";
    DigitRunEndsAt("0x1A", 10, 1);
  }

  lemma LeadingSpaceHexDigits()
    ensures Digits(" 0x1A", 10) == "0"
    ensures !IsNegative(" 0x1A")
  {
    LeadingSpaceSkipped();
    ZeroThenXDigitRun();
    assert Unsigned(" 0x1A") == "0x1A";
  }

  /** The source's parse on " 0x1A": buf[0] is a space, so strtoul runs in
      base 10, skips the space and stops at the x, giving 0. */
  lemma LeadingSpaceHexParsedInBase10()
    ensures ParseDwordAsWritten(" 0x1A") == 0
  {
    assert !StartsWithHexPrefix(" 0x1A");
    LeadingSpaceHexDigits();
    assert DigitsValue("0", 10) == 0 by { assert "0"[..0] == ""; }
  }

  /** The source's parse against the pattern on " 0x1A": the field accepts
      the text as 26, set_value stores 0, the corrected parse stores 26. */
  lemma LeadingSpaceHexParsesAsZero()
    ensures DwordPattern(" 0x1A") && PatternValue(" 0x1A") == 26
    ensures ParseDwordAsWritten(" 0x1A") == 0
    ensures ParseDword(" 0x1A") == 26
  {
    LeadingSpaceHexDenotes26();
    LeadingSpaceHexParsedInBase10();
    ParseDwordMatchesPattern(" 0x1A");
  }
}
