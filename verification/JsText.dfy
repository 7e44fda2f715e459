/**
 JavaScript text as UTF-16 code units: JSON string quoting (section 7 of RFC 8259, with the
 well-formed output of `JSON.stringify`), UTF-8 encoding, and lower-case hexadecimal.
 */
module JsText {
  import opened Wrappers

  type Unit = u: nat | u < 0x10000
  type Text = seq<Unit>
  type Byte = b: nat | b < 256

  const QUOTE: Unit := 34
  const BACKSLASH: Unit := 92
  const NEWLINE: Unit := 10

  /** A literal of the program text; all literals used are ASCII. */
  function Ascii(s: string): Text {
    seq(|s|, i requires 0 <= i < |s| => (s[i] as int) % 0x80)
  }

  predicate IsHigh(u: Unit) { 0xD800 <= u <= 0xDBFF }
  predicate IsLow(u: Unit) { 0xDC00 <= u <= 0xDFFF }

  // ----- Hexadecimal ------------------------------------------------------------------------

  function HexDigit(d: nat): Unit
    requires d < 16
  {
    if d < 10 then 48 + d else 87 + d
  }

  function HexValue(u: Unit): Option<nat> {
    if 48 <= u <= 57 then Some(u - 48) else if 97 <= u <= 102 then Some(u - 87) else None
  }

  function Hex4(u: Unit): Text {
    [HexDigit(u / 4096), HexDigit(u / 256 % 16), HexDigit(u / 16 % 16), HexDigit(u % 16)]
  }

  /** `digest('hex')` */
  function HexOf(bytes: seq<Byte>): Text {
    if bytes == [] then [] else [HexDigit(bytes[0] / 16), HexDigit(bytes[0] % 16)] + HexOf(bytes[1..])
  }

  /** Two digits a byte, the high one first. */
  function ReadHex(t: Text): Option<seq<Byte>> {
    if t == [] then Some([])
    else if |t| == 1 || HexValue(t[0]).None? || HexValue(t[1]).None? then None
    else
      var rest := ReadHex(t[2..]);
      if rest.None? then None else Some([HexValue(t[0]).value * 16 + HexValue(t[1]).value] + rest.value)
  }

  /** The printed digits read back as the bytes. */
  lemma {:induction false} HexReadsBack(bytes: seq<Byte>)
    ensures ReadHex(HexOf(bytes)) == Some(bytes)
  {
    if bytes != [] {
      HexReadsBack(bytes[1..]);
      assert HexOf(bytes)[2..] == HexOf(bytes[1..]);
      assert bytes == [bytes[0]] + bytes[1..];
    }
  }

  /** All digits are decimal or lower-case. */
  lemma {:induction false} HexOfIsLowerCase(bytes: seq<Byte>)
    ensures forall i :: 0 <= i < |HexOf(bytes)| ==> 48 <= HexOf(bytes)[i] <= 57 || 97 <= HexOf(bytes)[i] <= 102
  {
    if bytes != [] {
      HexOfIsLowerCase(bytes[1..]);
    }
  }

  lemma HexOfInjective(a: seq<Byte>, b: seq<Byte>)
    requires HexOf(a) == HexOf(b)
    ensures a == b
  {
    HexReadsBack(a);
    HexReadsBack(b);
  }

  // ----- Quoting ----------------------------------------------------------------------------

  /** The two-character escapes. */
  function ShortEscape(u: Unit): Option<Unit> {
    if u == 34 then Some(34) else if u == 92 then Some(92)
    else if u == 8 then Some(98) else if u == 12 then Some(102)
    else if u == 10 then Some(110) else if u == 13 then Some(114)
    else if u == 9 then Some(116) else None
  }

  function ShortUnescape(c: Unit): Option<Unit> {
    if c == 34 then Some(34) else if c == 92 then Some(92)
    else if c == 98 then Some(8) else if c == 102 then Some(12)
    else if c == 110 then Some(10) else if c == 114 then Some(13)
    else if c == 116 then Some(9) else None
  }

  function EscapeUnit(u: Unit): Text {
    if ShortEscape(u).Some? then [BACKSLASH, ShortEscape(u).value]
    else if u < 32 || IsHigh(u) || IsLow(u) then [BACKSLASH, 117] + Hex4(u)
    else [u]
  }

  /** A surrogate pair is printed as it is; a lone surrogate is escaped. */
  function Escape(s: Text): Text {
    if s == [] then []
    else if |s| > 1 && IsHigh(s[0]) && IsLow(s[1]) then s[..2] + Escape(s[2..])
    else EscapeUnit(s[0]) + Escape(s[1..])
  }

  function Quote(s: Text): Text {
    [QUOTE] + Escape(s) + [QUOTE]
  }

  /** One character of a quoted body: its unit and the length it took. */
  function ParseUnit(t: Text): Option<(Unit, nat)>
    requires t != []
  {
    if t[0] != BACKSLASH then Some((t[0], 1))
    else if |t| < 2 then None
    else if t[1] != 117 then (if ShortUnescape(t[1]).Some? then Some((ShortUnescape(t[1]).value, 2)) else None)
    else if |t| < 6 then None
    else
      var a, b, c, d := HexValue(t[2]), HexValue(t[3]), HexValue(t[4]), HexValue(t[5]);
      if a.None? || b.None? || c.None? || d.None? then None
      else Some((a.value * 4096 + b.value * 256 + c.value * 16 + d.value, 6))
  }

  /** The body of a quoted string up to its closing quote, and what follows. */
  function ParseBody(t: Text): (r: Option<(Text, Text)>)
    ensures r.Some? ==> |r.value.1| < |t|
    decreases |t|
  {
    if t == [] then None
    else if t[0] == QUOTE then Some(([], t[1..]))
    else
      var head := ParseUnit(t);
      if head.None? || head.value.1 > |t| then None
      else
        var rest := ParseBody(t[head.value.1..]);
        if rest.None? then None else Some(([head.value.0] + rest.value.0, rest.value.1))
  }

  lemma HexPlaces(u: Unit)
    ensures u == (u / 4096) * 4096 + (u / 256 % 16) * 256 + (u / 16 % 16) * 16 + u % 16
  {
    var n: nat := u;
    assert n / 16 / 16 == n / 256 && n / 256 / 16 == n / 4096;
    assert n / 16 == (n / 256) * 16 + n / 16 % 16;
    assert n / 256 == (n / 4096) * 16 + n / 256 % 16;
  }

  lemma ParseHexUndoes(u: Unit, r: Text)
    ensures ParseUnit([BACKSLASH, 117] + Hex4(u) + r) == Some((u, 6))
  {
    var t := [BACKSLASH, 117] + Hex4(u) + r;
    assert t[2] == HexDigit(u / 4096) && t[3] == HexDigit(u / 256 % 16);
    assert t[4] == HexDigit(u / 16 % 16) && t[5] == HexDigit(u % 16);
    HexPlaces(u);
  }

  lemma ParseUnitUndoes(u: Unit, r: Text)
    ensures EscapeUnit(u) != [] && EscapeUnit(u)[0] != QUOTE
    ensures ParseUnit(EscapeUnit(u) + r) == Some((u, |EscapeUnit(u)|))
    ensures (EscapeUnit(u) + r)[|EscapeUnit(u)|..] == r
  {
    if ShortEscape(u).None? && (u < 32 || IsHigh(u) || IsLow(u)) {
      ParseHexUndoes(u, r);
    }
  }

  lemma ParseEscaped(u: Unit, tail: Text, s: Text, r: Text)
    requires ParseBody(tail) == Some((s, r))
    ensures ParseBody(EscapeUnit(u) + tail) == Some(([u] + s, r))
  {
    ParseUnitUndoes(u, tail);
  }

  lemma Assoc<T>(a: seq<T>, b: seq<T>, c: seq<T>)
    ensures (a + b) + c == a + (b + c)
  {
  }

  /** Quoting can be undone, whatever follows the closing quote. */
  lemma {:induction false} ParseUndoesEscape(s: Text, r: Text)
    ensures ParseBody(Escape(s) + ([QUOTE] + r)) == Some((s, r))
    decreases |s|
  {
    var close := [QUOTE] + r;
    if s == [] {
      assert Escape(s) + close == close;
    } else if |s| > 1 && IsHigh(s[0]) && IsLow(s[1]) {
      ParseUndoesEscape(s[2..], r);
      ParseRawPair(s[0], s[1], Escape(s[2..]) + close, s[2..], r);
      assert s[..2] == [s[0], s[1]];
      Assoc(s[..2], Escape(s[2..]), close);
      assert s == [s[0], s[1]] + s[2..];
    } else {
      ParseUndoesEscape(s[1..], r);
      ParseEscaped(s[0], Escape(s[1..]) + close, s[1..], r);
      Assoc(EscapeUnit(s[0]), Escape(s[1..]), close);
      assert s == [s[0]] + s[1..];
    }
  }

  lemma ParseRawPair(a: Unit, b: Unit, tail: Text, s: Text, r: Text)
    requires IsHigh(a) && IsLow(b) && ParseBody(tail) == Some((s, r))
    ensures ParseBody([a, b] + tail) == Some(([a, b] + s, r))
  {
    var t := [b] + tail;
    assert t[1..] == tail;
    var t' := [a, b] + tail;
    assert t'[1..] == t;
    assert [a] + ([b] + s) == [a, b] + s;
  }

  /** Two characters wherever the reader knows such an escape, six only for other control units and surrogates. */
  lemma EscapesShortest(u: Unit)
    ensures (exists c :: ShortUnescape(c) == Some(u)) <==> |EscapeUnit(u)| == 2
    ensures |EscapeUnit(u)| == 6 <==> !(exists c :: ShortUnescape(c) == Some(u)) && (u < 0x20 || IsHigh(u) || IsLow(u))
    ensures |EscapeUnit(u)| in {1, 2, 6} && (|EscapeUnit(u)| == 1 ==> EscapeUnit(u) == [u])
  {
    if ShortEscape(u).Some? {
      assert ShortUnescape(ShortEscape(u).value) == Some(u);
    }
  }

  /** No control unit, so no newline either. */
  predicate NoControls(t: Text) {
    forall i :: 0 <= i < |t| ==> t[i] >= 0x20
  }

  lemma {:induction false} EscapeHasNoControls(s: Text)
    ensures NoControls(Escape(s))
    decreases |s|
  {
    if s != [] {
      if |s| > 1 && IsHigh(s[0]) && IsLow(s[1]) {
        EscapeHasNoControls(s[2..]);
      } else {
        EscapeHasNoControls(s[1..]);
        assert NoControls(EscapeUnit(s[0]));
      }
    }
  }

  // ----- UTF-8 ------------------------------------------------------------------------------

  /** Every surrogate is half of a pair. */
  predicate WellFormed(t: Text)
    decreases |t|
  {
    if t == [] then true
    else if IsHigh(t[0]) then |t| > 1 && IsLow(t[1]) && WellFormed(t[2..])
    else !IsLow(t[0]) && WellFormed(t[1..])
  }

  function CodePoint(high: Unit, low: Unit): nat
    requires IsHigh(high) && IsLow(low)
  {
    0x10000 + (high - 0xD800) * 0x400 + (low - 0xDC00)
  }

  function Utf8Pair(p: nat): seq<Byte>
    requires 0x10000 <= p < 0x110000
  {
    [0xF0 + p / 0x40000, 0x80 + p / 0x1000 % 64, 0x80 + p / 64 % 64, 0x80 + p % 64]
  }

  /** A lone surrogate becomes U+FFFD. */
  function Utf8Unit(u: Unit): seq<Byte> {
    if IsHigh(u) || IsLow(u) then [0xEF, 0xBF, 0xBD]
    else if u < 0x80 then [u]
    else if u < 0x800 then [0xC0 + u / 64, 0x80 + u % 64]
    else [0xE0 + u / 0x1000, 0x80 + u / 64 % 64, 0x80 + u % 64]
  }

  /** What Node writes for a string. */
  function Utf8(t: Text): seq<Byte>
    decreases |t|
  {
    if t == [] then []
    else if |t| > 1 && IsHigh(t[0]) && IsLow(t[1]) then Utf8Pair(CodePoint(t[0], t[1])) + Utf8(t[2..])
    else Utf8Unit(t[0]) + Utf8(t[1..])
  }

  lemma PairDigits(p: nat)
    ensures p == 0x40000 * (p / 0x40000) + 0x1000 * (p / 0x1000 % 64) + 64 * (p / 64 % 64) + p % 64
  {
    assert p / 0x1000 == 64 * (p / 0x40000) + p / 0x1000 % 64;
    assert p / 64 == 64 * (p / 0x1000) + p / 64 % 64;
  }

  predicate IsTail(b: Byte) { 0x80 <= b < 0xC0 }

  function Bits(b: Byte, mark: nat): nat
    requires mark <= b
  {
    b - mark
  }

  /** The first code point and the number of bytes it takes (section 3 of RFC 3629). */
  function ReadCodePoint(b: seq<Byte>): Option<(nat, nat)>
    requires b != []
  {
    if b[0] < 0x80 then Some((b[0], 1))
    else if 0xC0 <= b[0] < 0xE0 && |b| > 1 && IsTail(b[1]) then
      Some((Bits(b[0], 0xC0) * 64 + Bits(b[1], 0x80), 2))
    else if 0xE0 <= b[0] < 0xF0 && |b| > 2 && IsTail(b[1]) && IsTail(b[2]) then
      Some((Bits(b[0], 0xE0) * 0x1000 + Bits(b[1], 0x80) * 64 + Bits(b[2], 0x80), 3))
    else if 0xF0 <= b[0] < 0xF8 && |b| > 3 && IsTail(b[1]) && IsTail(b[2]) && IsTail(b[3]) then
      Some((Bits(b[0], 0xF0) * 0x40000 + Bits(b[1], 0x80) * 0x1000 + Bits(b[2], 0x80) * 64 + Bits(b[3], 0x80), 4))
    else None
  }

  function UnitsOf(p: nat): Option<Text> {
    if p < 0x10000 then Some([p])
    else if p < 0x110000 then Some([0xD800 + (p - 0x10000) / 0x400, 0xDC00 + (p - 0x10000) % 0x400])
    else None
  }

  function ReadUtf8(b: seq<Byte>): Option<Text>
    decreases |b|
  {
    if b == [] then Some([])
    else
      var first := ReadCodePoint(b);
      if first.None? || first.value.1 > |b| || first.value.1 == 0 || UnitsOf(first.value.0).None? then None
      else
        var rest := ReadUtf8(b[first.value.1..]);
        if rest.None? then None else Some(UnitsOf(first.value.0).value + rest.value)
  }

  lemma ReadsUnit(u: Unit, r: seq<Byte>)
    requires !IsHigh(u) && !IsLow(u)
    ensures ReadCodePoint(Utf8Unit(u) + r) == Some((u, |Utf8Unit(u)|)) && (Utf8Unit(u) + r)[|Utf8Unit(u)|..] == r
  {
    var b := Utf8Unit(u) + r;
    assert forall i :: 0 <= i < |Utf8Unit(u)| ==> b[i] == Utf8Unit(u)[i];
    var n: nat := u;
    assert n / 64 / 64 == n / 0x1000;
  }

  lemma ReadsPair(p: nat, r: seq<Byte>)
    requires 0x10000 <= p < 0x110000
    ensures ReadCodePoint(Utf8Pair(p) + r) == Some((p, 4)) && (Utf8Pair(p) + r)[4..] == r
  {
    var b := Utf8Pair(p) + r;
    assert b[0] == 0xF0 + p / 0x40000 && b[1] == 0x80 + p / 0x1000 % 64 && b[2] == 0x80 + p / 64 % 64 && b[3] == 0x80 + p % 64;
    PairDigits(p);
  }

  lemma UnitThenText(u: Unit, b: seq<Byte>, s: Text)
    requires !IsHigh(u) && !IsLow(u) && ReadUtf8(b) == Some(s)
    ensures ReadUtf8(Utf8Unit(u) + b) == Some([u] + s)
  {
    ReadsUnit(u, b);
  }

  lemma PairThenText(high: Unit, low: Unit, b: seq<Byte>, s: Text)
    requires IsHigh(high) && IsLow(low) && ReadUtf8(b) == Some(s)
    ensures ReadUtf8(Utf8Pair(CodePoint(high, low)) + b) == Some([high, low] + s)
  {
    ReadsPair(CodePoint(high, low), b);
    assert UnitsOf(CodePoint(high, low)) == Some([high, low]);
  }

  const REPLACEMENT: Unit := 0xFFFD

  /** The text with every lone surrogate replaced. */
  function Repaired(t: Text): Text
    decreases |t|
  {
    if t == [] then []
    else if |t| > 1 && IsHigh(t[0]) && IsLow(t[1]) then t[..2] + Repaired(t[2..])
    else [if IsHigh(t[0]) || IsLow(t[0]) then REPLACEMENT else t[0]] + Repaired(t[1..])
  }

  lemma {:induction false} WellFormedIsRepaired(t: Text)
    requires WellFormed(t)
    ensures Repaired(t) == t
    decreases |t|
  {
    if t == [] {
    } else if IsHigh(t[0]) {
      WellFormedIsRepaired(t[2..]);
      assert t[..2] + t[2..] == t;
    } else {
      WellFormedIsRepaired(t[1..]);
      assert [t[0]] + t[1..] == t;
    }
  }

  lemma LoneUnitThenText(u: Unit, b: seq<Byte>, s: Text)
    requires ReadUtf8(b) == Some(s)
    ensures ReadUtf8(Utf8Unit(u) + b) == Some([if IsHigh(u) || IsLow(u) then REPLACEMENT else u] + s)
  {
    UnitThenText(if IsHigh(u) || IsLow(u) then REPLACEMENT else u, b, s);
  }

  /** The bytes of any text read back as that text, with its lone surrogates replaced. */
  lemma {:induction false} Utf8ReadsBackRepaired(t: Text)
    ensures ReadUtf8(Utf8(t)) == Some(Repaired(t))
    decreases |t|
  {
    if t == [] {
    } else if |t| > 1 && IsHigh(t[0]) && IsLow(t[1]) {
      Utf8ReadsBackRepaired(t[2..]);
      PairThenText(t[0], t[1], Utf8(t[2..]), Repaired(t[2..]));
      assert t[..2] == [t[0], t[1]];
    } else {
      Utf8ReadsBackRepaired(t[1..]);
      LoneUnitThenText(t[0], Utf8(t[1..]), Repaired(t[1..]));
    }
  }

  lemma Utf8ReadsBack(t: Text)
    requires WellFormed(t)
    ensures ReadUtf8(Utf8(t)) == Some(t)
  {
    Utf8ReadsBackRepaired(t);
    WellFormedIsRepaired(t);
  }

  lemma {:induction false} WellFormedConcat(a: Text, b: Text)
    requires WellFormed(a) && WellFormed(b)
    ensures WellFormed(a + b)
    decreases |a|
  {
    if a == [] {
      assert a + b == b;
    } else if IsHigh(a[0]) {
      WellFormedConcat(a[2..], b);
      assert (a + b)[2..] == a[2..] + b;
    } else {
      WellFormedConcat(a[1..], b);
      assert (a + b)[1..] == a[1..] + b;
    }
  }

  lemma {:induction false} AsciiWellFormed(t: Text)
    requires forall i :: 0 <= i < |t| ==> t[i] < 0x80
    ensures WellFormed(t) && |Utf8(t)| == |t| && (forall i :: 0 <= i < |t| ==> Utf8(t)[i] == t[i])
  {
    if t != [] {
      AsciiWellFormed(t[1..]);
    }
  }

  /** `JSON.stringify` escapes lone surrogates, so what it prints is well-formed. */
  lemma {:induction false} EscapeWellFormed(s: Text)
    ensures WellFormed(Escape(s))
    decreases |s|
  {
    if s != [] {
      if |s| > 1 && IsHigh(s[0]) && IsLow(s[1]) {
        EscapeWellFormed(s[2..]);
        assert (s[..2] + Escape(s[2..]))[2..] == Escape(s[2..]);
      } else {
        EscapeWellFormed(s[1..]);
        var e := EscapeUnit(s[0]);
        if |e| > 1 {
          AsciiWellFormed(e);
        } else {
          assert WellFormed([s[0]]);
        }
        WellFormedConcat(e, Escape(s[1..]));
      }
    }
  }
}
