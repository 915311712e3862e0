/**
 * The query-string encoder `qsEscape` (src/index.js:182-240) and the tables
 * it reads: `hexTable` (src/index.js:160-162), the `%XX` spelling of every
 * byte, and `noEscape` (src/index.js:170-179), the ASCII characters left as
 * they are. Every other code unit is written as the percent-encoded UTF-8
 * bytes of the code point it starts; a surrogate swallows the unit after it,
 * and one at the very end is a `URIError`.
 */
module PercentEncode {
  import opened Wrappers
  import opened JsText

  /** `d.toString(16)` for one digit: `0-9`, then lower-case `a-f`. */
  function LowerHexDigit(d: int): (c: CodeUnit)
    requires 0 <= d < 16
  {
    if d < 10 then 48 + d else 87 + d
  }

  /** `i.toString(16)` for a byte value: one digit below 16, two from 16. */
  function LowerHex(i: int): (s: JsString)
    requires 0 <= i < 0x100
    ensures |s| == if i < 16 then 1 else 2
  {
    if i < 16 then [LowerHexDigit(i)] else [LowerHexDigit(i / 16), LowerHexDigit(i % 16)]
  }

  /** `toUpperCase()` on ASCII text: `a-z` become `A-Z`, nothing else moves. */
  function ToUpperAscii(s: JsString): (r: JsString)
    ensures |r| == |s|
  {
    seq(|s|, k requires 0 <= k < |s| => if 97 <= s[k] <= 122 then s[k] - 32 else s[k])
  }

  /** The source's spelling of `hexTable[i]`: `'%' + ((i < 16 ? '0' : '') + i.toString(16)).toUpperCase()`. */
  function HexTableEntry(i: int): (s: JsString)
    requires 0 <= i < 0x100
  {
    [Percent] + ToUpperAscii((if i < 16 then [48] else []) + LowerHex(i))
  }

  /** The upper-case hexadecimal digit for `0 <= d < 16`. */
  function UpperHexDigit(d: int): (c: CodeUnit)
    requires 0 <= d < 16
    ensures IsHexDigit(c) && !(97 <= c <= 102)
  {
    if d < 10 then 48 + d else 55 + d
  }

  /** `hexTable[i]`: `%` and the two upper-case hexadecimal digits of `i`. */
  function HexTable(i: int): (s: JsString)
    requires 0 <= i < 0x100
  {
    [Percent, UpperHexDigit(i / 16), UpperHexDigit(i % 16)]
  }

  /** The source's spelling pads to two digits and upper-cases them. */
  lemma HexTableSpelling(i: int)
    requires 0 <= i < 0x100
    ensures HexTableEntry(i) == HexTable(i)
  {
    var padded := (if i < 16 then [48] else []) + LowerHex(i);
    assert |padded| == 2;
    assert padded[0] == LowerHexDigit(i / 16);
    assert padded[1] == LowerHexDigit(i % 16);
  }

  /** The loop that fills `hexTable`, one spelled-out entry per byte value. */
  method BuildHexTable() returns (table: seq<JsString>)
    ensures |table| == 0x100
    ensures forall i :: 0 <= i < 0x100 ==> table[i] == HexTable(i)
  {
    table := [];
    var i := 0;
    while i < 0x100
      invariant 0 <= i <= 0x100 && |table| == i
      invariant forall k :: 0 <= k < i ==> table[k] == HexTable(k)
    {
      HexTableSpelling(i);
      table := table + [HexTableEntry(i)];
      i := i + 1;
    }
  }

  /**
   * `noEscape[c] === 1`: ASCII letters and digits and `! ' ( ) * - . _ ~`.
   * The table has 128 entries, so a unit of 128 or more is never in it.
   */
  predicate NoEscape(c: int) {
    || 65 <= c <= 90 || 97 <= c <= 122 || 48 <= c <= 57
    || c == 33 || c == 39 || c == 40 || c == 41 || c == 42
    || c == 45 || c == 46 || c == 95 || c == 126
  }

  /** The `noEscape` array, one row of sixteen entries per line. */
  const NoEscapeTable: seq<int> :=
      [0, 0, 0, 0, 0, 0, 0, 0, 0, 0, 0, 0, 0, 0, 0, 0]  // 0 - 15
    + [0, 0, 0, 0, 0, 0, 0, 0, 0, 0, 0, 0, 0, 0, 0, 0]  // 16 - 31
    + [0, 1, 0, 0, 0, 0, 0, 1, 1, 1, 1, 0, 0, 1, 1, 0]  // 32 - 47
    + [1, 1, 1, 1, 1, 1, 1, 1, 1, 1, 0, 0, 0, 0, 0, 0]  // 48 - 63
    + [0, 1, 1, 1, 1, 1, 1, 1, 1, 1, 1, 1, 1, 1, 1, 1]  // 64 - 79
    + [1, 1, 1, 1, 1, 1, 1, 1, 1, 1, 1, 0, 0, 0, 0, 1]  // 80 - 95
    + [0, 1, 1, 1, 1, 1, 1, 1, 1, 1, 1, 1, 1, 1, 1, 1]  // 96 - 111
    + [1, 1, 1, 1, 1, 1, 1, 1, 1, 1, 1, 0, 0, 0, 1, 0]  // 112 - 127

  /** Control characters: none is kept. */
  lemma NoEscapeTableControl(c: int)
    requires 0 <= c < 0x20
    ensures NoEscapeTable[c] == 1 <==> NoEscape(c)
  {
  }

  /** Punctuation and digits. */
  lemma NoEscapeTablePunctuation(c: int)
    requires 0x20 <= c < 0x40
    ensures NoEscapeTable[c] == 1 <==> NoEscape(c)
  {
  }

  /** `@`, the upper-case letters and `[ \ ] ^ _`. */
  lemma NoEscapeTableUpper(c: int)
    requires 0x40 <= c < 0x60
    ensures NoEscapeTable[c] == 1 <==> NoEscape(c)
  {
  }

  /** The lower-case letters, `` ` `` and `{ | } ~` and DEL. */
  lemma NoEscapeTableLower(c: int)
    requires 0x60 <= c < 0x80
    ensures NoEscapeTable[c] == 1 <==> NoEscape(c)
  {
  }

  /** `NoEscape` reads the `noEscape` array: the two agree on all 128 entries. */
  lemma NoEscapeTableAgrees(c: int)
    requires 0 <= c < 0x80
    ensures |NoEscapeTable| == 0x80
    ensures NoEscapeTable[c] == 1 <==> NoEscape(c)
  {
    if c < 0x20 {
      NoEscapeTableControl(c);
    } else if c < 0x40 {
      NoEscapeTablePunctuation(c);
    } else if c < 0x60 {
      NoEscapeTableUpper(c);
    } else {
      NoEscapeTableLower(c);
    }
  }

  /**
   * The code point read at `s[i]` as `qsEscape` reads it, and how many units
   * it spans. A unit outside the surrogate range is its own code point. A
   * surrogate of either kind combines its low ten bits with the low ten bits
   * of whatever unit follows; one at the end of the string has no partner.
   */
  function CodePointAt(s: JsString, i: nat): (r: Option<(int, nat)>)
    requires i < |s|
    ensures r.Some? ==> 0 <= r.value.0 < 0x11_0000 && (r.value.0 < 0x1_0000 <==> r.value.1 == 1)
    ensures r.Some? ==> 1 <= r.value.1 <= |s| - i && !IsSurrogate(r.value.0)
    ensures r.None? <==> IsSurrogate(s[i]) && i + 1 == |s|
    ensures !IsSurrogate(s[i]) ==> r == Some((s[i] as int, 1))
    ensures IsSurrogate(s[i]) && i + 1 < |s| ==>
      && r.Some? && r.value.1 == 2
      && (r.value.0 - 0x1_0000) / 0x400 == s[i] % 0x400
      && (r.value.0 - 0x1_0000) % 0x400 == s[i + 1] % 0x400
  {
    if !IsSurrogate(s[i]) then Some((s[i], 1))
    else if i + 1 == |s| then None
    else Some((0x1_0000 + (s[i] as int % 0x400) * 0x400 + s[i + 1] as int % 0x400, 2))
  }

  /**
   * The UTF-8 encoding of a code point (section 3 of RFC 3629): one byte
   * below U+0080, then two, three or four, each after the first carrying
   * six bits under the `10` prefix.
   */
  function Utf8(cp: int): (bs: seq<Byte>)
    requires 0 <= cp < 0x11_0000
    ensures 1 <= |bs| <= 4
  {
    if cp < 0x80 then [cp]
    else if cp < 0x800 then [0xC0 + cp / 0x40, 0x80 + cp % 0x40]
    else if cp < 0x1_0000 then [0xE0 + cp / 0x1000, 0x80 + cp / 0x40 % 0x40, 0x80 + cp % 0x40]
    else [0xF0 + cp / 0x4_0000, 0x80 + cp / 0x1000 % 0x40, 0x80 + cp / 0x40 % 0x40, 0x80 + cp % 0x40]
  }

  /** `hexTable[b]` for each byte in turn. */
  function PercentBytes(bs: seq<Byte>): (s: JsString)
    ensures |s| == 3 * |bs|
  {
    if bs == [] then [] else HexTable(bs[0]) + PercentBytes(bs[1..])
  }

  /**
   * What `qsEscape` makes of the code point at `s[i]`, and how many units
   * it consumed: a `noEscape` character is kept, and every other code point
   * becomes the `hexTable` entries of its UTF-8 bytes. `None` is the
   * `URIError` of a surrogate with nothing after it.
   */
  function EscapeToken(s: JsString, i: nat): (r: Option<(JsString, nat)>)
    requires i < |s|
    ensures r.Some? ==> 1 <= r.value.1 <= |s| - i
  {
    var p := CodePointAt(s, i);
    if p.None? then None
    else
      var (cp, width) := p.value;
      if cp < 0x80 && NoEscape(cp) then Some(([cp], width))
      else Some((PercentBytes(Utf8(cp)), width))
  }

  /** `PercentBytes` of one to four bytes, spelled out. */
  lemma PercentBytes1(b0: Byte)
    ensures PercentBytes([b0]) == HexTable(b0)
  {
    assert [b0][1..] == [];
  }

  lemma PercentBytes2(b0: Byte, b1: Byte)
    ensures PercentBytes([b0, b1]) == HexTable(b0) + HexTable(b1)
  {
    assert [b0, b1][1..] == [b1];
    PercentBytes1(b1);
  }

  lemma PercentBytes3(b0: Byte, b1: Byte, b2: Byte)
    ensures PercentBytes([b0, b1, b2]) == HexTable(b0) + HexTable(b1) + HexTable(b2)
  {
    assert [b0, b1, b2][1..] == [b1, b2];
    PercentBytes2(b1, b2);
  }

  lemma PercentBytes4(b0: Byte, b1: Byte, b2: Byte, b3: Byte)
    ensures PercentBytes([b0, b1, b2, b3]) == HexTable(b0) + HexTable(b1) + HexTable(b2) + HexTable(b3)
  {
    assert [b0, b1, b2, b3][1..] == [b1, b2, b3];
    PercentBytes3(b1, b2, b3);
  }

  /** `Some(p + t)` for `Some(t)`; a failure stays a failure. */
  function Prepend(p: JsString, r: Option<JsString>): Option<JsString> {
    if r.Some? then Some(p + r.value) else None
  }

  /** The encoding of `s[i..]`, one code point after another. */
  function EscapeFrom(s: JsString, i: nat): (r: Option<JsString>)
    requires i <= |s|
    decreases |s| - i
  {
    if i == |s| then Some([])
    else
      var t := EscapeToken(s, i);
      if t.None? then None else Prepend(t.value.0, EscapeFrom(s, i + t.value.1))
  }

  /** What `qsEscape(str)` returns for a string, or the error it throws. */
  function Escape(s: JsString): Result<JsString, JsError> {
    var r := EscapeFrom(s, 0);
    if r.Some? then Ok(r.value) else Err(URIError)
  }

  /** `EscapeFrom` reads one token, the units `s[i..j]`, then the rest. */
  lemma EscapeNext(s: JsString, i: nat, j: nat, text: JsString)
    requires i < j <= |s| && EscapeToken(s, i) == Some((text, j - i))
    ensures EscapeFrom(s, i) == Prepend(text, EscapeFrom(s, j))
  {
  }

  /** A successful encoding of `s[i..]` is its first token followed by the encoding of the rest. */
  lemma EscapeFromCons(s: JsString, i: nat) returns (text: JsString, cp: int, width: nat)
    requires i < |s| && EscapeFrom(s, i).Some?
    ensures EscapeToken(s, i) == Some((text, width)) && CodePointAt(s, i) == Some((cp, width)) && i + width <= |s|
    ensures EscapeFrom(s, i + width).Some? && EscapeFrom(s, i).value == text + EscapeFrom(s, i + width).value
  {
    text, width := EscapeToken(s, i).value.0, EscapeToken(s, i).value.1;
    cp := CodePointAt(s, i).value.0;
    EscapeNext(s, i, i + width, text);
  }

  /** `Prepend` twice is `Prepend` of the concatenation. */
  lemma PrependTwice(a: JsString, b: JsString, r: Option<JsString>)
    ensures Prepend(a, Prepend(b, r)) == Prepend(a + b, r)
  {
    if r.Some? {
      assert a + (b + r.value) == (a + b) + r.value;
    }
  }

  /** Before the loop nothing is written and nothing waits. */
  lemma EscapeStart(str: JsString)
    ensures Prepend([] + str[0..0], EscapeFrom(str, 0)) == EscapeFrom(str, 0)
  {
    assert [] + str[0..0] == [];
    if EscapeFrom(str, 0).Some? {
      assert [] + EscapeFrom(str, 0).value == EscapeFrom(str, 0).value;
    }
  }

  /** After the loop the encoding is what was written and the run still waiting. */
  lemma EscapeDone(str: JsString, out: JsString, lastPos: nat, total: Option<JsString>)
    requires lastPos <= |str| && (lastPos == 0 ==> out == [])
    requires Prepend(out + str[lastPos..|str|], EscapeFrom(str, |str|)) == total
    ensures total == Some(out + str[lastPos..])
    ensures lastPos == 0 ==> out + str[lastPos..] == str
    ensures lastPos == |str| ==> out + str[lastPos..] == out
  {
    assert EscapeFrom(str, |str|) == Some([]);
    assert (out + str[lastPos..|str|]) + [] == out + str[lastPos..];
  }

  /** A kept unit joins the run of units waiting to be copied. */
  lemma KeepStep(str: JsString, out: JsString, lastPos: nat, i: nat, next: nat, total: Option<JsString>)
    requires lastPos <= i < |str| && next == i + 1 && str[i] < 0x80 && NoEscape(str[i])
    requires Prepend(out + str[lastPos..i], EscapeFrom(str, i)) == total
    ensures Prepend(out + str[lastPos..next], EscapeFrom(str, next)) == total
  {
    EscapeNext(str, i, next, [str[i]]);
    PrependTwice(out + str[lastPos..i], [str[i]], EscapeFrom(str, next));
    assert (out + str[lastPos..i]) + [str[i]] == out + str[lastPos..next];
  }

  /** An encoded token is appended once the waiting run has been copied. */
  lemma EscapeStep(str: JsString, out: JsString, text: JsString, i: nat, next: nat, total: Option<JsString>)
    requires i < |str| && EscapeToken(str, i) == Some((text, next - i))
    requires Prepend(out, EscapeFrom(str, i)) == total
    ensures next <= |str|
    ensures Prepend((out + text) + str[next..next], EscapeFrom(str, next)) == total
  {
    EscapeNext(str, i, next, text);
    PrependTwice(out, text, EscapeFrom(str, next));
    assert (out + text) + str[next..next] == out + text;
  }

  /**
   * The body of the `qsEscape` loop for a unit that is not kept as it is:
   * its `hexTable` entry when it is ASCII, otherwise the entries for the
   * two, three or four UTF-8 bytes of the code point it starts (the
   * source's shifts and masks, written as division and remainder); a
   * surrogate consumes the unit after it too.
   */
  method EncodeAt(str: JsString, i: nat) returns (r: Option<(JsString, nat)>)
    requires i < |str| && !(str[i] < 0x80 && NoEscape(str[i]))
    ensures r == EscapeToken(str, i)
  {
    var c := str[i];
    if c < 0x80 {
      PercentBytes1(c);
      return Some((HexTable(c), 1));
    }
    if c < 0x800 {
      var b0: Byte, b1: Byte := 0xC0 + c / 0x40, 0x80 + c % 0x40;
      assert Utf8(c) == [b0, b1];
      PercentBytes2(b0, b1);
      return Some((HexTable(b0) + HexTable(b1), 1));
    }
    if c < 0xD800 || c >= 0xE000 {
      var b0: Byte, b1: Byte, b2: Byte := 0xE0 + c / 0x1000, 0x80 + c / 0x40 % 0x40, 0x80 + c % 0x40;
      assert Utf8(c) == [b0, b1, b2];
      PercentBytes3(b0, b1, b2);
      return Some((HexTable(b0) + HexTable(b1) + HexTable(b2), 1));
    }
    if !(i + 1 < |str|) {
      return None;
    }
    var cp := 0x1_0000 + (c as int % 0x400) * 0x400 + str[i + 1] as int % 0x400;
    var b0: Byte, b1: Byte, b2: Byte, b3: Byte := 0xF0 + cp / 0x4_0000, 0x80 + cp / 0x1000 % 0x40, 0x80 + cp / 0x40 % 0x40, 0x80 + cp % 0x40;
    assert Utf8(cp) == [b0, b1, b2, b3];
    PercentBytes4(b0, b1, b2, b3);
    return Some((HexTable(b0) + HexTable(b1) + HexTable(b2) + HexTable(b3), 2));
  }

  /**
   * `qsEscape` as the source writes it, for a string argument: `out`
   * collects the encoded text, `lastPos` marks the start of the run of
   * `noEscape` characters not yet copied, and a string with nothing to
   * encode is returned as it came.
   */
  method QsEscape(str: JsString) returns (r: Result<JsString, JsError>)
    ensures r == Escape(str)
  {
    var out: JsString := [];
    var lastPos := 0;
    var i := 0;
    ghost var total := EscapeFrom(str, 0);
    EscapeStart(str);
    while i < |str|
      invariant 0 <= lastPos <= i <= |str|
      invariant lastPos == 0 ==> out == []
      invariant Prepend(out + str[lastPos..i], EscapeFrom(str, i)) == total
    {
      var c := str[i];
      if c < 0x80 && NoEscape(c) {
        ghost var prev := i;
        i := i + 1;
        KeepStep(str, out, lastPos, prev, i, total);
      } else {
        ghost var out0 := out;
        if lastPos < i {
          out := out + str[lastPos..i];
        } else {
          assert out + str[lastPos..i] == out;
        }
        var token := EncodeAt(str, i);
        if token.None? {
          return Err(URIError);
        }
        var (text, width) := token.value;
        ghost var prev := i;
        i := i + width;
        EscapeStep(str, out, text, prev, i, total);
        out := out + text;
        lastPos := i;
      }
    }
    EscapeDone(str, out, lastPos, total);
    if lastPos == 0 {
      return Ok(str);
    }
    if lastPos < |str| {
      return Ok(out + str[lastPos..]);
    }
    return Ok(out);
  }

  // ---------------------------------------------------------------------
  // Properties of the encoding

  /** A continuation byte, `10xxxxxx`. */
  predicate IsContinuation(b: Byte) {
    0x80 <= b < 0xC0
  }

  /**
   * The code point that a well-formed UTF-8 sequence for one character
   * stands for (sections 3 and 4 of RFC 3629): the lead byte fixes the
   * length, each continuation byte adds six bits, and overlong forms,
   * surrogates and values past U+10FFFF are refused.
   */
  function Utf8Decode(bs: seq<Byte>): (r: Option<int>)
    ensures r.Some? ==> 0 <= r.value < 0x11_0000 && !IsSurrogate(r.value)
  {
    if |bs| == 1 && bs[0] < 0x80 then Some(bs[0] as int)
    else if |bs| == 2 && 0xC0 <= bs[0] < 0xE0 && IsContinuation(bs[1]) then
      var cp: int := (bs[0] as int - 0xC0) * 0x40 + (bs[1] as int - 0x80);
      if cp < 0x80 then None else Some(cp)
    else if |bs| == 3 && 0xE0 <= bs[0] < 0xF0 && IsContinuation(bs[1]) && IsContinuation(bs[2]) then
      var cp: int := (bs[0] as int - 0xE0) * 0x1000 + (bs[1] as int - 0x80) * 0x40 + (bs[2] as int - 0x80);
      if cp < 0x800 || IsSurrogate(cp) then None else Some(cp)
    else if |bs| == 4 && 0xF0 <= bs[0] < 0xF8 && IsContinuation(bs[1]) && IsContinuation(bs[2]) && IsContinuation(bs[3]) then
      var cp: int := (bs[0] as int - 0xF0) * 0x4_0000 + (bs[1] as int - 0x80) * 0x1000 + (bs[2] as int - 0x80) * 0x40 + (bs[3] as int - 0x80);
      if cp < 0x1_0000 || cp >= 0x11_0000 then None else Some(cp)
    else None
  }

  /** Dividing by 64 twice, or three times, is dividing by 4096 or 262144. */
  lemma SixBitGroups(x: nat)
    ensures x / 0x40 / 0x40 == x / 0x1000
    ensures x / 0x40 / 0x40 / 0x40 == x / 0x4_0000
  {
  }

  /** Every scalar value's UTF-8 bytes decode back to it. */
  lemma Utf8RoundTrip(cp: int)
    requires 0 <= cp < 0x11_0000 && !IsSurrogate(cp)
    ensures Utf8Decode(Utf8(cp)) == Some(cp)
  {
    if cp >= 0x80 {
      SixBitGroups(cp);
      var q1 := cp / 0x40;
      var q2 := q1 / 0x40;
      assert cp == q1 * 0x40 + cp % 0x40;
      assert q1 == q2 * 0x40 + q1 % 0x40;
      if cp >= 0x1_0000 {
        assert q2 == q2 / 0x40 * 0x40 + q2 % 0x40;
      }
    }
  }

  /** A well-formed sequence is the encoding of what it decodes to: no other bytes spell that code point. */
  lemma Utf8Unique(bs: seq<Byte>)
    requires Utf8Decode(bs).Some?
    ensures Utf8(Utf8Decode(bs).value) == bs
  {
    var cp := Utf8Decode(bs).value;
    if |bs| == 2 {
      assert cp / 0x40 == bs[0] - 0xC0 && cp % 0x40 == bs[1] - 0x80;
    } else if |bs| == 3 {
      var q1 := (bs[0] as int - 0xE0) * 0x40 + (bs[1] as int - 0x80);
      assert cp / 0x40 == q1 && cp % 0x40 == bs[2] - 0x80;
      assert q1 / 0x40 == bs[0] - 0xE0 && q1 % 0x40 == bs[1] - 0x80;
      SixBitGroups(cp);
    } else if |bs| == 4 {
      var q2 := (bs[0] as int - 0xF0) * 0x40 + (bs[1] as int - 0x80);
      var q1 := q2 * 0x40 + (bs[2] as int - 0x80);
      assert cp / 0x40 == q1 && cp % 0x40 == bs[3] - 0x80;
      assert q1 / 0x40 == q2 && q1 % 0x40 == bs[2] - 0x80;
      assert q2 / 0x40 == bs[0] - 0xF0 && q2 % 0x40 == bs[1] - 0x80;
      SixBitGroups(cp);
    }
  }

  /** A unit that `qsEscape` copies through unchanged. */
  predicate Kept(c: int) {
    c < 0x80 && NoEscape(c)
  }

  /** Each token makes at least as many units as it reads, and only a kept unit makes exactly as many. */
  lemma TokenGrows(s: JsString, i: nat)
    requires i < |s| && EscapeToken(s, i).Some?
    ensures |EscapeToken(s, i).value.0| >= EscapeToken(s, i).value.1
    ensures |EscapeToken(s, i).value.0| == EscapeToken(s, i).value.1 <==> Kept(s[i])
  {
  }

  /**
   * The encoding of `s[i..]` is never shorter than `s[i..]`, and it has the
   * same length exactly when every unit is kept.
   */
  lemma {:induction false} EscapeGrows(s: JsString, i: nat)
    requires i <= |s| && EscapeFrom(s, i).Some?
    ensures |EscapeFrom(s, i).value| >= |s| - i
    ensures |EscapeFrom(s, i).value| == |s| - i <==> forall k :: i <= k < |s| ==> Kept(s[k])
    decreases |s| - i
  {
    if i < |s| {
      var (text, width) := EscapeToken(s, i).value;
      EscapeNext(s, i, i + width, text);
      TokenGrows(s, i);
      EscapeGrows(s, i + width);
      if !Kept(s[i]) {
        assert !(forall k :: i <= k < |s| ==> Kept(s[k]));
      } else {
        assert width == 1;
        assert (forall k :: i <= k < |s| ==> Kept(s[k])) <==> (forall k :: i + 1 <= k < |s| ==> Kept(s[k]));
      }
    }
  }

  /** A string made only of kept units encodes to itself. */
  lemma {:induction false} EscapeKeepsAll(s: JsString, i: nat)
    requires i <= |s| && forall k :: i <= k < |s| ==> Kept(s[k])
    ensures EscapeFrom(s, i) == Some(s[i..])
    decreases |s| - i
  {
    if i < |s| {
      EscapeNext(s, i, i + 1, [s[i]]);
      EscapeKeepsAll(s, i + 1);
      assert [s[i]] + s[i + 1..] == s[i..];
    }
  }

  /**
   * `qsEscape` returns its argument unchanged exactly when every unit of it
   * is in `noEscape`; otherwise the result is strictly longer.
   */
  lemma EscapeIdentity(s: JsString)
    ensures Escape(s) == Ok(s) <==> forall k :: 0 <= k < |s| ==> Kept(s[k])
  {
    if forall k :: 0 <= k < |s| ==> Kept(s[k]) {
      EscapeKeepsAll(s, 0);
      assert s[0..] == s;
    } else if EscapeFrom(s, 0).Some? {
      EscapeGrows(s, 0);
    }
  }

  /** Every unit of `PercentBytes(bs)` is `%` or an upper-case hexadecimal digit. */
  lemma {:induction false} PercentBytesAlphabet(bs: seq<Byte>)
    ensures forall k :: 0 <= k < |PercentBytes(bs)| ==> PercentBytes(bs)[k] == Percent || (Kept(PercentBytes(bs)[k]) && IsHexDigit(PercentBytes(bs)[k]) && !(97 <= PercentBytes(bs)[k] <= 102))
  {
    if bs != [] {
      PercentBytesAlphabet(bs[1..]);
    }
  }

  /** Text made only of `noEscape` characters and `%`. */
  predicate EscapedText(t: JsString) {
    forall k :: 0 <= k < |t| ==> Kept(t[k]) || t[k] == Percent
  }

  /** Two such texts make one. */
  lemma EscapedConcat(a: JsString, b: JsString)
    requires EscapedText(a) && EscapedText(b)
    ensures EscapedText(a + b)
  {
    forall k | 0 <= k < |a + b|
      ensures Kept((a + b)[k]) || (a + b)[k] == Percent
    {
      if k >= |a| {
        assert (a + b)[k] == b[k - |a|];
      }
    }
  }

  /**
   * The output of `qsEscape` holds only `noEscape` characters and `%`, so
   * in particular no `&`, `=` or `+` that `parse` would read as structure.
   */
  lemma {:induction false} EscapeAlphabet(s: JsString, i: nat)
    requires i <= |s| && EscapeFrom(s, i).Some?
    ensures EscapedText(EscapeFrom(s, i).value)
    decreases |s| - i
  {
    if i < |s| {
      var text, cp, width := EscapeFromCons(s, i);
      var rest := EscapeFrom(s, i + width).value;
      EscapeAlphabet(s, i + width);
      TokenAlphabet(s, i, text, cp, width);
      EscapedConcat(text, rest);
    }
  }

  /** One token of the encoding is a `noEscape` character or `%`-escapes. */
  lemma TokenAlphabet(s: JsString, i: nat, text: JsString, cp: int, width: nat)
    requires i < |s| && EscapeToken(s, i) == Some((text, width)) && CodePointAt(s, i) == Some((cp, width))
    ensures EscapedText(text)
  {
    if !(cp < 0x80 && NoEscape(cp)) {
      PercentBytesAlphabet(Utf8(cp));
    }
  }

  /** How many units at the end of `s` are surrogates. */
  function TrailingSurrogates(s: JsString): (n: nat)
    ensures n <= |s|
    ensures forall k :: |s| - n <= k < |s| ==> IsSurrogate(s[k])
    ensures n < |s| ==> !IsSurrogate(s[|s| - n - 1])
  {
    if s == [] || !IsSurrogate(s[|s| - 1]) then 0 else 1 + TrailingSurrogates(s[..|s| - 1])
  }

  /** A code point that is read whole leaves the outcome to the units after it. */
  lemma EscapeSkip(s: JsString, i: nat, width: nat)
    requires i < |s| && i + width <= |s| && width == (if IsSurrogate(s[i]) then 2 else 1)
    ensures EscapeFrom(s, i).None? <==> EscapeFrom(s, i + width).None?
  {
    EscapeNext(s, i, i + width, EscapeToken(s, i).value.0);
  }

  /**
   * Reading from `i` and stepping over whole code points, the encoder ends
   * on a surrogate that is the last unit.
   */
  predicate Stranded(s: JsString, i: nat)
    requires i <= |s|
    decreases |s| - i
  {
    && i < |s|
    && if !IsSurrogate(s[i]) then Stranded(s, i + 1) else i + 1 == |s| || Stranded(s, i + 2)
  }

  /** The encoder fails from `i` exactly when it is stranded there. */
  lemma {:induction false} EscapeFailsStranded(s: JsString, i: nat)
    requires i <= |s|
    ensures EscapeFrom(s, i).None? <==> Stranded(s, i)
    decreases |s| - i
  {
    if i < |s| {
      if !IsSurrogate(s[i]) {
        EscapeSkip(s, i, 1);
        EscapeFailsStranded(s, i + 1);
      } else if i + 1 < |s| {
        EscapeSkip(s, i, 2);
        EscapeFailsStranded(s, i + 2);
      } else {
        EscapeLoneSurrogate(s, i);
      }
    }
  }

  /** A surrogate that is the last unit fails the encoder. */
  lemma EscapeLoneSurrogate(s: JsString, i: nat)
    requires i + 1 == |s| && IsSurrogate(s[i])
    ensures EscapeFrom(s, i).None?
  {
  }

  /**
   * The walk is stranded exactly when it lands on the last unit while that
   * unit is a surrogate. Inside the run of `t` surrogates that ends `s` it
   * steps two units at a time, and it enters the run at its start, since
   * the unit before the run is never a surrogate and so is read on its own
   * or as the partner of the surrogate before it.
   */
  lemma {:induction false} StrandedLanding(s: JsString, i: nat, t: nat)
    requires i <= |s| && t <= |s|
    requires forall k :: |s| - t <= k < |s| ==> IsSurrogate(s[k])
    requires t < |s| ==> !IsSurrogate(s[|s| - t - 1])
    ensures Stranded(s, i) <==> OddLanding(|s| - i, t)
    decreases |s| - i
  {
    if i < |s| {
      var u := |s| - i;
      if !IsSurrogate(s[i]) {
        LandingSkip(u, t, 1);
        StrandedLanding(s, i + 1, t);
      } else if i + 1 < |s| {
        assert i != |s| - t - 1;
        LandingSkip(u, t, 2);
        StrandedLanding(s, i + 2, t);
      } else {
        assert OddLanding(1, t);
      }
    }
  }

  /** Stepping over a unit before the surrogate run, or over a pair, keeps the landing parity. */
  lemma LandingSkip(u: nat, t: nat, width: nat)
    requires width == 1 ==> u > t
    requires width == 2 ==> u >= 2 && u != t + 1
    requires width == 1 || width == 2
    ensures OddLanding(u, t) == OddLanding(u - width, t)
  {
  }

  /**
   * With `u` units left of which the last `t` are surrogates, whether the
   * encoder lands on the last unit: stepping through the surrogate run two
   * at a time from wherever it enters it.
   */
  predicate OddLanding(u: nat, t: nat) {
    if u <= t then u % 2 == 1 else t % 2 == 1
  }

  /**
   * `qsEscape` throws exactly when the string ends in an odd number of
   * surrogates: a surrogate is then the last unit and no surrogate before
   * it claims it as a partner. So a string without surrogates never fails.
   */
  lemma EscapeError(s: JsString)
    ensures Escape(s).Err? <==> TrailingSurrogates(s) % 2 == 1
    ensures Escape(s).Err? ==> |s| > 0 && IsSurrogate(s[|s| - 1])
  {
    var t := TrailingSurrogates(s);
    EscapeFailsStranded(s, 0);
    StrandedLanding(s, 0, t);
    assert Escape(s).Err? <==> EscapeFrom(s, 0).None?;
    assert OddLanding(|s| - 0, t) <==> t % 2 == 1;
    if t % 2 == 1 {
      assert |s| - t <= |s| - 1;
    }
  }

  /**
   * The UTF-8 bytes of the code points of `s[i..]`, read as `qsEscape` reads
   * them; a surrogate at the very end, which has no code point, ends the
   * reading.
   */
  function Utf8From(s: JsString, i: nat): seq<Byte>
    requires i <= |s|
    decreases |s| - i
  {
    if i == |s| then []
    else
      var p := CodePointAt(s, i);
      if p.None? then [] else Utf8(p.value.0) + Utf8From(s, i + p.value.1)
  }
}
