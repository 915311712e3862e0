/**
 * The encoder and the decoder together: `unescapeBuffer` undoes `qsEscape`
 * down to the UTF-8 bytes of the text, whether or not it decodes `+`.
 */
module RoundTrip {
  import opened Wrappers
  import opened JsText
  import opened PercentDecode
  import opened PercentEncode

  /** `unhexTable` reads back the digits `hexTable` writes. */
  lemma UnhexUpperHexDigit(d: int)
    requires 0 <= d < 16
    ensures Unhex(UpperHexDigit(d)) == d
  {
  }

  /** `hexTable[b]` decodes to the byte `b`, whatever follows it. */
  lemma UnescapeHexTable(b: Byte, t: JsString, decodeSpaces: bool)
    ensures Unescape(HexTable(b) + t, decodeSpaces) == [b] + Unescape(t, decodeSpaces)
  {
    var h1, h2 := UpperHexDigit(b / 16), UpperHexDigit(b % 16);
    UnhexUpperHexDigit(b / 16);
    UnhexUpperHexDigit(b % 16);
    assert HexTable(b) + t == [Percent, h1, h2] + t;
    UnescapeConsTriplet(h1, h2, t, decodeSpaces);
    assert 16 * (b / 16) + b % 16 == b;
  }

  /** The `hexTable` entries of a run of bytes decode to those bytes. */
  lemma {:induction false} UnescapePercentBytes(bs: seq<Byte>, t: JsString, decodeSpaces: bool)
    ensures Unescape(PercentBytes(bs) + t, decodeSpaces) == bs + Unescape(t, decodeSpaces)
  {
    if bs != [] {
      var rest := PercentBytes(bs[1..]) + t;
      assert PercentBytes(bs) + t == HexTable(bs[0]) + rest;
      UnescapeHexTable(bs[0], rest, decodeSpaces);
      UnescapePercentBytes(bs[1..], t, decodeSpaces);
      assert [bs[0]] + (bs[1..] + Unescape(t, decodeSpaces)) == bs + Unescape(t, decodeSpaces);
    } else {
      assert PercentBytes(bs) + t == t;
    }
  }

  /** One token of the encoding decodes to the UTF-8 bytes of its code point. */
  lemma UnescapeToken(s: JsString, i: nat, text: JsString, cp: int, width: nat, rest: JsString, decodeSpaces: bool)
    requires i < |s| && EscapeToken(s, i) == Some((text, width)) && CodePointAt(s, i) == Some((cp, width))
    ensures Unescape(text + rest, decodeSpaces) == Utf8(cp) + Unescape(rest, decodeSpaces)
  {
    if cp < 0x80 && NoEscape(cp) {
      UnescapeConsUnit(cp, rest, decodeSpaces);
    } else {
      UnescapePercentBytes(Utf8(cp), rest, decodeSpaces);
    }
  }

  /** The UTF-8 bytes of `s[i..]` are those of its first code point, then those of the rest. */
  lemma Utf8FromNext(s: JsString, i: nat, cp: int, width: nat)
    requires i < |s| && CodePointAt(s, i) == Some((cp, width))
    ensures i + width <= |s| && Utf8From(s, i) == Utf8(cp) + Utf8From(s, i + width)
  {
  }

  /** The encoding of `s[i..]` decodes to the UTF-8 bytes of `s[i..]`. */
  lemma {:induction false} UnescapeEscapeFrom(s: JsString, i: nat, decodeSpaces: bool)
    requires i <= |s| && EscapeFrom(s, i).Some?
    ensures Unescape(EscapeFrom(s, i).value, decodeSpaces) == Utf8From(s, i)
    decreases |s| - i
  {
    if i < |s| {
      var text, cp, width := EscapeFromCons(s, i);
      var rest := EscapeFrom(s, i + width).value;
      UnescapeEscapeFrom(s, i + width, decodeSpaces);
      UnescapeToken(s, i, text, cp, width, rest, decodeSpaces);
      Utf8FromNext(s, i, cp, width);
      calc {
        Unescape(EscapeFrom(s, i).value, decodeSpaces);
        Unescape(text + rest, decodeSpaces);
        Utf8(cp) + Unescape(rest, decodeSpaces);
        Utf8(cp) + Utf8From(s, i + width);
        Utf8From(s, i);
      }
    } else {
      assert EscapeFrom(s, i).value == [];
    }
  }

  /**
   * Whenever `qsEscape(s)` returns, `unescapeBuffer` of its result is the
   * UTF-8 encoding of `s`, with or without `decodeSpaces`.
   */
  lemma EscapeThenUnescape(s: JsString, decodeSpaces: bool)
    requires Escape(s).Ok?
    ensures Unescape(Escape(s).value, decodeSpaces) == Utf8From(s, 0)
  {
    UnescapeEscapeFrom(s, 0, decodeSpaces);
  }
}
