/**
 * The permissive percent-decoder `unescapeBuffer` (src/index.js:85-148):
 * a three-state machine that turns `%XX` into one byte, passes malformed
 * escapes through unchanged and never fails.
 */
module PercentDecode {
  import opened JsText

  /**
   * `unhexTable[c]`: the value of a hexadecimal digit in either case, and -1
   * for every other unit. The table has 256 entries, so a unit of 256 or
   * more reads `undefined`, which the decoder treats like -1.
   */
  function Unhex(c: CodeUnit): (n: int)
    ensures n >= 0 <==> IsHexDigit(c)
    ensures IsHexDigit(c) ==> n < 16
    ensures 48 <= c <= 57 ==> n == c - 48
  {
    if 48 <= c <= 57 then c - 48
    else if 65 <= c <= 70 then c - 55
    else if 97 <= c <= 102 then c - 87
    else -1
  }

  /** The `unhexTable` array, one row of sixteen entries per line. */
  const UnhexTable: seq<int> :=
      [-1, -1, -1, -1, -1, -1, -1, -1, -1, -1, -1, -1, -1, -1, -1, -1]  // 0 - 15
    + [-1, -1, -1, -1, -1, -1, -1, -1, -1, -1, -1, -1, -1, -1, -1, -1]  // 16 - 31
    + [-1, -1, -1, -1, -1, -1, -1, -1, -1, -1, -1, -1, -1, -1, -1, -1]  // 32 - 47
    + [0, 1, 2, 3, 4, 5, 6, 7, 8, 9, -1, -1, -1, -1, -1, -1]  // 48 - 63
    + [-1, 10, 11, 12, 13, 14, 15, -1, -1, -1, -1, -1, -1, -1, -1, -1]  // 64 - 79
    + [-1, -1, -1, -1, -1, -1, -1, -1, -1, -1, -1, -1, -1, -1, -1, -1]  // 80 - 95
    + [-1, 10, 11, 12, 13, 14, 15, -1, -1, -1, -1, -1, -1, -1, -1, -1]  // 96 - 111
    + [-1, -1, -1, -1, -1, -1, -1, -1, -1, -1, -1, -1, -1, -1, -1, -1]  // 112 - 127
    + [-1, -1, -1, -1, -1, -1, -1, -1, -1, -1, -1, -1, -1, -1, -1, -1]  // 128 - 143
    + [-1, -1, -1, -1, -1, -1, -1, -1, -1, -1, -1, -1, -1, -1, -1, -1]  // 144 - 159
    + [-1, -1, -1, -1, -1, -1, -1, -1, -1, -1, -1, -1, -1, -1, -1, -1]  // 160 - 175
    + [-1, -1, -1, -1, -1, -1, -1, -1, -1, -1, -1, -1, -1, -1, -1, -1]  // 176 - 191
    + [-1, -1, -1, -1, -1, -1, -1, -1, -1, -1, -1, -1, -1, -1, -1, -1]  // 192 - 207
    + [-1, -1, -1, -1, -1, -1, -1, -1, -1, -1, -1, -1, -1, -1, -1, -1]  // 208 - 223
    + [-1, -1, -1, -1, -1, -1, -1, -1, -1, -1, -1, -1, -1, -1, -1, -1]  // 224 - 239
    + [-1, -1, -1, -1, -1, -1, -1, -1, -1, -1, -1, -1, -1, -1, -1, -1]  // 240 - 255

  /** Below the digits: no entry is a digit. */
  lemma UnhexTableLow(c: CodeUnit)
    requires c < 0x30
    ensures UnhexTable[c] == Unhex(c)
  {
  }

  /** The digits. */
  lemma UnhexTableDigits(c: CodeUnit)
    requires 0x30 <= c < 0x40
    ensures UnhexTable[c] == Unhex(c)
  {
  }

  /** The upper-case letters. */
  lemma UnhexTableUpper(c: CodeUnit)
    requires 0x40 <= c < 0x60
    ensures UnhexTable[c] == Unhex(c)
  {
  }

  /** The lower-case letters. */
  lemma UnhexTableLower(c: CodeUnit)
    requires 0x60 <= c < 0x80
    ensures UnhexTable[c] == Unhex(c)
  {
  }

  /** The upper half of the table, in two quarters. */
  lemma UnhexTableHigh(c: CodeUnit)
    requires 0x80 <= c < 0xC0
    ensures UnhexTable[c] == Unhex(c)
  {
  }

  lemma UnhexTableTop(c: CodeUnit)
    requires 0xC0 <= c < 0x100
    ensures UnhexTable[c] == Unhex(c)
  {
  }

  /** `Unhex` reads the `unhexTable` array: the two agree on all 256 entries. */
  lemma UnhexTableAgrees(c: CodeUnit)
    requires c < 0x100
    ensures |UnhexTable| == 0x100
    ensures UnhexTable[c] == Unhex(c)
  {
    if c < 0x30 {
      UnhexTableLow(c);
    } else if c < 0x40 {
      UnhexTableDigits(c);
    } else if c < 0x60 {
      UnhexTableUpper(c);
    } else if c < 0x80 {
      UnhexTableLower(c);
    } else if c < 0xC0 {
      UnhexTableHigh(c);
    } else {
      UnhexTableTop(c);
    }
  }

  /**
   * What `unescapeBuffer(s, decodeSpaces)` returns: the bytes `UnescapeFrom`
   * reads from the whole of `s`.
   */
  function Unescape(s: JsString, decodeSpaces: bool): (r: seq<Byte>)
    ensures |r| <= |s|
  {
    UnescapeFrom(s, 0, decodeSpaces)
  }

  /**
   * The escape read at `s[i]` and how many units it spans: `%` with two
   * hexadecimal digits is one byte; `%` followed by a non-digit, or by one
   * digit and a non-digit, is copied with the units it consumed; a trailing
   * `%` or `%h` is copied; `+` is a space when `decodeSpaces` holds; every
   * other unit is stored modulo 256.
   */
  function Token(s: JsString, i: nat, decodeSpaces: bool): (t: (seq<Byte>, nat))
    requires i < |s|
    ensures 1 <= t.1 <= |s| - i && 1 <= |t.0| <= t.1
    ensures t.1 == 1 <==> (s[i] != Percent || i + 1 == |s|)
  {
    if s[i] == Percent then
      if i + 1 == |s| then ([37], 1)
      else if !IsHexDigit(s[i + 1]) then ([37, ToByte(s[i + 1])], 2)
      else if i + 2 == |s| then ([37, ToByte(s[i + 1])], 2)
      else if !IsHexDigit(s[i + 2]) then ([37, ToByte(s[i + 1]), ToByte(s[i + 2])], 3)
      else ([16 * Unhex(s[i + 1]) + Unhex(s[i + 2])], 3)
    else if s[i] == Plus && decodeSpaces then ([32], 1)
    else ([ToByte(s[i])], 1)
  }

  /** The bytes decoded from `s[i..]`, one escape after another. */
  function UnescapeFrom(s: JsString, i: nat, decodeSpaces: bool): (r: seq<Byte>)
    requires i <= |s|
    ensures |r| <= |s| - i
    decreases |s| - i
  {
    if i == |s| then []
    else
      var t := Token(s, i, decodeSpaces);
      t.0 + UnescapeFrom(s, i + t.1, decodeSpaces)
  }

  /** `UnescapeFrom` reads one escape, the units `s[i..j]`, then the rest. */
  lemma UnescapeNext(s: JsString, i: nat, j: nat, bytes: seq<Byte>, decodeSpaces: bool)
    requires i < j <= |s| && Token(s, i, decodeSpaces) == (bytes, j - i)
    ensures UnescapeFrom(s, i, decodeSpaces) == bytes + UnescapeFrom(s, j, decodeSpaces)
  {
  }

  /**
   * `out[k++] = b` for each byte `b` of `bs` in turn: stores them after the
   * first `k` bytes, which stay as they were, and returns the new `k`.
   */
  method Emit(out: array<Byte>, k: nat, bs: seq<Byte>) returns (k': nat)
    requires k + |bs| <= out.Length
    modifies out
    ensures k' == k + |bs|
    ensures out[..k'] == old(out[..k]) + bs
  {
    k' := k;
    while k' < k + |bs|
      invariant k <= k' <= k + |bs|
      invariant out[..k'] == old(out[..k]) + bs[..k' - k]
    {
      out[k'] := bs[k' - k];
      k' := k' + 1;
      assert out[..k'] == out[..k' - 1] + [bs[k' - k - 1]];
      assert bs[..k' - k] == bs[..k' - k - 1] + [bs[k' - k - 1]];
    }
    assert bs[..k' - k] == bs;
  }

  /** What the decoder's variables record after the units before `inIndex`. */
  ghost predicate Pending(s: JsString, inIndex: int, state: int, n: int, hexchar: int)
  {
    && 0 <= state <= 2 && state <= inIndex <= |s|
    && (state >= 1 ==> s[inIndex - state] == Percent)
    && (state == 2 ==> hexchar == s[inIndex - 1] && IsHexDigit(hexchar) && n == Unhex(s[inIndex - 1]))
  }

  /**
   * One pass of the decoding loop's `switch (state)`: reads `s[inIndex]`
   * and returns the bytes of the escape it completes, if any, with the
   * next state.
   */
  method Step(s: JsString, decodeSpaces: bool, inIndex: nat, state: int, n: int, hexchar: int)
    returns (bytes: seq<Byte>, state': int, n': int, hexchar': int)
    requires inIndex < |s| && Pending(s, inIndex, state, n, hexchar)
    ensures Pending(s, inIndex + 1, state', n', hexchar') && |bytes| <= 1 - state' + state
    ensures UnescapeFrom(s, inIndex - state, decodeSpaces) == bytes + UnescapeFrom(s, inIndex + 1 - state', decodeSpaces)
  {
    ghost var from := inIndex - state;
    var c := s[inIndex];
    bytes := [];
    state', n', hexchar' := state, n, hexchar;
    if state == 0 {
      if c == Percent {
        n' := 0;
        state' := 1;
      } else {
        bytes := [if c == Plus && decodeSpaces then 32 else ToByte(c)];
      }
    } else if state == 1 {
      hexchar' := c;
      n' := Unhex(c);
      if !(n' >= 0) {
        bytes := [37, ToByte(c)];
        state' := 0;
      } else {
        state' := 2;
      }
    } else {
      state' := 0;
      var m := Unhex(c);
      if !(m >= 0) {
        bytes := [37, ToByte(hexchar), ToByte(c)];
      } else {
        bytes := [16 * n + m];
      }
    }
    if state' == 0 {
      UnescapeNext(s, from, inIndex + 1, bytes, decodeSpaces);
    } else {
      assert inIndex + 1 - state' == from;
    }
  }

  /** End of input: a pending `%` or `%h` is stored as it was read. */
  method Finish(s: JsString, decodeSpaces: bool, out: array<Byte>, outIndex: nat, inIndex: nat, state: int, n: int, hexchar: int)
    returns (outIndex': nat)
    requires out.Length == |s| && inIndex == |s|
    requires Pending(s, inIndex, state, n, hexchar) && outIndex <= inIndex - state
    modifies out
    ensures outIndex' <= out.Length
    ensures out[..outIndex'] == old(out[..outIndex]) + UnescapeFrom(s, inIndex - state, decodeSpaces)
  {
    outIndex' := outIndex;
    if state > 0 {
      var bytes := if state == 2 then [37, ToByte(hexchar)] else [37];
      assert Token(s, inIndex - state, decodeSpaces) == (bytes, state);
      outIndex' := Emit(out, outIndex, bytes);
    }
  }

  /**
   * The decoder as the source writes it: `out` is a byte buffer as long as
   * the input, `state` is 0 (any unit), 1 (after `%`) or 2 (after `%` and
   * one digit), and the result is the filled prefix of `out`.
   */
  method UnescapeBuffer(s: JsString, decodeSpaces: bool) returns (r: seq<Byte>)
    ensures r == Unescape(s, decodeSpaces)
  {
    var out := new Byte[|s|];
    var state := 0;
    var n, hexchar := 0, 0;
    var outIndex: nat := 0;
    var inIndex: nat := 0;
    ghost var total := Unescape(s, decodeSpaces);
    while inIndex < |s|
      invariant Pending(s, inIndex, state, n, hexchar) && outIndex <= inIndex - state
      invariant out[..outIndex] + UnescapeFrom(s, inIndex - state, decodeSpaces) == total
    {
      var bytes;
      ghost var pending := UnescapeFrom(s, inIndex - state, decodeSpaces);
      bytes, state, n, hexchar := Step(s, decodeSpaces, inIndex, state, n, hexchar);
      ghost var rest := UnescapeFrom(s, inIndex + 1 - state, decodeSpaces);
      ghost var done := out[..outIndex];
      outIndex := Emit(out, outIndex, bytes);
      Advance(out[..outIndex], done, bytes, rest, pending, total);
      inIndex := inIndex + 1;
    }
    outIndex := Finish(s, decodeSpaces, out, outIndex, inIndex, state, n, hexchar);
    r := out[..outIndex];
  }

  /** Output so far followed by what is left to decode keeps its total. */
  lemma Advance(stored: seq<Byte>, done: seq<Byte>, bytes: seq<Byte>, rest: seq<Byte>, pending: seq<Byte>, total: seq<Byte>)
    requires stored == done + bytes && pending == bytes + rest && done + pending == total
    ensures stored + rest == total
  {
  }

  /** An escape read inside `t` is the same when `t` follows other text. */
  lemma TokenShift(p: JsString, t: JsString, j: nat, decodeSpaces: bool)
    requires j < |t|
    ensures Token(p + t, |p| + j, decodeSpaces) == Token(t, j, decodeSpaces)
  {
    var s := p + t;
    assert s[|p| + j] == t[j];
    if j + 1 < |t| {
      assert s[|p| + j + 1] == t[j + 1];
    }
    if j + 2 < |t| {
      assert s[|p| + j + 2] == t[j + 2];
    }
  }

  /** Decoding from a position of `p + t` inside `t` sees only `t`. */
  lemma {:induction false} UnescapeShift(p: JsString, t: JsString, j: nat, decodeSpaces: bool)
    requires j <= |t|
    ensures UnescapeFrom(p + t, |p| + j, decodeSpaces) == UnescapeFrom(t, j, decodeSpaces)
    decreases |t| - j
  {
    if j < |t| {
      var (bytes, k) := Token(t, j, decodeSpaces);
      TokenShift(p, t, j, decodeSpaces);
      UnescapeShift(p, t, j + k, decodeSpaces);
      UnescapeNext(t, j, j + k, bytes, decodeSpaces);
      UnescapeNext(p + t, |p| + j, |p| + j + k, bytes, decodeSpaces);
    }
  }

  /** A unit that starts no escape decodes to itself modulo 256, whatever follows. */
  lemma UnescapeConsUnit(c: CodeUnit, t: JsString, decodeSpaces: bool)
    requires c != Percent && !(c == Plus && decodeSpaces)
    ensures Unescape([c] + t, decodeSpaces) == [ToByte(c)] + Unescape(t, decodeSpaces)
  {
    UnescapeShift([c], t, 0, decodeSpaces);
  }

  /** A complete escape `%hh` decodes to the byte it spells, whatever follows. */
  lemma UnescapeConsTriplet(h1: CodeUnit, h2: CodeUnit, t: JsString, decodeSpaces: bool)
    requires IsHexDigit(h1) && IsHexDigit(h2)
    ensures Unescape([Percent, h1, h2] + t, decodeSpaces) == [16 * Unhex(h1) + Unhex(h2)] + Unescape(t, decodeSpaces)
  {
    UnescapeShift([Percent, h1, h2], t, 0, decodeSpaces);
  }

  /** With spaces decoded, `+` is a space, whatever follows. */
  lemma UnescapeConsPlus(t: JsString)
    ensures Unescape([Plus] + t, true) == [32] + Unescape(t, true)
  {
    UnescapeShift([Plus], t, 0, true);
  }

  /** `%` followed by a unit that is not a hexadecimal digit is copied with that unit, whatever follows. */
  lemma UnescapeConsBadPercent(h: CodeUnit, t: JsString, decodeSpaces: bool)
    requires !IsHexDigit(h)
    ensures Unescape([Percent, h] + t, decodeSpaces) == [37, ToByte(h)] + Unescape(t, decodeSpaces)
  {
    UnescapeShift([Percent, h], t, 0, decodeSpaces);
  }

  /** `%`, one hexadecimal digit and a unit that is not one are copied as they are, whatever follows. */
  lemma UnescapeConsHalfEscape(h: CodeUnit, c: CodeUnit, t: JsString, decodeSpaces: bool)
    requires IsHexDigit(h) && !IsHexDigit(c)
    ensures Unescape([Percent, h, c] + t, decodeSpaces) == [37, ToByte(h), ToByte(c)] + Unescape(t, decodeSpaces)
  {
    UnescapeShift([Percent, h, c], t, 0, decodeSpaces);
  }

  /** The escape at `p[i]` when it does not wait for units past the end of `p`. */
  predicate Settled(p: JsString, i: nat)
    requires i < |p|
  {
    !(p[i] == Percent && (i + 1 == |p| || (i + 2 == |p| && IsHexDigit(p[i + 1]))))
  }

  /** A settled escape of `p` reads the same when more text follows `p`. */
  lemma TokenPrefix(p: JsString, t: JsString, i: nat, decodeSpaces: bool)
    requires i < |p| && Settled(p, i)
    ensures Token(p + t, i, decodeSpaces) == Token(p, i, decodeSpaces)
  {
    var s := p + t;
    assert s[i] == p[i];
    if i + 1 < |p| {
      assert s[i + 1] == p[i + 1];
    }
    if i + 2 < |p| {
      assert s[i + 2] == p[i + 2];
    }
  }

  /** A settled escape of `p` is read, and decoding goes on after it, with or without text after `p`. */
  lemma SettledNext(p: JsString, t: JsString, i: nat, decodeSpaces: bool)
    requires i < |p| && Settled(p, i)
    ensures i + Token(p, i, decodeSpaces).1 <= |p|
    ensures UnescapeFrom(p + t, i, decodeSpaces) == Token(p, i, decodeSpaces).0 + UnescapeFrom(p + t, i + Token(p, i, decodeSpaces).1, decodeSpaces)
    ensures UnescapeFrom(p, i, decodeSpaces) == Token(p, i, decodeSpaces).0 + UnescapeFrom(p, i + Token(p, i, decodeSpaces).1, decodeSpaces)
  {
    TokenPrefix(p, t, i, decodeSpaces);
  }

  /** Decoding `p + [%]` from any position of `p`: what `p` gives, then the `%` copied. */
  lemma {:induction false} TrailingPercentFrom(p: JsString, i: nat, decodeSpaces: bool)
    requires i <= |p|
    ensures UnescapeFrom(p + [Percent], i, decodeSpaces) == UnescapeFrom(p, i, decodeSpaces) + [37]
    decreases |p| - i
  {
    if i == |p| {
      TrailingEnd(p, [Percent], [37], decodeSpaces);
    } else if Settled(p, i) {
      var k := Token(p, i, decodeSpaces).1;
      SettledNext(p, [Percent], i, decodeSpaces);
      TrailingPercentFrom(p, i + k, decodeSpaces);
      SettledTail(p, [Percent], [37], i, decodeSpaces);
    } else {
      TrailingPercentUnsettled(p, i, decodeSpaces);
    }
  }

  /** When `t` adds `tail` after the escape settled at `p[i]`, it adds `tail` from `i` too. */
  lemma SettledTail(p: JsString, t: JsString, tail: seq<Byte>, i: nat, decodeSpaces: bool)
    requires i < |p| && Settled(p, i)
    requires var k := Token(p, i, decodeSpaces).1;
      i + k <= |p| && UnescapeFrom(p + t, i + k, decodeSpaces) == UnescapeFrom(p, i + k, decodeSpaces) + tail
    ensures UnescapeFrom(p + t, i, decodeSpaces) == UnescapeFrom(p, i, decodeSpaces) + tail
  {
    var (bytes, k) := Token(p, i, decodeSpaces);
    SettledNext(p, t, i, decodeSpaces);
    assert bytes + (UnescapeFrom(p, i + k, decodeSpaces) + tail) == (bytes + UnescapeFrom(p, i + k, decodeSpaces)) + tail;
  }

  /** Past the end of `p`, decoding `p + t` reads `t` alone. */
  lemma TrailingEnd(p: JsString, t: JsString, bytes: seq<Byte>, decodeSpaces: bool)
    requires Unescape(t, decodeSpaces) == bytes
    ensures UnescapeFrom(p + t, |p|, decodeSpaces) == UnescapeFrom(p, |p|, decodeSpaces) + bytes
  {
    UnescapeShift(p, t, 0, decodeSpaces);
  }

  /** The case of `TrailingPercentFrom` where `p` ends in an escape still waiting for units. */
  lemma TrailingPercentUnsettled(p: JsString, i: nat, decodeSpaces: bool)
    requires i < |p| && !Settled(p, i)
    ensures UnescapeFrom(p + [Percent], i, decodeSpaces) == UnescapeFrom(p, i, decodeSpaces) + [37]
  {
    var s := p + [Percent];
    var j := |p|;
    assert s[j] == Percent && s[i] == Percent;
    if i + 1 == j {
      UnescapeNext(s, i, j + 1, [37, 37], decodeSpaces);
      UnescapeNext(p, i, j, [37], decodeSpaces);
    } else {
      var g := ToByte(p[i + 1]);
      assert s[i + 1] == p[i + 1];
      UnescapeNext(s, i, j + 1, [37, g, 37], decodeSpaces);
      UnescapeNext(p, i, j, [37, g], decodeSpaces);
    }
  }

  /** A `%` at the end is copied, whatever comes before it. */
  lemma UnescapeTrailingPercent(p: JsString, decodeSpaces: bool)
    ensures Unescape(p + [Percent], decodeSpaces) == Unescape(p, decodeSpaces) + [37]
  {
    TrailingPercentFrom(p, 0, decodeSpaces);
  }

  /** Decoding `p + [%, h]` from any position of `p`: what `p` gives, then `%h` copied. */
  lemma {:induction false} TrailingHalfFrom(p: JsString, h: CodeUnit, i: nat, decodeSpaces: bool)
    requires i <= |p| && IsHexDigit(h)
    ensures UnescapeFrom(p + [Percent, h], i, decodeSpaces) == UnescapeFrom(p, i, decodeSpaces) + [37, ToByte(h)]
    decreases |p| - i
  {
    if i == |p| {
      HalfAlone(h, decodeSpaces);
      TrailingEnd(p, [Percent, h], [37, ToByte(h)], decodeSpaces);
    } else if Settled(p, i) {
      var k := Token(p, i, decodeSpaces).1;
      SettledNext(p, [Percent, h], i, decodeSpaces);
      TrailingHalfFrom(p, h, i + k, decodeSpaces);
      SettledTail(p, [Percent, h], [37, ToByte(h)], i, decodeSpaces);
    } else {
      TrailingHalfUnsettled(p, h, i, decodeSpaces);
    }
  }

  /** `%h` on its own is copied. */
  lemma HalfAlone(h: CodeUnit, decodeSpaces: bool)
    requires IsHexDigit(h)
    ensures Unescape([Percent, h], decodeSpaces) == [37, ToByte(h)]
  {
    UnescapeNext([Percent, h], 0, 2, [37, ToByte(h)], decodeSpaces);
  }

  /** The case of `TrailingHalfFrom` where `p` ends in an escape still waiting for units. */
  lemma TrailingHalfUnsettled(p: JsString, h: CodeUnit, i: nat, decodeSpaces: bool)
    requires i < |p| && !Settled(p, i) && IsHexDigit(h)
    ensures UnescapeFrom(p + [Percent, h], i, decodeSpaces) == UnescapeFrom(p, i, decodeSpaces) + [37, ToByte(h)]
  {
    var s := p + [Percent, h];
    var j := |p|;
    assert s[j] == Percent && s[j + 1] == h && s[i] == Percent;
    UnescapeNext(s, j + 1, j + 2, [ToByte(h)], decodeSpaces);
    if i + 1 == j {
      UnescapeNext(s, i, j + 1, [37, 37], decodeSpaces);
      UnescapeNext(p, i, j, [37], decodeSpaces);
    } else {
      var g := ToByte(p[i + 1]);
      assert s[i + 1] == p[i + 1];
      UnescapeNext(s, i, j + 1, [37, g, 37], decodeSpaces);
      UnescapeNext(p, i, j, [37, g], decodeSpaces);
    }
  }

  /** A `%` and one hexadecimal digit at the end are copied, whatever comes before them. */
  lemma UnescapeTrailingHalf(p: JsString, h: CodeUnit, decodeSpaces: bool)
    requires IsHexDigit(h)
    ensures Unescape(p + [Percent, h], decodeSpaces) == Unescape(p, decodeSpaces) + [37, ToByte(h)]
  {
    TrailingHalfFrom(p, h, 0, decodeSpaces);
  }

  /**
   * Text without `%` (and without `+` when spaces are decoded) whose units
   * are all below 256 comes back unchanged.
   */
  lemma {:induction false} UnescapeVerbatim(s: JsString, decodeSpaces: bool)
    requires forall k :: 0 <= k < |s| ==> s[k] < 0x100 && s[k] != Percent && !(s[k] == Plus && decodeSpaces)
    ensures Unescape(s, decodeSpaces) == s
  {
    if s != [] {
      UnescapeVerbatim(s[1..], decodeSpaces);
      assert s == [s[0]] + s[1..];
      UnescapeConsUnit(s[0], s[1..], decodeSpaces);
    }
  }

  /** Without a `+` in the input, decoding spaces or not makes no difference. */
  lemma {:induction false} UnescapeSpacesIrrelevant(s: JsString, i: nat)
    requires i <= |s| && forall k :: i <= k < |s| ==> s[k] != Plus
    ensures UnescapeFrom(s, i, true) == UnescapeFrom(s, i, false)
    decreases |s| - i
  {
    if i < |s| {
      var (bytes, k) := Token(s, i, false);
      assert Token(s, i, true) == Token(s, i, false);
      UnescapeSpacesIrrelevant(s, i + k);
      UnescapeNext(s, i, i + k, bytes, true);
      UnescapeNext(s, i, i + k, bytes, false);
    }
  }
}
