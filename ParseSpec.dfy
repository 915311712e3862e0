/**
 * What `parse` (src/index.js:306-493) computes, one code unit at a time.
 * The loop's local variables form a `State`; `Step` is one pass of the
 * loop body, `Run` the loop, `Finish` the flush of the last pair after the
 * loop, and `ParseResult` the whole call.
 */
module ParseSpec {
  import opened Wrappers
  import opened JsText
  import opened Decoding

  /** A parsed value: a string, or the list a repeated key collects. */
  datatype Value = Str(s: JsString) | List(items: seq<JsString>)

  /** The arguments of one call, as the loop reads them. */
  datatype Setup = Setup(
    qs: JsString,            // the query string
    sepCodes: JsString,      // `charCodes(sep)`, or `[38]`
    eqCodes: JsString,       // `charCodes(eq)`, or `[61]`
    decoder: Decoder,        // `QueryString.unescape`, or `options.decodeURIComponent`
    platform: Platform)
  {
    /** `decode !== qsUnescape`: a custom decoder is applied to every field. */
    predicate CustomDecode() {
      decoder.Custom?
    }
  }

  /** The local variables of `parse` that change in the loop. */
  datatype State = State(
    obj: map<JsString, Value>,   // the object being built
    keys: seq<JsString>,         // every key stored, in order of first storing
    posIdx: int,                 // where the previous pair started
    lastPos: int,                // start of the text not yet copied into `key` or `value`
    sepIdx: int,                 // units of `sep` matched so far
    eqIdx: int,                  // units of `eq` matched so far; `eqLen` once the key is complete
    key: JsString,
    value: JsString,
    keyEncoded: bool,            // the key must go through the decoder
    valEncoded: bool,            // the value must go through the decoder
    encodeCheck: int,            // progress through a `%XX` escape
    pairs: int)                  // pairs left before `maxKeys` stops the loop; -1 for no limit

  /** The text `%20`, which stands for a `+`. */
  const EncodedSpace: JsString := [37, 50, 48]

  /**
   * `pairs` as `options.maxKeys` sets it: 1000 when it is not a number,
   * the value itself when positive, and -1 (no limit) otherwise.
   */
  function Budget(maxKeys: Option<int>): int {
    match maxKeys
    case None => 1000
    case Some(m) => if m > 0 then m else -1
  }

  /** The state before the first unit. */
  function Start(u: Setup, maxKeys: Option<int>): State {
    State(map[], [], 0, 0, 0, 0, [], [], u.CustomDecode(), u.CustomDecode(), 0, Budget(maxKeys))
  }

  /** `code === codes[idx]`: false when `idx` is past the end, where JavaScript reads `undefined`. */
  predicate Matches(codes: JsString, idx: int, code: CodeUnit) {
    0 <= idx < |codes| && codes[idx] == code
  }

  /** `text += qs.slice(from, to)` when `from < to`. */
  function Append(text: JsString, qs: JsString, from: int, to: int): JsString {
    if from < to then text + Slice(qs, from, to) else text
  }

  /**
   * One unit of the search for an escape `%XX`: the new `encodeCheck`, and
   * whether this unit completed an escape.
   */
  function Sniff(code: CodeUnit, count: int): (int, bool) {
    if code == Percent then (1, false)
    else if count > 0 && IsHexDigit(code) then (count + 1, count + 1 == 3)
    else (0, false)
  }

  /** The escape search for the value, run while `valEncoded` is unset. */
  function SniffValue(st: State, code: CodeUnit): State {
    if st.valEncoded then st
    else
      var (count, found) := Sniff(code, st.encodeCheck);
      st.(encodeCheck := count, valEncoded := found)
  }

  /** The escape search for the key, run while `keyEncoded` is unset. */
  function SniffKey(st: State, code: CodeUnit): State {
    if st.keyEncoded then st
    else
      var (count, found) := Sniff(code, st.encodeCheck);
      st.(encodeCheck := count, keyEncoded := found)
  }

  /** `decodeStr(text, decode)` when the flag is set, the text as it is otherwise. */
  function Decoded(u: Setup, text: JsString, encoded: bool): JsString {
    if encoded then DecodeStr(u.platform, text, u.decoder) else text
  }

  /** The key of a pair that ends at `end`: the text before `end` is its rest unless `eq` was seen. */
  function PendingKey(u: Setup, st: State, end: int): JsString {
    Decoded(u, if st.eqIdx < |u.eqCodes| then Append(st.key, u.qs, st.lastPos, end) else st.key, st.keyEncoded)
  }

  /** The value of a pair that ends at `end`: the text before `end` is its rest once `eq` was seen. */
  function PendingValue(u: Setup, st: State, end: int): JsString {
    Decoded(u, if st.eqIdx < |u.eqCodes| then st.value else Append(st.value, u.qs, st.lastPos, end), st.valEncoded)
  }

  /**
   * Storing a pair inside the loop: a new key gets the value; a repeated
   * key holding a list gets the value appended; one holding a non-empty
   * string gets `[old, value]`; one holding `''`, or deleted, is left alone.
   */
  function StoreInLoop(obj: map<JsString, Value>, keys: seq<JsString>, key: JsString, value: JsString): (map<JsString, Value>, seq<JsString>) {
    if key !in keys then (obj[key := Str(value)], keys + [key])
    else
      var current := if key in obj then obj[key] else Str([]);
      match current
      case List(items) => (obj[key := List(items + [value])], keys)
      case Str(s) => if s != [] then (obj[key := List([s, value])], keys) else (obj, keys)
  }

  /**
   * Storing the pair after the loop: as `StoreInLoop`, except that a string
   * `''` is merged too, and a key that was stored and then deleted makes
   * the source read `.pop` of `undefined`, a `TypeError`.
   */
  function StoreAtEnd(obj: map<JsString, Value>, keys: seq<JsString>, key: JsString, value: JsString): Result<map<JsString, Value>, JsError> {
    if key !in keys then Ok(obj[key := Str(value)])
    else if key !in obj then Err(TypeError)
    else
      match obj[key]
      case List(items) => Ok(obj[key := List(items + [value])])
      case Str(s) => Ok(obj[key := List([s, value])])
  }

  /**
   * The unit at `i` completes `sep`: the pending text goes to the key, or
   * to the value once `eq` was seen; both are decoded if flagged; the pair
   * is flushed (`Flush`); then one unit of the budget is spent,
   * and the state is reset for the next pair unless the budget ran out.
   */
  function EndPair(u: Setup, st: State, i: nat): State {
    var sepLen := |u.sepCodes|;
    var end := i - sepLen + 1;
    var key := PendingKey(u, st, end);
    var value := PendingValue(u, st, end);
    var (obj, keys) := Flush(st, i, sepLen, key, value);
    var pairs := st.pairs - 1;
    if pairs == 0 then
      st.(obj := obj, keys := keys, sepIdx := sepLen, key := key, value := value, pairs := 0)
    else
      State(obj, keys, st.lastPos, i + 1, 0, 0, [], [], u.CustomDecode(), u.CustomDecode(), 0, pairs)
  }

  /**
   * The object and keys after the pair `key`, `value` ends at `i`: stored
   * unless it is empty; an empty pair right after a pair stored at the
   * first unit deletes `''` from the object (but not from `keys`).
   */
  function Flush(st: State, i: nat, sepLen: nat, key: JsString, value: JsString): (map<JsString, Value>, seq<JsString>) {
    if key != [] || value != [] || st.lastPos - st.posIdx > sepLen || i == 0 then StoreInLoop(st.obj, st.keys, key, value)
    else if i == 1 then (st.obj - {key}, st.keys)
    else (st.obj, st.keys)
  }

  /** The unit at `i` completes `eq`: the pending text becomes the rest of the key. */
  function EndKey(u: Setup, st: State, i: nat): State {
    var eqIdx := st.eqIdx + 1;
    if eqIdx == |u.eqCodes| then
      st.(eqIdx := eqIdx, key := Append(st.key, u.qs, st.lastPos, i - eqIdx + 1), encodeCheck := 0, lastPos := i + 1)
    else
      st.(eqIdx := eqIdx)
  }

  /** A `+` at `i`: the pending text and `%20` go to the key or the value, which is then flagged for decoding. */
  function PlusAt(u: Setup, st: State, i: nat): State {
    if st.eqIdx < |u.eqCodes| then
      st.(key := Append(st.key, u.qs, st.lastPos, i) + EncodedSpace, keyEncoded := true, lastPos := i + 1)
    else
      st.(value := Append(st.value, u.qs, st.lastPos, i) + EncodedSpace, valEncoded := true, lastPos := i + 1)
  }

  /**
   * A unit at `i` that does not advance the `sep` match: it resets that
   * match, feeds the value's escape search, then (while the key is open)
   * advances the `eq` match or resets it and feeds the key's escape search,
   * and finally handles `+`.
   */
  function Ordinary(u: Setup, st: State, i: nat): State
    requires i < |u.qs|
  {
    var code := u.qs[i];
    var st := SniffValue(st.(sepIdx := 0), code);
    if st.eqIdx < |u.eqCodes| && Matches(u.eqCodes, st.eqIdx, code) then EndKey(u, st, i)
    else
      var st := if st.eqIdx < |u.eqCodes| then SniffKey(st.(eqIdx := 0), code) else st;
      if code == Plus then PlusAt(u, st, i) else st
  }

  /**
   * One pass of the loop body for the unit at `i`: a unit that advances the
   * `sep` match does nothing else, and ends the pair when `sep` is complete.
   */
  function Step(u: Setup, st: State, i: nat): State
    requires i < |u.qs|
  {
    if Matches(u.sepCodes, st.sepIdx, u.qs[i]) then
      if st.sepIdx + 1 == |u.sepCodes| then EndPair(u, st, i) else st.(sepIdx := st.sepIdx + 1)
    else
      Ordinary(u, st, i)
  }

  /** The loop from the unit at `i` on; it stops at the end of the text or when the budget is spent. */
  function Run(u: Setup, st: State, i: nat): State
    requires i <= |u.qs|
    decreases |u.qs| - i
  {
    if i == |u.qs| || st.pairs == 0 then st else Run(u, Step(u, st, i), i + 1)
  }

  /**
   * After the loop: unless the budget ran out, leftover text (or a
   * completed `eq`) makes one more pair, stored by `StoreAtEnd`.
   */
  function Finish(u: Setup, st: State): Result<map<JsString, Value>, JsError> {
    var len := |u.qs|;
    if st.pairs != 0 && (st.lastPos < len || st.eqIdx > 0) then
      var inKey := st.eqIdx < |u.eqCodes|;
      var key := if st.lastPos < len && inKey then st.key + Slice(u.qs, st.lastPos, len) else st.key;
      var value := if st.lastPos < len && !inKey && st.sepIdx < |u.sepCodes| then st.value + Slice(u.qs, st.lastPos, len) else st.value;
      StoreAtEnd(st.obj, st.keys, Decoded(u, key, st.keyEncoded), Decoded(u, value, st.valEncoded))
    else
      Ok(st.obj)
  }

  /** The setup of a call with a non-empty string. */
  function SetupOf(qs: JsString, sep: Separator, eq: Separator, decoder: Decoder, platform: Platform): Setup {
    Setup(qs, SeparatorUnits(sep, [Ampersand]), SeparatorUnits(eq, [EqualsSign]), decoder, platform)
  }

  /** `parse(qs, sep, eq, options)`: the object it returns, or the exception it throws. */
  function ParseResult(qs: JsString, sep: Separator, eq: Separator, maxKeys: Option<int>, decoder: Decoder, platform: Platform): Result<map<JsString, Value>, JsError> {
    if |qs| == 0 then Ok(map[])
    else
      var u := SetupOf(qs, sep, eq, decoder, platform);
      Finish(u, Run(u, Start(u, maxKeys), 0))
  }
}
