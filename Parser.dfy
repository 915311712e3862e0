/**
 * `parse` (src/index.js:306-493) as the source runs it: one loop over the
 * code units updating the locals of `ParseSpec.State`, with the helpers
 * `charCodes` (src/index.js:294-301) and the `indexOf` polyfill
 * (src/index.js:29-58). Each method is proved to compute its counterpart
 * in `ParseSpec`.
 */
module Parser {
  import opened Wrappers
  import opened JsText
  import opened Decoding
  import opened ParseSpec

  /** `charCodes(str)`: the code units of `str`, read one by one. */
  method CharCodes(str: JsString) returns (codes: seq<CodeUnit>)
    ensures codes == str
  {
    if |str| == 0 {
      return [];
    }
    if |str| == 1 {
      return [str[0]];
    }
    codes := [];
    var i := 0;
    while i < |str|
      invariant 0 <= i <= |str|
      invariant codes == str[..i]
    {
      codes := codes + [str[i]];
      i := i + 1;
    }
  }

  /** `n | 0`: the integer reduced to a signed 32-bit value. */
  function ToInt32(n: int): (r: int)
    ensures -0x8000_0000 <= r < 0x8000_0000
    ensures (n - r) % 0x1_0000_0000 == 0
    ensures -0x8000_0000 <= n < 0x8000_0000 ==> r == n
  {
    var m := n % 0x1_0000_0000;
    if m >= 0x8000_0000 then m - 0x1_0000_0000 else m
  }

  /**
   * Where `indexOf` starts looking: `fromIndex | 0`, counted from the end
   * when negative, and not below 0.
   */
  function SearchFrom(len: nat, fromIndex: int): int {
    var n := ToInt32(fromIndex);
    if n >= 0 then n else if len + n < 0 then 0 else len + n
  }

  /**
   * `indexOf(arr, x, fromIndex)`: the first position at or after
   * `SearchFrom` that holds `x`, or -1 when there is none. The length
   * `o.length >>> 0` is the length itself, as an array is shorter than 2^32.
   */
  method IndexOf(arr: seq<JsString>, x: JsString, fromIndex: int) returns (r: int)
    ensures r == -1 || (SearchFrom(|arr|, fromIndex) <= r < |arr| && arr[r] == x)
    ensures r == -1 ==> forall j :: SearchFrom(|arr|, fromIndex) <= j < |arr| ==> arr[j] != x
    ensures r != -1 ==> forall j :: SearchFrom(|arr|, fromIndex) <= j < r ==> arr[j] != x
  {
    var len := |arr|;
    if len == 0 {
      return -1;
    }
    var n := ToInt32(fromIndex);
    if n >= len {
      return -1;
    }
    var k := if n >= 0 then n else len - (-n);
    if k < 0 {
      k := 0;
    }
    while k < len
      invariant SearchFrom(len, fromIndex) <= k
      invariant forall j :: SearchFrom(len, fromIndex) <= j < k && j < len ==> arr[j] != x
    {
      if arr[k] == x {
        return k;
      }
      k := k + 1;
    }
    return -1;
  }

  /** `indexOf(keys, key) === -1` says that `key` is not among `keys`. */
  lemma NotFound(keys: seq<JsString>, key: JsString, r: int)
    requires r == -1 || (SearchFrom(|keys|, 0) <= r < |keys| && keys[r] == key)
    requires r == -1 ==> forall j :: SearchFrom(|keys|, 0) <= j < |keys| ==> keys[j] != key
    ensures r == -1 <==> key !in keys
  {
    assert SearchFrom(|keys|, 0) == 0;
  }

  /** Storing a pair inside the loop, with the key looked up by `indexOf`. */
  method StorePair(obj: map<JsString, Value>, keys: seq<JsString>, key: JsString, value: JsString)
    returns (obj': map<JsString, Value>, keys': seq<JsString>)
    ensures (obj', keys') == StoreInLoop(obj, keys, key, value)
  {
    var at := IndexOf(keys, key, 0);
    NotFound(keys, key, at);
    obj', keys' := obj, keys;
    if at == -1 {
      obj' := obj'[key := Str(value)];
      keys' := keys' + [key];
    } else {
      var current := if key in obj then obj[key] else Str([]);
      if current.List? {
        obj' := obj'[key := List(current.items + [value])];
      } else if current.s != [] {
        obj' := obj'[key := List([current.s, value])];
      }
    }
  }

  /** The key and value of a pair that ends at `end`, decoded where flagged. */
  method TakePending(u: Setup, st: State, end: int) returns (key: JsString, value: JsString)
    ensures key == PendingKey(u, st, end) && value == PendingValue(u, st, end)
  {
    key, value := st.key, st.value;
    if st.eqIdx < |u.eqCodes| {
      if st.lastPos < end {
        key := key + Slice(u.qs, st.lastPos, end);
      }
    } else if st.lastPos < end {
      value := value + Slice(u.qs, st.lastPos, end);
    }
    if st.keyEncoded {
      key := DecodeStr(u.platform, key, u.decoder);
    }
    if st.valEncoded {
      value := DecodeStr(u.platform, value, u.decoder);
    }
  }

  /** The unit at `i` completes `sep`: the pair is flushed and the state reset. */
  method CompletePair(u: Setup, st: State, i: nat) returns (next: State)
    ensures next == EndPair(u, st, i)
  {
    var sepLen := |u.sepCodes|;
    var end := i - sepLen + 1;
    var key, value := TakePending(u, st, end);
    var obj, keys := st.obj, st.keys;
    if key != [] || value != [] || st.lastPos - st.posIdx > sepLen || i == 0 {
      obj, keys := StorePair(obj, keys, key, value);
    } else if i == 1 {
      obj := obj - {key};
    }
    var pairs := st.pairs - 1;
    if pairs == 0 {
      return st.(obj := obj, keys := keys, sepIdx := sepLen, key := key, value := value, pairs := 0);
    }
    var custom := u.CustomDecode();
    next := State(obj, keys, st.lastPos, i + 1, 0, 0, [], [], custom, custom, 0, pairs);
  }

  /** A `+` at `i`: the pending text and `%20` are appended to the open field. */
  method AppendSpace(u: Setup, st: State, i: nat) returns (next: State)
    ensures next == PlusAt(u, st, i)
  {
    if st.eqIdx < |u.eqCodes| {
      var key := st.key;
      if st.lastPos < i {
        key := key + Slice(u.qs, st.lastPos, i);
      }
      next := st.(key := key + EncodedSpace, keyEncoded := true);
    } else {
      var value := st.value;
      if st.lastPos < i {
        value := value + Slice(u.qs, st.lastPos, i);
      }
      next := st.(value := value + EncodedSpace, valEncoded := true);
    }
    next := next.(lastPos := i + 1);
  }

  /** One pass of the loop body of `parse`, for the unit at `i`. */
  method ScanUnit(u: Setup, st: State, i: nat) returns (next: State)
    requires i < |u.qs|
    ensures next == Step(u, st, i)
  {
    var code := u.qs[i];
    if Matches(u.sepCodes, st.sepIdx, code) {
      if st.sepIdx + 1 == |u.sepCodes| {
        next := CompletePair(u, st, i);
      } else {
        next := st.(sepIdx := st.sepIdx + 1);
      }
      return;
    }
    next := OrdinaryUnit(u, st, i);
  }

  /** The rest of the loop body, for a unit that does not advance the `sep` match. */
  method OrdinaryUnit(u: Setup, st: State, i: nat) returns (next: State)
    requires i < |u.qs|
    ensures next == Ordinary(u, st, i)
  {
    var code := u.qs[i];
    next := st.(sepIdx := 0);
    if !next.valEncoded {
      var (count, found) := Sniff(code, next.encodeCheck);
      next := next.(encodeCheck := count, valEncoded := found);
    }
    if next.eqIdx < |u.eqCodes| {
      if Matches(u.eqCodes, next.eqIdx, code) {
        var eqIdx := next.eqIdx + 1;
        if eqIdx == |u.eqCodes| {
          var end := i - eqIdx + 1;
          var key := next.key;
          if next.lastPos < end {
            key := key + Slice(u.qs, next.lastPos, end);
          }
          next := next.(eqIdx := eqIdx, key := key, encodeCheck := 0, lastPos := i + 1);
        } else {
          next := next.(eqIdx := eqIdx);
        }
        return;
      }
      next := next.(eqIdx := 0);
      if !next.keyEncoded {
        var (count, found) := Sniff(code, next.encodeCheck);
        next := next.(encodeCheck := count, keyEncoded := found);
      }
    }
    if code == Plus {
      next := AppendSpace(u, next, i);
    }
  }

  /** The flush after the loop: leftover text makes one more pair. */
  method FinishPairs(u: Setup, st: State) returns (r: Result<map<JsString, Value>, JsError>)
    ensures r == Finish(u, st)
  {
    var len := |u.qs|;
    if !(st.pairs != 0 && (st.lastPos < len || st.eqIdx > 0)) {
      return Ok(st.obj);
    }
    var key, value := st.key, st.value;
    if st.lastPos < len {
      if st.eqIdx < |u.eqCodes| {
        key := key + Slice(u.qs, st.lastPos, len);
      } else if st.sepIdx < |u.sepCodes| {
        value := value + Slice(u.qs, st.lastPos, len);
      }
    }
    if st.keyEncoded {
      key := DecodeStr(u.platform, key, u.decoder);
    }
    if st.valEncoded {
      value := DecodeStr(u.platform, value, u.decoder);
    }
    var at := IndexOf(st.keys, key, 0);
    NotFound(st.keys, key, at);
    if at == -1 {
      return Ok(st.obj[key := Str(value)]);
    }
    if key !in st.obj {
      return Err(TypeError);
    }
    var current := st.obj[key];
    if current.List? {
      return Ok(st.obj[key := List(current.items + [value])]);
    }
    return Ok(st.obj[key := List([current.s, value])]);
  }

  /**
   * `parse(qs, sep, eq, options)`: the empty object for an empty string;
   * otherwise the separators' code units and the key budget are set up, the
   * loop runs over the units until the end or until the budget is spent,
   * and the leftover pair is flushed.
   */
  method Parse(qs: JsString, sep: Separator, eq: Separator, maxKeys: Option<int>, decoder: Decoder, platform: Platform)
    returns (r: Result<map<JsString, Value>, JsError>)
    ensures r == ParseResult(qs, sep, eq, maxKeys, decoder, platform)
  {
    if |qs| == 0 {
      return Ok(map[]);
    }
    var sepCodes: JsString := [Ampersand];
    if sep.Given? {
      sepCodes := CharCodes(sep.units);
    }
    var eqCodes: JsString := [EqualsSign];
    if eq.Given? {
      eqCodes := CharCodes(eq.units);
    }
    var pairs := 1000;
    if maxKeys.Some? {
      pairs := if maxKeys.value > 0 then maxKeys.value else -1;
    }
    var u := Setup(qs, sepCodes, eqCodes, decoder, platform);
    var custom := u.CustomDecode();
    var st := State(map[], [], 0, 0, 0, 0, [], [], custom, custom, 0, pairs);
    assert st == Start(u, maxKeys);
    ghost var total := Run(u, st, 0);
    var i := 0;
    while i < |qs|
      invariant 0 <= i <= |qs|
      invariant st.pairs != 0
      invariant Run(u, st, i) == total
    {
      st := ScanUnit(u, st, i);
      if st.pairs == 0 {
        assert Run(u, st, i + 1) == st;
        break;
      }
      i := i + 1;
    }
    r := FinishPairs(u, st);
  }
}
