/**
 * Whole texts read by `parse` (src/index.js:306-493): one pair, a key
 * repeated in many pairs, separators of several units, custom decoders,
 * `sep` equal to `eq`, and the corner cases of empty pairs that the source
 * handles in its own way.
 */
module ParseExamples {
  import opened Wrappers
  import opened JsText
  import opened Decoding
  import opened ParseSpec
  import opened ParsePairs

  /** The default separators and decoder. */
  predicate DefaultSetup(u: Setup) {
    u.sepCodes == [Ampersand] && u.eqCodes == [EqualsSign] && u.decoder.Builtin?
  }

  /** The setup of `parse(qs)` with no separators and no options. */
  function Defaults(qs: JsString, platform: Platform): (u: Setup)
    ensures DefaultSetup(u) && u.qs == qs
  {
    SetupOf(qs, Default, Default, Builtin, platform)
  }

  /** The state of the default setup after a one-unit `sep` at `i` ends a pair, with pairs left. */
  function Reset(obj: map<JsString, Value>, keys: seq<JsString>, posIdx: int, i: nat, pairs: int): State {
    State(obj, keys, posIdx, i + 1, 0, 0, [], [], false, false, 0, pairs)
  }

  /** The first pair stored. */
  lemma FirstStore(key: JsString, value: JsString)
    ensures StoreInLoop(map[], [], key, value) == (map[key := Str(value)], [key])
  {
    assert map[][key := Str(value)] == map[key := Str(value)];
    assert [] + [key] == [key];
  }

  // ---------------------------------------------------------------------
  // One pair

  /**
   * `parse('k' + eq + 'v')` for a plain key and value: the one key `k`
   * holding `v`, both through the decoder when it is a custom one, for any
   * `sep` and `eq` they cannot be mistaken for (so later units of `eq`, or
   * a default `=`, stay in the value).
   */
  lemma OnePair(k: JsString, v: JsString, sep: Separator, eq: Separator, decoder: Decoder, platform: Platform)
    requires var s := SeparatorUnits(sep, [Ampersand]); var e := SeparatorUnits(eq, [EqualsSign]);
      Separable(s, e) && PlainText(s, e, k, false) && PlainText(s, e, v, true)
    ensures ParseResult(k + SeparatorUnits(eq, [EqualsSign]) + v, sep, eq, None, decoder, platform)
      == Ok(map[Field(decoder, platform, k) := Str(Field(decoder, platform, v))])
  {
    var s := SeparatorUnits(sep, [Ampersand]);
    var e := SeparatorUnits(eq, [EqualsSign]);
    var ps := [(k, v)];
    assert PairsText(s, e, ps) == k + e + v;
    ParseAsStores(ps, sep, eq, None, decoder, platform);
    var K := Field(decoder, platform, k);
    assert map[][K := Str(Field(decoder, platform, v))] == map[K := Str(Field(decoder, platform, v))];
  }

  /**
   * `parse('a=a')` with a custom decoder that always throws is `{a: 'a'}`
   * on a platform whose `decodeURIComponent('a')` is `'a'`: each field
   * falls back to `qsUnescape`.
   */
  lemma ThrowingDecoderExample(f: JsString -> Option<JsString>, platform: Platform)
    requires forall t :: f(t).None?
    requires platform.decodeURIComponent([97]) == Some([97])
    ensures ParseResult([97, EqualsSign, 97], Default, Default, None, Custom(f), platform) == Ok(map[[97] := Str([97])])
  {
    assert f([97]).None?;
    assert Field(Custom(f), platform, [97]) == [97];
    OnePair([97], [97], Default, Default, Custom(f), platform);
    assert [97] + [EqualsSign] + [97] == [97, EqualsSign, 97];
  }

  // ---------------------------------------------------------------------
  // Several pairs

  /** Storing with the built-in decoder keeps keys and values as written (when they hold no escape). */
  lemma BuiltinField(platform: Platform, t: JsString)
    ensures Field(Builtin, platform, t) == t
  {
  }

  /**
   * `parse('a=a&b=b&c=c')` with a custom decoder that doubles its input is
   * `{aa: 'aa', bb: 'bb', cc: 'cc'}`: keys and values both go through it.
   */
  lemma CustomDecoderExample(f: JsString -> Option<JsString>, platform: Platform)
    requires forall t :: f(t) == Some(t + t)
    ensures ParseResult([97, 61, 97, 38, 98, 61, 98, 38, 99, 61, 99], Default, Default, None, Custom(f), platform)
      == Ok(map[[97, 97] := Str([97, 97]), [98, 98] := Str([98, 98]), [99, 99] := Str([99, 99])])
  {
    var d := Custom(f);
    var ps := [([97], [97]), ([98], [98]), ([99], [99])];
    assert PairsText([Ampersand], [EqualsSign], ps[2..]) == [99, 61, 99];
    assert PairsText([Ampersand], [EqualsSign], ps[1..]) == [98, 61, 98, 38, 99, 61, 99];
    assert PairsText([Ampersand], [EqualsSign], ps) == [97, 61, 97, 38, 98, 61, 98, 38, 99, 61, 99];
    ParseAsStores(ps, Default, Default, None, d, platform);
    assert [97] + [97] == [97, 97] && [98] + [98] == [98, 98] && [99] + [99] == [99, 99];
    assert f([97]) == Some([97, 97]) && f([98]) == Some([98, 98]) && f([99]) == Some([99, 99]);
    var o1 := map[[97, 97] := Str([97, 97])];
    var o2 := o1[[98, 98] := Str([98, 98])];
    FirstStore([97, 97], [97, 97]);
    assert [98, 98] !in [[97, 97]] && [99, 99] !in [[97, 97], [98, 98]];
    assert [[97, 97]] + [[98, 98]] == [[97, 97], [98, 98]];
    assert StoreInLoop(o1, [[97, 97]], [98, 98], [98, 98]) == (o2, [[97, 97], [98, 98]]);
    var fs := Decode(d, platform, ps);
    assert fs == [([97, 97], [97, 97]), ([98, 98], [98, 98]), ([99, 99], [99, 99])];
    assert fs[1..][1..] == [([99, 99], [99, 99])];
    assert Stored(o2, [[97, 97], [98, 98]], fs[1..][1..]) == Ok(o2[[99, 99] := Str([99, 99])]);
  }

  /**
   * `parse('foo=>bar&&bar=>baz', '&&', '=>')` is `{foo: 'bar', bar: 'baz'}`:
   * a separator of two units.
   */
  lemma MultiUnitSeparators(platform: Platform)
    ensures ParseResult([102, 111, 111, 61, 62, 98, 97, 114, 38, 38, 98, 97, 114, 61, 62, 98, 97, 122],
        Given([38, 38]), Given([61, 62]), None, Builtin, platform)
      == Ok(map[[102, 111, 111] := Str([98, 97, 114]), [98, 97, 114] := Str([98, 97, 122])])
  {
    var foo, bar, baz: JsString := [102, 111, 111], [98, 97, 114], [98, 97, 122];
    assert foo + [61, 62] + bar + [38, 38] + bar + [61, 62] + baz == [102, 111, 111, 61, 62, 98, 97, 114, 38, 38, 98, 97, 114, 61, 62, 98, 97, 122];
    TwoPairsExample(foo, bar, bar, baz, [38, 38], [61, 62], platform);
  }

  /**
   * `parse('foo==>bar, bar==>baz', ', ', '==>')` is `{foo: 'bar', bar: 'baz'}`:
   * a separator of two units and an `eq` of three that starts with a unit
   * repeated.
   */
  lemma MultiUnitSeparatorsSpaced(platform: Platform)
    ensures ParseResult([102, 111, 111, 61, 61, 62, 98, 97, 114, 44, 32, 98, 97, 114, 61, 61, 62, 98, 97, 122],
        Given([44, 32]), Given([61, 61, 62]), None, Builtin, platform)
      == Ok(map[[102, 111, 111] := Str([98, 97, 114]), [98, 97, 114] := Str([98, 97, 122])])
  {
    var foo, bar, baz: JsString := [102, 111, 111], [98, 97, 114], [98, 97, 122];
    assert foo + [61, 61, 62] + bar + [44, 32] + bar + [61, 61, 62] + baz == [102, 111, 111, 61, 61, 62, 98, 97, 114, 44, 32, 98, 97, 114, 61, 61, 62, 98, 97, 122];
    TwoPairsExample(foo, bar, bar, baz, [44, 32], [61, 61, 62], platform);
  }

  /** Two plain pairs with different keys, read with the built-in decoder. */
  lemma TwoPairsExample(k1: JsString, v1: JsString, k2: JsString, v2: JsString, s: JsString, e: JsString, platform: Platform)
    requires Separable(s, e) && |k1| + |e| > |s| && k1 != k2
    requires PlainText(s, e, k1, false) && PlainText(s, e, v1, true)
    requires PlainText(s, e, k2, false) && PlainText(s, e, v2, true)
    ensures ParseResult(k1 + e + v1 + s + k2 + e + v2, Given(s), Given(e), None, Builtin, platform)
      == Ok(map[k1 := Str(v1), k2 := Str(v2)])
  {
    var ps := [(k1, v1), (k2, v2)];
    assert ps[1..] == [(k2, v2)];
    assert PairsText(s, e, ps) == k1 + e + v1 + s + k2 + e + v2;
    ParseAsStores(ps, Given(s), Given(e), None, Builtin, platform);
    BuiltinField(platform, k1);
    BuiltinField(platform, v1);
    BuiltinField(platform, k2);
    BuiltinField(platform, v2);
    assert Decode(Builtin, platform, ps) == ps;
    FirstStore(k1, v1);
  }

  // ---------------------------------------------------------------------
  // A repeated key

  /** The pairs `k eq vs[0]`, `k eq vs[1]`, ... */
  function Pairs(k: JsString, vs: seq<JsString>): (ps: seq<(JsString, JsString)>)
    ensures |ps| == |vs| && forall i :: 0 <= i < |vs| ==> ps[i] == (k, vs[i])
  {
    seq(|vs|, i requires 0 <= i < |vs| => (k, vs[i]))
  }

  /** The values `vs` as `parse` stores them. */
  function Fields(decoder: Decoder, platform: Platform, vs: seq<JsString>): (fs: seq<JsString>)
    ensures |fs| == |vs| && forall i :: 0 <= i < |vs| ==> fs[i] == Field(decoder, platform, vs[i])
  {
    seq(|vs|, i requires 0 <= i < |vs| => Field(decoder, platform, vs[i]))
  }

  /** Decoding the pairs of one key decodes the key and each value. */
  lemma DecodePairs(decoder: Decoder, platform: Platform, k: JsString, vs: seq<JsString>)
    ensures Decode(decoder, platform, Pairs(k, vs)) == Pairs(Field(decoder, platform, k), Fields(decoder, platform, vs))
  {
  }

  /** The pairs of `vs` after the first are those of `vs[1..]`. */
  lemma PairsTail(k: JsString, vs: seq<JsString>)
    requires |vs| >= 1
    ensures Pairs(k, vs)[1..] == Pairs(k, vs[1..])
  {
  }

  /** A value for a key holding a list is appended to it, in the loop and after it. */
  lemma StoreOnList(key: JsString, items: seq<JsString>, keys: seq<JsString>, value: JsString)
    requires key in keys
    ensures StoreInLoop(map[key := List(items)], keys, key, value) == (map[key := List(items + [value])], keys)
    ensures StoreAtEnd(map[key := List(items)], keys, key, value) == Ok(map[key := List(items + [value])])
  {
    assert map[key := List(items)][key := List(items + [value])] == map[key := List(items + [value])];
  }

  /** A value for a key holding `''` is dropped in the loop, and makes a list after it. */
  lemma StoreOnEmpty(key: JsString, keys: seq<JsString>, value: JsString)
    requires key in keys
    ensures StoreInLoop(map[key := Str([])], keys, key, value) == (map[key := Str([])], keys)
    ensures StoreAtEnd(map[key := Str([])], keys, key, value) == Ok(map[key := List([[], value])])
  {
    assert map[key := Str([])][key := List([[], value])] == map[key := List([[], value])];
  }

  /** A key holding a list gets every further value appended, in order. */
  lemma {:induction false} StoredList(key: JsString, items: seq<JsString>, keys: seq<JsString>, vs: seq<JsString>)
    requires key in keys && |vs| >= 1
    ensures Stored(map[key := List(items)], keys, Pairs(key, vs)) == Ok(map[key := List(items + vs)])
    decreases |vs|
  {
    StoreOnList(key, items, keys, vs[0]);
    if |vs| == 1 {
      assert items + vs == items + [vs[0]];
    } else {
      PairsTail(key, vs);
      StoredList(key, items + [vs[0]], keys, vs[1..]);
      assert items + [vs[0]] + vs[1..] == items + vs;
    }
  }

  /** A key holding `''` keeps it through the loop, and the flush after it adds the last value. */
  lemma {:induction false} StoredStuck(key: JsString, keys: seq<JsString>, vs: seq<JsString>)
    requires key in keys && |vs| >= 1
    ensures Stored(map[key := Str([])], keys, Pairs(key, vs)) == Ok(map[key := List([[], vs[|vs| - 1]])])
    decreases |vs|
  {
    StoreOnEmpty(key, keys, vs[0]);
    if |vs| > 1 {
      PairsTail(key, vs);
      StoredStuck(key, keys, vs[1..]);
      assert vs[1..][|vs[1..]| - 1] == vs[|vs| - 1];
    }
  }

  /**
   * A key repeated with the (decoded) values `vs`, stored in turn: the list
   * of all the values in input order, unless the first value is `''` and
   * at least two follow it, in which case the loop never adds to it and
   * only the last value joins it at the flush after the loop.
   */
  lemma RepeatedKeyStored(key: JsString, vs: seq<JsString>)
    requires |vs| >= 2
    ensures vs[0] != [] || |vs| == 2 ==> Stored(map[], [], Pairs(key, vs)) == Ok(map[key := List(vs)])
    ensures vs[0] == [] ==> Stored(map[], [], Pairs(key, vs)) == Ok(map[key := List([[], vs[|vs| - 1]])])
  {
    FirstStore(key, vs[0]);
    PairsTail(key, vs);
    assert Stored(map[], [], Pairs(key, vs)) == Stored(map[key := Str(vs[0])], [key], Pairs(key, vs[1..]));
    if |vs| == 2 {
      assert vs == [vs[0], vs[1]];
      assert map[key := Str(vs[0])][key := List([vs[0], vs[1]])] == map[key := List(vs)];
    } else if vs[0] != [] {
      PairsTail(key, vs[1..]);
      assert map[key := Str(vs[0])][key := List([vs[0], vs[1]])] == map[key := List([vs[0], vs[1]])];
      assert Stored(map[key := Str(vs[0])], [key], Pairs(key, vs[1..])) == Stored(map[key := List([vs[0], vs[1]])], [key], Pairs(key, vs[1..][1..]));
      assert vs[1..][1..] == vs[2..];
      StoredList(key, [vs[0], vs[1]], [key], vs[2..]);
      assert [vs[0], vs[1]] + vs[2..] == vs;
    }
    if vs[0] == [] {
      StoredStuck(key, [key], vs[1..]);
      assert vs[1..][|vs[1..]| - 1] == vs[|vs| - 1];
    }
  }

  /**
   * `parse` of a plain key repeated with the values `vs`: the key holds the
   * list of the values in input order, `arr=1&arr=2&arr=3` giving
   * `{arr: ['1', '2', '3']}`. When the first stored value is `''` the loop
   * leaves the key alone and only the last value joins it:
   * `a=&a=value&a=` gives `{a: ['', '']}`.
   */
  lemma RepeatedKey(k: JsString, vs: seq<JsString>, sep: Separator, eq: Separator, maxKeys: Option<int>, decoder: Decoder, platform: Platform)
    requires var s := SeparatorUnits(sep, [Ampersand]); var e := SeparatorUnits(eq, [EqualsSign]);
      && Separable(s, e) && PlainText(s, e, k, false) && |k| + |e| > |s|
      && (forall i :: 0 <= i < |vs| ==> PlainText(s, e, vs[i], true))
    requires |vs| >= 2 && (Budget(maxKeys) < 0 || Budget(maxKeys) >= |vs|)
    ensures var qs := PairsText(SeparatorUnits(sep, [Ampersand]), SeparatorUnits(eq, [EqualsSign]), Pairs(k, vs));
      && (Field(decoder, platform, vs[0]) != [] || |vs| == 2 ==>
        ParseResult(qs, sep, eq, maxKeys, decoder, platform) == Ok(map[Field(decoder, platform, k) := List(Fields(decoder, platform, vs))]))
      && (Field(decoder, platform, vs[0]) == [] ==>
        ParseResult(qs, sep, eq, maxKeys, decoder, platform) == Ok(map[Field(decoder, platform, k) := List([[], Field(decoder, platform, vs[|vs| - 1])])]))
  {
    ParseAsStores(Pairs(k, vs), sep, eq, maxKeys, decoder, platform);
    DecodePairs(decoder, platform, k, vs);
    RepeatedKeyStored(Field(decoder, platform, k), Fields(decoder, platform, vs));
  }

  /** With the defaults, three plain pairs of one key: `k=v1&k=v2&k=v3`. */
  lemma ThreeValues(k: JsString, v1: JsString, v2: JsString, v3: JsString, platform: Platform)
    requires |k| >= 1 && PlainText([Ampersand], [EqualsSign], k, false)
    requires PlainText([Ampersand], [EqualsSign], v1, true) && PlainText([Ampersand], [EqualsSign], v2, true)
    requires PlainText([Ampersand], [EqualsSign], v3, true)
    ensures var qs := k + [EqualsSign] + v1 + [Ampersand] + k + [EqualsSign] + v2 + [Ampersand] + k + [EqualsSign] + v3;
      && (v1 != [] ==> ParseResult(qs, Default, Default, None, Builtin, platform) == Ok(map[k := List([v1, v2, v3])]))
      && (v1 == [] ==> ParseResult(qs, Default, Default, None, Builtin, platform) == Ok(map[k := List([[], v3])]))
  {
    var vs := [v1, v2, v3];
    RepeatedKey(k, vs, Default, Default, None, Builtin, platform);
    var ps := Pairs(k, vs);
    assert ps[2..] == [(k, v3)] && ps[1..][1..] == ps[2..] && ps[1..][0] == (k, v2);
    assert PairsText([Ampersand], [EqualsSign], ps[2..]) == k + [EqualsSign] + v3;
    var tail := PairsText([Ampersand], [EqualsSign], ps[1..]);
    assert |ps[1..]| == 2;
    assert tail == k + [EqualsSign] + v2 + [Ampersand] + (k + [EqualsSign] + v3);
    assert PairsText([Ampersand], [EqualsSign], ps) == k + [EqualsSign] + v1 + [Ampersand] + tail;
    assert k + [EqualsSign] + v1 + [Ampersand] + tail
      == k + [EqualsSign] + v1 + [Ampersand] + k + [EqualsSign] + v2 + [Ampersand] + k + [EqualsSign] + v3;
    assert Fields(Builtin, platform, vs) == vs;
  }

  /** `parse('arr=1&arr=2&arr=3')` is `{arr: ['1', '2', '3']}`. */
  lemma RepeatedKeyExample(platform: Platform)
    ensures ParseResult([97, 114, 114, 61, 49, 38, 97, 114, 114, 61, 50, 38, 97, 114, 114, 61, 51], Default, Default, None, Builtin, platform)
      == Ok(map[[97, 114, 114] := List([[49], [50], [51]])])
  {
    var k: JsString := [97, 114, 114];
    ThreeValues(k, [49], [50], [51], platform);
    assert k + [EqualsSign] + [49] + [Ampersand] + k + [EqualsSign] + [50] + [Ampersand] + k + [EqualsSign] + [51]
      == [97, 114, 114, 61, 49, 38, 97, 114, 114, 61, 50, 38, 97, 114, 114, 61, 51];
  }

  /**
   * `parse('a=&a=value&a=')` is `{a: ['', '']}`: the loop leaves the key
   * holding `''` alone, so `value` is lost, and the flush after the loop
   * adds the last `''`.
   */
  lemma EmptyFirstValue(platform: Platform)
    ensures ParseResult([97, 61, 38, 97, 61, 118, 97, 108, 117, 101, 38, 97, 61], Default, Default, None, Builtin, platform)
      == Ok(map[[97] := List([[], []])])
  {
    var v: JsString := [118, 97, 108, 117, 101];
    ThreeValues([97], [], v, [], platform);
    assert [97] + [EqualsSign] + [] + [Ampersand] + [97] + [EqualsSign] + v + [Ampersand] + [97] + [EqualsSign] + []
      == [97, 61, 38, 97, 61, 118, 97, 108, 117, 101, 38, 97, 61];
  }

  // ---------------------------------------------------------------------
  // sep and eq the same

  /** The setup of `parse('foo&bar', '&', '&')`. */
  function FooBar(platform: Platform): (u: Setup)
    ensures u.qs == [102, 111, 111, 38, 98, 97, 114] && u.sepCodes == [38] && u.eqCodes == [38] && !u.CustomDecode()
  {
    SetupOf([102, 111, 111, 38, 98, 97, 114], Given([38]), Given([38]), Builtin, platform)
  }

  /** The `&` of `foo&bar`, with `sep` and `eq` both `&`, ends the pair `foo` with the value `''`. */
  lemma FooBarSep(platform: Platform)
    ensures var u := FooBar(platform);
      Step(u, Start(u, None), 3) == Fresh(u, map[[102, 111, 111] := Str([])], [[102, 111, 111]], 0, 4, 999)
  {
    var u := FooBar(platform);
    var s0 := Start(u, None);
    assert Slice(u.qs, 0, 3) == [102, 111, 111];
    assert PendingKey(u, s0, 3) == [102, 111, 111] && PendingValue(u, s0, 3) == [];
    FirstStore([102, 111, 111], []);
  }

  /** After the loop, `bar` is stored with the value `''`. */
  lemma FooBarEnd(platform: Platform)
    ensures var u := FooBar(platform);
      Finish(u, Fresh(u, map[[102, 111, 111] := Str([])], [[102, 111, 111]], 0, 4, 999))
        == Ok(map[[102, 111, 111] := Str([]), [98, 97, 114] := Str([])])
  {
    var u := FooBar(platform);
    assert Slice(u.qs, 4, 7) == [98, 97, 114] && [] + [98, 97, 114] == [98, 97, 114];
    assert [98, 97, 114] !in [[102, 111, 111]];
  }

  /**
   * `parse('foo&bar', '&', '&')` is `{foo: '', bar: ''}`: every `&` ends a
   * pair, and none is read as `eq`.
   */
  lemma SameSeparatorsExample(platform: Platform)
    ensures ParseResult([102, 111, 111, 38, 98, 97, 114], Given([38]), Given([38]), None, Builtin, platform)
      == Ok(map[[102, 111, 111] := Str([]), [98, 97, 114] := Str([])])
  {
    var u := FooBar(platform);
    var s0 := Start(u, None);
    var s1 := Fresh(u, map[[102, 111, 111] := Str([])], [[102, 111, 111]], 0, 4, 999);
    assert At(u.qs, 0, [102, 111, 111]) && At(u.qs, 4, [98, 97, 114]);
    QuietText(u, s0, [102, 111, 111], 0);
    FooBarSep(platform);
    RunStep(u, s0, 3);
    QuietText(u, s1, [98, 97, 114], 4);
    RunDone(u, s1);
    FooBarEnd(platform);
  }

  // ---------------------------------------------------------------------
  // Empty pairs

  /**
   * `parse('&&=')` throws: the first `&` stores `''`, the second deletes it
   * from the object but not from `keys`, and the `=` makes a last pair with
   * the key `''`.
   */
  lemma DoubledSepThrows(platform: Platform)
    ensures ParseResult([Ampersand, Ampersand, EqualsSign], Default, Default, None, Builtin, platform) == Err(TypeError)
  {
    var u := Defaults([Ampersand, Ampersand, EqualsSign], platform);
    var s0 := Start(u, None);
    var s1 := Reset(map[[] := Str([])], [[]], 0, 0, 999);
    var s2 := Reset(map[], [[]], 1, 1, 998);
    var s3 := s2.(eqIdx := 1, lastPos := 3);
    assert PendingKey(u, s0, 0) == [] && PendingValue(u, s0, 0) == [];
    FirstStore([], []);
    assert Step(u, s0, 0) == s1;
    assert PendingKey(u, s1, 1) == [] && PendingValue(u, s1, 1) == [];
    assert Flush(s1, 1, 1, [], []) == (s2.obj, s2.keys);
    assert Step(u, s1, 1) == s2;
    assert Step(u, s2, 2) == s3;
    assert Run(u, s0, 0) == Run(u, s1, 1) == Run(u, s2, 2) == Run(u, s3, 3) == s3;
    assert Finish(u, s3) == StoreAtEnd(map[], [[]], [], []);
  }

  /**
   * `parse('a&a&')` is `{a: ''}`: the second `a` finds the stored value
   * `''`, which the loop leaves alone, and no text is left for the flush
   * after the loop.
   */
  lemma RepeatedEmptyKey(platform: Platform)
    ensures ParseResult([97, Ampersand, 97, Ampersand], Default, Default, None, Builtin, platform) == Ok(map[[97] := Str([])])
  {
    var qs: JsString := [97, Ampersand, 97, Ampersand];
    var u := Defaults(qs, platform);
    var s0 := Start(u, None);
    var obj := map[[97] := Str([])];
    var s2 := Reset(obj, [[97]], 0, 1, 999);
    var s4 := Reset(obj, [[97]], 2, 3, 998);
    assert Step(u, s0, 0) == s0;
    assert Slice(qs, 0, 1) == [97] && Slice(qs, 2, 3) == [97];
    assert PendingKey(u, s0, 1) == [97] && PendingValue(u, s0, 1) == [];
    FirstStore([97], []);
    assert Step(u, s0, 1) == s2;
    assert Step(u, s2, 2) == s2;
    assert PendingKey(u, s2, 3) == [97] && PendingValue(u, s2, 3) == [];
    assert Flush(s2, 3, 1, [97], []) == (obj, [[97]]);
    assert Step(u, s2, 3) == s4;
    assert Run(u, s0, 0) == Run(u, s0, 1) == Run(u, s2, 2) == Run(u, s2, 3) == Run(u, s4, 4) == s4;
  }

  /**
   * `parse('a&a')` is `{a: ['', '']}`: unlike the loop, the flush after it
   * merges a repeated key holding `''`.
   */
  lemma RepeatedKeyAtEnd(platform: Platform)
    ensures ParseResult([97, Ampersand, 97], Default, Default, None, Builtin, platform) == Ok(map[[97] := List([[], []])])
  {
    var qs: JsString := [97, Ampersand, 97];
    var u := Defaults(qs, platform);
    var s0 := Start(u, None);
    var obj := map[[97] := Str([])];
    var s2 := Reset(obj, [[97]], 0, 1, 999);
    assert Step(u, s0, 0) == s0;
    assert Slice(qs, 0, 1) == [97] && Slice(qs, 2, 3) == [97];
    assert PendingKey(u, s0, 1) == [97] && PendingValue(u, s0, 1) == [];
    FirstStore([97], []);
    assert Step(u, s0, 1) == s2;
    assert Step(u, s2, 2) == s2;
    assert Run(u, s0, 0) == Run(u, s0, 1) == Run(u, s2, 2) == Run(u, s2, 3) == s2;
    assert Finish(u, s2) == StoreAtEnd(obj, [[97]], [97], []);
    assert obj[[97] := List([[], []])] == map[[97] := List([[], []])];
  }
}
