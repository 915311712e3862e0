/**
 * The serializer: `stringifyPrimitive` (src/index.js:243-251) renders one
 * value as text and `stringify` (src/index.js:254-292) writes an object's
 * entries as `key=value` pairs, one pair per element for an array value,
 * separated by `sep`.
 */
module Stringify {
  import opened Wrappers
  import opened JsText
  import opened PercentEncode

  /**
   * The integers up to 2^53 in magnitude: each is a JavaScript number, and
   * the shortest digits that read back as it, which `'' + v` writes, are
   * its exact decimal digits.
   */
  type PlainInt = n: int | -0x20_0000_0000_0000 <= n <= 0x20_0000_0000_0000

  /** A value handed to `stringifyPrimitive`, by its JavaScript type. */
  datatype Primitive =
    | Text(s: JsString)      // a string
    | Number(n: PlainInt)    // a finite number with an integer value
    | NonFinite              // `NaN`, `Infinity`, `-Infinity`
    | Boolean(b: bool)
    | Other                  // `null`, `undefined`, objects, functions, symbols

  /** An entry's value: an array, whose elements become one pair each, or anything else. */
  datatype FieldValue = Single(v: Primitive) | Array(items: seq<Primitive>)

  /**
   * The first argument of `stringify`: something that is not an object
   * (`null` or a primitive), or an object given by its own enumerable keys
   * in enumeration order with their values.
   */
  datatype Input = NotAnObject | Object(entries: seq<(JsString, FieldValue)>)

  /** The encoder: `QueryString.escape`, or `options.encodeURIComponent` (`None` where it throws). */
  datatype Encoder = Builtin | Custom(f: JsString -> Option<JsString>)

  /** The decimal digits of `n`, most significant first, without leading zeros. */
  function Digits(n: nat): (s: JsString)
    ensures 1 <= |s| && (|s| > 1 ==> s[0] != 48)
    ensures forall k :: 0 <= k < |s| ==> 48 <= s[k] <= 57
    decreases n
  {
    if n < 10 then [48 + n] else Digits(n / 10) + [48 + n % 10]
  }

  /** The number a run of decimal digits spells. */
  function DigitsValue(s: JsString): nat
    requires forall k :: 0 <= k < |s| ==> 48 <= s[k] <= 57
  {
    if s == [] then 0 else 10 * DigitsValue(s[..|s| - 1]) + (s[|s| - 1] - 48)
  }

  /** Reading the digits back gives the number. */
  lemma {:induction false} DigitsRoundTrip(n: nat)
    ensures DigitsValue(Digits(n)) == n
    decreases n
  {
    if n >= 10 {
      DigitsRoundTrip(n / 10);
      var s := Digits(n);
      assert s[..|s| - 1] == Digits(n / 10);
    }
  }

  /** `'' + n` for an integer-valued number: an optional `-` and the digits (`-0` is written `0`). */
  function Decimal(n: PlainInt): JsString {
    if n < 0 then [45] + Digits(-n) else Digits(n)
  }

  /** `stringifyPrimitive(v)`. */
  function StringifyPrimitive(v: Primitive): JsString {
    match v
    case Text(s) => s
    case Number(n) => Decimal(n)
    case NonFinite => []
    case Boolean(b) => if b then [116, 114, 117, 101] else [102, 97, 108, 115, 101]
    case Other => []
  }

  /** What `stringifyPrimitive` writes for a number can be read back as that number. */
  lemma DecimalRoundTrip(n: PlainInt)
    ensures var s := StringifyPrimitive(Number(n));
      && (n >= 0 ==> (forall k :: 0 <= k < |s| ==> 48 <= s[k] <= 57) && DigitsValue(s) == n)
      && (n < 0 ==> s[0] == 45 && (forall k :: 1 <= k < |s| ==> 48 <= s[k] <= 57) && DigitsValue(s[1..]) == -n)
  {
    if n >= 0 {
      DigitsRoundTrip(n);
    } else {
      DigitsRoundTrip(-n);
      assert ([45] + Digits(-n))[1..] == Digits(-n);
    }
  }

  /** What one call of an encoder returns for each input, or the exception it throws. */
  type Encoding = JsString -> Result<JsString, JsError>

  /** One call of the encoder. */
  function Encode(enc: Encoder, s: JsString): Result<JsString, JsError> {
    match enc
    case Builtin => Escape(s)
    case Custom(f) => if f(s).Some? then Ok(f(s).value) else Err(Thrown)
  }

  /** The encoder as a function. */
  function EncodingOf(enc: Encoder): Encoding {
    s => Encode(enc, s)
  }

  /**
   * The text the inner loop has added after the first `j` elements of an
   * array value: `ks` and the element's encoding per element, with `sep`
   * after every element but the last.
   */
  function ItemsUpTo(enc: Encoding, ks: JsString, items: seq<Primitive>, j: nat, sep: JsString): Result<JsString, JsError>
    requires j <= |items|
  {
    if j == 0 then Ok([])
    else
      var t :- ItemsUpTo(enc, ks, items, j - 1, sep);
      var e :- enc(StringifyPrimitive(items[j - 1]));
      Ok(t + ks + e + (if j - 1 < |items| - 1 then sep else []))
  }

  /**
   * The text one pass of the outer loop adds for the value `v` once the
   * encoded key and `eq` are known as `ks`; `last` says whether it is the
   * final entry, which gets no `sep` after it.
   */
  function ValueText(enc: Encoding, ks: JsString, v: FieldValue, last: bool, sep: JsString): Result<JsString, JsError> {
    match v
    case Array(items) =>
      var t :- ItemsUpTo(enc, ks, items, |items|, sep);
      Ok(t + (if |items| > 0 && !last then sep else []))
    case Single(p) =>
      var e :- enc(StringifyPrimitive(p));
      Ok(ks + e + (if !last then sep else []))
  }

  /** The text one pass of the outer loop adds for the entry `(k, v)`. */
  function EntryText(enc: Encoding, k: JsString, v: FieldValue, last: bool, sep: JsString, eq: JsString): Result<JsString, JsError> {
    var ke :- enc(k);
    ValueText(enc, ke + eq, v, last, sep)
  }

  /** `fields` after the first `i` passes of the outer loop, or the first exception an encoder threw. */
  function FieldsUpTo(enc: Encoding, entries: seq<(JsString, FieldValue)>, i: nat, sep: JsString, eq: JsString): Result<JsString, JsError>
    requires i <= |entries|
  {
    if i == 0 then Ok([])
    else
      var f :- FieldsUpTo(enc, entries, i - 1, sep, eq);
      var t :- EntryText(enc, entries[i - 1].0, entries[i - 1].1, i - 1 == |entries| - 1, sep, eq);
      Ok(f + t)
  }

  /** What `stringify(obj, sep, eq, options)` returns, or the exception it throws. */
  function StringifyResult(input: Input, sep: Separator, eq: Separator, enc: Encoder): Result<JsString, JsError> {
    match input
    case NotAnObject => Ok([])
    case Object(entries) => FieldsUpTo(EncodingOf(enc), entries, |entries|, SeparatorUnits(sep, [Ampersand]), SeparatorUnits(eq, [EqualsSign]))
  }

  /** A failure in the first `j` elements is the failure of the whole array. */
  lemma {:induction false} ItemsFailed(enc: Encoding, ks: JsString, items: seq<Primitive>, j: nat, sep: JsString, e: JsError)
    requires j <= |items| && ItemsUpTo(enc, ks, items, j, sep) == Err(e)
    ensures ItemsUpTo(enc, ks, items, |items|, sep) == Err(e)
    decreases |items| - j
  {
    if j < |items| {
      ItemsFailed(enc, ks, items, j + 1, sep, e);
    }
  }

  /** A failure in the first `i` entries is the failure of the whole call. */
  lemma {:induction false} FieldsFailed(enc: Encoding, entries: seq<(JsString, FieldValue)>, i: nat, sep: JsString, eq: JsString, e: JsError)
    requires i <= |entries| && FieldsUpTo(enc, entries, i, sep, eq) == Err(e)
    ensures FieldsUpTo(enc, entries, |entries|, sep, eq) == Err(e)
    decreases |entries| - i
  {
    if i < |entries| {
      FieldsFailed(enc, entries, i + 1, sep, eq, e);
    }
  }

  /** One call of the encoder, as `stringify` makes it. */
  method CallEncoder(enc: Encoder, s: JsString) returns (r: Result<JsString, JsError>)
    ensures r == Encode(enc, s)
  {
    match enc
    case Builtin =>
      r := QsEscape(s);
    case Custom(f) =>
      r := if f(s).Some? then Ok(f(s).value) else Err(Thrown);
  }

  /** `Ok(a + t)` for `Ok(t)`, and an exception unchanged. */
  function Then(a: JsString, r: Result<JsString, JsError>): Result<JsString, JsError> {
    if r.Ok? then Ok(a + r.value) else r
  }

  /** Concatenation regrouped. */
  lemma Reassociate(a: JsString, b: JsString, c: JsString, d: JsString)
    ensures a + b + c + d == a + (b + c + d)
  {
  }

  /** Appending a piece after `fields + text` in steps, or all at once. */
  lemma Regroup(fields: JsString, text: JsString, ks: JsString, e: JsString, tail: JsString, out: JsString)
    requires out == (fields + text) + ks + e + tail
    ensures out == fields + (text + (ks + e + tail))
  {
  }

  /** One more element of an array value. */
  lemma ItemsStep(enc: Encoding, ks: JsString, items: seq<Primitive>, j: nat, next: nat, sep: JsString, text: JsString, e: JsString)
    requires j < |items| && next == j + 1
    requires ItemsUpTo(enc, ks, items, j, sep) == Ok(text)
    requires enc(StringifyPrimitive(items[j])) == Ok(e)
    ensures ItemsUpTo(enc, ks, items, next, sep) == Ok(text + (ks + e + (if j < |items| - 1 then sep else [])))
  {
    Reassociate(text, ks, e, if j < |items| - 1 then sep else []);
  }

  /**
   * The inner loop of `stringify` over the elements of one array value:
   * `ks` and the element's encoding per element, `sep` between elements.
   */
  method AppendItems(enc: Encoder, ks: JsString, items: seq<Primitive>, sep: JsString, fields: JsString) returns (r: Result<JsString, JsError>)
    ensures r == Then(fields, ItemsUpTo(EncodingOf(enc), ks, items, |items|, sep))
  {
    var out := fields;
    var vlen := |items|;
    var vlast := vlen - 1;
    var j := 0;
    ghost var text: JsString := [];
    while j < vlen
      invariant 0 <= j <= vlen
      invariant ItemsUpTo(EncodingOf(enc), ks, items, j, sep) == Ok(text)
      invariant out == fields + text
    {
      var e := CallEncoder(enc, StringifyPrimitive(items[j]));
      if e.Err? {
        ItemsFailed(EncodingOf(enc), ks, items, j + 1, sep, e.error);
        return Err(e.error);
      }
      ghost var tail: JsString := if j < vlast then sep else [];
      ghost var prev := j;
      out := out + ks + e.value;
      if j < vlast {
        out := out + sep;
      } else {
        assert out == out + [];
      }
      Regroup(fields, text, ks, e.value, tail, out);
      j := j + 1;
      ItemsStep(EncodingOf(enc), ks, items, prev, j, sep, text, e.value);
      text := text + (ks + e.value + tail);
    }
    return Ok(out);
  }

  /** One more entry of the object. */
  lemma FieldsStep(enc: Encoding, entries: seq<(JsString, FieldValue)>, i: nat, next: nat, sep: JsString, eq: JsString, fields: JsString, r: Result<JsString, JsError>)
    requires i < |entries| && next == i + 1
    requires FieldsUpTo(enc, entries, i, sep, eq) == Ok(fields)
    requires r == Then(fields, EntryText(enc, entries[i].0, entries[i].1, i == |entries| - 1, sep, eq))
    ensures FieldsUpTo(enc, entries, next, sep, eq) == r
  {
  }

  /**
   * The value part of one pass of the outer loop of `stringify`: the pairs
   * `ks` + encoded element appended to `fields`, then `sep` unless it is the
   * last entry or an empty array.
   */
  method AppendValue(enc: Encoder, ks: JsString, v: FieldValue, last: bool, sep: JsString, fields: JsString) returns (r: Result<JsString, JsError>)
    ensures r == Then(fields, ValueText(EncodingOf(enc), ks, v, last, sep))
  {
    match v {
      case Array(items) =>
        var out := AppendItems(enc, ks, items, sep, fields);
        if out.Err? {
          return out;
        }
        var o := out.value;
        if |items| > 0 && !last {
          o := o + sep;
        }
        assert o == fields + (out.value[|fields|..] + (if |items| > 0 && !last then sep else []));
        return Ok(o);
      case Single(p) =>
        var e := CallEncoder(enc, StringifyPrimitive(p));
        if e.Err? {
          return Err(e.error);
        }
        var o := fields + ks + e.value;
        if !last {
          o := o + sep;
        }
        assert o == fields + (ks + e.value + (if !last then sep else []));
        return Ok(o);
    }
  }

  /** One pass of the outer loop of `stringify`: the key is encoded first, then the value's pairs. */
  method AppendEntry(enc: Encoder, k: JsString, v: FieldValue, last: bool, sep: JsString, eq: JsString, fields: JsString) returns (r: Result<JsString, JsError>)
    ensures r == Then(fields, EntryText(EncodingOf(enc), k, v, last, sep, eq))
  {
    var ke := CallEncoder(enc, k);
    if ke.Err? {
      return Err(ke.error);
    }
    r := AppendValue(enc, ke.value + eq, v, last, sep, fields);
  }

  /**
   * `stringify` as the source writes it: `''` for anything but an object,
   * otherwise the outer loop over the entries, appending to `fields`; an
   * exception from the encoder leaves the call.
   */
  method StringifyObject(input: Input, sepArg: Separator, eqArg: Separator, enc: Encoder) returns (r: Result<JsString, JsError>)
    ensures r == StringifyResult(input, sepArg, eqArg, enc)
  {
    var sep := SeparatorUnits(sepArg, [Ampersand]);
    var eq := SeparatorUnits(eqArg, [EqualsSign]);
    if input.NotAnObject? {
      return Ok([]);
    }
    var entries := input.entries;
    ghost var encoding := EncodingOf(enc);
    ghost var total := FieldsUpTo(encoding, entries, |entries|, sep, eq);
    assert total == StringifyResult(input, sepArg, eqArg, enc);
    var len := |entries|;
    var flast := len - 1;
    var fields: JsString := [];
    var i := 0;
    while i < len
      invariant 0 <= i <= len
      invariant FieldsUpTo(encoding, entries, i, sep, eq) == Ok(fields)
    {
      var next := AppendEntry(enc, entries[i].0, entries[i].1, i == flast, sep, eq, fields);
      FieldsStep(encoding, entries, i, i + 1, sep, eq, fields, next);
      if next.Err? {
        FieldsFailed(encoding, entries, i + 1, sep, eq, next.error);
        return next;
      }
      fields := next.value;
      i := i + 1;
    }
    return Ok(fields);
  }

  // ---------------------------------------------------------------------
  // The pairs and how they are separated

  /** The texts of `ps` with `sep` between them, as `ps.join(sep)` writes them. */
  function Join(ps: seq<JsString>, sep: JsString): JsString {
    if |ps| == 0 then [] else if |ps| == 1 then ps[0] else ps[0] + sep + Join(ps[1..], sep)
  }

  /** The texts of `ps`, each followed by `sep`. */
  function Terminated(ps: seq<JsString>, sep: JsString): JsString {
    if |ps| == 0 then [] else ps[0] + sep + Terminated(ps[1..], sep)
  }

  lemma {:induction false} TerminatedSnoc(ps: seq<JsString>, p: JsString, sep: JsString)
    ensures Terminated(ps + [p], sep) == Terminated(ps, sep) + (p + sep)
  {
    if |ps| > 0 {
      assert (ps + [p])[1..] == ps[1..] + [p];
      TerminatedSnoc(ps[1..], p, sep);
    }
  }

  lemma {:induction false} JoinSnoc(ps: seq<JsString>, p: JsString, sep: JsString)
    ensures Join(ps + [p], sep) == Terminated(ps, sep) + p
  {
    if |ps| > 0 {
      assert (ps + [p])[1..] == ps[1..] + [p];
      JoinSnoc(ps[1..], p, sep);
    }
  }

  lemma {:induction false} TerminatedAppend(a: seq<JsString>, b: seq<JsString>, sep: JsString)
    ensures Terminated(a + b, sep) == Terminated(a, sep) + Terminated(b, sep)
  {
    if |a| > 0 {
      assert (a + b)[1..] == a[1..] + b;
      TerminatedAppend(a[1..], b, sep);
    } else {
      assert a + b == b;
    }
  }

  lemma {:induction false} JoinAppend(a: seq<JsString>, b: seq<JsString>, sep: JsString)
    requires |b| > 0
    ensures Join(a + b, sep) == Terminated(a, sep) + Join(b, sep)
  {
    if |a| > 0 {
      assert (a + b)[1..] == a[1..] + b;
      JoinAppend(a[1..], b, sep);
    } else {
      assert a + b == b;
    }
  }

  lemma {:induction false} TerminatedIsJoin(ps: seq<JsString>, sep: JsString)
    requires |ps| > 0
    ensures Terminated(ps, sep) == Join(ps, sep) + sep
  {
    if |ps| > 1 {
      TerminatedIsJoin(ps[1..], sep);
    }
  }

  /** The pairs `ks + encode(element)` for the first `j` elements of an array value. */
  function ItemPairs(enc: Encoding, ks: JsString, items: seq<Primitive>, j: nat): Result<seq<JsString>, JsError>
    requires j <= |items|
  {
    if j == 0 then Ok([])
    else
      var ps :- ItemPairs(enc, ks, items, j - 1);
      var e :- enc(StringifyPrimitive(items[j - 1]));
      Ok(ps + [ks + e])
  }

  /** The pairs of one entry: one per array element, or the single pair of any other value. */
  function EntryPairs(enc: Encoding, k: JsString, v: FieldValue, eq: JsString): Result<seq<JsString>, JsError> {
    var ke :- enc(k);
    var ks := ke + eq;
    match v
    case Array(items) => ItemPairs(enc, ks, items, |items|)
    case Single(p) =>
      var e :- enc(StringifyPrimitive(p));
      Ok([ks + e])
  }

  /** The pairs of the first `i` entries, in order. */
  function PairsUpTo(enc: Encoding, entries: seq<(JsString, FieldValue)>, i: nat, eq: JsString): Result<seq<JsString>, JsError>
    requires i <= |entries|
  {
    if i == 0 then Ok([])
    else
      var ps :- PairsUpTo(enc, entries, i - 1, eq);
      var qs :- EntryPairs(enc, entries[i - 1].0, entries[i - 1].1, eq);
      Ok(ps + qs)
  }

  /** A pair added in the middle of an array value brings its `sep` along. */
  lemma TerminatedStep(ps: seq<JsString>, ks: JsString, e: JsString, sep: JsString)
    ensures Terminated(ps, sep) + ks + e + sep == Terminated(ps + [ks + e], sep)
  {
    TerminatedSnoc(ps, ks + e, sep);
    Reassociate(Terminated(ps, sep), ks, e, sep);
  }

  /** The last pair of an array value has no `sep` after it. */
  lemma JoinStep(ps: seq<JsString>, ks: JsString, e: JsString, sep: JsString)
    ensures Terminated(ps, sep) + ks + e + [] == Join(ps + [ks + e], sep)
  {
    JoinSnoc(ps, ks + e, sep);
    assert Terminated(ps, sep) + ks + e + [] == Terminated(ps, sep) + (ks + e);
  }

  /** The inner loop writes every element's pair followed by `sep`, except the last. */
  lemma {:induction false} ItemsAsPairs(enc: Encoding, ks: JsString, items: seq<Primitive>, j: nat, sep: JsString)
    requires j <= |items|
    ensures ItemPairs(enc, ks, items, j).Err? ==> ItemsUpTo(enc, ks, items, j, sep) == Err(ItemPairs(enc, ks, items, j).error)
    ensures ItemPairs(enc, ks, items, j).Ok? && j < |items| ==> ItemsUpTo(enc, ks, items, j, sep) == Ok(Terminated(ItemPairs(enc, ks, items, j).value, sep))
    ensures ItemPairs(enc, ks, items, j).Ok? && j == |items| ==> ItemsUpTo(enc, ks, items, j, sep) == Ok(Join(ItemPairs(enc, ks, items, j).value, sep))
  {
    if j > 0 {
      ItemsAsPairs(enc, ks, items, j - 1, sep);
      var p := ItemPairs(enc, ks, items, j - 1);
      var e := enc(StringifyPrimitive(items[j - 1]));
      if p.Ok? && e.Ok? {
        if j < |items| {
          TerminatedStep(p.value, ks, e.value, sep);
        } else {
          JoinStep(p.value, ks, e.value, sep);
        }
      }
    }
  }

  /** One entry's text: its pairs joined by `sep`, and `sep` after the last one unless it is the final entry. */
  lemma EntryAsPairs(enc: Encoding, k: JsString, v: FieldValue, last: bool, sep: JsString, eq: JsString)
    ensures EntryPairs(enc, k, v, eq).Err? ==> EntryText(enc, k, v, last, sep, eq) == Err(EntryPairs(enc, k, v, eq).error)
    ensures EntryPairs(enc, k, v, eq).Ok? ==>
      EntryText(enc, k, v, last, sep, eq) == Ok(if last then Join(EntryPairs(enc, k, v, eq).value, sep) else Terminated(EntryPairs(enc, k, v, eq).value, sep))
  {
    var ke := enc(k);
    if ke.Ok? {
      var ks := ke.value + eq;
      match v
      case Array(items) =>
        ItemsAsPairs(enc, ks, items, |items|, sep);
        var ps := ItemPairs(enc, ks, items, |items|);
        if ps.Ok? {
          ItemsCount(enc, ks, items, |items|);
          var text := Join(ps.value, sep);
          assert EntryText(enc, k, v, last, sep, eq) == Ok(text + (if |items| > 0 && !last then sep else []));
          if |items| > 0 {
            TerminatedIsJoin(ps.value, sep);
          }
          assert text + [] == text;
        }
      case Single(p) =>
        var e := enc(StringifyPrimitive(p));
        if e.Ok? {
          var pair: JsString := ks + e.value;
          var one: seq<JsString> := [pair];
          assert one[1..] == [];
          assert Terminated(one, sep) == pair + sep + [] == pair + sep;
          assert Join(one, sep) == pair == pair + [];
          assert EntryPairs(enc, k, v, eq) == Ok(one);
          assert EntryText(enc, k, v, last, sep, eq) == Ok(pair + (if !last then sep else []));
        } else {
          assert EntryPairs(enc, k, v, eq) == Err(e.error);
          assert EntryText(enc, k, v, last, sep, eq) == Err(e.error);
        }
    }
  }

  /** An entry before the final one is laid out as its pairs, each followed by `sep`. */
  lemma EntryLaidOut(enc: Encoding, k: JsString, v: FieldValue, sep: JsString, eq: JsString)
    ensures LaidOut(EntryText(enc, k, v, false, sep, eq), EntryPairs(enc, k, v, eq), sep)
  {
    EntryAsPairs(enc, k, v, false, sep, eq);
  }

  /** `a` then `b`, or the first exception. */
  function Both<T>(a: Result<seq<T>, JsError>, b: Result<seq<T>, JsError>): Result<seq<T>, JsError> {
    if a.Err? then Err(a.error) else if b.Err? then Err(b.error) else Ok(a.value + b.value)
  }

  /** `text` is `pairs`, each followed by `sep`, or both are the same exception. */
  predicate LaidOut(text: Result<JsString, JsError>, pairs: Result<seq<JsString>, JsError>, sep: JsString) {
    if pairs.Err? then text == Err(pairs.error) else text == Ok(Terminated(pairs.value, sep))
  }

  /** `FieldsUpTo` one entry at a time. */
  lemma FieldsUnfold(enc: Encoding, entries: seq<(JsString, FieldValue)>, i: nat, last: bool, sep: JsString, eq: JsString)
    requires 0 < i <= |entries| && last == (i == |entries|)
    ensures FieldsUpTo(enc, entries, i, sep, eq) ==
      Both(FieldsUpTo(enc, entries, i - 1, sep, eq), EntryText(enc, entries[i - 1].0, entries[i - 1].1, last, sep, eq))
  {
  }

  /** `PairsUpTo` one entry at a time. */
  lemma PairsUnfold(enc: Encoding, entries: seq<(JsString, FieldValue)>, i: nat, eq: JsString)
    requires 0 < i <= |entries|
    ensures PairsUpTo(enc, entries, i, eq) == Both(PairsUpTo(enc, entries, i - 1, eq), EntryPairs(enc, entries[i - 1].0, entries[i - 1].1, eq))
  {
  }

  /** Texts laid out as pairs, put one after the other. */
  lemma LaidOutBoth(f: Result<JsString, JsError>, t: Result<JsString, JsError>, p: Result<seq<JsString>, JsError>, q: Result<seq<JsString>, JsError>, sep: JsString)
    requires LaidOut(f, p, sep) && LaidOut(t, q, sep)
    ensures LaidOut(Both(f, t), Both(p, q), sep)
  {
    if p.Ok? && q.Ok? {
      TerminatedAppend(p.value, q.value, sep);
    }
  }

  /** Before the final entry, `fields` holds every pair so far, each followed by `sep`. */
  lemma {:induction false} FieldsAsPairs(enc: Encoding, entries: seq<(JsString, FieldValue)>, i: nat, sep: JsString, eq: JsString)
    requires i < |entries|
    ensures LaidOut(FieldsUpTo(enc, entries, i, sep, eq), PairsUpTo(enc, entries, i, eq), sep)
  {
    if i > 0 {
      FieldsAsPairs(enc, entries, i - 1, sep, eq);
      var entry := entries[i - 1];
      EntryLaidOut(enc, entry.0, entry.1, sep, eq);
      FieldsUnfold(enc, entries, i, false, sep, eq);
      PairsUnfold(enc, entries, i, eq);
      LaidOutBoth(FieldsUpTo(enc, entries, i - 1, sep, eq), EntryText(enc, entry.0, entry.1, false, sep, eq),
        PairsUpTo(enc, entries, i - 1, eq), EntryPairs(enc, entry.0, entry.1, eq), sep);
    }
  }

  /** The final entry is an array with no elements: it writes no pair, but the `sep` before it stays. */
  predicate EndsWithEmptyArray(entries: seq<(JsString, FieldValue)>) {
    |entries| > 0 && entries[|entries| - 1].1 == Array([])
  }

  /** The text of all entries: the pairs joined by `sep`, plus the `sep` an empty final array leaves behind. */
  function Joined(ps: seq<JsString>, entries: seq<(JsString, FieldValue)>, sep: JsString): JsString {
    Join(ps, sep) + (if EndsWithEmptyArray(entries) && |ps| > 0 then sep else [])
  }

  /** The pairs before the final entry, each followed by `sep`, then the final entry's pairs joined. */
  lemma JoinedLast(ps: seq<JsString>, qs: seq<JsString>, entries: seq<(JsString, FieldValue)>, sep: JsString)
    requires EndsWithEmptyArray(entries) <==> qs == []
    ensures Terminated(ps, sep) + Join(qs, sep) == Joined(ps + qs, entries, sep)
  {
    var front := Terminated(ps, sep);
    if |qs| > 0 {
      JoinAppend(ps, qs, sep);
      assert Joined(ps + qs, entries, sep) == Join(ps + qs, sep) + [];
    } else {
      assert ps + qs == ps;
      assert front + Join(qs, sep) == front + [];
      if |ps| > 0 {
        TerminatedIsJoin(ps, sep);
      }
    }
  }

  /** The outer loop over all entries writes `Joined` of their pairs, or fails as the pairs fail. */
  lemma FieldsJoinPairs(enc: Encoding, entries: seq<(JsString, FieldValue)>, sep: JsString, eq: JsString)
    ensures PairsUpTo(enc, entries, |entries|, eq).Err? ==>
      FieldsUpTo(enc, entries, |entries|, sep, eq) == Err(PairsUpTo(enc, entries, |entries|, eq).error)
    ensures PairsUpTo(enc, entries, |entries|, eq).Ok? ==>
      FieldsUpTo(enc, entries, |entries|, sep, eq) == Ok(Joined(PairsUpTo(enc, entries, |entries|, eq).value, entries, sep))
  {
    var n := |entries|;
    if n > 0 {
      FieldsAsPairs(enc, entries, n - 1, sep, eq);
      var entry := entries[n - 1];
      EntryAsPairs(enc, entry.0, entry.1, true, sep, eq);
      FieldsUnfold(enc, entries, n, true, sep, eq);
      PairsUnfold(enc, entries, n, eq);
      var ps := PairsUpTo(enc, entries, n - 1, eq);
      var qs := EntryPairs(enc, entry.0, entry.1, eq);
      if ps.Ok? && qs.Ok? {
        EntryPairsEmpty(enc, entry.0, entry.1, eq);
        JoinedLast(ps.value, qs.value, entries, sep);
      }
    } else {
      assert Joined([], entries, sep) == [] + [];
    }
  }

  /**
   * `stringify` writes the pairs of all entries, in order, joined by `sep`
   * -- with one `sep` too many at the end when the final entry is an empty
   * array and some pair precedes it -- or throws the first exception an
   * encoder throws.
   */
  lemma StringifyJoinsPairs(entries: seq<(JsString, FieldValue)>, sepArg: Separator, eqArg: Separator, enc: Encoder)
    ensures var ps := PairsUpTo(EncodingOf(enc), entries, |entries|, SeparatorUnits(eqArg, [EqualsSign]));
      StringifyResult(Object(entries), sepArg, eqArg, enc) ==
        if ps.Err? then Err(ps.error) else Ok(Joined(ps.value, entries, SeparatorUnits(sepArg, [Ampersand])))
  {
    FieldsJoinPairs(EncodingOf(enc), entries, SeparatorUnits(sepArg, [Ampersand]), SeparatorUnits(eqArg, [EqualsSign]));
  }

  /** Only an array with no elements writes no pair. */
  lemma EntryPairsEmpty(enc: Encoding, k: JsString, v: FieldValue, eq: JsString)
    requires EntryPairs(enc, k, v, eq).Ok?
    ensures EntryPairs(enc, k, v, eq).value == [] <==> v == Array([])
  {
    if v.Array? {
      ItemsCount(enc, enc(k).value + eq, v.items, |v.items|);
    }
  }

  /** An array value writes one pair per element. */
  lemma {:induction false} ItemsCount(enc: Encoding, ks: JsString, items: seq<Primitive>, j: nat)
    requires j <= |items|
    ensures ItemPairs(enc, ks, items, j).Ok? ==> |ItemPairs(enc, ks, items, j).value| == j
  {
    if j > 0 {
      ItemsCount(enc, ks, items, j - 1);
    }
  }

  /**
   * `stringify({a: 'x', b: []})` is `'a=x&'`: the empty array writes no
   * pair, but the `&` after `a=x` was already written.
   */
  lemma TrailingSeparatorExample()
    ensures StringifyResult(Object([([97], Single(Text([120]))), ([98], Array([]))]), Default, Default, Builtin) == Ok([97, 61, 120, 38])
  {
    assert Kept(97) && Kept(98) && Kept(120);
    EscapeIdentity([97]);
    EscapeIdentity([120]);
    EscapeIdentity([98]);
    var entries := [([97], Single(Text([120]))), ([98], Array([]))];
    var enc := EncodingOf(Builtin);
    assert enc([97]) == Ok([97]) && enc([98]) == Ok([98]) && enc([120]) == Ok([120]);
    StringifyJoinsPairs(entries, Default, Default, Builtin);
    assert StringifyPrimitive(Text([120])) == [120];
    assert [97] + [61] + [120] == [97, 61, 120];
    assert EntryPairs(enc, [97], Single(Text([120])), [61]) == Ok([[97, 61, 120]]);
    assert EntryPairs(enc, [98], Array([]), [61]) == Ok([]);
    var pair: JsString := [97, 61, 120];
    PairsUnfold(enc, entries, 1, [61]);
    PairsUnfold(enc, entries, 2, [61]);
    assert [] + [pair] == [pair] && [pair] + [] == [pair];
    assert PairsUpTo(enc, entries, 1, [61]) == Ok([pair]);
    assert PairsUpTo(enc, entries, 2, [61]) == Ok([pair]);
    assert Join([pair], [38]) == pair;
    assert EndsWithEmptyArray(entries);
    assert Joined([pair], entries, [38]) == pair + [38] == [97, 61, 120, 38];
  }
}
