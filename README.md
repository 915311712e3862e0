# querystring-es3 in Dafny

A model of `src/index.js` of querystring-es3, the browser port of Node's
`querystring` module, with proofs about it. The model covers the percent
decoder `unescapeBuffer` and its `unhexTable`, and the decoders built on it:
`qsUnescape` and `decodeStr`. It covers the encoder `qsEscape` with its
`hexTable` and `noEscape` tables, the serializer (`stringifyPrimitive` and
`stringify`), and the parser `parse` with its helpers `charCodes` and
`indexOf`.

JavaScript strings are sequences of UTF-16 code units (`JsText.JsString`).
A `Buffer` is a sequence of bytes. An exception is the `Err` case of a
`Result`. The platform's `decodeURIComponent` and `Buffer#toString()` are
function values in `Decoding.Platform`. Callbacks passed in `options` are
function values that return `None` where they throw.

Modules and their flavour:

- `JsText`: code units, bytes, errors and `String#slice`.
- `PercentDecode`: the byte-writing loop of `unescapeBuffer`. It is a
  method over an `array` of bytes. The method is proved equal to the
  token-by-token function `Unescape`.
- `Decoding`: `qsUnescape` and `decodeStr`, as functions over the platform.
- `PercentEncode`: the two tables and the `qsEscape` loop. `QsEscape` is a
  method proved equal to `Escape`, which is defined one code point at a
  time.
- `RoundTrip`: decoding what `qsEscape` produced.
- `Stringify`: the `stringify` loops. They are methods proved equal to
  `StringifyResult`. Lemmas then describe that result as the `key=value`
  pairs joined by `sep`.
- `ParseSpec`: the loop state of `parse` and one pass of its body
  (`Step`), the loop (`Run`) and the flush after it (`Finish`).
- `Parser`: `parse` as a method with the same loop. It is proved equal to
  `ParseSpec.ParseResult`.
- `ParseProps`: invariants of the parse loop and what they give for the
  result.
- `ParsePairs`: how the loop of `parse` reads a text made of plain pairs,
  one stretch of units at a time, and the result for such a text.
- `ParseOptions`: what the options of `parse` change, for every text.
- `ParseExamples`: whole-call results for families of inputs and for the
  repository's test cases.

Where the code and the repository's tests disagree, the model follows the
code:

- In the loop of `parse`, a repeated key whose stored value is `''` keeps
  `''` (src/index.js:372-379, `obj[key] || ''` followed by
  `else if (curValue)`). The tests expect `{ a: ['', ''] }` for `'a&a&'`
  (test/index.js:151-153). The code gives `{ a: '' }`; see
  `ParseExamples.RepeatedEmptyKey`.
- For the same reason, the code gives `{ a: ['', ''] }` for
  `'a=&a=value&a='`, while test/index.js:154 expects three values: the
  `value` is dropped; see `ParseExamples.EmptyFirstValue`.
- The flush after the loop merges even a stored `''`
  (src/index.js:481-489). So `'a&a'` gives `{ a: ['', ''] }`; see
  `ParseExamples.RepeatedKeyAtEnd`.
- `parse` can throw. A one-unit `sep` repeated at the very start stores
  `''`, then deletes it from the object but not from `keys`. A later
  flush of the key `''` after the loop then reads `.pop` of `undefined`.
  `'&&='` throws a `TypeError`.
- `stringify` leaves a trailing `sep` when the last entry holds an empty
  array and an earlier entry wrote a pair.

## Model

| member | source | states |
|---|---|---|
| JsText.ToByte | src/index.js:113-114 | Storing a code unit below 256 in the buffer stores that unit itself |
| JsText.Slice | src/index.js:199-200 | `str.slice(start, end)` with in-range bounds is exactly the units `start..end`; it is never longer than the string |
| PercentDecode.Unhex | src/index.js:66-83 | Non-negative exactly for the hexadecimal digits (both cases), below 16 for them, and `c - 48` for a decimal digit |
| PercentDecode.UnhexTableAgrees | src/index.js:66-83 | The 256-entry literal table equals `Unhex` at every index |
| PercentDecode.Token | src/index.js:101-141 | One escape spans at least one unit and yields at least one byte, never more bytes than units; it spans exactly one unit iff the unit is not `%` or is the last one |
| PercentDecode.Unescape | src/index.js:85-148 | The output is never longer than the input, which is why a buffer of `s.length` bytes suffices |
| PercentDecode.Emit | src/index.js:95-97 | Writing bytes at `outIndex` appends them to the written prefix and advances the index by their count |
| PercentDecode.Step | src/index.js:90-142 | One pass of the state machine keeps the pending `%`/`%h` state consistent and emits exactly the bytes the spec assigns to the text it completes |
| PercentDecode.Finish | src/index.js:93-99 | At the end of input a pending `%` or `%h` is copied out verbatim, completing the spec's bytes |
| PercentDecode.UnescapeBuffer | src/index.js:85-148 | The loop over the array returns exactly `Unescape(s, decodeSpaces)` |
| PercentDecode.UnescapeConsUnit | src/index.js:102-116 | A unit other than `%` (and other than `+` when spaces are decoded) contributes its own byte, followed by the rest |
| PercentDecode.UnescapeConsTriplet | src/index.js:118-141 | `%` with two hexadecimal digits contributes the byte `16*hi + lo`, followed by the rest |
| PercentDecode.UnescapeConsPlus | src/index.js:109-114 | With `decodeSpaces`, a `+` contributes a space byte, followed by the rest |
| PercentDecode.UnescapeConsBadPercent | src/index.js:119-126 | `%` followed by a unit that is not a hexadecimal digit contributes `%` and that unit's byte, and decoding resumes after them |
| PercentDecode.UnescapeConsHalfEscape | src/index.js:131-138 | `%`, a hexadecimal digit and a unit that is not one contribute the three units' bytes as written, and decoding resumes after them |
| PercentDecode.UnescapeTrailingPercent | src/index.js:93-99 | A `%` that ends the input comes out as `%`, after whatever the text before it decodes to |
| PercentDecode.UnescapeTrailingHalf | src/index.js:93-99 | A `%` and one hexadecimal digit that end the input come out as written, after whatever the text before it decodes to |
| PercentDecode.UnescapeVerbatim | src/index.js:85-148 | Text of units below 256 with no `%` (and no `+` when spaces are decoded) comes out unchanged |
| PercentDecode.UnescapeSpacesIrrelevant | src/index.js:109-111 | Without a `+`, the `decodeSpaces` flag makes no difference |
| Decoding.DecodeStr | src/index.js:499-505 | The definition of `decodeStr`: `qsUnescape(s)` for the built-in decoder, a custom decoder's answer, or `qsUnescape(s, true)` when the custom decoder throws. It has no contract of its own; its fallback promise is proved for `parse` as a whole by `ParseOptions.ThrowingDecoder` |
| Decoding.QsUnescapeSpaces | src/index.js:151-157 | Without a `+`, `qsUnescape` does not depend on `decodeSpaces` |
| Decoding.QsUnescapeFallback | src/index.js:151-157 | When `decodeURIComponent` throws, the result is `unescapeBuffer`'s bytes read by `toString`; for text with nothing to decode, those bytes are the text itself |
| PercentEncode.HexTableSpelling | src/index.js:160-162 | `'%' + ((i < 16 ? '0' : '') + i.toString(16)).toUpperCase()` is `%` followed by two upper-case hexadecimal digits of `i` |
| PercentEncode.BuildHexTable | src/index.js:160-162 | The table-building loop gives 256 entries, each equal to `HexTable(i)` |
| PercentEncode.NoEscapeTableAgrees | src/index.js:170-179 | The 128-entry literal table marks exactly the letters, digits and ``! ' ( ) * - . _ ~`` |
| PercentEncode.CodePointAt | src/index.js:192-230 | A non-surrogate unit is one code point; a surrogate pairs with the next unit into a supplementary code point; only a surrogate at the end has no code point |
| PercentEncode.Utf8 | src/index.js:210-234 | Every code point is one to four bytes |
| PercentEncode.EncodeAt | src/index.js:192-234 | The loop body for a unit that must be escaped writes exactly `EscapeToken`, or throws on a lone final surrogate |
| PercentEncode.QsEscape | src/index.js:182-241 | The loop (with its `lastPos` bookkeeping and the early `return str`) returns exactly `Escape(str)` |
| PercentEncode.Utf8RoundTrip | src/index.js:210-234 | The bytes written for a non-surrogate code point decode back to it |
| PercentEncode.Utf8Unique | src/index.js:210-234 | Any byte sequence that decodes is the encoding of what it decodes to |
| PercentEncode.EscapeGrows | src/index.js:182-241 | The output is never shorter than the input, and has equal length iff every unit is kept |
| PercentEncode.EscapeIdentity | src/index.js:236-237 | `qsEscape(s)` is `s` itself iff every unit is a `noEscape` character |
| PercentEncode.EscapeAlphabet | src/index.js:182-241 | Every unit of the output is a `noEscape` character or `%` |
| PercentEncode.PercentBytesAlphabet | src/index.js:160-162 | `hexTable` entries consist of `%` and upper-case hexadecimal digits |
| PercentEncode.EscapeError | src/index.js:222-228 | `qsEscape` throws `URIError` iff the string ends in an odd run of surrogates, so it fails only when its last unit is a surrogate |
| PercentEncode.TrailingSurrogates | src/index.js:222-228 | Counts the surrogates that end the string: all counted units are surrogates and the one before them is not |
| RoundTrip.UnescapeHexTable | src/index.js:118-162 | `unescapeBuffer` reads a `hexTable` entry back as its byte |
| RoundTrip.UnescapePercentBytes | src/index.js:118-162 | A run of `hexTable` entries decodes to its bytes |
| RoundTrip.EscapeThenUnescape | src/index.js:85-241 | `unescapeBuffer(qsEscape(s))` is the UTF-8 encoding of `s`, for either `decodeSpaces` |
| Stringify.Digits | src/index.js:246-247 | The decimal text of a natural number has digits only and no leading zero |
| Stringify.DigitsRoundTrip | src/index.js:246-247 | Reading the digits back gives the number |
| Stringify.DecimalRoundTrip | src/index.js:243-251 | `stringifyPrimitive` of an integer of magnitude at most 2^53 is its decimal text (with `-` when negative), which reads back as that number |
| Stringify.ItemsFailed | src/index.js:276-280 | An encoder exception on an array element is the exception of the whole call |
| Stringify.FieldsFailed | src/index.js:268-288 | An encoder exception on any entry is the exception of the whole call |
| Stringify.CallEncoder | src/index.js:258-261 | The encoder called is `qsEscape` unless `options.encodeURIComponent` is a function |
| Stringify.AppendItems | src/index.js:273-282 | The inner loop appends `ks + encode(v[j])` per element, with `sep` between elements |
| Stringify.AppendValue | src/index.js:273-287 | One entry's value text is appended, with the trailing `sep` rules for arrays and single values |
| Stringify.AppendEntry | src/index.js:269-287 | One pass of the outer loop appends the encoded key, `eq` and the value text |
| Stringify.StringifyObject | src/index.js:254-292 | The whole function returns exactly `StringifyResult`: `''` for a non-object, else the text of the loops |
| Stringify.ItemsAsPairs | src/index.js:273-282 | The inner loop's text is its `key=value` pairs joined by `sep` (each followed by `sep` before the end) |
| Stringify.EntryAsPairs | src/index.js:269-287 | An entry's text is its pairs joined by `sep`, followed by `sep` when it is not the last entry and has a pair |
| Stringify.FieldsAsPairs | src/index.js:268-288 | The text of the first entries is their pairs, each followed by `sep` |
| Stringify.FieldsJoinPairs | src/index.js:254-292 | The text of all entries is all their pairs joined by `sep`, plus one trailing `sep` exactly when the last entry is an empty array and there is a pair |
| Stringify.StringifyJoinsPairs | src/index.js:254-292 | `stringify(obj)` is every `encode(key) + eq + encode(value)` pair joined by `sep` (with the trailing-`sep` quirk), or the first encoder exception |
| Stringify.EntryPairsEmpty | src/index.js:273-282 | An entry writes no pair iff its value is an empty array |
| Stringify.ItemsCount | src/index.js:276-280 | An array value writes one pair per element |
| Stringify.TrailingSeparatorExample | src/index.js:281-286 | `{a: 'x', b: []}` stringifies to `a=x&`, with a trailing separator |
| Parser.CharCodes | src/index.js:294-301 | The array of code units is the string's units, in order |
| Parser.ToInt32 | src/index.js:43 | `n \| 0` is a signed 32-bit value congruent to `n` modulo 2^32, equal to `n` when it is in range |
| Parser.IndexOf | src/index.js:29-58 | The polyfill returns the first index at or after the start position that holds the element, or -1 when none does |
| Parser.NotFound | src/index.js:368 | `indexOf(keys, key) === -1` holds iff `key` is not among `keys` |
| Parser.StorePair | src/index.js:368-380 | The in-loop store computes `StoreInLoop`: a new key gets the value; a repeated key gets the value appended, or becomes a two-element list, unless it holds `''` |
| Parser.TakePending | src/index.js:352-363 | The pending text goes to the key before `eq` and to the value after; each is decoded when flagged |
| Parser.CompletePair | src/index.js:349-395 | Completing `sep` flushes the pair (or deletes it at index 1), spends one key, and resets the loop state unless the budget is spent |
| Parser.AppendSpace | src/index.js:446-460 | A `+` appends the pending text and `%20` to the open field and flags it for decoding |
| Parser.OrdinaryUnit | src/index.js:396-460 | A unit not matching `sep` feeds the `%XX` sniffers, the `eq` match and the `+` rule exactly as `ParseSpec.Ordinary` |
| Parser.ScanUnit | src/index.js:346-460 | One pass of the loop body computes `ParseSpec.Step` |
| Parser.FinishPairs | src/index.js:463-490 | The flush after the loop computes `ParseSpec.Finish`, including the `TypeError` on a deleted key |
| Parser.Parse | src/index.js:306-493 | The method returns exactly `ParseResult` (the empty object for `''`, otherwise the loop and the final flush) |
| ParseProps.StoreInLoopTidy | src/index.js:368-380 | Storing in the loop keeps the keys free of duplicates and every stored list at two or more values, and adds at most one key |
| ParseProps.FlushTidy | src/index.js:365-385 | The flush at a completed `sep` keeps those invariants; only the `''` deleted at index 1 can be in `keys` but missing from the object |
| ParseProps.StepInv | src/index.js:346-460 | One pass of the loop keeps the invariant: keys within the `maxKeys` budget, and tidy object and keys |
| ParseProps.RunInv | src/index.js:346-461 | The whole loop keeps the invariant |
| ParseProps.StoreAtEndProps | src/index.js:463-490 | The final flush keeps lists at two or more values, adds at most one key, and fails only with `TypeError` for a key in `keys` but missing from the object |
| ParseProps.FinishProps | src/index.js:463-490 | After the loop, the result stays within the budget, and a `TypeError` needs the doubled leading separator |
| ParseProps.ParseWithinBudget | src/index.js:318-327 | A parsed object has at most `maxKeys` keys (1000 by default) when the limit is positive, and every list in it has at least two values |
| ParseProps.ParseThrows | src/index.js:477-489 | `parse` throws only a `TypeError`, and only when `sep` is one unit long and the string starts with it twice |
| ParsePairs.Quiet | src/index.js:396-460 | A unit that is no part of `sep`, not `%` or `+`, and not the next unit of `eq` while the key is open, read in a calm state, leaves the loop state as it is |
| ParsePairs.QuietRun | src/index.js:345-460 | A stretch of such units leaves the loop state as it is |
| ParsePairs.FieldRun | src/index.js:416-444 | Reading `k`, `eq` and a plain value `t` moves exactly `k` into the key and leaves `t` pending |
| ParsePairs.FieldEnd | src/index.js:463-479 | A value left pending at the end of the string is flushed as the final pair |
| ParsePairs.ReadPairs | src/index.js:345-490 | From a fresh state, text holding the pairs `ps` to its end is read as those pairs stored one by one, in input order |
| ParsePairs.ParseAsStores | src/index.js:306-493 | `parse` of plain pairs joined by `sep` is the in-loop store applied to each pair in order, with the flush after the loop storing the last, for any separators of any length that the pairs cannot be mistaken for |
| ParseOptions.UnlimitedKeys | src/index.js:318-327 | A `maxKeys` of zero or less gives the same result as any limit above the text's length, so no key is dropped; a missing `maxKeys` gives the same for texts shorter than 1000 units |
| ParseOptions.ThrowingDecoder | src/index.js:499-505 | A custom decoder that always throws gives the same result as one that is `qsUnescape(s, true)`, for every text and option |
| ParseOptions.SameSeparators | src/index.js:345-395 | When `sep` and `eq` are the same single unit, the separator match comes first, so every stored value is `''` or a list of `''`s, for any decoder that maps `''` to `''` (the built-in one does; a custom decoder mapping `''` to other text stores that text) |
| ParseExamples.OnePair | src/index.js:306-493 | `parse('k=v')` is `{k: 'v'}` for text without `& + %` (and no `=` in `k`) |
| ParseExamples.ThrowingDecoderExample | test/test-querystring.js:375-381 | `parse('a=a')` with a decoder that always throws is `{a: 'a'}` |
| ParseExamples.CustomDecoderExample | test/test-querystring.js:365-372 | `parse('a=a&b=b&c=c')` with a decoder that doubles its input is `{aa: 'aa', bb: 'bb', cc: 'cc'}` |
| ParseExamples.MultiUnitSeparators | test/test-querystring-multichar-separator.js:22-25 | `parse('foo=>bar&&bar=>baz', '&&', '=>')` is `{foo: 'bar', bar: 'baz'}` |
| ParseExamples.MultiUnitSeparatorsSpaced | test/test-querystring-multichar-separator.js:32-35 | `parse('foo==>bar, bar==>baz', ', ', '==>')` is `{foo: 'bar', bar: 'baz'}` |
| ParseExamples.RepeatedKeyStored | src/index.js:368-380 | Storing a key repeated with the values `vs` gives the list of all of them in input order, unless the first is `''` and at least two follow, when the loop leaves it alone and only the last joins it |
| ParseExamples.RepeatedKey | src/index.js:306-493 | `parse` of a plain key repeated with any number of values gives that key a list of its values in input order, with the `''`-first exception |
| ParseExamples.RepeatedKeyExample | test/test-querystring.js:62-67 | `parse('arr=1&arr=2&arr=3')` is `{arr: ['1', '2', '3']}` |
| ParseExamples.EmptyFirstValue | test/index.js:154 | `parse('a=&a=value&a=')` is `{a: ['', '']}` (the test expects three values; see above) |
| ParseExamples.SameSeparatorsExample | test/test-querystring.js:414-416 | `parse('foo&bar', '&', '&')` is `{foo: '', bar: ''}` |
| ParseExamples.DoubledSepThrows | src/index.js:381-385 | `parse('&&=')` throws `TypeError` |
| ParseExamples.RepeatedEmptyKey | src/index.js:372-379 | `parse('a&a&')` is `{a: ''}` |
| ParseExamples.RepeatedKeyAtEnd | src/index.js:481-489 | `parse('a&a')` is `{a: ['', '']}` |

## Left out

- The platform's `decodeURIComponent` and `Buffer#toString()` are parameters (`Decoding.Platform`); UTF-8 decoding of buffers is not modelled.
- The replaceable slots `QueryString.unescape`, `QueryString.unescapeBuffer` and `QueryString.escape`: the model always calls the library's own functions through them.
- A custom decoder or encoder is a function from strings to strings (or an exception); one that returns a non-string, or that has side effects, is not modelled.
- Arguments that are not strings: the coercions `String(str)` and `str += ''` in `qsEscape`, `sep + ''` and `eq + ''` in `parse`, and a non-string `qs`.
- `stringifyPrimitive` for numbers is modelled for integers up to 2^53 in magnitude, where every integer is a JavaScript number and its shortest round-trip digits are its exact digits. Larger integer-valued numbers (written with the shortest round-trip digits and zero padding, e.g. 2^60 as `1152921504606847000`), exponent notation from 10^21 on, and fractional numbers are left out (floating point).
- `maxKeys` that is `NaN`, infinite or fractional; the model takes an integer or no number.
- `Object.keys` enumeration order (src/object-keys.js is not part of this model): `stringify` takes the entries as an ordered sequence, and `parse` returns a map, so integer-like keys reordered by JavaScript are not modelled.
- The null-prototype `ParsedQueryString` object and `isArray`: parsed objects are maps, and an array value is marked by its constructor.
- `Stringify.StringifyObject`: an array passed as the top-level object is modelled only through its entries (index keys with values).
- `Parser.IndexOf`: `o.length >>> 0` is the sequence length, since the model's arrays are shorter than 2^32; the `arr == null` `TypeError` and holes (`k in o`) cannot occur for the `keys` array and are not modelled.
- Bit operations (`>>`, `&`, `|`, `<<`) in `qsEscape` are written as the equivalent division and remainder on the non-negative operands they see.
- The space that `+` becomes depends on the platform decoder, and `%20` is what the model passes to it.
- JsText.ToByte: its contract covers units below 256 only; a larger unit is stored modulo 256, as a `Buffer` does, which only its definition states.
- ParsePairs.ParseAsStores: covers texts of pairs whose keys and values hold no unit of `sep`, no `%` or `+`, and no unit of `eq` in the key. When more than one pair follows, the first key and `eq` together must be longer than `sep`. Other texts are covered only by `ParseSpec` and the invariants in `ParseProps`.
- ParseOptions.UnlimitedKeys: compares with limits above the text's length, which no text can reach, rather than with an infinite limit, which the model's integers cannot express.
