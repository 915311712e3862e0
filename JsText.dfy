/**
 * JavaScript strings as the library sees them: sequences of UTF-16 code
 * units, read one at a time with `charCodeAt`. A code unit may be a lone
 * surrogate, which is why the model does not use Dafny's `char`.
 */
module JsText {

  /** One UTF-16 code unit, the value of `str.charCodeAt(i)`. */
  type CodeUnit = u: int | 0 <= u < 0x1_0000

  /** A JavaScript string. */
  type JsString = seq<CodeUnit>

  /** One octet of a Node.js `Buffer`. */
  type Byte = b: int | 0 <= b < 0x100

  /** The exceptions the modelled functions can throw. */
  datatype JsError =
    | URIError    // `new URIError('URI malformed')` from the encoder
    | TypeError   // reading `.pop` of `undefined`
    | Thrown      // whatever a caller-supplied encoder or decoder threw

  /**
   * A separator argument of `parse` or `stringify`. `Default` stands for any
   * falsy argument (`undefined`, `null`, `''`), which selects `&` or `=`;
   * `Given` holds the code units of `String(arg)` for a truthy argument,
   * which may be empty (an empty array, say).
   */
  datatype Separator = Default | Given(units: JsString)

  const Percent: CodeUnit := 37
  const Plus: CodeUnit := 43
  const Space: CodeUnit := 32
  const Ampersand: CodeUnit := 38
  const EqualsSign: CodeUnit := 61

  /** `0-9`, `A-F` or `a-f`: the entries of `unhexTable` that are not -1. */
  predicate IsHexDigit(c: int) {
    48 <= c <= 57 || 65 <= c <= 70 || 97 <= c <= 102
  }

  predicate IsSurrogate(c: int) {
    0xD800 <= c < 0xE000
  }

  /** The value Buffer stores for `out[k] = c`: the code unit modulo 256. */
  function ToByte(c: CodeUnit): (b: Byte)
    ensures c < 0x100 ==> b == c
  {
    c % 0x100
  }

  /** `sep || '&'` and `eq || '='`: a falsy argument selects the default. */
  function SeparatorUnits(sep: Separator, default: JsString): JsString {
    if sep.Default? then default else sep.units
  }

  /**
   * `s.slice(start, end)`: a negative position counts from the end, and
   * both positions are clamped to the string.
   */
  function Slice(s: JsString, start: int, end: int): (r: JsString)
    ensures 0 <= start <= end <= |s| ==> r == s[start..end]
    ensures |r| <= |s|
  {
    var from := if start < 0 then if |s| + start < 0 then 0 else |s| + start else if start > |s| then |s| else start;
    var to := if end < 0 then if |s| + end < 0 then 0 else |s| + end else if end > |s| then |s| else end;
    if from < to then s[from..to] else []
  }
}
