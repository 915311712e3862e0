/**
 * The decoding entry points `qsUnescape` (src/index.js:151-157) and
 * `decodeStr` (src/index.js:499-505). Both are a `try` around a function
 * the model cannot see: the platform's `decodeURIComponent`, or a decoder
 * the caller passed to `parse`. A throwing call is `None`, and the `catch`
 * falls back to the permissive decoder of `PercentDecode`.
 */
module Decoding {
  import opened Wrappers
  import opened JsText
  import opened PercentDecode

  /**
   * The two services of the JavaScript platform used here:
   * `decodeURIComponent`, which returns `None` where it throws `URIError`,
   * and `Buffer#toString()`, which reads bytes as UTF-8.
   */
  datatype Platform = Platform(
    decodeURIComponent: JsString -> Option<JsString>,
    bufferToString: seq<Byte> -> JsString)

  /**
   * The decoder `parse` uses: the library's own `qsUnescape`, or the
   * function passed as `options.decodeURIComponent` (`None` where it throws).
   */
  datatype Decoder = Builtin | Custom(f: JsString -> Option<JsString>)

  /** `qsUnescape(s, decodeSpaces)`: the platform decoder, else the permissive one. */
  function QsUnescape(p: Platform, s: JsString, decodeSpaces: bool): JsString {
    match p.decodeURIComponent(s)
    case Some(t) => t
    case None => p.bufferToString(Unescape(s, decodeSpaces))
  }

  /**
   * `decodeStr(s, decoder)`. The built-in decoder is called with one
   * argument, so its `decodeSpaces` is `undefined`; a throwing custom
   * decoder is replaced by `QueryString.unescape(s, true)`.
   */
  function DecodeStr(p: Platform, s: JsString, decoder: Decoder): JsString {
    match decoder
    case Builtin => QsUnescape(p, s, false)
    case Custom(f) => if f(s).Some? then f(s).value else QsUnescape(p, s, true)
  }

  /** Without a `+` in the text, `decodeSpaces` makes no difference to `qsUnescape`. */
  lemma QsUnescapeSpaces(p: Platform, s: JsString)
    requires forall k :: 0 <= k < |s| ==> s[k] != Plus
    ensures QsUnescape(p, s, true) == QsUnescape(p, s, false)
  {
    UnescapeSpacesIrrelevant(s, 0);
  }

  /**
   * `qsUnescape` never throws: when the platform decoder refuses the text,
   * the result is the UTF-8 reading of the permissive decoder's bytes, which
   * keep every malformed escape as it was written.
   */
  lemma QsUnescapeFallback(p: Platform, s: JsString, decodeSpaces: bool)
    requires p.decodeURIComponent(s).None?
    ensures QsUnescape(p, s, decodeSpaces) == p.bufferToString(Unescape(s, decodeSpaces))
    ensures (forall k :: 0 <= k < |s| ==> s[k] < 0x100 && s[k] != Percent && !(s[k] == Plus && decodeSpaces))
      ==> QsUnescape(p, s, decodeSpaces) == p.bufferToString(s)
  {
    if forall k :: 0 <= k < |s| ==> s[k] < 0x100 && s[k] != Percent && !(s[k] == Plus && decodeSpaces) {
      UnescapeVerbatim(s, decodeSpaces);
    }
  }
}
