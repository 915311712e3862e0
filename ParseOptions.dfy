/**
 * How the options of `parse` (src/index.js:306-493) change what it reads,
 * for any text: a `maxKeys` of zero or less lifts the limit, a custom
 * decoder that always throws leaves every field to `qsUnescape`, and equal
 * one-unit separators leave every value empty.
 */
module ParseOptions {
  import opened Wrappers
  import opened JsText
  import opened Decoding
  import opened ParseSpec

  // ---------------------------------------------------------------------
  // maxKeys

  /** Two states that differ at most in their budget. */
  predicate SameBut(a: State, b: State) {
    a.(pairs := 0) == b.(pairs := 0)
  }

  /** The escape searches leave the budget alone. */
  lemma SniffBudget(st: State, code: CodeUnit, n: int)
    ensures SniffValue(st.(pairs := n), code) == SniffValue(st, code).(pairs := n)
    ensures SniffKey(st.(pairs := n), code) == SniffKey(st, code).(pairs := n)
  {
  }

  /** A unit that does not end a pair leaves the budget alone. */
  lemma OrdinaryBudget(u: Setup, st: State, i: nat, n: int)
    requires i < |u.qs|
    ensures Ordinary(u, st.(pairs := n), i) == Ordinary(u, st, i).(pairs := n)
  {
    var code := u.qs[i];
    SniffBudget(st.(sepIdx := 0), code, n);
    assert st.(pairs := n).(sepIdx := 0) == st.(sepIdx := 0).(pairs := n);
    var s1 := SniffValue(st.(sepIdx := 0), code);
    if s1.eqIdx < |u.eqCodes| && Matches(u.eqCodes, s1.eqIdx, code) {
      assert EndKey(u, s1.(pairs := n), i) == EndKey(u, s1, i).(pairs := n);
    } else {
      var s2 := if s1.eqIdx < |u.eqCodes| then SniffKey(s1.(eqIdx := 0), code) else s1;
      SniffBudget(s1.(eqIdx := 0), code, n);
      assert s1.(pairs := n).(eqIdx := 0) == s1.(eqIdx := 0).(pairs := n);
      assert (if s1.eqIdx < |u.eqCodes| then SniffKey(s1.(pairs := n).(eqIdx := 0), code) else s1.(pairs := n)) == s2.(pairs := n);
      if code == Plus {
        assert PlusAt(u, s2.(pairs := n), i) == PlusAt(u, s2, i).(pairs := n);
      }
    }
  }

  /** A pair ended with budget to spare spends one unit of it and does the same otherwise. */
  lemma EndPairBudget(u: Setup, st: State, i: nat, n: int)
    requires st.pairs != 1 && n != 1
    ensures EndPair(u, st.(pairs := n), i) == EndPair(u, st, i).(pairs := n - 1)
  {
  }

  /** A unit read with no limit, or with budget to spare, does the same. */
  lemma StepUnbounded(u: Setup, a: State, b: State, i: nat)
    requires i < |u.qs| && SameBut(a, b) && a.pairs < 0 && b.pairs > 1
    ensures SameBut(Step(u, a, i), Step(u, b, i))
    ensures Step(u, a, i).pairs < 0 && Step(u, b, i).pairs >= b.pairs - 1
  {
    assert b == a.(pairs := b.pairs);
    if Matches(u.sepCodes, a.sepIdx, u.qs[i]) {
      if a.sepIdx + 1 == |u.sepCodes| {
        EndPairBudget(u, a, i, b.pairs);
      }
    } else {
      OrdinaryBudget(u, a, i, b.pairs);
    }
  }

  /** The loop with no limit, or with more budget than units left, does the same. */
  lemma {:induction false} RunUnbounded(u: Setup, a: State, b: State, i: nat)
    requires i <= |u.qs| && SameBut(a, b) && a.pairs < 0 && b.pairs > |u.qs| - i
    ensures SameBut(Run(u, a, i), Run(u, b, i)) && Run(u, a, i).pairs < 0 && Run(u, b, i).pairs > 0
    decreases |u.qs| - i
  {
    if i < |u.qs| {
      StepUnbounded(u, a, b, i);
      RunUnbounded(u, Step(u, a, i), Step(u, b, i), i + 1);
    }
  }

  /** The flush after the loop does not look at the budget, only at whether it ran out. */
  lemma FinishUnbounded(u: Setup, a: State, b: State)
    requires SameBut(a, b) && a.pairs != 0 && b.pairs != 0
    ensures Finish(u, a) == Finish(u, b)
  {
    assert a == b.(pairs := a.pairs);
  }

  /**
   * A `maxKeys` of zero or less means no limit: `parse` reads the text as
   * with any limit larger than the text; and a missing `maxKeys` (1000)
   * makes no difference for a text shorter than that.
   */
  lemma UnlimitedKeys(qs: JsString, sep: Separator, eq: Separator, m: int, n: int, decoder: Decoder, platform: Platform)
    requires m <= 0 && n > |qs|
    ensures ParseResult(qs, sep, eq, Some(m), decoder, platform) == ParseResult(qs, sep, eq, Some(n), decoder, platform)
    ensures |qs| < 1000 ==> ParseResult(qs, sep, eq, None, decoder, platform) == ParseResult(qs, sep, eq, Some(m), decoder, platform)
  {
    if |qs| > 0 {
      var u := SetupOf(qs, sep, eq, decoder, platform);
      RunUnbounded(u, Start(u, Some(m)), Start(u, Some(n)), 0);
      FinishUnbounded(u, Run(u, Start(u, Some(m)), 0), Run(u, Start(u, Some(n)), 0));
      if |qs| < 1000 {
        RunUnbounded(u, Start(u, Some(m)), Start(u, None), 0);
        FinishUnbounded(u, Run(u, Start(u, Some(m)), 0), Run(u, Start(u, None), 0));
      }
    }
  }

  // ---------------------------------------------------------------------
  // options.decodeURIComponent

  /** Two setups for the same text that decode every field alike. */
  ghost predicate DecodeAlike(u: Setup, v: Setup) {
    && u.qs == v.qs && u.sepCodes == v.sepCodes && u.eqCodes == v.eqCodes
    && u.CustomDecode() == v.CustomDecode()
    && forall t :: DecodeStr(u.platform, t, u.decoder) == DecodeStr(v.platform, t, v.decoder)
  }

  /** A pair is ended alike by setups that decode alike. */
  lemma EndPairAlike(u: Setup, v: Setup, st: State, i: nat)
    requires DecodeAlike(u, v)
    ensures EndPair(u, st, i) == EndPair(v, st, i)
  {
    var end := i - |u.sepCodes| + 1;
    assert PendingKey(u, st, end) == PendingKey(v, st, end);
    assert PendingValue(u, st, end) == PendingValue(v, st, end);
  }

  /** A unit is read alike by setups that decode alike. */
  lemma StepAlike(u: Setup, v: Setup, st: State, i: nat)
    requires i < |u.qs| && DecodeAlike(u, v)
    ensures Step(u, st, i) == Step(v, st, i)
  {
    if Matches(u.sepCodes, st.sepIdx, u.qs[i]) && st.sepIdx + 1 == |u.sepCodes| {
      EndPairAlike(u, v, st, i);
    } else if !Matches(u.sepCodes, st.sepIdx, u.qs[i]) {
      assert Ordinary(u, st, i) == Ordinary(v, st, i);
    }
  }

  /** The loop runs alike in setups that decode alike. */
  lemma {:induction false} RunAlike(u: Setup, v: Setup, st: State, i: nat)
    requires i <= |u.qs| && DecodeAlike(u, v)
    ensures Run(u, st, i) == Run(v, st, i)
    decreases |u.qs| - i
  {
    if i < |u.qs| && st.pairs != 0 {
      StepAlike(u, v, st, i);
      RunAlike(u, v, Step(u, st, i), i + 1);
    }
  }

  /**
   * A custom decoder that always throws: `parse` never throws for it, and
   * reads the text as with a custom decoder that is
   * `QueryString.unescape(s, true)`, so every key and value goes through
   * `qsUnescape` with `+` read as a space.
   */
  lemma ThrowingDecoder(qs: JsString, sep: Separator, eq: Separator, maxKeys: Option<int>, f: JsString -> Option<JsString>, platform: Platform)
    requires forall t :: f(t).None?
    ensures ParseResult(qs, sep, eq, maxKeys, Custom(f), platform)
      == ParseResult(qs, sep, eq, maxKeys, Custom(t => Some(QsUnescape(platform, t, true))), platform)
  {
    if |qs| > 0 {
      var g: JsString -> Option<JsString> := t => Some(QsUnescape(platform, t, true));
      var u := SetupOf(qs, sep, eq, Custom(f), platform);
      var v := SetupOf(qs, sep, eq, Custom(g), platform);
      assert DecodeAlike(u, v);
      RunAlike(u, v, Start(u, maxKeys), 0);
      assert Start(u, maxKeys) == Start(v, maxKeys);
    }
  }

  // ---------------------------------------------------------------------
  // sep and eq the same unit

  /** Every value is `''`, or a list of `''`s. */
  predicate Blank(obj: map<JsString, Value>) {
    forall k :: k in obj ==> obj[k] == Str([]) || (obj[k].List? && forall j :: 0 <= j < |obj[k].items| ==> obj[k].items[j] == [])
  }

  /** Storing `''` in the loop keeps every value blank. */
  lemma BlankInLoop(obj: map<JsString, Value>, keys: seq<JsString>, key: JsString)
    requires Blank(obj)
    ensures Blank(StoreInLoop(obj, keys, key, []).0)
  {
  }

  /** Storing `''` after the loop keeps every value blank. */
  lemma BlankAtEnd(obj: map<JsString, Value>, keys: seq<JsString>, key: JsString)
    requires Blank(obj)
    ensures StoreAtEnd(obj, keys, key, []).Ok? ==> Blank(StoreAtEnd(obj, keys, key, []).value)
  {
    if key in keys && key in obj && obj[key].List? {
      var items := obj[key].items + [[]];
      assert forall j :: 0 <= j < |items| ==> items[j] == [];
    }
  }

  /** `sep` and `eq` are the same one unit, and the decoder reads `''` as `''`. */
  predicate Twin(u: Setup) {
    |u.sepCodes| == 1 && u.eqCodes == u.sepCodes && DecodeStr(u.platform, [], u.decoder) == []
  }

  /** While pairs are left, no unit of `sep` or `eq` is pending and the value is empty; every value stored is blank. */
  predicate TwinInv(st: State) {
    Blank(st.obj) && (st.pairs != 0 ==> st.sepIdx == 0 && st.eqIdx == 0 && st.value == [])
  }

  /** A unit that is `sep` is never read as `eq`: the pair ends with an empty value. */
  lemma TwinEndPair(u: Setup, st: State, i: nat)
    requires i < |u.qs| && Twin(u) && TwinInv(st) && st.pairs != 0 && u.qs[i] == u.sepCodes[0]
    ensures TwinInv(EndPair(u, st, i))
  {
    var end := i - |u.sepCodes| + 1;
    assert PendingValue(u, st, end) == [];
    var key := PendingKey(u, st, end);
    var flushed := Flush(st, i, 1, key, []);
    BlankInLoop(st.obj, st.keys, key);
    assert Blank(flushed.0);
  }

  /** One unit keeps the invariant. */
  lemma TwinStep(u: Setup, st: State, i: nat)
    requires i < |u.qs| && Twin(u) && TwinInv(st) && st.pairs != 0
    ensures TwinInv(Step(u, st, i))
  {
    if u.qs[i] == u.sepCodes[0] {
      TwinEndPair(u, st, i);
    }
  }

  /** The loop keeps the invariant. */
  lemma {:induction false} TwinRun(u: Setup, st: State, i: nat)
    requires i <= |u.qs| && Twin(u) && TwinInv(st)
    ensures TwinInv(Run(u, st, i))
    decreases |u.qs| - i
  {
    if i < |u.qs| && st.pairs != 0 {
      TwinStep(u, st, i);
      TwinRun(u, Step(u, st, i), i + 1);
    }
  }

  /**
   * With `sep` and `eq` the same one unit, that unit always ends a pair and
   * is never read as `eq`: every key `parse` stores holds `''` or a list of
   * `''`s, whenever the decoder reads `''` as `''`.
   */
  lemma SameSeparators(qs: JsString, c: CodeUnit, maxKeys: Option<int>, decoder: Decoder, platform: Platform)
    requires DecodeStr(platform, [], decoder) == []
    ensures ParseResult(qs, Given([c]), Given([c]), maxKeys, decoder, platform).Ok? ==>
      Blank(ParseResult(qs, Given([c]), Given([c]), maxKeys, decoder, platform).value)
  {
    if |qs| > 0 {
      var u := SetupOf(qs, Given([c]), Given([c]), decoder, platform);
      TwinRun(u, Start(u, maxKeys), 0);
      var st := Run(u, Start(u, maxKeys), 0);
      if st.pairs != 0 && (st.lastPos < |qs| || st.eqIdx > 0) {
        var key := if st.lastPos < |qs| then st.key + Slice(qs, st.lastPos, |qs|) else st.key;
        assert Decoded(u, st.value, st.valEncoded) == [];
        BlankAtEnd(st.obj, st.keys, Decoded(u, key, st.keyEncoded));
      }
    }
  }
}
