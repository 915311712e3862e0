/**
 * How `parse` (src/index.js:306-493) reads a text made of pairs `k eq v`
 * separated by `sep`: it stores them one after the other, all but the last
 * as the loop does and the last as the flush after the loop does, each key
 * and value passed through the decoder when a custom one is given. This
 * holds for any `sep` and `eq` that the keys and values cannot be mistaken
 * for, multi-unit ones included.
 */
module ParsePairs {
  import opened Wrappers
  import opened JsText
  import opened Decoding
  import opened ParseSpec

  // ---------------------------------------------------------------------
  // The loop, a stretch at a time

  /** One turn of the loop. */
  lemma RunStep(u: Setup, st: State, i: nat)
    requires i < |u.qs| && st.pairs != 0
    ensures Run(u, st, i) == Run(u, Step(u, st, i), i + 1)
  {
  }

  /** The state the loop ends in when it reaches unit `i` in state `st`. */
  function End(u: Setup, st: State, i: nat): State
    requires i <= |u.qs|
  {
    Run(u, st, i)
  }

  /** The loop at the end of the text. */
  lemma RunDone(u: Setup, st: State)
    ensures Run(u, st, |u.qs|) == st
  {
  }

  /** Units that change nothing leave the loop where it was. */
  lemma {:induction false} Idle(u: Setup, st: State, i: nat, j: nat)
    requires i <= j <= |u.qs| && st.pairs != 0
    requires forall n :: i <= n < j ==> Step(u, st, n) == st
    ensures End(u, st, i) == End(u, st, j)
    decreases j - i
  {
    if i < j {
      Idle(u, st, i + 1, j);
    }
  }

  // ---------------------------------------------------------------------
  // Texts the loop passes over

  /** `sep` and `eq` are non-empty, and no unit of `eq` is `%` or the first unit of `sep`. */
  predicate Separable(sep: JsString, eq: JsString) {
    |sep| >= 1 && |eq| >= 1 && forall j :: 0 <= j < |eq| ==> eq[j] != sep[0] && eq[j] != Percent
  }

  /**
   * A unit the loop passes over in a key (or, when `inValue`, in a value):
   * not `+`, not `%`, not the first unit of `sep`, and in a key not the
   * first unit of `eq`.
   */
  predicate PlainUnit(sep: JsString, eq: JsString, c: CodeUnit, inValue: bool) {
    !Matches(sep, 0, c) && c != Plus && c != Percent && (inValue || !Matches(eq, 0, c))
  }

  /** Every unit of `t` is plain. */
  predicate PlainText(sep: JsString, eq: JsString, t: JsString, inValue: bool) {
    forall j :: 0 <= j < |t| ==> PlainUnit(sep, eq, t[j], inValue)
  }

  /** Nothing pending: no escape under way, no `sep` partly matched, decoding flagged as the decoder demands. */
  predicate Calm(u: Setup, st: State) {
    && st.sepIdx == 0 && st.encodeCheck == 0 && st.pairs != 0
    && st.keyEncoded == u.CustomDecode() && st.valEncoded == u.CustomDecode()
  }

  /**
   * A plain unit read in a calm state, before any unit of `eq` or after
   * all of them, changes nothing.
   */
  lemma Quiet(u: Setup, st: State, i: nat)
    requires i < |u.qs| && Calm(u, st) && (st.eqIdx == 0 || st.eqIdx == |u.eqCodes|)
    requires PlainUnit(u.sepCodes, u.eqCodes, u.qs[i], st.eqIdx == |u.eqCodes|)
    ensures Step(u, st, i) == st
  {
  }

  /** Units `i` to `j` are plain for the state `st`. */
  predicate Plain(u: Setup, st: State, i: nat, j: nat)
    requires i <= j <= |u.qs|
  {
    forall n :: i <= n < j ==> PlainUnit(u.sepCodes, u.eqCodes, u.qs[n], st.eqIdx == |u.eqCodes|)
  }

  /** Plain units read in a calm state change nothing. */
  lemma QuietRun(u: Setup, st: State, i: nat, j: nat)
    requires i <= j <= |u.qs| && Calm(u, st) && (st.eqIdx == 0 || st.eqIdx == |u.eqCodes|)
    requires Plain(u, st, i, j)
    ensures End(u, st, i) == End(u, st, j)
  {
    forall n | i <= n < j
      ensures Step(u, st, n) == st
    {
      Quiet(u, st, n);
    }
    Idle(u, st, i, j);
  }

  /** The text `t` sits in `qs` from `at` on. */
  predicate At(qs: JsString, at: nat, t: JsString) {
    at + |t| <= |qs| && forall j :: 0 <= j < |t| ==> qs[at + j] == t[j]
  }

  /** `a + b` sits at `at` exactly when `a` does and `b` follows it. */
  lemma AtConcat(qs: JsString, at: nat, a: JsString, b: JsString)
    ensures At(qs, at, a + b) <==> At(qs, at, a) && At(qs, at + |a|, b)
  {
    if At(qs, at, a) && At(qs, at + |a|, b) {
      forall j | 0 <= j < |a + b|
        ensures qs[at + j] == (a + b)[j]
      {
        if j >= |a| {
          assert qs[at + |a| + (j - |a|)] == b[j - |a|];
        }
      }
    }
    if At(qs, at, a + b) {
      forall j | 0 <= j < |a|
        ensures qs[at + j] == a[j]
      {
        assert qs[at + j] == (a + b)[j];
      }
      forall j | 0 <= j < |b|
        ensures qs[at + |a| + j] == b[j]
      {
        assert qs[at + (|a| + j)] == (a + b)[|a| + j];
      }
    }
  }

  /** A plain text placed at `at` in the string, read in a calm state, changes nothing. */
  lemma QuietText(u: Setup, st: State, t: JsString, at: nat)
    requires At(u.qs, at, t)
    requires Calm(u, st) && (st.eqIdx == 0 || st.eqIdx == |u.eqCodes|)
    requires PlainText(u.sepCodes, u.eqCodes, t, st.eqIdx == |u.eqCodes|)
    ensures End(u, st, at) == End(u, st, at + |t|)
  {
    forall n | at <= n < at + |t|
      ensures PlainUnit(u.sepCodes, u.eqCodes, u.qs[n], st.eqIdx == |u.eqCodes|)
    {
      assert u.qs[at + (n - at)] == t[n - at];
    }
    QuietRun(u, st, at, at + |t|);
  }

  /** `t` sits in `qs` at `from`, and is appended to the empty text. */
  lemma AppendAt(qs: JsString, from: nat, t: JsString)
    requires At(qs, from, t)
    ensures Append([], qs, from, from + |t|) == t
  {
    if t != [] {
      assert qs[from..from + |t|] == t by {
        forall j | 0 <= j < |t|
          ensures qs[from..from + |t|][j] == t[j]
        {
          assert qs[from + j] == t[j];
        }
      }
      assert Slice(qs, from, from + |t|) == t;
    }
  }

  // ---------------------------------------------------------------------
  // One pair

  /** A key or a value as `parse` stores it: through the decoder when it is a custom one. */
  function Field(decoder: Decoder, platform: Platform, t: JsString): JsString {
    if decoder.Custom? then DecodeStr(platform, t, decoder) else t
  }

  /** The state at the start of a pair at `at`: nothing pending. */
  function Fresh(u: Setup, obj: map<JsString, Value>, keys: seq<JsString>, posIdx: int, at: nat, pairs: int): State {
    State(obj, keys, posIdx, at, 0, 0, [], [], u.CustomDecode(), u.CustomDecode(), 0, pairs)
  }

  /** The state once the key `k`, begun at `at`, and `eq` after it are read. */
  function KeyDone(u: Setup, st: State, at: nat, k: JsString): State {
    st.(eqIdx := |u.eqCodes|, key := k, lastPos := at + |k| + |u.eqCodes|)
  }

  /** The key `k` begun at `at` sits in the text, followed by `eq`. */
  predicate KeyAt(u: Setup, at: nat, k: JsString) {
    At(u.qs, at, k) && At(u.qs, at + |k|, u.eqCodes)
  }

  /** One unit of `eq` after the key: the match advances, and the last unit completes the key. */
  lemma EqStep(u: Setup, st: State, at: nat, k: JsString, j: nat)
    requires Separable(u.sepCodes, u.eqCodes) && KeyAt(u, at, k) && j < |u.eqCodes|
    requires Calm(u, st) && st.eqIdx == 0 && st.key == [] && st.lastPos == at
    ensures Step(u, st.(eqIdx := j), at + |k| + j)
      == if j + 1 == |u.eqCodes| then KeyDone(u, st, at, k) else st.(eqIdx := j + 1)
  {
    assert u.qs[at + |k| + j] == u.eqCodes[j];
    if j + 1 == |u.eqCodes| {
      AppendAt(u.qs, at, k);
    }
  }

  /** The loop after one unit of `eq`. */
  lemma EqEnd(u: Setup, st: State, at: nat, k: JsString, j: nat)
    requires Separable(u.sepCodes, u.eqCodes) && KeyAt(u, at, k) && j < |u.eqCodes|
    requires Calm(u, st) && st.eqIdx == 0 && st.key == [] && st.lastPos == at
    ensures End(u, st.(eqIdx := j), at + |k| + j)
      == End(u, if j + 1 == |u.eqCodes| then KeyDone(u, st, at, k) else st.(eqIdx := j + 1), at + |k| + j + 1)
  {
    EqStep(u, st, at, k, j);
    RunStep(u, st.(eqIdx := j), at + |k| + j);
  }

  /** A calm state with no key begun at `at`, where the key `k` and `eq` sit. */
  predicate KeyReady(u: Setup, st: State, at: nat, k: JsString) {
    && Separable(u.sepCodes, u.eqCodes) && KeyAt(u, at, k)
    && Calm(u, st) && st.eqIdx == 0 && st.key == [] && st.lastPos == at
  }

  /** The units of `eq` from the `j`-th on complete the key. */
  lemma {:induction false} EqFrom(u: Setup, st: State, at: nat, k: JsString, j: nat)
    requires KeyReady(u, st, at, k) && j < |u.eqCodes|
    ensures End(u, st.(eqIdx := j), at + |k| + j) == End(u, KeyDone(u, st, at, k), at + |k| + |u.eqCodes|)
    decreases |u.eqCodes| - j
  {
    EqEnd(u, st, at, k, j);
    if j + 1 < |u.eqCodes| {
      EqFrom(u, st, at, k, j + 1);
    }
  }

  /** A calm state with no key begun reads `k`, `eq` and the plain value `v`. */
  lemma FieldRun(u: Setup, st: State, at: nat, k: JsString, v: JsString)
    requires Separable(u.sepCodes, u.eqCodes) && KeyAt(u, at, k)
    requires At(u.qs, at + |k| + |u.eqCodes|, v)
    requires PlainText(u.sepCodes, u.eqCodes, k, false) && PlainText(u.sepCodes, u.eqCodes, v, true)
    requires Calm(u, st) && st.eqIdx == 0 && st.key == [] && st.lastPos == at
    ensures End(u, st, at) == End(u, KeyDone(u, st, at, k), at + |k| + |u.eqCodes| + |v|)
  {
    QuietText(u, st, k, at);
    assert st.(eqIdx := 0) == st;
    EqFrom(u, st, at, k, 0);
    QuietText(u, KeyDone(u, st, at, k), v, at + |k| + |u.eqCodes|);
  }

  /** One unit of `sep`: the last ends the pair, any other is counted. */
  lemma SepUnit(u: Setup, st: State, i: nat)
    requires i < |u.qs| && st.pairs != 0 && Matches(u.sepCodes, st.sepIdx, u.qs[i])
    ensures st.sepIdx + 1 == |u.sepCodes| ==> End(u, st, i) == End(u, EndPair(u, st, i), i + 1)
    ensures st.sepIdx + 1 < |u.sepCodes| ==> End(u, st, i) == End(u, st.(sepIdx := st.sepIdx + 1), i + 1)
  {
    RunStep(u, st, i);
  }

  /** Where the loop ends once all of `sep`, read at `p`, has ended the pair. */
  function SepDone(u: Setup, st: State, p: nat): State
    requires 1 <= |u.sepCodes| && p + |u.sepCodes| <= |u.qs|
  {
    End(u, EndPair(u, st.(sepIdx := |u.sepCodes| - 1), p + |u.sepCodes| - 1), p + |u.sepCodes|)
  }

  /** The units of `sep` from the `m`-th on, read at `p`, end the pair. */
  lemma {:induction false} SepFrom(u: Setup, st: State, p: nat, m: nat)
    requires 1 <= |u.sepCodes| && At(u.qs, p, u.sepCodes)
    requires m < |u.sepCodes| && st.pairs != 0
    ensures End(u, st.(sepIdx := m), p + m) == SepDone(u, st, p)
    decreases |u.sepCodes| - m
  {
    assert u.qs[p + m] == u.sepCodes[m];
    SepUnit(u, st.(sepIdx := m), p + m);
    if m + 1 < |u.sepCodes| {
      SepFrom(u, st, p, m + 1);
    }
  }

  /**
   * The `sep` after the value `v` (from `vs` to `p`) stores the pair and
   * leaves a fresh state after it, when the pair is stored at all (its
   * value starts more than `|sep|` units after `posIdx`) and pairs are left.
   */
  lemma PairEnd(u: Setup, obj: map<JsString, Value>, keys: seq<JsString>, posIdx: int, at: nat, pairs: int, k: JsString, v: JsString, p: nat)
    requires At(u.qs, at + |k| + |u.eqCodes|, v) && at + |k| + |u.eqCodes| + |v| == p
    requires 1 <= |u.sepCodes| && p + |u.sepCodes| <= |u.qs|
    requires at + |k| + |u.eqCodes| - posIdx > |u.sepCodes| && pairs != 1
    ensures var st := KeyDone(u, Fresh(u, obj, keys, posIdx, at, pairs), at, k);
      var stored := StoreInLoop(obj, keys, Field(u.decoder, u.platform, k), Field(u.decoder, u.platform, v));
      EndPair(u, st.(sepIdx := |u.sepCodes| - 1), p + |u.sepCodes| - 1)
        == Fresh(u, stored.0, stored.1, at + |k| + |u.eqCodes|, p + |u.sepCodes|, pairs - 1)
  {
    AppendAt(u.qs, at + |k| + |u.eqCodes|, v);
  }

  /** After the loop, a key whose `eq` was read takes the rest of the text `v` as its value. */
  lemma FieldEnd(u: Setup, st: State, at: nat, k: JsString, v: JsString)
    requires 1 <= |u.sepCodes| && 1 <= |u.eqCodes| && Calm(u, st) && st.value == []
    requires At(u.qs, at + |k| + |u.eqCodes|, v) && at + |k| + |u.eqCodes| + |v| == |u.qs|
    ensures Finish(u, KeyDone(u, st, at, k))
      == StoreAtEnd(st.obj, st.keys, Field(u.decoder, u.platform, k), Field(u.decoder, u.platform, v))
  {
    AppendAt(u.qs, at + |k| + |u.eqCodes|, v);
  }

  // ---------------------------------------------------------------------
  // Many pairs

  /** The pairs `ps` written out: `k eq v` each, with `sep` between them. */
  function PairsText(sep: JsString, eq: JsString, ps: seq<(JsString, JsString)>): JsString
    decreases |ps|
  {
    if |ps| == 0 then []
    else if |ps| == 1 then ps[0].0 + eq + ps[0].1
    else ps[0].0 + eq + ps[0].1 + sep + PairsText(sep, eq, ps[1..])
  }

  /** Every key and value of `ps` is plain. */
  predicate PlainPairs(sep: JsString, eq: JsString, ps: seq<(JsString, JsString)>) {
    forall n :: 0 <= n < |ps| ==> PlainText(sep, eq, ps[n].0, false) && PlainText(sep, eq, ps[n].1, true)
  }

  /** The keys and values of `ps` as `parse` stores them. */
  function Decode(decoder: Decoder, platform: Platform, ps: seq<(JsString, JsString)>): (fs: seq<(JsString, JsString)>)
    ensures |fs| == |ps|
    ensures forall n :: 0 <= n < |ps| ==> fs[n] == (Field(decoder, platform, ps[n].0), Field(decoder, platform, ps[n].1))
  {
    seq(|ps|, n requires 0 <= n < |ps| => (Field(decoder, platform, ps[n].0), Field(decoder, platform, ps[n].1)))
  }

  /** Decoding the pairs after the first. */
  lemma DecodeTail(decoder: Decoder, platform: Platform, ps: seq<(JsString, JsString)>)
    requires |ps| >= 1
    ensures Decode(decoder, platform, ps)[1..] == Decode(decoder, platform, ps[1..])
  {
  }

  /**
   * The decoded pairs `fs` stored in turn into `obj`: each but the last as
   * the loop stores it, the last as the flush after the loop does.
   */
  function Stored(obj: map<JsString, Value>, keys: seq<JsString>, fs: seq<(JsString, JsString)>): Result<map<JsString, Value>, JsError>
    decreases |fs|
  {
    if |fs| == 0 then Ok(obj)
    else if |fs| == 1 then StoreAtEnd(obj, keys, fs[0].0, fs[0].1)
    else
      var next := StoreInLoop(obj, keys, fs[0].0, fs[0].1);
      Stored(next.0, next.1, fs[1..])
  }

  /** What follows the first pair of `ps` in their text: nothing, or `sep` and the other pairs. */
  function After(sep: JsString, eq: JsString, ps: seq<(JsString, JsString)>): JsString
    requires |ps| >= 1
  {
    if |ps| == 1 then [] else sep + PairsText(sep, eq, ps[1..])
  }

  /** The text of pairs is the first key, `eq`, the first value and what follows. */
  lemma PairsCons(sep: JsString, eq: JsString, ps: seq<(JsString, JsString)>)
    requires |ps| >= 1
    ensures PairsText(sep, eq, ps) == ps[0].0 + (eq + (ps[0].1 + After(sep, eq, ps)))
  {
  }

  /** Where the four parts of `k + eq + v + rest` sit in a text holding it at `at`. */
  lemma Layout(qs: JsString, at: nat, k: JsString, eq: JsString, v: JsString, rest: JsString)
    requires At(qs, at, k + (eq + (v + rest)))
    ensures At(qs, at, k) && At(qs, at + |k|, eq) && At(qs, at + |k| + |eq|, v)
    ensures At(qs, at + |k| + |eq| + |v|, rest)
  {
    AtConcat(qs, at, k, eq + (v + rest));
    AtConcat(qs, at + |k|, eq, v + rest);
    AtConcat(qs, at + |k| + |eq|, v, rest);
  }

  /** The pairs after the first of plain pairs are plain. */
  lemma PlainRest(sep: JsString, eq: JsString, ps: seq<(JsString, JsString)>)
    requires |ps| >= 1 && PlainPairs(sep, eq, ps)
    ensures PlainPairs(sep, eq, ps[1..])
  {
    forall n | 0 <= n < |ps| - 1
      ensures ps[1..][n] == ps[n + 1]
    {
    }
  }

  /**
   * The pairs `ps` fill the text from `at` to its end, the first of them is
   * stored at all when the loop ends it (its value starts more than `|sep|`
   * units after `posIdx`), and the budget `pairs` outlasts them.
   */
  predicate Laid(u: Setup, at: nat, posIdx: int, pairs: int, ps: seq<(JsString, JsString)>) {
    && Separable(u.sepCodes, u.eqCodes) && |ps| >= 1 && PlainPairs(u.sepCodes, u.eqCodes, ps)
    && At(u.qs, at, PairsText(u.sepCodes, u.eqCodes, ps)) && at + |PairsText(u.sepCodes, u.eqCodes, ps)| == |u.qs|
    && (|ps| > 1 ==> at + |ps[0].0| + |u.eqCodes| - posIdx > |u.sepCodes|)
    && (pairs < 0 || pairs >= |ps|)
  }

  /** Where the first pair of laid-out pairs sits. */
  lemma LaidFirst(u: Setup, at: nat, posIdx: int, pairs: int, ps: seq<(JsString, JsString)>)
    requires Laid(u, at, posIdx, pairs, ps)
    ensures KeyAt(u, at, ps[0].0) && At(u.qs, at + |ps[0].0| + |u.eqCodes|, ps[0].1)
    ensures PlainText(u.sepCodes, u.eqCodes, ps[0].0, false) && PlainText(u.sepCodes, u.eqCodes, ps[0].1, true)
    ensures |ps| == 1 ==> at + |ps[0].0| + |u.eqCodes| + |ps[0].1| == |u.qs|
    ensures |ps| > 1 ==> At(u.qs, at + |ps[0].0| + |u.eqCodes| + |ps[0].1|, u.sepCodes)
  {
    PairsCons(u.sepCodes, u.eqCodes, ps);
    Layout(u.qs, at, ps[0].0, u.eqCodes, ps[0].1, After(u.sepCodes, u.eqCodes, ps));
    if |ps| > 1 {
      AtConcat(u.qs, at + |ps[0].0| + |u.eqCodes| + |ps[0].1|, u.sepCodes, PairsText(u.sepCodes, u.eqCodes, ps[1..]));
    }
  }

  /** The pairs after the first are laid out after the first pair and `sep`. */
  lemma LaidNext(u: Setup, at: nat, posIdx: int, pairs: int, ps: seq<(JsString, JsString)>)
    requires Laid(u, at, posIdx, pairs, ps) && |ps| > 1
    ensures var vs := at + |ps[0].0| + |u.eqCodes|;
      Laid(u, vs + |ps[0].1| + |u.sepCodes|, vs, pairs - 1, ps[1..])
  {
    var vs := at + |ps[0].0| + |u.eqCodes|;
    var next := vs + |ps[0].1| + |u.sepCodes|;
    var rest := PairsText(u.sepCodes, u.eqCodes, ps[1..]);
    PairsCons(u.sepCodes, u.eqCodes, ps);
    Layout(u.qs, at, ps[0].0, u.eqCodes, ps[0].1, u.sepCodes + rest);
    AtConcat(u.qs, vs + |ps[0].1|, u.sepCodes, rest);
    PlainRest(u.sepCodes, u.eqCodes, ps);
    assert ps[1..][0] == ps[1];
  }

  /** The last pair: read to the end of the text, and stored by the flush after the loop. */
  lemma LastPair(u: Setup, obj: map<JsString, Value>, keys: seq<JsString>, posIdx: int, at: nat, pairs: int, k: JsString, v: JsString)
    requires Separable(u.sepCodes, u.eqCodes) && KeyAt(u, at, k) && At(u.qs, at + |k| + |u.eqCodes|, v)
    requires at + |k| + |u.eqCodes| + |v| == |u.qs| && pairs != 0
    requires PlainText(u.sepCodes, u.eqCodes, k, false) && PlainText(u.sepCodes, u.eqCodes, v, true)
    ensures Finish(u, End(u, Fresh(u, obj, keys, posIdx, at, pairs), at))
      == StoreAtEnd(obj, keys, Field(u.decoder, u.platform, k), Field(u.decoder, u.platform, v))
  {
    var st := Fresh(u, obj, keys, posIdx, at, pairs);
    FieldRun(u, st, at, k, v);
    RunDone(u, KeyDone(u, st, at, k));
    FieldEnd(u, st, at, k, v);
  }

  /** A whole `sep` read at `p` from a state with none of it matched, where ending the pair gives `next`. */
  lemma SepWhole(u: Setup, st: State, p: nat, next: State)
    requires 1 <= |u.sepCodes| && At(u.qs, p, u.sepCodes) && st.pairs != 0 && st.sepIdx == 0
    requires EndPair(u, st.(sepIdx := |u.sepCodes| - 1), p + |u.sepCodes| - 1) == next
    ensures End(u, st, p) == End(u, next, p + |u.sepCodes|)
  {
    SepFrom(u, st, p, 0);
    assert st.(sepIdx := 0) == st;
  }

  /** A pair followed by `sep`: stored by the loop, which goes on from a fresh state after `sep`. */
  lemma NextPair(u: Setup, obj: map<JsString, Value>, keys: seq<JsString>, posIdx: int, at: nat, pairs: int, k: JsString, v: JsString)
    requires Separable(u.sepCodes, u.eqCodes) && KeyAt(u, at, k) && At(u.qs, at + |k| + |u.eqCodes|, v)
    requires At(u.qs, at + |k| + |u.eqCodes| + |v|, u.sepCodes)
    requires PlainText(u.sepCodes, u.eqCodes, k, false) && PlainText(u.sepCodes, u.eqCodes, v, true)
    requires at + |k| + |u.eqCodes| - posIdx > |u.sepCodes| && pairs != 0 && pairs != 1
    ensures var stored := StoreInLoop(obj, keys, Field(u.decoder, u.platform, k), Field(u.decoder, u.platform, v));
      var next := at + |k| + |u.eqCodes| + |v| + |u.sepCodes|;
      End(u, Fresh(u, obj, keys, posIdx, at, pairs), at)
        == End(u, Fresh(u, stored.0, stored.1, at + |k| + |u.eqCodes|, next, pairs - 1), next)
  {
    var st := Fresh(u, obj, keys, posIdx, at, pairs);
    var p := at + |k| + |u.eqCodes| + |v|;
    var stored := StoreInLoop(obj, keys, Field(u.decoder, u.platform, k), Field(u.decoder, u.platform, v));
    FieldRun(u, st, at, k, v);
    PairEnd(u, obj, keys, posIdx, at, pairs, k, v, p);
    SepWhole(u, KeyDone(u, st, at, k), p, Fresh(u, stored.0, stored.1, at + |k| + |u.eqCodes|, p + |u.sepCodes|, pairs - 1));
  }

  /**
   * From a fresh state at `at`, a text that holds the pairs `ps` to its end
   * is read as `Stored` says.
   */
  lemma {:induction false} ReadPairs(u: Setup, obj: map<JsString, Value>, keys: seq<JsString>, posIdx: int, at: nat, pairs: int, ps: seq<(JsString, JsString)>)
    requires Laid(u, at, posIdx, pairs, ps)
    ensures Finish(u, End(u, Fresh(u, obj, keys, posIdx, at, pairs), at)) == Stored(obj, keys, Decode(u.decoder, u.platform, ps))
    decreases |ps|
  {
    var k, v := ps[0].0, ps[0].1;
    LaidFirst(u, at, posIdx, pairs, ps);
    if |ps| == 1 {
      LastPair(u, obj, keys, posIdx, at, pairs, k, v);
    } else {
      var stored := StoreInLoop(obj, keys, Field(u.decoder, u.platform, k), Field(u.decoder, u.platform, v));
      NextPair(u, obj, keys, posIdx, at, pairs, k, v);
      LaidNext(u, at, posIdx, pairs, ps);
      DecodeTail(u.decoder, u.platform, ps);
      ReadPairs(u, stored.0, stored.1, at + |k| + |u.eqCodes|, at + |k| + |u.eqCodes| + |v| + |u.sepCodes|, pairs - 1, ps[1..]);
    }
  }

  /**
   * `parse` of a text of pairs `k eq v` joined by `sep` is the pairs stored
   * in turn, each key and value decoded by a custom decoder, for any `sep`
   * and `eq` the pairs cannot be mistaken for, as long as `maxKeys` does not
   * cut the text short and, when more pairs follow, the first key and `eq`
   * are longer than `sep` (the loop skips an empty pair that starts within
   * `|sep|` units of the previous one).
   */
  lemma ParseAsStores(ps: seq<(JsString, JsString)>, sep: Separator, eq: Separator, maxKeys: Option<int>, decoder: Decoder, platform: Platform)
    requires var s := SeparatorUnits(sep, [Ampersand]); var e := SeparatorUnits(eq, [EqualsSign]);
      Separable(s, e) && |ps| >= 1 && PlainPairs(s, e, ps) && (|ps| > 1 ==> |ps[0].0| + |e| > |s|)
    requires Budget(maxKeys) < 0 || Budget(maxKeys) >= |ps|
    ensures var s := SeparatorUnits(sep, [Ampersand]); var e := SeparatorUnits(eq, [EqualsSign]);
      ParseResult(PairsText(s, e, ps), sep, eq, maxKeys, decoder, platform) == Stored(map[], [], Decode(decoder, platform, ps))
  {
    var s := SeparatorUnits(sep, [Ampersand]);
    var e := SeparatorUnits(eq, [EqualsSign]);
    var qs := PairsText(s, e, ps);
    var u := SetupOf(qs, sep, eq, decoder, platform);
    assert At(qs, 0, qs);
    assert Start(u, maxKeys) == Fresh(u, map[], [], 0, 0, Budget(maxKeys));
    ReadPairs(u, map[], [], 0, 0, Budget(maxKeys), ps);
  }
}
