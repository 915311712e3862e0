/**
 * What `parse` promises, proved about `ParseSpec`: the key budget of
 * `options.maxKeys`, the shape of the lists a repeated key collects, and
 * the one way the call can throw.
 */
module ParseProps {
  import opened Wrappers
  import opened JsText
  import opened Decoding
  import opened ParseSpec

  /** No key occurs twice in `keys`: `indexOf` guards every append. */
  predicate NoDup(keys: seq<JsString>) {
    forall a, b :: 0 <= a < b < |keys| ==> keys[a] != keys[b]
  }

  /** Every list holds at least two values: a list is only made from an old value and a new one. */
  predicate ListsOk(obj: map<JsString, Value>) {
    forall k :: k in obj && obj[k].List? ==> |obj[k].items| >= 2
  }

  /**
   * The object and the key list agree, except that the key `''` may have
   * been deleted from the object and left in the list.
   */
  predicate Tidy(obj: map<JsString, Value>, keys: seq<JsString>) {
    && NoDup(keys)
    && (forall k :: k in obj ==> k in keys)
    && (forall k :: k in keys && k !in obj ==> k == [])
    && ListsOk(obj)
  }

  /** Every key in the list is still in the object. */
  predicate Consistent(st: State) {
    forall k :: k in st.keys ==> k in st.obj
  }

  /** The text starts with a one-unit `sep` twice: the only start that lets a key be deleted. */
  predicate Doubled(u: Setup) {
    |u.sepCodes| == 1 && |u.qs| >= 2 && u.qs[0] == u.sepCodes[0] && u.qs[1] == u.sepCodes[0]
  }

  /**
   * The budget `m` (never 0): when positive, `pairs` is what is left of it
   * after one unit per key stored; when -1, `pairs` stays negative.
   */
  predicate Budgeted(st: State, m: int) {
    if m > 0 then 0 <= st.pairs && |st.keys| + st.pairs <= m else st.pairs < 0
  }

  /** What holds of the state before the unit at `i`. */
  predicate Inv(u: Setup, st: State, i: nat, m: int) {
    && Tidy(st.obj, st.keys)
    && Budgeted(st, m)
    && (Consistent(st) || Doubled(u))
    && Early(u, st, i)
  }

  /** Before the first unit nothing is stored; before the second, only a pair ended by a one-unit `sep`. */
  predicate Early(u: Setup, st: State, i: nat) {
    && (i == 0 ==> st.keys == [] && st.sepIdx == 0)
    && (i == 1 && st.keys != [] ==> |u.sepCodes| == 1 && 0 < |u.qs| && u.qs[0] == u.sepCodes[0])
  }

  /** Storing a pair inside the loop keeps the object tidy and adds at most one key. */
  lemma StoreInLoopTidy(obj: map<JsString, Value>, keys: seq<JsString>, key: JsString, value: JsString)
    requires Tidy(obj, keys)
    ensures Tidy(StoreInLoop(obj, keys, key, value).0, StoreInLoop(obj, keys, key, value).1)
    ensures |keys| <= |StoreInLoop(obj, keys, key, value).1| <= |keys| + 1
    ensures (forall k :: k in keys ==> k in obj) ==> (forall k :: k in StoreInLoop(obj, keys, key, value).1 ==> k in StoreInLoop(obj, keys, key, value).0)
    ensures StoreInLoop(obj, keys, key, value).1 != [] ==> key in StoreInLoop(obj, keys, key, value).1
  {
    if key !in keys {
      var keys' := keys + [key];
      assert forall a :: 0 <= a < |keys| ==> keys'[a] == keys[a];
    }
  }

  /** Flushing a pair keeps the object tidy, and adds at most one key. */
  lemma FlushTidy(u: Setup, st: State, i: nat, key: JsString, value: JsString)
    requires i < |u.qs| && Tidy(st.obj, st.keys) && (Consistent(st) || Doubled(u)) && Early(u, st, i)
    requires Matches(u.sepCodes, st.sepIdx, u.qs[i]) && st.sepIdx + 1 == |u.sepCodes|
    ensures var (obj, keys) := Flush(st, i, |u.sepCodes|, key, value);
      && Tidy(obj, keys) && |st.keys| <= |keys| <= |st.keys| + 1
      && ((forall k :: k in keys ==> k in obj) || Doubled(u))
      && (i == 0 && keys != [] ==> |u.sepCodes| == 1 && u.qs[0] == u.sepCodes[0])
  {
    var sepLen := |u.sepCodes|;
    if key != [] || value != [] || st.lastPos - st.posIdx > sepLen || i == 0 {
      StoreInLoopTidy(st.obj, st.keys, key, value);
    } else if i == 1 {
      if key in st.keys {
        assert st.sepIdx == 0;
      }
    }
  }

  /** The end of a pair takes its object and keys from the flush, and spends one pair of the budget. */
  lemma EndPairParts(u: Setup, st: State, i: nat)
    ensures var end := i - |u.sepCodes| + 1;
      var flushed := Flush(st, i, |u.sepCodes|, PendingKey(u, st, end), PendingValue(u, st, end));
      && EndPair(u, st, i).obj == flushed.0 && EndPair(u, st, i).keys == flushed.1
      && EndPair(u, st, i).pairs == st.pairs - 1
      && (EndPair(u, st, i).pairs != 0 ==> EndPair(u, st, i).sepIdx == 0)
  {
  }

  /** The end of a pair keeps the invariant. */
  lemma EndPairInv(u: Setup, st: State, i: nat, m: int)
    requires i < |u.qs| && st.pairs != 0 && Inv(u, st, i, m)
    requires Matches(u.sepCodes, st.sepIdx, u.qs[i]) && st.sepIdx + 1 == |u.sepCodes|
    ensures Inv(u, EndPair(u, st, i), i + 1, m)
  {
    var end := i - |u.sepCodes| + 1;
    var key, value := PendingKey(u, st, end), PendingValue(u, st, end);
    FlushTidy(u, st, i, key, value);
    EndPairParts(u, st, i);
    var flushed := Flush(st, i, |u.sepCodes|, key, value);
    FlushedInv(u, st, i, m, flushed.0, flushed.1, EndPair(u, st, i));
  }

  /** A state whose object and keys come from a tidy flush, with one pair of the budget spent, keeps the invariant. */
  lemma FlushedInv(u: Setup, st: State, i: nat, m: int, obj: map<JsString, Value>, keys: seq<JsString>, next: State)
    requires i < |u.qs| && st.pairs != 0 && Inv(u, st, i, m)
    requires Tidy(obj, keys) && |st.keys| <= |keys| <= |st.keys| + 1
    requires (forall k :: k in keys ==> k in obj) || Doubled(u)
    requires i == 0 && keys != [] ==> |u.sepCodes| == 1 && u.qs[0] == u.sepCodes[0]
    requires next.obj == obj && next.keys == keys && next.pairs == st.pairs - 1
    ensures Inv(u, next, i + 1, m)
  {
  }

  /** A unit that does not end a pair leaves the object, the keys and the budget alone. */
  lemma OrdinaryKeeps(u: Setup, st: State, i: nat)
    requires i < |u.qs|
    ensures Ordinary(u, st, i).obj == st.obj && Ordinary(u, st, i).keys == st.keys
    ensures Ordinary(u, st, i).pairs == st.pairs
  {
  }

  /** One pass of the loop keeps the invariant. */
  lemma StepInv(u: Setup, st: State, i: nat, m: int)
    requires i < |u.qs| && st.pairs != 0 && Inv(u, st, i, m)
    ensures Inv(u, Step(u, st, i), i + 1, m)
  {
    if Matches(u.sepCodes, st.sepIdx, u.qs[i]) {
      if st.sepIdx + 1 == |u.sepCodes| {
        EndPairInv(u, st, i, m);
      }
    } else {
      OrdinaryKeeps(u, st, i);
    }
  }

  /** The loop keeps the invariant to its end. */
  lemma {:induction false} RunInv(u: Setup, st: State, i: nat, m: int)
    requires i <= |u.qs| && Inv(u, st, i, m)
    ensures Tidy(Run(u, st, i).obj, Run(u, st, i).keys) && Budgeted(Run(u, st, i), m)
    ensures Consistent(Run(u, st, i)) || Doubled(u)
    decreases |u.qs| - i
  {
    if i < |u.qs| && st.pairs != 0 {
      StepInv(u, st, i, m);
      RunInv(u, Step(u, st, i), i + 1, m);
    }
  }

  /** A set is no larger than a set that contains it. */
  lemma {:induction false} SubsetCard<T>(a: set<T>, b: set<T>)
    requires a <= b
    ensures |a| <= |b|
    decreases b
  {
    if a != {} {
      var x :| x in a;
      SubsetCard(a - {x}, b - {x});
    }
  }

  /** The keys of an object whose every key is in `keys` are no more than `|keys|`. */
  lemma {:induction false} KeysCard(obj: map<JsString, Value>, keys: seq<JsString>)
    requires forall k :: k in obj ==> k in keys
    ensures |obj.Keys| <= |keys|
    decreases |keys|
  {
    if keys == [] {
      assert obj.Keys == {};
    } else {
      var last := keys[|keys| - 1];
      var rest := obj - {last};
      assert forall k :: k in rest ==> k in keys[..|keys| - 1] by {
        forall k | k in rest
          ensures k in keys[..|keys| - 1]
        {
          var j :| 0 <= j < |keys| && keys[j] == k;
          assert j < |keys| - 1;
        }
      }
      KeysCard(rest, keys[..|keys| - 1]);
      SubsetCard(obj.Keys, rest.Keys + {last});
    }
  }

  /** Setting one key adds at most that key, and keeps every list long enough if the new value is. */
  lemma Update(obj: map<JsString, Value>, key: JsString, x: Value)
    requires ListsOk(obj) && (x.List? ==> |x.items| >= 2)
    ensures ListsOk(obj[key := x])
    ensures |obj[key := x].Keys| <= |obj.Keys| + 1
  {
    if key in obj {
      assert obj[key := x].Keys == obj.Keys;
    } else {
      assert obj[key := x].Keys == obj.Keys + {key};
    }
  }

  /** Storing the last pair: at most one key more, lists kept, and an error only for a deleted key. */
  lemma StoreAtEndProps(obj: map<JsString, Value>, keys: seq<JsString>, key: JsString, value: JsString)
    requires Tidy(obj, keys)
    ensures StoreAtEnd(obj, keys, key, value).Ok? ==> ListsOk(StoreAtEnd(obj, keys, key, value).value)
    ensures StoreAtEnd(obj, keys, key, value).Ok? ==> |StoreAtEnd(obj, keys, key, value).value.Keys| <= |obj.Keys| + 1
    ensures StoreAtEnd(obj, keys, key, value).Err? ==> StoreAtEnd(obj, keys, key, value).error == TypeError && key in keys && key !in obj
  {
    if key !in keys {
      Update(obj, key, Str(value));
    } else if key in obj {
      var x := match obj[key] case List(items) => List(items + [value]) case Str(s) => List([s, value]);
      assert StoreAtEnd(obj, keys, key, value) == Ok(obj[key := x]);
      Update(obj, key, x);
    }
  }

  /** The flush after the loop: its outcome, from the invariant. */
  lemma FinishProps(u: Setup, st: State, m: int)
    requires Tidy(st.obj, st.keys) && Budgeted(st, m) && (Consistent(st) || Doubled(u))
    ensures Finish(u, st).Ok? ==> ListsOk(Finish(u, st).value)
    ensures Finish(u, st).Ok? && m > 0 ==> |Finish(u, st).value.Keys| <= m
    ensures Finish(u, st).Err? ==> Finish(u, st).error == TypeError && Doubled(u)
  {
    KeysCard(st.obj, st.keys);
    var len := |u.qs|;
    if st.pairs != 0 && (st.lastPos < len || st.eqIdx > 0) {
      var inKey := st.eqIdx < |u.eqCodes|;
      var key := if st.lastPos < len && inKey then st.key + Slice(u.qs, st.lastPos, len) else st.key;
      var value := if st.lastPos < len && !inKey && st.sepIdx < |u.sepCodes| then st.value + Slice(u.qs, st.lastPos, len) else st.value;
      var k := Decoded(u, key, st.keyEncoded);
      var v := Decoded(u, value, st.valEncoded);
      assert Finish(u, st) == StoreAtEnd(st.obj, st.keys, k, v);
      StoreAtEndProps(st.obj, st.keys, k, v);
    }
  }

  /** The budget `parse` starts from is never 0. */
  lemma BudgetNonZero(maxKeys: Option<int>)
    ensures Budget(maxKeys) > 0 || Budget(maxKeys) == -1
  {
  }

  /**
   * `parse` with `maxKeys > 0` returns at most `maxKeys` keys, with no
   * `maxKeys` at most 1000, and any list in its result holds at least two
   * values.
   */
  lemma ParseWithinBudget(qs: JsString, sep: Separator, eq: Separator, maxKeys: Option<int>, decoder: Decoder, platform: Platform)
    ensures var r := ParseResult(qs, sep, eq, maxKeys, decoder, platform);
      r.Ok? ==> ListsOk(r.value) && (Budget(maxKeys) > 0 ==> |r.value.Keys| <= Budget(maxKeys))
  {
    if |qs| > 0 {
      var u := SetupOf(qs, sep, eq, decoder, platform);
      var m := Budget(maxKeys);
      RunInv(u, Start(u, maxKeys), 0, m);
      FinishProps(u, Run(u, Start(u, maxKeys), 0), m);
    }
  }

  /**
   * `parse` throws only a `TypeError`, and only when `sep` is one unit long
   * and the text starts with it twice (as in `'&&='`): the first unit stores
   * the key `''`, the second deletes it from the object but not from
   * `keys`, and a later store of `''` at the end reads the deleted value.
   */
  lemma ParseThrows(qs: JsString, sep: Separator, eq: Separator, maxKeys: Option<int>, decoder: Decoder, platform: Platform)
    ensures var r := ParseResult(qs, sep, eq, maxKeys, decoder, platform);
      var s := SeparatorUnits(sep, [Ampersand]);
      r.Err? ==> r.error == TypeError && |s| == 1 && |qs| >= 2 && qs[0] == s[0] && qs[1] == s[0]
  {
    if |qs| > 0 {
      var u := SetupOf(qs, sep, eq, decoder, platform);
      var m := Budget(maxKeys);
      RunInv(u, Start(u, maxKeys), 0, m);
      FinishProps(u, Run(u, Start(u, maxKeys), 0), m);
    }
  }
}
