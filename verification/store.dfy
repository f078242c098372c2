/**
  The value store of a data table: a sorted dictionary from codepoint to
  value, with one default value for every codepoint that has no entry.
*/
module Store {

  /** The effective value of codepoint `c`: the stored one, else the default. */
  function ValueAt(raw: map<nat, string>, defaultValue: string, c: nat): string
  {
    if c in raw then raw[c] else defaultValue
  }

  /** Storing `value` at `c` overrides only `c`: the last write wins. */
  lemma StoreOverrides(raw: map<nat, string>, defaultValue: string, c: nat, value: string, d: nat)
    ensures ValueAt(raw[c := value], defaultValue, d) == if d == c then value else ValueAt(raw, defaultValue, d)
  {
  }

  /** The smallest key of a non-empty key set. */
  ghost function Min(keys: set<nat>): (m: nat)
    requires keys != {}
    ensures m in keys
    ensures forall k | k in keys :: m <= k
  {
    var k :| k in keys;
    if keys == {k} then
      assert forall x | x in keys :: x == k;
      k
    else
      var rest := Min(keys - {k});
      assert forall x | x in keys :: x == k || x in keys - {k};
      if k <= rest then k else rest
  }

  /** The keys of a sorted dictionary in the order it enumerates them: ascending. */
  ghost function AscendingKeys(keys: set<nat>): (ks: seq<nat>)
    ensures |ks| == |keys|
    ensures forall k :: k in ks <==> k in keys
    ensures forall a, b | 0 <= a < b < |ks| :: ks[a] < ks[b]
    decreases keys
  {
    if keys == {} then []
    else
      var m := Min(keys);
      var rest := AscendingKeys(keys - {m});
      PrependLeast(m, rest);
      [m] + rest
  }

  /** A key below every key of an ascending sequence can go in front of it. */
  lemma PrependLeast(m: nat, rest: seq<nat>)
    requires forall k | k in rest :: m < k
    requires forall a, b | 0 <= a < b < |rest| :: rest[a] < rest[b]
    ensures forall k :: k in [m] + rest <==> k == m || k in rest
    ensures forall a, b | 0 <= a < b < |[m] + rest| :: ([m] + rest)[a] < ([m] + rest)[b]
  {
    var s := [m] + rest;
    forall a, b | 0 <= a < b < |s|
      ensures s[a] < s[b]
    {
      assert s[b] == rest[b - 1];
      if a > 0 {
        assert s[a] == rest[a - 1];
      } else {
        assert rest[b - 1] in rest;
      }
    }
  }

  /** The values of `raw` at the keys `ks`, in that order. */
  function ValuesAt(raw: map<nat, string>, ks: seq<nat>): (vs: seq<string>)
    requires forall k | k in ks :: k in raw
    ensures |vs| == |ks|
  {
    seq(|ks|, i requires 0 <= i < |ks| => raw[ks[i]])
  }

  /** The stored values of `raw` in ascending key order, as `RawData.Values` enumerates them. */
  ghost function StoredValues(raw: map<nat, string>): seq<string>
  {
    ValuesAt(raw, AscendingKeys(raw.Keys))
  }

  /** A key above every key so far comes last in the ascending order. */
  lemma {:induction false} AscendingKeysAppend(keys: set<nat>, m: nat)
    requires forall k | k in keys :: k < m
    ensures AscendingKeys(keys + {m}) == AscendingKeys(keys) + [m]
    decreases keys
  {
    if keys == {} {
      assert keys + {m} == {m};
      assert Min({m}) == m;
      assert {m} - {m} == {};
      assert AscendingKeys({m}) == [m] + AscendingKeys({});
      assert AscendingKeys(keys) == [];
    } else {
      var x := Min(keys);
      MinOfAppend(keys, m);
      AscendingKeysUnfold(keys + {m});
      AscendingKeysUnfold(keys);
      AscendingKeysAppend(keys - {x}, m);
      Associative([x], AscendingKeys(keys - {x}), [m]);
    }
  }

  /** A key above every key of a non-empty set leaves its least key and what follows it in place. */
  lemma MinOfAppend(keys: set<nat>, m: nat)
    requires keys != {}
    requires forall k | k in keys :: k < m
    ensures Min(keys + {m}) == Min(keys)
    ensures (keys + {m}) - {Min(keys)} == (keys - {Min(keys)}) + {m}
  {
    var x, y := Min(keys), Min(keys + {m});
    assert x in keys + {m} && x < m;
    assert y <= x;
    assert y in keys || y == m;
  }

  /** One unfolding of AscendingKeys. */
  lemma AscendingKeysUnfold(keys: set<nat>)
    requires keys != {}
    ensures AscendingKeys(keys) == [Min(keys)] + AscendingKeys(keys - {Min(keys)})
  {
  }

  /** Reading one more key appends its value. */
  lemma ValuesAtAppend(raw: map<nat, string>, ks: seq<nat>, m: nat)
    requires forall k | k in ks :: k in raw
    requires m in raw
    ensures ValuesAt(raw, ks + [m]) == ValuesAt(raw, ks) + [raw[m]]
  {
    assert forall k | k in ks + [m] :: k in raw;
    assert forall i | 0 <= i < |ks| :: (ks + [m])[i] == ks[i];
  }

  /**
    Regrouping a concatenation. Stated apart so that the inductive step of
    AscendingKeysAppend does not have to derive it among the set facts in
    its context.
  */
  lemma Associative(a: seq<nat>, b: seq<nat>, c: seq<nat>)
    ensures a + (b + c) == (a + b) + c
  {
  }
}
