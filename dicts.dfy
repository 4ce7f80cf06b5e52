/**
 * Insertion-ordered dictionaries keyed by words, as Python's `dict` and
 * `defaultdict` behave: iteration visits keys in the order they were first
 * assigned, and re-assigning an existing key keeps its place.
 */
module Dicts {

  /** A normalised word. */
  type Token = string

  /** No element occurs twice. */
  ghost predicate Distinct<T>(s: seq<T>)
  {
    forall i, j :: 0 <= i < j < |s| ==> s[i] != s[j]
  }

  /**
   * A dictionary: `keys` lists its keys oldest first, `at` maps each key to its
   * value. `Valid()` says the two agree.
   */
  datatype Dict<V(!new)> = Dict(keys: seq<Token>, at: map<Token, V>)
  {
    ghost predicate Valid()
    {
      Distinct(keys) && forall c :: c in at <==> c in keys
    }

    /** `self[c] = v`: a new key is appended, an existing key keeps its position. */
    function Set(c: Token, v: V): (r: Dict<V>)
      ensures Valid() ==> r.Valid()
      ensures r.at == at[c := v]
      ensures keys <= r.keys && |r.keys| == |keys| + (if c in at then 0 else 1)
      ensures Valid() ==> c in r.keys
    {
      if c in at then Dict(keys, at[c := v]) else Dict(keys + [c], at[c := v])
    }

    /**
     * The `(key, value)` pairs in iteration order, as `dict.items()` yields
     * them: each stored pair exactly once, and no other.
     */
    function Items(): (r: seq<(Token, V)>)
      requires Valid()
      ensures |r| == |keys|
      ensures forall i :: 0 <= i < |r| ==> r[i].0 == keys[i]
      ensures forall c, v :: (c, v) in r <==> c in at && at[c] == v
      ensures forall i, j :: 0 <= i < j < |r| ==> r[i].0 != r[j].0
    {
      var r := seq(|keys|, i requires 0 <= i < |keys| => (keys[i], at[keys[i]]));
      ItemsMembers(this, r);
      r
    }
  }

  /** Pairing every key with its value lists exactly the stored pairs. */
  lemma ItemsMembers<V(!new)>(d: Dict<V>, r: seq<(Token, V)>)
    requires d.Valid() && |r| == |d.keys|
    requires forall i :: 0 <= i < |r| ==> r[i] == (d.keys[i], d.at[d.keys[i]])
    ensures forall c, v :: (c, v) in r <==> c in d.at && d.at[c] == v
  {
    forall c, v | c in d.at && d.at[c] == v
      ensures (c, v) in r
    {
      var i :| 0 <= i < |d.keys| && d.keys[i] == c;
      assert r[i] == (c, v);
    }
  }

  function Empty<V(!new)>(): (r: Dict<V>)
    ensures r.Valid() && r.keys == [] && r.at == map[]
  {
    Dict([], map[])
  }

  /**
   * The sum of `f` over the values stored at `ks`, in order; a key with no value
   * contributes nothing. This is Python's `sum(...)` over a dictionary's values.
   */
  function SumOf<V>(ks: seq<Token>, m: map<Token, V>, f: V -> int): int
  {
    if ks == [] then 0
    else
      var c := ks[|ks| - 1];
      SumOf(ks[..|ks| - 1], m, f) + (if c in m then f(m[c]) else 0)
  }

  /** A count as a summand. */
  function AsInt(n: nat): int
  {
    n
  }

  /** The same sum, for real values. */
  function RealSum(ks: seq<Token>, m: map<Token, real>): real
  {
    if ks == [] then 0.0
    else
      var c := ks[|ks| - 1];
      RealSum(ks[..|ks| - 1], m) + (if c in m then m[c] else 0.0)
  }

  /** Changing the value at a key outside `ks` does not change the sum over `ks`. */
  lemma {:induction false} SumOfFrame<V>(ks: seq<Token>, m: map<Token, V>, f: V -> int, c: Token, v: V)
    requires c !in ks
    ensures SumOf(ks, m[c := v], f) == SumOf(ks, m, f)
  {
    if ks != [] {
      SumOfFrame(ks[..|ks| - 1], m, f, c, v);
    }
  }

  /** Appending a new key adds its value to the sum. */
  lemma SumOfAppend<V>(ks: seq<Token>, m: map<Token, V>, f: V -> int, c: Token, v: V)
    requires c !in ks
    ensures SumOf(ks + [c], m[c := v], f) == SumOf(ks, m, f) + f(v)
  {
    assert (ks + [c])[..|ks|] == ks;
    SumOfFrame(ks, m, f, c, v);
  }

  /** Replacing the value at a key that occurs once in `ks` changes the sum by the difference. */
  lemma {:induction false} SumOfUpdate<V>(ks: seq<Token>, m: map<Token, V>, f: V -> int, c: Token, v: V)
    requires Distinct(ks) && c in ks && c in m
    ensures SumOf(ks, m[c := v], f) == SumOf(ks, m, f) - f(m[c]) + f(v)
  {
    var front, last := ks[..|ks| - 1], ks[|ks| - 1];
    if last == c {
      assert c !in front by {
        forall i | 0 <= i < |front| ensures front[i] != c {
          assert ks[i] == front[i];
        }
      }
      SumOfFrame(front, m, f, c, v);
    } else {
      assert c in front by {
        var i :| 0 <= i < |ks| && ks[i] == c;
        assert i < |ks| - 1 && front[i] == c;
      }
      SumOfUpdate(front, m, f, c, v);
    }
  }

  /** A sum of non-negative terms is at least any one of them. */
  lemma {:induction false} SumOfAtLeastTerm<V>(ks: seq<Token>, m: map<Token, V>, f: V -> int, c: Token)
    requires forall x :: x in m ==> f(m[x]) >= 0
    requires c in ks && c in m
    ensures SumOf(ks, m, f) >= f(m[c])
  {
    var front, last := ks[..|ks| - 1], ks[|ks| - 1];
    SumOfNonNegative(front, m, f);
    if last != c {
      assert c in front by {
        var i :| 0 <= i < |ks| && ks[i] == c;
        assert i < |ks| - 1 && front[i] == c;
      }
      SumOfAtLeastTerm(front, m, f, c);
    }
  }

  lemma {:induction false} SumOfNonNegative<V>(ks: seq<Token>, m: map<Token, V>, f: V -> int)
    requires forall x :: x in m ==> f(m[x]) >= 0
    ensures SumOf(ks, m, f) >= 0
  {
    if ks != [] {
      SumOfNonNegative(ks[..|ks| - 1], m, f);
    }
  }

  /** Counting each key once sums to the number of keys. */
  lemma {:induction false} SumOfOnes(ks: seq<Token>, m: map<Token, nat>)
    requires forall c :: c in ks ==> c in m && m[c] == 1
    ensures SumOf(ks, m, AsInt) == |ks|
  {
    if ks != [] {
      SumOfOnes(ks[..|ks| - 1], m);
    }
  }

  /** Dividing every term by the same positive total divides the sum by it. */
  lemma {:induction false} RealSumScaled(ks: seq<Token>, m: map<Token, nat>, q: map<Token, real>, total: real)
    requires total > 0.0
    requires forall c :: c in ks ==> c in m && c in q && q[c] == m[c] as real / total
    ensures RealSum(ks, q) == SumOf(ks, m, AsInt) as real / total
  {
    if ks != [] {
      var front, c := ks[..|ks| - 1], ks[|ks| - 1];
      RealSumScaled(front, m, q, total);
      var a, b := SumOf(front, m, AsInt) as real, m[c] as real;
      assert a / total + b / total == (a + b) / total;
    }
  }
}
