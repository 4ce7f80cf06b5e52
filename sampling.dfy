/**
 * The sampling pool of `MarkovDB._next`: every candidate repeated
 * `int(sample_size * probability)` times, in row order, and one element drawn
 * from it.
 */
module Sampling {
  import opened Dicts

  /** The default `sample_size` of `_next`. */
  const SampleSize: nat := 100

  /** `int(sampleSize * probability)`: Python's `int` truncates toward zero. */
  function Copies(probability: real, sampleSize: nat): (n: int)
    ensures probability >= 0.0 ==> n == (sampleSize as real * probability).Floor
    ensures n >= 1 <==> sampleSize as real * probability >= 1.0
  {
    var x := sampleSize as real * probability;
    if x >= 0.0 then x.Floor else -((-x).Floor)
  }

  /** `n` copies of `c`; none when `n` is not positive, as `range(n)` is then empty. */
  function Repeat(c: Token, n: int): (r: seq<Token>)
    ensures |r| == if n <= 0 then 0 else n
    ensures forall i :: 0 <= i < |r| ==> r[i] == c
  {
    if n <= 0 then [] else Repeat(c, n - 1) + [c]
  }

  /** The pool built from the candidates `ks` (in this order) with probabilities `m`. */
  function PoolOf(ks: seq<Token>, m: map<Token, real>, sampleSize: nat): seq<Token>
  {
    if ks == [] then []
    else
      var c := ks[|ks| - 1];
      PoolOf(ks[..|ks| - 1], m, sampleSize) + Repeat(c, Copies(if c in m then m[c] else 0.0, sampleSize))
  }

  /** The pool `_next` builds for a row of `p`. */
  function Pool(row: Dict<real>, sampleSize: nat): seq<Token>
  {
    PoolOf(row.keys, row.at, sampleSize)
  }

  /** The number of copies of one candidate in the pool. */
  function Weight(row: Dict<real>, sampleSize: nat, c: Token): nat
  {
    if c in row.at then
      var n := Copies(row.at[c], sampleSize);
      if n <= 0 then 0 else n
    else 0
  }

  /** `random.choice(pool)` with the random index supplied as `draw`; an empty pool has no choice. */
  function Choose(pool: seq<Token>, draw: nat): (r: Option<Token>)
    ensures r.None? <==> pool == []
    ensures r.Some? ==> r.value in pool
  {
    if pool == [] then None else Some(pool[draw % |pool|])
  }

  datatype Option<T> = None | Some(value: T)

  lemma {:induction false} RepeatCount(c: Token, n: int, x: Token)
    ensures multiset(Repeat(c, n))[x] == if x == c && n > 0 then n else 0
  {
    if n > 0 {
      RepeatCount(c, n - 1, x);
      assert multiset(Repeat(c, n)) == multiset(Repeat(c, n - 1)) + multiset{c};
    }
  }

  /**
   * Each candidate appears in the pool exactly `int(S * p[c])` times (none when
   * that is not positive); no other word appears.
   */
  lemma {:induction false} PoolOfCount(ks: seq<Token>, m: map<Token, real>, sampleSize: nat, x: Token)
    requires Distinct(ks)
    ensures multiset(PoolOf(ks, m, sampleSize))[x] ==
      if x in ks then Weight(Dict(ks, m), sampleSize, x) else 0
  {
    if ks != [] {
      var front, c := ks[..|ks| - 1], ks[|ks| - 1];
      assert Distinct(front);
      PoolOfCount(front, m, sampleSize, x);
      RepeatCount(c, Copies(if c in m then m[c] else 0.0, sampleSize), x);
      assert c !in front by {
        forall i | 0 <= i < |front| ensures front[i] != c {
          assert ks[i] == front[i];
        }
      }
      assert x in ks <==> x in front || x == c;
      var rest := Repeat(c, Copies(if c in m then m[c] else 0.0, sampleSize));
      assert multiset(PoolOf(ks, m, sampleSize)) == multiset(PoolOf(front, m, sampleSize)) + multiset(rest);
    }
  }

  /** The pool holds `Weight` copies of every candidate of a row, and nothing else. */
  lemma PoolCount(row: Dict<real>, sampleSize: nat, x: Token)
    requires row.Valid()
    ensures multiset(Pool(row, sampleSize))[x] == Weight(row, sampleSize, x)
  {
    PoolOfCount(row.keys, row.at, sampleSize, x);
  }

  /**
   * A candidate can be drawn exactly when `sampleSize * p[c] >= 1`: one whose
   * probability is below `1 / sampleSize` never enters the pool.
   */
  lemma PoolMembers(row: Dict<real>, sampleSize: nat, c: Token)
    requires row.Valid()
    ensures c in Pool(row, sampleSize) <==> c in row.at && sampleSize as real * row.at[c] >= 1.0
  {
    PoolCount(row, sampleSize, c);
  }

  /** Taking one more candidate of `ks` appends its copies to the pool. */
  lemma PoolOfPrefix(ks: seq<Token>, m: map<Token, real>, sampleSize: nat, i: nat)
    requires i < |ks| && ks[i] in m
    ensures PoolOf(ks[..i + 1], m, sampleSize) == PoolOf(ks[..i], m, sampleSize) + Repeat(ks[i], Copies(m[ks[i]], sampleSize))
  {
    assert ks[..i + 1][..i] == ks[..i];
  }

  /** What `Choose` draws from a row's pool is a candidate with `sampleSize * p >= 1`. */
  lemma ChooseFromPool(row: Dict<real>, sampleSize: nat, draw: nat)
    requires row.Valid()
    ensures var r := Choose(Pool(row, sampleSize), draw);
      r.Some? ==> r.value in row.at && sampleSize as real * row.at[r.value] >= 1.0
  {
    var r := Choose(Pool(row, sampleSize), draw);
    if r.Some? {
      PoolMembers(row, sampleSize, r.value);
    }
  }

  /** A candidate with probability below `1 / sampleSize` is never drawn. */
  lemma Starved(row: Dict<real>, sampleSize: nat, c: Token)
    requires row.Valid() && 0 < sampleSize && c in row.at
    requires row.at[c] < 1.0 / sampleSize as real
    ensures c !in Pool(row, sampleSize)
  {
    PoolMembers(row, sampleSize, c);
    var s := sampleSize as real;
    assert s * row.at[c] < s * (1.0 / s);
  }

  /** Truncation never rounds a non-negative product up. */
  lemma CopiesAtMost(q: real)
    requires q >= 0.0
    ensures var n := Copies(q, SampleSize); (if n <= 0 then 0 else n) as real <= 100.0 * q
  {
  }

  /** With the sample size `_next` uses, the pool of `ks` is no longer than 100 times their total probability. */
  lemma {:induction false} PoolOfLength(ks: seq<Token>, m: map<Token, real>)
    requires forall c :: c in m ==> m[c] >= 0.0
    ensures |PoolOf(ks, m, SampleSize)| as real <= 100.0 * RealSum(ks, m)
  {
    if ks != [] {
      var front, c := ks[..|ks| - 1], ks[|ks| - 1];
      PoolOfLength(front, m);
      var q := if c in m then m[c] else 0.0;
      var w := PoolOfLast(ks, m, SampleSize);
      CopiesAtMost(q);
    }
  }

  /** The last candidate adds its copies to the pool. */
  lemma PoolOfLast(ks: seq<Token>, m: map<Token, real>, sampleSize: nat) returns (w: nat)
    requires ks != []
    ensures var c := ks[|ks| - 1]; var n := Copies(if c in m then m[c] else 0.0, sampleSize);
      w == (if n <= 0 then 0 else n) &&
      |PoolOf(ks, m, sampleSize)| == |PoolOf(ks[..|ks| - 1], m, sampleSize)| + w
  {
    var c := ks[|ks| - 1];
    w := |Repeat(c, Copies(if c in m then m[c] else 0.0, sampleSize))|;
  }

  /** A row of probabilities that sums to 1 gives a pool of at most `SampleSize` words. */
  lemma PoolLength(row: Dict<real>)
    requires forall c :: c in row.at ==> row.at[c] >= 0.0
    requires RealSum(row.keys, row.at) == 1.0
    ensures |Pool(row, SampleSize)| <= SampleSize
  {
    PoolOfLength(row.keys, row.at);
  }

  /** A single candidate with probability 1 fills the pool with exactly `sampleSize` copies. */
  lemma CertainCandidate(c: Token, sampleSize: nat, draw: nat)
    ensures Pool(Dict([c], map[c := 1.0]), sampleSize) == Repeat(c, sampleSize)
    ensures Choose(Pool(Dict([c], map[c := 1.0]), sampleSize), draw) == if sampleSize == 0 then None else Some(c)
  {
    var ks, m := [c], map[c := 1.0];
    assert ks[..0] == [];
    CopiesOfOne(sampleSize);
    assert PoolOf(ks, m, sampleSize) == [] + Repeat(c, sampleSize);
  }

  lemma CopiesOfOne(sampleSize: nat)
    ensures Copies(1.0, sampleSize) == sampleSize
  {
    assert sampleSize as real * 1.0 == sampleSize as real;
  }

  /**
   * With exact probabilities `count / total`, the number of copies is the
   * integer quotient `(sampleSize * count) / total`.
   */
  lemma CopiesOfRatio(count: nat, total: nat, sampleSize: nat)
    requires total > 0
    ensures Copies(count as real / total as real, sampleSize) == (sampleSize * count) / total
  {
    var q, r := (sampleSize * count) / total, (sampleSize * count) % total;
    var t := total as real;
    assert (sampleSize * count) as real == q as real * t + r as real;
    var x := sampleSize as real * (count as real / t);
    assert x == (sampleSize * count) as real / t;
    assert x == q as real + r as real / t;
    assert 0.0 <= r as real / t < 1.0;
  }

  /** Candidate `c` gets at least one copy in the pool: `sampleSize * p[c] >= 1`. */
  predicate Drawable(row: Dict<real>, sampleSize: nat, c: Token)
  {
    c in row.at && sampleSize as real * row.at[c] >= 1.0
  }

  /**
   * The pool is empty exactly when no candidate reaches `1 / sampleSize`; then
   * `random.choice` has nothing to pick.
   */
  lemma EmptyPoolIff(row: Dict<real>, sampleSize: nat)
    requires row.Valid()
    ensures Pool(row, sampleSize) == [] <==> forall c :: !Drawable(row, sampleSize, c)
  {
    if Pool(row, sampleSize) != [] {
      var c := Pool(row, sampleSize)[0];
      assert c in Pool(row, sampleSize);
      PoolMembers(row, sampleSize, c);
      assert Drawable(row, sampleSize, c);
    } else {
      forall c
        ensures !Drawable(row, sampleSize, c)
      {
        PoolMembers(row, sampleSize, c);
      }
    }
  }

  /**
   * The pool with a fallback: when truncation leaves it empty, every candidate
   * once instead, so that a word with candidates always yields a next word.
   */
  function FallbackPool(row: Dict<real>, sampleSize: nat): seq<Token>
  {
    var pool := Pool(row, sampleSize);
    if pool == [] then row.keys else pool
  }

  /**
   * With the fallback, a row with candidates always yields one of them, and it
   * draws exactly what the pool of `_next` draws whenever that pool is not empty.
   */
  lemma FallbackPoolDraws(row: Dict<real>, sampleSize: nat, draw: nat)
    requires row.Valid() && row.keys != []
    ensures Choose(FallbackPool(row, sampleSize), draw).Some?
    ensures Choose(FallbackPool(row, sampleSize), draw).value in row.at
    ensures Pool(row, sampleSize) != [] ==>
      Choose(FallbackPool(row, sampleSize), draw) == Choose(Pool(row, sampleSize), draw)
  {
    var r := Choose(FallbackPool(row, sampleSize), draw);
    if Pool(row, sampleSize) != [] {
      PoolMembers(row, sampleSize, r.value);
    }
  }
}
