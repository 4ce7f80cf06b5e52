/**
 * The count table `d` of `MarkovDB`: for each word, how often each other word
 * was seen right after it. `AddPair` is `add`; `Frequencies` is the table the
 * constructor's single pass over the tokens leaves behind.
 */
module Counts {
  import opened Dicts

  /** Source word -> following word -> number of times seen. */
  type Table = Dict<Dict<nat>>

  /** The table and all its rows are well-formed dictionaries. */
  ghost predicate WellFormed(d: Table)
  {
    d.Valid() && forall w :: w in d.at ==> d.at[w].Valid()
  }

  /** A well-formed row whose counts are all at least 1. */
  ghost predicate PositiveRow(row: Dict<nat>)
  {
    row.Valid() && forall c :: c in row.at ==> row.at[c] >= 1
  }

  /** The invariant of `d`: no row is empty and every count is at least 1. */
  ghost predicate Positive(d: Table)
  {
    d.Valid() && forall w :: w in d.at ==> PositiveRow(d.at[w]) && d.at[w].keys != []
  }

  /** `sum(d[w].values())` for a row. */
  function RowSum(row: Dict<nat>): int
  {
    SumOf(row.keys, row.at, AsInt)
  }

  /** The sum of all counts of the table. */
  function Total(d: Table): int
  {
    SumOf(d.keys, d.at, RowSum)
  }

  /** `d[a][b]`, reading a missing row or cell as 0. */
  function Cell(d: Table, a: Token, b: Token): nat
  {
    if a in d.at && b in d.at[a].at then d.at[a].at[b] else 0
  }

  /**
   * `add(w1, w2)`: a row that is missing (or empty, hence falsy) is replaced by
   * an empty `defaultdict(int)`, then the cell `d[w1][w2]` goes up by one.
   */
  function AddPair(d: Table, w1: Token, w2: Token): (r: Table)
    ensures r.at.Keys == d.at.Keys + {w1}
    ensures d.keys <= r.keys
    ensures forall w :: w in d.at && w != w1 ==> r.at[w] == d.at[w]
    ensures w2 in r.at[w1].at && r.at[w1].at[w2] >= 1
  {
    var d1 := Touch(d, w1);
    var row := d1.at[w1];
    var n := if w2 in row.at then row.at[w2] else 0;
    d1.Set(w1, row.Set(w2, n + 1))
  }

  /** The table once `d[w1]` exists: an absent or empty row becomes a fresh empty one. */
  function Touch(d: Table, w1: Token): (r: Table)
    ensures r.at.Keys == d.at.Keys + {w1}
    ensures d.keys <= r.keys
    ensures forall w :: w in d.at && w != w1 ==> r.at[w] == d.at[w]
  {
    if w1 !in d.at || d.at[w1].keys == [] then d.Set(w1, Empty()) else d
  }

  /** `add` in its two steps: make sure the row exists, then set the cell to one more. */
  lemma AddPairSteps(d: Table, w1: Token, w2: Token, row: Dict<nat>, n: nat)
    requires row == Touch(d, w1).at[w1]
    requires n == if w2 in row.at then row.at[w2] else 0
    ensures AddPair(d, w1, w2) == Touch(d, w1).Set(w1, row.Set(w2, n + 1))
  {
  }

  /** Making sure the row `w1` exists keeps the table well-formed. */
  lemma TouchWellFormed(d: Table, w1: Token)
    requires WellFormed(d)
    ensures WellFormed(Touch(d, w1)) && w1 in Touch(d, w1).keys
  {
  }

  /** Making sure the row `w1` exists changes no count and no other row. */
  lemma TouchKeeps(d: Table, w1: Token)
    requires WellFormed(d)
    ensures WellFormed(Touch(d, w1))
    ensures forall a, b :: Cell(Touch(d, w1), a, b) == Cell(d, a, b)
    ensures w1 in d.at && d.at[w1].keys != [] ==> Touch(d, w1) == d
  {
  }

  /** `add(w1, w2)` increments the one cell `d[w1][w2]` and leaves every other cell as it was. */
  lemma AddPairCell(d: Table, w1: Token, w2: Token, a: Token, b: Token)
    requires WellFormed(d)
    ensures Cell(AddPair(d, w1, w2), a, b) == Cell(d, a, b) + (if a == w1 && b == w2 then 1 else 0)
  {
    TouchKeeps(d, w1);
  }

  /** `AddPairCell` for every cell at once. */
  lemma AddPairCells(d: Table, w1: Token, w2: Token)
    requires WellFormed(d)
    ensures forall a, b :: Cell(AddPair(d, w1, w2), a, b) == Cell(d, a, b) + (if a == w1 && b == w2 then 1 else 0)
  {
    forall a, b
      ensures Cell(AddPair(d, w1, w2), a, b) == Cell(d, a, b) + (if a == w1 && b == w2 then 1 else 0)
    {
      AddPairCell(d, w1, w2, a, b);
    }
  }

  /**
   * What `add(w1, w2)` does to a table that keeps its invariant: the invariant
   * holds after, `w1` has a row, exactly the cell `d[w1][w2]` went up by one,
   * and so did the total.
   */
  lemma AddPairEffect(d: Table, w1: Token, w2: Token)
    requires Positive(d)
    ensures Positive(AddPair(d, w1, w2))
    ensures AddPair(d, w1, w2).at.Keys == d.at.Keys + {w1}
    ensures forall a, b :: Cell(AddPair(d, w1, w2), a, b) == Cell(d, a, b) + (if a == w1 && b == w2 then 1 else 0)
    ensures Total(AddPair(d, w1, w2)) == Total(d) + 1
  {
    AddPairPositive(d, w1, w2);
    AddPairTotal(d, w1, w2);
    AddPairCells(d, w1, w2);
  }

  /** `add` keeps every row non-empty and every count at least 1. */
  lemma AddPairPositive(d: Table, w1: Token, w2: Token)
    requires Positive(d)
    ensures Positive(AddPair(d, w1, w2))
  {
    var d1 := Touch(d, w1);
    TouchRow(d, w1);
    var row := d1.at[w1];
    var n := if w2 in row.at then row.at[w2] else 0;
    BumpPositive(row, w2, n);
    var r := d1.Set(w1, row.Set(w2, n + 1));
    assert AddPair(d, w1, w2) == r;
    forall w | w in r.at
      ensures PositiveRow(r.at[w]) && r.at[w].keys != []
    {
      if w != w1 {
        assert r.at[w] == d.at[w];
      }
    }
  }

  /** Under `Positive`, the row `Touch` leaves at `w1` is well-formed with counts of at least 1. */
  lemma TouchRow(d: Table, w1: Token)
    requires Positive(d)
    ensures Touch(d, w1).Valid() && w1 in Touch(d, w1).at
    ensures var row := Touch(d, w1).at[w1]; row.Valid() && forall c :: c in row.at ==> row.at[c] >= 1
  {
  }

  /** Setting one count of a row of positive counts to `n + 1` keeps it positive and non-empty. */
  lemma BumpPositive(row: Dict<nat>, c: Token, n: nat)
    requires row.Valid() && forall x :: x in row.at ==> row.at[x] >= 1
    ensures PositiveRow(row.Set(c, n + 1)) && row.Set(c, n + 1).keys != []
  {
  }

  /** Incrementing one cell of a row adds one to the row's sum. */
  lemma RowIncrement(row: Dict<nat>, c: Token, n: nat)
    requires row.Valid()
    requires n == if c in row.at then row.at[c] else 0
    ensures RowSum(row.Set(c, n + 1)) == RowSum(row) + 1
  {
    if c in row.at {
      SumOfUpdate(row.keys, row.at, AsInt, c, row.at[c] + 1);
    } else {
      SumOfAppend(row.keys, row.at, AsInt, c, 1);
    }
  }

  /** Making sure the row `w1` exists leaves the total as it was. */
  lemma TouchTotal(d: Table, w1: Token)
    requires WellFormed(d)
    ensures Total(Touch(d, w1)) == Total(d)
  {
    assert RowSum(Empty()) == 0;
    if w1 !in d.at {
      SumOfAppend(d.keys, d.at, RowSum, w1, Empty());
    } else if d.at[w1].keys == [] {
      SumOfUpdate(d.keys, d.at, RowSum, w1, Empty());
    }
  }

  /** `add` records exactly one more observation. */
  lemma AddPairTotal(d: Table, w1: Token, w2: Token)
    requires WellFormed(d)
    ensures Total(AddPair(d, w1, w2)) == Total(d) + 1
  {
    TouchWellFormed(d, w1);
    TouchTotal(d, w1);
    var d1 := Touch(d, w1);
    var row := d1.at[w1];
    var n := if w2 in row.at then row.at[w2] else 0;
    var bumped := row.Set(w2, n + 1);
    RowIncrement(row, w2, n);
    SumOfUpdate(d1.keys, d1.at, RowSum, w1, bumped);
    assert AddPair(d, w1, w2) == d1.Set(w1, bumped);
  }

  /** The adjacent pairs `(ts[i], ts[i + 1])` of a token sequence, in order. */
  function Pairs(ts: seq<Token>): (r: seq<(Token, Token)>)
    ensures |r| == if |ts| == 0 then 0 else |ts| - 1
    ensures forall i {:trigger r[i]} :: 0 <= i < |r| ==> r[i] == (ts[i], ts[i + 1])
  {
    if |ts| < 2 then []
    else Pairs(ts[..|ts| - 1]) + [(ts[|ts| - 2], ts[|ts| - 1])]
  }

  /** The table after `add` has been applied to each pair in turn. */
  function Tally(ps: seq<(Token, Token)>): Table
  {
    if ps == [] then Empty()
    else
      var last := ps[|ps| - 1];
      AddPair(Tally(ps[..|ps| - 1]), last.0, last.1)
  }

  /** Every table `add` builds has no empty row and no count below 1. */
  lemma {:induction false} TallyPositive(ps: seq<(Token, Token)>)
    ensures Positive(Tally(ps))
  {
    if ps != [] {
      var last := ps[|ps| - 1];
      TallyPositive(ps[..|ps| - 1]);
      AddPairPositive(Tally(ps[..|ps| - 1]), last.0, last.1);
    }
  }

  /** The count table built from a token sequence. */
  function Frequencies(ts: seq<Token>): Table
  {
    Tally(Pairs(ts))
  }

  /** The table built from any token sequence has no empty row and no count below 1. */
  lemma FrequenciesPositive(ts: seq<Token>)
    ensures Positive(Frequencies(ts))
  {
    TallyPositive(Pairs(ts));
  }

  /** One more token adds its pair with the token before it to the table. */
  lemma FrequenciesExtend(ts: seq<Token>)
    requires |ts| >= 2
    ensures Frequencies(ts) == AddPair(Frequencies(ts[..|ts| - 1]), ts[|ts| - 2], ts[|ts| - 1])
  {
    var ps := Pairs(ts);
    assert ps == Pairs(ts[..|ts| - 1]) + [(ts[|ts| - 2], ts[|ts| - 1])];
    assert ps[..|ps| - 1] == Pairs(ts[..|ts| - 1]);
  }

  /** Reading token `i` adds the pair it ends, if any, to the table built so far. */
  lemma FrequenciesStep(ts: seq<Token>, i: nat)
    requires i < |ts|
    ensures i == 0 ==> Frequencies(ts[..i + 1]) == Frequencies(ts[..i])
    ensures i > 0 ==> Frequencies(ts[..i + 1]) == AddPair(Frequencies(ts[..i]), ts[i - 1], ts[i])
  {
    if i > 0 {
      FrequenciesExtend(ts[..i + 1]);
      assert ts[..i + 1][..i] == ts[..i];
    }
  }

  /** `b` directly follows `a` at position `i`. */
  predicate AdjacentAt(ts: seq<Token>, i: nat, a: Token, b: Token)
  {
    i < |ts| - 1 && ts[i] == a && ts[i + 1] == b
  }

  /** The positions at which `b` directly follows `a`. */
  function Adjacencies(ts: seq<Token>, a: Token, b: Token): set<nat>
  {
    set i: nat | i < |ts| && AdjacentAt(ts, i, a, b)
  }

  /** The last pair of `ps` adds one occurrence of itself. */
  lemma OccurrencesLast(ps: seq<(Token, Token)>, a: Token, b: Token)
    requires ps != []
    ensures var last := ps[|ps| - 1];
      multiset(ps)[(a, b)] == multiset(ps[..|ps| - 1])[(a, b)] + (if last.0 == a && last.1 == b then 1 else 0)
  {
    var front, last := ps[..|ps| - 1], ps[|ps| - 1];
    assert ps == front + [last];
    assert multiset(ps) == multiset(front) + multiset{last};
  }

  /** Each cell of a tally counts the occurrences of its pair. */
  lemma {:induction false} TallyCell(ps: seq<(Token, Token)>, a: Token, b: Token)
    ensures Cell(Tally(ps), a, b) == multiset(ps)[(a, b)]
  {
    if ps != [] {
      var front, last := ps[..|ps| - 1], ps[|ps| - 1];
      TallyCell(front, a, b);
      TallyPositive(front);
      AddPairCell(Tally(front), last.0, last.1, a, b);
      OccurrencesLast(ps, a, b);
    }
  }

  /** The counts of a tally add up to the number of pairs. */
  lemma {:induction false} TallyTotal(ps: seq<(Token, Token)>)
    ensures Total(Tally(ps)) == |ps|
  {
    if ps != [] {
      var front, last := ps[..|ps| - 1], ps[|ps| - 1];
      TallyTotal(front);
      TallyPositive(front);
      AddPairTotal(Tally(front), last.0, last.1);
    }
  }

  /** The words that start some pair. */
  function Sources(ps: seq<(Token, Token)>): set<Token>
  {
    set p | p in ps :: p.0
  }

  /** A tally has a row exactly for the words that start some pair. */
  lemma {:induction false} TallyKeys(ps: seq<(Token, Token)>)
    ensures Tally(ps).at.Keys == Sources(ps)
  {
    if ps != [] {
      var front, last := ps[..|ps| - 1], ps[|ps| - 1];
      TallyKeys(front);
      assert ps == front + [last];
      SourcesSnoc(front, last);
    }
  }

  lemma SourcesSnoc(ps: seq<(Token, Token)>, last: (Token, Token))
    ensures Sources(ps + [last]) == Sources(ps) + {last.0}
  {
    forall w | w in Sources(ps)
      ensures w in Sources(ps + [last])
    {
      var p :| p in ps && p.0 == w;
      assert p in ps + [last];
    }
    assert last in ps + [last];
  }

  /** Extending the tokens by one adds the new last pair to `Pairs`. */
  lemma PairsStep(ts: seq<Token>, a: Token, b: Token)
    requires |ts| >= 2
    ensures var n := |ts|;
      multiset(Pairs(ts))[(a, b)] == multiset(Pairs(ts[..n - 1]))[(a, b)] + (if ts[n - 2] == a && ts[n - 1] == b then 1 else 0)
  {
    var n := |ts|;
    var front, last := ts[..n - 1], (ts[n - 2], ts[n - 1]);
    assert Pairs(ts) == Pairs(front) + [last];
    assert multiset(Pairs(ts)) == multiset(Pairs(front)) + multiset{last};
  }

  /** Extending the tokens by one adds at most the new last position to `Adjacencies`. */
  lemma AdjacenciesStep(ts: seq<Token>, a: Token, b: Token)
    requires |ts| >= 2
    ensures var n := |ts|;
      |Adjacencies(ts, a, b)| == |Adjacencies(ts[..n - 1], a, b)| + (if ts[n - 2] == a && ts[n - 1] == b then 1 else 0)
  {
    var n := |ts|;
    var front := ts[..n - 1];
    var prev, now := Adjacencies(front, a, b), Adjacencies(ts, a, b);
    var matches := ts[n - 2] == a && ts[n - 1] == b;
    forall i: nat
      ensures i in now <==> i in prev || (i == n - 2 && matches)
    {
      if i < n - 2 {
        assert ts[i] == front[i] && ts[i + 1] == front[i + 1];
      }
    }
    if matches {
      assert now == prev + {n - 2};
    } else {
      assert now == prev;
    }
  }

  /** The pair `(a, b)` occurs in `Pairs(ts)` once per position where `b` follows `a`. */
  lemma {:induction false} PairsOccurrences(ts: seq<Token>, a: Token, b: Token)
    ensures multiset(Pairs(ts))[(a, b)] == |Adjacencies(ts, a, b)|
  {
    if |ts| < 2 {
      assert Adjacencies(ts, a, b) == {};
    } else {
      PairsOccurrences(ts[..|ts| - 1], a, b);
      PairsStep(ts, a, b);
      AdjacenciesStep(ts, a, b);
    }
  }

  /** `d[a][b]` after construction is the number of times `b` directly follows `a`. */
  lemma FrequenciesCell(ts: seq<Token>, a: Token, b: Token)
    ensures Cell(Frequencies(ts), a, b) == |Adjacencies(ts, a, b)|
  {
    TallyCell(Pairs(ts), a, b);
    PairsOccurrences(ts, a, b);
  }

  /** After construction over N tokens the counts add up to max(0, N - 1). */
  lemma FrequenciesTotal(ts: seq<Token>)
    ensures Total(Frequencies(ts)) == if |ts| == 0 then 0 else |ts| - 1
  {
    TallyTotal(Pairs(ts));
  }

  /** After construction a word has a row exactly when it occurs before the last position. */
  lemma FrequenciesSources(ts: seq<Token>, w: Token)
    ensures w in Frequencies(ts).at <==> exists i :: 0 <= i < |ts| - 1 && ts[i] == w
  {
    var ps := Pairs(ts);
    TallyKeys(ps);
    if w in Sources(ps) {
      var p :| p in ps && p.0 == w;
      var i :| 0 <= i < |ps| && ps[i] == p;
      assert ts[i] == w;
    }
    if exists i :: 0 <= i < |ts| - 1 && ts[i] == w {
      var i :| 0 <= i < |ts| - 1 && ts[i] == w;
      assert ps[i] in ps;
    }
  }

  /** The keys of row `w` in iteration order; none when `w` has no row. */
  function RowKeys(d: Table, w: Token): seq<Token>
  {
    if w in d.at then d.at[w].keys else []
  }

  /** The words that follow `w` in the pairs `ps`, each once, in order of first occurrence. */
  function Followers(ps: seq<(Token, Token)>, w: Token): seq<Token>
  {
    if ps == [] then []
    else
      var last := ps[|ps| - 1];
      var f := Followers(ps[..|ps| - 1], w);
      if last.0 == w && last.1 !in f then f + [last.1] else f
  }

  /** A word is among the followers of `w` exactly when some pair is `(w, b)`. */
  lemma {:induction false} FollowersMembers(ps: seq<(Token, Token)>, w: Token, b: Token)
    ensures b in Followers(ps, w) <==> (w, b) in ps
  {
    if ps != [] {
      var front, last := ps[..|ps| - 1], ps[|ps| - 1];
      FollowersMembers(front, w, b);
      assert ps == front + [last];
    }
  }

  /**
   * Followers appear in the order of their first pair: wherever a later
   * follower occurs, an earlier one has occurred before.
   */
  lemma {:induction false} FollowersOrder(ps: seq<(Token, Token)>, w: Token, j: nat, k: nat, i: nat)
    requires j < k < |Followers(ps, w)| && i < |ps| && ps[i] == (w, Followers(ps, w)[k])
    ensures exists i' :: 0 <= i' < i && ps[i'] == (w, Followers(ps, w)[j])
  {
    var front, last := ps[..|ps| - 1], ps[|ps| - 1];
    var f, g := Followers(front, w), Followers(ps, w);
    assert g == f || (g == f + [last.1] && last.1 !in f);
    if i < |front| {
      assert front[i] == (w, g[k]);
      assert g[k] in f by {
        FollowersMembers(front, w, g[k]);
        assert front[i] in front;
      }
      assert k < |f| && g[k] == f[k] && g[j] == f[j];
      FollowersOrder(front, w, j, k, i);
      var i' :| 0 <= i' < i && front[i'] == (w, f[j]);
      assert ps[i'] == front[i'];
    } else {
      assert j < |f| && g[j] == f[j];
      FollowersMembers(front, w, f[j]);
      var i' :| 0 <= i' < |front| && front[i'] == (w, f[j]);
      assert ps[i'] == front[i'];
    }
  }

  /** The row of `w` in a tally lists exactly the followers of `w`, in order of first occurrence. */
  lemma {:induction false} TallyFollowers(ps: seq<(Token, Token)>, w: Token)
    ensures RowKeys(Tally(ps), w) == Followers(ps, w)
  {
    if ps != [] {
      var front, last := ps[..|ps| - 1], ps[|ps| - 1];
      TallyFollowers(front, w);
      TallyPositive(front);
      var d := Tally(front);
      if last.0 == w {
        var d1 := Touch(d, w);
        var row := d1.at[w];
        var n := if last.1 in row.at then row.at[last.1] else 0;
        AddPairSteps(d, w, last.1, row, n);
        assert row.keys == RowKeys(d, w);
        assert last.1 in row.at <==> last.1 in row.keys;
      }
    }
  }

  /** After loading, the row of `w` lists no word twice. */
  lemma FrequenciesRowDistinct(ts: seq<Token>, w: Token)
    ensures Distinct(RowKeys(Frequencies(ts), w))
  {
    FrequenciesPositive(ts);
  }

  /** After loading, the row of `w` lists `b` exactly when `b` follows `w` somewhere in the text. */
  lemma FrequenciesFollowers(ts: seq<Token>, w: Token, b: Token)
    ensures b in RowKeys(Frequencies(ts), w) <==> exists i: nat :: AdjacentAt(ts, i, w, b)
  {
    var ps := Pairs(ts);
    assert b in RowKeys(Frequencies(ts), w) <==> (w, b) in ps by {
      TallyFollowers(ps, w);
      FollowersMembers(ps, w, b);
    }
    if (w, b) in ps {
      var i :| 0 <= i < |ps| && ps[i] == (w, b);
      assert AdjacentAt(ts, i, w, b);
    }
    if exists i: nat :: AdjacentAt(ts, i, w, b) {
      var i: nat :| AdjacentAt(ts, i, w, b);
      assert ps[i] == (w, b);
    }
  }

  /**
   * After loading, the row of `w` is in the order of first appearance: wherever
   * its `k`-th word follows `w`, its `j`-th word (`j < k`) followed `w` before.
   */
  lemma FrequenciesFollowerOrder(ts: seq<Token>, w: Token, j: nat, k: nat, i: nat)
    requires j < k < |RowKeys(Frequencies(ts), w)|
    requires AdjacentAt(ts, i, w, RowKeys(Frequencies(ts), w)[k])
    ensures exists i': nat :: i' < i && AdjacentAt(ts, i', w, RowKeys(Frequencies(ts), w)[j])
  {
    var ps := Pairs(ts);
    TallyFollowers(ps, w);
    var ks := RowKeys(Frequencies(ts), w);
    assert ps[i] == (w, ks[k]);
    FollowersOrder(ps, w, j, k, i);
    var i' :| 0 <= i' < i && ps[i'] == (w, ks[j]);
    assert AdjacentAt(ts, i', w, ks[j]);
  }
}
