/**
 * `MarkovDB` of utils.py: one pass over the tokens through a two-word
 * `Buffer` fills the count table `d`, `_generate_probabilities` derives `p`,
 * and `query` samples a next word from the pool `_next` builds.
 */
module Markov {
  import opened Dicts
  import opened Buffering
  import opened Counts
  import opened Ratios
  import opened Sampling

  /** `str.lower()` on one character, for the ASCII letters. */
  function LowerChar(c: char): (r: char)
    ensures 'A' <= c <= 'Z' ==> 'a' <= r <= 'z' && r as int - 'a' as int == c as int - 'A' as int
    ensures !('A' <= c <= 'Z') ==> r == c
    ensures !('A' <= r <= 'Z')
  {
    if 'A' <= c <= 'Z' then (c as int + 32) as char else c
  }

  /**
   * `str.lower()`, for the ASCII letters: each upper-case letter becomes its
   * lower-case counterpart and every other character stays.
   */
  function Lower(s: string): (r: string)
    ensures |r| == |s|
    ensures forall i :: 0 <= i < |s| && 'A' <= s[i] <= 'Z' ==>
      'a' <= r[i] <= 'z' && r[i] as int - 'a' as int == s[i] as int - 'A' as int
    ensures forall i :: 0 <= i < |s| && !('A' <= s[i] <= 'Z') ==> r[i] == s[i]
  {
    seq(|s|, i requires 0 <= i < |s| => LowerChar(s[i]))
  }

  /** A lower-cased word has no upper-case letter, and lower-casing it again changes nothing. */
  lemma LowerIsLowerCase(s: string)
    ensures forall i :: 0 <= i < |s| ==> !('A' <= Lower(s)[i] <= 'Z')
    ensures Lower(Lower(s)) == Lower(s)
  {
    assert forall i :: 0 <= i < |s| ==> LowerChar(LowerChar(s[i])) == LowerChar(s[i]);
  }

  /**
   * The normalised tokens of the split input: each word lower-cased, so that
   * lower-casing a token again leaves it as it is.
   */
  function Tokens(words: seq<string>): (ts: seq<Token>)
    ensures |ts| == |words|
    ensures forall i :: 0 <= i < |ts| ==> ts[i] == Lower(words[i])
    ensures forall i :: 0 <= i < |ts| ==> Lower(ts[i]) == ts[i]
  {
    LowerAll(words);
    seq(|words|, i requires 0 <= i < |words| => Lower(words[i]))
  }

  /** Lower-casing is idempotent on every word of the input. */
  lemma LowerAll(words: seq<string>)
    ensures forall i :: 0 <= i < |words| ==> Lower(Lower(words[i])) == Lower(words[i])
  {
    forall i | 0 <= i < |words|
      ensures Lower(Lower(words[i])) == Lower(words[i])
    {
      LowerIsLowerCase(words[i]);
    }
  }

  /** The tokens up to position `i` are those up to `i - 1` followed by word `i`, lower-cased. */
  lemma TokensPrefix(words: seq<string>, i: nat)
    requires i < |words|
    ensures Tokens(words)[..i + 1] == Tokens(words)[..i] + [Lower(words[i])]
  {
  }

  /** What `query` reports. */
  datatype Outcome =
    | NotFound
      // the word has no row: "probability=0"
    | EmptyPool
      // every candidate's copies truncated to 0; `random.choice([])` raises here
    | Sampled(next: Token, probability: real, pairs: seq<(Token, real)>)
      // the drawn word with its probability, then every candidate in row order

  class MarkovDB {
    /** Count table: word -> following word -> occurrences. */
    var d: Table
    /** Probability table: word -> following word -> probability. */
    var p: ProbabilityTable

    ghost predicate Valid()
      reads this
    {
      Positive(d) && forall w :: w in p ==> p[w].Valid()
    }

    /**
     * `MarkovDB(filename)`, given the words of the file already split on
     * whitespace: starts with empty tables, loads the words, then derives `p`.
     */
    constructor (words: seq<string>)
      ensures Valid()
      ensures d == Frequencies(Tokens(words))
      ensures p == Probabilities(d)
      ensures Total(d) == if |words| == 0 then 0 else |words| - 1
      ensures forall a, b :: Cell(d, a, b) == |Adjacencies(Tokens(words), a, b)|
      ensures forall w :: w in p <==> exists i :: 0 <= i < |words| - 1 && Lower(words[i]) == w
    {
      new;
      Load(words);
      GenerateProbabilities();
      UnionEmpty(Probabilities(d));
      Built(words);
    }

    /**
     * `__init__` up to `_generate_probabilities`: empties both tables, then
     * pushes each lower-cased word through a two-word buffer and records every
     * full window with `add`.
     */
    method Load(words: seq<string>)
      modifies this
      ensures Valid() && p == map[]
      ensures d == Frequencies(Tokens(words))
    {
      d := Empty();
      p := map[];
      ghost var ts := Tokens(words);
      var b := new Buffer(2);
      var i := 0;
      while i < |words|
        invariant 0 <= i <= |words|
        invariant fresh(b) && b.Valid() && b.k == 2 && b.pushed == ts[..i]
        invariant d == Frequencies(ts[..i]) && p == map[]
      {
        var word := Lower(words[i]);
        TokensPrefix(words, i);
        FrequenciesStep(ts, i);
        var full := b.Push(word);
        if full {
          var pair := b.Contents();
          LastPair(ts, i);
          FrequenciesPositive(ts[..i]);
          Add(pair[0], pair[1]);
        } else {
          assert i == 0;
        }
        i := i + 1;
      }
      assert ts[..i] == ts;
      FrequenciesPositive(ts);
    }

    /** `add(w1, w2)`: records one observation of `w2` right after `w1`. */
    method Add(w1: Token, w2: Token)
      requires Valid()
      modifies this
      ensures Valid() && p == old(p)
      ensures d == AddPair(old(d), w1, w2)
    {
      // `if not root.get(w1)`: an absent or empty row becomes a new empty one
      var table := Touch(d, w1);
      var row := table.at[w1];
      var n := if w2 in row.at then row.at[w2] else 0;
      table := table.Set(w1, row.Set(w2, n + 1));
      AddPairSteps(d, w1, w2, row, n);
      AddPairPositive(d, w1, w2);
      d := table;
    }

    /**
     * `_generate_probabilities`: for every row of `d`, in order, stores in `p`
     * each count divided by the row's total.
     */
    method GenerateProbabilities()
      requires Valid()
      modifies this
      ensures Valid() && d == old(d)
      ensures p == old(p) + Probabilities(d)
    {
      var table, probabilities := d, p;
      var i := 0;
      while i < |table.keys|
        invariant 0 <= i <= |table.keys|
        invariant probabilities == old(p) + PartialTable(table, i)
        invariant d == old(d) == table && p == old(p)
      {
        var word := table.keys[i];
        var candidates := table.at[word];
        var row: Dict<real> := Empty();
        // `if candidates:` always holds, since no row of `d` is empty
        RowSumPositive(candidates);
        var whole := RowSum(candidates) as real;
        PartialRowStart(candidates, whole);
        var j := 0;
        while j < |candidates.keys|
          invariant 0 <= j <= |candidates.keys|
          invariant row == PartialRow(candidates, whole, j)
          invariant d == old(d) && p == old(p)
        {
          var c := candidates.keys[j];
          PartialRowStep(candidates, whole, j);
          row := row.Set(c, candidates.at[c] as real / whole);
          j := j + 1;
        }
        PartialRowDone(candidates);
        PartialTableStep(old(p), table, i);
        probabilities := probabilities[word := row];
        i := i + 1;
      }
      PartialTableDone(old(p), table);
      p := probabilities;
    }

    /**
     * `query(word)`: looks up the lower-cased word; with no (or an empty) row
     * it reports not found, otherwise it samples with `draw` and lists the row.
     */
    method Query(word: string, draw: nat) returns (r: Outcome)
      requires Valid()
      ensures var key := Lower(word);
        r.NotFound? <==> key !in p || p[key].keys == []
      ensures var key := Lower(word);
        r.EmptyPool? <==> key in p && p[key].keys != [] && Pool(p[key], SampleSize) == []
      ensures var key := Lower(word);
        r.Sampled? ==>
          && key in p
          && Choose(Pool(p[key], SampleSize), draw) == Some(r.next)
          && r.next in p[key].at && r.probability == p[key].at[r.next]
          && r.pairs == p[key].Items()
    {
      var key := Lower(word);
      if key !in p || p[key].keys == [] {
        return NotFound;
      }
      var candidates := p[key];
      var next := Next(candidates, SampleSize, draw);
      ChooseFromPool(candidates, SampleSize, draw);
      match next
      case None =>
        r := EmptyPool;
      case Some(w) =>
        r := Sampled(w, candidates.at[w], candidates.Items());
    }

    /**
     * `_next`: builds the pool, each candidate repeated
     * `int(sampleSize * probability)` times in row order, and draws from it as
     * `random.choice` does, with `Choose`.
     */
    method Next(candidates: Dict<real>, sampleSize: nat, draw: nat) returns (r: Option<Token>)
      requires forall c :: c in candidates.keys ==> c in candidates.at
      ensures r == Choose(Pool(candidates, sampleSize), draw)
    {
      var sampling: seq<Token> := [];
      var i := 0;
      while i < |candidates.keys|
        invariant 0 <= i <= |candidates.keys|
        invariant sampling == PoolOf(candidates.keys[..i], candidates.at, sampleSize)
      {
        var c := candidates.keys[i];
        var copies := Copies(candidates.at[c], sampleSize);
        ghost var before := sampling;
        var j := 0;
        while j < copies
          invariant 0 <= j && (j <= copies || j == 0)
          invariant sampling == before + Repeat(c, j)
        {
          assert before + Repeat(c, j + 1) == before + Repeat(c, j) + [c];
          sampling := sampling + [c];
          j := j + 1;
        }
        PoolOfPrefix(candidates.keys, candidates.at, sampleSize, i);
        i := i + 1;
      }
      assert candidates.keys[..i] == candidates.keys;
      r := Choose(sampling, draw);
    }
  }

  /** Once token `i > 0` is pushed, the two-word window holds tokens `i - 1` and `i`. */
  lemma LastPair(ts: seq<Token>, i: nat)
    requires 0 < i < |ts|
    ensures Newest(ts[..i + 1], 2) == [ts[i - 1], ts[i]]
  {
    NewestPair(ts[..i + 1]);
  }

  /**
   * The table the constructor builds: it holds one observation per adjacent
   * pair, each cell counts the adjacencies of its two words, and exactly the
   * words before the last position have a row.
   */
  lemma Built(words: seq<string>)
    ensures var d := Frequencies(Tokens(words));
      Total(d) == if |words| == 0 then 0 else |words| - 1
    ensures var d := Frequencies(Tokens(words));
      forall a, b :: Cell(d, a, b) == |Adjacencies(Tokens(words), a, b)|
    ensures var d := Frequencies(Tokens(words));
      forall w :: w in d.at <==> exists i :: 0 <= i < |words| - 1 && Lower(words[i]) == w
  {
    var ts := Tokens(words);
    FrequenciesTotal(ts);
    forall a, b
      ensures Cell(Frequencies(ts), a, b) == |Adjacencies(ts, a, b)|
    {
      FrequenciesCell(ts, a, b);
    }
    forall w
      ensures w in Frequencies(ts).at <==> exists i :: 0 <= i < |words| - 1 && Lower(words[i]) == w
    {
      FrequenciesSources(ts, w);
    }
  }

  /**
   * After construction, a query finds a row exactly for the words that occur
   * before the last position of the input.
   */
  lemma FoundIffSource(words: seq<string>, word: string)
    ensures Positive(Frequencies(Tokens(words)))
    ensures var ts := Tokens(words); var p := Probabilities(Frequencies(ts)); var key := Lower(word);
      (key in p && p[key].keys != []) <==> exists i :: 0 <= i < |ts| - 1 && ts[i] == key
  {
    var ts := Tokens(words);
    FrequenciesPositive(ts);
    FrequenciesSources(ts, Lower(word));
  }

  /** `n` different one-letter words, each seen once: a row of `d` with `n` candidates. */
  function SpreadRow(n: nat): (row: Dict<nat>)
    requires n <= 0xD800
    ensures PositiveRow(row) && |row.keys| == n
    ensures forall c :: c in row.at ==> row.at[c] == 1
  {
    var ks := seq(n, i requires 0 <= i < n => [i as char]);
    assert Distinct(ks) by {
      forall i, j | 0 <= i < j < n
        ensures ks[i] != ks[j]
      {
        assert ks[i][0] != ks[j][0];
      }
    }
    Dict(ks, map c | c in ks :: 1)
  }

  /** A probability of `1 / n` gets no copy, `int(S / n) == 0`, when `n > S`. */
  lemma ShareBelowOne(n: nat, sampleSize: nat)
    requires n > sampleSize
    ensures Copies(1 as real / n as real, sampleSize) == 0
  {
    CopiesOfRatio(1, n, sampleSize);
    assert sampleSize * 1 / n == 0;
  }

  /**
   * More than `SampleSize` candidates seen once each get probability
   * `1 / n < 1 / 100`: none gets a copy, the pool of `_next` is empty and
   * `random.choice` raises `IndexError`.
   */
  lemma CrowdedRowStarves(row: Dict<nat>)
    requires PositiveRow(row) && |row.keys| > SampleSize
    requires forall c :: c in row.at ==> row.at[c] == 1
    ensures Pool(RowProbabilities(row), SampleSize) == []
  {
    var probs := RowProbabilities(row);
    SumOfOnes(row.keys, row.at);
    forall c
      ensures !Drawable(probs, SampleSize, c)
    {
      if c in probs.at {
        RowProbabilityOf(row, c);
        ShareBelowOne(|row.keys|, SampleSize);
      }
    }
    EmptyPoolIff(probs, SampleSize);
  }

  /**
   * A word followed by 101 different words, once each: `query` on it finds the
   * row but `_next` has an empty pool; the fallback pool still yields a candidate.
   */
  lemma CrowdedRowExample(draw: nat)
    ensures Pool(RowProbabilities(SpreadRow(101)), SampleSize) == []
    ensures Choose(FallbackPool(RowProbabilities(SpreadRow(101)), SampleSize), draw).Some?
  {
    var row := SpreadRow(101);
    CrowdedRowStarves(row);
    assert row.keys[0] in row.at;
    RowProbabilityOf(row, row.keys[0]);
    FallbackPoolDraws(RowProbabilities(row), SampleSize, draw);
  }
}
