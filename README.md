# simple-markov in Dafny

A model of the word-pair Markov chain of `utils.py`:

- `Buffer` is a sliding window over the most recent `k` words.
- `MarkovDB` pushes every lower-cased word of a text through a two-word
  buffer and counts how often each word follows each other word (`d`).
- It then turns every row of counts into probabilities (`p`).
- `query` answers with a next word, drawn from a pool where each candidate
  appears `int(100 * probability)` times.

Modules, one per concern:

| module | file | what it holds |
|---|---|---|
| `Dicts` | `dicts.dfy` | Insertion-ordered dictionaries (`Dict`: a key list plus a map), and sums over their values. |
| `Buffering` | `buffer.dfy` | `class Buffer`: its `window` is the deque, `pushed` the ghost history. Its invariant is that the window is the newest `k` words pushed. |
| `Counts` | `frequencies.dfy` | The count table, `add` as the function `AddPair`, the table of a whole text (`Frequencies`) and its properties. |
| `Ratios` | `probabilities.dfy` | The probability table (`Probabilities`) and the partial tables the generating loop passes through. |
| `Sampling` | `sampling.dfy` | The pool of `_next` (`Pool`), the truncation of copies, and the draw (`Choose`). |
| `Markov` | `markov.dfy` | `class MarkovDB` with fields `d` and `p`: the constructor, `add`, `_generate_probabilities`, `query` and `_next` as methods. |

Each method is proved against a specification function, and the properties
the source promises are lemmas about that function:
- `Add` against `AddPair`;
- `Load` against `Frequencies`;
- `GenerateProbabilities` against `Probabilities`;
- `Next` against `Pool` and `Choose`.

Probabilities are exact rationals (`real`). The random choice is a parameter
`draw`: the pick is `pool[draw % |pool|]`.

## Model

| member | source | states |
|---|---|---|
| Buffering.Buffer.constructor | utils.py:12-14 | A new buffer of capacity `k` holds no words and has seen none. |
| Buffering.Buffer.Push | utils.py:16-26 | Appends the word to the history. The window stays the newest `k` words and never holds more than `k`. The result is true exactly when the window holds `k` words, which is exactly when at least `k` words have been pushed. |
| Buffering.NewestSlides | utils.py:20-24 | FIFO eviction: pushing a word drops the oldest word exactly when the window already held `k` words, then puts the new word last. |
| Buffering.Newest | utils.py:16-26 | The window holds `min(n, k)` words after `n` pushes, and they are the last ones pushed, in order. |
| Buffering.Buffer.Contents | utils.py:28-30 | Returns the window, oldest first, as a value (a snapshot): the newest `k` words pushed, at most `k` of them. The buffer is not changed. |
| Markov.MarkovDB.constructor | utils.py:51-69 | The tables are consistent, `d` is the count table of the lower-cased words, and `p` is its probability table. The counts add up to `max(0, N - 1)`. `d[a][b]` is the number of positions where `b` directly follows `a`. `p` has a row for a word exactly when it occurs before the last position. |
| Markov.MarkovDB.Load | utils.py:52-67 | Starting from empty tables, the buffer loop leaves `d` equal to `Frequencies` of the lower-cased words and `p` empty. The loop invariant keeps the buffer's history equal to the tokens read so far. |
| Markov.MarkovDB.Add | utils.py:71-79 | `d` becomes `AddPair(old d, w1, w2)`, `p` is unchanged, and the invariant (no empty row, every count at least 1) is kept. |
| Counts.AddPair | utils.py:71-79 | After `add(w1, w2)`, `w1` has a row, and `d[w1][w2]` is at least 1. Every other row is unchanged and no key is lost. |
| Counts.AddPairCell | utils.py:71-79 | `add(w1, w2)` raises `d[w1][w2]` by exactly one and leaves every other cell as it was. |
| Counts.AddPairEffect | utils.py:71-79 | On a table with no empty row and no zero count, `add` keeps that invariant. It adds exactly `w1` to the keys, increments exactly one cell, and raises the total by one. |
| Counts.AddPairTotal | utils.py:71-79 | `add` records exactly one more observation: the total of all counts goes up by one. |
| Counts.AddPairPositive | utils.py:75-79 | An absent or empty (falsy) row is replaced by an empty `defaultdict` before the increment, so no row is ever left empty and no count is below 1. |
| Counts.TouchKeeps | utils.py:75-76 | Making sure the row `w1` exists changes no count. An existing non-empty row is left in place. |
| Counts.Pairs | utils.py:60-67 | The buffer yields `N - 1` pairs for `N > 0` tokens: pair `i` is `(ts[i], ts[i+1])`. |
| Counts.FrequenciesStep | utils.py:60-67 | Reading token `i` adds nothing when `i == 0`. Otherwise it applies `add(ts[i-1], ts[i])` to the table built so far. |
| Counts.FrequenciesPositive | utils.py:71-79 | Every table built from a text has no empty row and no count below 1. |
| Counts.TallyPositive | utils.py:71-79 | Any sequence of `add` calls from an empty table keeps every row non-empty and every count at least 1. |
| Counts.FrequenciesCell | utils.py:55-67 | After loading, `d[a][b]` equals the number of positions at which `b` directly follows `a`. |
| Counts.FrequenciesTotal | utils.py:55-67 | After loading `N` tokens the counts add up to `max(0, N - 1)`. |
| Counts.FrequenciesSources | utils.py:55-67 | After loading, a word has a row in `d` exactly when it occurs at some position before the last. |
| Markov.Built | utils.py:51-69 | The total, cell and row-key facts above, stated for the words the constructor is given. |
| Markov.MarkovDB.GenerateProbabilities | utils.py:81-94 | Visiting the rows of `d` in order leaves `d` unchanged and sets `p` to `old p` overridden by `Probabilities(d)`. The loop invariants tie the partly filled `p` and row to `PartialTable` and `PartialRow`. |
| Ratios.RowProbabilities | utils.py:86-94 | A row of `p` has the same candidates, in the same order, as its row of `d`. |
| Ratios.Probabilities | utils.py:81-94 | `p` has exactly the keys of `d`, and every row of `p` is a non-empty dictionary with the candidates of its row in `d`. |
| Ratios.ProbabilityOfCell | utils.py:89-94 | `p[w][c]` is `d[w][c]` divided by the row total `sum(d[w].values())`, and lies in (0, 1]. |
| Ratios.RowSumsToOne | utils.py:81-94 | The probabilities of every row of `p` add up to exactly 1. |
| Ratios.PartialRowStep | utils.py:93-94 | Storing the next candidate's ratio extends the row being filled by exactly that candidate, at the end. |
| Ratios.PartialTableStep | utils.py:86-94 | Storing a word's finished row replaces any older row of that word and extends the partial table by that word. |
| Markov.MarkovDB.Query | utils.py:96-112 | Looks up the lower-cased word. A missing or empty row gives `NotFound`. An empty pool gives `EmptyPool`. Otherwise it gives the word `Choose` draws from the row's pool, that word's probability from the row, and every `(candidate, probability)` pair in row order. |
| Markov.FoundIffSource | utils.py:96-100 | After construction, `query` finds a row for a word exactly when its lower-cased form occurs before the last position of the text. |
| Markov.MarkovDB.Next | utils.py:114-120 | The loops build exactly `Pool(candidates, sampleSize)`, and the result is the draw from it. |
| Sampling.Copies | utils.py:117 | `int(S * p)` truncates: for `p >= 0` it is the floor, and it is at least 1 exactly when `S * p >= 1`. |
| Sampling.Repeat | utils.py:117-118 | `range(n)` appends `n` copies of the candidate, and none when `n <= 0`. |
| Sampling.Choose | utils.py:120 | The draw is `None` exactly for an empty pool. Otherwise it is an element of the pool. |
| Sampling.PoolCount | utils.py:114-118 | The pool holds each candidate exactly `int(S * p[c])` times (0 when that is not positive) and holds no other word. |
| Sampling.PoolMembers | utils.py:114-120 | A candidate can be drawn exactly when `S * p[c] >= 1`. |
| Sampling.Starved | utils.py:114-120 | A candidate whose probability is below `1 / S` is never in the pool. |
| Sampling.ChooseFromPool | utils.py:114-120 | Whatever is drawn is a candidate of the row with `S * p >= 1`. |
| Sampling.CertainCandidate | utils.py:114-120 | A single candidate at probability 1 fills the pool with exactly `S` copies and is always drawn (when `S > 0`). |
| Sampling.CopiesOfRatio | utils.py:117 | With exact ratios `count / total`, the number of copies is the integer quotient `(S * count) / total`. |
| Sampling.PoolLength | utils.py:114-118 | For a row whose probabilities sum to 1, the pool has at most 100 entries. |
| Sampling.EmptyPoolIff | utils.py:114-120 | The pool is empty exactly when no candidate has `S * p[c] >= 1`. |
| Sampling.FallbackPoolDraws | utils.py:114-120 | Corrected pool: when the pool is empty, each candidate appears once instead. For a non-empty row the draw always yields a candidate of the row. Whenever the pool of `_next` is non-empty, it draws exactly what `_next` draws. |
| Markov.ShareBelowOne | utils.py:117 | A probability of `1 / n` gets no copy (`int(S / n) == 0`) when there are more than `S` candidates. |
| Markov.CrowdedRowStarves | utils.py:114-120 | A row of `d` with more than 100 candidates, each seen once, gets probability `1 / n` per candidate, and its pool at the default sample size of 100 is empty. |
| Markov.CrowdedRowExample | utils.py:114-120 | A word followed by 101 different words, once each, has an empty pool in `_next`. The corrected pool still yields a candidate for every draw. |
| Markov.LowerChar | utils.py:59 | An upper-case ASCII letter becomes the lower-case letter at the same place in the alphabet. Every other character is unchanged, and the result is never an upper-case letter. |
| Markov.Lower | utils.py:59 | `word.lower()` keeps the length. It maps each upper-case letter to its lower-case letter at the same position and leaves every other character in place. |
| Markov.LowerIsLowerCase | utils.py:59 | A lower-cased word contains no upper-case letter, and lower-casing it again changes nothing. |
| Markov.Tokens | utils.py:58-59 | There is one token per word, in order, each the lower-cased word. Every token is already lower case: lower-casing it again changes nothing. |
| Dicts.Dict.Set | utils.py:76 | Assigning a key appends it when it is new and keeps its position when it exists. The map gets the new value. |
| Dicts.Dict.Items | utils.py:110 | `items()` yields one pair per key, in insertion order. A pair `(c, v)` is listed exactly when `c` is a key with value `v`, and no key is listed twice. |
| Counts.Followers | utils.py:75-79 | The words that follow `w` in a sequence of pairs, each once, in order of first appearance. |
| Counts.FollowersMembers | utils.py:75-79 | A word is a follower of `w` exactly when the pair `(w, b)` occurs. |
| Counts.FollowersOrder | utils.py:75-79 | A follower listed earlier occurred, paired with `w`, before every occurrence of a follower listed later. |
| Counts.TallyFollowers | utils.py:71-79 | After a sequence of `add` calls, the keys of the row of `w` are exactly the followers of `w`, in order of first appearance. |
| Counts.FrequenciesRowDistinct | utils.py:75-79 | After loading, the row of any word lists no candidate twice. |
| Counts.FrequenciesFollowers | utils.py:55-79 | After loading, the row of `w` lists `b` exactly when `b` directly follows `w` somewhere in the text. |
| Counts.FrequenciesFollowerOrder | utils.py:55-79 | After loading, the row of `w` is ordered by first appearance: wherever its `k`-th candidate follows `w`, every earlier (`j < k`) candidate followed `w` at some earlier position. `items()` therefore lists the candidates in that order. |

## Left out

- Reading the file and `str.split()`: the constructor takes the list of words that `f.read().split()` would produce.
- `str.strip()` is left out: it is the identity on the tokens `split()` produces.
- Markov.Lower: only the ASCII letters are case-mapped. Python's `str.lower()` also maps other Unicode letters, for example 'Ä' and 'Σ'.
- Floating point: probabilities are exact rationals. `part / whole` and `int(sample_size * probability)` round in the source. For example, a count of 29 out of 100 gives 29 copies here, but 28 in IEEE doubles (100 * 0.29 is just below 29).
- Printing: `query` returns an `Outcome` instead of printing the failure message, the chosen pair and the list of pairs.
- Markov.MarkovDB.Query: on an empty pool the source's `random.choice([])` raises `IndexError`; the model returns `EmptyPool` (see Findings).
- `random.choice` is replaced by the `draw` parameter. The model says which element a given draw picks, not how likely each one is.
- Markov.MarkovDB.Next: the unused `word` parameter of `_next` is dropped.
- Buffering.Buffer.constructor requires `k > 0`: with `k == 0` the source's first push calls `popleft()` on an empty deque and raises `IndexError`.
- Markov.MarkovDB.GenerateProbabilities: the source stores `self.p[word] = {}` and then fills that row in place. The model builds the row locally and stores it once finished, so the final `p` is the same but the intermediate states differ.
- The key order of `p` (a plain `dict`) is not modelled. Nothing in `utils.py` iterates over `p`, and each row of `p` keeps its candidate order.
- Sampling.PoolLength: the bound is proved for the default sample size of 100 only.
- `main.py` is not part of this model; it is command-line glue around `MarkovDB` and `query`.

## Findings

| source | as written | input that shows it | evidently intended | confidence | as-written member | corrected member |
|---|---|---|---|---|---|---|
| utils.py:114-120 | `_next` puts `int(100 * p)` copies of each candidate in the pool and calls `random.choice` on it. When every candidate has `p < 1/100`, the pool is empty and `random.choice([])` raises `IndexError`. The loop in main.py:12-14 does not catch it, so the program stops. | A text in which one word is followed by 101 different words, each once, for example `a b1 a b2 … a b101`. Then `query("a")` gives each candidate `p = 1/101` and `int(100/101) = 0` copies. | A word that has candidates always yields a next word. | not executed | Markov.CrowdedRowStarves, Markov.CrowdedRowExample | Sampling.FallbackPool, Sampling.FallbackPoolDraws |
