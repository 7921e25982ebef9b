/**
  The aggregation behind the word-cloud sample plugin's `transformedWords`
  (`src/samples/plugin_samples/App_wordclaude.tsx`): texts are either kept
  whole (trimmed) or tokenized, equal texts are merged by summing their
  values in a map that keeps first-insertion order, and the 200 heaviest
  entries are returned, heaviest first.

  Values are integers; a value cell is given as the result of JavaScript's
  `Number(...)`, with `None` for `NaN`.
 */
module WordCloud {
  import opened Basics
  import opened OrgTypes
  import opened WordTokens

  /** `MAX_WORDS`: the most entries the cloud shows. */
  const MaxWords: nat := 200

  /** `WordCloudWord`: a text and its weight. */
  datatype Word = Word(text: string, value: int)

  /** Non-increasing by value: each entry is at least as heavy as the next. */
  predicate SortedDesc(ws: seq<Word>) {
    forall i | 0 < i < |ws| :: ws[i - 1].value >= ws[i].value
  }

  /** In a sorted list every entry is at least as heavy as every later one. */
  lemma {:induction false} SortedDescPairwise(ws: seq<Word>, i: nat, j: nat)
    requires SortedDesc(ws) && i <= j < |ws|
    ensures ws[i].value >= ws[j].value
    decreases j - i
  {
    if i < j {
      SortedDescPairwise(ws, i, j - 1);
    }
  }

  /** No text occurs twice. */
  predicate DistinctTexts(ws: seq<Word>) {
    forall i, j | 0 <= i < j < |ws| :: ws[i].text != ws[j].text
  }

  // ---------------------------------------------------------------- getTopNItems

  /** Inserts `w` into a sorted list after every entry at least as heavy, where a stable sort places a later element. */
  function InsertDesc(sorted: seq<Word>, w: Word): (r: seq<Word>)
    ensures |r| == |sorted| + 1
  {
    if sorted == [] then [w]
    else if sorted[0].value >= w.value then [sorted[0]] + InsertDesc(sorted[1..], w)
    else [w] + sorted
  }

  /** Insertion adds exactly the inserted entry. */
  lemma {:induction false} InsertDescMultiset(sorted: seq<Word>, w: Word)
    ensures multiset(InsertDesc(sorted, w)) == multiset(sorted) + multiset{w}
    decreases |sorted|
  {
    if sorted != [] {
      assert sorted == [sorted[0]] + sorted[1..];
      InsertDescMultiset(sorted[1..], w);
    }
  }

  /** Insertion keeps a list sorted. */
  lemma {:induction false} InsertDescSorted(sorted: seq<Word>, w: Word)
    requires SortedDesc(sorted)
    ensures SortedDesc(InsertDesc(sorted, w))
    decreases |sorted|
  {
    if sorted != [] && sorted[0].value >= w.value {
      var tail := sorted[1..];
      SortedTail(sorted);
      InsertDescSorted(tail, w);
      InsertDescHead(tail, w);
      ConsSorted(sorted[0], InsertDesc(tail, w));
    }
  }

  /** The head of an insertion is the inserted entry or the old head. */
  lemma InsertDescHead(sorted: seq<Word>, w: Word)
    ensures InsertDesc(sorted, w)[0] == w || (sorted != [] && InsertDesc(sorted, w)[0] == sorted[0])
  {
  }

  lemma SortedTail(ws: seq<Word>)
    requires SortedDesc(ws) && ws != []
    ensures SortedDesc(ws[1..])
  {
    var tail := ws[1..];
    assert forall i | 0 < i < |tail| :: tail[i - 1] == ws[i] && tail[i] == ws[i + 1];
  }

  /** Putting an entry at least as heavy as the head in front keeps a list sorted. */
  lemma ConsSorted(w: Word, ws: seq<Word>)
    requires SortedDesc(ws)
    requires ws != [] ==> w.value >= ws[0].value
    ensures SortedDesc([w] + ws)
  {
    var r := [w] + ws;
    assert forall k | 1 <= k < |r| :: r[k] == ws[k - 1];
  }

  /** An entry no heavier than any listed one goes to the end. */
  lemma {:induction false} InsertDescAtEnd(sorted: seq<Word>, w: Word)
    requires forall i | 0 <= i < |sorted| :: sorted[i].value >= w.value
    ensures InsertDesc(sorted, w) == sorted + [w]
    decreases |sorted|
  {
    if sorted != [] {
      InsertDescAtEnd(sorted[1..], w);
      assert sorted == [sorted[0]] + sorted[1..];
    }
  }

  /** `[...words].sort((a, b) => b.value - a.value)`: a stable sort, heaviest first. */
  function SortDesc(ws: seq<Word>): (r: seq<Word>)
    ensures SortedDesc(r)
    ensures multiset(r) == multiset(ws)
    ensures |r| == |ws|
  {
    if ws == [] then []
    else
      var init := ws[..|ws| - 1];
      assert ws == init + [ws[|ws| - 1]];
      var sortedInit := SortDesc(init);
      InsertDescSorted(sortedInit, ws[|ws| - 1]);
      InsertDescMultiset(sortedInit, ws[|ws| - 1]);
      InsertDesc(sortedInit, ws[|ws| - 1])
  }

  /** `getTopNItems(words, n)`: the first `n` entries of the sorted copy. */
  function TopN(ws: seq<Word>, n: nat): (r: seq<Word>)
    ensures |r| == if n < |ws| then n else |ws|
    ensures SortedDesc(r)
    ensures multiset(r) <= multiset(ws)
  {
    var sorted := SortDesc(ws);
    var m := if n < |ws| then n else |ws|;
    assert sorted == sorted[..m] + sorted[m..];
    sorted[..m]
  }

  /** Nothing left out of the top `n` is heavier than anything kept. */
  lemma TopNKeepsHeaviest(ws: seq<Word>, n: nat, x: Word, y: Word)
    requires x in TopN(ws, n)
    requires y in multiset(ws) - multiset(TopN(ws, n))
    ensures y.value <= x.value
  {
    var sorted := SortDesc(ws);
    var m := if n < |ws| then n else |ws|;
    assert sorted[..m] == TopN(ws, n);
    assert sorted == sorted[..m] + sorted[m..];
    assert multiset(sorted) == multiset(sorted[..m]) + multiset(sorted[m..]);
    SortedSplit(sorted, m, x, y);
  }

  /** In a sorted list everything before a cut is at least as heavy as everything after it. */
  lemma SortedSplit(sorted: seq<Word>, m: nat, x: Word, y: Word)
    requires SortedDesc(sorted) && m <= |sorted|
    requires x in sorted[..m] && y in sorted[m..]
    ensures y.value <= x.value
  {
    var i :| 0 <= i < m && sorted[..m][i] == x;
    var j :| 0 <= j < |sorted| - m && sorted[m..][j] == y;
    SortedDescPairwise(sorted, i, m + j);
  }

  /** Sorting a sorted list whose equal-valued entries are already in place changes nothing. */
  lemma {:induction false} SortDescSorted(ws: seq<Word>)
    requires SortedDesc(ws)
    ensures SortDesc(ws) == ws
    decreases |ws|
  {
    if ws != [] {
      var init := ws[..|ws| - 1];
      var last := ws[|ws| - 1];
      SortDescSorted(init);
      forall i | 0 <= i < |init|
        ensures init[i].value >= last.value
      {
        SortedDescPairwise(ws, i, |ws| - 1);
      }
      InsertDescAtEnd(init, last);
      assert ws == init + [last];
    }
  }

  /** Taking the top `n` twice is taking it once. */
  lemma TopNIdempotent(ws: seq<Word>, n: nat)
    ensures TopN(TopN(ws, n), n) == TopN(ws, n)
  {
    var t := TopN(ws, n);
    SortDescSorted(t);
  }

  // ---------------------------------------------------------------- merging equal texts

  /** Position of the first entry with text `t`, or `|ws|`. */
  function FindText(ws: seq<Word>, t: string): (i: nat)
    ensures i <= |ws|
    ensures i < |ws| ==> ws[i].text == t
    ensures forall k | 0 <= k < i :: ws[k].text != t
  {
    if ws == [] then 0
    else if ws[0].text == t then 0
    else 1 + FindText(ws[1..], t)
  }

  /** `map.set(text, (map.get(text) || 0) + value)` on an insertion-ordered map held as a list. */
  function AddWeight(acc: seq<Word>, text: string, value: int): seq<Word> {
    var i := FindText(acc, text);
    if i < |acc| then acc[i := Word(text, acc[i].value + value)] else acc + [Word(text, value)]
  }

  /** The merged list after adding every entry in order. */
  function Merge(entries: seq<Word>): seq<Word>
    decreases |entries|
  {
    if entries == [] then []
    else
      var last := entries[|entries| - 1];
      AddWeight(Merge(entries[..|entries| - 1]), last.text, last.value)
  }

  /** Reference sum: the total value of the entries with text `t`. */
  function SumFor(entries: seq<Word>, t: string): int
    decreases |entries|
  {
    if entries == [] then 0
    else
      var last := entries[|entries| - 1];
      SumFor(entries[..|entries| - 1], t) + (if last.text == t then last.value else 0)
  }

  /** The texts of a list. */
  function Texts(ws: seq<Word>): set<string> {
    set i | 0 <= i < |ws| :: ws[i].text
  }

  /** What merging computes: distinct texts, exactly the entries' texts, each with the sum of its values. */
  predicate MergedFrom(m: seq<Word>, entries: seq<Word>) {
    && DistinctTexts(m)
    && Texts(m) == Texts(entries)
    && (forall i | 0 <= i < |m| :: m[i].value == SumFor(entries, m[i].text))
  }

  /** Appending an entry adds its text. */
  lemma TextsSnoc(ws: seq<Word>, w: Word)
    ensures Texts(ws + [w]) == Texts(ws) + {w.text}
  {
    var r := ws + [w];
    assert forall i | 0 <= i < |ws| :: r[i] == ws[i];
    assert r[|ws|] == w;
  }

  /** The sum over entries extended by one. */
  lemma SumForSnoc(entries: seq<Word>, w: Word, t: string)
    ensures SumFor(entries + [w], t) == SumFor(entries, t) + (if w.text == t then w.value else 0)
  {
    assert (entries + [w])[..|entries|] == entries;
  }

  /** Adding to a text already listed updates that entry in place. */
  lemma AddWeightExisting(acc: seq<Word>, entries: seq<Word>, w: Word)
    requires MergedFrom(acc, entries) && FindText(acc, w.text) < |acc|
    ensures MergedFrom(AddWeight(acc, w.text, w.value), entries + [w])
  {
    var i := FindText(acc, w.text);
    var r := AddWeight(acc, w.text, w.value);
    assert forall k | 0 <= k < |r| :: r[k].text == acc[k].text;
    assert Texts(r) == Texts(acc);
    assert w.text in Texts(acc);
    TextsSnoc(entries, w);
    forall k | 0 <= k < |r|
      ensures r[k].value == SumFor(entries + [w], r[k].text)
    {
      SumForSnoc(entries, w, r[k].text);
      if k != i {
        assert r[k] == acc[k];
      }
    }
  }

  /** Adding a new text appends it with its value. */
  lemma AddWeightNew(acc: seq<Word>, entries: seq<Word>, w: Word)
    requires MergedFrom(acc, entries) && FindText(acc, w.text) == |acc|
    ensures MergedFrom(AddWeight(acc, w.text, w.value), entries + [w])
  {
    var r := AddWeight(acc, w.text, w.value);
    assert r == acc + [w];
    assert w.text !in Texts(entries);
    SumForAbsent(entries, w.text);
    TextsSnoc(entries, w);
    TextsSnoc(acc, w);
    forall k | 0 <= k < |r|
      ensures r[k].value == SumFor(entries + [w], r[k].text)
    {
      SumForSnoc(entries, w, r[k].text);
    }
  }

  /** Merging sums the values of equal texts. */
  lemma {:induction false} MergeSpec(entries: seq<Word>)
    ensures MergedFrom(Merge(entries), entries)
    decreases |entries|
  {
    if entries != [] {
      var init := entries[..|entries| - 1];
      var last := entries[|entries| - 1];
      assert entries == init + [last];
      MergeSpec(init);
      var acc := Merge(init);
      if FindText(acc, last.text) < |acc| {
        AddWeightExisting(acc, init, last);
      } else {
        AddWeightNew(acc, init, last);
      }
    }
  }

  /** Entries without text `t` add nothing to its sum. */
  lemma {:induction false} SumForAbsent(entries: seq<Word>, t: string)
    requires t !in Texts(entries)
    ensures SumFor(entries, t) == 0
    decreases |entries|
  {
    if entries != [] {
      var init := entries[..|entries| - 1];
      assert entries == init + [entries[|entries| - 1]];
      TextsSnoc(init, entries[|entries| - 1]);
      SumForAbsent(init, t);
    }
  }

  /** Sums split over concatenation. */
  lemma {:induction false} SumForConcat(a: seq<Word>, b: seq<Word>, t: string)
    ensures SumFor(a + b, t) == SumFor(a, t) + SumFor(b, t)
    decreases |b|
  {
    if b == [] {
      assert a + b == a;
    } else {
      var binit := b[..|b| - 1];
      assert a + b == (a + binit) + [b[|b| - 1]];
      assert (a + b)[..|a + b| - 1] == a + binit;
      SumForConcat(a, binit, t);
    }
  }

  // ---------------------------------------------------------------- the two aggregation paths

  /** The value of row `i` after `Number(...)`: `None` for `NaN`, and past the end of the column (`Number(undefined)`). */
  function ValueAt(values: seq<Option<int>>, i: nat): Option<int> {
    if i < |values| then values[i] else None
  }

  /** The entry the untokenized path makes of row `i`: the trimmed text with its value, or 1 when the value is `NaN`. */
  function PlainWord(texts: seq<Cell>, values: seq<Option<int>>, minWordLength: int, i: nat): Option<Word>
    requires i < |texts|
  {
    if !Truthy(texts[i]) then None
    else
      var t := Trim(texts[i].value);
      var v := match ValueAt(values, i) case None => 1 case Some(x) => x;
      if |t| >= minWordLength then Some(Word(t, v)) else None
  }

  /** The `map`/`filter` of the untokenized path over rows `0..n`. */
  function PlainEntries(texts: seq<Cell>, values: seq<Option<int>>, minWordLength: int, n: nat): seq<Word>
    requires n <= |texts|
  {
    if n == 0 then []
    else
      PlainEntries(texts, values, minWordLength, n - 1) +
      match PlainWord(texts, values, minWordLength, n - 1) case None => [] case Some(w) => [w]
  }

  /** A row of the tokenized path: its value after `Number(...)` and its tokens. */
  datatype TokenRow = TokenRow(value: Option<int>, tokens: seq<string>)

  /** The rows the tokenized path reads: `tokenizeText` of each text, with the row's value. */
  function TokenRows(texts: seq<Cell>, values: seq<Option<int>>, minWordLength: int): (r: seq<TokenRow>)
    ensures |r| == |texts|
  {
    seq(|texts|, i requires 0 <= i < |texts| => TokenRow(ValueAt(values, i), Tokenize(texts[i], minWordLength)))
  }

  /** One entry per token, each with the row's value. */
  function RowWords(tokens: seq<string>, v: int): (r: seq<Word>)
    ensures |r| == |tokens|
  {
    if tokens == [] then []
    else RowWords(tokens[..|tokens| - 1], v) + [Word(tokens[|tokens| - 1], v)]
  }

  /** The entries a row adds to `wordWeights`: none when its value is `NaN`. */
  function RowEntries(row: TokenRow): seq<Word> {
    match row.value
    case None => []
    case Some(v) => RowWords(row.tokens, v)
  }

  /** The entries the tokenized path adds to `wordWeights`, in order. */
  function TokenEntries(rows: seq<TokenRow>): seq<Word> {
    if rows == [] then []
    else TokenEntries(rows[..|rows| - 1]) + RowEntries(rows[|rows| - 1])
  }

  /** The entries of the chosen path over all rows. */
  function Entries(texts: seq<Cell>, values: seq<Option<int>>, tokenize: bool, minWordLength: int): seq<Word> {
    if tokenize then TokenEntries(TokenRows(texts, values, minWordLength))
    else PlainEntries(texts, values, minWordLength, |texts|)
  }

  /**
    The body of `transformedWords` once the text and value columns are
    looked up (`None` when either is missing): merge the entries of the chosen
    path by text and keep the `MAX_WORDS` heaviest, heaviest first.
   */
  function TransformWords(texts: Option<seq<Cell>>, values: Option<seq<Option<int>>>,
                          tokenize: bool, minWordLength: int): (r: seq<Word>)
    ensures texts.None? || values.None? ==> r == []
    ensures |r| <= MaxWords
    ensures SortedDesc(r)
  {
    if texts.None? || values.None? then []
    else TopN(Merge(Entries(texts.value, values.value, tokenize, minWordLength)), MaxWords)
  }

  // ---------------------------------------------------------------- reference weights

  /** Reference weight of a text on the untokenized path: the values (1 for `NaN`) of the rows whose trimmed text it is. */
  function PlainWeight(texts: seq<Cell>, values: seq<Option<int>>, minWordLength: int, n: nat, t: string): int
    requires n <= |texts|
  {
    if n == 0 then 0
    else
      var i := n - 1;
      PlainWeight(texts, values, minWordLength, i, t) +
      if Truthy(texts[i]) && Trim(texts[i].value) == t && |t| >= minWordLength then
        (match ValueAt(values, i) case None => 1 case Some(x) => x)
      else 0
  }

  /** What a row contributes to a token's weight: its value times the token's occurrences in the row. */
  function RowWeight(row: TokenRow, t: string): int {
    match row.value
    case None => 0
    case Some(v) => v * multiset(row.tokens)[t]
  }

  /** Reference weight of a token: the sum of the rows' contributions. */
  function TokenWeight(rows: seq<TokenRow>, t: string): int {
    if rows == [] then 0
    else TokenWeight(rows[..|rows| - 1], t) + RowWeight(rows[|rows| - 1], t)
  }

  /** A row's entries add its value once per occurrence of the token. */
  lemma {:induction false} RowWordsSum(tokens: seq<string>, v: int, t: string)
    ensures SumFor(RowWords(tokens, v), t) == v * multiset(tokens)[t]
    decreases |tokens|
  {
    if tokens != [] {
      var init := tokens[..|tokens| - 1];
      var last := tokens[|tokens| - 1];
      assert tokens == init + [last];
      assert multiset(tokens) == multiset(init) + multiset{last};
      RowWordsSum(init, v, t);
      SumForSnoc(RowWords(init, v), Word(last, v), t);
      assert RowWords(tokens, v) == RowWords(init, v) + [Word(last, v)];
      var here := if last == t then 1 else 0;
      assert v * (multiset(init)[t] + here) == v * multiset(init)[t] + v * here;
    }
  }

  /** On the tokenized path the merged sum of a token is its reference weight. */
  lemma {:induction false} TokenEntriesWeight(rows: seq<TokenRow>, t: string)
    ensures SumFor(TokenEntries(rows), t) == TokenWeight(rows, t)
    decreases |rows|
  {
    if rows != [] {
      var init := rows[..|rows| - 1];
      var row := rows[|rows| - 1];
      TokenEntriesWeight(init, t);
      SumForConcat(TokenEntries(init), RowEntries(row), t);
      match row.value
      case None =>
      case Some(v) => RowWordsSum(row.tokens, v, t);
    }
  }

  /** On the untokenized path the merged sum of a text is its reference weight. */
  lemma {:induction false} PlainEntriesWeight(texts: seq<Cell>, values: seq<Option<int>>, minWordLength: int,
                                              n: nat, t: string)
    requires n <= |texts|
    ensures SumFor(PlainEntries(texts, values, minWordLength, n), t) == PlainWeight(texts, values, minWordLength, n, t)
    decreases n
  {
    if n > 0 {
      PlainEntriesWeight(texts, values, minWordLength, n - 1, t);
      var prev := PlainEntries(texts, values, minWordLength, n - 1);
      match PlainWord(texts, values, minWordLength, n - 1)
      case None =>
        assert PlainEntries(texts, values, minWordLength, n) == prev + [];
        assert prev + [] == prev;
      case Some(w) =>
        SumForSnoc(prev, w, t);
    }
  }

  // ---------------------------------------------------------------- which texts appear

  /** Texts of a concatenation. */
  lemma TextsConcat(a: seq<Word>, b: seq<Word>)
    ensures Texts(a + b) == Texts(a) + Texts(b)
  {
    var r := a + b;
    assert forall i | 0 <= i < |a| :: r[i] == a[i];
    assert forall i | 0 <= i < |b| :: r[|a| + i] == b[i];
  }

  /** The texts of a row's entries are its tokens. */
  lemma {:induction false} RowWordsTexts(tokens: seq<string>, v: int)
    ensures Texts(RowWords(tokens, v)) == set t | t in tokens
    decreases |tokens|
  {
    if tokens != [] {
      var init := tokens[..|tokens| - 1];
      var last := tokens[|tokens| - 1];
      assert tokens == init + [last];
      RowWordsTexts(init, v);
      TextsSnoc(RowWords(init, v), Word(last, v));
    }
  }

  /** The tokenized path lists exactly the tokens of the rows with a numeric value. */
  lemma {:induction false} TokenEntriesTexts(rows: seq<TokenRow>, t: string)
    ensures t in Texts(TokenEntries(rows)) <==>
      exists i | 0 <= i < |rows| :: rows[i].value.Some? && t in rows[i].tokens
    decreases |rows|
  {
    if rows != [] {
      var init := rows[..|rows| - 1];
      var row := rows[|rows| - 1];
      TokenEntriesTexts(init, t);
      TextsConcat(TokenEntries(init), RowEntries(row));
      match row.value
      case None =>
      case Some(v) => RowWordsTexts(row.tokens, v);
      assert forall i | 0 <= i < |init| :: rows[i] == init[i];
    }
  }

  /** Row `i` holds a non-empty cell whose trimmed text is `t`. */
  predicate RowTrimsTo(texts: seq<Cell>, i: nat, t: string)
    requires i < |texts|
  {
    Truthy(texts[i]) && Trim(texts[i].value) == t
  }

  /** Some row among the first `n` holds a non-empty cell whose trimmed text is `t`. */
  predicate SomeRowTrims(texts: seq<Cell>, n: nat, t: string)
    requires n <= |texts|
  {
    n > 0 && (SomeRowTrims(texts, n - 1, t) || RowTrimsTo(texts, n - 1, t))
  }

  lemma {:induction false} SomeRowTrimsExists(texts: seq<Cell>, n: nat, t: string)
    requires n <= |texts|
    ensures SomeRowTrims(texts, n, t) <==> exists i | 0 <= i < n :: RowTrimsTo(texts, i, t)
    decreases n
  {
    if n > 0 {
      SomeRowTrimsExists(texts, n - 1, t);
      if SomeRowTrims(texts, n - 1, t) {
        var i :| 0 <= i < n - 1 && RowTrimsTo(texts, i, t);
        assert 0 <= i < n && RowTrimsTo(texts, i, t);
      } else if RowTrimsTo(texts, n - 1, t) {
        assert 0 <= n - 1 < n && RowTrimsTo(texts, n - 1, t);
      } else {
        forall i | 0 <= i < n
          ensures !RowTrimsTo(texts, i, t)
        {
          if i < n - 1 {
            assert !(exists i | 0 <= i < n - 1 :: RowTrimsTo(texts, i, t));
          }
        }
      }
    }
  }

  /** The untokenized path lists exactly the long-enough trimmed texts of the non-empty cells. */
  lemma {:induction false} PlainEntriesTexts(texts: seq<Cell>, values: seq<Option<int>>, minWordLength: int,
                                             n: nat, t: string)
    requires n <= |texts|
    ensures t in Texts(PlainEntries(texts, values, minWordLength, n)) <==>
      |t| >= minWordLength && SomeRowTrims(texts, n, t)
    decreases n
  {
    if n > 0 {
      PlainEntriesTexts(texts, values, minWordLength, n - 1, t);
      PlainEntriesTextsStep(texts, values, minWordLength, n, t);
    }
  }

  /** Row `n - 1` adds its trimmed text, if it makes an entry. */
  lemma PlainEntriesTextsStep(texts: seq<Cell>, values: seq<Option<int>>, minWordLength: int, n: nat, t: string)
    requires 0 < n <= |texts|
    ensures t in Texts(PlainEntries(texts, values, minWordLength, n)) <==>
      t in Texts(PlainEntries(texts, values, minWordLength, n - 1)) ||
      (|t| >= minWordLength && RowTrimsTo(texts, n - 1, t))
  {
    var prev := PlainEntries(texts, values, minWordLength, n - 1);
    match PlainWord(texts, values, minWordLength, n - 1)
    case None =>
      assert PlainEntries(texts, values, minWordLength, n) == prev + [];
      assert prev + [] == prev;
    case Some(w) =>
      TextsSnoc(prev, w);
  }

  // ---------------------------------------------------------------- what the cloud is

  /**
    `r` is the cloud of `entries`: one entry per distinct text, each with the
    sum of that text's values, the `MAX_WORDS` heaviest of them (all when there
    are fewer), heaviest first.
   */
  ghost predicate IsCloudOf(r: seq<Word>, entries: seq<Word>) {
    && SortedDesc(r)
    && DistinctTexts(r)
    && |r| == (if |Texts(entries)| < MaxWords then |Texts(entries)| else MaxWords)
    && (forall w | w in r :: w.text in Texts(entries) && w.value == SumFor(entries, w.text))
    && (forall t, w | t in Texts(entries) && t !in Texts(r) && w in r :: SumFor(entries, t) <= w.value)
  }

  /** A list with distinct texts has as many texts as entries. */
  lemma {:induction false} DistinctTextsCount(ws: seq<Word>)
    requires DistinctTexts(ws)
    ensures |Texts(ws)| == |ws|
    decreases |ws|
  {
    if ws != [] {
      var init := ws[..|ws| - 1];
      var last := ws[|ws| - 1];
      assert ws == init + [last];
      DistinctTextsCount(init);
      TextsSnoc(init, last);
      assert last.text !in Texts(init);
    }
  }

  /** An entry of a list with distinct texts occurs in it once. */
  lemma {:induction false} DistinctOnce(ws: seq<Word>, w: Word)
    requires DistinctTexts(ws)
    ensures multiset(ws)[w] <= 1
    decreases |ws|
  {
    if ws != [] {
      var init := ws[..|ws| - 1];
      var last := ws[|ws| - 1];
      assert ws == init + [last];
      DistinctOnce(init, w);
      if last == w {
        assert w !in init;
      }
    }
  }

  /** Entries at two positions are counted twice. */
  lemma TwiceCounted(ws: seq<Word>, i: nat, j: nat)
    requires i < j < |ws| && ws[i] == ws[j]
    ensures multiset(ws)[ws[i]] >= 2
  {
    assert ws == ws[..j] + ws[j..];
    assert ws[i] in ws[..j];
    assert ws[j..][0] == ws[j];
  }

  /** Taking entries from a list with distinct texts keeps the texts distinct. */
  lemma SubMultisetDistinct(a: seq<Word>, b: seq<Word>)
    requires multiset(a) <= multiset(b) && DistinctTexts(b)
    ensures DistinctTexts(a)
  {
    forall i, j | 0 <= i < j < |a|
      ensures a[i].text != a[j].text
    {
      if a[i] == a[j] {
        TwiceCounted(a, i, j);
        DistinctOnce(b, a[i]);
      } else {
        assert a[i] in multiset(b) && a[j] in multiset(b);
        var p :| 0 <= p < |b| && b[p] == a[i];
        var q :| 0 <= q < |b| && b[q] == a[j];
        assert p != q;
      }
    }
  }

  /** `transformedWords` returns the cloud of the chosen path's entries. */
  lemma TransformWordsCloud(texts: seq<Cell>, values: seq<Option<int>>, tokenize: bool, minWordLength: int)
    ensures IsCloudOf(TransformWords(Some(texts), Some(values), tokenize, minWordLength),
                      Entries(texts, values, tokenize, minWordLength))
  {
    var e := Entries(texts, values, tokenize, minWordLength);
    var m := Merge(e);
    var r := TransformWords(Some(texts), Some(values), tokenize, minWordLength);
    assert r == TopN(m, MaxWords);
    MergeSpec(e);
    DistinctTextsCount(m);
    SubMultisetDistinct(r, m);
    forall w | w in r
      ensures w.text in Texts(e) && w.value == SumFor(e, w.text)
    {
      KeptFromMerge(m, e, w);
    }
    forall t, w | t in Texts(e) && t !in Texts(r) && w in r
      ensures SumFor(e, t) <= w.value
    {
      OmittedNoHeavier(m, e, t, w);
    }
  }

  /** A kept entry is a merged one: a text of the entries with its sum. */
  lemma KeptFromMerge(m: seq<Word>, e: seq<Word>, w: Word)
    requires MergedFrom(m, e) && w in TopN(m, MaxWords)
    ensures w.text in Texts(e) && w.value == SumFor(e, w.text)
  {
    assert w in multiset(TopN(m, MaxWords));
    assert w in multiset(m);
    var k :| 0 <= k < |m| && m[k] == w;
  }

  /** A text left out weighs no more than any kept entry. */
  lemma OmittedNoHeavier(m: seq<Word>, e: seq<Word>, t: string, w: Word)
    requires MergedFrom(m, e) && w in TopN(m, MaxWords)
    requires t in Texts(e) && t !in Texts(TopN(m, MaxWords))
    ensures SumFor(e, t) <= w.value
  {
    var r := TopN(m, MaxWords);
    var k :| 0 <= k < |m| && m[k].text == t;
    var y := m[k];
    assert y !in r;
    assert y in multiset(m) - multiset(r);
    TopNKeepsHeaviest(m, MaxWords, w, y);
  }

  /**
    On the tokenized path each word of the cloud is a token of some row with a
    numeric value, and weighs the sum over rows of value times occurrences.
   */
  lemma TokenizedCloud(texts: seq<Cell>, values: seq<Option<int>>, minWordLength: int, w: Word)
    requires w in TransformWords(Some(texts), Some(values), true, minWordLength)
    ensures exists i | 0 <= i < |texts| :: ValueAt(values, i).Some? && w.text in Tokenize(texts[i], minWordLength)
    ensures w.value == TokenWeight(TokenRows(texts, values, minWordLength), w.text)
    ensures w.text != "" && |w.text| >= minWordLength && w.text !in StopWords
  {
    var rows := TokenRows(texts, values, minWordLength);
    TransformWordsCloud(texts, values, true, minWordLength);
    TokenEntriesTexts(rows, w.text);
    TokenEntriesWeight(rows, w.text);
    var i :| 0 <= i < |rows| && rows[i].value.Some? && w.text in rows[i].tokens;
    assert rows[i].tokens == Tokenize(texts[i], minWordLength);
  }

  /**
    On the untokenized path each word of the cloud is the trimmed text of some
    non-empty cell, and weighs the sum of the values (1 for `NaN`) of the rows
    with that trimmed text.
   */
  lemma PlainCloud(texts: seq<Cell>, values: seq<Option<int>>, minWordLength: int, w: Word)
    requires w in TransformWords(Some(texts), Some(values), false, minWordLength)
    ensures |w.text| >= minWordLength
    ensures exists i | 0 <= i < |texts| :: RowTrimsTo(texts, i, w.text)
    ensures w.value == PlainWeight(texts, values, minWordLength, |texts|, w.text)
  {
    TransformWordsCloud(texts, values, false, minWordLength);
    PlainEntriesTexts(texts, values, minWordLength, |texts|, w.text);
    SomeRowTrimsExists(texts, |texts|, w.text);
    PlainEntriesWeight(texts, values, minWordLength, |texts|, w.text);
  }

  // ---------------------------------------------------------------- the minimum word length setting

  /** `DEFAULT_MIN_WORD_LENGTH`. */
  const DefaultMinWordLength: int := 3

  /**
    The `minWordLength` setting, given after `Number(...)` (`None` for `NaN`):
    a positive value is used as it is, anything else falls back to the default.
   */
  function MinWordLength(setting: Option<int>): (r: int)
    ensures r > 0
    ensures setting.Some? && setting.value > 0 ==> r == setting.value
    ensures setting.None? || setting.value <= 0 ==> r == DefaultMinWordLength
  {
    match setting
    case Some(n) => if n > 0 then n else DefaultMinWordLength
    case None => DefaultMinWordLength
  }

  /** With the length setting the plugin passes, no word of the cloud is empty, on either path. */
  lemma CloudWordsNonEmpty(texts: seq<Cell>, values: seq<Option<int>>, tokenize: bool, setting: Option<int>)
    ensures forall w | w in TransformWords(Some(texts), Some(values), tokenize, MinWordLength(setting)) ::
      |w.text| >= MinWordLength(setting) && w.text != ""
  {
    var m := MinWordLength(setting);
    forall w | w in TransformWords(Some(texts), Some(values), tokenize, m)
      ensures |w.text| >= m && w.text != ""
    {
      if tokenize {
        TokenizedCloud(texts, values, m, w);
      } else {
        PlainCloud(texts, values, m, w);
      }
    }
  }
}
