/**
  `tokenizeText` of the word-cloud sample plugin
  (`src/samples/plugin_samples/App_wordclaude.tsx`): lower-case the text,
  blank out everything but `a`-`z`, `0`-`9` and whitespace, collapse
  whitespace runs to one space, trim, split on spaces, and keep the tokens
  that are long enough, not stop words, and contain a letter or are all
  digits.
 */
module WordTokens {
  import opened Basics

  /** `STOP_WORDS`: common English words left out of the cloud. */
  const StopWords: set<string> := {
    "a", "an", "and", "are", "as", "at", "be", "by", "for", "from",
    "has", "he", "in", "is", "it", "its", "of", "on", "that", "the",
    "to", "was", "were", "will", "with", "&", "or", "but", "yet", "so"
  }

  predicate IsLetter(c: char) { 'a' <= c <= 'z' }

  predicate IsDigit(c: char) { '0' <= c <= '9' }

  /** The characters the cleaning step keeps apart from whitespace: the class `[a-z0-9]`. */
  predicate IsTokenChar(c: char) { IsLetter(c) || IsDigit(c) }

  /** Every character of `t` is a letter or digit. */
  predicate AllTokenChars(t: string) { forall k | 0 <= k < |t| :: IsTokenChar(t[k]) }

  /** `/[a-z]/.test(t)`. */
  predicate HasLetter(t: string) { exists i | 0 <= i < |t| :: IsLetter(t[i]) }

  /** `/^\d+$/.test(t)`. */
  predicate AllDigits(t: string) { |t| > 0 && forall i | 0 <= i < |t| :: IsDigit(t[i]) }

  /** `.replace(/[^a-z0-9\s]/g, " ")` on one character. */
  function ScrubChar(c: char): char {
    if IsTokenChar(c) || IsSpace(c) then c else ' '
  }

  /** `.replace(/[^a-z0-9\s]/g, " ")`: every character outside the class becomes a space. */
  function Scrub(s: string): (r: string)
    ensures |r| == |s|
    ensures forall i | 0 <= i < |s| :: IsTokenChar(r[i]) || IsSpace(r[i])
    ensures forall i | 0 <= i < |s| :: IsTokenChar(s[i]) ==> r[i] == s[i]
    ensures forall i | 0 <= i < |s| :: IsTokenChar(r[i]) ==> r[i] == s[i]
  {
    seq(|s|, i requires 0 <= i < |s| => ScrubChar(s[i]))
  }

  /** The non-whitespace characters of `s`, in order. */
  function Visible(s: string): string
    decreases |s|
  {
    if s == [] then [] else (if IsSpace(s[0]) then [] else [s[0]]) + Visible(s[1..])
  }

  lemma {:induction false} VisibleConcat(a: string, b: string)
    ensures Visible(a + b) == Visible(a) + Visible(b)
    decreases |a|
  {
    if a == [] {
      assert a + b == b;
    } else {
      assert (a + b)[1..] == a[1..] + b;
      VisibleConcat(a[1..], b);
    }
  }

  lemma {:induction false} VisibleBlank(s: string)
    requires forall i | 0 <= i < |s| :: IsSpace(s[i])
    ensures Visible(s) == []
    decreases |s|
  {
    if s != [] {
      VisibleBlank(s[1..]);
    }
  }

  /** `.replace(/\s+/g, " ")`: every maximal whitespace run becomes a single space. */
  function Collapse(s: string): (r: string)
    ensures Visible(r) == Visible(s)
    ensures forall i | 0 <= i < |r| :: r[i] == ' ' || (!IsSpace(r[i]) && r[i] in s)
    ensures forall i | 0 <= i < |r| - 1 :: r[i] == ' ' ==> r[i + 1] != ' '
    ensures |r| > 0 ==> |s| > 0 && (r[0] == ' ' <==> IsSpace(s[0]))
    ensures |s| > 0 ==> |r| > 0
    decreases |s|
  {
    if s == [] then []
    else if IsSpace(s[0]) then
      var k := SkipSpaces(s, 0);
      var rest := Collapse(s[k..]);
      assert s == s[..k] + s[k..];
      VisibleConcat(s[..k], s[k..]);
      VisibleBlank(s[..k]);
      [' '] + rest
    else
      var rest := Collapse(s[1..]);
      [s[0]] + rest
  }

  /** `text.toLowerCase().replace(...).replace(...).trim()`. */
  function Cleaned(text: string): string {
    Trim(Collapse(Scrub(Lower(text))))
  }

  /** Letters, digits and single spaces only. */
  predicate SpacedTokens(c: string) {
    && (forall i | 0 <= i < |c| :: IsTokenChar(c[i]) || c[i] == ' ')
    && (forall i | 0 <= i < |c| - 1 :: c[i] == ' ' ==> c[i + 1] != ' ')
  }

  /** Collapsing a string of letters, digits and whitespace leaves letters, digits and single spaces. */
  lemma CollapseShape(s: string)
    requires forall i | 0 <= i < |s| :: IsTokenChar(s[i]) || IsSpace(s[i])
    ensures SpacedTokens(Collapse(s))
  {
    var r := Collapse(s);
    forall k | 0 <= k < |r| && r[k] != ' '
      ensures IsTokenChar(r[k])
    {
      var m :| 0 <= m < |s| && s[m] == r[k];
    }
  }

  /** Trimming keeps the non-whitespace characters. */
  lemma TrimVisible(s: string)
    ensures Visible(Trim(s)) == Visible(s)
  {
    var c := Trim(s);
    var i, j :| TrimmedAt(s, i, j) && c == s[i..j];
    VisibleBetween(s, i, j);
  }

  /** Cutting whitespace off both ends keeps the non-whitespace characters. */
  lemma VisibleBetween(s: string, i: int, j: int)
    requires TrimmedAt(s, i, j)
    ensures Visible(s[i..j]) == Visible(s)
  {
    var front, mid, back := s[..i], s[i..j], s[j..];
    assert s == front + mid + back;
    VisibleBlank(front);
    VisibleBlank(back);
    VisibleConcat(front, mid);
    VisibleConcat(front + mid, back);
  }

  /** Trimming a string of letters, digits and single spaces keeps that shape and removes the edge spaces. */
  lemma TrimShape(s: string)
    requires SpacedTokens(s)
    ensures SpacedTokens(Trim(s))
    ensures Trim(s) != [] ==> Trim(s)[0] != ' ' && Trim(s)[|Trim(s)| - 1] != ' '
  {
    var c := Trim(s);
    var i, j :| TrimmedAt(s, i, j) && c == s[i..j];
    assert forall k | 0 <= k < |c| :: c[k] == s[i + k];
  }

  /**
    The cleaned text is the letters and digits of the lower-cased text, in
    order, with single spaces between runs and none at either end.
   */
  lemma CleanedShape(text: string)
    ensures SpacedTokens(Cleaned(text))
    ensures Cleaned(text) != [] ==> Cleaned(text)[0] != ' ' && Cleaned(text)[|Cleaned(text)| - 1] != ' '
    ensures Visible(Cleaned(text)) == Visible(Scrub(Lower(text)))
  {
    var sc := Scrub(Lower(text));
    CollapseShape(sc);
    TrimShape(Collapse(sc));
    TrimVisible(Collapse(sc));
  }

  /**
    The words of `s`: its maximal runs of non-whitespace characters, in order.
    Read from the right, a non-whitespace character followed by whitespace or
    the end of `s` starts a new word, and any other one extends the word that
    follows it. This is the reference the cleaned text's space-separated pieces
    are proved against (`CleanedWords`).
   */
  function Words(s: string): (r: seq<string>)
    ensures forall i | 0 <= i < |r| :: r[i] != ""
    ensures forall i, k | 0 <= i < |r| && 0 <= k < |r[i]| :: !IsSpace(r[i][k])
    ensures s != [] && !IsSpace(s[0]) ==> r != []
    decreases |s|
  {
    if s == [] then []
    else if IsSpace(s[0]) then Words(s[1..])
    else
      var rest := Words(s[1..]);
      if |s| == 1 || IsSpace(s[1]) then [[s[0]]] + rest
      else [[s[0]] + rest[0]] + rest[1..]
  }

  /** Leading whitespace does not change the words. */
  lemma {:induction false} WordsSkip(s: string, k: nat)
    requires k <= |s|
    requires forall i | 0 <= i < k :: IsSpace(s[i])
    ensures Words(s) == Words(s[k..])
    decreases k
  {
    if k > 0 {
      WordsSkip(s[1..], k - 1);
      assert s[1..][k - 1..] == s[k..];
    }
  }

  /** Trailing whitespace does not change the words. */
  lemma {:induction false} WordsTrailing(y: string, b: string)
    requires forall k | 0 <= k < |b| :: IsSpace(b[k])
    ensures Words(y + b) == Words(y)
    decreases |y|
  {
    if y == [] {
      assert y + b == b;
      WordsSkip(b, |b|);
    } else {
      assert (y + b)[1..] == y[1..] + b;
      WordsTrailing(y[1..], b);
      if |y| > 1 {
        assert (y + b)[1] == y[1];
      } else if b != [] {
        assert (y + b)[1] == b[0];
      }
    }
  }

  /** Trimming does not change the words. */
  lemma WordsTrim(s: string)
    ensures Words(Trim(s)) == Words(s)
  {
    var r := Trim(s);
    var i, j :| TrimmedAt(s, i, j) && r == s[i..j];
    WordsSkip(s, i);
    assert s[i..] == s[i..j] + s[j..];
    WordsTrailing(s[i..j], s[j..]);
  }

  /** Collapsing whitespace runs does not change the words. */
  lemma {:induction false} WordsCollapse(s: string)
    ensures Words(Collapse(s)) == Words(s)
    decreases |s|
  {
    if s != [] {
      if IsSpace(s[0]) {
        var k := SkipSpaces(s, 0);
        var rest := Collapse(s[k..]);
        assert Collapse(s) == [' '] + rest;
        assert ([' '] + rest)[1..] == rest;
        WordsCollapse(s[k..]);
        WordsSkip(s, k);
      } else {
        var x := s[1..];
        var cx := Collapse(x);
        assert Collapse(s) == [s[0]] + cx;
        assert ([s[0]] + cx)[1..] == cx;
        assert cx != [] ==> (IsSpace(cx[0]) <==> cx[0] == ' ');
        WordsCollapse(x);
      }
    }
  }

  /** A non-empty run without whitespace is a single word. */
  lemma {:induction false} WordsOfRun(p: string)
    requires p != [] && forall k | 0 <= k < |p| :: !IsSpace(p[k])
    ensures Words(p) == [p]
    decreases |p|
  {
    if |p| > 1 {
      WordsOfRun(p[1..]);
      assert [p[0]] + p[1..] == p;
    } else {
      assert p[1..] == [] && [p[0]] == p;
    }
  }

  /** A run without whitespace followed by a space is the first word. */
  lemma {:induction false} WordsOfRunThenSpace(p: string, u: string)
    requires p != [] && forall k | 0 <= k < |p| :: !IsSpace(p[k])
    ensures Words(p + [' '] + u) == [p] + Words(u)
    decreases |p|
  {
    var s := p + [' '] + u;
    if |p| == 1 {
      assert s[1..] == [' '] + u;
      assert ([' '] + u)[1..] == u;
      assert s[1] == ' ' && [s[0]] == p;
    } else {
      assert s[1..] == p[1..] + [' '] + u;
      WordsOfRunThenSpace(p[1..], u);
      assert [p[0]] + p[1..] == p;
    }
  }

  /** On a string of letters, digits and single spaces with no space at either end, splitting at spaces gives the words. */
  lemma {:induction false} SplitIsWords(t: string)
    requires t != "" && SpacedTokens(t) && t[0] != ' ' && t[|t| - 1] != ' '
    ensures Split(t, ' ') == Words(t)
    decreases |t|
  {
    var i := IndexOf(t, ' ');
    SpacedSplitAt(t, i);
    if i == |t| {
      WordsOfRun(t);
    } else {
      var u := t[i + 1..];
      WordsOfRunThenSpace(t[..i], u);
      SplitIsWords(u);
    }
  }

  /** Cutting such a string at its first space leaves a run of token characters and a string of the same shape. */
  lemma SpacedSplitAt(t: string, i: nat)
    requires t != "" && SpacedTokens(t) && t[0] != ' ' && t[|t| - 1] != ' '
    requires i <= |t| && (i < |t| ==> t[i] == ' ') && forall k | 0 <= k < i :: t[k] != ' '
    ensures forall k | 0 <= k < i :: !IsSpace(t[k])
    ensures i < |t| ==>
      && 0 < i < |t| - 1 && t == t[..i] + [' '] + t[i + 1..]
      && (forall k | 0 <= k < |t[..i]| :: !IsSpace(t[..i][k]))
      && SpacedTokens(t[i + 1..]) && t[i + 1] != ' '
  {
    if i < |t| {
      var u := t[i + 1..];
      assert forall m | 0 <= m < |u| :: u[m] == t[i + 1 + m];
    }
  }

  /**
    The space-separated pieces of the cleaned text are exactly the words of
    the lower-cased, scrubbed text: cleaning moves no word boundary. An empty
    cleaned text splits into the single piece "".
   */
  lemma CleanedWords(text: string)
    ensures Cleaned(text) == "" <==> Words(Scrub(Lower(text))) == []
    ensures Cleaned(text) == "" ==> Split(Cleaned(text), ' ') == [""]
    ensures Cleaned(text) != "" ==> Split(Cleaned(text), ' ') == Words(Scrub(Lower(text)))
  {
    var s := Scrub(Lower(text));
    WordsCollapse(s);
    WordsTrim(Collapse(s));
    CleanedShape(text);
    if Cleaned(text) != "" {
      SplitIsWords(Cleaned(text));
    }
  }

  /** The rule that drops tokens with neither a letter nor all digits. */
  predicate LetterOrNumber(t: string) {
    HasLetter(t) || AllDigits(t)
  }

  /** The `filter` callback of `tokenizeText`. */
  predicate KeepToken(t: string, minLength: int) {
    t != "" && |t| >= minLength && t !in StopWords && LetterOrNumber(t)
  }

  /** `parts.filter(...)` with `KeepToken`. */
  function FilterTokens(parts: seq<string>, minLength: int): (r: seq<string>)
    ensures forall t :: t in r <==> t in parts && KeepToken(t, minLength)
    ensures forall t :: multiset(r)[t] == (if KeepToken(t, minLength) then multiset(parts)[t] else 0)
  {
    if parts == [] then []
    else
      var rest := FilterTokens(parts[1..], minLength);
      assert parts == [parts[0]] + parts[1..];
      if KeepToken(parts[0], minLength) then [parts[0]] + rest else rest
  }

  /** `tokenizeText(text, minLength)`; `None` stands for `null`/`undefined`. */
  function Tokenize(text: Option<string>, minLength: int): (r: seq<string>)
    ensures text.None? || text.value == "" ==> r == []
    ensures forall t | t in r :: t != "" && |t| >= minLength && t !in StopWords && AllTokenChars(t)
  {
    if text.None? || text.value == "" then []
    else
      var c := Cleaned(text.value);
      var parts := Split(c, ' ');
      CleanedShape(text.value);
      PartsAreTokenChars(parts, c);
      var r := FilterTokens(parts, minLength);
      assert forall t | t in parts :: AllTokenChars(t);
      r
  }

  /** Space-free parts of a string made of letters, digits and spaces contain only letters and digits. */
  lemma PartsAreTokenChars(parts: seq<string>, c: string)
    requires Join(parts, ' ') == c
    requires forall i | 0 <= i < |parts| :: ' ' !in parts[i]
    requires SpacedTokens(c)
    ensures forall i | 0 <= i < |parts| :: AllTokenChars(parts[i])
  {
    forall i, k | 0 <= i < |parts| && 0 <= k < |parts[i]|
      ensures IsTokenChar(parts[i][k])
    {
      JoinMember(parts, ' ', i, k);
    }
  }

  /** A character of a part is a character of the join. */
  lemma {:induction false} JoinMember(parts: seq<string>, sep: char, i: nat, k: nat)
    requires i < |parts| && k < |parts[i]|
    ensures parts[i][k] in Join(parts, sep)
    decreases |parts|
  {
    if |parts| > 1 {
      var rest := Join(parts[1..], sep);
      assert Join(parts, sep) == parts[0] + [sep] + rest;
      if i == 0 {
        assert Join(parts, sep)[k] == parts[0][k];
      } else {
        JoinMember(parts[1..], sep, i - 1, k);
        var m :| 0 <= m < |rest| && rest[m] == parts[i][k];
        assert Join(parts, sep)[|parts[0]| + 1 + m] == rest[m];
      }
    }
  }

  /**
    The letter-or-number rule never rejects a token: every non-empty string
    of letters and digits contains a letter or is all digits.
   */
  lemma LetterOrNumberRedundant(t: string)
    requires t != [] && AllTokenChars(t)
    ensures LetterOrNumber(t)
  {
    if !HasLetter(t) {
      assert forall k | 0 <= k < |t| :: IsDigit(t[k]);
    }
  }

  /**
    The tokens are exactly the space-separated pieces of the cleaned text that
    are non-empty, long enough and not stop words.
   */
  lemma TokenizeSpec(text: string, minLength: int, t: string)
    requires text != ""
    ensures t in Tokenize(Some(text), minLength) <==>
      t in Split(Cleaned(text), ' ') && t != "" && |t| >= minLength && t !in StopWords
  {
    TokenizeIsFilter(text, minLength);
    if t in Split(Cleaned(text), ' ') && t != "" {
      PartLetterOrNumber(text, t);
    }
  }

  /** Past the empty-input guard, tokenizing filters the pieces of the cleaned text. */
  lemma TokenizeIsFilter(text: string, minLength: int)
    requires text != ""
    ensures Tokenize(Some(text), minLength) == FilterTokens(Split(Cleaned(text), ' '), minLength)
  {
  }

  /**
    Past the empty-input guard, the tokens are the words of the lower-cased,
    scrubbed text that are long enough and not stop words, in order and with
    their repetitions.
   */
  lemma TokenizeWords(text: string, minLength: int)
    requires text != ""
    ensures Tokenize(Some(text), minLength) == FilterTokens(Words(Scrub(Lower(text))), minLength)
  {
    TokenizeIsFilter(text, minLength);
    CleanedWords(text);
    if Cleaned(text) == "" {
      assert FilterTokens([""], minLength) == [];
    }
  }

  /** Lower-case letters, digits and spaces pass lower-casing and scrubbing unchanged. */
  lemma PlainTextUnchanged(text: string)
    requires forall i | 0 <= i < |text| :: IsTokenChar(text[i]) || text[i] == ' '
    ensures Scrub(Lower(text)) == text
  {
    assert Lower(text) == text;
  }

  /** Words stay apart: `"ab cd"` gives the two tokens `ab` and `cd`. */
  lemma TokenizeKeepsWordsApart()
    ensures Tokenize(Some("ab cd"), 1) == ["ab", "cd"]
  {
    var text := "ab cd";
    assert forall i | 0 <= i < |text| :: IsTokenChar(text[i]) || text[i] == ' ';
    PlainTextUnchanged(text);
    WordsAbCd();
    TokenizeWords(text, 1);
    AbCdKept();
    FilterKeepsTwo("ab", "cd", 1);
  }

  lemma WordsAbCd()
    ensures Words("ab cd") == ["ab", "cd"]
  {
    assert "ab cd" == "ab" + [' '] + "cd";
    WordsOfRunThenSpace("ab", "cd");
    WordsOfRun("cd");
  }

  lemma AbCdKept()
    ensures KeepToken("ab", 1) && KeepToken("cd", 1)
  {
    assert IsLetter("ab"[0]) && IsLetter("cd"[0]);
  }

  /** Two tokens that both pass the test are both kept. */
  lemma FilterKeepsTwo(a: string, b: string, minLength: int)
    requires KeepToken(a, minLength) && KeepToken(b, minLength)
    ensures FilterTokens([a, b], minLength) == [a, b]
  {
    assert [a, b][1..] == [b];
    assert [b][1..] == [];
  }

  /** Every non-empty piece of the cleaned text passes the letter-or-number rule. */
  lemma PartLetterOrNumber(text: string, t: string)
    requires t in Split(Cleaned(text), ' ') && t != ""
    ensures LetterOrNumber(t)
  {
    var c := Cleaned(text);
    var parts := Split(c, ' ');
    CleanedShape(text);
    PartsAreTokenChars(parts, c);
    var i :| 0 <= i < |parts| && parts[i] == t;
    LetterOrNumberRedundant(t);
  }

  /** Tokenizing ignores ASCII case. */
  lemma TokenizeIgnoresCase(text: string, minLength: int)
    ensures Tokenize(Some(Lower(text)), minLength) == Tokenize(Some(text), minLength)
  {
    LowerIdempotent(text);
  }
}
