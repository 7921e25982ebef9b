/**
  The level-string parser of `src/utils/dataTransform.ts`. The source matches
  `^(.+?)\s*\(([^)]+)\)-([^-]+)$`; here the regular expression is stated as a
  predicate over split points, and the parser is proved to accept exactly the
  strings that have such split points and to pick the ones a backtracking
  matcher picks (the shortest first group).
 */
module LevelParser {
  import opened Basics
  import opened OrgTypes

  /**
    `s` matches the pattern with group 1 = `s[..k]`, whitespace `s[k..q]`,
    `(` at `q`, group 2 = `s[q+1..p]`, `)-` at `p`, group 3 = `s[p+2..]`.
   */
  predicate MatchesWith(s: string, k: int, q: int, p: int) {
    && 0 < k <= q && q + 1 < p && p + 2 < |s|
    && (forall i | 0 <= i < k :: !IsLineTerminator(s[i]))
    && (forall i | k <= i < q :: IsSpace(s[i]))
    && s[q] == '('
    && (forall i | q < i < p :: s[i] != ')')
    && s[p] == ')' && s[p + 1] == '-'
    && (forall i | p + 1 < i < |s| :: s[i] != '-')
  }

  /** `s` matches the pattern at all. */
  ghost predicate Matches(s: string) {
    exists k, q, p :: MatchesWith(s, k, q, p)
  }

  /** No split point with a shorter first group exists: the non-greedy `(.+?)` picks `k`. */
  ghost predicate ShortestName(s: string, k: int) {
    forall k', q', p' :: MatchesWith(s, k', q', p') ==> k <= k'
  }

  /** The parse result for the split points `k`, `q`, `p`: the three trimmed groups and the input. */
  function Captures(s: string, k: int, q: int, p: int): ParsedLevel
    requires MatchesWith(s, k, q, p)
  {
    ParsedLevel(Trim(s[..k]), Trim(s[q + 1..p]), Trim(s[p + 2..]), s)
  }

  /** Searches first-group ends `k, k+1, ...` below `p` for the first one the rest of the pattern accepts. */
  function FindNameEnd(s: string, k: nat, p: nat): (r: Option<nat>)
    requires 1 <= k <= p + 1 && p + 2 < |s| && s[p] == ')' && s[p + 1] == '-'
    requires forall i | p + 1 < i < |s| :: s[i] != '-'
    requires forall i | 0 <= i < k - 1 :: !IsLineTerminator(s[i])
    ensures r.Some? ==> k <= r.value < p && MatchesWith(s, r.value, SkipSpaces(s, r.value), p)
    ensures r.Some? ==> forall k', q' | k <= k' && MatchesWith(s, k', q', p) :: r.value <= k'
    ensures r.None? ==> forall k', q' | k <= k' :: !MatchesWith(s, k', q', p)
    decreases |s| - k
  {
    if k >= p || IsLineTerminator(s[k - 1]) then None
    else
      var q := SkipSpaces(s, k);
      if q + 1 < p && s[q] == '(' && (forall i | q < i < p :: s[i] != ')') then Some(k)
      else FindNameEnd(s, k + 1, p)
  }

  /**
    `parseLevelString` on a non-empty string: the trimmed groups of the match
    found from the split points, with `raw` the input. `ParseLevelMatches`
    states what this computes in terms of the pattern.
   */
  function ParseLevel(s: string): (r: Option<ParsedLevel>)
    ensures r.Some? ==> r.value.raw == s
  {
    match ParseSearch(s)
    case None => None
    case Some((k, q, p)) => Some(Captures(s, k, q, p))
  }

  /**
    The parser accepts exactly the strings the pattern matches, and reports
    the trimmed groups of the match a backtracking engine finds (shortest
    first group).
   */
  lemma ParseLevelMatches(s: string)
    ensures ParseLevel(s).Some? <==> Matches(s)
    ensures ParseLevel(s).Some? ==>
      exists k, q, p :: MatchesWith(s, k, q, p) && ShortestName(s, k) && ParseLevel(s).value == Captures(s, k, q, p)
  {
    ParseSearchComplete(s);
    var found := ParseSearch(s);
    if found.Some? {
      var (k, q, p) := found.value;
      ParseSearchShortest(s, k, q, p);
    }
  }

  /** The split points the matcher settles on, found from the last `-` backwards and the first group forwards. */
  function ParseSearch(s: string): (r: Option<(nat, nat, nat)>)
    ensures r.Some? ==> MatchesWith(s, r.value.0, r.value.1, r.value.2)
  {
    match LastIndexOf(s, '-')
    case None => None
    case Some(d) =>
      if d < 1 || d + 1 >= |s| || s[d - 1] != ')' then None
      else
        match FindNameEnd(s, 1, d - 1)
        case None => None
        case Some(k) => Some((k, SkipSpaces(s, k), d - 1))
  }

  /** In any match, `)-` sits just before the last `-` and the `(` at the first non-space after group 1. */
  lemma MatchPinned(s: string, k: int, q: int, p: int)
    requires MatchesWith(s, k, q, p)
    ensures LastIndexOf(s, '-') == Some(p + 1)
    ensures q == SkipSpaces(s, k)
  {
    assert !IsSpace(s[q]);
    assert s[p + 1] == '-';
  }

  lemma ParseSearchComplete(s: string)
    ensures Matches(s) ==> ParseSearch(s).Some?
  {
    if Matches(s) {
      var k, q, p :| MatchesWith(s, k, q, p);
      MatchPinned(s, k, q, p);
    }
  }

  lemma ParseSearchShortest(s: string, k: nat, q: nat, p: nat)
    requires ParseSearch(s) == Some((k, q, p))
    ensures MatchesWith(s, k, q, p) && ShortestName(s, k)
  {
    forall k', q', p' | MatchesWith(s, k', q', p')
      ensures k <= k'
    {
      MatchPinned(s, k', q', p');
    }
  }

  /** `parseLevelString(levelString)`: a missing or empty cell is rejected before the pattern is tried. */
  function ParseLevelString(cell: Cell): (r: Option<ParsedLevel>)
    ensures !Truthy(cell) ==> r.None?
    ensures Truthy(cell) ==> (r.Some? <==> Matches(cell.value))
    ensures r.Some? ==> r.value.raw == cell.value
  {
    if !Truthy(cell) then None
    else
      ParseLevelMatches(cell.value);
      ParseLevel(cell.value)
  }

  /** Parsed codes keep the character classes of their groups: no `-` in the leaf code, no `)` in the unit code. */
  lemma ParsedCodeCharacters(s: string)
    requires ParseLevel(s).Some?
    ensures '-' !in ParseLevel(s).value.beblCode
    ensures ')' !in ParseLevel(s).value.businessUnitCode
    ensures ParseLevel(s).value.raw == s
  {
    var (k, q, p) := ParseSearch(s).value;
    assert ParseLevel(s).value == Captures(s, k, q, p);
    assert '-' !in s[p + 2..];
    assert ')' !in s[q + 1..p];
  }

  /** Conversely, split points with the shortest first group determine the parse. */
  lemma ParseLevelAt(s: string, k: int, q: int, p: int)
    requires MatchesWith(s, k, q, p) && ShortestName(s, k)
    ensures ParseLevel(s) == Some(Captures(s, k, q, p))
  {
    ParseLevelMatches(s);
    var k0, q0, p0 :| MatchesWith(s, k0, q0, p0) && ShortestName(s, k0) && ParseLevel(s).value == Captures(s, k0, q0, p0);
    assert ShortestName(s, k0);
    assert MatchesWith(s, k, q, p);
    assert k0 <= k;
    assert k <= k0;
    MatchPinned(s, k, q, p);
    MatchPinned(s, k0, q0, p0);
    assert q == q0 && p == p0;
  }

  /** The documented example parses into its three fields. */
  lemma CambridgeExample()
    ensures ParseLevel("Cambridge Investment Research, Inc. (00001)-QV6")
      == Some(ParsedLevel("Cambridge Investment Research, Inc.", "00001", "QV6",
                          "Cambridge Investment Research, Inc. (00001)-QV6"))
  {
    var name := "Cambridge Investment Research, Inc.";
    var s := name + " (" + "00001" + ")-" + "QV6";
    assert s == "Cambridge Investment Research, Inc. (00001)-QV6";
    CambridgeSplit(name, s);
    ParseLevelAt(s, 35, 36, 42);
    CambridgeCaptures(name, s);
  }

  lemma CambridgeCaptures(name: string, s: string)
    requires name == "Cambridge Investment Research, Inc."
    requires s == name + " (" + "00001" + ")-" + "QV6"
    requires MatchesWith(s, 35, 36, 42)
    ensures Captures(s, 35, 36, 42) == ParsedLevel(name, "00001", "QV6", s)
  {
    assert s[..35] == name;
    assert s[37..42] == "00001";
    assert s[44..] == "QV6";
    TrimNoEdgeSpaces(name);
    TrimNoEdgeSpaces("00001");
    TrimNoEdgeSpaces("QV6");
  }

  /** The split points of the documented example: group 1 ends at 35 and nothing shorter matches. */
  lemma CambridgeSplit(name: string, s: string)
    requires name == "Cambridge Investment Research, Inc."
    requires s == name + " (" + "00001" + ")-" + "QV6"
    ensures MatchesWith(s, 35, 36, 42) && ShortestName(s, 35)
  {
    CambridgeMatch(name, s);
    forall k', q', p' | MatchesWith(s, k', q', p')
      ensures 35 <= k'
    {
      CambridgeOnlyParen(name, s, q');
      assert !IsSpace(s[34]);
    }
  }

  lemma CambridgeMatch(name: string, s: string)
    requires name == "Cambridge Investment Research, Inc."
    requires s == name + " (" + "00001" + ")-" + "QV6"
    ensures MatchesWith(s, 35, 36, 42)
  {
    assert s[..35] == name;
    assert forall i | 0 <= i < 35 :: !IsLineTerminator(s[i]);
  }

  /** The only `(` of the documented example is at 36. */
  lemma CambridgeOnlyParen(name: string, s: string, q: int)
    requires name == "Cambridge Investment Research, Inc."
    requires s == name + " (" + "00001" + ")-" + "QV6"
    requires 0 <= q < |s| && s[q] == '('
    ensures q == 36
  {
    assert s[..35] == name;
    assert forall i | 0 <= i < 35 :: s[i] != '(';
    assert forall i | 37 <= i < |s| :: s[i] != '(';
  }

  /** A string without the trailing `-Code` part is rejected. */
  lemma MissingCodeRejected()
    ensures ParseLevel("Acme (123)") == None
  {
    var s := "Acme (123)";
    assert forall i | 0 <= i < |s| :: s[i] != '-';
    ParseLevelMatches(s);
  }

  /**
    The pattern's `+` makes each raw group non-empty, but trimming may empty it: a leaf code of
    spaces is accepted by the pattern and comes out as "".
   */
  lemma TrimmedCodeMayBeEmpty()
    ensures ParseLevel("A (b)- ").Some?
    ensures ParseLevel("A (b)- ").value.beblCode == ""
  {
    var s := "A (b)- ";
    assert MatchesWith(s, 1, 2, 4);
    assert ShortestName(s, 1);
    ParseLevelAt(s, 1, 2, 4);
    assert s[6..] == " ";
  }
}
