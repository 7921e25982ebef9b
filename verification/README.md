# Org chart transform and word-cloud aggregation, modelled in Dafny

This project models two parts of a Sigma plugin repository.

- **The org-chart data transform** (`src/utils/dataTransform.ts`):
  - the parser for level strings of the form `Name (UnitCode)-LeafCode`;
  - the builder that turns rows of level columns into a deduplicated node list keyed by `|`-joined paths;
  - the pass that fills in each node's direct and total subordinate counts;
  - the case-insensitive node search.
- **The word-cloud sample plugin's aggregation** (`src/samples/plugin_samples/App_wordclaude.tsx`):
  - the tokenizer with its stop-word list;
  - the two aggregation paths (whole trimmed texts or tokens), which sum the values of equal texts;
  - the top-`MAX_WORDS` selection, heaviest first.

Modules, one per file:

- `Basics`: an option type for `null`/`undefined`, plus the JavaScript string operations the code relies on, each stated over `seq<char>`. These are `\s` and `trim` (the full ECMAScript whitespace set), `toLowerCase` (ASCII), `includes`, `join` and one-character `split`.
- `OrgTypes`: parsed level, chart node, plugin configuration, and the columnar table.
- `LevelParser`: `parseLevelString`. The regular expression `^(.+?)\s*\(([^)]+)\)-([^-]+)$` is stated as a predicate over split points (`MatchesWith`). The parser is proved to accept exactly the matching strings and to pick the split a backtracking matcher picks, which is the shortest first group.
- `Subordinates`: `calculateSubordinateCounts` and `calculateTotalSubordinates`. The totals are proved equal to the number of transitive descendants, which are defined independently by following `parentId` links.
- `TreeBuilder`: `buildOrgChartData`. What each level creates is described without the loop state (`ExpectedNode`). The builder is proved to produce:
  - a well-formed list: distinct ids, and every truthy parent listed earlier;
  - a complete list: every path any row resolves is a node;
  - nodes made by the first row that reaches their path.
  - nodes listed in creation order: by first creating row, then by level.
- `Search`: `searchNodes`.
- `WordTokens`: `tokenizeText` and `STOP_WORDS`. The cleaned text's space-separated pieces are proved equal to the words (maximal non-whitespace runs) of the lower-cased, scrubbed text.
- `WordCloud`: the following, each stated against reference weights defined row by row:
  - `getTopNItems`;
  - the map-based merge;
  - both paths of `transformedWords`;
  - the `minWordLength` setting.

Inputs that come from the host are parameters:
- the data table, a `map` from column name to cells;
- the plugin configuration;
- the word-cloud text and value columns, with each value given after `Number(...)` (`None` standing for `NaN`);
- the tokenize switch;
- the length setting.

## Model

| member | source | states |
|---|---|---|
| LevelParser.ParseLevelMatches | src/utils/dataTransform.ts:21-34 | the parser succeeds exactly when the string matches the pattern, and then returns the trimmed groups of the match with the shortest first group, and the input as `raw` |
| LevelParser.ParseLevelString | src/utils/dataTransform.ts:15-35 | a missing or empty input gives null; otherwise the result is non-null exactly when the pattern matches, and `raw` is the input |
| LevelParser.ParseLevelAt | src/utils/dataTransform.ts:21-34 | conversely, any split with the shortest first group determines the parse result |
| LevelParser.ParsedCodeCharacters | src/utils/dataTransform.ts:21-32 | a parsed leaf code never contains `-` and a parsed unit code never contains `)` |
| LevelParser.CambridgeExample | src/utils/dataTransform.ts:9-10 | the documented example parses to name `Cambridge Investment Research, Inc.`, unit code `00001`, leaf code `QV6` |
| LevelParser.MissingCodeRejected | src/utils/dataTransform.ts:21-27 | a string without the `-LeafCode` suffix is rejected |
| LevelParser.TrimmedCodeMayBeEmpty | src/utils/dataTransform.ts:29-32 | the pattern accepts a leaf code of spaces, and trimming then makes it empty |
| LevelParser.FindNameEnd | src/utils/dataTransform.ts:21 | the search for the end of the lazy first group finds the least end the rest of the pattern accepts, or reports that none exists |
| TreeBuilder.LevelChainSpec | src/utils/dataTransform.ts:69-86 | a row's `levels` array is the longest run of truthy cells at the start of the configured, present level columns |
| TreeBuilder.StepLevel | src/utils/dataTransform.ts:95-129 | one level: an unparsed level or a known path leaves list and map unchanged; a new path appends exactly the expected node (id the path, parent the last resolved path or none at level 0, name the row's full name on the last level and the parsed name elsewhere, unit name and codes from the parse) and indexes its id; the state stays valid |
| TreeBuilder.AddNode | src/utils/dataTransform.ts:127-128 | pushing a node whose id is not yet in the table and whose truthy parent is, and filing it under its id, keeps the state valid: ids distinct, parents listed earlier, the table holding exactly the listed ids |
| TreeBuilder.ProcessLevels | src/utils/dataTransform.ts:94-130 | the level loop keeps the list valid, never changes existing nodes, indexes the path of every parsed level, and every new node is the expected node of a level whose path was new; later new nodes have longer paths |
| TreeBuilder.StepRow | src/utils/dataTransform.ts:88-130 | a row without levels is skipped; otherwise every parsed path of the row is indexed, and each new node has this row as the first row reaching its path |
| TreeBuilder.ProcessRows | src/utils/dataTransform.ts:67-131 | after the row loop all rows are covered, and each new node is created by the first row that reaches its path |
| TreeBuilder.BuildNodes | src/utils/dataTransform.ts:51-131 | a missing required column gives []; otherwise the node list is well formed (distinct ids, parents earlier), complete for all rows, each node is created by the first row reaching its path, and the nodes are listed in creation order (by first creating row, then by level) |
| TreeBuilder.BuildNodesOrder | src/utils/dataTransform.ts:67-128 | of two listed nodes, the earlier one has the earlier first creating row, or the same row and a shallower level (a shorter path), as the pushes in row-then-level order produce |
| TreeBuilder.FirstCreatorUnique | src/utils/dataTransform.ts:104-111 | a node's first creating row is unique, since a creating row reaches the node's path |
| TreeBuilder.BuildOrgChartData | src/utils/dataTransform.ts:51-137 | the result is the built node list with each node's direct count (nodes naming it as truthy parent) and total count (transitive descendants) filled in, and nothing else changed |
| TreeBuilder.SharedPathOneNode | src/utils/dataTransform.ts:104-111 | every path a row reaches is the id of exactly one node, however many rows share it |
| TreeBuilder.RootWhenNoParentParsed | src/utils/dataTransform.ts:94-119 | a created node has no truthy parent exactly when it sits at level 0 or all earlier levels failed to parse; in the second case its `parentId` is `""` |
| TreeBuilder.PathKeyInjective | src/utils/dataTransform.ts:105 | when no level string contains `\|`, equal paths come from equal level prefixes |
| TreeBuilder.PathKeyCollision | src/utils/dataTransform.ts:105 | a level string containing `\|` can produce the same path as a deeper chain |
| TreeBuilder.PathKeyLonger | src/utils/dataTransform.ts:105 | a deeper level of a chain has a strictly longer path |
| Subordinates.BuildChildrenMap | src/utils/dataTransform.ts:146-156 | the children map sends each id to the ids of the nodes whose truthy `parentId` is that id, in list order, and has only ids with children as keys |
| Subordinates.TotalIsDescendantCount | src/utils/dataTransform.ts:173-185 | the recursive total for a node equals the number of its transitive descendants |
| Subordinates.ChildIdsCount | src/utils/dataTransform.ts:159-161 | a node's child list has one entry per node whose truthy `parentId` is its id |
| Subordinates.CalculateSubordinateCounts | src/utils/dataTransform.ts:145-164 | each node gets the number of nodes naming it as truthy parent and the number of its transitive descendants; all other fields and the order are kept |
| Subordinates.TotalSubordinates | src/utils/dataTransform.ts:173-185 | a node's total is at least its number of children |
| Subordinates.SiblingSubtreesDisjoint | src/utils/dataTransform.ts:180-182 | subtrees of two distinct children do not overlap, so adding up their totals counts nobody twice |
| Subordinates.AncestorsLinear | src/utils/dataTransform.ts:173-185 | any two ancestors of a node are equal or one descends from the other |
| Search.SearchNodes | src/utils/dataTransform.ts:194-207 | a blank term (empty after trimming) finds nothing; otherwise a node is kept exactly when its lower-cased name, leaf code or unit name contains the lower-cased, trimmed term, and each kept node occurs as often as in the input |
| Search.FilterSpec | src/utils/dataTransform.ts:201-207 | the filter keeps exactly the matching nodes, each with its multiplicity |
| Search.SearchIsSubsequence | src/utils/dataTransform.ts:201 | the result keeps the input order |
| Search.SearchIdempotent | src/utils/dataTransform.ts:194-207 | searching the result again with the same term changes nothing |
| Search.FilterAppend | src/utils/dataTransform.ts:201 | filtering distributes over concatenation |
| Search.SearchCaseInsensitive | src/utils/dataTransform.ts:199 | lower-casing the term first gives the same result |
| Search.NormalizedTermNonEmpty | src/utils/dataTransform.ts:195-199 | the term passes the blank check exactly when its normalised form is non-empty |
| WordTokens.Tokenize | src/samples/plugin_samples/App_wordclaude.tsx:60-82 | null, undefined or an empty text gives []; every token is non-empty, at least `minLength` long, not a stop word, and made only of `a`-`z` and `0`-`9` |
| WordTokens.TokenizeSpec | src/samples/plugin_samples/App_wordclaude.tsx:67-81 | a string is a token exactly when it is a non-empty space-separated piece of the cleaned text that is long enough and not a stop word |
| WordTokens.CleanedShape | src/samples/plugin_samples/App_wordclaude.tsx:67-71 | the cleaned text holds letters, digits and single spaces, no space at either end, and the same letters and digits in the same order as the lower-cased text |
| WordTokens.Words | src/samples/plugin_samples/App_wordclaude.tsx:67-74 | reference definition of the words of a string, its maximal non-whitespace runs: every word is non-empty and free of whitespace |
| WordTokens.CleanedWords | src/samples/plugin_samples/App_wordclaude.tsx:67-74 | splitting the cleaned text at spaces gives exactly the words of the lower-cased, scrubbed text (`[""]` when there are none): collapsing and trimming move no word boundary |
| WordTokens.WordsCollapse | src/samples/plugin_samples/App_wordclaude.tsx:70 | replacing each whitespace run with one space keeps the words |
| WordTokens.WordsTrim | src/samples/plugin_samples/App_wordclaude.tsx:71 | trimming keeps the words |
| WordTokens.TokenizeWords | src/samples/plugin_samples/App_wordclaude.tsx:60-82 | the tokens of a non-empty text are its words (after lower-casing and scrubbing) that pass the filter, in order and with repetitions |
| WordTokens.TokenizeKeepsWordsApart | src/samples/plugin_samples/App_wordclaude.tsx:67-81 | `"ab cd"` tokenizes to `ab` and `cd` |
| WordTokens.LetterOrNumberRedundant | src/samples/plugin_samples/App_wordclaude.tsx:79-80 | the letter-or-number test never rejects a non-empty piece of cleaned text |
| WordTokens.FilterTokens | src/samples/plugin_samples/App_wordclaude.tsx:74-81 | the token filter keeps exactly the pieces passing the test, each with its multiplicity |
| WordTokens.TokenizeIgnoresCase | src/samples/plugin_samples/App_wordclaude.tsx:68 | tokenizing a lower-cased text gives the same tokens |
| WordCloud.SortDesc | src/samples/plugin_samples/App_wordclaude.tsx:50 | the sort is a permutation of its input, ordered by non-increasing value |
| WordCloud.TopN | src/samples/plugin_samples/App_wordclaude.tsx:49-51 | the first `min(n, length)` entries of the sorted copy: sorted, and drawn from the input |
| WordCloud.TopNKeepsHeaviest | src/samples/plugin_samples/App_wordclaude.tsx:49-51 | no entry left out is heavier than any entry kept |
| WordCloud.TopNIdempotent | src/samples/plugin_samples/App_wordclaude.tsx:49-51 | taking the top `n` of a top-`n` list changes nothing |
| WordCloud.SortDescSorted | src/samples/plugin_samples/App_wordclaude.tsx:50 | the stable sort leaves an already sorted list unchanged |
| WordCloud.MergeSpec | src/samples/plugin_samples/App_wordclaude.tsx:331-341 | merging through the map gives distinct texts, exactly the texts of the entries, each with the sum of its values |
| WordCloud.TransformWords | src/samples/plugin_samples/App_wordclaude.tsx:296-375 | a missing text or value column gives []; otherwise at most `MAX_WORDS` entries, heaviest first |
| WordCloud.TransformWordsCloud | src/samples/plugin_samples/App_wordclaude.tsx:331-375 | the result has distinct texts and `min(200, number of distinct texts)` entries; each entry carries its text's total; no text left out outweighs a kept entry |
| WordCloud.TokenizedCloud | src/samples/plugin_samples/App_wordclaude.tsx:345-375 | on the tokenized path each word is a token of some row with a numeric value, passes the tokenizer's filter, and weighs the sum over rows of the row value times its occurrences in the row |
| WordCloud.PlainCloud | src/samples/plugin_samples/App_wordclaude.tsx:304-343 | on the untokenized path each word is the trimmed text of some non-empty cell, is at least `minWordLength` long, and weighs the sum of the values (1 for `NaN`) of the rows with that trimmed text |
| WordCloud.TokenEntriesWeight | src/samples/plugin_samples/App_wordclaude.tsx:348-366 | the summed weight of a token over the tokenized entries equals its reference weight |
| WordCloud.TokenEntriesTexts | src/samples/plugin_samples/App_wordclaude.tsx:348-366 | the tokenized path adds exactly the tokens of the rows whose value is a number |
| WordCloud.PlainEntriesWeight | src/samples/plugin_samples/App_wordclaude.tsx:305-335 | the summed weight of a text over the untokenized entries equals its reference weight |
| WordCloud.PlainEntriesTexts | src/samples/plugin_samples/App_wordclaude.tsx:305-328 | the untokenized path adds exactly the long-enough trimmed texts of the non-empty cells |
| WordCloud.MinWordLength | src/samples/plugin_samples/App_wordclaude.tsx:213-217 | the length setting is always positive: the setting when it is a positive number, otherwise `DEFAULT_MIN_WORD_LENGTH` (3) |
| WordCloud.CloudWordsNonEmpty | src/samples/plugin_samples/App_wordclaude.tsx:213-217 | with the length the plugin derives, no word of the cloud is empty, on either path |
| Basics.Split | src/samples/plugin_samples/App_wordclaude.tsx:74 | the pieces contain no separator and join back to the input |
| Basics.SplitJoin | src/samples/plugin_samples/App_wordclaude.tsx:74 | splitting a join of separator-free parts gives the parts back |
| Basics.TrimEmptyIffBlank | src/utils/dataTransform.ts:195 | a trimmed string is empty exactly when the string is all whitespace |

## Left out

- WordCloud.PlainWord: string lengths count characters (Unicode scalar values), while JavaScript's `length` counts UTF-16 code units. A text outside the Basic Multilingual Plane can therefore be dropped by the model's `minWordLength` test but kept by the source. For example, `"😀😀"` has length 2 here and 4 in JavaScript, so with a minimum of 3 the model drops it and the source keeps it. Tokens are made of `a`-`z` and `0`-`9` only, so the tokenized path is unaffected.
- Unicode case mapping: `toLowerCase` is modelled on ASCII letters only. Characters whose lower case is an ASCII letter are not mapped (U+212A KELVIN SIGN to `k`, U+0130 to `i`), so neither are the tokens they would make.
- Non-string cells and the `typeof` checks: cells are strings or `None`. `String(text)` on the untokenized path is the identity on strings.
- Numbers: values and weights are unbounded integers. Fractional values, `Infinity`, floating-point rounding in the sums, and a fractional `minWordLength` are not modelled. A value cell is given as the result of `Number(...)`, with `None` for `NaN`.
- React, the Sigma client hooks and the rendering: the column lookups of `transformedWords` (lines 290-303) are collapsed into `Option` parameters. `None` stands for a missing column or configuration.
- `console.warn` calls: they are logging only.
- In-place mutation: the source pushes to arrays, sets map entries and assigns the count fields on existing node objects. The model returns new values, so `getTopNItems` leaving its input unchanged holds by construction.
- TreeBuilder.FullName: a missing full-name cell reads as `""`, where the source would store `null` or `undefined` as the leaf's name. `searchNodes` then calls `toLowerCase` on that name (src/utils/dataTransform.ts:202) and throws a `TypeError` for every non-blank term. The model's `Search.SearchNodes` returns normally on such a node instead.
- TreeBuilder.LevelChain: the configuration holds any number of deeper level columns (`deeperLevels`) rather than exactly `level1`-`level10`.
- TreeBuilder.ParseChain: each row's levels are parsed up front rather than inside the loop. The parser is pure, so each level gets the same result.
- LevelParser.ParseLevelString: the `+` quantifiers of the pattern make the three raw groups non-empty, but the captured groups are trimmed afterwards, and trimming can empty them (`TrimmedCodeMayBeEmpty`). The model follows the code. A parsed code is therefore not promised to be non-empty.
- LevelParser.ParseLevel: there is no catastrophic backtracking or other engine behaviour; only the match the engine returns is modelled.
- WordCloud.SortDesc: the sort is modelled as a stable insertion sort. `Array.prototype.sort` is stable in current engines. Only permutation, order and the effect on already sorted input are proved, not stability in general.
- TreeBuilder.PathKeyCollision: ids joined with `|` can collide when a level string itself contains `|`. The builder then treats the second path as already created. This is recorded as a property of the code, not changed.
