/**
  `buildOrgChartData` of `src/utils/dataTransform.ts`: every row's chain of
  level strings becomes one node per successfully parsed level, identified by
  the `|`-join of the raw level strings up to that level and deduplicated
  through a lookup map in which the first row to reach a path wins.

  The per-level result is also described without the loop state, by
  `ExpectedNode`, and the builder is proved to produce exactly such nodes,
  with distinct ids, parents listed before children, and one node for every
  path any row resolves.
 */
module TreeBuilder {
  import opened Basics
  import opened OrgTypes
  import opened LevelParser
  import opened Subordinates

  /** The character that joins raw level strings into a node id. */
  const PathSeparator: char := '|'

  /** A level column takes part in the chain when it is configured (a non-empty name) and present in the table. */
  predicate ColumnUsable(table: Table, col: Option<string>) {
    col.Some? && col.value != "" && col.value in table
  }

  /** The usable level columns, in level order. */
  function UsableColumns(table: Table, cols: seq<Option<string>>): (r: seq<string>)
    ensures forall i | 0 <= i < |r| :: r[i] in table
  {
    if cols == [] then []
    else if ColumnUsable(table, cols[0]) then [cols[0].value] + UsableColumns(table, cols[1..])
    else UsableColumns(table, cols[1..])
  }

  /** The cells of one row under the given columns. */
  function RowCells(table: Table, cols: seq<string>, row: nat): (r: seq<Cell>)
    requires forall i | 0 <= i < |cols| :: cols[i] in table
    ensures |r| == |cols|
    ensures forall i | 0 <= i < |cols| :: r[i] == CellAt(table, cols[i], row)
  {
    seq(|cols|, i requires 0 <= i < |cols| => CellAt(table, cols[i], row))
  }

  /**
    The `levels` array of one row: the cells of the usable level columns, in
    order, up to (not including) the first falsy one. `LevelChainSpec` states
    this against the row's cells.
   */
  function LevelChain(table: Table, cols: seq<Option<string>>, row: nat): (chain: seq<string>)
    ensures forall i | 0 <= i < |chain| :: chain[i] != ""
  {
    if cols == [] then []
    else if ColumnUsable(table, cols[0]) then
      var cell := CellAt(table, cols[0].value, row);
      if Truthy(cell) then [cell.value] + LevelChain(table, cols[1..], row) else []
    else LevelChain(table, cols[1..], row)
  }

  /** `chain` is the longest run of truthy cells at the start of `cells`. */
  predicate TruthyPrefix(chain: seq<string>, cells: seq<Cell>) {
    && |chain| <= |cells|
    && (forall i | 0 <= i < |chain| :: cells[i] == Some(chain[i]))
    && (|chain| < |cells| ==> !Truthy(cells[|chain|]))
  }

  /** The chain is the longest run of truthy cells at the start of the row's usable level columns. */
  lemma {:induction false} LevelChainSpec(table: Table, cols: seq<Option<string>>, row: nat)
    ensures TruthyPrefix(LevelChain(table, cols, row), RowCells(table, UsableColumns(table, cols), row))
  {
    if cols != [] {
      LevelChainSpec(table, cols[1..], row);
      var rest := RowCells(table, UsableColumns(table, cols[1..]), row);
      if ColumnUsable(table, cols[0]) {
        var cell := CellAt(table, cols[0].value, row);
        assert RowCells(table, UsableColumns(table, cols), row) == [cell] + rest;
        TruthyPrefixCons(cell, LevelChain(table, cols[1..], row), rest);
      }
    }
  }

  /** A truthy cell extends the run; a falsy one ends it at once. */
  lemma TruthyPrefixCons(cell: Cell, chain: seq<string>, cells: seq<Cell>)
    requires TruthyPrefix(chain, cells)
    ensures Truthy(cell) ==> TruthyPrefix([cell.value] + chain, [cell] + cells)
    ensures !Truthy(cell) ==> TruthyPrefix([], [cell] + cells)
  {
    if Truthy(cell) {
      var c := [cell.value] + chain;
      var r := [cell] + cells;
      assert forall i | 1 <= i <= |chain| :: c[i] == chain[i - 1] && r[i] == cells[i - 1];
    }
  }

  /** The chain of a row under the configured level columns. */
  function RowChain(table: Table, config: PluginConfig, row: nat): seq<string> {
    LevelChain(table, LevelColumns(config), row)
  }

  /** The row's full-name cell; a missing cell reads as the empty string. */
  function FullName(table: Table, config: PluginConfig, row: nat): string
    requires config.beblFullName in table
  {
    match CellAt(table, config.beblFullName, row)
    case Some(s) => s
    case None => ""
  }

  /** `levels.slice(0, j + 1).join('|')`: the id of the node at level `j` of a chain. */
  function PathKey(chain: seq<string>, j: nat): string
    requires j < |chain|
  {
    Join(chain[..j + 1], PathSeparator)
  }

  /** The parse of every level of a chain; the parser is pure, so parsing up front gives the loop's results. */
  function ParseChain(chain: seq<string>): (parsed: seq<Option<ParsedLevel>>)
    ensures |parsed| == |chain|
  {
    if chain == [] then []
    else ParseChain(chain[..|chain| - 1]) + [ParseLevel(chain[|chain| - 1])]
  }

  /** Level `j` of a parsed chain is the parse of level `j`'s string. */
  lemma {:induction false} ParseChainAt(chain: seq<string>, j: nat)
    requires j < |chain|
    ensures ParseChain(chain)[j] == ParseLevel(chain[j])
    decreases |chain|
  {
    var init := chain[..|chain| - 1];
    assert ParseChain(chain) == ParseChain(init) + [ParseLevel(chain[|chain| - 1])];
    if j < |chain| - 1 {
      ParseChainAt(init, j);
      assert chain[j] == init[j];
    }
  }

  /** The deepest level before `j` that parsed, if any. */
  function LastResolved(parsed: seq<Option<ParsedLevel>>, j: nat): (r: Option<nat>)
    requires j <= |parsed|
    ensures r.Some? ==> r.value < j && parsed[r.value].Some?
    ensures r.None? ==> forall m | 0 <= m < j :: parsed[m].None?
    ensures r.Some? ==> forall m | r.value < m < j :: parsed[m].None?
  {
    if j == 0 then None
    else if parsed[j - 1].Some? then Some(j - 1)
    else LastResolved(parsed, j - 1)
  }

  /** The parent path in force at level `j`: the id of the last level before it that parsed, or "". */
  function ParentPath(chain: seq<string>, parsed: seq<Option<ParsedLevel>>, j: nat): string
    requires |parsed| == |chain| && j <= |chain|
  {
    match LastResolved(parsed, j)
    case None => ""
    case Some(m) => PathKey(chain, m)
  }

  /**
    The node level `j` of a chain creates when its path is new: the path as id;
    no parent at level 0 and otherwise the parent path in force (possibly "");
    the row's full name on the chain's last level and the parsed name elsewhere;
    unit name and both codes from the parse.
   */
  function ExpectedNode(chain: seq<string>, parsed: seq<Option<ParsedLevel>>, fullName: string, j: nat): Node
    requires |parsed| == |chain| && j < |chain| && parsed[j].Some?
  {
    var p := parsed[j].value;
    Node(
      PathKey(chain, j),
      if j == 0 then None else Some(ParentPath(chain, parsed, j)),
      if j == |chain| - 1 then fullName else p.name,
      p.name, p.beblCode, p.businessUnitCode, 0, 0)
  }

  /** Node `n` is the one level `j` creates, its path not yet in `seen`. */
  ghost predicate CreatedAt(chain: seq<string>, parsed: seq<Option<ParsedLevel>>, fullName: string,
                            seen: map<string, Node>, n: Node, j: nat) {
    && |parsed| == |chain| && j < |chain| && parsed[j].Some?
    && PathKey(chain, j) !in seen
    && n == ExpectedNode(chain, parsed, fullName, j)
  }

  /** Node `n` is created by some level from `lo` on. */
  ghost predicate CreatedFrom(chain: seq<string>, parsed: seq<Option<ParsedLevel>>, fullName: string,
                              seen: map<string, Node>, n: Node, lo: nat) {
    exists j | lo <= j < |chain| :: CreatedAt(chain, parsed, fullName, seen, n, j)
  }

  /** The node list under construction and the `nodeMap` lookup table. */
  datatype BuildState = BuildState(nodes: seq<Node>, index: map<string, Node>)

  /** The ids of a node list. */
  ghost function Ids(nodes: seq<Node>): set<string> {
    set k | 0 <= k < |nodes| :: nodes[k].id
  }

  /** The lookup table holds exactly the listed nodes, by id, and the list is well formed. */
  ghost predicate Valid(st: BuildState) {
    && st.index.Keys == Ids(st.nodes)
    && (forall id | id in st.index :: st.index[id].id == id)
    && WellFormed(st.nodes)
  }

  /** Paths of distinct levels of one chain differ: a deeper path is strictly longer. */
  lemma {:induction false} PathKeyLonger(chain: seq<string>, m: nat, j: nat)
    requires m < j < |chain|
    ensures |PathKey(chain, m)| < |PathKey(chain, j)|
    decreases j - m
  {
    assert chain[..j + 1] == chain[..j] + [chain[j]];
    JoinSnoc(chain[..j], chain[j], PathSeparator);
    if m < j - 1 {
      PathKeyLonger(chain, m, j - 1);
    }
  }

  /** Ids of a chain's levels are never empty. */
  lemma PathKeyNonEmpty(chain: seq<string>, j: nat)
    requires j < |chain| && chain[0] != ""
    ensures PathKey(chain, j) != ""
  {
    if j > 0 {
      PathKeyLonger(chain, 0, j);
    }
  }

  /** Every level from `i` on that parsed has its path in `index`. */
  ghost predicate Covers(index: map<string, Node>, chain: seq<string>, parsed: seq<Option<ParsedLevel>>, i: nat)
    requires |parsed| == |chain|
  {
    forall j | i <= j < |chain| && parsed[j].Some? :: PathKey(chain, j) in index
  }

  /** Every node `r` lists beyond `st`'s is created by a level from `i` on whose path `st` did not have. */
  ghost predicate AllCreated(st: BuildState, r: BuildState, chain: seq<string>, parsed: seq<Option<ParsedLevel>>,
                             fullName: string, i: nat) {
    forall k | |st.nodes| <= k < |r.nodes| :: CreatedFrom(chain, parsed, fullName, st.index, r.nodes[k], i)
  }

  /** The nodes `r` lists beyond `st`'s have strictly longer paths the later they come: deeper levels later. */
  ghost predicate DeeperLater(st: BuildState, r: BuildState) {
    forall k1, k2 | |st.nodes| <= k1 < k2 < |r.nodes| :: |r.nodes[k1].id| < |r.nodes[k2].id|
  }

  /**
    One iteration of the inner loop, at level `i` with `parentPath` the parent
    path in force: a level that failed to parse or whose path is already known
    leaves the state alone; otherwise the level's node is appended and indexed.
   */
  function StepLevel(st: BuildState, chain: seq<string>, parsed: seq<Option<ParsedLevel>>,
                     fullName: string, i: nat, parentPath: string): (r: BuildState)
    requires Valid(st) && i < |chain| && |parsed| == |chain|
    requires chain[0] != ""
    requires parentPath == ParentPath(chain, parsed, i)
    requires LastResolved(parsed, i).Some? ==> PathKey(chain, LastResolved(parsed, i).value) in st.index
    ensures Valid(r)
    ensures st.nodes <= r.nodes && st.index.Keys <= r.index.Keys
    ensures parsed[i].Some? ==> PathKey(chain, i) in r.index
    ensures parsed[i].None? || PathKey(chain, i) in st.index ==> r == st
    ensures parsed[i].Some? && PathKey(chain, i) !in st.index ==>
      && r.nodes == st.nodes + [ExpectedNode(chain, parsed, fullName, i)]
      && r.index.Keys == st.index.Keys + {PathKey(chain, i)}
  {
    match parsed[i]
    case None => st
    case Some(p) =>
      var key := Join(chain[..i + 1], PathSeparator);
      if key in st.index then st
      else
        var node := Node(
          key,
          if i == 0 then None else Some(parentPath),
          if i == |chain| - 1 then fullName else p.name,
          p.name, p.beblCode, p.businessUnitCode, 0, 0);
        assert node == ExpectedNode(chain, parsed, fullName, i);
        PathKeyNonEmpty(chain, i);
        AddNode(st, node)
  }

  /**
    The inner loop over one row's levels, from level `i` on, with `parentPath`
    the parent path in force. Existing nodes are never touched; each new node
    is the expected node of a level whose path was not yet in the table; every
    parsed level's path ends up in the table.
   */
  function ProcessLevels(st: BuildState, chain: seq<string>, parsed: seq<Option<ParsedLevel>>,
                         fullName: string, i: nat, parentPath: string): (r: BuildState)
    requires LevelsReady(st, chain, parsed, i, parentPath)
    ensures LevelsDone(st, r, chain, parsed, fullName, i)
    decreases |chain| - i
  {
    if i == |chain| then st
    else
      var st' := StepLevel(st, chain, parsed, fullName, i, parentPath);
      var next := if parsed[i].Some? then PathKey(chain, i) else parentPath;
      StepReady(st, st', chain, parsed, fullName, i, parentPath, next);
      var r := ProcessLevels(st', chain, parsed, fullName, i + 1, next);
      AfterLevel(st, st', r, chain, parsed, fullName, i, parentPath);
      r
  }

  /**
    What the level loop needs on entering level `i`: a valid state, a chain of
    non-empty levels, `parentPath` the parent path in force, and that path
    already in the table.
   */
  ghost predicate LevelsReady(st: BuildState, chain: seq<string>, parsed: seq<Option<ParsedLevel>>,
                              i: nat, parentPath: string) {
    && Valid(st) && i <= |chain| && |parsed| == |chain|
    && (forall j | 0 <= j < |chain| :: chain[j] != "")
    && parentPath == ParentPath(chain, parsed, i)
    && (LastResolved(parsed, i).Some? ==> PathKey(chain, LastResolved(parsed, i).value) in st.index)
  }

  /**
    What the level loop guarantees from level `i` on: `r` is valid and extends
    `st`, every parsed level's path from `i` on is in its table, and the nodes
    it adds are the expected nodes of those levels, deeper levels later.
   */
  ghost predicate LevelsDone(st: BuildState, r: BuildState, chain: seq<string>, parsed: seq<Option<ParsedLevel>>,
                             fullName: string, i: nat)
    requires |parsed| == |chain|
  {
    && Valid(r)
    && st.nodes <= r.nodes
    && st.index.Keys <= r.index.Keys
    && Covers(r.index, chain, parsed, i)
    && AllCreated(st, r, chain, parsed, fullName, i)
    && DeeperLater(st, r)
  }

  /** What the rest of the loop establishes from level `i + 1` on extends to level `i`. */
  lemma AfterLevel(st: BuildState, st': BuildState, r: BuildState, chain: seq<string>,
                   parsed: seq<Option<ParsedLevel>>, fullName: string, i: nat, parentPath: string)
    requires LevelsReady(st, chain, parsed, i, parentPath) && i < |chain|
    requires st' == StepLevel(st, chain, parsed, fullName, i, parentPath)
    requires LevelsDone(st', r, chain, parsed, fullName, i + 1)
    ensures LevelsDone(st, r, chain, parsed, fullName, i)
  {
    AfterStep(st, st', r, chain, parsed, fullName, i);
    CoversStep(r.index, chain, parsed, i);
  }

  /** Pushes `node` onto the node list and files it in the lookup table under its id. */
  function AddNode(st: BuildState, node: Node): (r: BuildState)
    requires Valid(st) && node.id !in st.index
    requires ParentKey(node).Some? ==> ParentKey(node).value in st.index
    ensures Valid(r)
    ensures r.nodes == st.nodes + [node]
    ensures r.index == st.index[node.id := node]
  {
    AddNodeValid(st, node);
    BuildState(st.nodes + [node], st.index[node.id := node])
  }

  /** Appending a node with a fresh id whose truthy parent is already listed keeps the state valid. */
  lemma AddNodeValid(st: BuildState, node: Node)
    requires Valid(st) && node.id !in st.index
    requires ParentKey(node).Some? ==> ParentKey(node).value in st.index
    ensures Valid(BuildState(st.nodes + [node], st.index[node.id := node]))
  {
    var nodes := st.nodes + [node];
    assert forall k | 0 <= k < |st.nodes| :: nodes[k] == st.nodes[k];
    assert Ids(nodes) == Ids(st.nodes) + {node.id} by {
      assert nodes[|st.nodes|] == node;
    }
    if ParentKey(node).Some? {
      var pid := ParentKey(node).value;
      assert pid in Ids(st.nodes);
      var i :| 0 <= i < |st.nodes| && st.nodes[i].id == pid;
      assert nodes[i].id == pid;
    }
  }

  /** Nodes listed by the rest of the loop, plus the one this step may add, come from levels from `i` on. */
  lemma NewNodesAfterStep(st: BuildState, st': BuildState, r: BuildState, chain: seq<string>,
                          parsed: seq<Option<ParsedLevel>>, fullName: string, i: nat)
    requires i < |chain| && |parsed| == |chain|
    requires parsed[i].None? || PathKey(chain, i) in st.index ==> st' == st
    requires parsed[i].Some? && PathKey(chain, i) !in st.index ==>
      && st'.nodes == st.nodes + [ExpectedNode(chain, parsed, fullName, i)]
      && st'.index.Keys == st.index.Keys + {PathKey(chain, i)}
    requires st'.nodes <= r.nodes
    requires AllCreated(st', r, chain, parsed, fullName, i + 1)
    ensures AllCreated(st, r, chain, parsed, fullName, i)
  {
    var added := parsed[i].Some? && PathKey(chain, i) !in st.index;
    forall k | |st.nodes| <= k < |r.nodes|
      ensures CreatedFrom(chain, parsed, fullName, st.index, r.nodes[k], i)
    {
      if added && k == |st.nodes| {
        assert r.nodes[k] == st'.nodes[k];
        assert CreatedAt(chain, parsed, fullName, st.index, r.nodes[k], i);
      } else {
        assert |st'.nodes| <= k;
        assert CreatedFrom(chain, parsed, fullName, st'.index, r.nodes[k], i + 1);
        var j :| i + 1 <= j < |chain| && CreatedAt(chain, parsed, fullName, st'.index, r.nodes[k], j);
        assert PathKey(chain, j) !in st.index;
        assert CreatedAt(chain, parsed, fullName, st.index, r.nodes[k], j);
      }
    }
  }

  /** What the rest of the loop establishes extends to the step at level `i`. */
  lemma AfterStep(st: BuildState, st': BuildState, r: BuildState, chain: seq<string>,
                  parsed: seq<Option<ParsedLevel>>, fullName: string, i: nat)
    requires i < |chain| && |parsed| == |chain|
    requires parsed[i].None? || PathKey(chain, i) in st.index ==> st' == st
    requires parsed[i].Some? && PathKey(chain, i) !in st.index ==>
      && st'.nodes == st.nodes + [ExpectedNode(chain, parsed, fullName, i)]
      && st'.index.Keys == st.index.Keys + {PathKey(chain, i)}
    requires st.nodes <= st'.nodes && st'.nodes <= r.nodes
    requires AllCreated(st', r, chain, parsed, fullName, i + 1)
    requires DeeperLater(st', r)
    ensures st.nodes <= r.nodes
    ensures AllCreated(st, r, chain, parsed, fullName, i)
    ensures DeeperLater(st, r)
  {
    PrefixTrans(st.nodes, st'.nodes, r.nodes);
    NewNodesAfterStep(st, st', r, chain, parsed, fullName, i);
    DeeperAfterStep(st, st', r, chain, parsed, fullName, i);
  }

  /** The node this step may add has a shorter path than every node the rest of the loop adds. */
  lemma DeeperAfterStep(st: BuildState, st': BuildState, r: BuildState, chain: seq<string>,
                        parsed: seq<Option<ParsedLevel>>, fullName: string, i: nat)
    requires i < |chain| && |parsed| == |chain|
    requires parsed[i].None? || PathKey(chain, i) in st.index ==> st' == st
    requires parsed[i].Some? && PathKey(chain, i) !in st.index ==>
      st'.nodes == st.nodes + [ExpectedNode(chain, parsed, fullName, i)]
    requires st'.nodes <= r.nodes
    requires AllCreated(st', r, chain, parsed, fullName, i + 1)
    requires DeeperLater(st', r)
    ensures DeeperLater(st, r)
  {
    if parsed[i].Some? && PathKey(chain, i) !in st.index {
      forall k1, k2 | |st.nodes| <= k1 < k2 < |r.nodes|
        ensures |r.nodes[k1].id| < |r.nodes[k2].id|
      {
        if k1 == |st.nodes| {
          assert r.nodes[k1] == st'.nodes[k1];
          var j :| i + 1 <= j < |chain| && CreatedAt(chain, parsed, fullName, st'.index, r.nodes[k2], j);
          PathKeyLonger(chain, i, j);
        }
      }
    }
  }

  /** A prefix of a prefix is a prefix: the node list only ever grows at the end. */
  lemma PrefixTrans(a: seq<Node>, b: seq<Node>, c: seq<Node>)
    requires a <= b && b <= c
    ensures a <= c
  {
    assert forall k | 0 <= k < |a| :: a[k] == b[k] == c[k];
  }

  /** After level `i` the loop's invariant holds for level `i + 1`. */
  lemma StepReady(st: BuildState, st': BuildState, chain: seq<string>, parsed: seq<Option<ParsedLevel>>,
                  fullName: string, i: nat, parentPath: string, next: string)
    requires LevelsReady(st, chain, parsed, i, parentPath) && i < |chain|
    requires st' == StepLevel(st, chain, parsed, fullName, i, parentPath)
    requires next == if parsed[i].Some? then PathKey(chain, i) else parentPath
    ensures LevelsReady(st', chain, parsed, i + 1, next)
  {
    ParentPathStep(chain, parsed, i);
  }

  /** How the parent path in force moves from level `i` to level `i + 1`. */
  lemma ParentPathStep(chain: seq<string>, parsed: seq<Option<ParsedLevel>>, i: nat)
    requires |parsed| == |chain| && i < |chain|
    ensures parsed[i].Some? ==> LastResolved(parsed, i + 1) == Some(i)
    ensures parsed[i].None? ==> LastResolved(parsed, i + 1) == LastResolved(parsed, i)
  {
  }

  /** Coverage from level `i + 1` on extends to level `i` once level `i`'s path (if it parsed) is in. */
  lemma CoversStep(index: map<string, Node>, chain: seq<string>, parsed: seq<Option<ParsedLevel>>, i: nat)
    requires |parsed| == |chain| && i < |chain|
    requires Covers(index, chain, parsed, i + 1)
    requires parsed[i].Some? ==> PathKey(chain, i) in index
    ensures Covers(index, chain, parsed, i)
  {
  }

  /** The parse of a row's chain, level by level. */
  function RowParse(table: Table, config: PluginConfig, row: nat): (parsed: seq<Option<ParsedLevel>>)
    ensures |parsed| == |RowChain(table, config, row)|
  {
    ParseChain(RowChain(table, config, row))
  }

  /** Row `row` has a level that parses and whose path is `id`. */
  ghost predicate RowReaches(table: Table, config: PluginConfig, row: nat, id: string) {
    var chain := RowChain(table, config, row);
    exists j | 0 <= j < |chain| :: RowParse(table, config, row)[j].Some? && PathKey(chain, j) == id
  }

  /** Every level of row `row` that parses has its path in `index`. */
  ghost predicate RowCovered(index: map<string, Node>, table: Table, config: PluginConfig, row: nat) {
    Covers(index, RowChain(table, config, row), RowParse(table, config, row), 0)
  }

  /** Node `n` is the node some level of row `row` creates, as `ExpectedNode` describes it. */
  ghost predicate RowCreates(table: Table, config: PluginConfig, row: nat, n: Node)
    requires config.beblFullName in table
  {
    var chain := RowChain(table, config, row);
    exists j | 0 <= j < |chain| ::
      && RowParse(table, config, row)[j].Some?
      && n == ExpectedNode(chain, RowParse(table, config, row), FullName(table, config, row), j)
  }

  /** Row `row` creates `n`, and no earlier row reaches `n`'s path: the first row to reach a path defines its node. */
  ghost predicate FirstCreator(table: Table, config: PluginConfig, row: nat, n: Node)
    requires config.beblFullName in table
  {
    && RowCreates(table, config, row, n)
    && forall r0 | 0 <= r0 < row :: !RowReaches(table, config, r0, n.id)
  }

  /** Some row in `lo..hi` is the first creator of `n`. */
  ghost predicate CreatedByRows(table: Table, config: PluginConfig, n: Node, lo: nat, hi: nat)
    requires config.beblFullName in table
  {
    exists row | lo <= row < hi :: FirstCreator(table, config, row, n)
  }

  /**
    Node `a` comes before node `b` in creation order: `a`'s first creating row
    is earlier than `b`'s, or both share it and `a` sits at a shallower level
    (a shorter path). A node's first creating row is unique (`FirstCreatorUnique`).
   */
  ghost predicate CreatedBefore(table: Table, config: PluginConfig, a: Node, b: Node)
    requires config.beblFullName in table
  {
    exists ra: nat, rb: nat | ra <= rb ::
      && FirstCreator(table, config, ra, a)
      && FirstCreator(table, config, rb, b)
      && (ra == rb ==> |a.id| < |b.id|)
  }

  /** The nodes `r` lists beyond `st`'s are in creation order. */
  ghost predicate InCreationOrder(table: Table, config: PluginConfig, st: BuildState, r: BuildState)
    requires config.beblFullName in table
  {
    forall k1, k2 | |st.nodes| <= k1 < k2 < |r.nodes| :: CreatedBefore(table, config, r.nodes[k1], r.nodes[k2])
  }

  /** Only one row can be the first to create a node: a creating row reaches the node's path. */
  lemma FirstCreatorUnique(table: Table, config: PluginConfig, r1: nat, r2: nat, n: Node)
    requires config.beblFullName in table
    requires FirstCreator(table, config, r1, n) && FirstCreator(table, config, r2, n)
    ensures r1 == r2
  {
    CreatorReaches(table, config, r1, n);
    CreatorReaches(table, config, r2, n);
  }

  /** A row that creates a node reaches its path. */
  lemma CreatorReaches(table: Table, config: PluginConfig, row: nat, n: Node)
    requires config.beblFullName in table && RowCreates(table, config, row, n)
    ensures RowReaches(table, config, row, n.id)
  {
    var chain := RowChain(table, config, row);
    var j :| 0 <= j < |chain| && RowParse(table, config, row)[j].Some?
      && n == ExpectedNode(chain, RowParse(table, config, row), FullName(table, config, row), j);
    assert PathKey(chain, j) == n.id;
  }

  /** Coverage survives growing the table. */
  lemma CoversMono(index: map<string, Node>, index': map<string, Node>, chain: seq<string>,
                   parsed: seq<Option<ParsedLevel>>, i: nat)
    requires |parsed| == |chain|
    requires Covers(index, chain, parsed, i) && index.Keys <= index'.Keys
    ensures Covers(index', chain, parsed, i)
  {
  }

  /**
    One iteration of the row loop: a row without levels is skipped; otherwise
    its levels are processed with the parent path starting at "".
   */
  function StepRow(table: Table, config: PluginConfig, st: BuildState, row: nat): (r: BuildState)
    requires config.beblFullName in table && Valid(st)
    requires forall r0 | 0 <= r0 < row :: RowCovered(st.index, table, config, r0)
    ensures Valid(r) && st.nodes <= r.nodes && st.index.Keys <= r.index.Keys
    ensures forall r0 | 0 <= r0 <= row :: RowCovered(r.index, table, config, r0)
    ensures forall k | |st.nodes| <= k < |r.nodes| :: FirstCreator(table, config, row, r.nodes[k])
    ensures DeeperLater(st, r)
  {
    var chain := RowChain(table, config, row);
    if |chain| == 0 then
      assert RowCovered(st.index, table, config, row);
      st
    else
      var parsed := ParseChain(chain);
      var fullName := FullName(table, config, row);
      var r := ProcessLevels(st, chain, parsed, fullName, 0, "");
      RowStepFacts(table, config, st, r, row);
      r
  }

  /** What one row's pass over its levels means for the row loop. */
  lemma RowStepFacts(table: Table, config: PluginConfig, st: BuildState, r: BuildState, row: nat)
    requires config.beblFullName in table
    requires forall r0 | 0 <= r0 < row :: RowCovered(st.index, table, config, r0)
    requires st.index.Keys <= r.index.Keys
    requires RowCovered(r.index, table, config, row)
    requires AllCreated(st, r, RowChain(table, config, row), RowParse(table, config, row),
                        FullName(table, config, row), 0)
    ensures forall r0 | 0 <= r0 <= row :: RowCovered(r.index, table, config, r0)
    ensures forall k | |st.nodes| <= k < |r.nodes| :: FirstCreator(table, config, row, r.nodes[k])
  {
    var chain := RowChain(table, config, row);
    var parsed := RowParse(table, config, row);
    forall r0 | 0 <= r0 < row
      ensures RowCovered(r.index, table, config, r0)
    {
      assert RowCovered(st.index, table, config, r0);
      CoversMono(st.index, r.index, RowChain(table, config, r0), RowParse(table, config, r0), 0);
    }
    forall k | |st.nodes| <= k < |r.nodes|
      ensures FirstCreator(table, config, row, r.nodes[k])
    {
      var n := r.nodes[k];
      var j :| 0 <= j < |chain| && CreatedAt(chain, parsed, FullName(table, config, row), st.index, n, j);
      assert RowCreates(table, config, row, n);
      forall r0 | 0 <= r0 < row
        ensures !RowReaches(table, config, r0, n.id)
      {
        assert RowCovered(st.index, table, config, r0);
        assert n.id == PathKey(chain, j) && n.id !in st.index;
      }
    }
  }

  /** The row loop of `buildOrgChartData`, from row `row` to `numRows`. */
  function ProcessRows(table: Table, config: PluginConfig, st: BuildState, row: nat, numRows: nat): (r: BuildState)
    requires config.beblFullName in table && Valid(st) && row <= numRows
    requires forall r0 | 0 <= r0 < row :: RowCovered(st.index, table, config, r0)
    ensures Valid(r) && st.nodes <= r.nodes && st.index.Keys <= r.index.Keys
    ensures forall r0 | 0 <= r0 < numRows :: RowCovered(r.index, table, config, r0)
    ensures forall k | |st.nodes| <= k < |r.nodes| :: CreatedByRows(table, config, r.nodes[k], row, numRows)
    ensures InCreationOrder(table, config, st, r)
    decreases numRows - row
  {
    if row == numRows then st
    else
      var st' := StepRow(table, config, st, row);
      var r := ProcessRows(table, config, st', row + 1, numRows);
      NewNodesAfterRow(table, config, st, st', r, row, numRows);
      OrderAfterRow(table, config, st, st', r, row, numRows);
      r
  }

  /** Nodes of the remaining rows plus the ones this row adds have their first creator from `row` on. */
  lemma NewNodesAfterRow(table: Table, config: PluginConfig, st: BuildState, st': BuildState, r: BuildState,
                         row: nat, numRows: nat)
    requires config.beblFullName in table && row < numRows
    requires st.nodes <= st'.nodes <= r.nodes
    requires forall k | |st.nodes| <= k < |st'.nodes| :: FirstCreator(table, config, row, st'.nodes[k])
    requires forall k | |st'.nodes| <= k < |r.nodes| :: CreatedByRows(table, config, r.nodes[k], row + 1, numRows)
    ensures forall k | |st.nodes| <= k < |r.nodes| :: CreatedByRows(table, config, r.nodes[k], row, numRows)
  {
    forall k | |st.nodes| <= k < |r.nodes|
      ensures CreatedByRows(table, config, r.nodes[k], row, numRows)
    {
      if k < |st'.nodes| {
        assert r.nodes[k] == st'.nodes[k];
        assert FirstCreator(table, config, row, r.nodes[k]);
      } else {
        assert CreatedByRows(table, config, r.nodes[k], row + 1, numRows);
        var r0 :| row + 1 <= r0 < numRows && FirstCreator(table, config, r0, r.nodes[k]);
      }
    }
  }

  /** This row's nodes, shallow to deep, come before those of the later rows. */
  lemma OrderAfterRow(table: Table, config: PluginConfig, st: BuildState, st': BuildState, r: BuildState,
                      row: nat, numRows: nat)
    requires config.beblFullName in table
    requires st.nodes <= st'.nodes <= r.nodes
    requires forall k | |st.nodes| <= k < |st'.nodes| :: FirstCreator(table, config, row, st'.nodes[k])
    requires DeeperLater(st, st')
    requires forall k | |st'.nodes| <= k < |r.nodes| :: CreatedByRows(table, config, r.nodes[k], row + 1, numRows)
    requires InCreationOrder(table, config, st', r)
    ensures InCreationOrder(table, config, st, r)
  {
    forall k1, k2 | |st.nodes| <= k1 < k2 < |r.nodes|
      ensures CreatedBefore(table, config, r.nodes[k1], r.nodes[k2])
    {
      if k1 < |st'.nodes| {
        assert r.nodes[k1] == st'.nodes[k1];
        assert FirstCreator(table, config, row, r.nodes[k1]);
        if k2 < |st'.nodes| {
          assert r.nodes[k2] == st'.nodes[k2];
          assert FirstCreator(table, config, row, r.nodes[k2]);
        } else {
          assert CreatedByRows(table, config, r.nodes[k2], row + 1, numRows);
          var rb :| row + 1 <= rb < numRows && FirstCreator(table, config, rb, r.nodes[k2]);
        }
      }
    }
  }

  /** `buildOrgChartData`'s column check: the level-0, full-name and business-unit columns must all be present. */
  predicate HasRequiredColumns(table: Table, config: PluginConfig) {
    config.level0 in table && config.beblFullName in table && config.businessUnitId in table
  }

  /** The number of rows: the length of the level-0 column. */
  function NumRows(table: Table, config: PluginConfig): nat
    requires config.level0 in table
  {
    |table[config.level0]|
  }

  /** Every path some row reaches is the id of a listed node. */
  ghost predicate Complete(table: Table, config: PluginConfig, nodes: seq<Node>, numRows: nat) {
    forall row, id | 0 <= row < numRows && RowReaches(table, config, row, id) :: id in Ids(nodes)
  }

  /**
    The node list of `buildOrgChartData` before the counts are filled in:
    empty when a required column is missing; otherwise well formed, complete,
    made of nodes each created by the first row that reaches its path, and
    listed in creation order: by first creating row, then by level.
   */
  function BuildNodes(table: Table, config: PluginConfig): (nodes: seq<Node>)
    ensures !HasRequiredColumns(table, config) ==> nodes == []
    ensures WellFormed(nodes)
    ensures HasRequiredColumns(table, config) ==> Complete(table, config, nodes, NumRows(table, config))
    ensures HasRequiredColumns(table, config) ==>
      forall k | 0 <= k < |nodes| :: CreatedByRows(table, config, nodes[k], 0, NumRows(table, config))
    ensures HasRequiredColumns(table, config) ==>
      forall a, b | 0 <= a < b < |nodes| :: CreatedBefore(table, config, nodes[a], nodes[b])
  {
    if !HasRequiredColumns(table, config) then []
    else
      var empty := BuildState([], map[]);
      assert Valid(empty) by { assert Ids([]) == {}; }
      var r := ProcessRows(table, config, empty, 0, NumRows(table, config));
      CoveredRowsComplete(table, config, r, NumRows(table, config));
      r.nodes
  }

  /** Coverage of every row by the lookup table means every reached path is a node id. */
  lemma CoveredRowsComplete(table: Table, config: PluginConfig, st: BuildState, numRows: nat)
    requires Valid(st)
    requires forall r0 | 0 <= r0 < numRows :: RowCovered(st.index, table, config, r0)
    ensures Complete(table, config, st.nodes, numRows)
  {
    forall row, id | 0 <= row < numRows && RowReaches(table, config, row, id)
      ensures id in Ids(st.nodes)
    {
      var chain := RowChain(table, config, row);
      var j :| 0 <= j < |chain| && RowParse(table, config, row)[j].Some? && PathKey(chain, j) == id;
      assert RowCovered(st.index, table, config, row);
    }
  }

  /** Rows that share a path share its node: every reached path is the id of exactly one node. */
  lemma SharedPathOneNode(table: Table, config: PluginConfig, row: nat, id: string)
    requires HasRequiredColumns(table, config)
    requires row < NumRows(table, config) && RowReaches(table, config, row, id)
    ensures |set k | 0 <= k < |BuildNodes(table, config)| && BuildNodes(table, config)[k].id == id| == 1
  {
    OneNodePerId(BuildNodes(table, config), id);
  }

  /** In a list with distinct ids, a listed id sits at exactly one position. */
  lemma OneNodePerId(nodes: seq<Node>, id: string)
    requires DistinctIds(nodes) && id in Ids(nodes)
    ensures |set k | 0 <= k < |nodes| && nodes[k].id == id| == 1
  {
    var k :| 0 <= k < |nodes| && nodes[k].id == id;
    assert (set k' | 0 <= k' < |nodes| && nodes[k'].id == id) == {k};
  }

  /**
    The node list is ordered by first creating row and, within a row, by
    level: of two listed nodes, the earlier one has the earlier first creating
    row, or the same row and a shorter path.
   */
  lemma BuildNodesOrder(table: Table, config: PluginConfig, a: nat, b: nat, ra: nat, rb: nat)
    requires HasRequiredColumns(table, config)
    requires a < b < |BuildNodes(table, config)|
    requires FirstCreator(table, config, ra, BuildNodes(table, config)[a])
    requires FirstCreator(table, config, rb, BuildNodes(table, config)[b])
    ensures ra < rb || (ra == rb && |BuildNodes(table, config)[a].id| < |BuildNodes(table, config)[b].id|)
  {
    var nodes := BuildNodes(table, config);
    assert CreatedBefore(table, config, nodes[a], nodes[b]);
    var ra', rb' :| ra' <= rb' && FirstCreator(table, config, ra', nodes[a]) && FirstCreator(table, config, rb', nodes[b])
      && (ra' == rb' ==> |nodes[a].id| < |nodes[b].id|);
    FirstCreatorUnique(table, config, ra, ra', nodes[a]);
    FirstCreatorUnique(table, config, rb, rb', nodes[b]);
  }

  /**
    `buildOrgChartData`: the built node list with both counts filled in by
    the subordinate pass.
   */
  method BuildOrgChartData(table: Table, config: PluginConfig) returns (out: seq<Node>)
    ensures !HasRequiredColumns(table, config) ==> out == []
    ensures |out| == |BuildNodes(table, config)|
    ensures forall k | 0 <= k < |out| ::
      var nodes := BuildNodes(table, config);
      out[k] == nodes[k].(directSubordinates := |ChildSet(nodes, nodes[k].id)|,
                          totalSubordinates := |Desc(nodes, k)|)
  {
    var nodes := BuildNodes(table, config);
    out := CalculateSubordinateCounts(nodes);
  }

  /** With separator-free level strings, a path determines the levels it joins. */
  lemma PathKeyInjective(c1: seq<string>, j1: nat, c2: seq<string>, j2: nat)
    requires j1 < |c1| && j2 < |c2|
    requires forall i | 0 <= i < |c1| :: PathSeparator !in c1[i]
    requires forall i | 0 <= i < |c2| :: PathSeparator !in c2[i]
    requires PathKey(c1, j1) == PathKey(c2, j2)
    ensures c1[..j1 + 1] == c2[..j2 + 1]
  {
    JoinInjective(c1[..j1 + 1], c2[..j2 + 1], PathSeparator);
  }

  /** Without that condition paths collide: a one-level chain `a|b` and the chain `a`, `b` share an id. */
  lemma PathKeyCollision()
    ensures PathKey(["a|b"], 0) == PathKey(["a", "b"], 1)
  {
    assert ["a", "b"][..2] == ["a", "b"];
    assert ["a", "b"][1..] == ["b"];
  }

  /**
    A node counts as a root exactly when it sits at level 0 or every level
    before it failed to parse; in the second case its `parentId` is "".
   */
  lemma RootWhenNoParentParsed(chain: seq<string>, parsed: seq<Option<ParsedLevel>>, fullName: string, j: nat)
    requires |parsed| == |chain| && j < |chain| && parsed[j].Some? && chain[0] != ""
    ensures ParentKey(ExpectedNode(chain, parsed, fullName, j)).None? <==>
      (j == 0 || forall m | 0 <= m < j :: parsed[m].None?)
    ensures j > 0 && (forall m | 0 <= m < j :: parsed[m].None?) ==>
      ExpectedNode(chain, parsed, fullName, j).parentId == Some("")
  {
    match LastResolved(parsed, j)
    case None =>
    case Some(m) => PathKeyNonEmpty(chain, m);
  }
}
