/**
  The shapes the org-chart transform works on: the parsed form of one
  encoded level string, the chart node, the plugin's column configuration
  and the columnar table handed over by the host.
 */
module OrgTypes {
  import opened Basics

  /** The fields extracted from `Name (UnitCode)-LeafCode`; `raw` is the whole input. */
  datatype ParsedLevel = ParsedLevel(name: string, businessUnitCode: string, beblCode: string, raw: string)

  /**
    One chart node. `parentId` is `None` for a level-0 node and may be `Some("")`
    when every shallower level of the row failed to parse. The two counts are
    zero until the subordinate pass fills them in.
   */
  datatype Node = Node(
    id: string,
    parentId: Option<string>,
    name: string,
    businessUnit: string,
    beblCode: string,
    businessUnitCode: string,
    directSubordinates: nat,
    totalSubordinates: nat)

  /**
    Column mapping of the plugin. `level0` is mandatory; `deeperLevels` holds the
    optional level1, level2, ... column names in order, `None` when unset.
   */
  datatype PluginConfig = PluginConfig(
    beblFullName: string,
    businessUnitId: string,
    level0: string,
    deeperLevels: seq<Option<string>>)

  /** A table cell: a string, or `None` for `null`/`undefined`. */
  type Cell = Option<string>

  /** Columnar data: column name to that column's cells, one per row. */
  type Table = map<string, seq<Cell>>

  /** The level columns in order, level 0 first. */
  function LevelColumns(config: PluginConfig): (cols: seq<Option<string>>)
    ensures |cols| == |config.deeperLevels| + 1
    ensures cols[0] == Some(config.level0)
  {
    [Some(config.level0)] + config.deeperLevels
  }

  /** The cell of column `col` at `row`; reading past the end of a column gives `undefined`. */
  function CellAt(table: Table, col: string, row: nat): Cell
    requires col in table
  {
    if row < |table[col]| then table[col][row] else None
  }

  /** JavaScript truthiness of a cell: present and not the empty string. */
  predicate Truthy(c: Cell) {
    c.Some? && c.value != ""
  }

  /** The parent a node's counts refer to: its `parentId` when that is truthy. */
  function ParentKey(n: Node): Option<string> {
    if n.parentId.Some? && n.parentId.value != "" then n.parentId else None
  }
}
