/**
  The subordinate-count pass of `src/utils/dataTransform.ts`
  (`calculateSubordinateCounts` and `calculateTotalSubordinates`): a
  children map keyed by truthy `parentId`, the direct count as the length of
  a node's child list, and the total count by recursion over that map.

  The recursion terminates because, in a well-formed node list (distinct ids,
  every truthy parent listed earlier), a child always sits later in the list
  than its parent. The total is proved equal to the number of transitive
  descendants, defined independently by following `parentId` links.
 */
module Subordinates {
  import opened Basics
  import opened OrgTypes

  /** Node ids are pairwise distinct. */
  predicate DistinctIds(nodes: seq<Node>) {
    forall i, j | 0 <= i < j < |nodes| :: nodes[i].id != nodes[j].id
  }

  /** Every truthy `parentId` names a node listed before the child. */
  predicate ParentsEarlier(nodes: seq<Node>) {
    forall k | 0 <= k < |nodes| && ParentKey(nodes[k]).Some? ::
      exists i | 0 <= i < k :: nodes[i].id == ParentKey(nodes[k]).value
  }

  /** The shape the tree builder produces and the count pass relies on. */
  predicate WellFormed(nodes: seq<Node>) {
    DistinctIds(nodes) && ParentsEarlier(nodes)
  }

  /** Reference definition: ids of the nodes whose truthy `parentId` is `id`, in list order. */
  function ChildIds(nodes: seq<Node>, id: string): seq<string>
  {
    if |nodes| == 0 then []
    else
      var last := nodes[|nodes| - 1];
      ChildIds(nodes[..|nodes| - 1], id) + (if ParentKey(last) == Some(id) then [last.id] else [])
  }

  /** `childrenMap.get(id) || []`. */
  function Lookup(cm: map<string, seq<string>>, id: string): seq<string> {
    if id in cm then cm[id] else []
  }

  /** `cm` is the children map of `nodes`: each id maps to its child list, and only ids with children are keys. */
  ghost predicate ChildrenMapOf(cm: map<string, seq<string>>, nodes: seq<Node>) {
    && (forall id :: Lookup(cm, id) == ChildIds(nodes, id))
    && (forall id | id in cm :: cm[id] != [])
  }

  /** The first loop of `calculateSubordinateCounts`: group node ids by truthy `parentId`. */
  method BuildChildrenMap(nodes: seq<Node>) returns (cm: map<string, seq<string>>)
    ensures ChildrenMapOf(cm, nodes)
  {
    cm := map[];
    for i := 0 to |nodes|
      invariant ChildrenMapOf(cm, nodes[..i])
    {
      var n := nodes[i];
      assert nodes[..i + 1][..i] == nodes[..i];
      if n.parentId.Some? && n.parentId.value != "" {
        var p := n.parentId.value;
        if p !in cm {
          cm := cm[p := []];
        }
        cm := cm[p := cm[p] + [n.id]];
      }
    }
    assert nodes[..|nodes|] == nodes;
  }

  /** Position of the first node with this id, or `|nodes|` if there is none. */
  ghost function IndexOfId(nodes: seq<Node>, id: string): (r: nat)
    ensures r <= |nodes|
    ensures r < |nodes| ==> nodes[r].id == id
    ensures forall i | 0 <= i < r :: nodes[i].id != id
  {
    if |nodes| == 0 then 0
    else if nodes[0].id == id then 0
    else 1 + IndexOfId(nodes[1..], id)
  }

  /** Termination measure of the total-count recursion: nodes later in the list rank lower. */
  ghost function Rank(nodes: seq<Node>, id: string): nat {
    |nodes| - IndexOfId(nodes, id)
  }

  /** The members of `ChildIds` are exactly the ids of the nodes whose truthy parent is `id`. */
  lemma {:induction false} ChildIdsMembers(nodes: seq<Node>, id: string, x: string)
    ensures x in ChildIds(nodes, id) <==>
      exists k | 0 <= k < |nodes| :: nodes[k].id == x && ParentKey(nodes[k]) == Some(id)
    decreases |nodes|
  {
    if |nodes| > 0 {
      var init := nodes[..|nodes| - 1];
      ChildIdsMembers(init, id, x);
      assert forall k | 0 <= k < |init| :: init[k] == nodes[k];
    }
  }

  /** With distinct node ids, a child list lists no id twice. */
  lemma {:induction false} ChildIdsDistinct(nodes: seq<Node>, id: string)
    requires DistinctIds(nodes)
    ensures forall a, b | 0 <= a < b < |ChildIds(nodes, id)| :: ChildIds(nodes, id)[a] != ChildIds(nodes, id)[b]
    decreases |nodes|
  {
    if |nodes| > 0 {
      var init := nodes[..|nodes| - 1];
      var last := nodes[|nodes| - 1];
      ChildIdsDistinct(init, id);
      ChildIdsMembers(init, id, last.id);
      assert forall k | 0 <= k < |init| :: init[k] == nodes[k];
    }
  }

  /** Node `m` is the parent of node `k` by truthy `parentId`. */
  ghost predicate IsParent(nodes: seq<Node>, m: int, k: int) {
    0 <= m < |nodes| && 0 <= k < |nodes| && ParentKey(nodes[k]) == Some(nodes[m].id)
  }

  /** Node `k` is a proper descendant of node `j`: `j` is reached from `k` by following parent links. */
  ghost predicate Descends(nodes: seq<Node>, k: int, j: int)
    decreases k
  {
    0 <= k < |nodes| &&
    exists m | 0 <= m < k :: IsParent(nodes, m, k) && (m == j || Descends(nodes, m, j))
  }

  /** Positions of the transitive descendants of node `j`. */
  ghost function Desc(nodes: seq<Node>, j: int): set<int> {
    set k | 0 <= k < |nodes| && Descends(nodes, k, j)
  }

  /** Node `k` together with its descendants. */
  ghost function Sub(nodes: seq<Node>, k: int): set<int> {
    {k} + Desc(nodes, k)
  }

  lemma ParentBefore(nodes: seq<Node>, m: int, k: int)
    requires WellFormed(nodes)
    ensures IsParent(nodes, m, k) ==> m < k
  {
    if IsParent(nodes, m, k) {
      var i :| 0 <= i < k && nodes[i].id == ParentKey(nodes[k]).value;
      assert nodes[i].id == nodes[m].id;
    }
  }

  lemma {:induction false} DescendsLater(nodes: seq<Node>, k: int, j: int)
    ensures Descends(nodes, k, j) ==> j < k
    decreases k
  {
    if Descends(nodes, k, j) {
      var m :| 0 <= m < k && IsParent(nodes, m, k) && (m == j || Descends(nodes, m, j));
      DescendsLater(nodes, m, j);
    }
  }

  /** A descendant of a child is a descendant. */
  lemma {:induction false} DescendsThroughChild(nodes: seq<Node>, k: int, c: int, j: int)
    requires WellFormed(nodes)
    requires IsParent(nodes, j, c)
    ensures (k == c || Descends(nodes, k, c)) ==> Descends(nodes, k, j)
    decreases k
  {
    ParentBefore(nodes, j, c);
    if Descends(nodes, k, c) {
      var m :| 0 <= m < k && IsParent(nodes, m, k) && (m == c || Descends(nodes, m, c));
      DescendsThroughChild(nodes, m, c, j);
    }
  }

  /** A descendant of `j` lies under exactly one of `j`'s children (existence part). */
  lemma {:induction false} DescendsViaChild(nodes: seq<Node>, k: int, j: int)
    requires WellFormed(nodes)
    ensures Descends(nodes, k, j) ==> exists c :: IsParent(nodes, j, c) && (k == c || Descends(nodes, k, c))
    decreases k
  {
    if Descends(nodes, k, j) {
      var m :| 0 <= m < k && IsParent(nodes, m, k) && (m == j || Descends(nodes, m, j));
      if m != j {
        DescendsViaChild(nodes, m, j);
        var c :| IsParent(nodes, j, c) && (m == c || Descends(nodes, m, c));
        assert Descends(nodes, k, c);
      }
    }
  }

  /** The ancestors of a node form a chain: two of them are equal or one descends from the other. */
  lemma {:induction false} AncestorsLinear(nodes: seq<Node>, k: int, a: int, b: int)
    requires WellFormed(nodes)
    ensures (k == a || Descends(nodes, k, a)) && (k == b || Descends(nodes, k, b)) ==>
      a == b || Descends(nodes, a, b) || Descends(nodes, b, a)
    decreases k
  {
    if Descends(nodes, k, a) && Descends(nodes, k, b) {
      var ma :| 0 <= ma < k && IsParent(nodes, ma, k) && (ma == a || Descends(nodes, ma, a));
      var mb :| 0 <= mb < k && IsParent(nodes, mb, k) && (mb == b || Descends(nodes, mb, b));
      SameParent(nodes, ma, mb, k);
      AncestorsLinear(nodes, ma, a, b);
    }
  }

  /** A node has at most one parent position, since ids are distinct. */
  lemma SameParent(nodes: seq<Node>, m1: int, m2: int, k: int)
    requires WellFormed(nodes)
    requires IsParent(nodes, m1, k) && IsParent(nodes, m2, k)
    ensures m1 == m2
  {
    assert nodes[m1].id == nodes[m2].id;
  }

  /** A sibling never descends from another sibling. */
  lemma SiblingNotDescendant(nodes: seq<Node>, j: int, c1: int, c2: int)
    requires WellFormed(nodes)
    requires IsParent(nodes, j, c1) && IsParent(nodes, j, c2)
    ensures !Descends(nodes, c1, c2)
  {
    ParentBefore(nodes, j, c2);
    DescendsLater(nodes, j, c2);
    forall m | 0 <= m < c1 && IsParent(nodes, m, c1)
      ensures m == j
    {
      assert nodes[m].id == nodes[j].id;
    }
  }

  /** The subtrees of two different children are disjoint. */
  lemma SiblingSubtreesDisjoint(nodes: seq<Node>, j: int, c1: int, c2: int)
    requires WellFormed(nodes)
    requires IsParent(nodes, j, c1) && IsParent(nodes, j, c2) && c1 != c2
    ensures Sub(nodes, c1) !! Sub(nodes, c2)
  {
    SiblingNotDescendant(nodes, j, c1, c2);
    SiblingNotDescendant(nodes, j, c2, c1);
    forall k | k in Sub(nodes, c1)
      ensures k !in Sub(nodes, c2)
    {
      AncestorsLinear(nodes, k, c1, c2);
    }
  }

  /** A node is not its own descendant, so its subtree has one more element than its descendant set. */
  lemma SubSize(nodes: seq<Node>, k: int)
    ensures |Sub(nodes, k)| == 1 + |Desc(nodes, k)|
  {
    DescendsLater(nodes, k, k);
  }

  /** The union of the subtrees of the nodes with the given ids. */
  ghost function UnionSubs(nodes: seq<Node>, ch: seq<string>): set<int> {
    if ch == [] then {} else Sub(nodes, IndexOfId(nodes, ch[0])) + UnionSubs(nodes, ch[1..])
  }

  lemma {:induction false} UnionSubsMembers(nodes: seq<Node>, ch: seq<string>, x: int)
    ensures x in UnionSubs(nodes, ch) <==> exists i | 0 <= i < |ch| :: x in Sub(nodes, IndexOfId(nodes, ch[i]))
    decreases |ch|
  {
    if ch != [] {
      UnionSubsMembers(nodes, ch[1..], x);
      assert forall i | 1 <= i < |ch| :: ch[1..][i - 1] == ch[i];
    }
  }

  /** A child id sits at the position of a child of the parent's node, later in the list. */
  lemma ChildPosition(nodes: seq<Node>, j: int, c: string)
    requires WellFormed(nodes) && 0 <= j < |nodes|
    requires c in ChildIds(nodes, nodes[j].id)
    ensures IndexOfId(nodes, c) < |nodes|
    ensures IsParent(nodes, j, IndexOfId(nodes, c))
    ensures j < IndexOfId(nodes, c)
  {
    ChildIdsMembers(nodes, nodes[j].id, c);
    var k :| 0 <= k < |nodes| && nodes[k].id == c && ParentKey(nodes[k]) == Some(nodes[j].id);
    assert IndexOfId(nodes, c) == k;
    ParentBefore(nodes, j, k);
  }

  /** A child's id ranks below its parent's, which makes the count recursion terminate. */
  lemma ChildRankSmaller(nodes: seq<Node>, parent: string, c: string)
    requires WellFormed(nodes)
    requires c in ChildIds(nodes, parent)
    ensures Rank(nodes, c) < Rank(nodes, parent)
  {
    ChildIdsMembers(nodes, parent, c);
    var k :| 0 <= k < |nodes| && nodes[k].id == c && ParentKey(nodes[k]) == Some(parent);
    var i :| 0 <= i < k && nodes[i].id == parent;
    assert IndexOfId(nodes, c) == k;
  }

  /** `calculateTotalSubordinates(id, childrenMap)`: the number of children plus their totals. */
  function TotalSubordinates(nodes: seq<Node>, cm: map<string, seq<string>>, id: string): (r: nat)
    requires WellFormed(nodes) && ChildrenMapOf(cm, nodes)
    ensures r >= |Lookup(cm, id)|
    decreases Rank(nodes, id), 1
  {
    var children := Lookup(cm, id);
    |children| + SumTotals(nodes, cm, id, children)
  }

  /** The loop `for (const childId of children) count += calculateTotalSubordinates(childId, ...)`. */
  function SumTotals(nodes: seq<Node>, cm: map<string, seq<string>>, parent: string, children: seq<string>): (r: nat)
    requires WellFormed(nodes) && ChildrenMapOf(cm, nodes)
    requires forall c | c in children :: c in ChildIds(nodes, parent)
    ensures children == [] ==> r == 0
    decreases Rank(nodes, parent), 0, |children|
  {
    if children == [] then 0
    else
      ChildRankSmaller(nodes, parent, children[0]);
      TotalSubordinates(nodes, cm, children[0]) + SumTotals(nodes, cm, parent, children[1..])
  }

  /** The total subordinate count of a node is the number of its transitive descendants. */
  lemma {:induction false} TotalIsDescendantCount(nodes: seq<Node>, cm: map<string, seq<string>>, j: int)
    requires WellFormed(nodes) && ChildrenMapOf(cm, nodes)
    requires 0 <= j < |nodes|
    ensures TotalSubordinates(nodes, cm, nodes[j].id) == |Desc(nodes, j)|
    decreases |nodes| - j, 1
  {
    var id := nodes[j].id;
    var ch := ChildIds(nodes, id);
    assert TotalSubordinates(nodes, cm, id) == |ch| + SumTotals(nodes, cm, id, ch) by {
      assert Lookup(cm, id) == ch;
    }
    ChildIdsDistinct(nodes, id);
    SumTotalsIsSubtreeCount(nodes, cm, j, ch);
    DescendantsUnderChildren(nodes, j);
    ChildrenSubtreesAreDescendants(nodes, j);
    assert UnionSubs(nodes, ch) == Desc(nodes, j);
  }

  lemma DescendantsUnderChildren(nodes: seq<Node>, j: int)
    requires WellFormed(nodes) && 0 <= j < |nodes|
    ensures Desc(nodes, j) <= UnionSubs(nodes, ChildIds(nodes, nodes[j].id))
  {
    var id := nodes[j].id;
    var ch := ChildIds(nodes, id);
    forall x | x in Desc(nodes, j)
      ensures x in UnionSubs(nodes, ch)
    {
      DescendsViaChild(nodes, x, j);
      var c :| IsParent(nodes, j, c) && (x == c || Descends(nodes, x, c));
      ChildIdsMembers(nodes, id, nodes[c].id);
      var i :| 0 <= i < |ch| && ch[i] == nodes[c].id;
      assert IndexOfId(nodes, ch[i]) == c;
      UnionSubsMembers(nodes, ch, x);
    }
  }

  lemma ChildrenSubtreesAreDescendants(nodes: seq<Node>, j: int)
    requires WellFormed(nodes) && 0 <= j < |nodes|
    ensures UnionSubs(nodes, ChildIds(nodes, nodes[j].id)) <= Desc(nodes, j)
  {
    var ch := ChildIds(nodes, nodes[j].id);
    forall x | x in UnionSubs(nodes, ch)
      ensures x in Desc(nodes, j)
    {
      UnderChildDescends(nodes, j, x);
    }
  }

  /** A node in the subtree of one of `j`'s children descends from `j`. */
  lemma UnderChildDescends(nodes: seq<Node>, j: int, x: int)
    requires WellFormed(nodes) && 0 <= j < |nodes|
    requires x in UnionSubs(nodes, ChildIds(nodes, nodes[j].id))
    ensures Descends(nodes, x, j)
  {
    var ch := ChildIds(nodes, nodes[j].id);
    UnionSubsMembers(nodes, ch, x);
    var i :| 0 <= i < |ch| && x in Sub(nodes, IndexOfId(nodes, ch[i]));
    ChildPosition(nodes, j, ch[i]);
    DescendsThroughChild(nodes, x, IndexOfId(nodes, ch[i]), j);
  }

  /** Over a list of distinct children, the count plus the children's totals is the size of their joint subtrees. */
  lemma {:induction false} SumTotalsIsSubtreeCount(nodes: seq<Node>, cm: map<string, seq<string>>, j: int, ch: seq<string>)
    requires WellFormed(nodes) && ChildrenMapOf(cm, nodes)
    requires 0 <= j < |nodes|
    requires forall c | c in ch :: c in ChildIds(nodes, nodes[j].id)
    requires forall a, b | 0 <= a < b < |ch| :: ch[a] != ch[b]
    ensures |ch| + SumTotals(nodes, cm, nodes[j].id, ch) == |UnionSubs(nodes, ch)|
    decreases |nodes| - j, 0, |ch|
  {
    if ch != [] {
      var c := ch[0];
      var rest := ch[1..];
      ChildPosition(nodes, j, c);
      var k := IndexOfId(nodes, c);
      TotalIsDescendantCount(nodes, cm, k);
      SubSize(nodes, k);
      SumTotalsIsSubtreeCount(nodes, cm, j, rest);
      FirstSubtreeDisjoint(nodes, j, ch);
    }
  }

  /** The subtree of the first of several distinct children shares nothing with the others' subtrees. */
  lemma FirstSubtreeDisjoint(nodes: seq<Node>, j: int, ch: seq<string>)
    requires WellFormed(nodes) && 0 <= j < |nodes| && ch != []
    requires forall c | c in ch :: c in ChildIds(nodes, nodes[j].id)
    requires forall a, b | 0 <= a < b < |ch| :: ch[a] != ch[b]
    ensures Sub(nodes, IndexOfId(nodes, ch[0])) !! UnionSubs(nodes, ch[1..])
  {
    var rest := ch[1..];
    var k := IndexOfId(nodes, ch[0]);
    ChildPosition(nodes, j, ch[0]);
    forall x | x in UnionSubs(nodes, rest)
      ensures x !in Sub(nodes, k)
    {
      UnionSubsMembers(nodes, rest, x);
      var i :| 0 <= i < |rest| && x in Sub(nodes, IndexOfId(nodes, rest[i]));
      ChildPosition(nodes, j, rest[i]);
      assert rest[i] == ch[i + 1];
      SiblingSubtreesDisjoint(nodes, j, k, IndexOfId(nodes, rest[i]));
    }
  }

  /** Positions of the nodes whose truthy `parentId` is `id`. */
  ghost function ChildSet(nodes: seq<Node>, id: string): set<int> {
    set k | 0 <= k < |nodes| && ParentKey(nodes[k]) == Some(id)
  }

  /** The child list has one entry per node whose truthy `parentId` is `id`. */
  lemma {:induction false} ChildIdsCount(nodes: seq<Node>, id: string)
    ensures |ChildIds(nodes, id)| == |ChildSet(nodes, id)|
    decreases |nodes|
  {
    if |nodes| > 0 {
      var n := |nodes| - 1;
      var init := nodes[..n];
      ChildIdsCount(init, id);
      assert forall k | 0 <= k < n :: init[k] == nodes[k];
      if ParentKey(nodes[n]) == Some(id) {
        assert ChildSet(nodes, id) == ChildSet(init, id) + {n};
      } else {
        assert ChildSet(nodes, id) == ChildSet(init, id);
      }
    }
  }

  /**
    `calculateSubordinateCounts(nodes)`: every node gets the number of nodes
    whose truthy `parentId` is its id, and the number of its transitive
    descendants; nothing else about the node changes.
   */
  method CalculateSubordinateCounts(nodes: seq<Node>) returns (out: seq<Node>)
    requires WellFormed(nodes)
    ensures |out| == |nodes|
    ensures forall j | 0 <= j < |nodes| ::
      out[j] == nodes[j].(directSubordinates := |ChildSet(nodes, nodes[j].id)|,
                          totalSubordinates := |Desc(nodes, j)|)
  {
    var cm := BuildChildrenMap(nodes);
    out := [];
    for j := 0 to |nodes|
      invariant |out| == j
      invariant forall i | 0 <= i < j :: out[i] == WithCounts(nodes, i)
    {
      var n := nodes[j];
      var children := Lookup(cm, n.id);
      var total := TotalSubordinates(nodes, cm, n.id);
      NodeCounts(nodes, cm, j);
      var counted := n.(directSubordinates := |children|, totalSubordinates := total);
      assert counted == WithCounts(nodes, j);
      out := out + [counted];
    }
  }

  /** Node `j` with its direct and total counts filled in. */
  ghost function WithCounts(nodes: seq<Node>, j: int): Node
    requires 0 <= j < |nodes|
  {
    nodes[j].(directSubordinates := |ChildSet(nodes, nodes[j].id)|, totalSubordinates := |Desc(nodes, j)|)
  }

  /** The two counts the loop computes for node `j`. */
  lemma NodeCounts(nodes: seq<Node>, cm: map<string, seq<string>>, j: int)
    requires WellFormed(nodes) && ChildrenMapOf(cm, nodes)
    requires 0 <= j < |nodes|
    ensures |Lookup(cm, nodes[j].id)| == |ChildSet(nodes, nodes[j].id)|
    ensures TotalSubordinates(nodes, cm, nodes[j].id) == |Desc(nodes, j)|
  {
    TotalIsDescendantCount(nodes, cm, j);
    ChildIdsCount(nodes, nodes[j].id);
    assert Lookup(cm, nodes[j].id) == ChildIds(nodes, nodes[j].id);
  }
}
