/** What the rows and totals of the size tree mean for paths: which paths have a row and a total of their
    own, and that what lies below a row is what lies below its children. */
module TreemapPaths {
  import opened Treemap
  import opened TreeKeys

  // ----- Rows and paths -----

  ghost function InnerRows(rows: seq<Row>): set<nat> {
    set i: nat | i < |rows| && IsInner(rows, i)
  }

  ghost function KeyAt(rows: seq<Row>, i: nat): string {
    if IsInner(rows, i) then rows[i].key else ""
  }

  ghost function KeysAt(rows: seq<Row>, at: set<nat>): set<string> {
    set i | i in at :: KeyAt(rows, i)
  }

  lemma {:induction false} AsManyKeysAsRows(rows: seq<Row>, at: set<nat>)
    requires forall i, j :: i in at && j in at && KeyAt(rows, i) == KeyAt(rows, j) ==> i == j
    ensures |KeysAt(rows, at)| == |at|
    decreases at
  {
    if at != {} {
      var i :| i in at;
      AsManyKeysAsRows(rows, at - {i});
      assert KeysAt(rows, at) == KeysAt(rows, at - {i}) + {KeyAt(rows, i)};
      assert KeyAt(rows, i) !in KeysAt(rows, at - {i});
    }
  }

  lemma OneRowPerKey(sep: string, keys: set<string>, rows: seq<Row>)
    requires RowsAre(sep, keys, rows)
    ensures |InnerRows(rows)| == |keys|
  {
    var at := InnerRows(rows);
    AsManyKeysAsRows(rows, at);
    forall k
      ensures k in keys <==> k in KeysAt(rows, at)
    {
      if k in keys {
        var i :| InnerAt(rows, i, sep, k);
        assert IsInner(rows, i) && i in at && KeyAt(rows, i) == k;
      }
    }
    assert keys == KeysAt(rows, at);
  }

  /** There are as many inner rows as inner paths exactly if different inner paths have different keys. */
  lemma OneRowPerPathExactly(s: Settings, items: seq<Item>, rows: seq<Row>, totals: map<string, nat>)
    requires IsTreemap(s, items, rows, totals)
    ensures |InnerRows(rows)| == |InnerPaths(items)| <==> KeysDistinguish(s.sep, items)
  {
    OneRowPerKey(s.sep, totals.Keys, rows);
    KeysDistinguishExactly(s.sep, items, totals.Keys);
  }

  /** A path's total is the sum of the sizes of the items below the path exactly if no item of any size is
      below another path with the same key instead. */
  lemma TotalOfPathExactly(s: Settings, items: seq<Item>, rows: seq<Row>, totals: map<string, nat>, p: seq<string>)
    requires IsTreemap(s, items, rows, totals) && IsInnerPath(items, p)
    ensures Join(s.sep, p) in totals
    ensures totals[Join(s.sep, p)] == PathTotal(items, p) <==>
            forall n :: 0 <= n < |items| && IsStray(s.sep, items[n], p) ==> items[n].size == 0
  {
    var n :| 0 <= n < |items| && p < items[n].tree;
    BelowPath(s.sep, items[n], p);
    assert SomeBelow(s.sep, items, Join(s.sep, p));
    PathTotalExactly(s.sep, items, p);
  }

  /** An inner row is the row of an inner path. */
  lemma PathOfRow(s: Settings, items: seq<Item>, row: Row) returns (q: seq<string>)
    requires row.Inner? && IsPlaced(s, items, row)
    ensures IsInnerPath(items, q) && IsPathRow(s, row, q)
  {
    var n: nat, j: nat :| PlacedBy(s, items, row, n, j);
    q := items[n].tree[..j];
    assert q < items[n].tree;
  }

  /** When different inner paths have different keys, each inner path has exactly one row, under the row of
      the path less its last component, and its total is the sum of the sizes of the items that have it as
      a proper prefix. */
  lemma RowOfPath(s: Settings, items: seq<Item>, rows: seq<Row>, totals: map<string, nat>, p: seq<string>)
    returns (i: nat)
    requires IsTreemap(s, items, rows, totals) && KeysDistinguish(s.sep, items) && IsInnerPath(items, p)
    ensures IsInner(rows, i) && IsPathRow(s, rows[i], p)
    ensures forall j: nat {:trigger IsInner(rows, j)} :: IsInner(rows, j) && IsPathRow(s, rows[j], p) ==> j == i
    ensures Join(s.sep, p) in totals && totals[Join(s.sep, p)] == PathTotal(items, p)
  {
    TotalOfPathExactly(s, items, rows, totals, p);
    TotalOfPath(s.sep, items, p);
    i := RowOfKey(s.sep, totals.Keys, rows, Join(s.sep, p));
    var q := PathOfRow(s, items, rows[i]);
  }

  lemma RowOfKey(sep: string, keys: set<string>, rows: seq<Row>, key: string) returns (i: nat)
    requires RowsAre(sep, keys, rows) && key in keys
    ensures IsInner(rows, i) && rows[i].key == key
    ensures forall j: nat {:trigger IsInner(rows, j)} :: IsInner(rows, j) && rows[j].key == key ==> j == i
  {
    i :| InnerAt(rows, i, sep, key);
    assert IsInner(rows, i);
  }

  /** Word for word: an inner path's row has its key, a separator in front of it as its id, likewise that of the
      path above as its parent, or the root, and its last component as its short name. */
  lemma RowWords(s: Settings, row: Row, p: seq<string>)
    requires IsPathRow(s, row, p)
    ensures row == Inner(Join(s.sep, p), s.sep + Join(s.sep, p),
                         if |p| == 1 then s.root else s.sep + Join(s.sep, p[..|p| - 1]), p[|p| - 1])
  {
  }

  /** And leaf number `n` has the symbol's name as its id, its size, its last component as its short name, and the
      row above as its parent, or the root. */
  lemma LeafWords(s: Settings, items: seq<Item>, rows: seq<Row>, totals: map<string, nat>, n: nat)
    requires IsTreemap(s, items, rows, totals) && n < |items|
    ensures n < |Leaves(rows)| == |items| && |items[n].tree| > 0
    ensures var tree := items[n].tree;
            Leaves(rows)[n] == Leaf(items[n].name,
                                    if |tree| == 1 then s.root else s.sep + Join(s.sep, tree[..|tree| - 1]),
                                    items[n].size, tree[|tree| - 1])
  {
  }

  // ----- Totals and children -----

  /** The totals of the inner rows and the sizes of the leaves under an id. */
  ghost function ChildSum(rows: seq<Row>, totals: map<string, nat>, id: string): nat {
    if rows == [] then 0
    else
      var n := |rows| - 1;
      ChildSum(rows[..n], totals, id) +
      match rows[n]
      case Root(_) => 0
      case Inner(key, _, parent, _) => if parent == id && key in totals then totals[key] else 0
      case Leaf(_, parent, size, _) => if parent == id then size else 0
  }

  ghost function InnerSum(rows: seq<Row>, sep: string, items: seq<Item>, id: string): nat {
    if rows == [] then 0
    else
      var n := |rows| - 1;
      InnerSum(rows[..n], sep, items, id) +
      if rows[n].Inner? && rows[n].parent == id then TotalBelow(sep, items, rows[n].key) else 0
  }

  ghost function LeafSum(leaves: seq<Row>, id: string): nat {
    if leaves == [] then 0
    else
      var n := |leaves| - 1;
      LeafSum(leaves[..n], id) + if leaves[n].Leaf? && leaves[n].parent == id then leaves[n].size else 0
  }

  lemma {:induction false} ChildSumSplits(rows: seq<Row>, totals: map<string, nat>, sep: string, items: seq<Item>,
                                          id: string)
    requires forall i :: 0 <= i < |rows| && rows[i].Inner? ==>
      rows[i].key in totals && totals[rows[i].key] == TotalBelow(sep, items, rows[i].key)
    ensures ChildSum(rows, totals, id) == InnerSum(rows, sep, items, id) + LeafSum(Leaves(rows), id)
  {
    if rows != [] {
      var n := |rows| - 1;
      ChildSumSplits(rows[..n], totals, sep, items, id);
      if rows[n].Leaf? {
        assert Leaves(rows)[..|Leaves(rows[..n])|] == Leaves(rows[..n]);
      } else {
        assert Leaves(rows) == Leaves(rows[..n]) + [] == Leaves(rows[..n]);
      }
    }
  }

  // ----- The inner rows' share of an item -----

  ghost predicate TakesIn(row: Row, sep: string, x: Item, id: string) {
    row.Inner? && row.parent == id && LiesBelow(sep, x, row.key)
  }

  /** What one item contributes to the totals of the inner rows under an id. */
  ghost function Share(rows: seq<Row>, sep: string, x: Item, id: string): nat {
    if rows == [] then 0
    else
      var n := |rows| - 1;
      Share(rows[..n], sep, x, id) + if TakesIn(rows[n], sep, x, id) then x.size else 0
  }

  lemma {:induction false} InnerSumMore(rows: seq<Row>, sep: string, items: seq<Item>, x: Item, id: string)
    ensures InnerSum(rows, sep, items + [x], id) == InnerSum(rows, sep, items, id) + Share(rows, sep, x, id)
  {
    if rows != [] {
      InnerSumMore(rows[..|rows| - 1], sep, items, x, id);
      OneMoreBelow(sep, items, x, if rows[|rows| - 1].Inner? then rows[|rows| - 1].key else "");
    }
  }

  lemma {:induction false} InnerSumNone(rows: seq<Row>, sep: string, id: string)
    ensures InnerSum(rows, sep, [], id) == 0
  {
    if rows != [] {
      InnerSumNone(rows[..|rows| - 1], sep, id);
    }
  }

  /** The share is the item's size if exactly one row takes it in, and nothing if none does. */
  lemma {:induction false} ShareOfOne(rows: seq<Row>, sep: string, x: Item, id: string)
    requires forall i, j :: 0 <= i < j < |rows| && TakesIn(rows[i], sep, x, id) ==> !TakesIn(rows[j], sep, x, id)
    ensures Share(rows, sep, x, id) == if exists i :: 0 <= i < |rows| && TakesIn(rows[i], sep, x, id) then x.size else 0
  {
    if rows != [] {
      var n := |rows| - 1;
      ShareOfOne(rows[..n], sep, x, id);
      assert forall i :: 0 <= i < n ==> rows[..n][i] == rows[i];
      if i :| 0 <= i < n && TakesIn(rows[..n][i], sep, x, id) {
        assert TakesIn(rows[i], sep, x, id);
      }
    }
  }

  // ----- Ids -----

  /** The root, or an inner path. */
  ghost predicate IsNode(items: seq<Item>, p: seq<string>) {
    p == [] || IsInnerPath(items, p)
  }

  lemma AboveIsNode(items: seq<Item>, n: nat, p: seq<string>)
    requires n < |items| && p < items[n].tree
    ensures IsNode(items, p)
  {
  }

  lemma ParentIsNode(items: seq<Item>, q: seq<string>)
    requires IsInnerPath(items, q)
    ensures IsNode(items, q[..|q| - 1])
  {
    var n :| 0 <= n < |items| && q < items[n].tree;
    AboveIsNode(items, n, q[..|q| - 1]);
  }

  lemma IdsDistinguish(s: Settings, items: seq<Item>, p: seq<string>, q: seq<string>)
    requires KeysDistinguish(s.sep, items) && !(s.sep <= s.root) && IsNode(items, p) && IsNode(items, q)
    requires IdOf(s, p) == IdOf(s, q)
    ensures p == q
  {
    if p != [] && q != [] {
      assert IdOf(s, p)[|s.sep|..] == Join(s.sep, p) && IdOf(s, q)[|s.sep|..] == Join(s.sep, q);
    }
  }

  // ----- Conservation -----

  ghost predicate IsGood(s: Settings, items: seq<Item>, rows: seq<Row>, totals: map<string, nat>) {
    IsTreemap(s, items, rows, totals) && KeysDistinguish(s.sep, items) && !(s.sep <= s.root)
  }

  lemma OneLonger(tree: seq<string>, p: seq<string>, q: seq<string>)
    requires q != []
    ensures q < tree && q[..|q| - 1] == p <==> p < tree && |p| + 1 < |tree| && q == tree[..|p| + 1]
  {
    if q < tree {
      assert q == tree[..|q|];
    }
    if |p| + 1 <= |tree| && q == tree[..|p| + 1] {
      assert q[..|q| - 1] == tree[..|p|];
    }
  }

  lemma TakesInPath(s: Settings, items: seq<Item>, p: seq<string>, n: nat, row: Row, q: seq<string>)
    requires KeysDistinguish(s.sep, items) && !(s.sep <= s.root) && IsNode(items, p) && n < |items|
    requires IsInnerPath(items, q) && IsPathRow(s, row, q)
    ensures TakesIn(row, s.sep, items[n], IdOf(s, p)) <==> q < items[n].tree && q[..|q| - 1] == p
  {
    BelowExactly(s.sep, items, n, q);
    ParentIsNode(items, q);
    if row.parent == IdOf(s, p) {
      IdsDistinguish(s, items, q[..|q| - 1], p);
    }
  }

  lemma SamePathRow(s: Settings, items: seq<Item>, row: Row, q: seq<string>, r: seq<string>)
    requires KeysDistinguish(s.sep, items) && IsInnerPath(items, q) && IsInnerPath(items, r) && IsPathRow(s, row, q)
    ensures IsPathRow(s, row, r) <==> r == q
  {
  }

  /** A row under a path takes in an item exactly if it is the row of the item's prefix one component
      longer than the path. */
  lemma TakesInExactly(s: Settings, items: seq<Item>, p: seq<string>, n: nat, row: Row)
    requires KeysDistinguish(s.sep, items) && !(s.sep <= s.root) && IsNode(items, p) && n < |items|
    requires row.Inner? && IsPlaced(s, items, row)
    ensures TakesIn(row, s.sep, items[n], IdOf(s, p)) <==>
            p < items[n].tree && |p| + 1 < |items[n].tree| && IsPathRow(s, row, items[n].tree[..|p| + 1])
  {
    var tree := items[n].tree;
    var q := PathOfRow(s, items, row);
    TakesInPath(s, items, p, n, row, q);
    OneLonger(tree, p, q);
    if p < tree && |p| + 1 < |tree| {
      assert tree[..|p| + 1] < tree;
      SamePathRow(s, items, row, q, tree[..|p| + 1]);
    }
  }

  lemma ShareIs(s: Settings, items: seq<Item>, rows: seq<Row>, totals: map<string, nat>, p: seq<string>, n: nat)
    requires IsGood(s, items, rows, totals) && IsNode(items, p) && n < |items|
    ensures Share(rows, s.sep, items[n], IdOf(s, p)) ==
            if p < items[n].tree && |p| + 1 < |items[n].tree| then items[n].size else 0
  {
    var tree, id := items[n].tree, IdOf(s, p);
    forall i: nat | i < |rows| && rows[i].Inner?
      ensures TakesIn(rows[i], s.sep, items[n], id) <==>
              p < tree && |p| + 1 < |tree| && IsPathRow(s, rows[i], tree[..|p| + 1])
    {
      assert IsInner(rows, i);
      TakesInExactly(s, items, p, n, rows[i]);
    }
    if p < tree && |p| + 1 < |tree| {
      assert tree[..|p| + 1] < tree && IsInnerPath(items, tree[..|p| + 1]);
      var i := RowOfPath(s, items, rows, totals, tree[..|p| + 1]);
      assert TakesIn(rows[i], s.sep, items[n], id);
      forall j: nat | j < |rows| && TakesIn(rows[j], s.sep, items[n], id)
        ensures j == i
      {
        assert IsInner(rows, j);
      }
    }
    ShareOfOne(rows, s.sep, items[n], id);
  }

  /** The items below a path but not right below it, and those right below it. */
  ghost function DeeperTotal(items: seq<Item>, p: seq<string>): nat {
    if items == [] then 0
    else
      var n := |items| - 1;
      DeeperTotal(items[..n], p) + if p < items[n].tree && |p| + 1 < |items[n].tree| then items[n].size else 0
  }

  ghost predicate ShareRight(rows: seq<Row>, sep: string, x: Item, id: string, p: seq<string>) {
    Share(rows, sep, x, id) == if p < x.tree && |p| + 1 < |x.tree| then x.size else 0
  }

  lemma {:induction false} InnerSumIs(rows: seq<Row>, sep: string, items: seq<Item>, id: string, p: seq<string>)
    requires forall n :: 0 <= n < |items| ==> ShareRight(rows, sep, items[n], id, p)
    ensures InnerSum(rows, sep, items, id) == DeeperTotal(items, p)
  {
    if items == [] {
      InnerSumNone(rows, sep, id);
    } else {
      var n := |items| - 1;
      InnerSumIs(rows, sep, items[..n], id, p);
      assert items == items[..n] + [items[n]];
      InnerSumMore(rows, sep, items[..n], items[n], id);
      assert ShareRight(rows, sep, items[n], id, p);
    }
  }

  lemma RightBelow(s: Settings, items: seq<Item>, p: seq<string>, n: nat)
    requires KeysDistinguish(s.sep, items) && !(s.sep <= s.root) && IsNode(items, p) && n < |items| &&
             items[n].tree != []
    ensures ParentId(s, items[n].tree, |items[n].tree| - 1) == IdOf(s, p) <==>
            p < items[n].tree && |p| + 1 == |items[n].tree|
  {
    var tree := items[n].tree;
    var above := tree[..|tree| - 1];
    AboveIsNode(items, n, above);
    assert ParentId(s, tree, |tree| - 1) == IdOf(s, above);
    if IdOf(s, above) == IdOf(s, p) {
      IdsDistinguish(s, items, above, p);
    }
    if p < tree && |p| + 1 == |tree| {
      assert p == above;
    }
  }

  ghost predicate LeafRight(leaf: Row, x: Item, id: string, p: seq<string>) {
    leaf.Leaf? && leaf.size == x.size && (leaf.parent == id <==> p < x.tree && |p| + 1 == |x.tree|)
  }

  lemma {:induction false} LeafSumIs(items: seq<Item>, leaves: seq<Row>, id: string, p: seq<string>)
    requires |leaves| == |items| && forall n :: 0 <= n < |items| ==> LeafRight(leaves[n], items[n], id, p)
    ensures LeafSum(leaves, id) + DeeperTotal(items, p) == PathTotal(items, p)
  {
    if items != [] {
      var n := |items| - 1;
      LeafSumIs(items[..n], leaves[..n], id, p);
      assert LeafRight(leaves[n], items[n], id, p);
    }
  }

  /** When different inner paths have different keys and the root's name does not look like an id, what
      lies below a path, or in all, is the sum of the totals of the inner rows and of the sizes of the
      leaves right under it. */
  lemma TotalsFlow(s: Settings, items: seq<Item>, rows: seq<Row>, totals: map<string, nat>, p: seq<string>)
    requires IsTreemap(s, items, rows, totals) && KeysDistinguish(s.sep, items) && !(s.sep <= s.root)
    requires p == [] || IsInnerPath(items, p)
    ensures PathTotal(items, p) == ChildSum(rows, totals, IdOf(s, p))
  {
    var leaves := Leaves(rows);
    assert forall i: nat :: i < |rows| && rows[i].Inner? ==> IsInner(rows, i);
    ChildSumSplits(rows, totals, s.sep, items, IdOf(s, p));
    forall n | 0 <= n < |items|
      ensures ShareRight(rows, s.sep, items[n], IdOf(s, p), p)
      ensures LeafRight(leaves[n], items[n], IdOf(s, p), p)
    {
      ShareIs(s, items, rows, totals, p, n);
      RightBelow(s, items, p, n);
    }
    InnerSumIs(rows, s.sep, items, IdOf(s, p), p);
    LeafSumIs(items, leaves, IdOf(s, p), p);
  }
}
