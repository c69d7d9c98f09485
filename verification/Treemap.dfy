/** The size tree: one row for every inner path of the kept symbols, one for every kept symbol, and a
    total for every inner path. */
module Treemap {
  import opened Options
  import opened TreeKeys

  datatype Symbol = Symbol(name: string, size: nat, path: seq<string>)

  datatype Row =
    | Root(id: string)
    | Inner(key: string, id: string, parent: string, shortName: string)
    | Leaf(id: string, parent: string, size: nat, shortName: string)

  // ----- Zoom and strip -----

  /** What the zoom compares with: every component with a separator in front. */
  function PathId(sep: string, path: seq<string>): string {
    if path == [] then "" else PathId(sep, path[..|path| - 1]) + sep + path[|path| - 1]
  }

  /** The part of a path below the zoom, if there is any. */
  ghost predicate IsZoomed(sep: string, path: seq<string>, zoom: string, tree: seq<string>) {
    exists n :: 1 <= n < |path| && PathId(sep, path[..n]) == zoom && tree == path[n..]
  }

  lemma {:induction false} PathIdGrows(sep: string, path: seq<string>, i: nat, j: nat)
    requires sep != "" && i < j <= |path|
    ensures |PathId(sep, path[..i])| < |PathId(sep, path[..j])|
  {
    assert path[..j][..j - 1] == path[..j - 1];
    if i < j - 1 {
      PathIdGrows(sep, path, i, j - 1);
    }
  }

  method Zoom(sep: string, path: seq<string>, zoom: string) returns (tree: seq<string>)
    requires sep != "" && zoom != ""
    ensures tree != [] ==> IsZoomed(sep, path, zoom, tree)
    ensures tree == [] ==> forall t :: !IsZoomed(sep, path, zoom, t)
  {
    tree := path;
    var partial := "";
    ghost var n := 0;
    while tree != [] && partial != zoom
      invariant 0 <= n <= |path| && tree == path[n..] && partial == PathId(sep, path[..n])
      invariant forall i :: 0 <= i < n ==> PathId(sep, path[..i]) != zoom
      decreases |tree|
    {
      assert path[..n + 1][..n] == path[..n];
      partial := partial + sep + tree[0];
      tree := tree[1..];
      n := n + 1;
    }
  }

  method HasStripped(sep: string, tree: seq<string>, strip: string) returns (stripped: bool)
    requires sep != "" && tree != []
    ensures stripped <==> exists i :: 0 <= i < |tree| && sep + tree[i] == strip
  {
    var partial := "";
    for i := 0 to |tree|
      invariant forall j :: 0 <= j < i ==> sep + tree[j] != strip
      invariant i > 0 ==> partial == sep + tree[i - 1]
    {
      partial := sep + tree[i];
      if partial == strip {
        break;
      }
    }
    stripped := partial == strip;
  }

  datatype Settings = Settings(root: string, sep: string, zoom: Option<string>, strip: Option<string>) {
    predicate Valid() {
      sep != ""
    }

    /** The zoom, with a separator put in front unless it has one. */
    function FullZoom(): string
      requires zoom.Some?
    {
      var z := zoom.value;
      if |sep| <= |z| && z[..|sep|] == sep then z else sep + z
    }
  }

  ghost predicate Keeps(s: Settings, symbol: Symbol, tree: seq<string>) {
    (if s.zoom.None? then tree == symbol.path else IsZoomed(s.sep, symbol.path, s.FullZoom(), tree)) &&
    (s.strip.None? || !exists i :: 0 <= i < |tree| && s.sep + tree[i] == s.strip.value)
  }

  /** The zoom's name of a path is a separator and the path's key. */
  lemma {:induction false} PathIdIsKey(sep: string, path: seq<string>)
    ensures PathId(sep, path) == if path == [] then "" else sep + Join(sep, path)
  {
    if path != [] {
      var n := |path| - 1;
      PathIdIsKey(sep, path[..n]);
      if n > 0 {
        assert sep + Join(sep, path[..n]) + sep + path[n] == sep + (Join(sep, path[..n]) + sep + path[n]);
      } else {
        assert "" + sep + path[0] == sep + path[0];
      }
    }
  }

  /** Zooming to a path keeps what lies below it, whether its name is written with a separator in front or, where
      it does not begin with one itself, without. */
  lemma ZoomExactly(s: Settings, path: seq<string>, n: nat, tree: seq<string>)
    requires s.Valid() && 0 < n < |path|
    requires s.zoom == Some(s.sep + Join(s.sep, path[..n])) ||
             (s.zoom == Some(Join(s.sep, path[..n])) && !(s.sep <= Join(s.sep, path[..n])))
    ensures IsZoomed(s.sep, path, s.FullZoom(), tree) <==> tree == path[n..]
  {
    PathIdIsKey(s.sep, path[..n]);
    assert s.FullZoom() == s.sep + Join(s.sep, path[..n]) by {
      assert (s.sep + Join(s.sep, path[..n]))[..|s.sep|] == s.sep;
    }
    assert IsZoomed(s.sep, path, s.FullZoom(), path[n..]);
    if IsZoomed(s.sep, path, s.FullZoom(), tree) {
      ZoomIsUnique(s.sep, path, s.FullZoom(), tree, path[n..]);
    }
  }

  /** The item of a symbol, if it is kept. */
  ghost function KeptOf(s: Settings, symbol: Symbol): seq<Item> {
    if exists tree :: Keeps(s, symbol, tree) then
      var tree :| Keeps(s, symbol, tree);
      [Item(symbol.name, tree, symbol.size)]
    else []
  }

  /** The kept ones of the first `n` symbols, in order. */
  ghost function KeptUpTo(s: Settings, symbols: seq<Symbol>, n: nat): seq<Item>
    requires n <= |symbols|
  {
    if n == 0 then [] else KeptUpTo(s, symbols, n - 1) + KeptOf(s, symbols[n - 1])
  }

  ghost function KeptItems(s: Settings, symbols: seq<Symbol>): seq<Item> {
    KeptUpTo(s, symbols, |symbols|)
  }

  /** Without a zoom a symbol is kept whole, with one if it lies below and only that part; and neither if some
      component of that part is the one to strip. */
  lemma KeptExactly(s: Settings, symbol: Symbol, n: nat)
    requires s.Valid() && 0 < n < |symbol.path|
    requires s.strip.Some? ==> forall i :: 0 <= i < |symbol.path| ==> s.sep + symbol.path[i] != s.strip.value
    ensures s.zoom == None ==> KeptOf(s, symbol) == [Item(symbol.name, symbol.path, symbol.size)]
    ensures s.zoom == Some(s.sep + Join(s.sep, symbol.path[..n])) ==>
              KeptOf(s, symbol) == [Item(symbol.name, symbol.path[n..], symbol.size)]
  {
    if s.zoom == None {
      assert Keeps(s, symbol, symbol.path);
      KeptAtMost(s, symbol, symbol.path);
    } else if s.zoom == Some(s.sep + Join(s.sep, symbol.path[..n])) {
      ZoomExactly(s, symbol.path, n, symbol.path[n..]);
      assert Keeps(s, symbol, symbol.path[n..]);
      KeptAtMost(s, symbol, symbol.path[n..]);
    }
  }

  /** A symbol with the component to strip in the part that would be kept is not. */
  lemma StrippedExactly(s: Settings, symbol: Symbol, i: nat)
    requires s.Valid() && s.zoom == None && i < |symbol.path| && s.strip == Some(s.sep + symbol.path[i])
    ensures KeptOf(s, symbol) == []
  {
    KeptAtMost(s, symbol, symbol.path);
  }

  method Keep(s: Settings, symbol: Symbol) returns (tree: seq<string>)
    requires s.Valid() && GoodPath(symbol.path)
    ensures tree != [] ==> Keeps(s, symbol, tree) && GoodPath(tree)
    ensures KeptOf(s, symbol) == if tree != [] then [Item(symbol.name, tree, symbol.size)] else []
  {
    tree := symbol.path;
    if s.zoom.Some? {
      tree := Zoom(s.sep, tree, s.FullZoom());
      if tree == [] {
        assert forall t :: !Keeps(s, symbol, t);
        return;
      }
    }
    KeptAtMost(s, symbol, tree);
    if s.strip.Some? {
      var stripped := HasStripped(s.sep, tree, s.strip.value);
      if stripped {
        assert !Keeps(s, symbol, tree);
        tree := [];
      }
    }
  }

  /** The tree that is left below the zoom is kept, or nothing of the symbol is. */
  lemma KeptAtMost(s: Settings, symbol: Symbol, tree: seq<string>)
    requires s.Valid()
    requires if s.zoom.None? then tree == symbol.path else IsZoomed(s.sep, symbol.path, s.FullZoom(), tree)
    ensures KeptOf(s, symbol) == if Keeps(s, symbol, tree) then [Item(symbol.name, tree, symbol.size)] else []
  {
    forall t | Keeps(s, symbol, t)
      ensures t == tree
    {
      if s.zoom.Some? {
        ZoomIsUnique(s.sep, symbol.path, s.FullZoom(), t, tree);
      }
    }
  }

  lemma ZoomIsUnique(sep: string, path: seq<string>, zoom: string, a: seq<string>, b: seq<string>)
    requires sep != "" && IsZoomed(sep, path, zoom, a) && IsZoomed(sep, path, zoom, b)
    ensures a == b
  {
    var m :| 1 <= m < |path| && PathId(sep, path[..m]) == zoom && a == path[m..];
    var n :| 1 <= n < |path| && PathId(sep, path[..n]) == zoom && b == path[n..];
    if m < n {
      PathIdGrows(sep, path, m, n);
    } else if n < m {
      PathIdGrows(sep, path, n, m);
    }
  }

  // ----- Rows and totals -----

  /** The keys known so far: of the items done, and of the first `j` prefixes of the current tree. */
  ghost predicate KeysAre(sep: string, items: seq<Item>, tree: seq<string>, j: nat, known: set<string>)
    requires j <= |tree|
  {
    forall k :: k in known <==> SomeBelow(sep, items, k) || HasKeyUpTo(sep, tree, j, k)
  }

  ghost predicate TotalsAre(sep: string, items: seq<Item>, tree: seq<string>, j: nat, size: nat, known: set<string>,
                            totals: map<string, nat>)
    requires j <= |tree|
  {
    totals.Keys == known &&
    forall k :: k in known ==>
      totals[k] == TotalBelow(sep, items, k) + if HasKeyUpTo(sep, tree, j, k) then size else 0
  }

  ghost predicate InnerAt(rows: seq<Row>, i: nat, sep: string, key: string) {
    i < |rows| && rows[i].Inner? && rows[i].key == key && rows[i].id == sep + key
  }

  ghost predicate IsInner(rows: seq<Row>, i: nat) {
    i < |rows| && rows[i].Inner?
  }

  /** Exactly one inner row for every known key, and no others. */
  ghost predicate RowsAre(sep: string, known: set<string>, rows: seq<Row>) {
    (forall i: nat {:trigger IsInner(rows, i)} :: IsInner(rows, i) ==>
       rows[i].key in known && rows[i].id == sep + rows[i].key) &&
    (forall i: nat, j: nat {:trigger IsInner(rows, i), IsInner(rows, j)} ::
       IsInner(rows, i) && IsInner(rows, j) && rows[i].key == rows[j].key ==> i == j) &&
    forall k :: k in known ==> exists i :: InnerAt(rows, i, sep, k)
  }

  /** The row's parent is the root or the id of an earlier row. */
  ghost predicate ParentIsEarlier(rows: seq<Row>, i: nat, root: string)
    requires i < |rows| && !rows[i].Root?
  {
    rows[i].parent == root || exists j :: 0 <= j < i && rows[j].Inner? && rows[j].id == rows[i].parent
  }

  ghost predicate ParentsAreEarlier(rows: seq<Row>, root: string) {
    rows != [] && rows[0] == Root(root) &&
    (forall i :: 1 <= i < |rows| ==> !rows[i].Root?) &&
    forall i {:trigger ParentIsEarlier(rows, i, root)} :: 1 <= i < |rows| ==> ParentIsEarlier(rows, i, root)
  }

  lemma AppendRow(rows: seq<Row>, row: Row, root: string)
    requires ParentsAreEarlier(rows, root) && !row.Root?
    requires row.parent == root || exists j :: 0 <= j < |rows| && rows[j].Inner? && rows[j].id == row.parent
    ensures ParentsAreEarlier(rows + [row], root)
  {
    var more := rows + [row];
    forall i | 1 <= i < |more|
      ensures ParentIsEarlier(more, i, root)
    {
      if i < |rows| {
        assert ParentIsEarlier(rows, i, root) && more[i] == rows[i];
        if rows[i].parent != root {
          var j :| 0 <= j < i && rows[j].Inner? && rows[j].id == rows[i].parent;
          assert more[j] == rows[j];
        }
      } else if row.parent != root {
        var j :| 0 <= j < |rows| && rows[j].Inner? && rows[j].id == row.parent;
        assert more[j] == rows[j];
      }
    }
  }

  lemma AppendInner(sep: string, known: set<string>, rows: seq<Row>, row: Row)
    requires RowsAre(sep, known, rows) && row.Inner? && row.key !in known && row.id == sep + row.key
    ensures RowsAre(sep, known + {row.key}, rows + [row])
  {
    var more := rows + [row];
    assert forall i: nat {:trigger IsInner(more, i)} :: i < |rows| ==>
           more[i] == rows[i] && IsInner(more, i) == IsInner(rows, i);
    forall k | k in known + {row.key}
      ensures exists i :: InnerAt(more, i, sep, k)
    {
      if k == row.key {
        assert InnerAt(more, |rows|, sep, k);
      } else {
        var i :| InnerAt(rows, i, sep, k);
        assert InnerAt(more, i, sep, k);
      }
    }
  }

  lemma AppendLeaf(sep: string, known: set<string>, rows: seq<Row>, row: Row)
    requires RowsAre(sep, known, rows) && row.Leaf?
    ensures RowsAre(sep, known, rows + [row])
  {
    var more := rows + [row];
    assert forall i: nat {:trigger IsInner(more, i)} :: i < |rows| ==>
           more[i] == rows[i] && IsInner(more, i) == IsInner(rows, i);
    forall k | k in known
      ensures exists i :: InnerAt(more, i, sep, k)
    {
      var i :| InnerAt(rows, i, sep, k);
      assert InnerAt(more, i, sep, k);
    }
  }

  /** Going one prefix deeper adds its key, and the size to its total. */
  lemma Descend(sep: string, items: seq<Item>, tree: seq<string>, j: nat, size: nat, known: set<string>,
                totals: map<string, nat>)
    requires GoodPath(tree) && j + 1 < |tree|
    requires KeysAre(sep, items, tree, j, known) && TotalsAre(sep, items, tree, j, size, known, totals)
    ensures var key := Key(sep, tree, j + 1);
            KeysAre(sep, items, tree, j + 1, known + {key}) &&
            TotalsAre(sep, items, tree, j + 1, size, known + {key},
                      totals[key := (if key in totals then totals[key] else 0) + size])
  {
    var key := Key(sep, tree, j + 1);
    forall k
      ensures HasKeyUpTo(sep, tree, j + 1, k) <==> HasKeyUpTo(sep, tree, j, k) || k == key
    {
      OneKeyMore(sep, tree, j, k);
    }
    KeyIsNew(sep, tree, j);
    if key !in known {
      NothingBelow(sep, items, key);
    }
  }

  lemma OneKeyMore(sep: string, tree: seq<string>, j: nat, k: string)
    requires j < |tree|
    ensures HasKeyUpTo(sep, tree, j + 1, k) <==> HasKeyUpTo(sep, tree, j, k) || k == Key(sep, tree, j + 1)
  {
    if HasKeyUpTo(sep, tree, j, k) {
      var i :| 1 <= i <= j && Key(sep, tree, i) == k;
      assert 1 <= i <= j + 1;
    }
    if HasKeyUpTo(sep, tree, j + 1, k) {
      var i :| 1 <= i <= j + 1 && Key(sep, tree, i) == k;
      assert i == j + 1 || i <= j;
    }
  }

  lemma KeyIsNew(sep: string, tree: seq<string>, j: nat)
    requires GoodPath(tree) && j + 1 < |tree|
    ensures !HasKeyUpTo(sep, tree, j, Key(sep, tree, j + 1))
  {
    forall i | 1 <= i <= j
      ensures Key(sep, tree, i) != Key(sep, tree, j + 1)
    {
      JoinGrows(sep, tree, i, j + 1);
    }
  }

  /** The rows so far, the keys that have a row, and the totals by key. */
  datatype Table = Table(rows: seq<Row>, known: set<string>, totals: map<string, nat>)

  /** The id of an inner path's row; the empty path stands for the root. */
  ghost function IdOf(s: Settings, p: seq<string>): string {
    if p == [] then s.root else s.sep + Join(s.sep, p)
  }

  /** The row of an inner path: named by its key and placed under the path less its last component. */
  ghost predicate IsPathRow(s: Settings, row: Row, p: seq<string>) {
    p != [] && row == Inner(Join(s.sep, p), IdOf(s, p), IdOf(s, p[..|p| - 1]), p[|p| - 1])
  }

  /** The row is that of the prefix of length `j` of item `n`, the first item below this key. */
  ghost predicate PlacedBy(s: Settings, items: seq<Item>, row: Row, n: nat, j: nat) {
    n < |items| && 1 <= j < |items[n].tree| && IsPathRow(s, row, items[n].tree[..j]) &&
    !SomeBelow(s.sep, items[..n], row.key)
  }

  ghost predicate IsPlaced(s: Settings, items: seq<Item>, row: Row)
    requires row.Inner?
  {
    exists n: nat, j: nat :: PlacedBy(s, items, row, n, j)
  }

  /** The same for one of the first `j` prefixes of the current tree. */
  ghost predicate PlacedNow(s: Settings, items: seq<Item>, tree: seq<string>, j: nat, row: Row)
    requires j <= |tree| && row.Inner?
  {
    exists i :: 1 <= i <= j && IsPathRow(s, row, tree[..i]) && !SomeBelow(s.sep, items, row.key)
  }

  /** Every inner row is placed by an item done or by the current tree. */
  ghost predicate RowsPlaced(s: Settings, items: seq<Item>, tree: seq<string>, j: nat, rows: seq<Row>)
    requires j <= |tree|
  {
    forall i: nat {:trigger IsInner(rows, i)} :: IsInner(rows, i) ==>
      IsPlaced(s, items, rows[i]) || PlacedNow(s, items, tree, j, rows[i])
  }

  lemma StillPlaced(s: Settings, items: seq<Item>, tree: seq<string>, j: nat, rows: seq<Row>)
    requires j < |tree| && RowsPlaced(s, items, tree, j, rows)
    ensures RowsPlaced(s, items, tree, j + 1, rows)
  {
    forall i: nat | IsInner(rows, i) && PlacedNow(s, items, tree, j, rows[i])
      ensures PlacedNow(s, items, tree, j + 1, rows[i])
    {
      var k :| 1 <= k <= j && IsPathRow(s, rows[i], tree[..k]) && !SomeBelow(s.sep, items, rows[i].key);
      assert 1 <= k <= j + 1;
    }
  }

  lemma PlaceRow(s: Settings, items: seq<Item>, tree: seq<string>, j: nat, rows: seq<Row>, row: Row)
    requires j < |tree| && RowsPlaced(s, items, tree, j, rows)
    requires row == Inner(Key(s.sep, tree, j + 1), s.sep + Key(s.sep, tree, j + 1), ParentId(s, tree, j), tree[j])
    requires !SomeBelow(s.sep, items, row.key)
    ensures RowsPlaced(s, items, tree, j + 1, rows + [row])
  {
    StillPlaced(s, items, tree, j, rows);
    var p := tree[..j + 1];
    assert p[..|p| - 1] == tree[..j] && p[|p| - 1] == tree[j];
    assert IsPathRow(s, row, p);
    assert PlacedNow(s, items, tree, j + 1, row);
    var more := rows + [row];
    assert forall i: nat {:trigger IsInner(more, i)} :: i < |rows| ==>
           more[i] == rows[i] && IsInner(more, i) == IsInner(rows, i);
  }

  lemma PlacedThen(s: Settings, items: seq<Item>, item: Item, row: Row)
    requires item.tree != [] && row.Inner?
    requires IsPlaced(s, items, row) || PlacedNow(s, items, item.tree, |item.tree| - 1, row)
    ensures IsPlaced(s, items + [item], row)
  {
    var more := items + [item];
    if IsPlaced(s, items, row) {
      var n: nat, j: nat :| PlacedBy(s, items, row, n, j);
      assert more[..n] == items[..n] && more[n] == items[n];
      assert PlacedBy(s, more, row, n, j);
    } else {
      var i :| 1 <= i <= |item.tree| - 1 && IsPathRow(s, row, item.tree[..i]) && !SomeBelow(s.sep, items, row.key);
      assert more[..|items|] == items && more[|items|] == item;
      assert PlacedBy(s, more, row, |items|, i);
    }
  }

  lemma AllPlacedThen(s: Settings, items: seq<Item>, item: Item, rows: seq<Row>, leaf: Row)
    requires item.tree != [] && RowsPlaced(s, items, item.tree, |item.tree| - 1, rows) && leaf.Leaf?
    ensures RowsPlaced(s, items + [item], [], 0, rows + [leaf])
  {
    var more := rows + [leaf];
    forall i: nat | IsInner(more, i)
      ensures IsPlaced(s, items + [item], more[i])
    {
      assert more[i] == rows[i] && IsInner(rows, i);
      PlacedThen(s, items, item, rows[i]);
    }
  }

  /** The table is right once `items` and the first `j` prefixes of the current tree are in. */
  ghost predicate Built(s: Settings, items: seq<Item>, tree: seq<string>, j: nat, size: nat, t: Table)
    requires j <= |tree|
  {
    KeysAre(s.sep, items, tree, j, t.known) && TotalsAre(s.sep, items, tree, j, size, t.known, t.totals) &&
    RowsAre(s.sep, t.known, t.rows) && RowsPlaced(s, items, tree, j, t.rows) && ParentsAreEarlier(t.rows, s.root)
  }

  /** The id of the prefix of length `j`, or the root. */
  ghost function ParentId(s: Settings, tree: seq<string>, j: nat): string
    requires j <= |tree|
  {
    if j == 0 then s.root else s.sep + Key(s.sep, tree, j)
  }

  /** The row of the prefix above is there. */
  lemma ParentKnown(s: Settings, items: seq<Item>, tree: seq<string>, j: nat, size: nat, t: Table)
    requires j <= |tree| && Built(s, items, tree, j, size, t)
    ensures ParentId(s, tree, j) == s.root ||
            exists i :: 0 <= i < |t.rows| && t.rows[i].Inner? && t.rows[i].id == ParentId(s, tree, j)
  {
    if j > 0 {
      var key := Key(s.sep, tree, j);
      assert HasKeyUpTo(s.sep, tree, j, key);
      var i :| InnerAt(t.rows, i, s.sep, key);
    }
  }

  /** The table with the next prefix in: a row for it if it has none, and the size in its total. */
  ghost function Visited(s: Settings, tree: seq<string>, j: nat, size: nat, t: Table): Table
    requires j < |tree|
  {
    var key := Key(s.sep, tree, j + 1);
    var row := Inner(key, s.sep + key, ParentId(s, tree, j), tree[j]);
    Table(if key in t.known then t.rows else t.rows + [row],
          if key in t.known then t.known else t.known + {key},
          t.totals[key := (if key in t.totals then t.totals[key] else 0) + size])
  }

  lemma VisitPrefix(s: Settings, items: seq<Item>, tree: seq<string>, j: nat, size: nat, t: Table)
    requires GoodPath(tree) && j + 1 < |tree| && Built(s, items, tree, j, size, t)
    ensures Built(s, items, tree, j + 1, size, Visited(s, tree, j, size, t))
  {
    var key := Key(s.sep, tree, j + 1);
    Descend(s.sep, items, tree, j, size, t.known, t.totals);
    if key in t.known {
      assert t.known + {key} == t.known;
      StillPlaced(s, items, tree, j, t.rows);
    } else {
      var row := Inner(key, s.sep + key, ParentId(s, tree, j), tree[j]);
      ParentKnown(s, items, tree, j, size, t);
      AppendInner(s.sep, t.known, t.rows, row);
      PlaceRow(s, items, tree, j, t.rows, row);
      AppendRow(t.rows, row, s.root);
    }
  }

  ghost predicate OnlyInnerAfter(rows0: seq<Row>, rows: seq<Row>) {
    rows0 <= rows && forall i :: |rows0| <= i < |rows| ==> rows[i].Inner?
  }

  /** The table is right, and has only gained inner rows. */
  ghost predicate Extends(s: Settings, items: seq<Item>, tree: seq<string>, j: nat, size: nat, t: Table,
                          rows0: seq<Row>)
    requires j <= |tree|
  {
    Built(s, items, tree, j, size, t) && OnlyInnerAfter(rows0, t.rows)
  }

  /** How the loop's strings follow the prefixes. */
  ghost predicate NamesAre(s: Settings, tree: seq<string>, j: nat, partial: string, path: string)
    requires j <= |tree|
  {
    partial == Key(s.sep, tree, j) && path == (if j == 0 then "" else s.sep + partial) && (partial == "" <==> j == 0)
  }

  lemma NextNames(s: Settings, tree: seq<string>, j: nat, partial: string, path: string)
    requires GoodPath(tree) && j + 1 < |tree| && NamesAre(s, tree, j, partial, path)
    ensures var next := if partial == "" then tree[j] else partial + s.sep + tree[j];
            NamesAre(s, tree, j + 1, next, path + s.sep + tree[j]) && path + s.sep + tree[j] == s.sep + next
    ensures ParentId(s, tree, j) == if partial != "" then path else s.root
  {
    JoinNext(s.sep, tree, j);
    if j == 0 {
      assert "" + s.sep + tree[0] == s.sep + tree[0];
    } else {
      assert s.sep + partial + s.sep + tree[j] == s.sep + (partial + s.sep + tree[j]);
    }
  }

  /** The body of the loop over prefixes. */
  method AddPrefix(s: Settings, item: Item, j: nat, t0: Table, partial0: string, path0: string)
    returns (t: Table, partial: string, path: string)
    requires GoodPath(item.tree) && j + 1 < |item.tree| && NamesAre(s, item.tree, j, partial0, path0)
    ensures t == Visited(s, item.tree, j, item.size, t0)
    ensures NamesAre(s, item.tree, j + 1, partial, path)
  {
    var name := item.tree[j];
    NextNames(s, item.tree, j, partial0, path0);
    var nextValue := if partial0 == "" then name else partial0 + s.sep + name;
    var parentPath := if partial0 != "" then path0 else s.root;
    path := path0 + s.sep + name;
    var rows, known := t0.rows, t0.known;
    if nextValue !in known {
      known := known + {nextValue};
      rows := rows + [Inner(nextValue, path, parentPath, name)];
    }
    var total := (if nextValue in t0.totals then t0.totals[nextValue] else 0) + item.size;
    t := Table(rows, known, t0.totals[nextValue := total]);
    partial := nextValue;
  }

  /** The same, with what it means for the table. */
  method NextPrefix(s: Settings, item: Item, j: nat, t0: Table, partial0: string, path0: string, ghost items: seq<Item>,
                    ghost rows0: seq<Row>)
    returns (t: Table, partial: string, path: string)
    requires GoodPath(item.tree) && j + 1 < |item.tree| && NamesAre(s, item.tree, j, partial0, path0)
    requires Extends(s, items, item.tree, j, item.size, t0, rows0)
    ensures Extends(s, items, item.tree, j + 1, item.size, t, rows0)
    ensures NamesAre(s, item.tree, j + 1, partial, path)
  {
    VisitPrefix(s, items, item.tree, j, item.size, t0);
    t, partial, path := AddPrefix(s, item, j, t0, partial0, path0);
  }

  /** The loop over the inner prefixes of one kept symbol. */
  method AddPrefixes(s: Settings, item: Item, t0: Table, ghost items: seq<Item>) returns (t: Table, parent: string)
    requires GoodPath(item.tree) && Extends(s, items, item.tree, 0, item.size, t0, t0.rows)
    ensures Extends(s, items, item.tree, |item.tree| - 1, item.size, t, t0.rows)
    ensures parent == ParentId(s, item.tree, |item.tree| - 1)
  {
    t := t0;
    var partial, path := "", "";
    for j := 0 to |item.tree| - 1
      invariant NamesAre(s, item.tree, j, partial, path)
      invariant Extends(s, items, item.tree, j, item.size, t, t0.rows)
    {
      t, partial, path := NextPrefix(s, item, j, t, partial, path, items, t0.rows);
    }
    parent := if partial != "" then path else s.root;
  }

  /** The leaves, in order, are the kept items under their parents. */
  ghost predicate LeavesAre(s: Settings, items: seq<Item>, leaves: seq<Row>) {
    |leaves| == |items| &&
    forall i :: 0 <= i < |items| ==>
      items[i].tree != [] && leaves[i] == LeafOf(s, items[i])
  }

  ghost function LeafOf(s: Settings, item: Item): Row
    requires item.tree != []
  {
    var n := |item.tree| - 1;
    Leaf(item.name, ParentId(s, item.tree, n), item.size, item.tree[n])
  }

  ghost function Leaves(rows: seq<Row>): seq<Row> {
    if rows == [] then []
    else
      var n := |rows| - 1;
      Leaves(rows[..n]) + if rows[n].Leaf? then [rows[n]] else []
  }

  lemma {:induction false} NoNewLeaves(rows0: seq<Row>, rows: seq<Row>)
    requires rows0 <= rows && forall i :: |rows0| <= i < |rows| ==> !rows[i].Leaf?
    ensures Leaves(rows) == Leaves(rows0)
  {
    if |rows0| < |rows| {
      NoNewLeaves(rows0, rows[..|rows| - 1]);
    } else {
      assert rows == rows0;
    }
  }

  /** Between two symbols there is no current tree. */
  lemma StartItem(s: Settings, items: seq<Item>, item: Item, t: Table)
    requires Built(s, items, [], 0, 0, t)
    ensures Built(s, items, item.tree, 0, item.size, t)
  {
    assert forall k :: !HasKeyUpTo(s.sep, item.tree, 0, k) && !HasKeyUpTo(s.sep, [], 0, k);
  }

  /** Adding the leaf of an item whose prefixes are in. */
  lemma FinishItem(s: Settings, items: seq<Item>, item: Item, t: Table, row: Row)
    requires item.tree != [] && Built(s, items, item.tree, |item.tree| - 1, item.size, t)
    requires row.Leaf? && row.parent == ParentId(s, item.tree, |item.tree| - 1)
    ensures Built(s, items + [item], [], 0, 0, t.(rows := t.rows + [row]))
  {
    ParentKnown(s, items, item.tree, |item.tree| - 1, item.size, t);
    AppendLeaf(s.sep, t.known, t.rows, row);
    AllPlacedThen(s, items, item, t.rows, row);
    AppendRow(t.rows, row, s.root);
    forall k
      ensures k in t.known <==> SomeBelow(s.sep, items + [item], k)
      ensures k in t.known ==> t.totals[k] == TotalBelow(s.sep, items + [item], k)
    {
      OneMoreBelow(s.sep, items, item, k);
    }
    assert forall k :: !HasKeyUpTo(s.sep, [], 0, k);
  }

  lemma MoreLeaves(s: Settings, items: seq<Item>, item: Item, rows0: seq<Row>, rows: seq<Row>, row: Row)
    requires OnlyInnerAfter(rows0, rows)
    requires item.tree != [] && row == LeafOf(s, item)
    requires LeavesAre(s, items, Leaves(rows0))
    ensures LeavesAre(s, items + [item], Leaves(rows + [row]))
  {
    NoNewLeaves(rows0, rows);
    LeavesMore(rows, row);
    var more, leaves := items + [item], Leaves(rows) + [row];
    forall i | 0 <= i < |more|
      ensures more[i].tree != [] && leaves[i] == LeafOf(s, more[i])
    {
      assert i < |items| ==> more[i] == items[i] && leaves[i] == Leaves(rows)[i];
    }
  }

  lemma LeavesMore(rows: seq<Row>, row: Row)
    requires row.Leaf?
    ensures Leaves(rows + [row]) == Leaves(rows) + [row]
  {
    assert (rows + [row])[..|rows|] == rows;
  }

  /** What the rows and totals are, by key. Each row's parent is the root or an earlier row's id, each key
      has exactly one row, that of the first inner path with this key, its total is the sum of the sizes of
      the items below the key, and each item has one leaf, in order. */
  ghost predicate IsTreemap(s: Settings, items: seq<Item>, rows: seq<Row>, totals: map<string, nat>) {
    ParentsAreEarlier(rows, s.root) &&
    RowsAre(s.sep, totals.Keys, rows) &&
    (forall i: nat {:trigger IsInner(rows, i)} :: IsInner(rows, i) ==> IsPlaced(s, items, rows[i])) &&
    (forall k :: k in totals <==> SomeBelow(s.sep, items, k)) &&
    (forall k :: k in totals ==> totals[k] == TotalBelow(s.sep, items, k)) &&
    LeavesAre(s, items, Leaves(rows))
  }

  /** The rows and totals of a list of symbols. */
  method BuildTreemap(s: Settings, symbols: seq<Symbol>) returns (rows: seq<Row>, totals: map<string, nat>)
    requires s.Valid() && forall i :: 0 <= i < |symbols| ==> GoodPath(symbols[i].path)
    ensures IsTreemap(s, KeptItems(s, symbols), rows, totals)
  {
    var t := Table([Root(s.root)], {}, map[]);
    ghost var items := [];
    assert Leaves(t.rows) == [] by {
      assert t.rows[..0] == [];
    }
    for n := 0 to |symbols|
      invariant items == KeptUpTo(s, symbols, n)
      invariant Built(s, items, [], 0, 0, t) && LeavesAre(s, items, Leaves(t.rows))
    {
      var tree := Keep(s, symbols[n]);
      if tree == [] {
        continue;
      }
      var item := Item(symbols[n].name, tree, symbols[n].size);
      t := AddItem(s, item, t, items);
      items := items + [item];
    }
    FinishTree(s, items, t);
    rows, totals := t.rows, t.totals;
  }

  /** The rows and sizes of one kept symbol. */
  method AddItem(s: Settings, item: Item, t0: Table, ghost items: seq<Item>) returns (t: Table)
    requires GoodPath(item.tree) && Built(s, items, [], 0, 0, t0) && LeavesAre(s, items, Leaves(t0.rows))
    ensures Built(s, items + [item], [], 0, 0, t) && LeavesAre(s, items + [item], Leaves(t.rows))
  {
    StartItem(s, items, item, t0);
    var parent;
    t, parent := AddPrefixes(s, item, t0, items);
    var row := Leaf(item.name, parent, item.size, item.tree[|item.tree| - 1]);
    FinishItem(s, items, item, t, row);
    MoreLeaves(s, items, item, t0.rows, t.rows, row);
    t := t.(rows := t.rows + [row]);
  }

  lemma FinishTree(s: Settings, items: seq<Item>, t: Table)
    requires Built(s, items, [], 0, 0, t) && LeavesAre(s, items, Leaves(t.rows))
    ensures IsTreemap(s, items, t.rows, t.totals)
  {
    assert forall k :: !HasKeyUpTo(s.sep, [], 0, k);
  }
}
