/** The paths of the size tree and the keys that stand for them: a key is a path joined by separators, so
    different paths can have one key. When do they not? */
module TreeKeys {
  /** A kept symbol: its name, the part of its path below the zoom, and its size. */
  datatype Item = Item(name: string, tree: seq<string>, size: nat)

  /** The last component may be empty; the inner ones may not. */
  ghost predicate GoodPath(path: seq<string>) {
    path != [] && forall i :: 0 <= i < |path| - 1 ==> path[i] != ""
  }

  // ----- Keys -----

  /** The path with separators in between: the key and label of an inner row. */
  function Join(sep: string, path: seq<string>): string {
    if |path| == 0 then ""
    else if |path| == 1 then path[0]
    else Join(sep, path[..|path| - 1]) + sep + path[|path| - 1]
  }

  /** The key of one component is the component, and keys are joined by one separator. */
  lemma {:induction false} JoinConcat(sep: string, a: seq<string>, b: seq<string>)
    requires |a| > 0 && |b| > 0
    ensures Join(sep, a + b) == Join(sep, a) + sep + Join(sep, b)
    ensures Join(sep, [a[0]]) == a[0] && Join(sep, []) == ""
  {
    var n := |b| - 1;
    if n == 0 {
      assert (a + b)[..|a|] == a;
    } else {
      JoinConcat(sep, a, b[..n]);
      assert (a + b)[..|a + b| - 1] == a + b[..n];
      var front, middle := Join(sep, a) + sep, Join(sep, b[..n]);
      assert front + middle + sep + b[n] == front + (middle + sep + b[n]);
    }
  }

  /** The key of the prefix of length `j`. */
  function Key(sep: string, tree: seq<string>, j: nat): string
    requires j <= |tree|
  {
    Join(sep, tree[..j])
  }

  lemma JoinNext(sep: string, tree: seq<string>, j: nat)
    requires j < |tree|
    ensures Key(sep, tree, j + 1) == if j == 0 then tree[0] else Key(sep, tree, j) + sep + tree[j]
  {
    assert tree[..j + 1][..j] == tree[..j];
  }

  lemma {:induction false} JoinGrows(sep: string, tree: seq<string>, i: nat, j: nat)
    requires GoodPath(tree) && i < j < |tree|
    ensures |Key(sep, tree, i)| < |Key(sep, tree, j)|
  {
    JoinNext(sep, tree, j - 1);
    if i < j - 1 {
      JoinGrows(sep, tree, i, j - 1);
    }
  }

  /** One of the first `j` proper prefixes of the tree has this key. */
  ghost predicate HasKeyUpTo(sep: string, tree: seq<string>, j: nat, key: string)
    requires j <= |tree|
  {
    exists i :: 1 <= i <= j && Key(sep, tree, i) == key
  }

  /** The item lies below the inner path with this key. */
  ghost predicate LiesBelow(sep: string, item: Item, key: string) {
    item.tree != [] && HasKeyUpTo(sep, item.tree, |item.tree| - 1, key)
  }

  ghost predicate SomeBelow(sep: string, items: seq<Item>, key: string) {
    exists i :: 0 <= i < |items| && LiesBelow(sep, items[i], key)
  }

  /** The sizes of the items below an inner path. */
  ghost function TotalBelow(sep: string, items: seq<Item>, key: string): nat {
    if items == [] then 0
    else
      var n := |items| - 1;
      TotalBelow(sep, items[..n], key) + if LiesBelow(sep, items[n], key) then items[n].size else 0
  }

  lemma {:induction false} NothingBelow(sep: string, items: seq<Item>, key: string)
    requires !SomeBelow(sep, items, key)
    ensures TotalBelow(sep, items, key) == 0
  {
    if items != [] {
      var n := |items| - 1;
      assert forall i :: 0 <= i < n ==> items[..n][i] == items[i];
      assert !LiesBelow(sep, items[n], key);
      NothingBelow(sep, items[..n], key);
    }
  }

  lemma OneMoreBelow(sep: string, items: seq<Item>, item: Item, key: string)
    ensures SomeBelow(sep, items + [item], key) <==> SomeBelow(sep, items, key) || LiesBelow(sep, item, key)
    ensures TotalBelow(sep, items + [item], key) ==
            TotalBelow(sep, items, key) + if LiesBelow(sep, item, key) then item.size else 0
  {
    var more := items + [item];
    assert more[..|items|] == items && more[|items|] == item;
    assert forall i :: 0 <= i < |items| ==> more[i] == items[i];
    if SomeBelow(sep, items, key) {
      var i :| 0 <= i < |items| && LiesBelow(sep, items[i], key);
      assert LiesBelow(sep, more[i], key);
    }
    if LiesBelow(sep, item, key) {
      assert LiesBelow(sep, more[|items|], key);
    }
  }

  // ----- Inner paths -----

  /** A non-empty proper prefix of an item's tree. */
  ghost predicate IsInnerPath(items: seq<Item>, p: seq<string>) {
    p != [] && exists n :: 0 <= n < |items| && p < items[n].tree
  }

  /** All of them. */
  ghost function InnerPaths(items: seq<Item>): (r: set<seq<string>>)
    ensures forall p :: p in r <==> IsInnerPath(items, p)
  {
    if items == [] then {}
    else
      var rest, last := items[..|items| - 1], items[|items| - 1].tree;
      var r := InnerPaths(rest) + set j | 1 <= j < |last| :: last[..j];
      assert forall p :: p in r <==> IsInnerPath(items, p) by {
        forall p
          ensures p in r <==> IsInnerPath(items, p)
        {
          InnerPathSplit(items, p);
        }
      }
      r
  }

  lemma InnerPathSplit(items: seq<Item>, p: seq<string>)
    requires items != []
    ensures var n := |items| - 1;
            var last := items[n].tree;
            IsInnerPath(items, p) <==> IsInnerPath(items[..n], p) || p in set j | 1 <= j < |last| :: last[..j]
  {
    var n := |items| - 1;
    var last := items[n].tree;
    if p != [] && p < last {
      assert p == last[..|p|];
    }
    if IsInnerPath(items[..n], p) {
      var k :| 0 <= k < n && p < items[..n][k].tree;
      assert p < items[k].tree;
    }
    if IsInnerPath(items, p) && !(p < last) {
      var k :| 0 <= k < |items| && p < items[k].tree;
      assert p < items[..n][k].tree;
    }
  }

  /** The sizes of the items below a path. */
  ghost function PathTotal(items: seq<Item>, p: seq<string>): nat {
    if items == [] then 0
    else
      var n := |items| - 1;
      PathTotal(items[..n], p) + if p < items[n].tree then items[n].size else 0
  }

  lemma BelowPath(sep: string, item: Item, p: seq<string>)
    requires p != [] && p < item.tree
    ensures LiesBelow(sep, item, Join(sep, p))
  {
    assert item.tree[..|p|] == p;
    assert Key(sep, item.tree, |p|) == Join(sep, p);
  }

  lemma BelowKey(sep: string, items: seq<Item>, n: nat, key: string) returns (p: seq<string>)
    requires n < |items| && LiesBelow(sep, items[n], key)
    ensures p != [] && p < items[n].tree && Join(sep, p) == key && IsInnerPath(items, p)
  {
    var tree := items[n].tree;
    var i :| 1 <= i <= |tree| - 1 && Key(sep, tree, i) == key;
    p := tree[..i];
  }

  /** An item that lies below the key of a path, though not below the path itself. */
  ghost predicate IsStray(sep: string, item: Item, p: seq<string>) {
    LiesBelow(sep, item, Join(sep, p)) && !(p < item.tree)
  }

  /** The total by key is the total by path exactly if nothing of any size strays under the key. */
  lemma {:induction false} PathTotalExactly(sep: string, items: seq<Item>, p: seq<string>)
    requires p != []
    ensures TotalBelow(sep, items, Join(sep, p)) >= PathTotal(items, p)
    ensures TotalBelow(sep, items, Join(sep, p)) == PathTotal(items, p) <==>
            forall n :: 0 <= n < |items| && IsStray(sep, items[n], p) ==> items[n].size == 0
  {
    if items != [] {
      var n := |items| - 1;
      PathTotalExactly(sep, items[..n], p);
      if p < items[n].tree {
        BelowPath(sep, items[n], p);
      }
      assert forall k :: 0 <= k < n ==> items[..n][k] == items[k];
    }
  }

  // ----- Paths with keys of their own -----

  /** Different inner paths have different keys. */
  ghost predicate KeysDistinguish(sep: string, items: seq<Item>) {
    forall p, q :: IsInnerPath(items, p) && IsInnerPath(items, q) && Join(sep, p) == Join(sep, q) ==> p == q
  }

  lemma BelowExactly(sep: string, items: seq<Item>, n: nat, p: seq<string>)
    requires KeysDistinguish(sep, items) && n < |items| && IsInnerPath(items, p)
    ensures LiesBelow(sep, items[n], Join(sep, p)) <==> p < items[n].tree
  {
    if LiesBelow(sep, items[n], Join(sep, p)) {
      var q := BelowKey(sep, items, n, Join(sep, p));
    }
    if p < items[n].tree {
      BelowPath(sep, items[n], p);
    }
  }

  /** Then the total by key is the total by path. */
  lemma TotalOfPath(sep: string, items: seq<Item>, p: seq<string>)
    requires KeysDistinguish(sep, items) && IsInnerPath(items, p)
    ensures TotalBelow(sep, items, Join(sep, p)) == PathTotal(items, p)
  {
    forall n | 0 <= n < |items|
      ensures !IsStray(sep, items[n], p)
    {
      BelowExactly(sep, items, n, p);
    }
    PathTotalExactly(sep, items, p);
  }

  ghost function KeysOf(sep: string, paths: set<seq<string>>): set<string> {
    set p | p in paths :: Join(sep, p)
  }

  ghost predicate AreDistinct(sep: string, paths: set<seq<string>>) {
    forall p, q :: p in paths && q in paths && Join(sep, p) == Join(sep, q) ==> p == q
  }

  /** There are as many keys as paths exactly if no two paths share one. */
  lemma {:induction false} AsManyKeysExactly(sep: string, paths: set<seq<string>>)
    ensures |KeysOf(sep, paths)| <= |paths|
    ensures |KeysOf(sep, paths)| == |paths| <==> AreDistinct(sep, paths)
    decreases paths
  {
    if paths != {} {
      var p :| p in paths;
      var rest := paths - {p};
      AsManyKeysExactly(sep, rest);
      if q :| q in rest && Join(sep, q) == Join(sep, p) {
        assert KeysOf(sep, paths) == KeysOf(sep, rest);
      } else {
        assert KeysOf(sep, paths) == KeysOf(sep, rest) + {Join(sep, p)};
        assert Join(sep, p) !in KeysOf(sep, rest);
      }
    }
  }

  lemma KeysDistinguishExactly(sep: string, items: seq<Item>, keys: set<string>)
    requires forall k :: k in keys <==> SomeBelow(sep, items, k)
    ensures KeysDistinguish(sep, items) <==> |keys| == |InnerPaths(items)|
  {
    var paths := InnerPaths(items);
    forall k
      ensures k in keys <==> k in KeysOf(sep, paths)
    {
      KeyOfSomePath(sep, items, k);
    }
    assert keys == KeysOf(sep, paths);
    AsManyKeysExactly(sep, paths);
    DistinguishAll(sep, items, paths);
  }

  lemma DistinguishAll(sep: string, items: seq<Item>, paths: set<seq<string>>)
    requires forall p :: p in paths <==> IsInnerPath(items, p)
    ensures KeysDistinguish(sep, items) <==> AreDistinct(sep, paths)
  {
    assert forall p :: IsInnerPath(items, p) ==> p in paths;
  }

  lemma KeyOfSomePath(sep: string, items: seq<Item>, k: string)
    ensures SomeBelow(sep, items, k) <==> k in KeysOf(sep, InnerPaths(items))
  {
    if SomeBelow(sep, items, k) {
      var n :| 0 <= n < |items| && LiesBelow(sep, items[n], k);
      var p := BelowKey(sep, items, n, k);
    }
    if k in KeysOf(sep, InnerPaths(items)) {
      var p :| p in InnerPaths(items) && Join(sep, p) == k;
      var n :| 0 <= n < |items| && p < items[n].tree;
      BelowPath(sep, items[n], p);
    }
  }

  lemma JoinMore(sep: string, path: seq<string>, c: string)
    requires path != []
    ensures Join(sep, path + [c]) == Join(sep, path) + sep + c
  {
    assert (path + [c])[..|path|] == path;
  }

  /** A component that contains a separator has the key of the two components it would be cut into. */
  lemma UncutComponent(sep: string, path: seq<string>, a: string, b: string)
    requires path != []
    ensures Join(sep, path + [a + sep + b]) == Join(sep, path + [a] + [b])
  {
    JoinMore(sep, path, a + sep + b);
    JoinMore(sep, path, a);
    JoinMore(sep, path + [a], b);
    var front := Join(sep, path);
    assert front + sep + (a + sep + b) == front + sep + a + sep + b;
  }

  /** Two items whose paths share a key share a row and a total. */
  lemma SharedKey(sep: string, a: Item, b: Item, p: seq<string>, q: seq<string>)
    requires p != [] && q != [] && p != q && Join(sep, p) == Join(sep, q)
    requires p < a.tree && q < b.tree && !(p < b.tree) && !(q < a.tree)
    ensures IsInnerPath([a, b], p) && IsInnerPath([a, b], q) && !KeysDistinguish(sep, [a, b])
    ensures PathTotal([a, b], p) == a.size && PathTotal([a, b], q) == b.size
    ensures TotalBelow(sep, [a, b], Join(sep, p)) == a.size + b.size
  {
    assert p < [a, b][0].tree && q < [a, b][1].tree;
    BelowPath(sep, a, p);
    BelowPath(sep, b, q);
    TotalsOfTwo(sep, a, b, p);
    TotalsOfTwo(sep, a, b, q);
  }

  const CLUSTERS: seq<string> := ["chip", "app", "Clusters"]

  /** Two such symbols. The first path is what the patterns for Ember callbacks give for the name
      `emberAfX::YClusterInitCallback()`, the second what the namespace split gives for
      `chip::app::Clusters::X::Y::f()`. */
  lemma DifferentPathsOneKey()
    ensures var p, q := CLUSTERS + ["X::Y"], CLUSTERS + ["X"] + ["Y"];
            var a, b := Item("a", p + ["EMBER", "emberAfX::YClusterInitCallback()"], 1), Item("b", q + ["f()"], 2);
            GoodPath(a.tree) && GoodPath(b.tree) && IsInnerPath([a, b], p) && IsInnerPath([a, b], q) &&
            p != q && Join("::", p) == Join("::", q) && !KeysDistinguish("::", [a, b]) &&
            PathTotal([a, b], p) == 1 && PathTotal([a, b], q) == 2 && TotalBelow("::", [a, b], Join("::", p)) == 3
  {
    var p, q := CLUSTERS + ["X::Y"], CLUSTERS + ["X"] + ["Y"];
    var a, b := Item("a", p + ["EMBER", "emberAfX::YClusterInitCallback()"], 1), Item("b", q + ["f()"], 2);
    OneComponentDiffers(p, q, a.tree, b.tree);
    assert "X" + "::" + "Y" == "X::Y";
    UncutComponent("::", CLUSTERS, "X", "Y");
    SharedKey("::", a, b, p, q);
  }

  lemma OneComponentDiffers(p: seq<string>, q: seq<string>, a: seq<string>, b: seq<string>)
    requires p == CLUSTERS + ["X::Y"] && q == CLUSTERS + ["X"] + ["Y"] && p < a && q < b
    ensures p != q && !(p < b) && !(q < a)
  {
    assert p[3] == "X::Y" && q[3] == "X" && |p[3]| != |q[3]|;
    assert a[3] == p[3] && b[3] == q[3];
  }

  lemma TotalsOfTwo(sep: string, a: Item, b: Item, p: seq<string>)
    ensures PathTotal([a, b], p) == (if p < a.tree then a.size else 0) + if p < b.tree then b.size else 0
    ensures TotalBelow(sep, [a, b], Join(sep, p)) ==
            (if LiesBelow(sep, a, Join(sep, p)) then a.size else 0) +
              if LiesBelow(sep, b, Join(sep, p)) then b.size else 0
  {
    assert [a, b][..1] == [a] && [a][..0] == [];
    assert PathTotal([a], p) == if p < a.tree then a.size else 0;
    assert TotalBelow(sep, [a], Join(sep, p)) == if LiesBelow(sep, a, Join(sep, p)) then a.size else 0;
  }

  // ----- A condition on components -----

  ghost predicate IsInnerComponent(items: seq<Item>, c: string) {
    exists n, j :: 0 <= n < |items| && 0 <= j < |items[n].tree| - 1 && items[n].tree[j] == c
  }

  /** No inner component with a separator behind it begins another one with a separator behind it. */
  ghost predicate ArePrefixFree(sep: string, items: seq<Item>) {
    forall c, d :: IsInnerComponent(items, c) && IsInnerComponent(items, d) && c + sep <= d + sep ==> c == d
  }

  /** Every component with a separator behind it. */
  ghost function Coded(sep: string, path: seq<string>): string {
    if path == [] then "" else path[0] + sep + Coded(sep, path[1..])
  }

  lemma {:induction false} CodedMore(sep: string, path: seq<string>, c: string)
    ensures Coded(sep, path + [c]) == Coded(sep, path) + (c + sep)
  {
    if path == [] {
      assert ([] + [c])[1..] == [];
      assert c + sep + "" == "" + (c + sep);
    } else {
      CodedMore(sep, path[1..], c);
      assert (path + [c])[1..] == path[1..] + [c];
    }
  }

  lemma {:induction false} JoinCoded(sep: string, path: seq<string>)
    requires path != []
    ensures Join(sep, path) + sep == Coded(sep, path)
  {
    var n := |path| - 1;
    assert path == path[..n] + [path[n]];
    CodedMore(sep, path[..n], path[n]);
    if n > 0 {
      JoinCoded(sep, path[..n]);
    }
  }

  ghost predicate AllInner(items: seq<Item>, path: seq<string>) {
    forall i :: 0 <= i < |path| ==> IsInnerComponent(items, path[i])
  }

  lemma PrefixesCompare(a: string, b: string, s: string)
    requires a <= s && b <= s
    ensures a <= b || b <= a
  {
  }

  lemma {:induction false} CodedInjective(sep: string, items: seq<Item>, p: seq<string>, q: seq<string>)
    requires sep != "" && ArePrefixFree(sep, items) && AllInner(items, p) && AllInner(items, q)
    requires Coded(sep, p) == Coded(sep, q)
    ensures p == q
  {
    if p != [] && q != [] {
      var c, d := p[0] + sep, q[0] + sep;
      var s := Coded(sep, p);
      assert s[..|c|] == c && s[..|d|] == d;
      assert IsInnerComponent(items, p[0]) && IsInnerComponent(items, q[0]);
      PrefixesCompare(c, d, s);
      assert s[|c|..] == Coded(sep, p[1..]) && s[|d|..] == Coded(sep, q[1..]);
      CodedInjective(sep, items, p[1..], q[1..]);
      assert p == [p[0]] + p[1..] && q == [q[0]] + q[1..];
    }
  }

  /** Prefix-free components are enough for keys to distinguish paths. */
  lemma PrefixFreeKeysDistinguish(sep: string, items: seq<Item>)
    requires sep != "" && ArePrefixFree(sep, items)
    ensures KeysDistinguish(sep, items)
  {
    forall p, q | IsInnerPath(items, p) && IsInnerPath(items, q) && Join(sep, p) == Join(sep, q)
      ensures p == q
    {
      InnerPathComponents(items, p);
      InnerPathComponents(items, q);
      JoinCoded(sep, p);
      JoinCoded(sep, q);
      CodedInjective(sep, items, p, q);
    }
  }

  lemma InnerPathComponents(items: seq<Item>, p: seq<string>)
    requires IsInnerPath(items, p)
    ensures AllInner(items, p)
  {
    var n :| 0 <= n < |items| && p < items[n].tree;
    forall i | 0 <= i < |p|
      ensures IsInnerComponent(items, p[i])
    {
      assert items[n].tree[i] == p[i];
    }
  }

  /** For a separator of one character it is enough that no inner component contains it. */
  lemma OneCharacterSeparator(c: char, items: seq<Item>)
    requires forall d :: IsInnerComponent(items, d) ==> c !in d
    ensures ArePrefixFree([c], items)
  {
    forall d, e | IsInnerComponent(items, d) && IsInnerComponent(items, e) && d + [c] <= e + [c]
      ensures d == e
    {
      assert forall i :: 0 <= i < |e| ==> e[i] != c;
      assert (d + [c])[|d|] == (e + [c])[|d|];
      assert (d + [c])[..|d|] == (e + [c])[..|d|];
    }
  }

  /** For a longer one it is not. */
  lemma LongerSeparator()
    ensures ["a:", "b"] != ["a", ":b"] && Join("::", ["a:", "b"]) == Join("::", ["a", ":b"])
  {
    assert ["a:", "b"][0] != ["a", ":b"][0];
    assert ["a:", "b"][..1] == ["a:"] && ["a", ":b"][..1] == ["a"];
    assert "a:" + "::" + "b" == "a" + "::" + ":b";
  }
}
