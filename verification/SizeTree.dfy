/** From symbol names to the size tree: the paths that names are split into have keys of their own. */
module SizeTree {
  import opened NameSplit
  import opened TreeKeys
  import opened Treemap
  import opened TreemapPaths

  // ----- Pieces -----

  /** Pieces as a name is split into: no separator outside brackets is in any, even one that begins at its end,
      and only the last may leave a bracket open. */
  ghost predicate AreNamespaces(pieces: seq<string>) {
    forall i :: 0 <= i < |pieces| ==> IsClean(pieces[i]) && (i < |pieces| - 1 ==> Level(pieces[i]) == 0)
  }

  /** So are the inner components of the path of every name. */
  lemma InnerAreNamespaces(whole: string, path: seq<string>, typePrefix: string, name: string, typeSuffix: string,
                           separated: seq<bool>, last: string)
    requires IsPathOf(whole, path, typePrefix, name, typeSuffix, separated, last)
    ensures IsSplitPath(path)
  {
    var pieces := path[..|path| - 1];
    assert forall i :: 0 <= i < |pieces| ==> pieces[i] in pieces;
  }

  lemma PartOfPath(path: seq<string>, k: nat, p: seq<string>)
    requires IsSplitPath(path) && k <= |path| && p < path[k..]
    ensures AreNamespaces(p)
  {
    var pieces := path[..|path| - 1];
    forall i | 0 <= i < |p|
      ensures IsClean(p[i]) && (i < |p| - 1 ==> Level(p[i]) == 0)
    {
      assert p[i] == pieces[k + i];
    }
  }

  lemma TailOfNamespaces(pieces: seq<string>)
    requires pieces != [] && AreNamespaces(pieces)
    ensures AreNamespaces(pieces[1..])
  {
  }

  lemma SeparatorBehind(c: string, d: string)
    requires c + SEPARATOR <= d + SEPARATOR
    ensures |c| <= |d| && d[..|c|] == c && OccursAt(d + SEPARATOR, SEPARATOR, |c|)
  {
    assert (c + SEPARATOR)[..|c|] == (d + SEPARATOR)[..|c|];
    IsColons(c + SEPARATOR, |c|);
    IsColons(d + SEPARATOR, |c|);
  }

  /** A longer first piece of the same code has the other's separator inside: the other leaves a bracket open,
      and more follows it. */
  lemma LongerFirst(c: string, more: string, d: string, more': string)
    requires c + SEPARATOR + more == d + SEPARATOR + more' && |c| < |d| && IsClean(d)
    ensures Level(c) > 0 && more != ""
  {
    var code := c + SEPARATOR + more;
    assert c + SEPARATOR <= code && d + SEPARATOR <= code;
    PrefixesCompare(c + SEPARATOR, d + SEPARATOR, code);
    SeparatorBehind(c, d);
  }

  lemma FirstNotLonger(p: seq<string>, q: seq<string>)
    requires AreNamespaces(p) && AreNamespaces(q) && p != [] && q != [] && Coded(SEPARATOR, p) == Coded(SEPARATOR, q)
    ensures |p[0]| >= |q[0]|
  {
    if |p[0]| < |q[0]| {
      LongerFirst(p[0], Coded(SEPARATOR, p[1..]), q[0], Coded(SEPARATOR, q[1..]));
    }
  }

  /** Lists of pieces with the same code are the same. */
  lemma {:induction false} CodeIsInjective(p: seq<string>, q: seq<string>)
    requires AreNamespaces(p) && AreNamespaces(q) && Coded(SEPARATOR, p) == Coded(SEPARATOR, q)
    ensures p == q
  {
    if p != [] && q != [] {
      FirstNotLonger(p, q);
      FirstNotLonger(q, p);
      var n, code := |p[0]|, Coded(SEPARATOR, p);
      assert p[0] == code[..n] == q[0];
      assert Coded(SEPARATOR, p[1..]) == code[n + 2..] == Coded(SEPARATOR, q[1..]);
      TailOfNamespaces(p);
      TailOfNamespaces(q);
      CodeIsInjective(p[1..], q[1..]);
      assert p == [p[0]] + p[1..] && q == [q[0]] + q[1..];
    }
  }

  /** A path has no empty component but perhaps the last exactly if what is split into namespaces neither
      starts with a separator nor has two in a row outside brackets. */
  lemma PathIsGoodExactly(whole: string, path: seq<string>, typePrefix: string, name: string, typeSuffix: string,
                          separated: seq<bool>, last: string)
    requires IsPathOf(whole, path, typePrefix, name, typeSuffix, separated, last)
    ensures GoodPath(path) <==> !HasGap(name)
    ensures path[|path| - 1] == "" <==> typePrefix == "" && last == "" && typeSuffix == ""
  {
    var pieces := path[..|path| - 1];
    assert forall i :: 0 <= i < |pieces| ==> pieces[i] == path[i];
  }

  // ----- Trees -----

  ghost predicate IsSplitPath(path: seq<string>) {
    path != [] && AreNamespaces(path[..|path| - 1])
  }

  ghost predicate AllSplit(symbols: seq<Symbol>) {
    forall m :: 0 <= m < |symbols| ==> IsSplitPath(symbols[m].path)
  }

  /** Every kept tree is the end of a symbol's path. */
  lemma {:induction false} KeptTrees(s: Settings, symbols: seq<Symbol>, count: nat, n: nat) returns (m: nat, k: nat)
    requires count <= |symbols| && n < |KeptUpTo(s, symbols, count)|
    ensures m < |symbols| && k <= |symbols[m].path| && KeptUpTo(s, symbols, count)[n].tree == symbols[m].path[k..]
  {
    m := count - 1;
    if n < |KeptUpTo(s, symbols, m)| {
      m, k := KeptTrees(s, symbols, m, n);
    } else {
      var tree := KeptUpTo(s, symbols, count)[n].tree;
      assert KeptOf(s, symbols[m])[0].tree == tree;
      if s.zoom.None? {
        k := 0;
      } else {
        k :| 1 <= k < |symbols[m].path| && tree == symbols[m].path[k..];
      }
    }
  }

  lemma InnerPathsAreNamespaces(s: Settings, symbols: seq<Symbol>, p: seq<string>)
    requires AllSplit(symbols) && IsInnerPath(KeptItems(s, symbols), p)
    ensures AreNamespaces(p)
  {
    var items := KeptItems(s, symbols);
    var n :| 0 <= n < |items| && p < items[n].tree;
    var m, k := KeptTrees(s, symbols, |symbols|, n);
    PartOfPath(symbols[m].path, k, p);
  }

  /** When all symbols' paths are such as names are split into, different inner paths have different keys,
      whatever is zoomed to or stripped. */
  lemma SplitKeysDistinguish(s: Settings, symbols: seq<Symbol>)
    requires s.sep == SEPARATOR && AllSplit(symbols)
    ensures KeysDistinguish(s.sep, KeptItems(s, symbols))
  {
    var items := KeptItems(s, symbols);
    forall p, q | IsInnerPath(items, p) && IsInnerPath(items, q) && Join(s.sep, p) == Join(s.sep, q)
      ensures p == q
    {
      InnerPathsAreNamespaces(s, symbols, p);
      InnerPathsAreNamespaces(s, symbols, q);
      JoinCoded(s.sep, p);
      JoinCoded(s.sep, q);
      CodeIsInjective(p, q);
    }
  }

  /** So their size tree has one row for each inner path, whose total is the sum of the sizes of the symbols below
      the path, and of what is right under the row. */
  lemma SplitTreeIsRight(s: Settings, symbols: seq<Symbol>, rows: seq<Row>, totals: map<string, nat>, p: seq<string>)
    requires s.sep == SEPARATOR && !(s.sep <= s.root) && AllSplit(symbols)
    requires IsTreemap(s, KeptItems(s, symbols), rows, totals)
    ensures |InnerRows(rows)| == |InnerPaths(KeptItems(s, symbols))|
    ensures IsInnerPath(KeptItems(s, symbols), p) ==>
              Join(s.sep, p) in totals &&
              totals[Join(s.sep, p)] == PathTotal(KeptItems(s, symbols), p) == ChildSum(rows, totals, IdOf(s, p))
  {
    var items := KeptItems(s, symbols);
    SplitKeysDistinguish(s, symbols);
    OneRowPerPathExactly(s, items, rows, totals);
    if IsInnerPath(items, p) {
      var i := RowOfPath(s, items, rows, totals, p);
      TotalsFlow(s, items, rows, totals, p);
    }
  }
}
