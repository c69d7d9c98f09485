/** Splitting a demangled C++ name into the path it takes in the size tree: the type in front and the
    arguments behind are set aside, and the rest is cut at `::` outside template brackets. */
module NameSplit {

  const SEPARATOR := "::"

  predicate OccursAt(s: string, word: string, i: nat) {
    i + |word| <= |s| && s[i..i + |word|] == word
  }

  /** The first place from `i` on where a word occurs, or -1. */
  function FindFrom(s: string, word: string, i: nat): (r: int)
    requires i <= |s|
    ensures r == -1 || (i <= r && OccursAt(s, word, r))
    ensures forall j :: i <= j && (r == -1 || j < r) ==> !OccursAt(s, word, j)
    decreases |s| - i
  {
    if OccursAt(s, word, i) then i
    else if i == |s| then -1
    else FindFrom(s, word, i + 1)
  }

  function Find(s: string, word: string): int {
    FindFrom(s, word, 0)
  }

  /** The first opening bracket from `i` on, or -1. */
  function FindBracket(s: string, i: nat): (r: int)
    requires i <= |s|
    ensures r == -1 || (i <= r < |s| && s[r] == '<')
    ensures forall j :: i <= j < (if r == -1 then |s| else r) ==> s[j] != '<'
    decreases |s| - i
  {
    if i == |s| then -1 else if s[i] == '<' then i else FindBracket(s, i + 1)
  }

  /** No opening bracket among the first `n` characters. */
  ghost predicate Unopened(s: string, n: nat)
    requires n <= |s|
  {
    forall j :: 0 <= j < n ==> s[j] != '<'
  }

  // ----- Bracket depth -----

  function Weight(c: char): int {
    if c == '<' then 1 else if c == '>' then -1 else 0
  }

  function Depth(s: string): int {
    if s == [] then 0 else Depth(s[..|s| - 1]) + Weight(s[|s| - 1])
  }

  lemma DepthNext(s: string, i: nat)
    requires i < |s|
    ensures Depth(s[..i + 1]) == Depth(s[..i]) + Weight(s[i])
  {
    assert s[..i + 1][..i] == s[..i];
  }

  lemma {:induction false} DepthConcat(a: string, b: string)
    ensures Depth(a + b) == Depth(a) + Depth(b)
  {
    if b == [] {
      assert a + b == a;
    } else {
      DepthConcat(a, b[..|b| - 1]);
      assert (a + b)[..|a + b| - 1] == a + b[..|b| - 1];
    }
  }

  /** The depth is the number of opening brackets less that of closing ones. */
  lemma {:induction false} DepthExactly(s: string)
    ensures Depth(s) + multiset(s)['>'] == multiset(s)['<']
  {
    if s != "" {
      var n := |s| - 1;
      DepthExactly(s[..n]);
      assert s == s[..n] + [s[n]];
    }
  }

  /** Brackets close in order and all of them do. */
  ghost predicate Nested(s: string) {
    Depth(s) == 0 && forall i :: 0 <= i <= |s| ==> Depth(s[..i]) >= 0
  }

  /** Cutting a nested name where the depth is zero leaves two nested names. */
  lemma CutAtDepthZero(s: string, i: nat)
    requires Nested(s) && i <= |s| && Depth(s[..i]) == 0
    ensures Nested(s[..i]) && Nested(s[i..])
  {
    assert s == s[..i] + s[i..];
    DepthConcat(s[..i], s[i..]);
    forall j | 0 <= j <= i
      ensures Depth(s[..i][..j]) >= 0
    {
      assert s[..i][..j] == s[..j];
    }
    forall j | 0 <= j <= |s[i..]|
      ensures Depth(s[i..][..j]) >= 0
    {
      assert s[..i + j] == s[..i] + s[i..][..j];
      DepthConcat(s[..i], s[i..][..j]);
    }
  }

  /** A nested name stays nested without a separator in front. */
  lemma DropSeparator(s: string)
    requires Nested(s) && OccursAt(s, SEPARATOR, 0)
    ensures Nested(s[2..])
  {
    assert s[0] == SEPARATOR[0] && s[1] == SEPARATOR[1];
    DepthNext(s, 0);
    DepthNext(s, 1);
    assert s[..0] == [];
    CutAtDepthZero(s, 2);
  }

  // ----- Bracket level -----

  /** How deep the namespace split takes the end of a string to be: a closing bracket that closes nothing
      does not count. */
  function Level(s: string): nat {
    if s == [] then 0
    else
      var before, c := Level(s[..|s| - 1]), s[|s| - 1];
      if c == '<' then before + 1 else if c == '>' && before > 0 then before - 1 else before
  }

  lemma LevelNext(s: string, i: nat)
    requires i < |s|
    ensures Level(s[..i + 1]) ==
            if s[i] == '<' then Level(s[..i]) + 1
            else if s[i] == '>' && Level(s[..i]) > 0 then Level(s[..i]) - 1 else Level(s[..i])
  {
    assert s[..i + 1][..i] == s[..i];
  }

  lemma {:induction false} LevelConcat(a: string, b: string)
    requires Level(a) == 0
    ensures Level(a + b) == Level(b)
  {
    if b == [] {
      assert a + b == a;
    } else {
      LevelConcat(a, b[..|b| - 1]);
      assert (a + b)[..|a + b| - 1] == a + b[..|b| - 1];
    }
  }

  /** On nested names the level is the bracket depth. */
  lemma {:induction false} LevelIsDepth(s: string, i: nat)
    requires Nested(s) && i <= |s|
    ensures Level(s[..i]) == Depth(s[..i])
  {
    if i > 0 {
      LevelIsDepth(s, i - 1);
      LevelNext(s, i - 1);
      DepthNext(s, i - 1);
      assert Depth(s[..i]) >= 0;
    }
  }

  lemma {:induction false} LevelUnopened(s: string, i: nat)
    requires i <= |s| && Unopened(s, i)
    ensures Level(s[..i]) == 0
  {
    if i > 0 {
      LevelUnopened(s, i - 1);
      LevelNext(s, i - 1);
    }
  }

  /** Where the rest begins after a cut: a separator there is dropped. */
  function RestStart(name: string, cut: nat): (start: nat)
    requires cut <= |name|
    ensures cut <= start <= |name|
  {
    if OccursAt(name, SEPARATOR, cut) then cut + 2 else cut
  }

  function Rest(name: string, cut: nat): string
    requires cut <= |name|
  {
    name[RestStart(name, cut)..]
  }

  /** Past a cut at level zero, and the separator there if it is dropped, levels count from the cut. */
  lemma LevelAfterCut(s: string, cut: nat, i: nat)
    requires cut <= |s| && Level(s[..cut]) == 0 && RestStart(s, cut) <= i <= |s|
    ensures Level(Rest(s, cut)[..i - RestStart(s, cut)]) == Level(s[..i])
  {
    var start := RestStart(s, cut);
    if start > cut {
      IsColons(s, cut);
      LevelNext(s, cut);
      LevelNext(s, cut + 1);
    }
    assert s[..start] + Rest(s, cut)[..i - start] == s[..i];
    LevelConcat(s[..start], Rest(s, cut)[..i - start]);
  }

  // ----- Pieces -----

  /** The pieces, each followed by a separator or nothing. */
  ghost function Joined(pieces: seq<string>, separated: seq<bool>): string
    requires |pieces| == |separated|
  {
    if pieces == [] then ""
    else
      var n := |pieces| - 1;
      Joined(pieces[..n], separated[..n]) + (pieces[n] + (if separated[n] then SEPARATOR else ""))
  }

  lemma Regroup(a: string, b: string, c: string, d: string)
    ensures a + (b + c) + d == a + (b + (c + d))
  {
  }

  lemma Associates<T>(a: seq<T>, b: seq<T>, c: seq<T>)
    ensures a + b + c == a + (b + c)
  {
  }

  lemma Reassemble(name: string, i: nat)
    requires OccursAt(name, SEPARATOR, i)
    ensures name == name[..i] + (SEPARATOR + name[i + 2..])
  {
  }

  lemma CutInTwo(s: string, i: nat)
    requires i <= |s|
    ensures s == s[..i] + s[i..] && "" + s[i..] == s[i..]
  {
  }

  /** Cutting at `pos` and dropping a separator that follows. */
  lemma CutAndDrop(name: string, pos: nat)
    requires pos <= |name|
    ensures name == name[..pos] + ("" + name[pos..])
    ensures OccursAt(name[pos..], SEPARATOR, 0) ==> name == name[..pos] + (SEPARATOR + name[pos..][2..])
  {
    CutInTwo(name, pos);
    if OccursAt(name[pos..], SEPARATOR, 0) {
      CutInTwo(name[pos..], 2);
    }
  }

  lemma JoinedMore(pieces: seq<string>, separated: seq<bool>, piece: string, sep: bool, rest: string)
    requires |pieces| == |separated|
    ensures Joined(pieces + [piece], separated + [sep]) + rest ==
            Joined(pieces, separated) + (piece + ((if sep then SEPARATOR else "") + rest))
  {
    assert (pieces + [piece])[..|pieces|] == pieces && (separated + [sep])[..|pieces|] == separated;
    Regroup(Joined(pieces, separated), piece, if sep then SEPARATOR else "", rest);
  }

  /** Outside brackets there is no separator in the piece, nor does one begin in it when the piece is
      followed by a separator. */
  ghost predicate IsClean(piece: string) {
    forall i :: 0 <= i < |piece| && OccursAt(piece + SEPARATOR, SEPARATOR, i) ==> Level(piece[..i]) > 0
  }

  /** A separator in front, or two in a row outside brackets. */
  ghost predicate HasGap(s: string) {
    OccursAt(s, SEPARATOR, 0) || exists i: nat :: IsDouble(s, i)
  }

  ghost predicate IsDouble(s: string, i: nat) {
    OccursAt(s, SEPARATOR, i) && OccursAt(s, SEPARATOR, i + 2) && Level(s[..i]) == 0
  }

  lemma IsColons(s: string, i: nat)
    ensures OccursAt(s, SEPARATOR, i) <==> i + 2 <= |s| && s[i] == ':' && s[i + 1] == ':'
  {
    if i + 2 <= |s| {
      assert s[i..i + 2] == [s[i], s[i + 1]];
    }
  }

  lemma OccursInSuffix(s: string, start: nat, i: nat)
    requires start <= |s|
    ensures OccursAt(s[start..], SEPARATOR, i) <==> OccursAt(s, SEPARATOR, start + i)
  {
    IsColons(s[start..], i);
    IsColons(s, start + i);
  }

  ghost predicate HasSeparator(s: string) {
    exists i: nat :: OccursAt(s, SEPARATOR, i)
  }

  /** The character at `i` closes the outermost bracket. */
  ghost predicate IsClosing(s: string, i: nat) {
    i < |s| && Level(s[..i]) > 0 && Level(s[..i + 1]) == 0
  }

  /** What is cut off in front of `rest`, with the separator behind it if `sep`. No separator outside brackets
      is in it, and its brackets close nowhere but at its end. Without a separator behind, the cut comes
      right after brackets, or takes all that is left, and meets no separator; an open bracket takes all. */
  ghost predicate IsPiece(piece: string, sep: bool, rest: string) {
    IsClean(piece) && (forall i: nat :: IsClosing(piece, i) ==> i == |piece| - 1) &&
    (sep || (!OccursAt(rest, SEPARATOR, 0) && (rest == "" || (piece != "" && IsClosing(piece, |piece| - 1))))) &&
    (Level(piece) == 0 || (!sep && rest == ""))
  }

  function Behind(piece: string, sep: bool): string {
    piece + if sep then SEPARATOR else ""
  }

  /** Pieces are cut off as long as there is a separator anywhere in what is left. */
  ghost predicate IsSplit(whole: string, pieces: seq<string>, separated: seq<bool>, name: string)
    decreases |pieces|
  {
    |pieces| == |separated| &&
    if |pieces| == 0 then name == whole && !HasSeparator(whole)
    else
      var cut := Behind(pieces[0], separated[0]);
      HasSeparator(whole) && cut <= whole && IsPiece(pieces[0], separated[0], whole[|cut|..]) &&
      IsSplit(whole[|cut|..], pieces[1..], separated[1..], name)
  }

  lemma SeparatorInside(whole: string, c: string, d: string, sep: bool)
    requires Behind(c, true) <= whole && Behind(d, sep) <= whole && |c| < |d| && IsClean(d)
    ensures Level(c) > 0
  {
    PrefixOf(whole, c, true, d, sep);
    IsColons(whole, |c|);
    IsColons(d + SEPARATOR, |c|);
  }

  lemma ClosingInside(c: string, d: string)
    requires c != "" && |c| < |d| && d[..|c|] == c && IsClosing(c, |c| - 1)
    ensures IsClosing(d, |c| - 1)
  {
    assert d[..|c| - 1] == c[..|c| - 1] && c[..|c|] == c;
  }

  lemma NotShorter(whole: string, c: string, sep: bool, d: string, sep': bool)
    requires Behind(c, sep) <= whole && Behind(d, sep') <= whole
    requires IsPiece(c, sep, whole[|Behind(c, sep)|..]) && IsPiece(d, sep', whole[|Behind(d, sep')|..])
    ensures |c| >= |d|
  {
    if |c| < |d| {
      if sep {
        SeparatorInside(whole, c, d, sep');
      } else {
        PrefixOf(whole, c, sep, d, sep');
        ClosingInside(c, d);
      }
    }
  }

  lemma PrefixOf(whole: string, c: string, sep: bool, d: string, sep': bool)
    requires Behind(c, sep) <= whole && Behind(d, sep') <= whole && |c| < |d|
    ensures d[..|c|] == c == whole[..|c|] && whole[..|d|] == d
    ensures sep ==> OccursAt(whole, SEPARATOR, |c|)
  {
    assert whole[..|c|] == Behind(c, sep)[..|c|] == c;
    assert whole[..|d|] == Behind(d, sep')[..|d|] == d;
    if sep {
      IsColons(c + SEPARATOR, |c|);
      IsColons(whole, |c|);
    }
  }

  lemma SamePiece(whole: string, c: string, sep: bool, d: string, sep': bool)
    requires Behind(c, sep) <= whole && Behind(d, sep') <= whole
    requires IsPiece(c, sep, whole[|Behind(c, sep)|..]) && IsPiece(d, sep', whole[|Behind(d, sep')|..])
    ensures c == d && sep == sep'
  {
    NotShorter(whole, c, sep, d, sep');
    NotShorter(whole, d, sep', c, sep);
    assert c == whole[..|c|] == d;
    assert c + SEPARATOR <= whole ==> OccursAt(whole[|c|..], SEPARATOR, 0) by {
      IsColons(c + SEPARATOR, |c|);
      IsColons(whole, |c|);
      OccursInSuffix(whole, |c|, 0);
    }
  }

  /** There is only one such split of a name. */
  lemma {:induction false} SplitIsUnique(whole: string, p: seq<string>, ps: seq<bool>, name: string,
                                         q: seq<string>, qs: seq<bool>, name': string)
    requires IsSplit(whole, p, ps, name) && IsSplit(whole, q, qs, name')
    ensures p == q && ps == qs && name == name'
    decreases |p|
  {
    if |p| > 0 && |q| > 0 {
      SamePiece(whole, p[0], ps[0], q[0], qs[0]);
      SplitIsUnique(whole[|Behind(p[0], ps[0])|..], p[1..], ps[1..], name, q[1..], qs[1..], name');
    }
  }

  /** What the namespace split promises: it is the one split above, the pieces with their separators and the
      last part are the whole name, the last part has no separator, the name is cut at every separator
      outside brackets, and only outside brackets unless a bracket is never closed, and there is an empty
      piece exactly if the name has a gap. */
  ghost predicate IsNamespaceSplit(whole: string, pieces: seq<string>, separated: seq<bool>, name: string) {
    IsSplit(whole, pieces, separated, name) && Joined(pieces, separated) + name == whole &&
    (forall i :: 0 <= i <= |name| ==> !OccursAt(name, SEPARATOR, i)) &&
    (forall p :: p in pieces ==> IsClean(p)) &&
    CutOutside(whole, pieces, name) && ("" in pieces <==> HasGap(whole))
  }

  /** Every cut is outside brackets, except after an opening bracket that is never closed, where the rest of
      the name is one piece; the pieces of a closed name are closed, and of a nested name nested. */
  ghost predicate CutOutside(whole: string, pieces: seq<string>, name: string) {
    (forall i :: 0 <= i < |pieces| ==> Level(pieces[i]) == 0 || (i == |pieces| - 1 && name == "")) &&
    (Level(whole) == 0 ==> Level(name) == 0 && forall p :: p in pieces ==> Level(p) == 0) &&
    (Nested(whole) ==> Nested(name) && forall p :: p in pieces ==> Nested(p))
  }

  /** The loop that looks for the bracket matching the first one: right after it the level is zero for the
      first time again, or the name ends. */
  method MatchBracket(name: string, less: nat) returns (pos: nat)
    requires less + 1 < |name| && name[less] == '<' && Unopened(name, less)
    ensures less + 1 < pos <= |name|
    ensures pos == |name| || (Level(name[..pos]) == 0 && name[pos - 1] == '>')
    ensures forall j :: less < j < pos ==> Level(name[..j]) > 0
  {
    pos := less + 1;
    var indent := 1;
    LevelUnopened(name, less);
    LevelNext(name, less);
    while indent > 0
      invariant less + 1 <= pos < |name| && (pos == less + 1 ==> indent == 1)
      invariant indent == Level(name[..pos])
      invariant forall j :: less < j < pos ==> Level(name[..j]) > 0
      invariant indent > 0 || name[pos - 1] == '>'
      decreases |name| - pos
    {
      LevelNext(name, pos);
      if name[pos] == '>' {
        indent := indent - 1;
      } else if name[pos] == '<' {
        indent := indent + 1;
      }
      pos := pos + 1;
      if pos == |name| {
        break;
      }
    }
  }

  /** Where one round cuts: at the first separator outside brackets, or after the first brackets. */
  ghost predicate IsCut(name: string, cut: nat) {
    cut <= |name| && (Level(name[..cut]) == 0 || cut == |name|) &&
    (cut == 0 ==> OccursAt(name, SEPARATOR, 0)) &&
    IsClean(name[..cut]) &&
    forall i :: 0 <= i < cut && OccursAt(name, SEPARATOR, i) ==> Level(name[..i]) > 0
  }

  lemma CutAtSeparator(name: string, at: nat)
    requires OccursAt(name, SEPARATOR, at) && Unopened(name, at)
    requires forall i :: 0 <= i < at ==> !OccursAt(name, SEPARATOR, i)
    ensures IsCut(name, at)
  {
    LevelUnopened(name, at);
    var piece := name[..at];
    assert piece + SEPARATOR == name[..at + 2] by {
      assert name[at..at + 2] == SEPARATOR;
    }
    forall i | 0 <= i < at
      ensures !OccursAt(piece + SEPARATOR, SEPARATOR, i)
    {
      OccursInPrefix(name, at + 2, i);
    }
  }

  lemma OccursInPrefix(name: string, end: nat, i: nat)
    requires end <= |name|
    ensures OccursAt(name[..end], SEPARATOR, i) ==> OccursAt(name, SEPARATOR, i)
  {
    if i + 2 <= end {
      assert name[..end][i..i + 2] == name[i..i + 2];
    }
  }

  lemma CutAfterBracket(name: string, less: nat, pos: nat)
    requires less + 1 < pos <= |name| && (pos == |name| || Level(name[..pos]) == 0)
    requires forall i :: 0 <= i <= less ==> !OccursAt(name, SEPARATOR, i)
    requires forall j :: less < j < pos ==> Level(name[..j]) > 0
    ensures IsCut(name, pos)
  {
    var piece := name[..pos];
    forall i | 0 <= i < pos && OccursAt(piece + SEPARATOR, SEPARATOR, i)
      ensures Level(piece[..i]) > 0
    {
      assert piece[..i] == name[..i];
      if i <= less {
        assert (piece + SEPARATOR)[i..i + 2] == name[i..i + 2];
        assert OccursAt(name, SEPARATOR, i);
      }
    }
  }

  /** The name has a gap exactly if it is cut at the front, or the rest has one. */
  lemma GapInRest(name: string, cut: nat)
    requires IsCut(name, cut)
    ensures HasGap(name) <==> cut == 0 || HasGap(Rest(name, cut))
  {
    if HasGap(name) && cut > 0 {
      GapGoesOn(name, cut);
    }
    if cut > 0 && HasGap(Rest(name, cut)) {
      GapWasThere(name, cut);
    }
  }

  lemma GapGoesOn(name: string, cut: nat)
    requires IsCut(name, cut) && cut > 0 && HasGap(name)
    ensures HasGap(Rest(name, cut))
  {
    assert name[..0] == "";
    var i: nat :| IsDouble(name, i);
    assert cut <= i < |name|;
    if i < RestStart(name, cut) {
      DoubleAtCut(name, cut, i);
    } else {
      DoubleInRest(name, cut, i);
    }
  }

  lemma DoubleAtCut(name: string, cut: nat, i: nat)
    requires cut <= |name| && cut <= i < RestStart(name, cut)
    requires OccursAt(name, SEPARATOR, i) && OccursAt(name, SEPARATOR, i + 2)
    ensures OccursAt(Rest(name, cut), SEPARATOR, 0)
  {
    IsColons(name, i);
    IsColons(name, i + 2);
    IsColons(name, cut + 2);
    OccursInSuffix(name, cut + 2, 0);
  }

  lemma DoubleInRest(name: string, cut: nat, i: nat)
    requires cut <= |name| && Level(name[..cut]) == 0 && RestStart(name, cut) <= i <= |name|
    ensures IsDouble(Rest(name, cut), i - RestStart(name, cut)) <==> IsDouble(name, i)
  {
    var start := RestStart(name, cut);
    LevelAfterCut(name, cut, i);
    OccursInSuffix(name, start, i - start);
    OccursInSuffix(name, start, i - start + 2);
  }

  lemma GapWasThere(name: string, cut: nat)
    requires IsCut(name, cut) && cut > 0 && HasGap(Rest(name, cut))
    ensures HasGap(name)
  {
    var start, rest := RestStart(name, cut), Rest(name, cut);
    if OccursAt(rest, SEPARATOR, 0) {
      OccursInSuffix(name, start, 0);
      assert IsDouble(name, cut);
    } else {
      var i: nat :| IsDouble(rest, i);
      assert i <= |rest|;
      assert start + i <= |name|;
      DoubleInRest(name, cut, start + i);
    }
  }

  /** The rest of a closed name is closed, and so is the piece. */
  lemma CutKeepsClosed(name: string, cut: nat)
    requires IsCut(name, cut)
    ensures Level(name[..cut]) == 0 || Rest(name, cut) == ""
    ensures Level(name) == 0 ==> Level(name[..cut]) == 0 && Level(Rest(name, cut)) == 0
  {
    assert name[..|name|] == name && Rest(name, cut)[..|name| - RestStart(name, cut)] == Rest(name, cut);
    if Level(name[..cut]) == 0 {
      LevelAfterCut(name, cut, |name|);
    }
  }

  /** Likewise for nested names. */
  lemma CutKeepsNested(name: string, cut: nat)
    requires IsCut(name, cut) && Nested(name)
    ensures Nested(name[..cut]) && Nested(Rest(name, cut))
  {
    assert name[..|name|] == name;
    LevelIsDepth(name, |name|);
    LevelIsDepth(name, cut);
    CutAtDepthZero(name, cut);
    RestAfter(name, cut);
    if OccursAt(name, SEPARATOR, cut) {
      DropSeparator(name[cut..]);
    }
  }

  /** One round of the namespace split: cuts off a piece, and the separator after it if there is one. */
  method CutPiece(name: string) returns (piece: string, sep: bool, rest: string)
    requires Find(name, SEPARATOR) >= 0
    ensures name == piece + ((if sep then SEPARATOR else "") + rest) && |rest| < |name|
    ensures IsCut(name, |piece|) && rest == Rest(name, |piece|) && piece == name[..|piece|]
    ensures IsPiece(piece, sep, rest)
  {
    var at := Find(name, SEPARATOR);
    var less := FindBracket(name, 0);
    if less >= 0 && at > less {
      piece, sep, rest := CutTemplate(name, less);
    } else {
      CutAtSeparator(name, at);
      PlainPiece(name, at);
      Reassemble(name, at);
      piece, sep, rest := name[..at], true, name[at + 2..];
    }
  }

  /** A piece before the first bracket closes none. */
  lemma PlainPiece(name: string, at: nat)
    requires IsCut(name, at) && OccursAt(name, SEPARATOR, at) && Unopened(name, at)
    ensures IsPiece(name[..at], true, name[at + 2..])
  {
    forall i: nat | i < at
      ensures !IsClosing(name[..at], i)
    {
      LevelUnopened(name, i);
      assert name[..at][..i] == name[..i];
    }
    LevelUnopened(name, at);
  }

  /** A piece up to the end of its brackets closes them there. */
  lemma TemplatePiece(name: string, less: nat, pos: nat)
    requires less + 1 < pos <= |name| && Unopened(name, less) && IsCut(name, pos)
    requires forall j :: less < j < pos ==> Level(name[..j]) > 0
    ensures forall i: nat :: IsClosing(name[..pos], i) ==> i == pos - 1
    ensures pos < |name| ==> IsClosing(name[..pos], pos - 1)
  {
    var piece := name[..pos];
    forall i: nat | IsClosing(piece, i)
      ensures i == pos - 1
    {
      assert piece[..i] == name[..i] && piece[..i + 1] == name[..i + 1];
      if i <= less {
        LevelUnopened(name, i);
      }
    }
    assert piece[..pos - 1] == name[..pos - 1] && piece[..pos] == piece;
  }

  /** The piece up to the end of the brackets, and the rest behind it and the separator there, if any. */
  lemma TemplateCut(name: string, less: nat, pos: nat)
    requires less + 1 < pos <= |name| && Unopened(name, less) && (pos == |name| || Level(name[..pos]) == 0)
    requires forall i :: 0 <= i <= less ==> !OccursAt(name, SEPARATOR, i)
    requires forall j :: less < j < pos ==> Level(name[..j]) > 0
    ensures IsCut(name, pos)
    ensures var sep := OccursAt(name[pos..], SEPARATOR, 0);
            var rest := if sep then name[pos..][2..] else name[pos..];
            rest == Rest(name, pos) && |rest| < |name| && IsPiece(name[..pos], sep, rest) &&
            name == name[..pos] + ((if sep then SEPARATOR else "") + rest)
  {
    CutAfterBracket(name, less, pos);
    CutAndDrop(name, pos);
    TemplatePiece(name, less, pos);
    RestAfter(name, pos);
  }

  lemma RestAfter(name: string, pos: nat)
    requires pos <= |name|
    ensures OccursAt(name[pos..], SEPARATOR, 0) <==> OccursAt(name, SEPARATOR, pos)
    ensures OccursAt(name, SEPARATOR, pos) ==> name[pos..][2..] == name[pos + 2..]
  {
    OccursInSuffix(name, pos, 0);
  }

  /** Cuts after the template arguments that open at `less`. */
  method CutTemplate(name: string, less: nat) returns (piece: string, sep: bool, rest: string)
    requires less + 1 < |name| && name[less] == '<' && Unopened(name, less)
    requires forall i :: 0 <= i <= less ==> !OccursAt(name, SEPARATOR, i)
    ensures name == piece + ((if sep then SEPARATOR else "") + rest) && |rest| < |name|
    ensures IsCut(name, |piece|) && rest == Rest(name, |piece|) && piece == name[..|piece|]
    ensures IsPiece(piece, sep, rest)
  {
    var pos := MatchBracket(name, less);
    TemplateCut(name, less, pos);
    piece, rest := name[..pos], name[pos..];
    sep := OccursAt(rest, SEPARATOR, 0);
    if sep {
      rest := rest[2..];
    }
  }

  /** Whatever splits the rest completes the split of the whole. */
  ghost predicate IsBegun(whole: string, pieces: seq<string>, separated: seq<bool>, name: string) {
    forall ps, ss, last :: IsSplit(name, ps, ss, last) ==> IsSplit(whole, pieces + ps, separated + ss, last)
  }

  lemma SplitBegins(name: string, piece: string, sep: bool, rest: string, ps: seq<string>, ss: seq<bool>, last: string)
    requires HasSeparator(name) && name == Behind(piece, sep) + rest && IsPiece(piece, sep, rest)
    requires IsSplit(rest, ps, ss, last)
    ensures IsSplit(name, [piece] + ps, [sep] + ss, last)
  {
    assert ([piece] + ps)[1..] == ps && ([sep] + ss)[1..] == ss && name[|Behind(piece, sep)|..] == rest;
  }

  lemma BegunGoesOn(whole: string, pieces: seq<string>, separated: seq<bool>, name: string, piece: string, sep: bool,
                    rest: string)
    requires IsBegun(whole, pieces, separated, name) && HasSeparator(name)
    requires name == Behind(piece, sep) + rest && IsPiece(piece, sep, rest)
    ensures IsBegun(whole, pieces + [piece], separated + [sep], rest)
  {
    forall ps, ss, last | IsSplit(rest, ps, ss, last)
      ensures IsSplit(whole, pieces + [piece] + ps, separated + [sep] + ss, last)
    {
      SplitBegins(name, piece, sep, rest, ps, ss, last);
      Associates(pieces, [piece], ps);
      Associates(separated, [sep], ss);
    }
  }

  lemma CutOutsideGoesOn(whole: string, pieces: seq<string>, name: string, cut: nat)
    requires CutOutside(whole, pieces, name) && name != "" && IsCut(name, cut)
    ensures CutOutside(whole, pieces + [name[..cut]], Rest(name, cut))
  {
    CutKeepsClosed(name, cut);
    if Nested(whole) {
      CutKeepsNested(name, cut);
    }
  }

  /** What a round keeps of the promise of the whole split: nothing is lost and the split goes on right, ... */
  ghost predicate SplitSoFar(whole: string, pieces: seq<string>, separated: seq<bool>, name: string) {
    |pieces| == |separated| && Joined(pieces, separated) + name == whole && IsBegun(whole, pieces, separated, name)
  }

  /** ... and the cuts are where they may be. */
  ghost predicate CutSoFar(whole: string, pieces: seq<string>, name: string) {
    (forall p :: p in pieces ==> IsClean(p)) && CutOutside(whole, pieces, name) &&
    (HasGap(whole) <==> "" in pieces || HasGap(name))
  }

  lemma SplitGoesOn(whole: string, pieces: seq<string>, separated: seq<bool>, name: string, piece: string, sep: bool,
                    rest: string)
    requires SplitSoFar(whole, pieces, separated, name) && HasSeparator(name)
    requires name == piece + ((if sep then SEPARATOR else "") + rest) && IsPiece(piece, sep, rest)
    ensures SplitSoFar(whole, pieces + [piece], separated + [sep], rest)
  {
    JoinedMore(pieces, separated, piece, sep, rest);
    Associates(piece, if sep then SEPARATOR else "", rest);
    BegunGoesOn(whole, pieces, separated, name, piece, sep, rest);
  }

  lemma CutGoesOn(whole: string, pieces: seq<string>, name: string, cut: nat)
    requires CutSoFar(whole, pieces, name) && name != "" && IsCut(name, cut)
    ensures CutSoFar(whole, pieces + [name[..cut]], Rest(name, cut))
  {
    CutOutsideGoesOn(whole, pieces, name, cut);
    GapInRest(name, cut);
  }

  lemma SplitStarts(whole: string)
    ensures SplitSoFar(whole, [], [], whole) && CutSoFar(whole, [], whole)
  {
    assert forall ps: seq<string>, ss: seq<bool> :: [] + ps == ps && [] + ss == ss;
  }

  lemma SplitEnds(whole: string, pieces: seq<string>, separated: seq<bool>, name: string)
    requires SplitSoFar(whole, pieces, separated, name) && CutSoFar(whole, pieces, name) && Find(name, SEPARATOR) < 0
    ensures IsNamespaceSplit(whole, pieces, separated, name)
  {
    assert IsSplit(name, [], [], name);
    assert pieces + [] == pieces && separated + [] == separated;
  }

  /** The namespace split. */
  method SplitNamespaces(whole: string) returns (pieces: seq<string>, name: string)
    ensures exists separated :: IsNamespaceSplit(whole, pieces, separated, name)
  {
    pieces, name := [], whole;
    ghost var separated := [];
    SplitStarts(whole);
    while Find(name, SEPARATOR) >= 0
      invariant SplitSoFar(whole, pieces, separated, name) && CutSoFar(whole, pieces, name)
      decreases |name|
    {
      var piece, sep, rest := CutPiece(name);
      SplitGoesOn(whole, pieces, separated, name, piece, sep, rest);
      CutGoesOn(whole, pieces, name, |piece|);
      separated := separated + [sep];
      pieces, name := pieces + [piece], rest;
    }
    SplitEnds(whole, pieces, separated, name);
  }

  // ----- The type in front and the arguments behind -----

  /** This character stands at `i`, outside brackets. */
  ghost predicate IsOpen(s: string, i: int, c: char) {
    0 <= i < |s| && s[i] == c && Depth(s[..i]) == 0
  }

  /** Neither a space nor a parenthesis outside brackets among the first `n` characters. */
  ghost predicate Plain(s: string, n: int) {
    forall i :: 0 <= i < n ==> !IsOpen(s, i, ' ') && !IsOpen(s, i, '(')
  }

  /** The prefix ends with the first space outside brackets, unless a parenthesis outside brackets
      comes first. */
  ghost predicate IsTypeSplit(whole: string, typePrefix: string, name: string) {
    typePrefix + name == whole &&
    if typePrefix != "" then IsOpen(whole, |typePrefix| - 1, ' ') && Plain(whole, |typePrefix| - 1)
    else Plain(whole, |whole|) || exists i :: IsOpen(whole, i, '(') && Plain(whole, i)
  }

  /** The suffix starts with the first parenthesis outside brackets. */
  ghost predicate IsArgumentSplit(whole: string, name: string, typeSuffix: string) {
    name + typeSuffix == whole &&
    (typeSuffix == "" || IsOpen(whole, |name|, '(')) &&
    forall i :: 0 <= i < |name| ==> !IsOpen(whole, i, '(')
  }

  /** Sets aside what stands before the first space outside brackets, unless an argument list comes
      first. */
  method SplitType(whole: string) returns (typePrefix: string, name: string)
    ensures IsTypeSplit(whole, typePrefix, name)
  {
    typePrefix, name := "", whole;
    var spacePos, indent := 0, 0;
    while spacePos < |name|
      invariant 0 <= spacePos <= |name| && typePrefix == "" && name == whole
      invariant indent == Depth(name[..spacePos]) && Plain(whole, spacePos)
    {
      var c := name[spacePos];
      DepthNext(name, spacePos);
      if c == '<' {
        indent := indent + 1;
      } else if c == '>' {
        indent := indent - 1;
      } else if c == ' ' && indent == 0 {
        typePrefix := name[..spacePos] + " ";
        assert typePrefix == name[..spacePos + 1];
        spacePos := spacePos + 1;
        name := name[spacePos..];
        break;
      } else if c == '(' && indent == 0 {
        break;
      }
      spacePos := spacePos + 1;
    }
  }

  /** Sets aside the argument list: everything from the first parenthesis outside brackets. */
  method SplitArguments(whole: string) returns (name: string, typeSuffix: string)
    ensures IsArgumentSplit(whole, name, typeSuffix)
  {
    name, typeSuffix := whole, "";
    var bracePos, indent := 0, 0;
    while bracePos < |name|
      invariant 0 <= bracePos <= |name| && typeSuffix == "" && name == whole
      invariant indent == Depth(name[..bracePos])
      invariant forall i :: 0 <= i < bracePos ==> !IsOpen(whole, i, '(')
    {
      var c := name[bracePos];
      DepthNext(name, bracePos);
      if c == '<' {
        indent := indent + 1;
      } else if c == '>' {
        indent := indent - 1;
      } else if c == '(' && indent == 0 {
        typeSuffix := name[bracePos..];
        name := name[..bracePos];
        break;
      }
      bracePos := bracePos + 1;
    }
  }

  /** How a name of type, namespaces, last part and arguments becomes a path: the namespaces, then the
      other three as one component. */
  ghost predicate IsPathOf(whole: string, path: seq<string>, typePrefix: string, name: string, typeSuffix: string,
                           separated: seq<bool>, last: string)
  {
    IsTypeSplit(whole, typePrefix, name + typeSuffix) &&
    IsArgumentSplit(name + typeSuffix, name, typeSuffix) &&
    path != [] && IsNamespaceSplit(name, path[..|path| - 1], separated, last) &&
    path[|path| - 1] == typePrefix + last + typeSuffix
  }

  /** The path of a name. */
  method TreePath(whole: string) returns (path: seq<string>)
    ensures exists typePrefix, name, typeSuffix, separated, last ::
              IsPathOf(whole, path, typePrefix, name, typeSuffix, separated, last)
  {
    var typePrefix, qualified := SplitType(whole);
    var name, typeSuffix := SplitArguments(qualified);
    var pieces, last := SplitNamespaces(name);
    ghost var separated :| IsNamespaceSplit(name, pieces, separated, last);
    path := pieces + [typePrefix + last + typeSuffix];
    assert path[..|path| - 1] == pieces && name + typeSuffix == qualified;
    assert IsPathOf(whole, path, typePrefix, name, typeSuffix, separated, last);
  }

  lemma TypeSplitIsUnique(whole: string, a: string, nameA: string, b: string, nameB: string)
    requires IsTypeSplit(whole, a, nameA) && IsTypeSplit(whole, b, nameB)
    ensures a == b && nameA == nameB
  {
    assert |a| == |b|;
    assert a == whole[..|a|] == b && nameA == whole[|a|..] == nameB;
  }

  lemma ArgumentSplitIsUnique(whole: string, nameA: string, a: string, nameB: string, b: string)
    requires IsArgumentSplit(whole, nameA, a) && IsArgumentSplit(whole, nameB, b)
    ensures nameA == nameB && a == b
  {
    assert |nameA| == |nameB|;
    assert nameA == whole[..|nameA|] == nameB && a == whole[|nameA|..] == b;
  }

  /** A name has one path only. */
  lemma PathIsUnique(whole: string, path: seq<string>, typePrefix: string, name: string, typeSuffix: string,
                     separated: seq<bool>, last: string, path': seq<string>, typePrefix': string, name': string,
                     typeSuffix': string, separated': seq<bool>, last': string)
    requires IsPathOf(whole, path, typePrefix, name, typeSuffix, separated, last)
    requires IsPathOf(whole, path', typePrefix', name', typeSuffix', separated', last')
    ensures path == path'
  {
    TypeSplitIsUnique(whole, typePrefix, name + typeSuffix, typePrefix', name' + typeSuffix');
    ArgumentSplitIsUnique(name + typeSuffix, name, typeSuffix, name', typeSuffix');
    var pieces, pieces' := path[..|path| - 1], path'[..|path'| - 1];
    SplitIsUnique(name, pieces, separated, last, pieces', separated', last');
    assert path == pieces + [path[|path| - 1]] && path' == pieces' + [path'[|path'| - 1]];
  }

  /** Put together again in the name's own order, what a path holds is the whole name. */
  lemma PathLosesNothing(whole: string, path: seq<string>, typePrefix: string, name: string, typeSuffix: string,
                         separated: seq<bool>, last: string)
    requires IsPathOf(whole, path, typePrefix, name, typeSuffix, separated, last)
    ensures |path| == |separated| + 1 && path[|path| - 1] == typePrefix + last + typeSuffix
    ensures typePrefix + (Joined(path[..|path| - 1], separated) + last) + typeSuffix == whole
  {
    var pieces := path[..|path| - 1];
    assert Joined(pieces, separated) + last == name;
    Associates(typePrefix, name, typeSuffix);
  }

  lemma NoTypeNoArguments(whole: string, typePrefix: string, name: string, typeSuffix: string)
    requires ' ' !in whole && '(' !in whole
    requires IsTypeSplit(whole, typePrefix, name + typeSuffix) && IsArgumentSplit(name + typeSuffix, name, typeSuffix)
    ensures typePrefix == "" && typeSuffix == "" && name == whole
  {
    assert forall i :: 0 <= i < |whole| ==> !IsOpen(whole, i, ' ');
    assert typePrefix == "" && name + typeSuffix == whole;
    assert forall i :: 0 <= i < |whole| ==> !IsOpen(whole, i, '(');
    assert typeSuffix == "";
  }

  lemma NoSeparatorLeft(whole: string, pieces: seq<string>, separated: seq<bool>, name: string, i: nat)
    requires IsNamespaceSplit(whole, pieces, separated, name)
    ensures !OccursAt(name, SEPARATOR, i)
  {
  }
}
