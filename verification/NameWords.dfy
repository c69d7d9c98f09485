/** How names made of words are split: which parts are the type, the namespaces and the arguments. */
module NameWords {
  import opened NameSplit

  /** A text without spaces, parentheses, brackets and colons. */
  ghost predicate IsWord(s: string) {
    forall i :: 0 <= i < |s| ==> s[i] != ' ' && s[i] != '(' && s[i] != '<' && s[i] != '>' && s[i] != ':'
  }

  ghost predicate HasNoBracket(s: string) {
    forall i :: 0 <= i < |s| ==> s[i] != '<' && s[i] != '>'
  }

  /** The depth within a word behind any text is that of the text. */
  lemma {:induction false} DepthInWord(s: string, word: string, i: nat)
    requires IsWord(word) && i <= |word|
    ensures Depth(s + word[..i]) == Depth(s) && Level(s + word[..i]) == Level(s)
  {
    if i == 0 {
      assert s + word[..0] == s;
    } else {
      DepthInWord(s, word, i - 1);
      assert (s + word[..i])[..|s + word[..i]| - 1] == s + word[..i - 1];
    }
  }

  lemma WordIsPlain(word: string, rest: string, n: int)
    requires IsWord(word) && n <= |word|
    ensures Plain(word + rest, n) && (n >= 0 ==> Depth((word + rest)[..n]) == 0 == Level((word + rest)[..n]))
  {
    if n >= 0 {
      DepthInWord("", word, n);
      assert (word + rest)[..n] == "" + word[..n];
    }
    assert forall i :: 0 <= i < |word| ==> (word + rest)[i] == word[i];
  }

  /** A word and a space in front are set aside as the type; arguments in front of any space are not, nor is
      anything of a word. */
  lemma TypesAreWords(word: string, rest: string)
    requires IsWord(word)
    ensures IsTypeSplit(word + " " + rest, word + " ", rest)
    ensures IsTypeSplit(word + "(" + rest, "", word + "(" + rest)
    ensures IsTypeSplit(word, "", word)
  {
    OpenBehindWord(word, ' ', rest);
    OpenBehindWord(word, '(', rest);
    WordIsPlain(word, "", |word|);
    assert word + "" == word;
    assert |word + " "| - 1 == |word|;
  }

  lemma OpenBehindWord(word: string, c: char, rest: string)
    requires IsWord(word)
    ensures Plain(word + [c] + rest, |word|) && IsOpen(word + [c] + rest, |word|, c)
  {
    WordIsPlain(word, [c] + rest, |word|);
    assert word + [c] + rest == word + ([c] + rest);
  }

  /** What stands behind a word from a parenthesis on is set aside as the arguments. */
  lemma ArgumentsFollowWords(word: string, rest: string)
    requires IsWord(word)
    ensures IsArgumentSplit(word + "(" + rest, word, "(" + rest) && IsArgumentSplit(word, word, "")
  {
    WordIsPlain(word, "(" + rest, |word|);
    WordIsPlain(word, "", |word|);
    assert word + "(" + rest == word + ("(" + rest) && word + "" == word;
    assert IsOpen(word + "(" + rest, |word|, '(');
  }

  /** A word in front of a separator is the first piece. */
  lemma WordFirst(word: string, rest: string, ps: seq<string>, ss: seq<bool>, last: string)
    requires IsWord(word) && IsSplit(rest, ps, ss, last)
    ensures IsSplit(word + "::" + rest, [word] + ps, [true] + ss, last)
  {
    forall i: nat
      ensures !IsClosing(word, i) && (i < |word| ==> !OccursAt(word + SEPARATOR, SEPARATOR, i))
    {
      IsColons(word + SEPARATOR, i);
      if i < |word| {
        DepthInWord("", word, i);
        DepthInWord("", word, i + 1);
        assert "" + word[..i] == word[..i];
      }
    }
    DepthInWord("", word, |word|);
    assert "" + word[..|word|] == word;
    SeparatorBetween(word, rest);
    SplitBegins(word + "::" + rest, word, true, rest, ps, ss, last);
  }

  lemma SeparatorBetween(a: string, b: string)
    ensures OccursAt(a + "::" + b, SEPARATOR, |a|) && HasSeparator(a + "::" + b)
  {
    IsColons(a + "::" + b, |a|);
  }

  /** The parts of a word, an argument list in brackets and a separator: the first two are the first piece. */
  lemma TemplateFirst(word: string, inner: string, rest: string, ps: seq<string>, ss: seq<bool>, last: string)
    requires IsWord(word) && HasNoBracket(inner) && IsSplit(rest, ps, ss, last)
    ensures IsSplit(word + "<" + inner + ">" + "::" + rest, [word + "<" + inner + ">"] + ps, [true] + ss, last)
  {
    var piece := word + "<" + inner + ">";
    forall i: nat | i <= |piece|
      ensures Level(piece[..i]) == if |word| < i <= |word| + 1 + |inner| then 1 else 0
    {
      TemplateLevel(word, inner, i);
    }
    assert piece[..|piece|] == piece;
    assert forall i :: 0 <= i <= |word| ==> piece[i] == if i < |word| then word[i] else '<';
    forall i: nat | i < |piece| && OccursAt(piece + SEPARATOR, SEPARATOR, i)
      ensures Level(piece[..i]) > 0
    {
      IsColons(piece + SEPARATOR, i);
    }
    SeparatorBetween(piece, rest);
    SplitBegins(piece + "::" + rest, piece, true, rest, ps, ss, last);
  }

  lemma {:induction false} TemplateLevel(word: string, inner: string, i: nat)
    requires IsWord(word) && HasNoBracket(inner)
    requires i <= |word| + |inner| + 2
    ensures Level((word + "<" + inner + ">")[..i]) == if |word| < i <= |word| + 1 + |inner| then 1 else 0
  {
    var piece := word + "<" + inner + ">";
    if i <= |word| {
      DepthInWord("", word, i);
      assert piece[..i] == "" + word[..i];
    } else {
      TemplateLevel(word, inner, i - 1);
      LevelNext(piece, i - 1);
      assert piece[i - 1] ==
             if i - 1 == |word| then '<' else if i - 1 == |piece| - 1 then '>' else inner[i - 2 - |word|];
    }
  }

  lemma WordIsLast(word: string)
    requires IsWord(word)
    ensures IsSplit(word, [], [], word)
  {
    forall i: nat
      ensures !OccursAt(word, SEPARATOR, i)
    {
      IsColons(word, i);
    }
  }

  lemma CommentedWords()
    ensures "Bar" + "<" + "x::y" + ">" == "Bar<x::y>" && "Bar<x::y>" + "::" + "Baz" == COMMENTED_LAST
    ensures "foo" + "::" + COMMENTED_LAST == COMMENTED
    ensures IsWord("foo") && IsWord("Bar") && IsWord("Baz") && HasNoBracket("x::y")
  {
  }

  /** So this is how the templated name of the comment in the script is split. */
  lemma CommentedSplit()
    ensures IsSplit(COMMENTED, ["foo", "Bar<x::y>"], [true, true], "Baz")
  {
    CommentedWords();
    WordIsLast("Baz");
    TemplateFirst("Bar", "x::y", "Baz", [], [], "Baz");
    assert ["Bar<x::y>"] + [] == ["Bar<x::y>"] && [true] + [] == [true];
    WordFirst("foo", COMMENTED_LAST, ["Bar<x::y>"], [true], "Baz");
    assert ["foo"] + ["Bar<x::y>"] == ["foo", "Bar<x::y>"] && [true] + [true] == [true, true];
  }

  /** The last component of a bare name's path has no separator. */
  lemma BareLast(whole: string, path: seq<string>, typePrefix: string, name: string, typeSuffix: string,
                 separated: seq<bool>, last: string, i: nat)
    requires ' ' !in whole && '(' !in whole && IsPathOf(whole, path, typePrefix, name, typeSuffix, separated, last)
    ensures !OccursAt(path[|path| - 1], SEPARATOR, i)
  {
    NoTypeNoArguments(whole, typePrefix, name, typeSuffix);
    assert "" + last + "" == last;
    NoSeparatorLeft(name, path[..|path| - 1], separated, last, i);
  }

  const COMMENTED := "foo::Bar<x::y>::Baz"
  const COMMENTED_LAST := "Bar<x::y>::Baz"

  /** So the path that a comment in the script gives for this name is not the one the code computes. */
  lemma CommentedSplitIsNotComputed(typePrefix: string, name: string, typeSuffix: string, separated: seq<bool>,
                                    last: string)
    ensures !IsPathOf(COMMENTED, ["foo", COMMENTED_LAST], typePrefix, name, typeSuffix, separated, last)
  {
    CommentedIsBare();
    if IsPathOf(COMMENTED, ["foo", COMMENTED_LAST], typePrefix, name, typeSuffix, separated, last) {
      BareLast(COMMENTED, ["foo", COMMENTED_LAST], typePrefix, name, typeSuffix, separated, last, 5);
    }
  }

  lemma CommentedIsBare()
    ensures ' ' !in COMMENTED && '(' !in COMMENTED && OccursAt(COMMENTED_LAST, SEPARATOR, 5)
  {
    IsColons(COMMENTED_LAST, 5);
  }
}
