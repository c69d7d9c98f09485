/** Finding the ninja rules to clean: parsing the output of `ninja -t query`, and the worklist that
    follows phony targets to their inputs. */
module CleanRules {

  // ----- Text -----

  predicate IsSpace(c: char) {
    c == ' ' || c == '\t' || c == '\n' || c == '\r' || c as int == 11 || c as int == 12
  }

  function StripLeft(s: string): string {
    if s != [] && IsSpace(s[0]) then StripLeft(s[1..]) else s
  }

  function StripRight(s: string): string {
    if s != [] && IsSpace(s[|s| - 1]) then StripRight(s[..|s| - 1]) else s
  }

  function Strip(s: string): string {
    StripRight(StripLeft(s))
  }

  predicate StartsWith(s: string, prefix: string) {
    |prefix| <= |s| && s[..|prefix|] == prefix
  }

  const INPUT := "input: "
  const OUTPUTS := "outputs:"
  const PHONY := "phony"
  const ALL := "all"

  /** A word that neither strip nor the parser's keywords touch. */
  predicate IsName(s: string) {
    s != [] && !IsSpace(s[0]) && !IsSpace(s[|s| - 1]) && '|' !in s && !StartsWith(s, INPUT) && s != OUTPUTS
  }

  // ----- What a query prints -----

  /** What ninja knows of a target: the rule that makes it, if any, with the rule's inputs by kind, and
      the targets made from it. */
  datatype Block = Block(
    rule: seq<string>,
    inputs: seq<string>,
    implicit: seq<string>,
    orderOnly: seq<string>,
    outputs: seq<string>)
  {
    predicate Valid() {
      |rule| <= 1 && (|rule| == 1 ==> IsName(rule[0])) &&
      AllNames(inputs) && AllNames(implicit) && AllNames(orderOnly) && AllNames(outputs)
    }

    predicate IsPhony() {
      rule == [PHONY]
    }
  }

  predicate AllNames(names: seq<string>) {
    forall n :: n in names ==> IsName(n)
  }

  function Prefixed(prefix: string, names: seq<string>): seq<string> {
    if names == [] then [] else [prefix + names[0]] + Prefixed(prefix, names[1..])
  }

  /** The lines of one target's answer: its name, how it is made, and what is made from it. */
  function Printed(target: string, b: Block): seq<string> {
    [target + ":"] + (Making(b) + Uses(b))
  }

  function Making(b: Block): seq<string> {
    if b.rule == [] then []
    else ["  " + INPUT + b.rule[0]] + (Prefixed("    ", b.inputs) + Bars(b))
  }

  function Bars(b: Block): seq<string> {
    Prefixed("    | ", b.implicit) + Prefixed("    || ", b.orderOnly)
  }

  function Uses(b: Block): seq<string> {
    ["  " + OUTPUTS] + Prefixed("    ", b.outputs)
  }

  /** Keeps the lines that start with a space and contain no bar. */
  function Filtered(lines: seq<string>): seq<string> {
    if lines == [] then []
    else (if StartsWith(lines[0], " ") && '|' !in lines[0] then [lines[0]] else []) + Filtered(lines[1..])
  }

  type Graph = map<string, Block>

  /** What ninja guarantees: names are names, and the inputs of a target are targets. */
  ghost predicate IsGraph(g: Graph) {
    forall t :: t in g ==> IsName(t) && g[t].Valid() && forall i :: i in g[t].inputs ==> i in g
  }

  function QueryOutput(g: Graph, targets: seq<string>): seq<string>
    requires forall t :: t in targets ==> t in g
  {
    if targets == [] then [] else Printed(targets[0], g[targets[0]]) + QueryOutput(g, targets[1..])
  }

  // ----- The parser -----

  datatype Parsed = Parsed(inBlock: bool, rules: set<string>, targets: set<string>)

  function ParseLine(p: Parsed, possible: set<string>, line: string): Parsed {
    var trimmed := Strip(line);
    if StartsWith(trimmed, INPUT) then
      var rule := Strip(trimmed[|INPUT|..]);
      if rule == PHONY then p.(inBlock := true)
      else if rule in possible then p.(rules := p.rules + {rule})
      else p
    else if !p.inBlock then p
    else if trimmed == OUTPUTS then p.(inBlock := false)
    else p.(targets := p.targets + {trimmed})
  }

  function Parse(p: Parsed, possible: set<string>, lines: seq<string>): Parsed
    decreases |lines|
  {
    if lines == [] then p else Parse(ParseLine(p, possible, lines[0]), possible, lines[1..])
  }

  method ParseInputTargets(lines: seq<string>, possible: set<string>, rules: set<string>, targets: set<string>)
    returns (rulesSet: set<string>, newTargets: set<string>)
    ensures var p := Parse(Parsed(false, rules, targets), possible, lines);
            rulesSet == p.rules && newTargets == p.targets
  {
    rulesSet, newTargets := rules, targets;
    var inInputBlock := false;
    for i := 0 to |lines|
      invariant Parse(Parsed(false, rules, targets), possible, lines) ==
                Parse(Parsed(inInputBlock, rulesSet, newTargets), possible, lines[i..])
    {
      assert lines[i..][1..] == lines[i + 1..];
      var trimmed := Strip(lines[i]);
      if StartsWith(trimmed, INPUT) {
        var rule := Strip(trimmed[|INPUT|..]);
        if rule == PHONY {
          inInputBlock := true;
        } else if rule in possible {
          rulesSet := rulesSet + {rule};
        }
      } else if !inInputBlock {
        continue;
      } else if trimmed == OUTPUTS {
        inInputBlock := false;
      } else if inInputBlock {
        newTargets := newTargets + {trimmed};
      }
    }
  }

  lemma {:induction false} ParseConcat(p: Parsed, possible: set<string>, a: seq<string>, b: seq<string>)
    ensures Parse(p, possible, a + b) == Parse(Parse(p, possible, a), possible, b)
    decreases |a|
  {
    if a == [] {
      assert a + b == b;
    } else {
      assert (a + b)[1..] == a[1..] + b;
      ParseConcat(ParseLine(p, possible, a[0]), possible, a[1..], b);
    }
  }

  lemma {:induction false} FilteredConcat(a: seq<string>, b: seq<string>)
    ensures Filtered(a + b) == Filtered(a) + Filtered(b)
  {
    if a == [] {
      assert a + b == b;
    } else {
      assert (a + b)[1..] == a[1..] + b;
      FilteredConcat(a[1..], b);
    }
  }

  // ----- Parsing what is printed -----

  lemma {:induction false} StripIndented(n: nat, indent: string, s: string)
    requires |indent| == n && (forall i :: 0 <= i < n ==> indent[i] == ' ')
    requires s != [] && !IsSpace(s[0]) && !IsSpace(s[|s| - 1])
    ensures Strip(indent + s) == s
  {
    if n == 0 {
      assert indent + s == s;
    } else {
      StripIndented(n - 1, indent[1..], s);
      assert (indent + s)[1..] == indent[1..] + s;
    }
  }

  /** A line made of indentation and text without a bar passes the filter; one with a bar does not. */
  lemma FilteredLine(line: string)
    ensures Filtered([line]) == if StartsWith(line, " ") && '|' !in line then [line] else []
  {
    assert [line][1..] == [];
  }

  lemma InConcat(c: char, a: string, b: string)
    ensures c in a + b <==> c in a || c in b
  {
  }

  lemma {:induction false} FilteredNames(prefix: string, names: seq<string>)
    requires AllNames(names) && StartsWith(prefix, " ")
    ensures Filtered(Prefixed(prefix, names)) == if '|' in prefix then [] else Prefixed(prefix, names)
  {
    if names != [] {
      FilteredNames(prefix, names[1..]);
      var line := prefix + names[0];
      assert names[0] in names && line[0] == prefix[0];
      InConcat('|', prefix, names[0]);
      assert Prefixed(prefix, names)[0] == line && Prefixed(prefix, names)[1..] == Prefixed(prefix, names[1..]);
    }
  }

  /** The lines of an answer that reach the parser. */
  function Kept(b: Block): seq<string> {
    (if b.rule == [] then [] else ["  " + INPUT + b.rule[0]] + Prefixed("    ", b.inputs)) + Uses(b)
  }

  lemma OutputsHeading()
    ensures Filtered(["  " + OUTPUTS]) == ["  " + OUTPUTS]
  {
    InConcat('|', "  ", OUTPUTS);
    FilteredLine("  " + OUTPUTS);
  }

  lemma FilteredUses(b: Block)
    requires b.Valid()
    ensures Filtered(Uses(b)) == Uses(b)
  {
    var names := Prefixed("    ", b.outputs);
    FilteredConcat(["  " + OUTPUTS], names);
    OutputsHeading();
    FilteredNames("    ", b.outputs);
    assert Filtered(names) == names;
  }

  lemma FilteredBars(b: Block)
    requires b.Valid()
    ensures Filtered(Bars(b)) == []
  {
    FilteredConcat(Prefixed("    | ", b.implicit), Prefixed("    || ", b.orderOnly));
    assert "    | "[4] == '|' && "    || "[4] == '|';
    FilteredNames("    | ", b.implicit);
    FilteredNames("    || ", b.orderOnly);
  }

  lemma FilteredMaking(b: Block)
    requires b.Valid()
    ensures Filtered(Making(b)) == if b.rule == [] then [] else ["  " + INPUT + b.rule[0]] + Prefixed("    ", b.inputs)
  {
    if b.rule != [] {
      var line, names := "  " + INPUT + b.rule[0], Prefixed("    ", b.inputs);
      InConcat('|', "  " + INPUT, b.rule[0]);
      assert '|' !in "  " + INPUT;
      FilteredLine(line);
      FilteredBars(b);
      FilteredNames("    ", b.inputs);
      FilteredConcat(names, Bars(b));
      FilteredConcat([line], names + Bars(b));
      assert names + [] == names;
    }
  }

  lemma FilteredPrinted(target: string, b: Block)
    requires IsName(target) && b.Valid()
    ensures Filtered(Printed(target, b)) == Kept(b)
  {
    FilteredLine(target + ":");
    assert (target + ":")[0] == target[0];
    FilteredMaking(b);
    FilteredUses(b);
    FilteredConcat(Making(b), Uses(b));
    FilteredConcat([target + ":"], Making(b) + Uses(b));
  }

  function SetOf(names: seq<string>): set<string> {
    set n | n in names
  }

  lemma {:induction false} ParseNames(p: Parsed, possible: set<string>, names: seq<string>)
    requires AllNames(names)
    ensures Parse(p, possible, Prefixed("    ", names)) ==
            if p.inBlock then p.(targets := p.targets + SetOf(names)) else p
    decreases |names|
  {
    if names == [] {
      assert p.targets + SetOf(names) == p.targets;
    } else {
      assert IsName(names[0]);
      StripIndented(4, "    ", names[0]);
      var lines := Prefixed("    ", names);
      assert lines[0] == "    " + names[0] && lines[1..] == Prefixed("    ", names[1..]);
      var p' := ParseLine(p, possible, lines[0]);
      ParseNames(p', possible, names[1..]);
      assert SetOf(names) == {names[0]} + SetOf(names[1..]);
    }
  }

  /** What a block contributes: its rule if it is a possible one, or a phony target's inputs. */
  function RuleOf(b: Block, possible: set<string>): set<string> {
    if b.rule != [] && !b.IsPhony() && b.rule[0] in possible then {b.rule[0]} else {}
  }

  function NextOf(b: Block): set<string> {
    if b.IsPhony() then SetOf(b.inputs) else {}
  }

  lemma ParseRuleLine(p: Parsed, possible: set<string>, rule: string)
    requires IsName(rule)
    ensures ParseLine(p, possible, "  " + INPUT + rule) ==
            if rule == PHONY then p.(inBlock := true)
            else if rule in possible then p.(rules := p.rules + {rule})
            else p
  {
    var text := INPUT + rule;
    assert text[|text| - 1] == rule[|rule| - 1];
    StripIndented(2, "  ", text);
    assert "  " + INPUT + rule == "  " + text;
    assert text[|INPUT|..] == rule;
    StripIndented(0, "", rule);
    assert "" + rule == rule;
  }

  lemma ParseUses(p: Parsed, possible: set<string>, b: Block)
    requires b.Valid()
    ensures Parse(p, possible, Uses(b)) == p.(inBlock := false)
  {
    StripIndented(2, "  ", OUTPUTS);
    assert Uses(b)[0] == "  " + OUTPUTS && Uses(b)[1..] == Prefixed("    ", b.outputs);
    ParseNames(p.(inBlock := false), possible, b.outputs);
  }

  /** Parsing a block, started outside an input block, recovers its rule or inputs and ends outside. */
  lemma ParseBlock(p: Parsed, possible: set<string>, b: Block)
    requires b.Valid() && !p.inBlock
    ensures Parse(p, possible, Kept(b)) ==
            Parsed(false, p.rules + RuleOf(b, possible), p.targets + NextOf(b))
  {
    if b.rule == [] {
      assert Kept(b) == Uses(b);
      ParseUses(p, possible, b);
    } else {
      var line, names := "  " + INPUT + b.rule[0], Prefixed("    ", b.inputs);
      ParseRuleLine(p, possible, b.rule[0]);
      var p1 := ParseLine(p, possible, line);
      assert ([line] + names)[0] == line && ([line] + names)[1..] == names;
      ParseNames(p1, possible, b.inputs);
      ParseConcat(p, possible, [line] + names, Uses(b));
      ParseUses(Parse(p1, possible, names), possible, b);
      assert b.rule == [b.rule[0]];
    }
  }

  ghost function RulesOf(g: Graph, possible: set<string>, targets: set<string>): set<string> {
    set t, r | t in targets && t in g && r in RuleOf(g[t], possible) :: r
  }

  ghost function InputsOf(g: Graph, targets: set<string>): set<string> {
    set t, i | t in targets && t in g && i in NextOf(g[t]) :: i
  }

  lemma ParsePrinted(p: Parsed, possible: set<string>, target: string, b: Block, rest: seq<string>)
    requires IsName(target) && b.Valid() && !p.inBlock
    ensures Parse(p, possible, Filtered(Printed(target, b) + rest)) ==
            Parse(Parsed(false, p.rules + RuleOf(b, possible), p.targets + NextOf(b)), possible, Filtered(rest))
  {
    FilteredConcat(Printed(target, b), rest);
    FilteredPrinted(target, b);
    ParseConcat(p, possible, Kept(b), Filtered(rest));
    ParseBlock(p, possible, b);
  }

  lemma OneMoreTarget(g: Graph, possible: set<string>, t: string, rest: set<string>)
    requires t in g
    ensures RulesOf(g, possible, {t} + rest) == RuleOf(g[t], possible) + RulesOf(g, possible, rest)
    ensures InputsOf(g, {t} + rest) == NextOf(g[t]) + InputsOf(g, rest)
  {
  }

  ghost function Learned(g: Graph, possible: set<string>, targets: set<string>, p: Parsed): Parsed {
    Parsed(false, p.rules + RulesOf(g, possible, targets), p.targets + InputsOf(g, targets))
  }

  lemma LearnedOneMore(g: Graph, possible: set<string>, t: string, rest: set<string>, p: Parsed)
    requires t in g
    ensures Learned(g, possible, {t} + rest, p) ==
            Learned(g, possible, rest, Parsed(false, p.rules + RuleOf(g[t], possible), p.targets + NextOf(g[t])))
  {
    OneMoreTarget(g, possible, t, rest);
  }

  /** Parsing the answer to a query recovers each target's rule or inputs, whatever the order of the
      targets. */
  lemma {:induction false} ParseQuery(g: Graph, possible: set<string>, targets: seq<string>, p: Parsed)
    requires IsGraph(g) && (forall t :: t in targets ==> t in g) && !p.inBlock
    ensures Parse(p, possible, Filtered(QueryOutput(g, targets))) == Learned(g, possible, SetOf(targets), p)
    decreases |targets|
  {
    if targets == [] {
      assert Learned(g, possible, {}, p) == p;
    } else {
      var t := targets[0];
      var p1 := Parsed(false, p.rules + RuleOf(g[t], possible), p.targets + NextOf(g[t]));
      ParseQuery(g, possible, targets[1..], p1);
      assert SetOf(targets) == {t} + SetOf(targets[1..]);
      LearnedOneMore(g, possible, t, SetOf(targets[1..]), p);
      ParsePrinted(p, possible, t, g[t], QueryOutput(g, targets[1..]));
    }
  }

  // ----- The worklist -----

  /** A way from an initial target through phony targets. */
  ghost predicate IsWay(g: Graph, initial: set<string>, way: seq<string>) {
    way != [] && way[0] in initial &&
    forall i :: 0 <= i < |way| - 1 ==> way[i] in g && way[i + 1] in NextOf(g[way[i]])
  }

  ghost predicate Reached(g: Graph, initial: set<string>, t: string) {
    exists way :: IsWay(g, initial, way) && way[|way| - 1] == t
  }

  lemma ReachedNext(g: Graph, initial: set<string>, t: string, next: string)
    requires Reached(g, initial, t) && t in g && next in NextOf(g[t])
    ensures Reached(g, initial, next)
  {
    var way :| IsWay(g, initial, way) && way[|way| - 1] == t;
    assert IsWay(g, initial, way + [next]);
    assert (way + [next])[|way|] == next;
  }

  /** A set that holds the initial targets and is closed under following phony targets holds all that
      is reached. */
  lemma {:induction false} ClosedHoldsReached(g: Graph, initial: set<string>, closed: set<string>, way: seq<string>)
    requires initial <= closed && forall t :: t in closed && t in g ==> NextOf(g[t]) <= closed
    requires IsWay(g, initial, way)
    ensures way[|way| - 1] in closed
  {
    if |way| > 1 {
      var n := |way| - 1;
      ClosedHoldsReached(g, initial, closed, way[..n]);
      assert way[..n][n - 1] == way[n - 1];
    }
  }

  datatype Outcome = Exit | Rules(rules: set<string>)

  /** Lists a set in some order. */
  method Listing(s: set<string>) returns (order: seq<string>)
    ensures SetOf(order) == s
  {
    order := [];
    var rest := s;
    while rest != {}
      invariant SetOf(order) + rest == s
      decreases |rest|
    {
      var x :| x in rest;
      assert SetOf(order + [x]) == SetOf(order) + {x};
      order, rest := order + [x], rest - {x};
    }
  }

  /** Ninja refuses a query that names an unknown target. */
  method Query(g: Graph, targets: set<string>) returns (known: bool, lines: seq<string>, ghost order: seq<string>)
    ensures known <==> targets <= g.Keys
    ensures known ==> SetOf(order) == targets && (forall t :: t in order ==> t in g) && lines == QueryOutput(g, order)
  {
    var listed := Listing(targets);
    order := listed;
    if exists t :: t in targets && t !in g {
      return false, [], order;
    }
    assert forall t :: t in listed ==> t in SetOf(listed);
    return true, QueryOutput(g, listed), order;
  }

  /** One round: query a set of targets and parse the answer. */
  method QueryAndParse(g: Graph, possible: set<string>, targets: set<string>, rules: set<string>)
    returns (known: bool, rulesSet: set<string>, newTargets: set<string>)
    requires IsGraph(g)
    ensures known <==> targets <= g.Keys
    ensures known ==> rulesSet == rules + RulesOf(g, possible, targets) && newTargets == InputsOf(g, targets)
  {
    rulesSet, newTargets := rules, {};
    var lines;
    ghost var order;
    known, lines, order := Query(g, targets);
    if known {
      ParseQuery(g, possible, order, Parsed(false, rules, {}));
      rulesSet, newTargets := ParseInputTargets(Filtered(lines), possible, rules, {});
      assert {} + InputsOf(g, targets) == InputsOf(g, targets);
    }
  }

  ghost predicate AllReached(g: Graph, initial: set<string>, targets: set<string>) {
    forall t :: t in targets ==> Reached(g, initial, t)
  }

  lemma InputsReached(g: Graph, initial: set<string>, targets: set<string>)
    requires AllReached(g, initial, targets)
    ensures AllReached(g, initial, InputsOf(g, targets))
  {
    forall i | i in InputsOf(g, targets)
      ensures Reached(g, initial, i)
    {
      var t :| t in targets && t in g && i in NextOf(g[t]);
      ReachedNext(g, initial, t, i);
    }
  }

  lemma InitialReached(g: Graph, initial: set<string>)
    ensures AllReached(g, initial, initial)
  {
    forall t | t in initial
      ensures Reached(g, initial, t)
    {
      assert IsWay(g, initial, [t]) && [t][0] == t;
    }
  }

  /** A closed set of reached targets that holds the initial ones is the set of targets reached. */
  lemma ClosedIsReached(g: Graph, initial: set<string>, closed: set<string>, t: string)
    requires initial <= closed && InputsOf(g, closed) <= closed && AllReached(g, initial, closed)
    ensures t in closed <==> Reached(g, initial, t)
  {
    forall u | u in closed && u in g
      ensures NextOf(g[u]) <= closed
    {
      assert NextOf(g[u]) <= InputsOf(g, closed);
    }
    if Reached(g, initial, t) {
      var way :| IsWay(g, initial, way) && way[|way| - 1] == t;
      ClosedHoldsReached(g, initial, closed, way);
    }
  }

  /** All possible rules if "all" is reached, otherwise exactly the possible rules of the targets
      reached; fails exactly when an initial target is unknown and "all" is not among them. */
  method GetRulesToClean(g: Graph, possible: set<string>, initial: set<string>) returns (outcome: Outcome)
    requires IsGraph(g)
    ensures outcome.Exit? <==> "all" !in initial && !(initial <= g.Keys)
    ensures outcome.Rules? && Reached(g, initial, "all") ==> outcome.rules == possible
    ensures outcome.Rules? && !Reached(g, initial, "all") ==>
              forall r :: r in outcome.rules <==>
                          exists t :: t in g && Reached(g, initial, t) && r in RuleOf(g[t], possible)
  {
    var rulesToClean: set<string>, queried: set<string>, toQuery := {}, {}, initial;
    InitialReached(g, initial);
    while toQuery != {}
      invariant queried !! toQuery && queried <= g.Keys && ALL !in queried
      invariant if queried == {} then toQuery == initial else toQuery <= g.Keys
      invariant initial <= queried + toQuery
      invariant AllReached(g, initial, queried) && AllReached(g, initial, toQuery)
      invariant InputsOf(g, queried) <= queried + toQuery
      invariant rulesToClean == RulesOf(g, possible, queried)
      decreases g.Keys - queried
    {
      if ALL in toQuery {
        return Rules(possible);
      }
      var known, rules, newTargets := QueryAndParse(g, possible, toQuery, rulesToClean);
      if !known {
        return Exit;
      }
      InputsReached(g, initial, toQuery);
      SplitTargets(g, possible, queried, toQuery);
      rulesToClean := rules;
      queried := queried + toQuery;
      toQuery := newTargets - queried;
    }
    forall t {
      ClosedIsReached(g, initial, queried, t);
    }
    return Rules(rulesToClean);
  }

  lemma SplitTargets(g: Graph, possible: set<string>, a: set<string>, b: set<string>)
    requires IsGraph(g)
    ensures RulesOf(g, possible, a + b) == RulesOf(g, possible, a) + RulesOf(g, possible, b)
    ensures InputsOf(g, a + b) == InputsOf(g, a) + InputsOf(g, b)
    ensures InputsOf(g, b) <= g.Keys
  {
  }

  // ----- In the words of the query -----

  /** What the words are: one rule is no rule but a name for its inputs. */
  lemma BlocksExactly(b: Block, possible: set<string>, s: string)
    ensures s in RuleOf(b, possible) <==> s in possible && |b.rule| > 0 && b.rule[0] == s && b.rule != ["phony"]
    ensures s in NextOf(b) <==> s in b.inputs && b.rule == ["phony"]
  {
  }

  /** A way from an initial target through the inputs of phony targets. */
  ghost predicate IsPhonyWay(g: Graph, initial: set<string>, way: seq<string>) {
    |way| > 0 && way[0] in initial &&
    forall i :: 0 <= i < |way| - 1 ==> way[i] in g && g[way[i]].rule == ["phony"] && way[i + 1] in g[way[i]].inputs
  }

  lemma WayExactly(g: Graph, initial: set<string>, way: seq<string>)
    ensures IsWay(g, initial, way) <==> IsPhonyWay(g, initial, way)
  {
    if IsWay(g, initial, way) {
      forall i | 0 <= i < |way| - 1
        ensures way[i] in g && g[way[i]].rule == ["phony"] && way[i + 1] in g[way[i]].inputs
      {
        assert way[i] in g && way[i + 1] in NextOf(g[way[i]]);
        BlocksExactly(g[way[i]], {}, way[i + 1]);
      }
    }
    if IsPhonyWay(g, initial, way) {
      forall i | 0 <= i < |way| - 1
        ensures way[i] in g && way[i + 1] in NextOf(g[way[i]])
      {
        assert way[i] in g && way[i + 1] in g[way[i]].inputs;
        BlocksExactly(g[way[i]], {}, way[i + 1]);
      }
    }
  }

  lemma ReachedExactly(g: Graph, initial: set<string>, t: string)
    ensures Reached(g, initial, t) <==> exists way :: IsPhonyWay(g, initial, way) && way[|way| - 1] == t
  {
    forall way {
      WayExactly(g, initial, way);
    }
  }

  lemma {:induction false} PrefixedExactly(prefix: string, names: seq<string>, i: nat)
    requires i < |names|
    ensures |Prefixed(prefix, names)| == |names| && Prefixed(prefix, names)[i] == prefix + names[i]
  {
    if |names| > 1 {
      PrefixedExactly(prefix, names[1..], if i > 0 then i - 1 else 0);
    }
  }

  /** The answer to a query about a target, word for word. */
  lemma AnswerWords(target: string, b: Block)
    ensures Printed(target, b) ==
            [target + ":"] +
            (if b.rule == [] then []
             else ["  input: " + b.rule[0]] + Prefixed("    ", b.inputs) + Prefixed("    | ", b.implicit) +
                  Prefixed("    || ", b.orderOnly)) +
            ["  outputs:"] + Prefixed("    ", b.outputs)
  {
    assert "  " + INPUT == "  input: " && "  " + OUTPUTS == "  outputs:";
    if b.rule != [] {
      Rejoin(["  " + INPUT + b.rule[0]], Prefixed("    ", b.inputs), Prefixed("    | ", b.implicit),
             Prefixed("    || ", b.orderOnly));
    }
    Rejoin([target + ":"], Making(b), ["  outputs:"], Prefixed("    ", b.outputs));
  }

  lemma Rejoin<T>(a: seq<T>, b: seq<T>, c: seq<T>, d: seq<T>)
    ensures a + b + c + d == a + (b + (c + d))
  {
  }

  ghost predicate AllSpace(s: string) {
    forall i :: 0 <= i < |s| ==> s[i] in {' ', '\t', '\n', '\r'} || s[i] as int == 11 || s[i] as int == 12
  }

  /** Stripping takes the white space off both ends and nothing else. */
  lemma StripExactly(left: string, s: string, right: string)
    requires AllSpace(left) && AllSpace(right)
    requires s != "" ==> !AllSpace([s[0]]) && !AllSpace([s[|s| - 1]])
    ensures Strip(left + s + right) == s
  {
    assert left + s + right == left + (s + right);
    StripLeftOf(left, s + right, |s| == 0);
    if s == "" {
      StripsToNothing(right);
    } else {
      assert (s + right)[0] == s[0];
      StripRightOf(s, right);
    }
  }

  lemma {:induction false} StripLeftOf(left: string, s: string, blank: bool)
    requires AllSpace(left) && if blank then AllSpace(s) else s != "" && !AllSpace([s[0]])
    ensures StripLeft(left + s) == if blank then "" else s
  {
    if left == "" {
      assert left + s == s;
      if blank {
        StripsToNothing(s);
      }
    } else {
      assert (left + s)[1..] == left[1..] + s;
      StripLeftOf(left[1..], s, blank);
    }
  }

  lemma {:induction false} StripsToNothing(s: string)
    requires AllSpace(s)
    ensures StripLeft(s) == ""
  {
    if s != "" {
      StripsToNothing(s[1..]);
    }
  }

  lemma {:induction false} StripRightOf(s: string, right: string)
    requires AllSpace(right) && s != "" && !AllSpace([s[|s| - 1]])
    ensures StripRight(s + right) == s
  {
    var n := |right| - 1;
    if right == "" {
      assert s + right == s;
    } else {
      assert (s + right)[..|s + right| - 1] == s + right[..n];
      StripRightOf(s, right[..n]);
    }
  }
}
