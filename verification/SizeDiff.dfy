/** The size difference of two binaries: the list of deltas with its totals, and the flow diagram that
    groups the deltas on their way to INCREASE or DECREASE. */
module SizeDiff {

  // ----- Deltas -----

  datatype ChangeKind = Changed | Added | Removed

  datatype Delta = Delta(kind: ChangeKind, amount: int, name: string, size1: nat, size2: nat)

  type Sizes = map<string, nat>

  function SizeIn(m: Sizes, k: string): nat {
    if k in m then m[k] else 0
  }

  /** The sum of the sizes of some symbols. */
  ghost function SumOver(keys: set<string>, m: Sizes): int {
    if keys == {} then 0
    else
      var k :| k in keys;
      SizeIn(m, k) + SumOver(keys - {k}, m)
  }

  lemma {:induction false} SumOverTake(keys: set<string>, m: Sizes, k: string)
    requires k in keys
    ensures SumOver(keys, m) == SizeIn(m, k) + SumOver(keys - {k}, m)
    decreases |keys|
  {
    var x :| x in keys && SumOver(keys, m) == SizeIn(m, x) + SumOver(keys - {x}, m);
    if x != k {
      SumOverTake(keys - {x}, m, k);
      SumOverTake(keys - {k}, m, x);
      assert keys - {x} - {k} == keys - {k} - {x};
    }
  }

  /** Symbols that a binary does not have add nothing. */
  lemma {:induction false} SumOverMore(keys: set<string>, more: set<string>, m: Sizes)
    requires more !! m.Keys && more !! keys
    ensures SumOver(keys + more, m) == SumOver(keys, m)
    decreases |more|
  {
    if more == {} {
      assert keys + more == keys;
    } else {
      var x :| x in more;
      SumOverMore(keys, more - {x}, m);
      SumOverTake(keys + more, m, x);
      assert keys + more - {x} == keys + (more - {x});
    }
  }

  lemma SumOverUnion(m: Sizes, other: Sizes)
    ensures SumOver(m.Keys + other.Keys, m) == SumOver(m.Keys, m)
  {
    SumOverMore(m.Keys, other.Keys - m.Keys, m);
    assert m.Keys + (other.Keys - m.Keys) == m.Keys + other.Keys;
  }

  ghost function Sum(delta: seq<Delta>): int {
    if delta == [] then 0 else Sum(delta[..|delta| - 1]) + delta[|delta| - 1].amount
  }

  ghost predicate Differs(r1: Sizes, r2: Sizes, k: string) {
    (k in r1 || k in r2) && !(k in r1 && k in r2 && r1[k] == r2[k])
  }

  /** The line of a symbol that differs. */
  ghost function LineOf(r1: Sizes, r2: Sizes, k: string): Delta {
    Delta(if k in r1 && k in r2 then Changed else if k in r1 then Added else Removed,
          SizeIn(r1, k) - SizeIn(r2, k), k, SizeIn(r1, k), SizeIn(r2, k))
  }

  ghost predicate LinesFor(r1: Sizes, r2: Sizes, keys: set<string>, delta: seq<Delta>) {
    (forall i :: 0 <= i < |delta| ==>
       delta[i].name in keys && Differs(r1, r2, delta[i].name) && delta[i] == LineOf(r1, r2, delta[i].name)) &&
    (forall i, j :: 0 <= i < j < |delta| ==> delta[i].name != delta[j].name) &&
    forall k :: k in keys && Differs(r1, r2, k) ==> exists i :: 0 <= i < |delta| && delta[i].name == k
  }

  lemma LinesMore(r1: Sizes, r2: Sizes, keys: set<string>, delta: seq<Delta>, k: string)
    requires LinesFor(r1, r2, keys, delta) && k !in keys
    ensures !Differs(r1, r2, k) ==> LinesFor(r1, r2, keys + {k}, delta)
    ensures Differs(r1, r2, k) ==> LinesFor(r1, r2, keys + {k}, delta + [LineOf(r1, r2, k)])
  {
    if Differs(r1, r2, k) {
      var more := delta + [LineOf(r1, r2, k)];
      assert forall i :: 0 <= i < |delta| ==> more[i] == delta[i];
      forall x | x in keys + {k} && Differs(r1, r2, x)
        ensures exists i :: 0 <= i < |more| && more[i].name == x
      {
        if x == k {
          assert more[|delta|].name == k;
        } else {
          var i :| 0 <= i < |delta| && delta[i].name == x;
          assert more[i].name == x;
        }
      }
    }
  }

  lemma SumMore(delta: seq<Delta>, line: Delta)
    ensures Sum(delta + [line]) == Sum(delta) + line.amount
  {
    assert (delta + [line])[..|delta|] == delta;
  }

  /** A symbol of both is changed unless it has the same size in both, one only of the first is added, and one only
      of the second removed. */
  lemma LineExactly(r1: Sizes, r2: Sizes, k: string)
    requires k in r1 || k in r2
    ensures Differs(r1, r2, k) <==> !(k in r1 && k in r2 && r1[k] == r2[k])
    ensures var line := LineOf(r1, r2, k);
            (line.kind == Changed <==> k in r1 && k in r2) && (line.kind == Added <==> k !in r2) &&
            (line.kind == Removed <==> k !in r1) && line.name == k && line.amount == line.size1 - line.size2 &&
            line.size1 == (if k in r1 then r1[k] else 0) && line.size2 == (if k in r2 then r2[k] else 0)
  {
  }

  /** The line of one symbol, and whether it has the same size in both. */
  method CompareSymbol(r1: Sizes, r2: Sizes, k: string) returns (same: bool, line: Delta)
    requires k in r1 || k in r2
    ensures same <==> !Differs(r1, r2, k)
    ensures line == LineOf(r1, r2, k)
  {
    same := k in r1 && k in r2 && r1[k] == r2[k];
    var s1 := if k in r1 then r1[k] else 0;
    var s2 := if k in r2 then r2[k] else 0;
    var change;
    if k in r1 && k in r2 {
      change := Changed;
    } else if k in r1 {
      change := Added;
    } else {
      change := Removed;
    }
    var amount: int := s1 as int - s2 as int;
    line := Delta(change, amount, k, s1, s2);
  }

  /** The books when the symbols `rest` are still to come. */
  ghost predicate AddsUp(r1: Sizes, r2: Sizes, rest: set<string>, delta: seq<Delta>, total: int, total1: int,
                         total2: int)
  {
    Sum(delta) == total == total1 - total2 &&
    total1 + SumOver(rest, r1) == SumOver(Symbols(r1, r2), r1) &&
    total2 + SumOver(rest, r2) == SumOver(Symbols(r1, r2), r2)
  }

  lemma AddsUpNext(r1: Sizes, r2: Sizes, rest: set<string>, delta: seq<Delta>, total: int, total1: int, total2: int,
                   k: string)
    requires AddsUp(r1, r2, rest, delta, total, total1, total2) && k in rest && (k in r1 || k in r2)
    ensures var line := LineOf(r1, r2, k);
            (!Differs(r1, r2, k) ==>
               AddsUp(r1, r2, rest - {k}, delta, total, total1 + line.size1, total2 + line.size2)) &&
            (Differs(r1, r2, k) ==>
               AddsUp(r1, r2, rest - {k}, delta + [line], total + line.amount, total1 + line.size1,
                      total2 + line.size2))
  {
    SumOverTake(rest, r1, k);
    SumOverTake(rest, r2, k);
    SumMore(delta, LineOf(r1, r2, k));
  }

  datatype Report = Report(delta: seq<Delta>, total: int, total1: nat, total2: nat)

  function Symbols(r1: Sizes, r2: Sizes): set<string> {
    r1.Keys + r2.Keys
  }

  /** The report is right for all symbols but `rest`. */
  ghost predicate Reported(r1: Sizes, r2: Sizes, rest: set<string>, t: Report) {
    LinesFor(r1, r2, Symbols(r1, r2) - rest, t.delta) && AddsUp(r1, r2, rest, t.delta, t.total, t.total1, t.total2)
  }

  lemma DoneMore(all: set<string>, rest: set<string>, k: string)
    requires k in rest && k in all
    ensures all - (rest - {k}) == (all - rest) + {k} && k !in all - rest
  {
  }

  lemma ReportMore(r1: Sizes, r2: Sizes, k: string, t: Report, rest: set<string>)
    requires Reported(r1, r2, rest, t) && k in rest && k in Symbols(r1, r2)
    ensures var line := LineOf(r1, r2, k);
            var total1, total2 := t.total1 + line.size1, t.total2 + line.size2;
            if Differs(r1, r2, k)
            then Reported(r1, r2, rest - {k}, Report(t.delta + [line], t.total + line.amount, total1, total2))
            else Reported(r1, r2, rest - {k}, Report(t.delta, t.total, total1, total2))
  {
    DoneMore(Symbols(r1, r2), rest, k);
    LinesMore(r1, r2, Symbols(r1, r2) - rest, t.delta, k);
    AddsUpNext(r1, r2, rest, t.delta, t.total, t.total1, t.total2, k);
  }

  /** The body of the loop over symbols. */
  method ReportSymbol(r1: Sizes, r2: Sizes, k: string, t: Report, ghost rest: set<string>) returns (t': Report)
    requires Reported(r1, r2, rest, t) && k in rest && k in Symbols(r1, r2)
    ensures Reported(r1, r2, rest - {k}, t')
  {
    ReportMore(r1, r2, k, t, rest);
    var same, line := CompareSymbol(r1, r2, k);
    if same {
      return t.(total1 := t.total1 + line.size1, total2 := t.total2 + line.size2);
    }
    return Report(t.delta + [line], t.total + line.amount, t.total1 + line.size1, t.total2 + line.size2);
  }

  lemma ReportComplete(r1: Sizes, r2: Sizes, t: Report)
    requires Reported(r1, r2, {}, t)
    ensures LinesFor(r1, r2, Symbols(r1, r2), t.delta)
    ensures Sum(t.delta) == t.total == t.total1 - t.total2
    ensures t.total1 == SumOver(r1.Keys, r1) && t.total2 == SumOver(r2.Keys, r2)
  {
    SumOverUnion(r1, r2);
    SumOverUnion(r2, r1);
    assert r2.Keys + r1.Keys == Symbols(r1, r2) == Symbols(r1, r2) - {};
  }

  /** One line for each symbol that differs, and totals that add up: the lines sum to the total, the
      total is the difference of the binaries' totals, and these are the sums of all their symbols. */
  method ComputeDelta(r1: Sizes, r2: Sizes) returns (t: Report)
    ensures LinesFor(r1, r2, Symbols(r1, r2), t.delta)
    ensures Sum(t.delta) == t.total == t.total1 - t.total2
    ensures t.total1 == SumOver(r1.Keys, r1) && t.total2 == SumOver(r2.Keys, r2)
  {
    t := Report([], 0, 0, 0);
    var rest := Symbols(r1, r2);
    assert Symbols(r1, r2) - rest == {};
    while rest != {}
      invariant rest <= Symbols(r1, r2) && Reported(r1, r2, rest, t)
      decreases |rest|
    {
      var k :| k in rest;
      t := ReportSymbol(r1, r2, k, t, rest);
      rest := rest - {k};
    }
    ReportComplete(r1, r2, t);
  }

  // ----- Links and flow -----

  const INCREASE := 0
  const DECREASE := 1

  datatype Link = Link(source: nat, target: nat, value: int)

  /** A rule's node for one destination, with what has been sent through it. */
  datatype Instance = Instance(index: nat, target: nat, value: int)

  ghost function Inflow(links: seq<Link>, node: nat): int {
    if links == [] then 0
    else
      var n := |links| - 1;
      Inflow(links[..n], node) + if links[n].target == node then links[n].value else 0
  }

  ghost function Outflow(links: seq<Link>, node: nat): int {
    if links == [] then 0
    else
      var n := |links| - 1;
      Outflow(links[..n], node) + if links[n].source == node then links[n].value else 0
  }

  lemma FlowAppend(links: seq<Link>, l: Link, node: nat)
    ensures Inflow(links + [l], node) == Inflow(links, node) + if l.target == node then l.value else 0
    ensures Outflow(links + [l], node) == Outflow(links, node) + if l.source == node then l.value else 0
  {
    assert (links + [l])[..|links|] == links;
  }

  ghost predicate LinksWithin(links: seq<Link>, n: nat) {
    forall i :: 0 <= i < |links| ==> links[i].source < n && links[i].target < n
  }

  lemma {:induction false} NoFlowOutside(links: seq<Link>, n: nat, node: nat)
    requires LinksWithin(links, n) && n <= node
    ensures Inflow(links, node) == 0 && Outflow(links, node) == 0
  {
    if links != [] {
      NoFlowOutside(links[..|links| - 1], n, node);
    }
  }

  // ----- Grouping -----

  /** Where a delta goes: growth to INCREASE, the rest to DECREASE. */
  function Side(amount: int): nat {
    if amount > 0 then INCREASE else DECREASE
  }

  function Volume(amount: int): nat {
    if amount > 0 then amount else -amount
  }

  /** The first of `n` rules, from `r` on, that matches a name; `n` if none does. */
  function FirstMatch(matches: (nat, string) -> bool, n: nat, name: string, r: nat): (m: nat)
    requires r <= n
    ensures r <= m <= n && (m < n ==> matches(m, name))
    ensures forall k :: r <= k < m ==> !matches(k, name)
    decreases n - r
  {
    if r == n || matches(r, name) then r else FirstMatch(matches, n, name, r + 1)
  }

  /** What the entries that rule `r` is first to match send to one side; for `r == n`, those that no
      rule matches. */
  ghost function GroupTotal(matches: (nat, string) -> bool, n: nat, input: seq<Delta>, r: nat, side: nat): int {
    if input == [] then 0
    else
      var last := input[|input| - 1];
      GroupTotal(matches, n, input[..|input| - 1], r, side) +
      if FirstMatch(matches, n, last.name, 0) == r && Side(last.amount) == side then Volume(last.amount) else 0
  }

  /** The rule matches the name, and no earlier one does. */
  ghost predicate IsFirst(matches: (nat, string) -> bool, n: nat, name: string, r: nat) {
    r < n && matches(r, name) && forall k :: 0 <= k < r ==> !matches(k, name)
  }

  /** An entry counts for a rule exactly if the rule is the first to match it, for growth towards node 0 and
      otherwise towards node 1, and with the size of its change. */
  lemma CountsForFirst(matches: (nat, string) -> bool, n: nat, input: seq<Delta>, e: Delta, r: nat, side: nat)
    requires r < n
    ensures GroupTotal(matches, n, [], r, side) == 0 == SideTotal([], side)
    ensures GroupTotal(matches, n, input + [e], r, side) == GroupTotal(matches, n, input, r, side) +
            if !IsFirst(matches, n, e.name, r) then 0
            else if side == 0 && e.amount > 0 then e.amount
            else if side == 1 && e.amount <= 0 then -e.amount
            else 0
    ensures SideTotal(input + [e], side) == SideTotal(input, side) +
            if side == 0 && e.amount > 0 then e.amount
            else if side == 1 && e.amount <= 0 then -e.amount
            else 0
  {
    assert (input + [e])[..|input|] == input;
  }

  /** What all entries send to one side. */
  ghost function SideTotal(input: seq<Delta>, side: nat): int {
    if input == [] then 0
    else
      var last := input[|input| - 1];
      SideTotal(input[..|input| - 1], side) + if Side(last.amount) == side then Volume(last.amount) else 0
  }

  lemma {:induction false} SidesMakeSum(input: seq<Delta>)
    ensures SideTotal(input, INCREASE) - SideTotal(input, DECREASE) == Sum(input)
  {
    if input != [] {
      SidesMakeSum(input[..|input| - 1]);
    }
  }

  // ----- The diagram -----

  type Groups = seq<map<nat, Instance>>

  /** The rules with one rule's node for one side replaced. */
  function With(rules: Groups, r: nat, side: nat, g: Instance): Groups
    requires r < |rules|
  {
    var m: map<nat, Instance> := rules[r][side := g];
    rules[r := m]
  }

  datatype Diagram = Diagram(labels: seq<string>, links: seq<Link>, rules: Groups)

  /** The value held for one side by the rules from `r` on. */
  ghost function Pending(rules: Groups, r: nat, side: nat): int
    requires r <= |rules|
    decreases |rules| - r
  {
    if r == |rules| then 0
    else (if side in rules[r] then rules[r][side].value else 0) + Pending(rules, r + 1, side)
  }

  lemma {:induction false} PendingUpdate(rules: Groups, r: nat, k: nat, m: map<nat, Instance>, side: nat)
    requires r <= |rules| && k < |rules|
    ensures Pending(rules[k := m], r, side) ==
            Pending(rules, r, side) +
            if r <= k
            then (if side in m then m[side].value else 0) - (if side in rules[k] then rules[k][side].value else 0)
            else 0
    decreases |rules| - r
  {
    if r < |rules| {
      PendingUpdate(rules, r + 1, k, m, side);
    }
  }

  /** A group's node lies apart from the two destinations, takes in what it holds, and sends out that,
      or nothing yet. */
  ghost predicate GroupFlows(d: Diagram, r: nat, side: nat, sent: bool)
    requires r < |d.rules| && side in d.rules[r]
  {
    var g := d.rules[r][side];
    side < 2 && g.target == side && 2 <= g.index < |d.labels| &&
    Inflow(d.links, g.index) == g.value && Outflow(d.links, g.index) == if sent then g.value else 0
  }

  ghost predicate IsGroup(d: Diagram, r: nat, side: nat) {
    r < |d.rules| && side in d.rules[r]
  }

  ghost predicate Apart(d: Diagram, r: nat, side: nat, r': nat, side': nat)
    requires IsGroup(d, r, side) && IsGroup(d, r', side')
  {
    d.rules[r][side].index == d.rules[r'][side'].index ==> r == r' && side == side'
  }

  ghost predicate AllApart(d: Diagram) {
    forall r: nat, side: nat, r': nat, side': nat {:trigger IsGroup(d, r, side), IsGroup(d, r', side')} ::
      IsGroup(d, r, side) && IsGroup(d, r', side') ==> Apart(d, r, side, r', side')
  }

  ghost predicate NoneSent(d: Diagram) {
    forall r: nat, side: nat {:trigger IsGroup(d, r, side)} :: IsGroup(d, r, side) ==> GroupFlows(d, r, side, false)
  }

  /** Before the groups are linked: what has arrived at a destination and what the groups hold for it is
      all that was sent its way. */
  ghost predicate Gathering(d: Diagram, toIncrease: int, toDecrease: int) {
    |d.labels| >= 2 && LinksWithin(d.links, |d.labels|) && AllApart(d) && NoneSent(d) &&
    Inflow(d.links, INCREASE) + Pending(d.rules, 0, INCREASE) == toIncrease &&
    Inflow(d.links, DECREASE) + Pending(d.rules, 0, DECREASE) == toDecrease
  }

  /** The diagram after an entry that no rule matches. */
  ghost function EntryDirect(d: Diagram, name: string, side: nat, volume: int): Diagram {
    d.(labels := d.labels + [name], links := d.links + [Link(|d.labels|, side, volume)])
  }

  /** After an entry whose rule has a node for this side. */
  ghost function EntryToGroup(d: Diagram, name: string, r: nat, side: nat, volume: int): Diagram
    requires IsGroup(d, r, side)
  {
    var g := d.rules[r][side];
    Diagram(d.labels + [name], d.links + [Link(|d.labels|, g.index, volume)],
            With(d.rules, r, side, g.(value := g.value + volume)))
  }

  /** After an entry whose rule has no node for this side yet. */
  ghost function EntryToNewGroup(d: Diagram, group: string, name: string, r: nat, side: nat, volume: int): Diagram
    requires r < |d.rules|
  {
    var n := |d.labels|;
    Diagram(d.labels + [group, name], d.links + [Link(n + 1, n, volume)],
            With(d.rules, r, side, Instance(n, side, volume)))
  }

  lemma DirectKeeps(d: Diagram, name: string, side: nat, volume: int, p: int, q: int)
    requires Gathering(d, p, q) && side < 2
    ensures Gathering(EntryDirect(d, name, side, volume), if side == INCREASE then p + volume else p,
                      if side == DECREASE then q + volume else q)
  {
    var l := Link(|d.labels|, side, volume);
    FlowAppend(d.links, l, INCREASE);
    FlowAppend(d.links, l, DECREASE);
    DirectFlows(d, name, side, volume);
    DirectApart(d, name, side, volume);
  }

  lemma DirectFlows(d: Diagram, name: string, side: nat, volume: int)
    requires LinksWithin(d.links, |d.labels|) && NoneSent(d) && side < 2
    ensures NoneSent(EntryDirect(d, name, side, volume))
  {
    var d' := EntryDirect(d, name, side, volume);
    forall r: nat, s: nat | IsGroup(d', r, s)
      ensures GroupFlows(d', r, s, false)
    {
      assert IsGroup(d, r, s) && GroupFlows(d, r, s, false);
      FlowAppend(d.links, Link(|d.labels|, side, volume), d.rules[r][s].index);
    }
  }

  lemma DirectApart(d: Diagram, name: string, side: nat, volume: int)
    requires AllApart(d)
    ensures AllApart(EntryDirect(d, name, side, volume))
  {
    var d' := EntryDirect(d, name, side, volume);
    forall r: nat, s: nat, r': nat, s': nat | IsGroup(d', r, s) && IsGroup(d', r', s')
      ensures Apart(d', r, s, r', s')
    {
      assert IsGroup(d, r, s) && IsGroup(d, r', s') && Apart(d, r, s, r', s');
    }
  }

  lemma ToGroupFlows(d: Diagram, name: string, r: nat, side: nat, volume: int)
    requires LinksWithin(d.links, |d.labels|) && AllApart(d) && NoneSent(d) && IsGroup(d, r, side)
    ensures NoneSent(EntryToGroup(d, name, r, side, volume))
  {
    var d' := EntryToGroup(d, name, r, side, volume);
    var l := Link(|d.labels|, d.rules[r][side].index, volume);
    forall r1: nat, s: nat | IsGroup(d', r1, s)
      ensures GroupFlows(d', r1, s, false)
    {
      assert IsGroup(d, r1, s) && GroupFlows(d, r1, s, false) && Apart(d, r1, s, r, side);
      FlowAppend(d.links, l, d.rules[r1][s].index);
    }
  }

  lemma ToGroupApart(d: Diagram, name: string, r: nat, side: nat, volume: int)
    requires AllApart(d) && IsGroup(d, r, side)
    ensures AllApart(EntryToGroup(d, name, r, side, volume))
  {
    var d' := EntryToGroup(d, name, r, side, volume);
    forall r1: nat, s: nat, r': nat, s': nat | IsGroup(d', r1, s) && IsGroup(d', r', s')
      ensures Apart(d', r1, s, r', s')
    {
      assert IsGroup(d, r1, s) && IsGroup(d, r', s') && Apart(d, r1, s, r', s');
    }
  }

  lemma ToGroupKeeps(d: Diagram, name: string, r: nat, side: nat, volume: int, p: int, q: int)
    requires Gathering(d, p, q) && IsGroup(d, r, side)
    ensures side < 2
    ensures Gathering(EntryToGroup(d, name, r, side, volume), if side == INCREASE then p + volume else p,
                      if side == DECREASE then q + volume else q)
  {
    var d' := EntryToGroup(d, name, r, side, volume);
    assert GroupFlows(d, r, side, false);
    var l := Link(|d.labels|, d.rules[r][side].index, volume);
    FlowAppend(d.links, l, INCREASE);
    FlowAppend(d.links, l, DECREASE);
    PendingUpdate(d.rules, 0, r, d'.rules[r], INCREASE);
    PendingUpdate(d.rules, 0, r, d'.rules[r], DECREASE);
    ToGroupFlows(d, name, r, side, volume);
    ToGroupApart(d, name, r, side, volume);
  }

  lemma ToNewGroupFlows(d: Diagram, group: string, name: string, r: nat, side: nat, volume: int)
    requires |d.labels| >= 2 && LinksWithin(d.links, |d.labels|) && NoneSent(d)
    requires r < |d.rules| && side !in d.rules[r] && side < 2
    ensures NoneSent(EntryToNewGroup(d, group, name, r, side, volume))
  {
    var d', n := EntryToNewGroup(d, group, name, r, side, volume), |d.labels|;
    var l := Link(n + 1, n, volume);
    forall r1: nat, s: nat | IsGroup(d', r1, s)
      ensures GroupFlows(d', r1, s, false)
    {
      if r1 == r && s == side {
        NoFlowOutside(d.links, n, n);
        FlowAppend(d.links, l, n);
      } else {
        assert IsGroup(d, r1, s) && GroupFlows(d, r1, s, false);
        FlowAppend(d.links, l, d.rules[r1][s].index);
      }
    }
  }

  lemma ToNewGroupApart(d: Diagram, group: string, name: string, r: nat, side: nat, volume: int)
    requires NoneSent(d) && AllApart(d) && r < |d.rules| && side !in d.rules[r]
    ensures AllApart(EntryToNewGroup(d, group, name, r, side, volume))
  {
    var d' := EntryToNewGroup(d, group, name, r, side, volume);
    forall r1: nat, s: nat | IsGroup(d', r1, s)
      ensures (r1 == r && s == side) ||
              (IsGroup(d, r1, s) && d'.rules[r1][s] == d.rules[r1][s] && d.rules[r1][s].index < |d.labels|)
    {
      if !(r1 == r && s == side) {
        assert IsGroup(d, r1, s) && GroupFlows(d, r1, s, false);
      }
    }
    forall r1: nat, s: nat, r': nat, s': nat | IsGroup(d', r1, s) && IsGroup(d', r', s')
      ensures Apart(d', r1, s, r', s')
    {
      if !(r1 == r && s == side) && !(r' == r && s' == side) {
        assert Apart(d, r1, s, r', s');
      }
    }
  }

  lemma ToNewGroupKeeps(d: Diagram, group: string, name: string, r: nat, side: nat, volume: int, p: int, q: int)
    requires Gathering(d, p, q) && r < |d.rules| && side !in d.rules[r] && side < 2
    ensures Gathering(EntryToNewGroup(d, group, name, r, side, volume), if side == INCREASE then p + volume else p,
                      if side == DECREASE then q + volume else q)
  {
    var d', n := EntryToNewGroup(d, group, name, r, side, volume), |d.labels|;
    FlowAppend(d.links, Link(n + 1, n, volume), INCREASE);
    FlowAppend(d.links, Link(n + 1, n, volume), DECREASE);
    PendingUpdate(d.rules, 0, r, d'.rules[r], INCREASE);
    PendingUpdate(d.rules, 0, r, d'.rules[r], DECREASE);
    ToNewGroupFlows(d, group, name, r, side, volume);
    ToNewGroupApart(d, group, name, r, side, volume);
  }

  // ----- Linking the groups -----

  /** Which groups have been linked once the rules before `r` are done, and rule `r` but for `rest`. */
  predicate Sent(k: nat, side: nat, r: nat, rest: set<nat>) {
    k < r || (k == r && side !in rest)
  }

  ghost function StillHeld(rules: Groups, r: nat, rest: set<nat>, side: nat): int
    requires r <= |rules|
  {
    if r == |rules| then 0
    else (if side in rest && side in rules[r] then rules[r][side].value else 0) + Pending(rules, r + 1, side)
  }

  ghost predicate Linking(d: Diagram, r: nat, rest: set<nat>, toIncrease: int, toDecrease: int) {
    r <= |d.rules| && |d.labels| >= 2 && AllApart(d) && SomeSent(d, r, rest) &&
    Inflow(d.links, INCREASE) + StillHeld(d.rules, r, rest, INCREASE) == toIncrease &&
    Inflow(d.links, DECREASE) + StillHeld(d.rules, r, rest, DECREASE) == toDecrease
  }

  ghost predicate SomeSent(d: Diagram, r: nat, rest: set<nat>) {
    forall k: nat, side: nat {:trigger IsGroup(d, k, side)} ::
      IsGroup(d, k, side) ==> GroupFlows(d, k, side, Sent(k, side, r, rest))
  }

  lemma LinkOne(d: Diagram, r: nat, rest: set<nat>, side: nat, p: int, q: int)
    requires Linking(d, r, rest, p, q) && IsGroup(d, r, side) && side in rest
    ensures var g := d.rules[r][side];
            Linking(d.(links := d.links + [Link(g.index, g.target, g.value)]), r, rest - {side}, p, q)
  {
    var g := d.rules[r][side];
    var l := Link(g.index, g.target, g.value);
    var d' := d.(links := d.links + [l]);
    assert GroupFlows(d, r, side, false);
    FlowAppend(d.links, l, INCREASE);
    FlowAppend(d.links, l, DECREASE);
    forall k: nat, s: nat | IsGroup(d', k, s)
      ensures GroupFlows(d', k, s, Sent(k, s, r, rest - {side}))
    {
      assert IsGroup(d, k, s) && GroupFlows(d, k, s, Sent(k, s, r, rest)) && Apart(d, k, s, r, side);
      FlowAppend(d.links, l, d.rules[k][s].index);
    }
    forall k: nat, s: nat, r': nat, s': nat | IsGroup(d', k, s) && IsGroup(d', r', s')
      ensures Apart(d', k, s, r', s')
    {
      assert IsGroup(d, k, s) && IsGroup(d, r', s') && Apart(d, k, s, r', s');
    }
  }

  lemma NextRule(d: Diagram, r: nat, p: int, q: int)
    requires Linking(d, r, {}, p, q) && r < |d.rules|
    ensures Linking(d, r + 1, if r + 1 < |d.rules| then d.rules[r + 1].Keys else {}, p, q)
  {
    var rest := if r + 1 < |d.rules| then d.rules[r + 1].Keys else {};
    forall k: nat, s: nat | IsGroup(d, k, s)
      ensures GroupFlows(d, k, s, Sent(k, s, r + 1, rest))
    {
      assert GroupFlows(d, k, s, Sent(k, s, r, {}));
    }
  }

  lemma StartLinking(d: Diagram, p: int, q: int)
    requires Gathering(d, p, q)
    ensures Linking(d, 0, if 0 < |d.rules| then d.rules[0].Keys else {}, p, q)
  {
    var rest := if 0 < |d.rules| then d.rules[0].Keys else {};
    forall k: nat, s: nat | IsGroup(d, k, s)
      ensures GroupFlows(d, k, s, Sent(k, s, 0, rest))
    {
      assert GroupFlows(d, k, s, false);
    }
  }

  // ----- What the groups hold -----

  ghost function HeldFor(rules: Groups, r: nat, side: nat): int
    requires r < |rules|
  {
    if side in rules[r] then rules[r][side].value else 0
  }

  /** Every rule holds for each side exactly what the entries it is first to match send there. */
  ghost predicate Grouped(rules: Groups, matches: (nat, string) -> bool, input: seq<Delta>) {
    forall r: nat, side: nat :: r < |rules| ==> HeldFor(rules, r, side) == GroupTotal(matches, |rules|, input, r, side)
  }

  /** The diagram after an entry: it goes to the first rule that matches, if one does. */
  ghost function Entered(d: Diagram, groupNames: seq<string>, matches: (nat, string) -> bool, e: Delta): Diagram
    requires |groupNames| == |d.rules|
  {
    var r, side, volume := FirstMatch(matches, |d.rules|, e.name, 0), Side(e.amount), Volume(e.amount);
    if r >= |d.rules| then EntryDirect(d, e.name, side, volume)
    else if side in d.rules[r] then EntryToGroup(d, e.name, r, side, volume)
    else EntryToNewGroup(d, groupNames[r], e.name, r, side, volume)
  }

  /** The entry has gone from a new node of its own to rule `r`'s node for its side, which has taken it in and is
      new as well if there was none; nothing else has changed. */
  ghost predicate EnteredBy(d: Diagram, d': Diagram, group: string, e: Delta, r: nat) {
    |d'.rules| == |d.rules| && r < |d.rules| &&
    var side, volume := if e.amount > 0 then 0 else 1, if e.amount > 0 then e.amount else -e.amount;
    side in d'.rules[r] &&
    (forall k: nat, s: nat :: k < |d.rules| && !(k == r && s == side) ==>
       (s in d'.rules[k] <==> s in d.rules[k]) && (s in d.rules[k] ==> d'.rules[k][s] == d.rules[k][s])) &&
    var g := d'.rules[r][side];
    if side in d.rules[r] then
      g == d.rules[r][side].(value := d.rules[r][side].value + volume) &&
      d'.labels == d.labels + [e.name] && d'.links == d.links + [Link(|d.labels|, g.index, volume)]
    else
      g == Instance(|d.labels|, side, volume) &&
      d'.labels == d.labels + [group, e.name] && d'.links == d.links + [Link(|d.labels| + 1, |d.labels|, volume)]
  }

  /** The entry has gone through the node of the first rule that matches it, or straight to its side if none does. */
  ghost predicate IsEntered(d: Diagram, d': Diagram, groupNames: seq<string>, matches: (nat, string) -> bool,
                            e: Delta)
  {
    |groupNames| == |d.rules| && d.labels <= d'.labels &&
    (forall r: nat :: IsFirst(matches, |d.rules|, e.name, r) ==> EnteredBy(d, d', groupNames[r], e, r)) &&
    ((forall r :: 0 <= r < |d.rules| ==> !matches(r, e.name)) ==>
       d'.labels == d.labels + [e.name] && d'.rules == d.rules &&
       d'.links == d.links + [if e.amount > 0 then Link(|d.labels|, 0, e.amount) else Link(|d.labels|, 1, -e.amount)])
  }

  lemma EnteredExactly(d: Diagram, groupNames: seq<string>, matches: (nat, string) -> bool, e: Delta)
    requires |groupNames| == |d.rules|
    ensures IsEntered(d, Entered(d, groupNames, matches, e), groupNames, matches, e)
  {
    var r := FirstMatch(matches, |d.rules|, e.name, 0);
    assert forall k: nat :: IsFirst(matches, |d.rules|, e.name, k) ==> k == r;
    if r < |d.rules| {
      EnteredByFirst(d, groupNames, matches, e, r);
    }
  }

  lemma EnteredByFirst(d: Diagram, groupNames: seq<string>, matches: (nat, string) -> bool, e: Delta, r: nat)
    requires |groupNames| == |d.rules| && r == FirstMatch(matches, |d.rules|, e.name, 0) < |d.rules|
    ensures EnteredBy(d, Entered(d, groupNames, matches, e), groupNames[r], e, r)
  {
  }

  lemma EnteredKeeps(d: Diagram, groupNames: seq<string>, matches: (nat, string) -> bool, e: Delta, p: int, q: int)
    requires |groupNames| == |d.rules| && Gathering(d, p, q)
    ensures Gathering(Entered(d, groupNames, matches, e), if e.amount > 0 then p + Volume(e.amount) else p,
                      if e.amount > 0 then q else q + Volume(e.amount))
  {
    var r, side, volume := FirstMatch(matches, |d.rules|, e.name, 0), Side(e.amount), Volume(e.amount);
    if r >= |d.rules| {
      DirectKeeps(d, e.name, side, volume, p, q);
    } else if side in d.rules[r] {
      ToGroupKeeps(d, e.name, r, side, volume, p, q);
    } else {
      ToNewGroupKeeps(d, groupNames[r], e.name, r, side, volume, p, q);
    }
  }

  lemma EnteredGroups(d: Diagram, groupNames: seq<string>, matches: (nat, string) -> bool, input: seq<Delta>, e: Delta)
    requires |groupNames| == |d.rules| && Grouped(d.rules, matches, input)
    ensures |Entered(d, groupNames, matches, e).rules| == |d.rules|
    ensures Grouped(Entered(d, groupNames, matches, e).rules, matches, input + [e])
  {
    var d' := Entered(d, groupNames, matches, e);
    forall r: nat, side: nat | r < |d'.rules|
      ensures HeldFor(d'.rules, r, side) == GroupTotal(matches, |d'.rules|, input + [e], r, side)
    {
      assert (input + [e])[..|input|] == input;
      assert HeldFor(d.rules, r, side) == GroupTotal(matches, |d.rules|, input, r, side);
    }
  }

  /** Once these entries are in, the diagram holds what was sent each way and to each group. */
  ghost predicate Holds(d: Diagram, matches: (nat, string) -> bool, done: seq<Delta>) {
    Gathering(d, SideTotal(done, INCREASE), SideTotal(done, DECREASE)) && Grouped(d.rules, matches, done)
  }

  lemma HoldsMore(d: Diagram, groupNames: seq<string>, matches: (nat, string) -> bool, done: seq<Delta>, e: Delta)
    requires |groupNames| == |d.rules| && Holds(d, matches, done)
    ensures Holds(Entered(d, groupNames, matches, e), matches, done + [e])
  {
    EnteredKeeps(d, groupNames, matches, e, SideTotal(done, INCREASE), SideTotal(done, DECREASE));
    EnteredGroups(d, groupNames, matches, done, e);
    SideTotalMore(done, e, INCREASE);
    SideTotalMore(done, e, DECREASE);
  }

  lemma SideTotalMore(input: seq<Delta>, e: Delta, side: nat)
    ensures SideTotal(input + [e], side) ==
            SideTotal(input, side) + if Side(e.amount) == side then Volume(e.amount) else 0
  {
    assert (input + [e])[..|input|] == input;
  }

  /** All flow is accounted for: every group sends on exactly what it takes in, which is what its entries
      send, and the two destinations receive all growth and all shrinking. */
  ghost predicate Accounted(d: Diagram, matches: (nat, string) -> bool, input: seq<Delta>) {
    (forall r: nat, side: nat {:trigger IsGroup(d, r, side)} :: IsGroup(d, r, side) ==>
       Inflow(d.links, d.rules[r][side].index) == Outflow(d.links, d.rules[r][side].index) ==
       GroupTotal(matches, |d.rules|, input, r, side)) &&
    (forall r: nat, side: nat {:trigger IsGroup(d, r, side)} :: r < |d.rules| && !IsGroup(d, r, side) ==>
       GroupTotal(matches, |d.rules|, input, r, side) == 0) &&
    Inflow(d.links, INCREASE) == SideTotal(input, INCREASE) &&
    Inflow(d.links, DECREASE) == SideTotal(input, DECREASE)
  }

  lemma AllLinked(d: Diagram, matches: (nat, string) -> bool, input: seq<Delta>)
    requires Grouped(d.rules, matches, input)
    requires Linking(d, |d.rules|, {}, SideTotal(input, INCREASE), SideTotal(input, DECREASE))
    ensures Accounted(d, matches, input)
  {
    forall r: nat, side: nat | IsGroup(d, r, side)
      ensures Inflow(d.links, d.rules[r][side].index) == Outflow(d.links, d.rules[r][side].index) ==
              GroupTotal(matches, |d.rules|, input, r, side)
    {
      assert GroupFlows(d, r, side, Sent(r, side, |d.rules|, {}));
      assert HeldFor(d.rules, r, side) == GroupTotal(matches, |d.rules|, input, r, side);
    }
  }

  /** Over the whole diagram, what reaches INCREASE less what reaches DECREASE is the total change. */
  lemma FlowMatchesTotal(d: Diagram, matches: (nat, string) -> bool, input: seq<Delta>)
    requires Accounted(d, matches, input)
    ensures Inflow(d.links, INCREASE) - Inflow(d.links, DECREASE) == Sum(input)
  {
    SidesMakeSum(input);
  }

  // ----- The object -----

  class SankeyData {
    var labels: seq<string>
    var links: seq<Link>
    /** Each rule's nodes by the destination they lead to. */
    var rules: Groups
    const groupNames: seq<string>

    ghost predicate Valid()
      reads this
    {
      |groupNames| == |rules|
    }

    ghost function Abstract(): Diagram
      reads this
    {
      Diagram(labels, links, rules)
    }

    constructor (groupNames: seq<string>)
      ensures Valid() && this.groupNames == groupNames
      ensures labels == [] && links == [] && rules == seq(|groupNames|, _ => map[])
    {
      labels, links, rules := [], [], seq(|groupNames|, _ => map[]);
      this.groupNames := groupNames;
    }

    method AddNode(name: string) returns (index: nat)
      modifies this`labels
      ensures labels == old(labels) + [name] && index == |old(labels)|
    {
      labels := labels + [name];
      return |labels| - 1;
    }

    method AddLink(source: nat, target: nat, value: int)
      modifies this`links
      ensures links == old(links) + [Link(source, target, value)]
    {
      links := links + [Link(source, target, value)];
    }

    /** Sends a value through rule `r`'s node for `target`, which is made if there is none. */
    method AddTowards(r: nat, target: nat, value: int) returns (index: nat)
      requires Valid() && r < |rules|
      modifies this`labels, this`rules
      ensures Valid()
      ensures target in old(rules)[r] ==>
                var g := old(rules)[r][target];
                labels == old(labels) && index == g.index &&
                rules == With(old(rules), r, target, g.(value := g.value + value))
      ensures target !in old(rules)[r] ==>
                labels == old(labels) + [groupNames[r]] && index == |old(labels)| &&
                rules == With(old(rules), r, target, Instance(index, target, value))
    {
      if target in rules[r] {
        var g := rules[r][target];
        index := g.index;
        rules := With(rules, r, target, g.(value := g.value + value));
      } else {
        index := AddNode(groupNames[r]);
        rules := With(rules, r, target, Instance(index, target, value));
      }
    }

    /** The loop body for one entry. */
    method AddEntry(e: Delta, matches: (nat, string) -> bool)
      requires Valid()
      modifies this
      ensures Valid() && Abstract() == Entered(old(Abstract()), groupNames, matches, e)
      ensures IsEntered(old(Abstract()), Abstract(), groupNames, matches, e)
    {
      var delta := e.amount;
      var targetIndex: nat := DECREASE;
      if delta > 0 {
        targetIndex := INCREASE;
      } else {
        delta := -delta;
      }
      var r := 0;
      while r < |rules| && !matches(r, e.name)
        invariant 0 <= r <= |rules|
        invariant FirstMatch(matches, |rules|, e.name, 0) == FirstMatch(matches, |rules|, e.name, r)
        invariant Abstract() == old(Abstract()) && Valid()
      {
        r := r + 1;
      }
      if r < |rules| {
        targetIndex := AddTowards(r, targetIndex, delta);
      }
      var index := AddNode(e.name);
      AddLink(index, targetIndex, delta);
      EnteredExactly(old(Abstract()), groupNames, matches, e);
    }

    /** Links every node of a rule to its destination. */
    method AddLinks(r: nat, ghost p: int, ghost q: int)
      requires Valid() && r < |rules| && Linking(Abstract(), r, rules[r].Keys, p, q)
      modifies this`links
      ensures Valid() && Linking(Abstract(), r, {}, p, q)
    {
      var rest := rules[r].Keys;
      while rest != {}
        invariant rest <= rules[r].Keys && Linking(Abstract(), r, rest, p, q)
        decreases |rest|
      {
        var side :| side in rest;
        assert IsGroup(Abstract(), r, side);
        LinkOne(Abstract(), r, rest, side, p, q);
        var g := rules[r][side];
        AddLink(g.index, g.target, g.value);
        rest := rest - {side};
      }
    }

    /** Builds the diagram of a list of deltas. */
    method Build(input: seq<Delta>, matches: (nat, string) -> bool)
      requires Valid() && labels == [] && links == [] && forall r :: 0 <= r < |rules| ==> rules[r] == map[]
      modifies this
      ensures Valid() && Accounted(Abstract(), matches, input) && ["INCREASE", "DECREASE"] <= labels
      ensures Inflow(links, INCREASE) - Inflow(links, DECREASE) == Sum(input)
    {
      var inc := AddNode("INCREASE");
      var dec := AddNode("DECREASE");
      StartEmpty(Abstract(), matches);
      for n := 0 to |input|
        invariant Valid() && Holds(Abstract(), matches, input[..n]) && ["INCREASE", "DECREASE"] <= labels
      {
        HoldsMore(Abstract(), groupNames, matches, input[..n], input[n]);
        assert input[..n + 1] == input[..n] + [input[n]];
        AddEntry(input[n], matches);
      }
      assert input[..|input|] == input;
      LinkAll(SideTotal(input, INCREASE), SideTotal(input, DECREASE));
      AllLinked(Abstract(), matches, input);
      FlowMatchesTotal(Abstract(), matches, input);
    }

    /** The loop that links the nodes of all rules. */
    method LinkAll(ghost p: int, ghost q: int)
      requires Valid() && Gathering(Abstract(), p, q)
      modifies this`links
      ensures Valid() && Linking(Abstract(), |rules|, {}, p, q)
    {
      StartLinking(Abstract(), p, q);
      for r := 0 to |rules|
        invariant Valid() && Linking(Abstract(), r, if r < |rules| then rules[r].Keys else {}, p, q)
      {
        AddLinks(r, p, q);
        NextRule(Abstract(), r, p, q);
      }
    }
  }

  lemma StartEmpty(d: Diagram, matches: (nat, string) -> bool)
    requires |d.labels| == 2 && d.links == [] && forall r :: 0 <= r < |d.rules| ==> d.rules[r] == map[]
    ensures Gathering(d, 0, 0) && Grouped(d.rules, matches, [])
  {
    NothingPending(d.rules, 0, INCREASE);
    NothingPending(d.rules, 0, DECREASE);
  }

  lemma {:induction false} NothingPending(rules: Groups, r: nat, side: nat)
    requires r <= |rules| && forall k :: 0 <= k < |rules| ==> rules[k] == map[]
    ensures Pending(rules, r, side) == 0
    decreases |rules| - r
  {
    if r < |rules| {
      NothingPending(rules, r + 1, side);
    }
  }
}
