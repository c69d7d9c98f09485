/** Ownership of entry delegates by entry handles: moving, setting, resetting and destroying handles
    releases every delegate that was handed out exactly as often as it was handed out. */
module EntryOwnership {
  import opened Options

  // ----- The books -----

  /** Which live entry holds which delegate (`None` is the shared default delegate), and how often each
      delegate has been handed to an entry and released. */
  datatype Books<E, D> = Books(holds: map<E, Option<D>>, handed: multiset<D>, released: multiset<D>)

  datatype Move<E, D> =
    | Construct(e: E)
    | MoveConstruct(e: E, from: E)
    | MoveAssign(e: E, from: E)
    | SetDelegate(e: E, d: D)
    | ResetDelegate(e: E)
    | Destroy(e: E)

  /** Releasing the default delegate does nothing. */
  ghost function Releasing<D>(held: Option<D>): multiset<D> {
    if held.None? then multiset{} else multiset{held.value}
  }

  /** Entries are created once and used while they live. */
  ghost predicate Possible<E, D>(b: Books<E, D>, m: Move<E, D>) {
    match m
    case Construct(e) => e !in b.holds
    case MoveConstruct(e, from) => e !in b.holds && from in b.holds
    case MoveAssign(e, from) => e in b.holds && from in b.holds
    case SetDelegate(e, _) => e in b.holds
    case ResetDelegate(e) => e in b.holds
    case Destroy(e) => e in b.holds
  }

  /** A delegate is handed to an entry only while no other entry holds it. */
  ghost predicate Disciplined<E, D>(b: Books<E, D>, m: Move<E, D>) {
    m.SetDelegate? ==> forall x :: x in b.holds && x != m.e ==> b.holds[x] != Some(m.d)
  }

  ghost function Effect<E, D>(b: Books<E, D>, m: Move<E, D>): Books<E, D>
    requires Possible(b, m)
  {
    match m
    case Construct(e) => b.(holds := b.holds[e := None])
    case MoveConstruct(e, from) => b.(holds := b.holds[e := b.holds[from]][from := None])
    case MoveAssign(e, from) =>
      if e == from then b
      else b.(holds := b.holds[e := b.holds[from]][from := None], released := b.released + Releasing(b.holds[e]))
    case SetDelegate(e, d) =>
      Books(b.holds[e := Some(d)], b.handed + multiset{d}, b.released + Releasing(b.holds[e]))
    case ResetDelegate(e) => b.(holds := b.holds[e := None], released := b.released + Releasing(b.holds[e]))
    case Destroy(e) => b.(holds := b.holds - {e}, released := b.released + Releasing(b.holds[e]))
  }

  ghost predicate Held<E, D>(b: Books<E, D>, d: D) {
    exists e :: e in b.holds && b.holds[e] == Some(d)
  }

  /** No two live entries hold the same delegate. */
  ghost predicate Exclusive<E, D>(b: Books<E, D>) {
    forall e, f :: e in b.holds && f in b.holds && e != f && b.holds[e].Some? ==> b.holds[e] != b.holds[f]
  }

  /** Every delegate has been released as often as it was handed out, not counting a current holder. */
  ghost predicate Balanced<E, D>(b: Books<E, D>) {
    (forall d :: d in b.handed + b.released ==> BalancedFor(b, d)) &&
    forall e :: e in b.holds && b.holds[e].Some? ==> b.holds[e].value in b.handed
  }

  ghost predicate BalancedFor<E, D>(b: Books<E, D>, d: D) {
    b.handed[d] == b.released[d] + if Held(b, d) then 1 else 0
  }

  lemma EffectKeepsExclusive<E, D>(b: Books<E, D>, m: Move<E, D>)
    requires Possible(b, m) && Disciplined(b, m) && Exclusive(b)
    ensures Exclusive(Effect(b, m))
  {
  }

  /** Who holds `d` after a move, in terms of who held it before. */
  lemma HeldAfter<E, D>(b: Books<E, D>, m: Move<E, D>, d: D)
    requires Possible(b, m) && Disciplined(b, m) && Exclusive(b)
    ensures var b' := Effect(b, m);
            b'.handed[d] + b.released[d] + (if Held(b, d) then 1 else 0) ==
            b.handed[d] + b'.released[d] + (if Held(b', d) then 1 else 0)
  {
    var b' := Effect(b, m);
    if Held(b, d) {
      var e :| e in b.holds && b.holds[e] == Some(d);
      var stays := !(m.e == e && (m.ResetDelegate? || m.Destroy? || (m.MoveAssign? && m.from != e) ||
                                  (m.SetDelegate? && m.d != d)));
      if stays {
        var e' := if (m.MoveConstruct? || m.MoveAssign?) && m.from == e then m.e else e;
        assert e' in b'.holds && b'.holds[e'] == Some(d);
      }
    } else if m.SetDelegate? && m.d == d {
      assert b'.holds[m.e] == Some(d);
    }
  }

  lemma EffectKeepsBalance<E, D>(b: Books<E, D>, m: Move<E, D>)
    requires Possible(b, m) && Disciplined(b, m) && Exclusive(b) && Balanced(b)
    ensures Exclusive(Effect(b, m)) && Balanced(Effect(b, m))
  {
    EffectKeepsExclusive(b, m);
    var b' := Effect(b, m);
    forall d | d in b'.handed + b'.released
      ensures BalancedFor(b', d)
    {
      assert BalancedFor(b, d);
      HeldAfter(b, m, d);
    }
  }

  // ----- Runs -----

  ghost predicate PossibleRun<E, D>(b: Books<E, D>, ms: seq<Move<E, D>>)
    decreases |ms|
  {
    |ms| == 0 || (Possible(b, ms[0]) && PossibleRun(Effect(b, ms[0]), ms[1..]))
  }

  ghost predicate DisciplinedRun<E, D>(b: Books<E, D>, ms: seq<Move<E, D>>)
    requires PossibleRun(b, ms)
    decreases |ms|
  {
    |ms| == 0 || (Disciplined(b, ms[0]) && DisciplinedRun(Effect(b, ms[0]), ms[1..]))
  }

  ghost function AfterRun<E, D>(b: Books<E, D>, ms: seq<Move<E, D>>): Books<E, D>
    requires PossibleRun(b, ms)
    decreases |ms|
  {
    if |ms| == 0 then b else AfterRun(Effect(b, ms[0]), ms[1..])
  }

  /** Over every disciplined run no two live entries share a delegate and the books balance; once all
      entries are destroyed every delegate has been released exactly as often as it was handed out. */
  lemma {:induction false} RunBalances<E, D>(b: Books<E, D>, ms: seq<Move<E, D>>)
    requires PossibleRun(b, ms) && DisciplinedRun(b, ms) && Exclusive(b) && Balanced(b)
    ensures Exclusive(AfterRun(b, ms)) && Balanced(AfterRun(b, ms))
    ensures AfterRun(b, ms).holds == map[] ==> AfterRun(b, ms).released == AfterRun(b, ms).handed
    decreases |ms|
  {
    if |ms| == 0 {
      if b.holds == map[] {
        forall d | d in b.handed + b.released
          ensures b.released[d] == b.handed[d]
        {
          assert BalancedFor(b, d) && !Held(b, d);
        }
      }
    } else {
      EffectKeepsBalance(b, ms[0]);
      RunBalances(Effect(b, ms[0]), ms[1..]);
    }
  }

  /** No delegate is handed out twice, nor one that was handed out before. */
  ghost predicate HandedOnce<E, D>(ms: seq<Move<E, D>>, before: multiset<D>)
    decreases |ms|
  {
    |ms| == 0 ||
    if ms[0].SetDelegate? then ms[0].d !in before && HandedOnce(ms[1..], before + multiset{ms[0].d})
    else HandedOnce(ms[1..], before)
  }

  /** Handing each delegate out at most once is discipline enough. */
  lemma {:induction false} HandedOnceIsDisciplined<E, D>(b: Books<E, D>, ms: seq<Move<E, D>>)
    requires PossibleRun(b, ms) && Exclusive(b) && Balanced(b)
    requires HandedOnce(ms, b.handed)
    ensures DisciplinedRun(b, ms)
    ensures forall d :: d in AfterRun(b, ms).handed ==>
            AfterRun(b, ms).handed[d] <= (if b.handed[d] > 1 then b.handed[d] else 1)
    decreases |ms|
  {
    if |ms| > 0 {
      if ms[0].SetDelegate? {
        assert ms[0].d !in b.handed;
      }
      EffectKeepsBalance(b, ms[0]);
      HandedOnceIsDisciplined(Effect(b, ms[0]), ms[1..]);
    }
  }

  /** From nothing: if each delegate is handed out at most once, then by the time all entries are
      destroyed each delegate handed out has been released exactly once, and no other. */
  lemma ReleasedExactlyOnce<E, D>(ms: seq<Move<E, D>>, d: D)
    requires PossibleRun(Books(map[], multiset{}, multiset{}), ms) && HandedOnce(ms, multiset{})
    ensures var b := AfterRun(Books(map[], multiset{}, multiset{}), ms);
            Exclusive(b) &&
            (b.holds == map[] ==> b.released[d] == if d in b.handed then 1 else 0)
  {
    var start: Books<E, D> := Books(map[], multiset{}, multiset{});
    HandedOnceIsDisciplined(start, ms);
    RunBalances(start, ms);
  }

  // ----- Who holds what -----

  /** The move names the entry, as the one it is made on or the one moved from. */
  ghost predicate Touches<E, D>(m: Move<E, D>, e: E) {
    m.e == e || ((m.MoveConstruct? || m.MoveAssign?) && m.from == e)
  }

  /** What the entries named hold after a move, what the move hands out, and what it releases: the delegate that
      is overwritten or whose entry is destroyed. Moving an entry to itself does nothing. */
  lemma MoveExactly<E, D>(b: Books<E, D>, m: Move<E, D>)
    requires Possible(b, m)
    ensures var b' := Effect(b, m);
            match m
            case Construct(e) =>
              e in b'.holds && b'.holds[e] == None && b'.handed == b.handed && b'.released == b.released
            case MoveConstruct(e, from) =>
              {e, from} <= b'.holds.Keys && b'.holds[e] == b.holds[from] && b'.holds[from] == None &&
              b'.handed == b.handed && b'.released == b.released
            case MoveAssign(e, from) =>
              if e == from then b' == b
              else
                {e, from} <= b'.holds.Keys && b'.holds[e] == b.holds[from] && b'.holds[from] == None &&
                b'.handed == b.handed && b'.released == b.released + Once(b.holds[e])
            case SetDelegate(e, d) =>
              e in b'.holds && b'.holds[e] == Some(d) &&
              b'.handed == b.handed + multiset{d} && b'.released == b.released + Once(b.holds[e])
            case ResetDelegate(e) =>
              e in b'.holds && b'.holds[e] == None &&
              b'.handed == b.handed && b'.released == b.released + Once(b.holds[e])
            case Destroy(e) =>
              e !in b'.holds && b'.handed == b.handed && b'.released == b.released + Once(b.holds[e])
    ensures forall x :: x in b.holds && !Touches(m, x) ==>
              x in Effect(b, m).holds && Effect(b, m).holds[x] == b.holds[x]
  {
  }

  /** One release of a delegate, and none of the default one. */
  ghost function Once<D>(held: Option<D>): multiset<D> {
    match held
    case None => multiset{}
    case Some(d) => multiset{d}
  }

  ghost predicate Untouched<E, D>(ms: seq<Move<E, D>>, e: E) {
    forall i :: 0 <= i < |ms| ==> !Touches(ms[i], e)
  }

  lemma {:induction false} UntouchedKeeps<E, D>(b: Books<E, D>, ms: seq<Move<E, D>>, e: E)
    requires PossibleRun(b, ms) && e in b.holds && Untouched(ms, e)
    ensures e in AfterRun(b, ms).holds && AfterRun(b, ms).holds[e] == b.holds[e]
    decreases |ms|
  {
    if |ms| > 0 {
      assert !Touches(ms[0], e);
      MoveExactly(b, ms[0]);
      UntouchedKeeps(Effect(b, ms[0]), ms[1..], e);
    }
  }

  /** Over runs, what an entry holds is decided by the last move that named it: the default delegate if it was
      constructed, reset or moved from, the delegate handed to it if one was, and otherwise what the entry moved
      from held. */
  lemma LastMoveDecides<E, D>(b: Books<E, D>, before: seq<Move<E, D>>, m: Move<E, D>, after: seq<Move<E, D>>, e: E)
    requires PossibleRun(b, before) && Possible(AfterRun(b, before), m)
    requires PossibleRun(Effect(AfterRun(b, before), m), after)
    requires Touches(m, e) && !m.Destroy? && !(m.MoveAssign? && m.e == m.from) && Untouched(after, e)
    ensures var end := AfterRun(Effect(AfterRun(b, before), m), after);
            e in end.holds && end.holds[e] ==
            if m.SetDelegate? then Some(m.d)
            else if (m.MoveConstruct? || m.MoveAssign?) && m.e == e then AfterRun(b, before).holds[m.from]
            else None
  {
    MoveExactly(AfterRun(b, before), m);
    UntouchedKeeps(Effect(AfterRun(b, before), m), after, e);
  }

  // ----- The objects -----

  class Delegate {
    var releases: nat

    constructor ()
      ensures releases == 0
    {
      releases := 0;
    }

    method Release()
      modifies this
      ensures releases == old(releases) + 1
    {
      releases := releases + 1;
    }
  }

  class Entry {
    /** `null` is the shared default delegate. */
    var delegate: Delegate?

    ghost function Holding(): Option<Delegate>
      reads this
    {
      if delegate == null then None else Some(delegate)
    }

    /** The books of a set of live entries, with nothing handed out or released yet. */
    static ghost function Ledger(live: set<Entry>): Books<Entry, Delegate>
      reads live
    {
      Books(map e | e in live :: e.Holding(), multiset{}, multiset{})
    }

    /** The live entries are now as the move says, and the delegates have been released as it says. */
    static twostate predicate Follows(live: set<Entry>, new m: Move<Entry, Delegate>, new after: set<Entry>,
                                      delegates: set<Delegate>)
      requires Possible(old(Ledger(live)), m)
      reads after, delegates
    {
      var b := Effect(old(Ledger(live)), m);
      b.holds.Keys == after &&
      (forall e :: e in after ==> e.Holding() == b.holds[e]) &&
      forall d :: d in delegates ==> d.releases == old(d.releases) + b.released[d]
    }

    constructor (ghost live: set<Entry>, ghost delegates: set<Delegate>)
      ensures this !in live && Follows(live, Move.Construct(this), live + {this}, delegates)
      ensures delegate == null
    {
      delegate := null;
    }

    /** Move construction takes the other entry's delegate and leaves it the default one. */
    constructor MoveFrom(other: Entry, ghost live: set<Entry>, ghost delegates: set<Delegate>)
      requires other in live
      modifies other
      ensures this !in live && Follows(live, Move.MoveConstruct(this, other), live + {this}, delegates)
      ensures delegate == old(other.delegate) && other.delegate == null
    {
      delegate := other.delegate;
      new;
      other.delegate := null;
    }

    method ReleaseDelegate()
      modifies delegate
      ensures delegate != null ==> delegate.releases == old(delegate.releases) + 1
    {
      if delegate != null {
        delegate.Release();
      }
    }

    method MoveAssign(other: Entry, ghost live: set<Entry>, ghost delegates: set<Delegate>)
      requires this in live && other in live
      modifies this, other, delegate
      ensures Follows(live, Move.MoveAssign(this, other), live, delegates)
      ensures this != other ==> delegate == old(other.delegate) && other.delegate == null
      ensures this != other && old(delegate) != null ==> old(delegate).releases == old(delegate.releases) + 1
      ensures this == other ==> delegate == old(delegate)
      ensures this == other && delegate != null ==> delegate.releases == old(delegate.releases)
    {
      if this != other {
        ReleaseDelegate();
        delegate := other.delegate;
        other.delegate := null;
      }
    }

    method SetDelegate(d: Delegate, ghost live: set<Entry>, ghost delegates: set<Delegate>)
      requires this in live
      modifies this, delegate
      ensures Follows(live, Move.SetDelegate(this, d), live, delegates)
      ensures delegate == d
      ensures old(delegate) != null ==> old(delegate).releases == old(delegate.releases) + 1
    {
      ReleaseDelegate();
      delegate := d;
    }

    method ResetDelegate(ghost live: set<Entry>, ghost delegates: set<Delegate>)
      requires this in live
      modifies this, delegate
      ensures Follows(live, Move.ResetDelegate(this), live, delegates)
      ensures delegate == null
      ensures old(delegate) != null ==> old(delegate).releases == old(delegate.releases) + 1
    {
      ReleaseDelegate();
      delegate := null;
    }

    /** The destructor: the entry is not live afterwards. */
    method Destroy(ghost live: set<Entry>, ghost delegates: set<Delegate>)
      requires this in live
      modifies delegate
      ensures Follows(live, Move.Destroy(this), live - {this}, delegates)
      ensures delegate != null ==> delegate.releases == old(delegate.releases) + 1
    {
      ReleaseDelegate();
    }
  }

  // ----- Runs on objects -----

  const NOTHING: Books<Entry, Delegate> := Books(map[], multiset{}, multiset{})

  /** The moves are possible from nothing, and lead to these books. */
  ghost predicate IsRun(ms: seq<Move<Entry, Delegate>>, b: Books<Entry, Delegate>) {
    PossibleRun(NOTHING, ms) && AfterRun(NOTHING, ms) == b
  }

  lemma {:induction false} RunMore<E, D>(b: Books<E, D>, ms: seq<Move<E, D>>, m: Move<E, D>)
    requires PossibleRun(b, ms) && Possible(AfterRun(b, ms), m)
    ensures PossibleRun(b, ms + [m]) && AfterRun(b, ms + [m]) == Effect(AfterRun(b, ms), m)
    decreases |ms|
  {
    if |ms| == 0 {
      assert (ms + [m])[1..] == [];
    } else {
      RunMore(Effect(b, ms[0]), ms[1..], m);
      assert (ms + [m])[1..] == ms[1..] + [m];
    }
  }

  /** Only these delegates are held. */
  ghost predicate HoldsAmong<E, D>(b: Books<E, D>, delegates: set<D>) {
    forall e :: e in b.holds && b.holds[e].Some? ==> b.holds[e].value in delegates
  }

  /** What a move does to who holds what, and what it releases, does not depend on what was released. */
  lemma EffectApart<E, D>(b: Books<E, D>, m: Move<E, D>)
    requires Possible(b, m)
    ensures var apart := Effect(Books(b.holds, multiset{}, multiset{}), m);
            Effect(b, m).holds == apart.holds && Effect(b, m).released == b.released + apart.released
  {
  }

  lemma EffectHoldsAmong<E, D>(b: Books<E, D>, m: Move<E, D>, delegates: set<D>)
    requires Possible(b, m) && HoldsAmong(b, delegates) && (m.SetDelegate? ==> m.d in delegates)
    ensures HoldsAmong(Effect(b, m), delegates)
  {
  }

  /** A program's live entries, and the moves it has made: any sequence of calls of these methods. */
  class Program {
    ghost var live: set<Entry>
    ghost var history: seq<Move<Entry, Delegate>>
    ghost var books: Books<Entry, Delegate>
    ghost const delegates: set<Delegate>

    /** The objects are as the books of the moves made say. */
    ghost predicate Valid()
      reads this, live, delegates
    {
      IsRun(history, books) && books.holds.Keys == live &&
      HoldsAmong(books, delegates) && (forall e :: e in live ==> e.Holding() == books.holds[e]) &&
      forall d :: d in delegates ==> d.releases == books.released[d]
    }

    constructor (ghost delegates: set<Delegate>)
      requires forall d :: d in delegates ==> d.releases == 0
      ensures Valid() && this.delegates == delegates && history == [] && live == {}
    {
      this.delegates, live, history, books := delegates, {}, [], NOTHING;
    }

    ghost method Record(m: Move<Entry, Delegate>, after: set<Entry>)
      requires IsRun(history, books) && Possible(books, m)
      modifies this
      ensures live == after && history == old(history) + [m] && books == Effect(old(books), m) && IsRun(history, books)
    {
      RunMore(NOTHING, history, m);
      live, history, books := after, history + [m], Effect(books, m);
    }

    method Construct() returns (e: Entry)
      requires Valid()
      modifies this, live, delegates
      ensures Valid() && history == old(history) + [Move.Construct(e)]
      ensures live == old(live) + {e} && fresh(e)
    {
      ghost var before := Books(books.holds, multiset{}, multiset{});
      assert Entry.Ledger(live) == before;
      e := new Entry(live, delegates);
      EffectApart(books, Move.Construct(e));
      EffectHoldsAmong(books, Move.Construct(e), delegates);
      Record(Move.Construct(e), live + {e});
    }

    method MoveConstruct(from: Entry) returns (e: Entry)
      requires Valid() && from in live
      modifies this, live, delegates
      ensures Valid() && history == old(history) + [Move.MoveConstruct(e, from)]
      ensures live == old(live) + {e} && fresh(e)
    {
      ghost var before := Books(books.holds, multiset{}, multiset{});
      assert Entry.Ledger(live) == before;
      e := new Entry.MoveFrom(from, live, delegates);
      EffectApart(books, Move.MoveConstruct(e, from));
      EffectHoldsAmong(books, Move.MoveConstruct(e, from), delegates);
      Record(Move.MoveConstruct(e, from), live + {e});
    }

    method MoveAssign(e: Entry, from: Entry)
      requires Valid() && e in live && from in live
      modifies this, live, delegates
      ensures Valid() && history == old(history) + [Move.MoveAssign(e, from)]
      ensures live == old(live)
    {
      ghost var before := Books(books.holds, multiset{}, multiset{});
      assert Entry.Ledger(live) == before;
      e.MoveAssign(from, live, delegates);
      EffectApart(books, Move.MoveAssign(e, from));
      EffectHoldsAmong(books, Move.MoveAssign(e, from), delegates);
      Record(Move.MoveAssign(e, from), live);
    }

    method SetDelegate(e: Entry, d: Delegate)
      requires Valid() && e in live && d in delegates
      modifies this, live, delegates
      ensures Valid() && history == old(history) + [Move.SetDelegate(e, d)]
      ensures live == old(live)
    {
      ghost var before := Books(books.holds, multiset{}, multiset{});
      assert Entry.Ledger(live) == before;
      e.SetDelegate(d, live, delegates);
      EffectApart(books, Move.SetDelegate(e, d));
      EffectHoldsAmong(books, Move.SetDelegate(e, d), delegates);
      Record(Move.SetDelegate(e, d), live);
    }

    method ResetDelegate(e: Entry)
      requires Valid() && e in live
      modifies this, live, delegates
      ensures Valid() && history == old(history) + [Move.ResetDelegate(e)]
      ensures live == old(live)
    {
      ghost var before := Books(books.holds, multiset{}, multiset{});
      assert Entry.Ledger(live) == before;
      e.ResetDelegate(live, delegates);
      EffectApart(books, Move.ResetDelegate(e));
      EffectHoldsAmong(books, Move.ResetDelegate(e), delegates);
      Record(Move.ResetDelegate(e), live);
    }

    method Destroy(e: Entry)
      requires Valid() && e in live
      modifies this, live, delegates
      ensures Valid() && history == old(history) + [Move.Destroy(e)]
      ensures live == old(live) - {e}
    {
      ghost var before := Books(books.holds, multiset{}, multiset{});
      assert Entry.Ledger(live) == before;
      e.Destroy(live, delegates);
      EffectApart(books, Move.Destroy(e));
      EffectHoldsAmong(books, Move.Destroy(e), delegates);
      Record(Move.Destroy(e), live - {e});
    }

    /** Whatever calls a program has made, if it handed out each delegate at most once, no two live entries
        hold the same delegate, and once all entries are destroyed each delegate that was handed out has been
        released exactly once, and no other. */
    lemma ObjectsReleaseExactlyOnce()
      requires Valid() && HandedOnce(history, multiset{})
      ensures forall e, f :: e in live && f in live && e != f && e.delegate != null ==> e.delegate != f.delegate
      ensures live == {} ==> forall d :: d in delegates ==> d.releases == if d in books.handed then 1 else 0
    {
      forall d
        ensures Exclusive(books) && (books.holds == map[] ==> books.released[d] == if d in books.handed then 1 else 0)
      {
        ReleasedExactlyOnce(history, d);
      }
      forall e, f | e in live && f in live && e != f && e.delegate != null
        ensures e.delegate != f.delegate
      {
        assert books.holds[e] != books.holds[f];
      }
    }
  }
}
