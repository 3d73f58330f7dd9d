/**
 A model of the counter widget's change log. The widget keeps no counter
 variable: it keeps an immutable, newest-first list of change records, seeded
 with one record that carries the initial count, and each button click
 prepends a record worth +1 or -1. The displayed counter is the left fold of
 the record values from 0.

 Record identifiers are random numbers in the widget; here they are opaque
 values handed in by the caller, and nothing is assumed about their
 uniqueness.
 */
module ChangeLog {
  import Primality

  /** The identifier of a change record (a random number in the widget). */
  type Id = real

  /** One entry of the change log. */
  datatype Change = Change(id: Id, value: int)

  /** The change log, newest record first. */
  type History = seq<Change>

  /** The widget's state: the initial count it was mounted with, taken to
      stay fixed for the widget's life (a new count remounts the widget), and
      the change log. */
  datatype Counter = Counter(initialCount: int, changes: History)

  /** One click of the widget's buttons. */
  datatype Click = Inc(id: Id) | Dec(id: Id)

  // ---------------------------------------------------------------------
  // Totals
  // ---------------------------------------------------------------------

  /** The sum of the record values, taken head first; the reference that the
      widget's fold is measured against. */
  function Sum(h: History): int {
    if h == [] then 0 else h[0].value + Sum(h[1..])
  }

  /** Summing a log split in two is summing the halves. */
  lemma {:induction false} SumAppend(a: History, b: History)
    ensures Sum(a + b) == Sum(a) + Sum(b)
  {
    if a == [] {
      assert a + b == b;
    } else {
      assert (a + b)[0] == a[0];
      assert (a + b)[1..] == a[1..] + b;
      SumAppend(a[1..], b);
    }
  }

  /** The reducer step of the widget: the running total plus one record's
      value, folded from the newest record to the oldest. The result is the
      starting value plus every record's value. */
  function Reduce(acc: int, h: History): (r: int)
    ensures r == acc + Sum(h)
    decreases |h|
  {
    if h == [] then acc else Reduce(acc + h[0].value, h[1..])
  }

  /** The displayed counter: the log folded from 0. */
  function Total(h: History): (r: int)
    ensures r == Sum(h)
  {
    Reduce(0, h)
  }

  /** The number of records in `h` whose value is `v`. */
  function Count(h: History, v: int): nat {
    if h == [] then 0 else (if h[0].value == v then 1 else 0) + Count(h[1..], v)
  }

  /** A value a click can record. */
  predicate IsStep(v: int) {
    v == 1 || v == -1
  }

  /** A log made only of +1 and -1 records sums to the number of +1 records
      minus the number of -1 records. */
  lemma {:induction false} StepSum(h: History)
    requires forall i :: 0 <= i < |h| ==> IsStep(h[i].value)
    ensures Sum(h) == Count(h, 1) - Count(h, -1)
  {
    if h != [] {
      assert IsStep(h[0].value);
      StepSum(h[1..]);
    }
  }

  // ---------------------------------------------------------------------
  // The widget's state and its operations
  // ---------------------------------------------------------------------

  /** The seed record is the oldest one. */
  function Seed(c: Counter): Change
    requires c.changes != []
  {
    c.changes[|c.changes| - 1]
  }

  /** The records added by clicks: everything newer than the seed. */
  function Steps(c: Counter): History
    requires c.changes != []
  {
    c.changes[..|c.changes| - 1]
  }

  /** The shape every reachable state has: the oldest record carries the
      initial count and every newer record is +1 or -1. */
  predicate Valid(c: Counter) {
    && c.changes != []
    && Seed(c).value == c.initialCount
    && forall i :: 0 <= i < |c.changes| - 1 ==> IsStep(c.changes[i].value)
  }

  /** The displayed counter of a widget state. */
  function Current(c: Counter): int {
    Total(c.changes)
  }

  /** The state of a freshly mounted widget: one seed record holding the
      initial count, so the display starts at the initial count. */
  function Mount(initialCount: int, id: Id): (c: Counter)
    ensures c.initialCount == initialCount
    ensures |c.changes| == 1 && c.changes[0] == Change(id, initialCount)
    ensures Valid(c)
    ensures Current(c) == initialCount
  {
    Counter(initialCount, [Change(id, initialCount)])
  }

  /** Prepending click records keeps the state's shape. */
  lemma PrependStepsKeepValid(c: Counter, p: History)
    requires forall i :: 0 <= i < |p| ==> IsStep(p[i].value)
    ensures Valid(c) ==> Valid(Counter(c.initialCount, p + c.changes))
  {
  }

  /** The decrement handler: a -1 record goes in front; the older records,
      the initial count and the seed are untouched, and the display drops by
      exactly one, with no lower bound. */
  function Decrement(c: Counter, id: Id): (c': Counter)
    ensures c'.initialCount == c.initialCount
    ensures |c'.changes| == |c.changes| + 1
    ensures c'.changes[0] == Change(id, -1) && c'.changes[1..] == c.changes
    ensures Valid(c) ==> Valid(c')
    ensures Current(c') == Current(c) - 1
  {
    var r := Change(id, -1);
    PrependStepsKeepValid(c, [r]);
    assert Sum([r] + c.changes) == -1 + Sum(c.changes);
    Counter(c.initialCount, [r] + c.changes)
  }

  /** The increment handler: a +1 record goes in front; the older records,
      the initial count and the seed are untouched, and the display rises by
      exactly one. */
  function Increment(c: Counter, id: Id): (c': Counter)
    ensures c'.initialCount == c.initialCount
    ensures |c'.changes| == |c.changes| + 1
    ensures c'.changes[0] == Change(id, 1) && c'.changes[1..] == c.changes
    ensures Valid(c) ==> Valid(c')
    ensures Current(c') == Current(c) + 1
  {
    var r := Change(id, 1);
    PrependStepsKeepValid(c, [r]);
    assert Sum([r] + c.changes) == 1 + Sum(c.changes);
    Counter(c.initialCount, [r] + c.changes)
  }

  /** In every reachable state the display is the initial count plus the
      number of +1 records minus the number of -1 records. */
  lemma ValidCurrent(c: Counter)
    requires Valid(c)
    ensures Current(c) == c.initialCount + Count(Steps(c), 1) - Count(Steps(c), -1)
  {
    assert c.changes == Steps(c) + [Seed(c)];
    SumAppend(Steps(c), [Seed(c)]);
    StepSum(Steps(c));
  }

  /** The memoised primality flag of the widget, computed from the initial
      count alone; since no operation changes the initial count, the flag is
      the same for every state of one widget. */
  method InitialCountIsPrime(c: Counter) returns (b: bool)
    ensures b <==> Primality.IsPrimeSpec(c.initialCount)
  {
    b := Primality.IsPrime(c.initialCount);
  }

  // ---------------------------------------------------------------------
  // Sessions: a mounted widget followed by a run of clicks
  // ---------------------------------------------------------------------

  /** The handler a click runs. */
  function Apply(c: Counter, k: Click): Counter {
    match k
    case Inc(id) => Increment(c, id)
    case Dec(id) => Decrement(c, id)
  }

  /** The record a click leaves in the log. */
  function Record(k: Click): Change {
    match k
    case Inc(id) => Change(id, 1)
    case Dec(id) => Change(id, -1)
  }

  /** Runs the clicks in order, the first one first. */
  function Replay(c: Counter, ks: seq<Click>): Counter
    decreases |ks|
  {
    if ks == [] then c else Replay(Apply(c, ks[0]), ks[1..])
  }

  /** The number of increment clicks. */
  function Incs(ks: seq<Click>): nat {
    if ks == [] then 0 else (if ks[0].Inc? then 1 else 0) + Incs(ks[1..])
  }

  /** The number of decrement clicks. */
  function Decs(ks: seq<Click>): nat {
    if ks == [] then 0 else (if ks[0].Dec? then 1 else 0) + Decs(ks[1..])
  }

  /** The records a run of clicks leaves, newest (last click) first. */
  function NewestFirst(ks: seq<Click>): History {
    if ks == [] then [] else NewestFirst(ks[1..]) + [Record(ks[0])]
  }

  /** Running clicks from any state prepends their records, newest first, to
      the old log, and keeps the initial count. */
  lemma {:induction false} ReplayLog(c: Counter, ks: seq<Click>)
    ensures Replay(c, ks) == Counter(c.initialCount, NewestFirst(ks) + c.changes)
    decreases |ks|
  {
    if ks == [] {
      assert NewestFirst(ks) + c.changes == c.changes;
    } else {
      var c1 := Apply(c, ks[0]);
      assert c1 == Counter(c.initialCount, [Record(ks[0])] + c.changes);
      ReplayLog(c1, ks[1..]);
      assert NewestFirst(ks[1..]) + ([Record(ks[0])] + c.changes)
          == NewestFirst(ks) + c.changes;
    }
  }

  /** The record at position `j` of the new records is the one left by the
      `j`-th click counted back from the last. */
  lemma {:induction false} NewestFirstContents(ks: seq<Click>)
    ensures |NewestFirst(ks)| == |ks|
    ensures forall j :: 0 <= j < |ks| ==> NewestFirst(ks)[j] == Record(ks[|ks| - 1 - j])
  {
    if ks != [] {
      NewestFirstContents(ks[1..]);
      forall j | 0 <= j < |ks|
        ensures NewestFirst(ks)[j] == Record(ks[|ks| - 1 - j])
      {
        if j < |ks| - 1 {
          assert ks[1..][|ks| - 2 - j] == ks[|ks| - 1 - j];
        }
      }
    }
  }

  /** The records of a run of clicks sum to increments minus decrements. */
  lemma {:induction false} NewestFirstSum(ks: seq<Click>)
    ensures Sum(NewestFirst(ks)) == Incs(ks) - Decs(ks)
  {
    if ks != [] {
      NewestFirstSum(ks[1..]);
      SumAppend(NewestFirst(ks[1..]), [Record(ks[0])]);
    }
  }

  /** What a run of clicks does to any state: the initial count stays, one
      record per click goes in front, newest click first, the old log survives
      unchanged as the suffix, the shape is kept, and the display moves by the
      net number of increments. */
  lemma ReplayEffect(c: Counter, ks: seq<Click>)
    ensures Replay(c, ks).initialCount == c.initialCount
    ensures |Replay(c, ks).changes| == |c.changes| + |ks|
    ensures Replay(c, ks).changes[|ks|..] == c.changes
    ensures forall j :: 0 <= j < |ks| ==> Replay(c, ks).changes[j] == Record(ks[|ks| - 1 - j])
    ensures Valid(c) ==> Valid(Replay(c, ks))
    ensures Current(Replay(c, ks)) == Current(c) + Incs(ks) - Decs(ks)
  {
    ReplayLog(c, ks);
    NewestFirstContents(ks);
    var p := NewestFirst(ks);
    assert (p + c.changes)[|ks|..] == c.changes;
    forall i | 0 <= i < |p|
      ensures IsStep(p[i].value)
    {
      assert p[i] == Record(ks[|ks| - 1 - i]);
    }
    PrependStepsKeepValid(c, p);
    NewestFirstSum(ks);
    SumAppend(p, c.changes);
  }

  /** A session from mount: after `k` clicks the log holds `k + 1` records,
      the seed is still the oldest, and the display is the initial count plus
      increments minus decrements, in whatever order they came. */
  lemma Session(initialCount: int, seedId: Id, ks: seq<Click>)
    ensures |Replay(Mount(initialCount, seedId), ks).changes| == |ks| + 1
    ensures Replay(Mount(initialCount, seedId), ks).changes[|ks|] == Change(seedId, initialCount)
    ensures Valid(Replay(Mount(initialCount, seedId), ks))
    ensures Current(Replay(Mount(initialCount, seedId), ks)) == initialCount + Incs(ks) - Decs(ks)
  {
    var c := Mount(initialCount, seedId);
    ReplayEffect(c, ks);
    assert Replay(c, ks).changes[|ks|..] == c.changes;
  }

  /** The order of the clicks does not matter to the display or to the log's
      length: two sessions with the same numbers of increments and decrements
      show the same counter and keep logs of the same length. */
  lemma OrderIrrelevant(initialCount: int, seedId: Id, ks1: seq<Click>, ks2: seq<Click>)
    requires Incs(ks1) == Incs(ks2) && Decs(ks1) == Decs(ks2)
    ensures Current(Replay(Mount(initialCount, seedId), ks1))
         == Current(Replay(Mount(initialCount, seedId), ks2))
    ensures |Replay(Mount(initialCount, seedId), ks1).changes|
         == |Replay(Mount(initialCount, seedId), ks2).changes|
  {
    Session(initialCount, seedId, ks1);
    Session(initialCount, seedId, ks2);
    ClicksAreIncsOrDecs(ks1);
    ClicksAreIncsOrDecs(ks2);
  }

  /** Every click is one of the two kinds. */
  lemma {:induction false} ClicksAreIncsOrDecs(ks: seq<Click>)
    ensures Incs(ks) + Decs(ks) == |ks|
  {
    if ks != [] {
      ClicksAreIncsOrDecs(ks[1..]);
    }
  }

  /** Seed 0, one increment, one decrement: the display is back at 0 and the
      log holds three records. */
  lemma ScenarioUpAndDown(a: Id, b: Id, c: Id)
    ensures Current(Replay(Mount(0, a), [Inc(b), Dec(c)])) == 0
    ensures |Replay(Mount(0, a), [Inc(b), Dec(c)]).changes| == 3
  {
    var ks := [Inc(b), Dec(c)];
    assert ks[1..] == [Dec(c)] && ks[1..][1..] == [];
    assert Incs(ks[1..]) == 0 && Decs(ks[1..]) == 1;
    Session(0, a, ks);
  }

  /** Seed 5, three increments: the display shows 8 and the log holds four
      records. */
  lemma ScenarioThreeUp(a: Id, b: Id, c: Id, d: Id)
    ensures Current(Replay(Mount(5, a), [Inc(b), Inc(c), Inc(d)])) == 8
    ensures |Replay(Mount(5, a), [Inc(b), Inc(c), Inc(d)]).changes| == 4
  {
    var ks := [Inc(b), Inc(c), Inc(d)];
    assert ks[1..] == [Inc(c), Inc(d)] && ks[1..][1..] == [Inc(d)] && ks[1..][1..][1..] == [];
    assert Incs(ks[1..][1..]) == 1 && Decs(ks[1..][1..]) == 0;
    Session(5, a, ks);
  }

  /** Decrementing has no floor: from a seed of 0 one click shows -1. */
  lemma DecrementBelowZero(a: Id, b: Id)
    ensures Current(Decrement(Mount(0, a), b)) == -1
  {
  }
}
