/**
 The custodian's fingerprint key, created on first use by any number of callers
 at once over one row: read, insert if absent, read again.
 */
module FingerprintKey {
  import opened Options

  type Bytes = seq<nat>

  datatype Outcome = Key(bytes: Bytes) | NotKeyLength | Vanished

  /** Where a caller is: about to read, about to insert, about to read again, or finished. */
  datatype Caller = Reading(random: Bytes) | Inserting(random: Bytes) | Rereading | Done(outcome: Outcome)

  datatype World = World(row: Option<Bytes>, callers: seq<Caller>, writes: nat)

  /** One scheduled step of one caller, or a deletion of the row from outside. */
  datatype Event = Act(caller: nat) | Remove

  function ToKey(bytes: Bytes): Outcome {
    if |bytes| == 32 then Key(bytes) else NotKeyLength
  }

  /** One atomic operation on the row. */
  function Act1(w: World, i: nat): World
    requires i < |w.callers|
  {
    match w.callers[i]
    case Reading(random) =>
      w.(callers := w.callers[i := if w.row.Some? then Done(ToKey(w.row.value)) else Inserting(random)])
    case Inserting(random) =>
      if w.row.None? then World(Some(random), w.callers[i := Done(Key(random))], w.writes + 1)
      else w.(callers := w.callers[i := Rereading])
    case Rereading =>
      w.(callers := w.callers[i := if w.row.Some? then Done(ToKey(w.row.value)) else Done(Vanished)])
    case Done(_) => w
  }

  function Step(w: World, e: Event): World {
    match e
    case Act(i) => if i < |w.callers| then Act1(w, i) else w
    case Remove => w.(row := None)
  }

  function Run(w: World, es: seq<Event>): World
    decreases es
  {
    if es == [] then w else Run(Step(w, es[0]), es[1..])
  }

  /** Callers that have not started, each with 32 random bytes of its own. */
  ghost predicate Start(w: World) {
    && w.writes == 0
    && forall i :: 0 <= i < |w.callers| ==> w.callers[i].Reading? && |w.callers[i].random| == 32
  }

  predicate NoRemove(es: seq<Event>) {
    forall i :: 0 <= i < |es| ==> es[i].Act?
  }

  /** What holds of a caller, given the row now and what it was at the start. */
  predicate CallerOk(row: Option<Bytes>, initial: Option<Bytes>, c: Caller) {
    match c
    case Reading(random) => |random| == 32
    case Inserting(random) => |random| == 32 && initial.None?
    case Rereading => row.Some? && initial.None?
    case Done(outcome) => row.Some? && outcome == ToKey(row.value)
  }

  ghost predicate Inv(w: World, initial: Option<Bytes>) {
    && (initial.Some? ==> w.row == initial && w.writes == 0)
    && (initial.None? ==> w.writes == (if w.row.Some? then 1 else 0) && (w.row.Some? ==> |w.row.value| == 32))
    && forall i :: 0 <= i < |w.callers| ==> CallerOk(w.row, initial, w.callers[i])
  }

  lemma ActKeepsInv(w: World, initial: Option<Bytes>, i: nat)
    requires Inv(w, initial) && i < |w.callers|
    ensures Inv(Act1(w, i), initial)
    ensures w.row.Some? ==> Act1(w, i).row == w.row
    ensures |Act1(w, i).callers| == |w.callers|
  {
    assert CallerOk(w.row, initial, w.callers[i]);
  }

  lemma {:induction false} RunKeepsInv(w: World, initial: Option<Bytes>, es: seq<Event>)
    requires Inv(w, initial) && NoRemove(es)
    ensures Inv(Run(w, es), initial)
    ensures w.row.Some? ==> Run(w, es).row == w.row
    decreases es
  {
    if es != [] {
      var next := Step(w, es[0]);
      match es[0] {
        case Act(i) => if i < |w.callers| { ActKeepsInv(w, initial, i); }
      }
      RunKeepsInv(next, initial, es[1..]);
    }
  }

  /**
   However first users interleave, the row is written at most once, every caller
   that finishes has the outcome the row gives, so all keys handed out are one key
   and it is the stored one, and no caller finds the row vanished. A caller fails
   only over a row that was there before and is not 32 bytes.
   */
  lemma FirstUsersConverge(w: World, es: seq<Event>, i: nat, j: nat)
    requires Start(w) && NoRemove(es) && i < |Run(w, es).callers| && j < |Run(w, es).callers|
    ensures Run(w, es).writes <= (if w.row.None? then 1 else 0)
    ensures var r := Run(w, es);
            && (r.callers[i].Done? ==> r.row.Some? && r.callers[i].outcome == ToKey(r.row.value))
            && (r.callers[i].Done? && r.callers[j].Done? ==> r.callers[i].outcome == r.callers[j].outcome)
            && (r.callers[i].Done? ==> r.callers[i].outcome != Vanished)
            && (r.callers[i].Done? && r.callers[i].outcome == NotKeyLength ==> w.row.Some? && |w.row.value| != 32)
  {
    RunKeepsInv(w, w.row, es);
    var r := Run(w, es);
    assert CallerOk(r.row, w.row, r.callers[i]) && CallerOk(r.row, w.row, r.callers[j]);
  }

  lemma {:induction false} RunSplits(w: World, a: seq<Event>, b: seq<Event>)
    ensures Run(w, a + b) == Run(Run(w, a), b)
    decreases a
  {
    if a == [] {
      assert a + b == b;
    } else {
      assert (a + b)[1..] == a[1..] + b;
      RunSplits(Step(w, a[0]), a[1..], b);
    }
  }

  /** A key once handed out is never overwritten: however the run goes on, the row stays that key. */
  lemma KeyIsFinal(w: World, es: seq<Event>, more: seq<Event>, i: nat)
    requires Start(w) && NoRemove(es) && NoRemove(more) && i < |Run(w, es).callers|
    requires Run(w, es).callers[i].Done? && Run(w, es).callers[i].outcome.Key?
    ensures Run(w, es + more).row == Some(Run(w, es).callers[i].outcome.bytes)
  {
    FirstUsersConverge(w, es, i, i);
    RunKeepsInv(w, w.row, es);
    RunKeepsInv(Run(w, es), w.row, more);
    RunSplits(w, es, more);
  }

  /** Every caller finishes within three steps of its own, whatever the others do. */
  function StepsLeft(c: Caller): nat {
    match c case Reading(_) => 3 case Inserting(_) => 2 case Rereading => 1 case Done(_) => 0
  }

  lemma ActProgresses(w: World, i: nat)
    requires i < |w.callers|
    ensures var r := Act1(w, i);
            && |r.callers| == |w.callers|
            && (StepsLeft(w.callers[i]) > 0 ==> StepsLeft(r.callers[i]) < StepsLeft(w.callers[i]))
            && forall j :: 0 <= j < |w.callers| && j != i ==> r.callers[j] == w.callers[j]
  {
  }

  /** Deleting the row between two first uses hands out two different keys. */
  lemma DeletionBreaksAgreement(a: Bytes, b: Bytes)
    requires |a| == 32 && |b| == 32 && a != b
    ensures var w := World(None, [Reading(a), Reading(b)], 0);
            var r := Run(w, [Act(0), Act(0), Remove, Act(1), Act(1)]);
            r.callers == [Done(Key(a)), Done(Key(b))] && r.writes == 2
  {
    var w0 := World(None, [Reading(a), Reading(b)], 0);
    var w1 := Step(w0, Act(0));
    assert w1 == World(None, [Inserting(a), Reading(b)], 0);
    var w2 := Step(w1, Act(0));
    assert w2 == World(Some(a), [Done(Key(a)), Reading(b)], 1);
    var w3 := Step(w2, Remove);
    var w4 := Step(w3, Act(1));
    assert w4 == World(None, [Done(Key(a)), Inserting(b)], 1);
    var w5 := Step(w4, Act(1));
    assert w5 == World(Some(b), [Done(Key(a)), Done(Key(b))], 2);
    var es := [Act(0), Act(0), Remove, Act(1), Act(1)];
    assert es[1..] == [Act(0), Remove, Act(1), Act(1)];
    assert es[1..][1..] == [Remove, Act(1), Act(1)];
    assert es[1..][1..][1..] == [Act(1), Act(1)];
    assert es[1..][1..][1..][1..] == [Act(1)];
    assert [Act(1)][1..] == [];
    assert Run(w4, [Act(1)]) == Run(w5, []) == w5;
    assert Run(w3, [Act(1), Act(1)]) == w5;
    assert Run(w2, [Remove, Act(1), Act(1)]) == w5;
    assert Run(w1, [Act(0), Remove, Act(1), Act(1)]) == w5;
  }
}
