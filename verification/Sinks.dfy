/** Where differences go, and what walking the items of one subtree tells. */
module Sinks {
  import opened Bytes
  import opened Tree
  import opened LeafOrder
  import opened SyncTree
  import D = Differing

  type Log = seq<D.Difference>
  type Bag = multiset<D.Difference>

  /** A list that ends the comparison when it is full, or a channel that takes or refuses the n-th value. */
  datatype Sink = Bounded(maxCount: int) | Channel(ready: nat -> bool)

  /** How a step ends: done, the sink takes no more, or a node could not be loaded. */
  datatype Verdict = Go | Full | Failed

  predicate Room(sink: Sink, out: Log) {
    sink.Bounded? && sink.maxCount > 0 ==> |out| < sink.maxCount
  }

  /** Why the sink takes no more. */
  predicate Stopped(sink: Sink, out: Log) {
    match sink
    case Bounded(maxCount) => maxCount > 0 && |out| == maxCount
    case Channel(ready) => !ready(|out|)
  }

  /** A channel got only what it was ready for. */
  ghost predicate Fed(sink: Sink, out: Log, out': Log) {
    sink.Channel? ==> forall i :: |out| <= i < |out'| ==> sink.ready(i)
  }

  /** The output grew by exactly the given differences, or by the first of them before the end. */
  ghost predicate Grown(sink: Sink, out: Log, out': Log, v: Verdict, ds: Log) {
    && out <= out' <= out + ds && Fed(sink, out, out')
    && match v
       case Go => out' == out + ds && Room(sink, out')
       case Full => Stopped(sink, out') && (sink.Channel? ==> out' != out + ds)
       case Failed => true
  }

  lemma {:induction false} GrownMore(sink: Sink, a: Log, b: Log, c: Log, v: Verdict, ds: Log, es: Log)
    requires Grown(sink, a, b, Go, ds) && Grown(sink, b, c, v, es)
    ensures Grown(sink, a, c, v, ds + es)
  {
    assert a + ds + es == a + (ds + es);
  }

  lemma {:induction false} GrownSome(sink: Sink, a: Log, b: Log, v: Verdict, ds: Log, es: Log)
    requires v != Go && Grown(sink, a, b, v, ds) && ds <= es
    ensures Grown(sink, a, b, v, es)
  {
    assert a + ds <= a + es;
  }

  lemma {:induction false} GrownNot(sink: Sink, out: Log)
    requires Room(sink, out)
    ensures Grown(sink, out, out, Go, [])
  {
    assert out + [] == out;
  }

  lemma {:induction false} RoomLeft(sink: Sink, a: Log, b: Log, ds: Log)
    requires Grown(sink, a, b, Go, ds)
    ensures Room(sink, b)
  {
  }

  lemma {:induction false} Failing(sink: Sink, a: Log, b: Log, ds: Log, es: Log)
    requires Grown(sink, a, b, Go, ds) && ds <= es
    ensures Grown(sink, a, b, Failed, es)
  {
    assert a + ds <= a + es;
  }

  method Deliver(sink: Sink, out: Log, x: D.Difference) returns (v: Verdict, out': Log)
    requires Room(sink, out)
    ensures Grown(sink, out, out', v, [x]) && v != Failed
  {
    var go;
    match sink {
      case Bounded(maxCount) =>
        out' := out + [x];
        go := !(maxCount > 0 && |out'| >= maxCount);
      case Channel(ready) =>
        go := ready(|out|);
        out' := if go then out + [x] else out;
    }
    v := if go then Go else Full;
  }

  // ---------- the items of one subtree against an empty branch or a single item ----------

  method WalkItem(it: Item, other: Option<Item>, isFirst: bool, matched: bool, sink: Sink, out: Log)
    returns (v: Verdict, matched': bool, out': Log)
    requires Room(sink, out) && (other.None? ==> matched) && (matched && other.Some? ==> it.key != other.value.key)
    ensures Grown(sink, out, out', v, D.ItemTold(it, other, isFirst)) && v != Failed
    ensures v == Go ==> (matched' <==> matched || it.key == other.value.key)
  {
    matched', v, out' := matched, Go, out;
    var isUnmatched := matched;
    if !isUnmatched && other.Some? {
      isUnmatched := it.key != other.value.key;
    }
    if isUnmatched {
      v, out' := Deliver(sink, out, D.Unmatched(it, isFirst));
    } else {
      if it.data != other.value.data {
        v, out' := Deliver(sink, out, D.Modified(it, other.value, isFirst));
      }
      matched' := true;
    }
  }

  /** The items from position n on have been dealt with. */
  ghost predicate WalkedFrom(items: seq<Item>, n: nat, other: Option<Item>, isFirst: bool, matched: bool,
                             sink: Sink, out: Log, out': Log) {
    && n <= |items|
    && Grown(sink, out, out', Go, D.ItemsTold(items[n..], other, isFirst))
    && (matched <==> other.None? || D.HasKey(items[n..], other.value.key))
  }

  lemma {:induction false} WalkedOne(items: seq<Item>, n: nat, other: Option<Item>, isFirst: bool, matched: bool, matched': bool,
                  sink: Sink, out: Log, mid: Log, out': Log, v: Verdict)
    requires 0 < n <= |items| && WalkedFrom(items, n, other, isFirst, matched, sink, out, mid)
    requires Grown(sink, mid, out', v, D.ItemTold(items[n - 1], other, isFirst))
    requires v == Go ==> (matched' <==> matched || items[n - 1].key == other.value.key)
    ensures v == Go ==> WalkedFrom(items, n - 1, other, isFirst, matched', sink, out, out')
    ensures v != Go ==> Grown(sink, out, out', v, D.ItemsTold(items[n - 1..], other, isFirst))
  {
    hide Grown;
    assert items[n - 1..] == [items[n - 1]] + items[n..];
    GrownMore(sink, out, mid, out', v, D.ItemsTold(items[n..], other, isFirst), D.ItemTold(items[n - 1], other, isFirst));
    if other.Some? { HasKeyFirst(items[n - 1], items[n..], other.value.key); }
  }

  lemma {:induction false} HasKeyFirst(it: Item, items: seq<Item>, k: Key)
    ensures D.HasKey([it] + items, k) <==> it.key == k || D.HasKey(items, k)
  {
    var all := [it] + items;
    if it.key == k { assert all[0].key == k; }
    if i :| 0 <= i < |items| && items[i].key == k { assert all[i + 1].key == k; }
  }

  lemma {:induction false} WalkStart(items: seq<Item>, other: Option<Item>, isFirst: bool, sink: Sink, out: Log)
    requires Room(sink, out)
    ensures WalkedFrom(items, |items|, other, isFirst, other.None?, sink, out, out)
  {
  }

  lemma {:induction false} WalkTail(items: seq<Item>, n: nat, other: Option<Item>, isFirst: bool)
    requires n <= |items|
    ensures D.ItemsTold(items[n..], other, isFirst) <= D.WalkTold(items, other, isFirst)
  {
    if n == 0 {
      assert items[0..] == items;
    } else {
      WalkTail(items, n - 1, other, isFirst);
      assert items[n - 1..][1..] == items[n..];
    }
  }

  lemma {:induction false} NotAgain(items: seq<Item>, n: nat, other: Option<Item>, isFirst: bool, matched: bool, sink: Sink, out: Log, out': Log)
    requires D.UniqueKeys(items) && 0 < n <= |items| && WalkedFrom(items, n, other, isFirst, matched, sink, out, out')
    ensures matched && other.Some? ==> items[n - 1].key != other.value.key
    ensures Room(sink, out') && (other.None? ==> matched)
  {
  }

  /** The other item, if it was not met. */
  method WalkEnd(ghost items: seq<Item>, ghost n: nat, other: Option<Item>, isFirst: bool, matched: bool,
                 sink: Sink, ghost out: Log, mid: Log) returns (v: Verdict, out': Log)
    requires n <= |items| && items[..n] == LeavesOf([]) && WalkedFrom(items, n, other, isFirst, matched, sink, out, mid)
    ensures Grown(sink, out, out', v, D.WalkTold(items, other, isFirst)) && v != Failed
  {
    hide D.ItemsTold;
    assert n == 0 && items[0..] == items by { EmptySums(); }
    v, out' := Go, mid;
    if !matched && other.Some? {
      v, out' := Deliver(sink, mid, D.Unmatched(other.value, !isFirst));
      GrownMore(sink, out, mid, out', v, D.ItemsTold(items, other, isFirst), [D.Unmatched(other.value, !isFirst)]);
    }
  }

  lemma {:induction false} EmptySums()
    ensures LeavesOf([]) == [] && LoadedOf([]) == 0
  {
  }

  lemma {:induction false} NilSums()
    ensures Leaves(Nil) == [] && Loaded(Nil) == 0
  {
  }
}
