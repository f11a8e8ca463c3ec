/** The message store as a list in writing order, and what replaying it from a timestamp yields. */
module Replay {
  import opened MessageKeys

  datatype Message = Message(at: int, data: seq<bv8>)

  /** One writer with strictly increasing timestamps, all of them inside the range the end key covers. */
  ghost predicate Chronological(store: seq<Message>) {
    && (forall i :: 0 <= i < |store| ==> 1 <= store[i].at <= MAX_AT)
    && (forall i, j :: 0 <= i < j < |store| ==> store[i].at < store[j].at)
  }

  /** The messages stamped start or later. */
  function From(store: seq<Message>, start: int): seq<Message> {
    if store == [] then []
    else
      var last := store[|store|-1];
      From(store[..|store|-1], start) + (if last.at >= start then [last] else [])
  }

  /** What the store's iterator yields from start to the open end: the messages whose keys lie in the range. */
  function RFIterate(store: seq<Message>, start: nat): seq<Message>
    requires forall i :: 0 <= i < |store| ==> store[i].at >= 0
  {
    if store == [] then []
    else
      var last := store[|store|-1];
      var key := GenRFKey(last.at);
      RFIterate(store[..|store|-1], start) +
      (if !KeyLess(key, GenRFKey(start)) && KeyLess(key, GenRFKey(MAX_INT64)) then [last] else [])
  }

  /** Iterating keys is selecting timestamps. */
  lemma {:induction false} IterateIsFrom(store: seq<Message>, start: nat)
    requires Chronological(store) && start <= MAX_AT + 1
    ensures RFIterate(store, start) == From(store, start)
  {
    if store == [] {
    } else {
      hide GenRFKey, KeyLess, Pow10;
      var last := store[|store|-1];
      IterateIsFrom(store[..|store|-1], start);
      Powers();
      KeyOrder(last.at, start);
      EndKeyCovers(last.at);
    }
  }

  // ----- Selecting from a chronological store -----

  lemma {:induction false} FromAppend(a: seq<Message>, b: seq<Message>, start: int)
    ensures From(a + b, start) == From(a, start) + From(b, start)
  {
    if b == [] {
      assert a + b == a;
    } else {
      var c := b[..|b|-1];
      assert (a + b)[..|a + b|-1] == a + c;
      FromAppend(a, c, start);
    }
  }

  lemma {:induction false} FromSplit(store: seq<Message>, n: nat, start: int)
    requires n <= |store|
    ensures From(store, start) == From(store[..n], start) + From(store[n..], start)
  {
    assert store == store[..n] + store[n..];
    FromAppend(store[..n], store[n..], start);
  }

  lemma {:induction false} FromAll(a: seq<Message>, start: int)
    requires forall i :: 0 <= i < |a| ==> a[i].at >= start
    ensures From(a, start) == a
  {
    if a == [] {
    } else {
      FromAll(a[..|a|-1], start);
      assert a == a[..|a|-1] + [a[|a|-1]];
    }
  }

  lemma {:induction false} FromNone(a: seq<Message>, start: int)
    requires forall i :: 0 <= i < |a| ==> a[i].at < start
    ensures From(a, start) == []
  {
    if a == [] {
    } else {
      FromNone(a[..|a|-1], start);
    }
  }

  lemma {:induction false} FromMembers(a: seq<Message>, start: int)
    ensures forall m :: m in From(a, start) <==> m in a && m.at >= start
    ensures |From(a, start)| <= |a|
    ensures |From(a, start)| == |a| ==> forall i :: 0 <= i < |a| ==> a[i].at >= start
  {
    if a == [] {
    } else {
      var last := a[|a|-1];
      FromMembers(a[..|a|-1], start);
      assert a == a[..|a|-1] + [last];
      forall m ensures m in From(a, start) <==> m in a && m.at >= start {
        assert m in a <==> m in a[..|a|-1] || m == last;
      }
    }
  }

  /** If anything is selected, the newest message is, and it is selected last. */
  lemma {:induction false} FromLast(store: seq<Message>, start: int)
    requires Chronological(store) && From(store, start) != []
    ensures store != [] && store[|store|-1].at >= start
    ensures From(store, start)[|From(store, start)|-1] == store[|store|-1]
  {
    FromMembers(store, start);
    var m := From(store, start)[0];
    assert m in store;
  }

  /** Selecting past message n-1 leaves exactly the messages after it. */
  lemma {:induction false} FromAfter(store: seq<Message>, n: nat)
    requires Chronological(store) && 0 < n <= |store|
    ensures From(store, store[n-1].at + 1) == store[n..]
  {
    var start := store[n-1].at + 1;
    FromSplit(store, n, start);
    FromNone(store[..n], start);
    FromAll(store[n..], start);
  }

  /** Nothing is selected past the newest message. */
  lemma {:induction false} NoneFrom(store: seq<Message>, start: int)
    requires Chronological(store) && (store != [] ==> store[|store|-1].at < start)
    ensures From(store, start) == [] && forall i :: 0 <= i < |store| ==> store[i].at < start
  {
    hide From;
    FromNone(store, start);
  }

  /** From a chronological store a suffix is selected. */
  lemma {:induction false} FromIsSuffix(store: seq<Message>, start: int) returns (k: nat)
    requires Chronological(store)
    ensures k <= |store| && From(store, start) == store[k..]
    ensures forall i :: 0 <= i < k ==> store[i].at < start
    ensures forall i :: k <= i < |store| ==> store[i].at >= start
  {
    var n := |store| - 1;
    if n >= 0 && store[n].at >= start {
      k := FromIsSuffix(store[..n], start);
      assert store[..n][k..] + [store[n]] == store[k..];
      assert forall i :: k <= i < n ==> store[..n][i] == store[i];
    } else {
      k := |store|;
      NoneFrom(store, start);
    }
  }

  lemma {:induction false} FromChronological(store: seq<Message>, start: int)
    requires Chronological(store)
    ensures Chronological(From(store, start))
  {
    var k := FromIsSuffix(store, start);
  }
}
