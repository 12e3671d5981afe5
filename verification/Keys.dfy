/** Keys as byte strings in lexicographic order, and lists of key-value pairs in key order. */
module Keys {
  import opened Bytes

  type Key = seq<byte>
  type Value = seq<byte>
  type Item = (Key, Value)

  predicate Less(a: Key, b: Key) {
    b != [] && (a == [] || a[0] < b[0] || (a[0] == b[0] && Less(a[1..], b[1..])))
  }

  /** The two agree on their first n bytes, and there `a` ends or has the lower byte. */
  predicate LessAt(a: Key, b: Key, n: nat) {
    n <= |a| && n < |b| && a[..n] == b[..n] && (n < |a| ==> a[n] < b[n])
  }

  /** That is the lexicographic order. */
  lemma {:induction false} LessIsLexicographic(a: Key, b: Key)
    ensures Less(a, b) <==> exists n: nat :: LessAt(a, b, n)
  {
    if b != [] && a != [] && a[0] == b[0] {
      LessIsLexicographic(a[1..], b[1..]);
      forall n: nat | n > 0 ensures LessAt(a, b, n) <==> LessAt(a[1..], b[1..], n - 1) {
        LessAtBehindFirst(a, b, n);
      }
      if Less(a, b) {
        var n: nat :| LessAt(a[1..], b[1..], n);
        assert LessAt(a, b, n + 1);
      }
    } else {
      assert Less(a, b) ==> LessAt(a, b, 0);
      forall n: nat | LessAt(a, b, n) ensures n == 0 {
        FirstAgrees(a, b, n);
      }
    }
  }

  lemma FirstAgrees(a: Key, b: Key, n: nat)
    requires LessAt(a, b, n)
    ensures n > 0 ==> a[0] == b[0]
  {
    if n > 0 { assert a[..n][0] == b[..n][0]; }
  }

  lemma LessAtBehindFirst(a: Key, b: Key, n: nat)
    requires a != [] && b != [] && a[0] == b[0] && n > 0
    ensures LessAt(a, b, n) <==> LessAt(a[1..], b[1..], n - 1)
  {
    if n <= |a| && n <= |b| {
      assert a[..n] == [a[0]] + a[1..][..n - 1] && b[..n] == [b[0]] + b[1..][..n - 1];
      assert a[..n][1..] == a[1..][..n - 1] && b[..n][1..] == b[1..][..n - 1];
    }
  }

  lemma {:induction false} LessIrreflexive(a: Key)
    ensures !Less(a, a)
  {
    if a != [] { LessIrreflexive(a[1..]); }
  }

  lemma {:induction false} LessTransitive(a: Key, b: Key, c: Key)
    requires Less(a, b) && Less(b, c)
    ensures Less(a, c)
  {
    if a != [] && a[0] == b[0] == c[0] { LessTransitive(a[1..], b[1..], c[1..]); }
  }

  lemma {:induction false} LessTotal(a: Key, b: Key)
    ensures Less(a, b) || a == b || Less(b, a)
  {
    if a != [] && b != [] && a[0] == b[0] {
      LessTotal(a[1..], b[1..]);
      assert a == [a[0]] + a[1..] && b == [b[0]] + b[1..];
    }
  }

  /** Strictly increasing keys, so no key twice. */
  ghost predicate Increasing(items: seq<Item>) {
    forall i, j :: 0 <= i < j < |items| ==> Less(items[i].0, items[j].0)
  }

  ghost function KeySet(items: seq<Item>): set<Key> {
    set i | 0 <= i < |items| :: items[i].0
  }

  lemma IncreasingConcat(a: seq<Item>, b: seq<Item>)
    requires Increasing(a) && Increasing(b)
    requires a != [] ==> forall j :: 0 <= j < |b| ==> Less(a[|a| - 1].0, b[j].0)
    ensures Increasing(a + b)
  {
    forall i, j | 0 <= i < j < |a + b| ensures Less((a + b)[i].0, (a + b)[j].0) {
      if i < |a| <= j && i < |a| - 1 {
        LessTransitive(a[i].0, a[|a| - 1].0, b[j - |a|].0);
      }
    }
  }

  lemma KeySetConcat(a: seq<Item>, b: seq<Item>)
    ensures KeySet(a + b) == KeySet(a) + KeySet(b)
  {
    forall k | k in KeySet(a) + KeySet(b) ensures k in KeySet(a + b) {
      if k in KeySet(a) {
        var i :| 0 <= i < |a| && a[i].0 == k;
        assert (a + b)[i].0 == k;
      } else {
        var i :| 0 <= i < |b| && b[i].0 == k;
        assert (a + b)[|a| + i].0 == k;
      }
    }
  }

  lemma {:induction false} IncreasingHasDistinctKeys(items: seq<Item>)
    requires Increasing(items)
    ensures |KeySet(items)| == |items|
  {
    if items != [] {
      var n := |items| - 1;
      IncreasingHasDistinctKeys(items[..n]);
      assert items == items[..n] + [items[n]];
      KeySetConcat(items[..n], [items[n]]);
      assert KeySet([items[n]]) == {items[n].0} by { assert [items[n]][0].0 == items[n].0; }
      LessIrreflexive(items[n].0);
    }
  }

  /** A list in key order is determined by which keys it has and what they map to. */
  lemma {:induction false} IncreasingIsUnique(a: seq<Item>, b: seq<Item>, store: map<Key, Value>)
    requires Increasing(a) && Increasing(b) && KeySet(a) == KeySet(b)
    requires forall i :: 0 <= i < |a| ==> a[i].0 in store && a[i].1 == store[a[i].0]
    requires forall i :: 0 <= i < |b| ==> b[i].0 in store && b[i].1 == store[b[i].0]
    ensures a == b
  {
    IncreasingHasDistinctKeys(a);
    IncreasingHasDistinctKeys(b);
    if a != [] {
      var n := |a| - 1;
      LastKeysAgree(a, b);
      assert a == a[..n] + [a[n]] && b == b[..n] + [b[n]];
      KeySetWithoutLast(a);
      KeySetWithoutLast(b);
      IncreasingIsUnique(a[..n], b[..n], store);
    }
  }

  lemma LastKeysAgree(a: seq<Item>, b: seq<Item>)
    requires Increasing(a) && Increasing(b) && KeySet(a) == KeySet(b) && |a| == |b| > 0
    ensures a[|a| - 1].0 == b[|b| - 1].0
  {
    var x, y := a[|a| - 1].0, b[|b| - 1].0;
    assert x in KeySet(a) && y in KeySet(b);
    var i :| 0 <= i < |b| && b[i].0 == x;
    var j :| 0 <= j < |a| && a[j].0 == y;
    if x != y {
      LessTransitive(x, y, x);
      LessIrreflexive(x);
    }
  }

  lemma KeySetWithoutLast(a: seq<Item>)
    requires Increasing(a) && a != []
    ensures KeySet(a[..|a| - 1]) == KeySet(a) - {a[|a| - 1].0}
  {
    var n := |a| - 1;
    assert a == a[..n] + [a[n]];
    KeySetConcat(a[..n], [a[n]]);
    assert KeySet([a[n]]) == {a[n].0} by { assert [a[n]][0].0 == a[n].0; }
    LessIrreflexive(a[n].0);
  }
}
