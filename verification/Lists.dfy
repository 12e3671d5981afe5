/** Ascending lists of numbers, and the pointwise order between two of them. */
module Lists {

  datatype Option<+T> = None | Some(value: T)

  lemma Associative<T>(a: seq<T>, b: seq<T>, c: seq<T>)
    ensures a + (b + c) == (a + b) + c
  {
  }

  ghost predicate Ascending(f: seq<nat>) {
    forall i, j :: 0 <= i < j < |f| ==> f[i] < f[j]
  }

  /** `low` is at least as long as `high`, and the i-th entry of `low` never exceeds the i-th entry of `high`. */
  ghost predicate Below(low: seq<nat>, high: seq<nat>) {
    && |high| <= |low|
    && forall i :: 0 <= i < |high| ==> low[i] <= high[i]
  }

  /** Where `x` first occurs in `f`. */
  function IndexOf(f: seq<nat>, x: nat): (k: nat)
    requires x in f
    ensures k < |f| && f[k] == x && x !in f[..k]
  {
    if f[0] == x then 0 else 1 + IndexOf(f[1..], x)
  }

  /** `f` without the first occurrence of `x`. */
  function Without(f: seq<nat>, x: nat): seq<nat> {
    if x in f then f[..IndexOf(f, x)] + f[IndexOf(f, x) + 1..] else f
  }

  lemma AscendingAppend(f: seq<nat>, x: nat)
    requires Ascending(f) && forall y :: y in f ==> y < x
    ensures Ascending(f + [x])
  {
    forall i, j | 0 <= i < j < |f + [x]| ensures (f + [x])[i] < (f + [x])[j] {
      assert f[i] in f;
    }
  }

  lemma Removed(f: seq<nat>, k: nat, g: seq<nat>)
    requires k < |f| && g == f[..k] + f[k + 1..]
    ensures |g| == |f| - 1 && forall i :: 0 <= i < |g| ==> g[i] == if i < k then f[i] else f[i + 1]
  {
  }

  lemma RemovedAscending(f: seq<nat>, k: nat, g: seq<nat>)
    requires k < |f| && g == f[..k] + f[k + 1..] && Ascending(f)
    ensures Ascending(g)
  {
    Removed(f, k, g);
    forall i, j | 0 <= i < j < |g| ensures g[i] < g[j] {
      assert f[if i < k then i else i + 1] < f[if j < k then j else j + 1];
    }
  }

  lemma RemovedMember(f: seq<nat>, k: nat, g: seq<nat>, y: nat)
    requires k < |f| && g == f[..k] + f[k + 1..] && Ascending(f)
    ensures y in g <==> y in f && y != f[k]
  {
    Removed(f, k, g);
    if y in g {
      var i :| 0 <= i < |g| && g[i] == y;
      var at := if i < k then i else i + 1;
      assert f[at] == y && (at < k ==> f[at] < f[k]) && (k < at ==> f[k] < f[at]);
    }
    if y in f && y != f[k] {
      var i :| 0 <= i < |f| && f[i] == y;
      assert g[if i < k then i else i - 1] == y;
    }
  }

  lemma WithoutAscending(f: seq<nat>, x: nat)
    requires Ascending(f) && x in f
    ensures Ascending(Without(f, x)) && x !in Without(f, x)
    ensures forall y :: y in Without(f, x) <==> y in f && y != x
  {
    var k := IndexOf(f, x);
    var g := Without(f, x);
    RemovedAscending(f, k, g);
    RemovedMember(f, k, g, x);
    forall y ensures y in g <==> y in f && y != x {
      RemovedMember(f, k, g, y);
    }
  }

  /** Dropping the head of the upper list pays for dropping any one entry of the lower list. */
  lemma BelowAfterAnswer(low: seq<nat>, high: seq<nat>, x: nat)
    requires Ascending(low) && Ascending(high) && Below(low, high) && high != [] && x in low
    ensures Below(Without(low, x), high[1..])
  {
    var k := IndexOf(low, x);
    var g := Without(low, x);
    Removed(low, k, g);
    forall i | 0 <= i < |high[1..]| ensures g[i] <= high[1..][i] {
      assert low[i + 1] <= high[i + 1];
    }
  }
}
