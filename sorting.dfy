/** Positioned text fragments and the stable sorts `groupIntoRows` applies to them
    (app.js:173, 186, 196). `Array.prototype.sort` is stable since ES2019, so the order it
    produces for a comparator `(a, b) => key(a) - key(b)` is fixed: ascending key, ties in
    their input order. */
module Sorting {

  /** One piece of text as located on a page by the PDF decoder (app.js:150-155). */
  datatype Fragment = Fragment(text: string, x: real, y: real, height: real)

  /** The two comparators of app.js: `b.y - a.y` (top of page first) and `a.x - b.x`. */
  datatype SortKey = ByYDescending | ByXAscending

  /** The quantity a comparator orders by, ascending. */
  function Key(k: SortKey, f: Fragment): real
  {
    match k
    case ByYDescending => -f.y
    case ByXAscending => f.x
  }

  ghost predicate SortedBy(k: SortKey, s: seq<Fragment>)
  {
    forall i, j :: 0 <= i < j < |s| ==> Key(k, s[i]) <= Key(k, s[j])
  }

  ghost predicate KeysAtMost(k: SortKey, s: seq<Fragment>, bound: real)
  {
    forall i :: 0 <= i < |s| ==> Key(k, s[i]) <= bound
  }

  /** The fragments of `s` whose key is `v`, in their order in `s`. */
  function WithKey(k: SortKey, v: real, s: seq<Fragment>): (r: seq<Fragment>)
    ensures |r| <= |s|
  {
    if s == [] then []
    else WithKey(k, v, s[..|s| - 1]) + (if Key(k, s[|s| - 1]) == v then [s[|s| - 1]] else [])
  }

  /** Inserts `x` into `s` after every trailing element whose key exceeds `x`'s, which is
      where the shifting loop of an insertion sort leaves it. */
  function Insert(k: SortKey, s: seq<Fragment>, x: Fragment): (r: seq<Fragment>)
    ensures |r| == |s| + 1
  {
    if s == [] || Key(k, s[|s| - 1]) <= Key(k, x) then s + [x]
    else
      assert s == s[..|s| - 1] + [s[|s| - 1]];
      Insert(k, s[..|s| - 1], x) + [s[|s| - 1]]
  }

  /** The stable sort of `s` by `k`. */
  function SortBy(k: SortKey, s: seq<Fragment>): (r: seq<Fragment>)
    ensures |r| == |s|
  {
    if s == [] then []
    else
      assert s == s[..|s| - 1] + [s[|s| - 1]];
      Insert(k, SortBy(k, s[..|s| - 1]), s[|s| - 1])
  }

  lemma {:induction false} InsertPermutation(k: SortKey, s: seq<Fragment>, x: Fragment)
    ensures multiset(Insert(k, s, x)) == multiset(s) + multiset{x}
  {
    if !(s == [] || Key(k, s[|s| - 1]) <= Key(k, x)) {
      var init, last := s[..|s| - 1], s[|s| - 1];
      assert s == init + [last];
      InsertPermutation(k, init, x);
    }
  }

  /** The sort only reorders: it keeps every fragment as often as it occurs. */
  lemma {:induction false} SortByPermutation(k: SortKey, s: seq<Fragment>)
    ensures multiset(SortBy(k, s)) == multiset(s)
  {
    if s != [] {
      var init, last := s[..|s| - 1], s[|s| - 1];
      assert s == init + [last];
      SortByPermutation(k, init);
      InsertPermutation(k, SortBy(k, init), last);
    }
  }

  lemma {:induction false} InsertKeysAtMost(k: SortKey, s: seq<Fragment>, x: Fragment, bound: real)
    requires KeysAtMost(k, s, bound) && Key(k, x) <= bound
    ensures KeysAtMost(k, Insert(k, s, x), bound)
  {
    if !(s == [] || Key(k, s[|s| - 1]) <= Key(k, x)) {
      InsertKeysAtMost(k, s[..|s| - 1], x, bound);
    }
  }

  lemma {:induction false} InsertSorted(k: SortKey, s: seq<Fragment>, x: Fragment)
    requires SortedBy(k, s)
    ensures SortedBy(k, Insert(k, s, x))
  {
    if !(s == [] || Key(k, s[|s| - 1]) <= Key(k, x)) {
      var init, last := s[..|s| - 1], s[|s| - 1];
      InsertSorted(k, init, x);
      InsertKeysAtMost(k, init, x, Key(k, last));
    }
  }

  /** The sort orders by key. */
  lemma {:induction false} SortBySorted(k: SortKey, s: seq<Fragment>)
    ensures SortedBy(k, SortBy(k, s))
  {
    if s != [] {
      SortBySorted(k, s[..|s| - 1]);
      InsertSorted(k, SortBy(k, s[..|s| - 1]), s[|s| - 1]);
    }
  }

  lemma {:induction false} WithKeyAppend(k: SortKey, v: real, a: seq<Fragment>, b: seq<Fragment>)
    ensures WithKey(k, v, a + b) == WithKey(k, v, a) + WithKey(k, v, b)
  {
    if b != [] {
      assert (a + b)[..|a + b| - 1] == a + b[..|b| - 1];
      WithKeyAppend(k, v, a, b[..|b| - 1]);
    } else {
      assert a + b == a;
    }
  }

  lemma WithKeySingle(k: SortKey, v: real, x: Fragment)
    ensures WithKey(k, v, [x]) == if Key(k, x) == v then [x] else []
  {
    assert [x][..0] == [];
  }

  lemma {:induction false} InsertStable(k: SortKey, v: real, s: seq<Fragment>, x: Fragment)
    ensures WithKey(k, v, Insert(k, s, x)) == WithKey(k, v, s) + WithKey(k, v, [x])
  {
    if s == [] || Key(k, s[|s| - 1]) <= Key(k, x) {
      WithKeyAppend(k, v, s, [x]);
    } else {
      var init, last := s[..|s| - 1], s[|s| - 1];
      InsertStable(k, v, init, x);
      InsertStableStep(k, v, init, Insert(k, init, x), last, x);
      assert s == init + [last];
    }
  }

  /** The inductive step of InsertStable: `x` passes `last`, whose key is larger; `ins`
      is the insertion of `x` into `init`. */
  lemma InsertStableStep(k: SortKey, v: real, init: seq<Fragment>, ins: seq<Fragment>, last: Fragment,
                         x: Fragment)
    requires Key(k, last) > Key(k, x)
    requires WithKey(k, v, ins) == WithKey(k, v, init) + WithKey(k, v, [x])
    ensures WithKey(k, v, ins + [last]) == WithKey(k, v, init + [last]) + WithKey(k, v, [x])
  {
    var wi, wx, wl := WithKey(k, v, init), WithKey(k, v, [x]), WithKey(k, v, [last]);
    WithKeyAppend(k, v, ins, [last]);
    WithKeyAppend(k, v, init, [last]);
    WithKeySingle(k, v, x);
    WithKeySingle(k, v, last);
    if wl == [] {
      assert wi + wx + wl == wi + wx && wi + wl == wi;
    } else {
      assert wx == [];
      assert wi + wx == wi && wi + wl + wx == wi + wl;
    }
  }

  /** Stability: the fragments sharing any one key keep their relative input order. */
  lemma {:induction false} SortByStable(k: SortKey, v: real, s: seq<Fragment>)
    ensures WithKey(k, v, SortBy(k, s)) == WithKey(k, v, s)
  {
    if s != [] {
      var init, last := s[..|s| - 1], s[|s| - 1];
      SortByStable(k, v, init);
      InsertStable(k, v, SortBy(k, init), last);
      assert s == init + [last];
      WithKeyAppend(k, v, init, [last]);
    }
  }

  /** Insert places `x` right after the last element whose key does not exceed `x`'s. */
  lemma {:induction false} InsertAt(k: SortKey, t: seq<Fragment>, j: nat, x: Fragment)
    requires j <= |t|
    requires forall m :: j <= m < |t| ==> Key(k, t[m]) > Key(k, x)
    requires j == 0 || Key(k, t[j - 1]) <= Key(k, x)
    ensures Insert(k, t, x) == t[..j] + [x] + t[j..]
  {
    if j == |t| {
      assert t[..j] == t && t[j..] == [];
    } else {
      var init, last := t[..|t| - 1], t[|t| - 1];
      assert Key(k, last) > Key(k, x);
      assert Insert(k, t, x) == Insert(k, init, x) + [last];
      assert forall m :: j <= m < |init| ==> init[m] == t[m];
      assert j == 0 || init[j - 1] == t[j - 1];
      InsertAt(k, init, j, x);
      assert t[..j] == init[..j];
      assert t[j..] == init[j..] + [last];
    }
  }

  /** `items.sort(cmp)` on an array: afterwards the array holds the stable sort of its
      former contents. */
  method SortInPlace(a: array<Fragment>, k: SortKey)
    modifies a
    ensures a[..] == SortBy(k, old(a[..]))
  {
    ghost var s := a[..];
    var i := 0;
    while i < a.Length
      invariant 0 <= i <= a.Length
      invariant a[..i] == SortBy(k, s[..i])
      invariant a[i..] == s[i..]
    {
      ghost var sorted, rest := a[..i], a[i..];
      assert a[i] == rest[0] == s[i];
      InsertLast(a, k, i);
      SortStep(k, s, i, sorted, a[..i + 1]);
      assert a[i + 1..] == rest[1..] == s[i + 1..];
      i := i + 1;
    }
    assert a[..] == a[..a.Length] && s == s[..a.Length];
  }

  /** Moves `a[i]` left into the prefix `a[..i]`, shifting larger keys right. */
  method InsertLast(a: array<Fragment>, k: SortKey, i: nat)
    requires i < a.Length
    modifies a
    ensures a[..i + 1] == Insert(k, old(a[..i]), old(a[i]))
    ensures a[i + 1..] == old(a[i + 1..])
  {
    var x := a[i];
    ghost var t := a[..i];
    var j := i;
    while j > 0 && Key(k, a[j - 1]) > Key(k, x)
      invariant 0 <= j <= i
      invariant forall m :: 0 <= m < j ==> a[m] == t[m]
      invariant forall m :: j < m <= i ==> a[m] == t[m - 1]
      invariant forall m :: j <= m < i ==> Key(k, t[m]) > Key(k, x)
      invariant forall m :: i < m < a.Length ==> a[m] == old(a[m])
    {
      a[j] := a[j - 1];
      j := j - 1;
    }
    a[j] := x;
    InsertAt(k, t, j, x);
    Spliced(a[..i + 1], t, j, x);
  }

  /** A sequence that agrees with `t` before `j`, holds `x` at `j` and `t` shifted by one
      after it, is `t` with `x` spliced in at `j`. */
  lemma Spliced(r: seq<Fragment>, t: seq<Fragment>, j: nat, x: Fragment)
    requires j <= |t| && |r| == |t| + 1
    requires forall m :: 0 <= m < j ==> r[m] == t[m]
    requires r[j] == x
    requires forall m :: j < m <= |t| ==> r[m] == t[m - 1]
    ensures r == t[..j] + [x] + t[j..]
  {
    var q := t[..j] + [x] + t[j..];
    forall m | 0 <= m < |r|
      ensures r[m] == q[m]
    {
      if j < m {
        assert q[m] == t[j..][m - j - 1];
      }
    }
  }

  /** One round of the outer loop of the in-place sort. */
  lemma SortStep(k: SortKey, s: seq<Fragment>, i: nat, sorted: seq<Fragment>, next: seq<Fragment>)
    requires i < |s| && sorted == SortBy(k, s[..i]) && next == Insert(k, sorted, s[i])
    ensures next == SortBy(k, s[..i + 1])
  {
    SortByLast(k, s[..i], s[i]);
    assert s[..i + 1] == s[..i] + [s[i]];
  }

  lemma SortByLast(k: SortKey, s: seq<Fragment>, x: Fragment)
    ensures SortBy(k, s + [x]) == Insert(k, SortBy(k, s), x)
  {
    assert (s + [x])[..|s|] == s;
  }
}
