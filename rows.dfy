/** Row reconstruction, `groupIntoRows` (app.js:169-201): fragments sorted top of page
    first are cut into rows wherever a fragment lies 5 units or more from the y of the
    fragment that opened the current row; each row is then ordered left to right. */
module Rows {
  import opened Sorting

  /** `yThreshold` (app.js:178). */
  const YThreshold: real := 5.0

  /** `Math.abs`. */
  function Abs(d: real): real
  {
    if d < 0.0 then -d else d
  }

  /** The joining test of app.js:181, against the row's reference y. */
  predicate Near(y: real, refY: real)
  {
    Abs(y - refY) < YThreshold
  }

  /** The number of leading fragments of `s` that lie near `refY`: the scan keeps adding to
      the open row exactly as long as this holds. */
  function RunLength(s: seq<Fragment>, refY: real): (n: nat)
    ensures n <= |s|
  {
    if s == [] || !Near(s[0].y, refY) then 0 else 1 + RunLength(s[1..], refY)
  }

  /** RunLength is the length of the longest prefix near `refY`. */
  lemma {:induction false} RunLengthMaximal(s: seq<Fragment>, refY: real)
    ensures forall m :: 0 <= m < RunLength(s, refY) ==> Near(s[m].y, refY)
    ensures RunLength(s, refY) < |s| ==> !Near(s[RunLength(s, refY)].y, refY)
  {
    if s != [] && Near(s[0].y, refY) {
      RunLengthMaximal(s[1..], refY);
      forall m | 0 < m < RunLength(s, refY)
        ensures Near(s[m].y, refY)
      {
        assert s[m] == s[1..][m - 1];
      }
    }
  }

  /** The rows as fragment groups, in scan order: each group is the longest run near the
      y of its first fragment. */
  function Clusters(s: seq<Fragment>): seq<seq<Fragment>>
    decreases |s|
  {
    if s == [] then []
    else
      var n := RunLength(s, s[0].y);
      assert n > 0 by { assert Near(s[0].y, s[0].y); }
      [s[..n]] + Clusters(s[n..])
  }

  function Flatten(cs: seq<seq<Fragment>>): seq<Fragment>
  {
    if cs == [] then [] else cs[0] + Flatten(cs[1..])
  }

  function Concat(rows: seq<seq<string>>): seq<string>
  {
    if rows == [] then [] else Concat(rows[..|rows| - 1]) + rows[|rows| - 1]
  }

  /** `row.map(i => i.text)` (app.js:187, 197). */
  function Texts(fs: seq<Fragment>): seq<string>
  {
    seq(|fs|, i requires 0 <= i < |fs| => fs[i].text)
  }

  /** A closed row: its fragments left to right (app.js:186, 196). */
  function RowFragments(c: seq<Fragment>): seq<Fragment>
  {
    SortBy(ByXAscending, c)
  }

  function RowsOf(cs: seq<seq<Fragment>>): (rows: seq<seq<string>>)
    ensures |rows| == |cs|
  {
    if cs == [] then [] else RowsOf(cs[..|cs| - 1]) + [Texts(RowFragments(cs[|cs| - 1]))]
  }

  /** The fragment groups of a page, top to bottom. */
  function PageClusters(items: seq<Fragment>): seq<seq<Fragment>>
  {
    Clusters(SortBy(ByYDescending, items))
  }

  /** What `groupIntoRows(items)` returns. */
  function GroupRows(items: seq<Fragment>): seq<seq<string>>
  {
    RowsOf(PageClusters(items))
  }

  /** The grouping of a scan is a partition into non-empty runs, each near its first
      fragment, and each next run starts with a fragment that is not near the previous
      run's first fragment: the cut happens exactly where the threshold test fails. */
  ghost predicate IsScanGrouping(s: seq<Fragment>, cs: seq<seq<Fragment>>)
  {
    && Flatten(cs) == s
    && (forall i :: 0 <= i < |cs| ==> cs[i] != [])
    && (forall i, m :: 0 <= i < |cs| && 0 <= m < |cs[i]| ==> Near(cs[i][m].y, cs[i][0].y))
    && (forall i :: 0 <= i < |cs| - 1 ==> !Near(cs[i + 1][0].y, cs[i][0].y))
  }

  lemma {:induction false} ClustersAreScanGrouping(s: seq<Fragment>)
    ensures IsScanGrouping(s, Clusters(s))
    decreases |s|
  {
    if s != [] {
      var n := RunLength(s, s[0].y);
      RunLengthMaximal(s, s[0].y);
      var cs, rest := Clusters(s), Clusters(s[n..]);
      ClustersAreScanGrouping(s[n..]);
      assert cs == [s[..n]] + rest;
      assert Flatten(cs) == s by {
        assert cs[1..] == rest;
        assert s == s[..n] + s[n..];
      }
      forall i, m | 0 <= i < |cs| && 0 <= m < |cs[i]|
        ensures Near(cs[i][m].y, cs[i][0].y)
      {
        if i > 0 {
          assert cs[i] == rest[i - 1];
        }
      }
      forall i | 0 <= i < |cs| - 1
        ensures !Near(cs[i + 1][0].y, cs[i][0].y)
      {
        if i == 0 {
          assert rest[0][0] == s[n] by {
            assert Flatten(rest) == rest[0] + Flatten(rest[1..]);
          }
        } else {
          assert cs[i] == rest[i - 1] && cs[i + 1] == rest[i];
        }
      }
    }
  }

  /** Clusters is the only grouping with that property. */
  lemma {:induction false} ScanGroupingUnique(s: seq<Fragment>, cs: seq<seq<Fragment>>)
    requires IsScanGrouping(s, cs)
    ensures cs == Clusters(s)
    decreases |s|
  {
    if cs != [] {
      var c := cs[0];
      assert s == c + Flatten(cs[1..]);
      var n := RunLength(s, s[0].y);
      RunLengthMaximal(s, s[0].y);
      assert c[0] == s[0];
      forall m | 0 <= m < |c|
        ensures Near(s[m].y, s[0].y)
      {
        assert s[m] == c[m];
      }
      if |c| < |s| {
        assert cs[1..] != [];
        assert Flatten(cs[1..]) == cs[1] + Flatten(cs[2..]);
        assert s[|c|] == cs[1][0];
      }
      assert n == |c|;
      assert s[n..] == Flatten(cs[1..]);
      assert IsScanGrouping(s[n..], cs[1..]) by {
        forall i | 0 <= i < |cs[1..]| - 1
          ensures !Near(cs[1..][i + 1][0].y, cs[1..][i][0].y)
        {
          assert cs[1..][i + 1] == cs[i + 2] && cs[1..][i] == cs[i + 1];
        }
      }
      ScanGroupingUnique(s[n..], cs[1..]);
      assert s[..n] == c;
    } else {
      assert s == [];
    }
  }

  lemma SortedSuffix(k: SortKey, s: seq<Fragment>, n: nat)
    requires SortedBy(k, s) && n <= |s|
    ensures SortedBy(k, s[n..])
  {
    assert forall i :: 0 <= i < |s| - n ==> s[n..][i] == s[n + i];
  }

  /** Every group spans less than the threshold below its first fragment, and each next
      group starts at least the threshold lower. */
  ghost predicate TopDown(cs: seq<seq<Fragment>>)
  {
    && (forall i :: 0 <= i < |cs| ==> cs[i] != [])
    && (forall i, m :: 0 <= i < |cs| && 0 <= m < |cs[i]| ==>
          cs[i][0].y - YThreshold < cs[i][m].y <= cs[i][0].y)
    && (forall i :: 0 <= i < |cs| - 1 ==> cs[i + 1][0].y <= cs[i][0].y - YThreshold)
  }

  lemma TopDownCons(c: seq<Fragment>, rest: seq<seq<Fragment>>)
    requires c != [] && TopDown(rest)
    requires forall m :: 0 <= m < |c| ==> c[0].y - YThreshold < c[m].y <= c[0].y
    requires rest != [] ==> rest[0][0].y <= c[0].y - YThreshold
    ensures TopDown([c] + rest)
  {
    var cs := [c] + rest;
    forall i | 0 < i < |cs|
      ensures cs[i] == rest[i - 1]
    {
    }
  }

  /** On a page sorted top first, the rows come top down. */
  lemma {:induction false} ClustersDescend(s: seq<Fragment>)
    requires SortedBy(ByYDescending, s)
    ensures TopDown(Clusters(s))
    decreases |s|
  {
    if s != [] {
      var n := RunLength(s, s[0].y);
      RunLengthMaximal(s, s[0].y);
      var c, rest := s[..n], Clusters(s[n..]);
      SortedSuffix(ByYDescending, s, n);
      ClustersDescend(s[n..]);
      forall m | 0 <= m < |c|
        ensures c[0].y - YThreshold < c[m].y <= c[0].y
      {
        assert c[m] == s[m] && c[0] == s[0];
        assert Near(s[m].y, s[0].y);
        if m > 0 {
          assert Key(ByYDescending, s[0]) <= Key(ByYDescending, s[m]);
        }
      }
      if rest != [] {
        ClustersAreScanGrouping(s[n..]);
        assert rest[0][0] == s[n] by {
          assert Flatten(rest) == rest[0] + Flatten(rest[1..]);
        }
        assert Key(ByYDescending, s[0]) <= Key(ByYDescending, s[n]);
      }
      TopDownCons(c, rest);
    }
  }

  /** `groupIntoRows` (app.js:169-201): an empty input gives no rows; otherwise the array is
      sorted in place, top of page first, and scanned. */
  method GroupIntoRows(items: array<Fragment>) returns (rows: seq<seq<string>>)
    modifies items
    ensures items[..] == SortBy(ByYDescending, old(items[..]))
    ensures rows == GroupRows(old(items[..]))
  {
    if items.Length == 0 {
      return [];
    }
    SortInPlace(items, ByYDescending);
    rows := ScanRows(items);
  }

  /** The `forEach` scan of app.js:175-199 over the sorted fragments, with the open row
      `currentRow` and its reference `currentY`. */
  method ScanRows(items: array<Fragment>) returns (rows: seq<seq<string>>)
    requires items.Length > 0
    ensures rows == RowsOf(Clusters(items[..]))
  {
    ghost var s := items[..];
    rows := [];
    var currentRow: seq<Fragment> := [];
    var currentY := items[0].y;
    ghost var closed: seq<seq<Fragment>> := [];
    for i := 0 to items.Length
      invariant i == 0 ==> closed == [] && currentRow == [] && currentY == s[0].y
      invariant 0 < i ==> currentRow != [] && currentY == currentRow[0].y
      invariant 0 < i ==> IsScanGrouping(s[..i], closed + [currentRow])
      invariant rows == RowsOf(closed)
    {
      var item := items[i];
      assert s[..i + 1] == s[..i] + [item];
      if Abs(item.y - currentY) < YThreshold {
        if i == 0 {
          ScanFirst(item);
          assert closed + [currentRow + [item]] == [[item]];
        } else {
          ScanExtend(s[..i], closed, currentRow, item);
        }
        currentRow := currentRow + [item];
      } else {
        if |currentRow| > 0 {
          assert (closed + [currentRow])[|closed|] == currentRow;
          ScanStart(s[..i], closed + [currentRow], item);
          RowsOfAppend(closed, currentRow);
          rows := rows + [Texts(SortBy(ByXAscending, currentRow))];
          closed := closed + [currentRow];
        }
        currentRow := [item];
        currentY := item.y;
      }
    }
    assert s[..items.Length] == s;
    ScanGroupingUnique(s, closed + [currentRow]);
    RowsOfAppend(closed, currentRow);
    rows := rows + [Texts(SortBy(ByXAscending, currentRow))];
  }

  lemma ScanFirst(x: Fragment)
    ensures IsScanGrouping([x], [[x]])
  {
    assert Flatten([[x]]) == [x] + Flatten([]);
  }

  /** The fragment joins the open row. */
  lemma ScanExtend(s: seq<Fragment>, closed: seq<seq<Fragment>>, c: seq<Fragment>, x: Fragment)
    requires c != [] && IsScanGrouping(s, closed + [c])
    requires Near(x.y, c[0].y)
    ensures IsScanGrouping(s + [x], closed + [c + [x]])
  {
    var cs, cs' := closed + [c], closed + [c + [x]];
    FlattenSnoc(closed, c);
    FlattenSnoc(closed, c + [x]);
    assert |cs'| == |cs|;
    assert forall i :: 0 <= i < |closed| ==> cs'[i] == cs[i];
    assert cs[|closed|] == c && cs'[|closed|] == c + [x];
  }

  /** The fragment closes the open row and opens a new one. */
  lemma ScanStart(s: seq<Fragment>, cs: seq<seq<Fragment>>, x: Fragment)
    requires IsScanGrouping(s, cs) && cs != []
    requires !Near(x.y, cs[|cs| - 1][0].y)
    ensures IsScanGrouping(s + [x], cs + [[x]])
  {
    var cs' := cs + [[x]];
    FlattenSnoc(cs, [x]);
    assert forall i :: 0 <= i < |cs| ==> cs'[i] == cs[i];
    assert cs'[|cs|] == [x];
  }

  /** Row `i` is the texts of group `i`, left to right. */
  lemma {:induction false} RowsOfAt(cs: seq<seq<Fragment>>, i: nat)
    requires i < |cs|
    ensures RowsOf(cs)[i] == Texts(RowFragments(cs[i]))
  {
    if i < |cs| - 1 {
      RowsOfAt(cs[..|cs| - 1], i);
    }
  }

  lemma RowsOfAppend(closed: seq<seq<Fragment>>, c: seq<Fragment>)
    ensures RowsOf(closed + [c]) == RowsOf(closed) + [Texts(RowFragments(c))]
  {
    assert (closed + [c])[..|closed|] == closed;
  }

  lemma {:induction false} FlattenSnoc(cs: seq<seq<Fragment>>, c: seq<Fragment>)
    ensures Flatten(cs + [c]) == Flatten(cs) + c
  {
    if cs != [] {
      assert (cs + [c])[1..] == cs[1..] + [c];
      FlattenSnoc(cs[1..], c);
    } else {
      assert [c][1..] == [];
    }
  }

  lemma TextsAppend(a: seq<Fragment>, b: seq<Fragment>)
    ensures Texts(a + b) == Texts(a) + Texts(b)
  {
  }

  lemma {:induction false} TextsInsert(k: SortKey, t: seq<Fragment>, x: Fragment)
    ensures multiset(Texts(Insert(k, t, x))) == multiset(Texts(t)) + multiset{x.text}
  {
    if t == [] || Key(k, t[|t| - 1]) <= Key(k, x) {
      TextsAppend(t, [x]);
    } else {
      var init, last := t[..|t| - 1], t[|t| - 1];
      TextsInsert(k, init, x);
      TextsAppend(Insert(k, init, x), [last]);
      TextsAppend(init, [last]);
      assert t == init + [last];
    }
  }

  /** Sorting a row changes which fragment comes where, not which texts there are. */
  lemma {:induction false} TextsSortBy(k: SortKey, s: seq<Fragment>)
    ensures multiset(Texts(SortBy(k, s))) == multiset(Texts(s))
  {
    if s != [] {
      var init, last := s[..|s| - 1], s[|s| - 1];
      TextsSortBy(k, init);
      TextsInsert(k, SortBy(k, init), last);
      TextsAppend(init, [last]);
      assert s == init + [last];
    }
  }

  lemma {:induction false} ConcatRowsOf(cs: seq<seq<Fragment>>)
    ensures multiset(Concat(RowsOf(cs))) == multiset(Texts(Flatten(cs)))
  {
    if cs != [] {
      var init, last := cs[..|cs| - 1], cs[|cs| - 1];
      ConcatRowsOf(init);
      assert RowsOf(cs)[..|cs| - 1] == RowsOf(init);
      TextsSortBy(ByXAscending, last);
      assert cs == init + [last];
      FlattenSnoc(init, last);
      TextsAppend(Flatten(init), last);
    }
  }

  /** `groupIntoRows` keeps every text exactly once: no row is empty, the input is empty
      exactly when no row comes out, and the cells taken together are the input's texts. */
  lemma GroupRowsPermutes(items: seq<Fragment>)
    ensures GroupRows(items) == [] <==> items == []
    ensures forall i :: 0 <= i < |GroupRows(items)| ==> GroupRows(items)[i] != []
    ensures multiset(Concat(GroupRows(items))) == multiset(Texts(items))
    ensures |Concat(GroupRows(items))| == |items|
  {
    var sorted := SortBy(ByYDescending, items);
    var cs := Clusters(sorted);
    ClustersAreScanGrouping(sorted);
    ConcatRowsOf(cs);
    TextsSortBy(ByYDescending, items);
    assert |multiset(Concat(GroupRows(items)))| == |Concat(GroupRows(items))|;
    assert |multiset(Texts(items))| == |Texts(items)|;
    forall i | 0 <= i < |GroupRows(items)|
      ensures GroupRows(items)[i] != []
    {
      RowsOfAt(cs, i);
    }
    if items != [] {
      assert cs != [] by {
        assert Flatten(cs) == sorted && |sorted| == |items|;
      }
    }
  }

  /** A page yields rows exactly when it has fragments, and then none of them is empty. */
  lemma GroupRowsNonEmpty(items: seq<Fragment>)
    ensures GroupRows(items) == [] <==> items == []
    ensures forall i :: 0 <= i < |GroupRows(items)| ==> GroupRows(items)[i] != []
  {
    GroupRowsPermutes(items);
  }

  /** Row `i` holds the texts of its fragments left to right; fragments with equal x keep
      the order of the top-down scan. */
  lemma GroupRowsLeftToRight(items: seq<Fragment>, i: nat)
    requires i < |PageClusters(items)|
    ensures |GroupRows(items)| == |PageClusters(items)|
    ensures GroupRows(items)[i] == Texts(RowFragments(PageClusters(items)[i]))
    ensures SortedBy(ByXAscending, RowFragments(PageClusters(items)[i]))
    ensures multiset(RowFragments(PageClusters(items)[i])) == multiset(PageClusters(items)[i])
    ensures forall v :: WithKey(ByXAscending, v, RowFragments(PageClusters(items)[i]))
                        == WithKey(ByXAscending, v, PageClusters(items)[i])
  {
    var c := PageClusters(items)[i];
    RowsOfAt(PageClusters(items), i);
    SortBySorted(ByXAscending, c);
    SortByPermutation(ByXAscending, c);
    forall v ensures WithKey(ByXAscending, v, SortBy(ByXAscending, c)) == WithKey(ByXAscending, v, c) {
      SortByStable(ByXAscending, v, c);
    }
  }

  /** The rows of a page are its top-down scan: the fragments sorted top first (ties in
      input order), cut exactly where the threshold test fails, each row below the one
      before by at least the threshold. */
  lemma GroupRowsTopDown(items: seq<Fragment>)
    ensures SortedBy(ByYDescending, SortBy(ByYDescending, items))
    ensures forall v :: WithKey(ByYDescending, v, SortBy(ByYDescending, items))
                        == WithKey(ByYDescending, v, items)
    ensures IsScanGrouping(SortBy(ByYDescending, items), PageClusters(items))
    ensures TopDown(PageClusters(items))
  {
    var sorted := SortBy(ByYDescending, items);
    SortBySorted(ByYDescending, items);
    forall v ensures WithKey(ByYDescending, v, sorted) == WithKey(ByYDescending, v, items) {
      SortByStable(ByYDescending, v, items);
    }
    ClustersAreScanGrouping(sorted);
    ClustersDescend(sorted);
  }

  /** A page with one fragment gives one one-cell row. */
  lemma GroupRowsSingle(f: Fragment)
    ensures GroupRows([f]) == [[f.text]]
  {
    assert SortBy(ByYDescending, [f]) == [f] by {
      assert [f][..0] == [];
    }
    assert RunLength([f], f.y) == 1 by {
      assert [f][1..] == [];
      assert Near(f.y, f.y);
    }
    assert Clusters([f]) == [[f]] by {
      assert [f][..1] == [f] && [f][1..] == [];
    }
    assert RowFragments([f]) == [f] by {
      assert [f][..0] == [];
    }
    assert [[f]][..0] == [];
    assert RowsOf([[f]]) == [Texts(RowFragments([f]))];
    assert Texts([f]) == [f.text];
  }

  /** Two fragments on one line and one 20 units lower, whatever their heights:
      `[["A", "B"], ["C"]]`. */
  lemma GroupRowsExample(h1: real, h2: real, h3: real)
    ensures GroupRows([Fragment("A", 0.0, 100.0, h1), Fragment("B", 50.0, 100.0, h2),
                       Fragment("C", 0.0, 80.0, h3)]) == [["A", "B"], ["C"]]
  {
    var a, b, c := Fragment("A", 0.0, 100.0, h1), Fragment("B", 50.0, 100.0, h2),
                   Fragment("C", 0.0, 80.0, h3);
    var items := [a, b, c];
    assert SortBy(ByYDescending, items) == items by {
      assert items[..2] == [a, b] && [a, b][..1] == [a] && [a][..0] == [];
      assert SortBy(ByYDescending, [a]) == [a];
      assert SortBy(ByYDescending, [a, b]) == [a, b];
    }
    assert RunLength(items, 100.0) == 2 by {
      assert items[1..] == [b, c] && [b, c][1..] == [c] && [c][1..] == [];
      assert RunLength([c], 100.0) == 0;
    }
    assert Clusters(items) == [[a, b], [c]] by {
      assert items[..2] == [a, b] && items[2..] == [c];
      assert RunLength([c], 80.0) == 1 by {
        assert [c][1..] == [];
      }
      assert Clusters([c]) == [[c]] by {
        assert [c][..1] == [c] && [c][1..] == [];
      }
    }
    assert RowFragments([a, b]) == [a, b] by {
      assert [a, b][..1] == [a] && [a][..0] == [];
      assert SortBy(ByXAscending, [a]) == [a];
    }
    assert RowFragments([c]) == [c] by {
      assert [c][..0] == [];
    }
    assert [[a, b], [c]][..1] == [[a, b]] && [[a, b]][..0] == [];
    assert PageClusters(items) == [[a, b], [c]];
    assert RowsOf([[a, b]]) == [Texts(RowFragments([a, b]))];
    assert RowsOf([[a, b], [c]]) == [Texts(RowFragments([a, b])), Texts(RowFragments([c]))];
    assert Texts([a, b]) == ["A", "B"];
    assert Texts([c]) == ["C"];
  }

  /** The reference y is the row's first fragment, not the previous fragment: at y = 100,
      96 and 92 the second joins the first, but the third, 4 units from the second and 8
      from the first, starts a new row. */
  lemma GroupRowsChainSplit(h: real)
    ensures GroupRows([Fragment("A", 0.0, 100.0, h), Fragment("B", 0.0, 96.0, h),
                       Fragment("C", 0.0, 92.0, h)]) == [["A", "B"], ["C"]]
  {
    var a, b, c := Fragment("A", 0.0, 100.0, h), Fragment("B", 0.0, 96.0, h),
                   Fragment("C", 0.0, 92.0, h);
    var items := [a, b, c];
    assert SortBy(ByYDescending, items) == items by {
      assert items[..2] == [a, b] && [a, b][..1] == [a] && [a][..0] == [];
      assert SortBy(ByYDescending, [a]) == [a];
      assert SortBy(ByYDescending, [a, b]) == [a, b];
    }
    assert RunLength(items, 100.0) == 2 by {
      assert items[1..] == [b, c] && [b, c][1..] == [c] && [c][1..] == [];
      assert RunLength([c], 100.0) == 0;
    }
    assert Clusters(items) == [[a, b], [c]] by {
      assert items[..2] == [a, b] && items[2..] == [c];
      assert RunLength([c], 92.0) == 1 by {
        assert [c][1..] == [];
      }
      assert Clusters([c]) == [[c]] by {
        assert [c][..1] == [c] && [c][1..] == [];
      }
    }
    assert RowFragments([a, b]) == [a, b] by {
      assert [a, b][..1] == [a] && [a][..0] == [];
      assert SortBy(ByXAscending, [a]) == [a];
    }
    assert RowFragments([c]) == [c] by {
      assert [c][..0] == [];
    }
    assert [[a, b], [c]][..1] == [[a, b]] && [[a, b]][..0] == [];
    assert PageClusters(items) == [[a, b], [c]];
    assert RowsOf([[a, b]]) == [Texts(RowFragments([a, b]))];
    assert RowsOf([[a, b], [c]]) == [Texts(RowFragments([a, b])), Texts(RowFragments([c]))];
    assert Texts([a, b]) == ["A", "B"];
    assert Texts([c]) == ["C"];
  }
}
