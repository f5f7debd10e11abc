/**
 * `[...picks].sort((a, b) => a.pickNo - b.pickNo)`: JavaScript's
 * `Array.prototype.sort` is stable, so picks with equal numbers keep their
 * input order. Modelled as an insertion sort on sequences.
 */
module PickOrder {
  import opened Draft
  import opened Seqs

  /** Ascending by `pickNo`, every pair (not only neighbours) compared. */
  predicate Sorted(s: seq<Pick>) {
    forall i, j :: 0 <= i < j < |s| ==> s[i].pickNo <= s[j].pickNo
  }

  /** Keeps the picks numbered `k`. */
  function Numbered(k: int): Pick -> bool {
    (p: Pick) => p.pickNo == k
  }

  /** Prepending a pick no later than every pick of a sorted list keeps it sorted. */
  lemma SortedCons(a: Pick, s: seq<Pick>)
    requires Sorted(s)
    requires forall y :: y in s ==> a.pickNo <= y.pickNo
    ensures Sorted([a] + s)
  {
    forall i, j | 0 <= i < j < |[a] + s| ensures ([a] + s)[i].pickNo <= ([a] + s)[j].pickNo {
      if i > 0 {
        assert ([a] + s)[i] == s[i - 1];
      }
      assert ([a] + s)[j] == s[j - 1];
    }
  }

  /**
   * Places `x` in front of the first pick whose number is at least its own;
   * `x` came earlier in the input than every pick of `s`, so ties go its way.
   */
  function Insert(x: Pick, s: seq<Pick>): (r: seq<Pick>)
    ensures |r| == |s| + 1
    ensures forall y :: y in r <==> y == x || y in s
    ensures multiset(r) == multiset(s) + multiset{x}
  {
    if s == [] || x.pickNo <= s[0].pickNo then [x] + s
    else
      assert s == [s[0]] + s[1..];
      [s[0]] + Insert(x, s[1..])
  }

  lemma {:induction false} InsertSorted(x: Pick, s: seq<Pick>)
    requires Sorted(s)
    ensures Sorted(Insert(x, s))
  {
    if s == [] || x.pickNo <= s[0].pickNo {
      SortedCons(x, s);
    } else {
      assert Sorted(s[1..]);
      InsertSorted(x, s[1..]);
      SortedCons(s[0], Insert(x, s[1..]));
    }
  }

  lemma MultisetCons(s: seq<Pick>)
    requires s != []
    ensures multiset(s) == multiset(s[1..]) + multiset{s[0]}
  {
    assert s == [s[0]] + s[1..];
  }

  /** The picks of `s` in ascending `pickNo` order, ties in input order. */
  function SortByPickNo(s: seq<Pick>): (r: seq<Pick>)
    ensures Sorted(r)
    ensures multiset(r) == multiset(s)
  {
    if s == [] then []
    else
      var rest := SortByPickNo(s[1..]);
      InsertSorted(s[0], rest);
      MultisetCons(s);
      Insert(s[0], rest)
  }

  /** A filter of a sorted list is sorted. */
  lemma {:induction false} FilterSorted(s: seq<Pick>, keep: Pick -> bool)
    requires Sorted(s)
    ensures Sorted(Filter(s, keep))
  {
    if s != [] {
      assert Sorted(s[1..]);
      FilterSorted(s[1..], keep);
      if keep(s[0]) {
        forall y | y in Filter(s[1..], keep) ensures s[0].pickNo <= y.pickNo {
          var i :| 0 <= i < |s[1..]| && s[1..][i] == y;
          assert s[i + 1] == y;
        }
        SortedCons(s[0], Filter(s[1..], keep));
      }
    }
  }

  /** Inserting in front: filtering keeps `x` in front when it keeps it at all. */
  lemma FilterInsertFront(x: Pick, s: seq<Pick>, keep: Pick -> bool)
    requires Sorted(s)
    requires s == [] || x.pickNo <= s[0].pickNo
    ensures Filter(Insert(x, s), keep)
         == if keep(x) then Insert(x, Filter(s, keep)) else Filter(s, keep)
  {
    var f := Filter(s, keep);
    var ins := [x] + s;
    assert Insert(x, s) == ins;
    assert ins[0] == x && ins[1..] == s;
    if keep(x) {
      FilterKeep(ins, keep);
      if f != [] {
        assert f[0] in s;
        var i :| 0 <= i < |s| && s[i] == f[0];
        assert s[0].pickNo <= s[i].pickNo;
      }
    } else {
      FilterDrop(ins, keep);
    }
  }

  /** Filtering commutes with inserting into a sorted list. */
  lemma {:induction false} FilterInsert(x: Pick, s: seq<Pick>, keep: Pick -> bool)
    requires Sorted(s)
    ensures Filter(Insert(x, s), keep)
         == if keep(x) then Insert(x, Filter(s, keep)) else Filter(s, keep)
  {
    if s == [] || x.pickNo <= s[0].pickNo {
      FilterInsertFront(x, s, keep);
    } else {
      var ins := Insert(x, s);
      var rest := Insert(x, s[1..]);
      var g := Filter(s[1..], keep);
      assert Sorted(s[1..]);
      FilterInsert(x, s[1..], keep);
      assert ins[0] == s[0] && ins[1..] == rest;
      if keep(s[0]) {
        FilterKeep(ins, keep);
        FilterKeep(s, keep);
        if keep(x) {
          var sg := [s[0]] + g;
          assert sg[0] == s[0] && sg[1..] == g;
          assert Insert(x, sg) == [s[0]] + Insert(x, g);
        }
      } else {
        FilterDrop(ins, keep);
        FilterDrop(s, keep);
      }
    }
  }

  /**
   * Filtering the sorted picks gives the sorted filtered picks: whatever
   * subset of picks one looks at, it comes out of the sort in the same order.
   */
  lemma {:induction false} FilterSortCommute(s: seq<Pick>, keep: Pick -> bool)
    ensures Filter(SortByPickNo(s), keep) == SortByPickNo(Filter(s, keep))
  {
    if s != [] {
      var t := SortByPickNo(s[1..]);
      FilterSortCommute(s[1..], keep);
      FilterInsert(s[0], t, keep);
      var g := Filter(s[1..], keep);
      assert SortByPickNo(s) == Insert(s[0], t);
      if keep(s[0]) {
        assert Filter(s, keep) == [s[0]] + g;
        assert ([s[0]] + g)[1..] == g;
        calc {
          Filter(SortByPickNo(s), keep);
          Insert(s[0], Filter(t, keep));
          Insert(s[0], SortByPickNo(g));
          SortByPickNo([s[0]] + g);
        }
      } else {
        assert Filter(s, keep) == g;
      }
    }
  }

  /** Sorting picks that all carry the same number leaves them in input order. */
  lemma {:induction false} SortUniform(s: seq<Pick>, k: int)
    requires forall i :: 0 <= i < |s| ==> s[i].pickNo == k
    ensures SortByPickNo(s) == s
  {
    if s != [] {
      SortUniform(s[1..], k);
      assert s == [s[0]] + s[1..];
    }
  }

  /**
   * Stability: the picks numbered `k` appear in the sorted list in exactly
   * the order they had in the input.
   */
  lemma SortStable(s: seq<Pick>, k: int)
    ensures Filter(SortByPickNo(s), Numbered(k)) == Filter(s, Numbered(k))
  {
    FilterSortCommute(s, Numbered(k));
    var f := Filter(s, Numbered(k));
    forall i | 0 <= i < |f| ensures f[i].pickNo == k {
      assert f[i] in f;
    }
    SortUniform(f, k);
  }
}
