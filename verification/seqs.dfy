/** Generic sequence helpers: `Array.prototype.filter` on immutable sequences. */
module Seqs {

  /** The elements of `s` that satisfy `keep`, in their original order. */
  function Filter<T(!new)>(s: seq<T>, keep: T -> bool): (r: seq<T>)
    ensures |r| <= |s|
    ensures forall x :: x in r <==> x in s && keep(x)
  {
    if s == [] then [] else (if keep(s[0]) then [s[0]] else []) + Filter(s[1..], keep)
  }

  /** Each kept value occurs in the result as often as in `s`; a dropped value not at all. */
  lemma {:induction false} FilterMultiset<T(!new)>(s: seq<T>, keep: T -> bool)
    ensures forall x :: multiset(Filter(s, keep))[x] == if keep(x) then multiset(s)[x] else 0
  {
    if s != [] {
      FilterMultiset(s[1..], keep);
      assert s == [s[0]] + s[1..];
    }
  }

  /**
   * `idx` lists positions of `s`, strictly increasing, at which `r`'s
   * elements are found: `r` is `s` with some elements left out, the rest in
   * their original order.
   */
  ghost predicate Embeds<T>(r: seq<T>, s: seq<T>, idx: seq<nat>) {
    && |idx| == |r|
    && (forall k :: 0 <= k < |idx| ==> idx[k] < |s| && r[k] == s[idx[k]])
    && (forall k, l :: 0 <= k < l < |idx| ==> idx[k] < idx[l])
  }

  /** Positions shifted by one, for a sequence that gained a first element. */
  function Shift(idx: seq<nat>): (r: seq<nat>)
    ensures |r| == |idx|
    ensures forall k :: 0 <= k < |idx| ==> r[k] == idx[k] + 1
  {
    seq(|idx|, k requires 0 <= k < |idx| => idx[k] + 1)
  }

  /** An embedding survives putting one element in front of `s`. */
  lemma EmbedsTail<T>(r: seq<T>, s: seq<T>, idx: seq<nat>)
    requires s != [] && Embeds(r, s[1..], idx)
    ensures Embeds(r, s, Shift(idx))
  {
    forall k | 0 <= k < |idx| ensures r[k] == s[Shift(idx)[k]] {
      assert s[idx[k] + 1] == s[1..][idx[k]];
    }
  }

  /** An embedding extends when the same first element is put in front of both sides. */
  lemma EmbedsCons<T>(r: seq<T>, s: seq<T>, idx: seq<nat>)
    requires s != [] && Embeds(r, s[1..], idx)
    ensures Embeds([s[0]] + r, s, [0] + Shift(idx))
  {
    EmbedsTail(r, s, idx);
    var sh := Shift(idx);
    var j := [0] + sh;
    var r' := [s[0]] + r;
    assert |j| == |r'|;
    forall k | 0 <= k < |j| ensures j[k] < |s| && r'[k] == s[j[k]] {
      if k > 0 {
        assert j[k] == sh[k - 1] && r'[k] == r[k - 1];
      }
    }
    forall k, l | 0 <= k < l < |j| ensures j[k] < j[l] {
      assert j[l] == sh[l - 1];
      if k > 0 {
        assert j[k] == sh[k - 1];
      }
    }
  }

  /** The filter keeps its elements in the order they have in `s`. */
  lemma {:induction false} FilterInOrder<T(!new)>(s: seq<T>, keep: T -> bool)
    ensures exists idx :: Embeds(Filter(s, keep), s, idx)
  {
    if s == [] {
      assert Embeds(Filter(s, keep), s, []);
    } else {
      FilterInOrder(s[1..], keep);
      var idx :| Embeds(Filter(s[1..], keep), s[1..], idx);
      if keep(s[0]) {
        FilterKeep(s, keep);
        EmbedsCons(Filter(s[1..], keep), s, idx);
      } else {
        FilterDrop(s, keep);
        EmbedsTail(Filter(s[1..], keep), s, idx);
      }
    }
  }

  /** Concatenation is associative. */
  lemma AppendAssoc<T>(a: seq<T>, b: seq<T>, c: seq<T>)
    ensures (a + b) + c == a + (b + c)
  {
  }

  /** A kept first element stays in front. */
  lemma FilterKeep<T(!new)>(s: seq<T>, keep: T -> bool)
    requires s != [] && keep(s[0])
    ensures Filter(s, keep) == [s[0]] + Filter(s[1..], keep)
  {
  }

  /** A dropped first element leaves the filter of the rest. */
  lemma FilterDrop<T(!new)>(s: seq<T>, keep: T -> bool)
    requires s != [] && !keep(s[0])
    ensures Filter(s, keep) == Filter(s[1..], keep)
  {
  }

  /** A filter whose predicate holds everywhere is the identity. */
  lemma {:induction false} FilterAll<T(!new)>(s: seq<T>, keep: T -> bool)
    requires forall i :: 0 <= i < |s| ==> keep(s[i])
    ensures Filter(s, keep) == s
  {
    if s != [] {
      FilterAll(s[1..], keep);
    }
  }

  /** A weaker predicate keeps at least as many elements. */
  lemma {:induction false} FilterWeaker<T(!new)>(s: seq<T>, strong: T -> bool, weak: T -> bool)
    requires forall x :: strong(x) ==> weak(x)
    ensures |Filter(s, strong)| <= |Filter(s, weak)|
  {
    if s != [] {
      FilterWeaker(s[1..], strong, weak);
    }
  }
}
