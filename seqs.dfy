/** Generic sequence helpers: the order-preserving filter, reversal and string
    concatenation that the application code gets from `Array.prototype.filter`,
    `slice().reverse()` and repeated `+`/`push`. */
module Seqs {

  /** Keeps, in order, the elements satisfying `keep` (`Array.prototype.filter`).
      Defined from the back so that a loop which appends can follow it. */
  function Filter<T>(s: seq<T>, keep: T -> bool): (r: seq<T>)
    ensures |r| <= |s|
    ensures forall i :: 0 <= i < |r| ==> r[i] in s && keep(r[i])
    ensures forall i :: 0 <= i < |s| && keep(s[i]) ==> s[i] in r
    decreases |s|
  {
    if s == [] then []
    else Filter(s[..|s| - 1], keep) + (if keep(s[|s| - 1]) then [s[|s| - 1]] else [])
  }

  lemma {:induction false} FilterAppend<T>(a: seq<T>, b: seq<T>, keep: T -> bool)
    ensures Filter(a + b, keep) == Filter(a, keep) + Filter(b, keep)
    decreases |b|
  {
    if b == [] {
      assert a + b == a;
    } else {
      var b' := b[..|b| - 1];
      assert (a + b)[..|a + b| - 1] == a + b';
      assert (a + b)[|a + b| - 1] == b[|b| - 1];
      FilterAppend(a, b', keep);
    }
  }

  /** Filtering with a predicate that holds everywhere changes nothing. */
  lemma {:induction false} FilterKeepsAll<T>(s: seq<T>, keep: T -> bool)
    requires forall i :: 0 <= i < |s| ==> keep(s[i])
    ensures Filter(s, keep) == s
    decreases |s|
  {
    if s != [] {
      FilterKeepsAll(s[..|s| - 1], keep);
      assert s[..|s| - 1] + [s[|s| - 1]] == s;
    }
  }

  /** Filtering out one rejected element between two runs of kept ones leaves
      the two runs joined. */
  lemma {:induction false} FilterDropsOne<T>(a: seq<T>, x: T, b: seq<T>, keep: T -> bool)
    requires forall j :: 0 <= j < |a| ==> keep(a[j])
    requires forall j :: 0 <= j < |b| ==> keep(b[j])
    requires !keep(x)
    ensures Filter(a + [x] + b, keep) == a + b
  {
    var ax := a + [x];
    FilterAppend(ax, b, keep);
    assert ax[..|ax| - 1] == a;
    assert Filter(ax, keep) == Filter(a, keep);
    FilterKeepsAll(a, keep);
    FilterKeepsAll(b, keep);
  }

  /** Filtering with a predicate that holds nowhere leaves nothing. */
  lemma {:induction false} FilterDropsAll<T>(s: seq<T>, keep: T -> bool)
    requires forall i :: 0 <= i < |s| ==> !keep(s[i])
    ensures Filter(s, keep) == []
    decreases |s|
  {
    if s != [] {
      FilterDropsAll(s[..|s| - 1], keep);
    }
  }

  /** Filtering an element in front of a sequence. */
  lemma {:induction false} FilterCons<T>(x: T, s: seq<T>, keep: T -> bool)
    ensures Filter([x] + s, keep) == (if keep(x) then [x] else []) + Filter(s, keep)
  {
    FilterAppend([x], s, keep);
    assert [x][..0] == [];
  }

  /** A second, stricter filter makes the first one redundant. */
  lemma {:induction false} FilterFilter<T>(s: seq<T>, first: T -> bool, second: T -> bool)
    requires forall x :: second(x) ==> first(x)
    ensures Filter(Filter(s, first), second) == Filter(s, second)
    decreases |s|
  {
    if s != [] {
      var p, last := s[..|s| - 1], s[|s| - 1];
      FilterFilter(p, first, second);
      FilterAppend(Filter(p, first), if first(last) then [last] else [], second);
      assert [last][..0] == [];
    }
  }

  predicate Distinct<T(==)>(s: seq<T>)
  {
    forall i, j :: 0 <= i < j < |s| ==> s[i] != s[j]
  }

  /** A filter of a duplicate-free sequence is duplicate-free. */
  lemma {:induction false} FilterDistinct<T>(s: seq<T>, keep: T -> bool)
    requires Distinct(s)
    ensures Distinct(Filter(s, keep))
    decreases |s|
  {
    if s != [] {
      var p := s[..|s| - 1];
      FilterDistinct(p, keep);
      var last := s[|s| - 1];
      assert last !in p;
      assert last !in Filter(p, keep);
    }
  }

  /** A filter keeps the relative order of what it keeps: any relation that holds
      between every earlier and later element of `s` holds in the result too. */
  lemma {:induction false} FilterOrdered<T>(s: seq<T>, keep: T -> bool, before: (T, T) -> bool)
    requires forall i, j :: 0 <= i < j < |s| ==> before(s[i], s[j])
    ensures forall i, j :: 0 <= i < j < |Filter(s, keep)| ==> before(Filter(s, keep)[i], Filter(s, keep)[j])
    decreases |s|
  {
    if s != [] {
      var p := s[..|s| - 1];
      FilterOrdered(p, keep, before);
      var last := s[|s| - 1];
      var fp := Filter(p, keep);
      forall k | 0 <= k < |fp| ensures before(fp[k], last) {
        var i :| 0 <= i < |p| && p[i] == fp[k];
        assert s[i] == fp[k];
      }
      var r := Filter(s, keep);
      assert r == fp + (if keep(last) then [last] else []);
      forall i, j | 0 <= i < j < |r| ensures before(r[i], r[j]) {
        if j < |fp| {
          assert r[i] == fp[i] && r[j] == fp[j];
          assert before(fp[i], fp[j]);
        } else {
          assert r[i] == fp[i] && r[j] == last;
        }
      }
    }
  }

  /** `slice().reverse()`: a fresh sequence with the elements in opposite order. */
  function Reverse<T>(s: seq<T>): (r: seq<T>)
    ensures |r| == |s|
    ensures forall i :: 0 <= i < |s| ==> r[i] == s[|s| - 1 - i]
    decreases |s|
  {
    if s == [] then [] else [s[|s| - 1]] + Reverse(s[..|s| - 1])
  }

  lemma ReverseInvolution<T>(s: seq<T>)
    ensures Reverse(Reverse(s)) == s
  {
    var r := Reverse(Reverse(s));
    assert |r| == |s|;
    forall i | 0 <= i < |s| ensures r[i] == s[i] {
      assert Reverse(s)[|s| - 1 - i] == s[i];
    }
  }

  /** All the strings of `ss` joined with nothing between them. */
  function Concat(ss: seq<string>): string
    decreases |ss|
  {
    if ss == [] then "" else ss[0] + Concat(ss[1..])
  }

  lemma ConcatSingle(s: string)
    ensures Concat([s]) == s
  {
    assert Concat([s]) == s + Concat([]);
    assert s + "" == s;
  }

  lemma {:induction false} ConcatAppend(a: seq<string>, b: seq<string>)
    ensures Concat(a + b) == Concat(a) + Concat(b)
    decreases |a|
  {
    if a == [] {
      assert a + b == b;
    } else {
      assert (a + b)[1..] == a[1..] + b;
      ConcatAppend(a[1..], b);
    }
  }
}
