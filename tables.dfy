/**
 * Row-level operations shared by every table of the pipeline: boolean-mask row
 * selection (pandas `df[mask]`, `df.loc[mask]`, `dropna`), column projection,
 * and the order-preserving subsequence relation that states "rows keep their
 * relative order and their contents".
 */
module Tables {

  /** `a` can be obtained from `b` by deleting elements, without reordering. */
  predicate IsSubsequence<T(==)>(a: seq<T>, b: seq<T>)
  {
    a == [] || (b != [] && if a[0] == b[0] then IsSubsequence(a[1..], b[1..]) else IsSubsequence(a, b[1..]))
  }

  lemma {:induction false} SubsequenceOfTailWithoutHead<T>(a: seq<T>, c: seq<T>)
    requires a != [] && IsSubsequence(a, c)
    ensures IsSubsequence(a[1..], c)
    decreases |c|, 1
  {
    if a[0] == c[0] {
      SubsequenceExtend(a[1..], c[1..], c[0]);
    } else {
      SubsequenceOfTailWithoutHead(a, c[1..]);
      SubsequenceExtend(a[1..], c[1..], c[0]);
    }
  }

  /** Putting one more element in front of the larger sequence keeps the relation. */
  lemma {:induction false} SubsequenceExtend<T>(a: seq<T>, b: seq<T>, x: T)
    requires IsSubsequence(a, b)
    ensures IsSubsequence(a, [x] + b)
    decreases |b| + 1, 0
  {
    var xb := [x] + b;
    assert xb[1..] == b;
    if a != [] && a[0] == x {
      SubsequenceOfTailWithoutHead(a, b);
    }
  }

  lemma {:induction false} SubsequenceReflexive<T>(a: seq<T>)
    ensures IsSubsequence(a, a)
  {
    if a != [] {
      SubsequenceReflexive(a[1..]);
    }
  }

  /**
   * Keeps the rows on which `keep` holds, in their original order
   * (a boolean-mask selection).
   */
  function KeepWhere<R(!new)>(rows: seq<R>, keep: R -> bool): (kept: seq<R>)
    ensures |kept| <= |rows|
    ensures forall r :: r in kept <==> r in rows && keep(r)
    ensures (forall r :: r in rows ==> keep(r)) ==> kept == rows
    ensures (forall r :: r in rows ==> !keep(r)) ==> kept == []
  {
    if rows == [] then []
    else (if keep(rows[0]) then [rows[0]] else []) + KeepWhere(rows[1..], keep)
  }

  /** Selection decides the first row on its own and continues with the rest. */
  lemma KeepWhereCons<R(!new)>(x: R, rows: seq<R>, keep: R -> bool)
    ensures KeepWhere([x] + rows, keep) == (if keep(x) then [x] else []) + KeepWhere(rows, keep)
  {
    assert ([x] + rows)[0] == x && ([x] + rows)[1..] == rows;
  }

  /** A kept first row stays first. */
  lemma KeepWhereHead<R(!new)>(rows: seq<R>, keep: R -> bool)
    requires rows != [] && keep(rows[0])
    ensures KeepWhere(rows, keep) != [] && KeepWhere(rows, keep)[0] == rows[0]
  {
  }

  /** A selection preserves the relative order and the contents of the rows it keeps. */
  lemma {:induction false} KeepWhereIsSubsequence<R(!new)>(rows: seq<R>, keep: R -> bool)
    ensures IsSubsequence(KeepWhere(rows, keep), rows)
  {
    if rows != [] {
      var tail := KeepWhere(rows[1..], keep);
      KeepWhereIsSubsequence(rows[1..], keep);
      if keep(rows[0]) {
        assert KeepWhere(rows, keep) == [rows[0]] + tail;
        assert ([rows[0]] + tail)[1..] == tail;
      } else {
        assert KeepWhere(rows, keep) == tail;
        SubsequenceExtend(tail, rows[1..], rows[0]);
        assert [rows[0]] + rows[1..] == rows;
      }
    }
  }

  /** Selecting twice with two masks is selecting once with their conjunction. */
  lemma {:induction false} KeepWhereFuse<R(!new)>(rows: seq<R>, p: R -> bool, q: R -> bool)
    ensures KeepWhere(KeepWhere(rows, p), q) == KeepWhere(rows, r => p(r) && q(r))
  {
    if rows != [] {
      KeepWhereFuse(rows[1..], p, q);
      var tail := KeepWhere(rows[1..], p);
      if p(rows[0]) {
        assert KeepWhere(rows, p) == [rows[0]] + tail;
        assert ([rows[0]] + tail)[1..] == tail;
      } else {
        assert KeepWhere(rows, p) == tail;
      }
    }
  }

  /** Two selections commute: the order in which masks are applied does not matter. */
  lemma KeepWhereCommute<R(!new)>(rows: seq<R>, p: R -> bool, q: R -> bool)
    ensures KeepWhere(KeepWhere(rows, p), q) == KeepWhere(KeepWhere(rows, q), p)
  {
    KeepWhereFuse(rows, p, q);
    KeepWhereFuse(rows, q, p);
    KeepWhereSameMask(rows, r => p(r) && q(r), r => q(r) && p(r));
  }

  /** Selections with masks that agree on every row are equal. */
  lemma {:induction false} KeepWhereSameMask<R(!new)>(rows: seq<R>, p: R -> bool, q: R -> bool)
    requires forall r :: r in rows ==> p(r) == q(r)
    ensures KeepWhere(rows, p) == KeepWhere(rows, q)
  {
    if rows != [] {
      KeepWhereSameMask(rows[1..], p, q);
    }
  }

  /** Applies `f` to every element, in order (a column projection or a row-wise derivation). */
  function MapSeq<A, B>(s: seq<A>, f: A --> B): (r: seq<B>)
    requires forall x :: x in s ==> f.requires(x)
    ensures |r| == |s|
    ensures forall i :: 0 <= i < |s| ==> r[i] == f(s[i])
  {
    if s == [] then [] else [f(s[0])] + MapSeq(s[1..], f)
  }

  lemma MapSeqCons<A, B>(x: A, s: seq<A>, f: A --> B)
    requires f.requires(x) && forall y :: y in s ==> f.requires(y)
    ensures MapSeq([x] + s, f) == [f(x)] + MapSeq(s, f)
  {
    assert ([x] + s)[1..] == s;
  }

  /** Projecting both sides of a subsequence keeps it a subsequence. */
  lemma {:induction false} SubsequenceMap<A, B>(a: seq<A>, b: seq<A>, f: A -> B)
    requires IsSubsequence(a, b)
    ensures IsSubsequence(MapSeq(a, f), MapSeq(b, f))
  {
    if a != [] {
      var fa, fb := MapSeq(a, f), MapSeq(b, f);
      assert fa[1..] == MapSeq(a[1..], f);
      assert fb[1..] == MapSeq(b[1..], f);
      if a[0] == b[0] {
        SubsequenceMap(a[1..], b[1..], f);
        if fa[0] != fb[0] {
          assert false;
        }
      } else {
        SubsequenceMap(a, b[1..], f);
        if fa[0] == fb[0] {
          SubsequenceOfTailWithoutHead(fa, fb[1..]);
        }
      }
    }
  }
}
