/** Row-level operations on an ordered table, stated over sequences:
    boolean-mask selection (`df[mask]`), per-row projection (`df[col]`,
    `Series.map`) and the order-preserving subsequence relation. */
module Rows {

  /** `s[mask]` where `mask[i] == p(s[i])`: the rows that pass, in their original order. */
  function Keep<T>(s: seq<T>, p: T -> bool): (r: seq<T>)
    ensures |r| <= |s|
    ensures forall i :: 0 <= i < |r| ==> p(r[i])
    ensures forall x :: x in r ==> x in s
  {
    if s == [] then []
    else (if p(s[0]) then [s[0]] else []) + Keep(s[1..], p)
  }

  /** Every selected row passes the mask. */
  lemma KeepMembers<T>(s: seq<T>, p: T -> bool)
    ensures forall x :: x in Keep(s, p) ==> p(x)
  {
    var r := Keep(s, p);
    forall x | x in r ensures p(x) {
      var i :| 0 <= i < |r| && r[i] == x;
    }
  }

  /** Applies `f` to every row, keeping length and order. */
  function Project<T, U>(s: seq<T>, f: T -> U): (r: seq<U>)
    ensures |r| == |s|
    ensures forall i :: 0 <= i < |s| ==> r[i] == f(s[i])
  {
    if s == [] then [] else [f(s[0])] + Project(s[1..], f)
  }

  /** `a` is obtained from `b` by deleting some elements, without reordering the rest. */
  predicate IsSubseq<T(==)>(a: seq<T>, b: seq<T>)
    decreases |b|
  {
    if a == [] then true
    else if b == [] then false
    else (a[0] == b[0] && IsSubseq(a[1..], b[1..])) || IsSubseq(a, b[1..])
  }

  /** Selection is exact, counting duplicates: a row occurs in the result as often
      as in the input when it passes the mask, and not at all otherwise. */
  lemma {:induction false} KeepMultiset<T>(s: seq<T>, p: T -> bool)
    ensures forall x :: multiset(Keep(s, p))[x] == if p(x) then multiset(s)[x] else 0
  {
    if s != [] {
      KeepMultiset(s[1..], p);
      assert s == [s[0]] + s[1..];
    }
  }

  /** Selection only removes rows: the result is an order-preserving subsequence. */
  lemma {:induction false} KeepSubseq<T>(s: seq<T>, p: T -> bool)
    ensures IsSubseq(Keep(s, p), s)
  {
    if s != [] {
      KeepSubseq(s[1..], p);
      var rest := Keep(s[1..], p);
      if p(s[0]) {
        assert Keep(s, p) == [s[0]] + rest;
        assert Keep(s, p)[1..] == rest;
      } else {
        assert Keep(s, p) == rest;
      }
    }
  }

  /** A mask every row passes keeps the table as it is. */
  lemma {:induction false} KeepAll<T>(s: seq<T>, p: T -> bool)
    requires forall i :: 0 <= i < |s| ==> p(s[i])
    ensures Keep(s, p) == s
  {
    if s != [] {
      KeepAll(s[1..], p);
      assert s == [s[0]] + s[1..];
    }
  }

  /** A mask no row passes leaves nothing. */
  lemma {:induction false} KeepNone<T>(s: seq<T>, p: T -> bool)
    requires forall i :: 0 <= i < |s| ==> !p(s[i])
    ensures Keep(s, p) == []
  {
    if s != [] {
      KeepNone(s[1..], p);
    }
  }

  /** Two masks that agree on every row select the same rows. */
  lemma {:induction false} KeepExt<T>(s: seq<T>, p: T -> bool, q: T -> bool)
    requires forall i :: 0 <= i < |s| ==> p(s[i]) == q(s[i])
    ensures Keep(s, p) == Keep(s, q)
  {
    if s != [] {
      KeepExt(s[1..], p, q);
    }
  }

  /** Selecting twice is selecting once with the conjunction of the masks. */
  lemma {:induction false} KeepKeep<T>(s: seq<T>, p: T -> bool, q: T -> bool, both: T -> bool)
    requires forall i :: 0 <= i < |s| ==> both(s[i]) == (p(s[i]) && q(s[i]))
    ensures Keep(Keep(s, p), q) == Keep(s, both)
  {
    if s != [] {
      KeepKeep(s[1..], p, q, both);
      var rest := Keep(s[1..], p);
      if p(s[0]) {
        assert Keep(s, p) == [s[0]] + rest;
        assert Keep(s, p)[1..] == rest;
      } else {
        assert Keep(s, p) == rest;
      }
    }
  }

  /** Selection of a table with one more row at the end. */
  lemma {:induction false} KeepSnoc<T>(s: seq<T>, x: T, p: T -> bool)
    ensures Keep(s + [x], p) == Keep(s, p) + (if p(x) then [x] else [])
  {
    if s == [] {
      assert [x][1..] == [];
    } else {
      KeepSnoc(s[1..], x, p);
      assert (s + [x])[1..] == s[1..] + [x];
    }
  }

  /** Selecting on a derived column is deriving the column of the selected rows. */
  lemma {:induction false} KeepProject<T, U>(s: seq<T>, f: T -> U, q: U -> bool, qf: T -> bool)
    requires forall i :: 0 <= i < |s| ==> qf(s[i]) == q(f(s[i]))
    ensures Keep(Project(s, f), q) == Project(Keep(s, qf), f)
  {
    if s != [] {
      KeepProject(s[1..], f, q, qf);
      assert Project(s, f)[1..] == Project(s[1..], f);
    }
  }

  /** The number of occurrences of `x` is the number of rows that `eq` finds equal to `x`. */
  lemma {:induction false} OccurrencesAsKeep<T>(s: seq<T>, x: T, eq: T -> bool)
    requires forall i :: 0 <= i < |s| ==> eq(s[i]) == (s[i] == x)
    ensures multiset(s)[x] == |Keep(s, eq)|
  {
    if s != [] {
      OccurrencesAsKeep(s[1..], x, eq);
      assert s == [s[0]] + s[1..];
    }
  }

  /** Occurrences of `v` in a derived column are the rows whose derived value is `v`. */
  lemma ProjectOccurrences<T, U>(s: seq<T>, f: T -> U, v: U, fv: T -> bool)
    requires forall i :: 0 <= i < |s| ==> fv(s[i]) == (f(s[i]) == v)
    ensures multiset(Project(s, f))[v] == |Keep(s, fv)|
  {
    var eq := y => y == v;
    OccurrencesAsKeep(Project(s, f), v, eq);
    KeepProject(s, f, eq, fv);
  }

  /** Selection distributes over concatenation. */
  lemma {:induction false} KeepAppend<T>(a: seq<T>, b: seq<T>, p: T -> bool)
    ensures Keep(a + b, p) == Keep(a, p) + Keep(b, p)
    decreases |b|
  {
    if b == [] {
      assert a + b == a;
    } else {
      var init, x := b[..|b| - 1], b[|b| - 1];
      assert b == init + [x];
      assert a + b == (a + init) + [x];
      KeepAppend(a, init, p);
      KeepSnoc(a + init, x, p);
      KeepSnoc(init, x, p);
    }
  }
}
