/**
 Duplicate elimination over a table held as a sequence of rows, the meaning of
 Spark's `DataFrame.distinct()`: two rows are duplicates exactly when they are
 equal in every column, and SQL nulls (`None`) compare equal to each other for
 this purpose.
 */
module Dedup {

  /** No row occurs twice. */
  predicate NoDup<T(==,!new)>(s: seq<T>) {
    forall i, j :: 0 <= i < j < |s| ==> s[i] != s[j]
  }

  /** Every element of `s` is also an element of `t`. */
  predicate SubsetOf<T(==,!new)>(s: seq<T>, t: seq<T>) {
    forall x :: x in s ==> x in t
  }

  /** Removes later copies of every row, keeping each first occurrence. */
  function Distinct<T(==,!new)>(s: seq<T>): (r: seq<T>)
    ensures NoDup(r)
    ensures forall x :: x in r <==> x in s
    ensures |r| <= |s|
    decreases |s|
  {
    if |s| == 0 then []
    else
      var d := Distinct(s[..|s| - 1]);
      if s[|s| - 1] in d then d else d + [s[|s| - 1]]
  }

  /** The column projection `select(...)`: applies `f` to every row. */
  function Project<A(!new), B(==,!new)>(f: A -> B, s: seq<A>): (r: seq<B>)
    ensures |r| == |s|
    ensures forall i :: 0 <= i < |s| ==> r[i] == f(s[i])
    ensures forall b :: b in r <==> exists a :: a in s && f(a) == b
  {
    var p := seq(|s|, i requires 0 <= i < |s| => f(s[i]));
    assert forall b :: b in p <==> exists a :: a in s && f(a) == b by {
      forall b
        ensures b in p <==> exists a :: a in s && f(a) == b
      {
        if b in p {
          var i :| 0 <= i < |p| && p[i] == b;
          assert s[i] in s;
        }
        if exists a :: a in s && f(a) == b {
          var a :| a in s && f(a) == b;
          var i :| 0 <= i < |s| && s[i] == a;
          assert p[i] == b;
        }
      }
    }
    p
  }

  /** `select(...).distinct()`: the duplicate-free projection of a table. */
  function DistinctProjection<A(!new), B(==,!new)>(f: A -> B, s: seq<A>): (r: seq<B>)
    ensures NoDup(r)
    ensures forall b :: b in r <==> exists a :: a in s && f(a) == b
  {
    Distinct(Project(f, s))
  }

  /** Projecting a concatenation is concatenating the projections. */
  lemma ProjectAppend<A(!new), B(!new)>(f: A -> B, s: seq<A>, t: seq<A>)
    ensures Project(f, s + t) == Project(f, s) + Project(f, t)
  {
  }

  /** Projecting one more element appends its image. */
  lemma ProjectSnoc<A(!new), B(!new)>(f: A -> B, s: seq<A>, x: A)
    ensures Project(f, s + [x]) == Project(f, s) + [f(x)]
  {
    ProjectAppend(f, s, [x]);
  }

  /** If every row of `extra` is a row of `s`, so is every projection of one. */
  lemma ProjectSubset<A(!new), B(!new)>(f: A -> B, s: seq<A>, extra: seq<A>)
    requires SubsetOf(extra, s)
    ensures SubsetOf(Project(f, extra), Project(f, s))
  {
    forall b | b in Project(f, extra) ensures b in Project(f, s) {
      var i :| 0 <= i < |extra| && Project(f, extra)[i] == b;
      assert extra[i] in extra;
      var j :| 0 <= j < |s| && s[j] == extra[i];
      assert Project(f, s)[j] == b;
    }
  }

  /** A duplicate-free table holds each of its rows exactly once. */
  lemma {:induction false} NoDupCount<T(!new)>(s: seq<T>, x: T)
    requires NoDup(s)
    ensures multiset(s)[x] == if x in s then 1 else 0
    decreases |s|
  {
    if |s| > 0 {
      var t := s[..|s| - 1];
      assert s == t + [s[|s| - 1]];
      assert NoDup(t);
      NoDupCount(t, x);
      assert s[|s| - 1] !in t by {
        forall i | 0 <= i < |t| ensures t[i] != s[|s| - 1] {
          assert t[i] == s[i];
        }
      }
    }
  }

  /** Deduplicating a table that has no duplicates leaves it as it is. */
  lemma {:induction false} DistinctOfNoDup<T(!new)>(s: seq<T>)
    requires NoDup(s)
    ensures Distinct(s) == s
    decreases |s|
  {
    if |s| > 0 {
      var t := s[..|s| - 1];
      assert NoDup(t);
      DistinctOfNoDup(t);
      assert s[|s| - 1] !in t by {
        forall i | 0 <= i < |t| ensures t[i] != s[|s| - 1] {
          assert t[i] == s[i];
        }
      }
      assert s == t + [s[|s| - 1]];
    }
  }

  /** `distinct()` applied twice is `distinct()` applied once. */
  lemma DistinctIdempotent<T(!new)>(s: seq<T>)
    ensures Distinct(Distinct(s)) == Distinct(s)
  {
    DistinctOfNoDup(Distinct(s));
  }

  /** Appending rows that are already present (exact duplicates) does not change the result. */
  lemma {:induction false} DistinctAbsorbsDuplicates<T(!new)>(s: seq<T>, extra: seq<T>)
    requires SubsetOf(extra, s)
    ensures Distinct(s + extra) == Distinct(s)
    decreases |extra|
  {
    if |extra| == 0 {
      assert s + extra == s;
    } else {
      var rest := extra[..|extra| - 1];
      var x := extra[|extra| - 1];
      assert SubsetOf(rest, s) by {
        forall y | y in rest ensures y in s {
          assert y in extra;
        }
      }
      DistinctAbsorbsDuplicates(s, rest);
      assert (s + extra)[..|s + extra| - 1] == s + rest;
      assert (s + extra)[|s + extra| - 1] == x;
      assert x in s;
    }
  }

  /**
   The result depends only on the SET of input rows: inputs holding the same
   rows, in any order and with any repetition, deduplicate to the same
   multiset of rows (each present row exactly once).
   */
  lemma DistinctOrderIrrelevant<T(!new)>(s: seq<T>, t: seq<T>)
    requires forall x :: x in s <==> x in t
    ensures multiset(Distinct(s)) == multiset(Distinct(t))
  {
    forall x
      ensures multiset(Distinct(s))[x] == multiset(Distinct(t))[x]
    {
      NoDupCount(Distinct(s), x);
      NoDupCount(Distinct(t), x);
    }
  }
}
