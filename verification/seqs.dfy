/** Sequence helpers shared by the scheduling modules. */
module Seqs {

  /** The set of elements of a sequence (Python's `set(xs)`). */
  function Elems<T(!new)>(s: seq<T>): (r: set<T>)
    ensures forall x :: x in r <==> x in s
  {
    set x | x in s
  }

  /** No element occurs twice. */
  predicate Distinct<T(==)>(s: seq<T>) {
    forall i, j :: 0 <= i < j < |s| ==> s[i] != s[j]
  }

  /** `x` occurs somewhere in `s` before an occurrence of `y`. */
  ghost predicate OccursBefore<T>(s: seq<T>, x: T, y: T) {
    exists i, j :: 0 <= i < j < |s| && s[i] == x && s[j] == y
  }

  /** Any two elements of `r` appear in `s` in the same relative order. */
  ghost predicate KeepsOrder<T>(r: seq<T>, s: seq<T>) {
    forall i, j :: 0 <= i < j < |r| ==> OccursBefore(s, r[i], r[j])
  }

  /** Dropping the head of `s` loses no order that `r` relies on. */
  lemma KeepsOrderTail<T>(r: seq<T>, s: seq<T>)
    requires |s| > 0 && KeepsOrder(r, s[1..])
    ensures KeepsOrder(r, s)
  {
    forall i, j | 0 <= i < j < |r| ensures OccursBefore(s, r[i], r[j]) {
      var i', j' :| 0 <= i' < j' < |s[1..]| && s[1..][i'] == r[i] && s[1..][j'] == r[j];
      assert s[i' + 1] == r[i] && s[j' + 1] == r[j];
    }
  }

  /** Putting the head of `s` in front of a sequence drawn from the rest of
      `s` in order keeps the order. */
  lemma KeepsOrderCons<T>(r: seq<T>, s: seq<T>)
    requires |s| > 0 && KeepsOrder(r, s[1..])
    requires forall x :: x in r ==> x in s[1..]
    ensures KeepsOrder([s[0]] + r, s)
  {
    var r' := [s[0]] + r;
    forall i, j | 0 <= i < j < |r'| ensures OccursBefore(s, r'[i], r'[j]) {
      if i == 0 {
        assert r'[j] == r[j - 1] && r[j - 1] in s[1..];
        var j' :| 0 <= j' < |s[1..]| && s[1..][j'] == r[j - 1];
        assert s[0] == r'[0] && s[j' + 1] == r'[j];
      } else {
        assert r'[i] == r[i - 1] && r'[j] == r[j - 1];
        var i', j' :| 0 <= i' < j' < |s[1..]| && s[1..][i'] == r[i - 1] && s[1..][j'] == r[j - 1];
        assert s[i' + 1] == r'[i] && s[j' + 1] == r'[j];
      }
    }
  }

  /** Every sequence keeps its own order. */
  lemma KeepsOrderSelf<T>(s: seq<T>)
    ensures KeepsOrder(s, s)
  {
    forall i, j | 0 <= i < j < |s| ensures OccursBefore(s, s[i], s[j]) {
      assert s[i] == s[i] && s[j] == s[j];
    }
  }

  /** The elements of `s` that satisfy `keep`, in their original order
      (a list comprehension with an `if`). */
  function Filter<T(!new)>(s: seq<T>, keep: T -> bool): (r: seq<T>)
    ensures forall x :: x in r <==> x in s && keep(x)
    ensures |r| <= |s|
    ensures Distinct(s) ==> Distinct(r)
    ensures KeepsOrder(r, s)
  {
    if |s| == 0 then []
    else
      var rest := Filter(s[1..], keep);
      if keep(s[0]) then
        KeepsOrderCons(rest, s);
        [s[0]] + rest
      else
        KeepsOrderTail(rest, s);
        rest
  }

  /** A filter every element passes returns the sequence unchanged. */
  lemma {:induction false} FilterKeepsAll<T(!new)>(s: seq<T>, keep: T -> bool)
    requires forall x :: x in s ==> keep(x)
    ensures Filter(s, keep) == s
  {
    if |s| > 0 {
      assert s == [s[0]] + s[1..];
      assert keep(s[0]);
      FilterKeepsAll(s[1..], keep);
      assert Filter(s, keep) == [s[0]] + Filter(s[1..], keep);
    }
  }

  /** `n` copies of `x`. */
  function Repeat<T>(x: T, n: nat): (r: seq<T>)
    ensures |r| == n
    ensures forall i :: 0 <= i < n ==> r[i] == x
  {
    if n == 0 then [] else [x] + Repeat(x, n - 1)
  }

  /** In a sequence without repetitions every element occurs once. */
  lemma {:induction false} DistinctMultiplicity<T>(s: seq<T>, x: T)
    requires Distinct(s)
    ensures multiset(s)[x] == if x in s then 1 else 0
  {
    if |s| > 0 {
      assert s == [s[0]] + s[1..];
      assert Distinct(s[1..]) by {
        forall i, j | 0 <= i < j < |s[1..]| ensures s[1..][i] != s[1..][j] {
          assert s[1..][i] == s[i + 1] && s[1..][j] == s[j + 1];
        }
      }
      DistinctMultiplicity(s[1..], x);
      if x == s[0] {
        assert x !in s[1..] by {
          forall j | 0 <= j < |s[1..]| ensures s[1..][j] != x {
            assert s[1..][j] == s[j + 1];
          }
        }
      }
    }
  }

  /** Two repetition-free sequences over the same elements are permutations of each other. */
  lemma DistinctSameElements<T>(a: seq<T>, b: seq<T>)
    requires Distinct(a) && Distinct(b)
    requires forall x :: x in a <==> x in b
    ensures multiset(a) == multiset(b)
  {
    forall x ensures multiset(a)[x] == multiset(b)[x] {
      DistinctMultiplicity(a, x);
      DistinctMultiplicity(b, x);
    }
  }

  /** An element counted at least twice sits at two different positions. */
  lemma {:induction false} TwoPositions<T>(s: seq<T>, x: T) returns (i: nat, j: nat)
    requires multiset(s)[x] >= 2
    ensures i < j < |s| && s[i] == x && s[j] == x
  {
    assert s == [s[0]] + s[1..];
    if s[0] == x {
      assert x in multiset(s[1..]);
      var j' :| 0 <= j' < |s[1..]| && s[1..][j'] == x;
      i, j := 0, j' + 1;
    } else {
      var i', j' := TwoPositions(s[1..], x);
      i, j := i' + 1, j' + 1;
    }
  }

  /** Conversely, two different positions holding `x` count it at least twice. */
  lemma TwoPositionsCount<T>(s: seq<T>, x: T, i: nat, j: nat)
    requires i < j < |s| && s[i] == x && s[j] == x
    ensures multiset(s)[x] >= 2
  {
    assert s == s[..j] + s[j..];
    assert s[..j][i] == x;
    assert multiset(s[..j])[x] >= 1;
    assert s[j..][0] == x;
    assert multiset(s[j..])[x] >= 1;
  }

  /** A sequence of length at most one holds at most one element, once. */
  lemma ShortSequence<T>(s: seq<T>, x: T, y: T)
    requires |s| <= 1 && x in s && y in s
    ensures x == y && multiset(s)[x] == 1
  {
    assert s == [s[0]];
  }

  lemma ElemsAppend<T(!new)>(a: seq<T>, b: seq<T>)
    ensures Elems(a + b) == Elems(a) + Elems(b)
  {
    forall x ensures x in a + b <==> x in a || x in b {
    }
  }

  /** Counting `x` in a non-empty sequence: the head, then the rest. */
  lemma MultisetHead<T>(s: seq<T>, x: T)
    requires |s| > 0
    ensures multiset(s)[x] == (if x == s[0] then 1 else 0) + multiset(s[1..])[x]
  {
    assert s == [s[0]] + s[1..];
  }

  /** Appending one more copy before a run of copies lengthens the run. */
  lemma AppendRepeat<T>(s: seq<T>, x: T, n: nat)
    ensures (s + [x]) + Repeat(x, n) == s + Repeat(x, n + 1)
  {
    assert Repeat(x, n + 1) == [x] + Repeat(x, n);
  }

  /** A prefix of a prefix is a prefix. */
  lemma PrefixTrans<T>(r: seq<T>, a: seq<T>, b: seq<T>)
    requires |b| <= |r| && r[..|b|] == b
    requires |a| <= |b| && b[..|a|] == a
    ensures |a| <= |r| && r[..|a|] == a
  {
    assert r[..|a|] == r[..|b|][..|a|];
  }

  /** A repetition-free sequence has as many elements as positions. */
  lemma {:induction false} DistinctElemsCard<T(!new)>(s: seq<T>)
    requires Distinct(s)
    ensures |Elems(s)| == |s|
  {
    if |s| > 0 {
      var t := s[..|s| - 1];
      assert Distinct(t);
      DistinctElemsCard(t);
      assert s == t + [s[|s| - 1]];
      assert Elems(s) == Elems(t) + {s[|s| - 1]};
      assert s[|s| - 1] !in Elems(t);
    }
  }
}
