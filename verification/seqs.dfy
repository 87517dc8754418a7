/** Counting and distinctness over sequences, used by the network and the aggregation. */
module Seqs {

  /** Number of occurrences of `x` in `s`. */
  function Count<T(==)>(s: seq<T>, x: T): (n: nat)
    ensures n <= |s|
    ensures n > 0 <==> x in s
  {
    if |s| == 0 then 0 else (if s[0] == x then 1 else 0) + Count(s[1..], x)
  }

  /** `n` copies of `x`. */
  function Repeat<T>(x: T, n: nat): (s: seq<T>)
    ensures |s| == n
    ensures forall i :: 0 <= i < n ==> s[i] == x
  {
    seq(n, _ => x)
  }

  /** No element occurs twice. */
  predicate Distinct<T(==)>(s: seq<T>) {
    forall i, j :: 0 <= i < j < |s| ==> s[i] != s[j]
  }

  /** `r` is `s` with some elements left out: the rest keep their order. */
  predicate Subsequence<T(==)>(r: seq<T>, s: seq<T>)
    decreases |s|
  {
    if |r| == 0 then true
    else if |s| == 0 then false
    else (r[0] == s[0] && Subsequence(r[1..], s[1..])) || Subsequence(r, s[1..])
  }

  /** `s` read back to front. */
  function Reverse<T>(s: seq<T>): (r: seq<T>)
    ensures |r| == |s|
    ensures forall i :: 0 <= i < |s| ==> r[i] == s[|s| - 1 - i]
  {
    seq(|s|, i requires 0 <= i < |s| => s[|s| - 1 - i])
  }

  lemma ReverseAt<T>(s: seq<T>, k: nat)
    requires k < |s|
    ensures Reverse(s)[|s| - 1 - k] == s[k]
  {
  }

  lemma InPrefix<T>(s: seq<T>, k: nat, i: nat)
    requires k < i <= |s|
    ensures s[k] in s[..i]
  {
    assert s[..i][k] == s[k];
  }

  lemma ReverseDistinct<T>(s: seq<T>)
    requires Distinct(s)
    ensures Distinct(Reverse(s))
  {
  }

  /** Number of entries of `s` that are not members of `done`. */
  function CountOutside<T(==)>(s: seq<T>, done: set<T>): (n: nat)
    ensures n <= |s|
    ensures done == {} ==> n == |s|
  {
    if |s| == 0 then 0
    else (if s[0] in done then 0 else 1) + CountOutside(s[1..], done)
  }

  /** Nothing is outstanding exactly when every entry is in `done`. */
  lemma {:induction false} CountOutsideZero<T>(s: seq<T>, done: set<T>)
    ensures CountOutside(s, done) == 0 <==> forall i :: 0 <= i < |s| ==> s[i] in done
  {
    if |s| > 0 {
      CountOutsideZero(s[1..], done);
      if CountOutside(s, done) == 0 {
        assert forall i :: 1 <= i < |s| ==> s[i] == s[1..][i - 1];
      }
    }
  }

  lemma {:induction false} CountConcat<T>(a: seq<T>, b: seq<T>, x: T)
    ensures Count(a + b, x) == Count(a, x) + Count(b, x)
  {
    if |a| == 0 {
      assert a + b == b;
    } else {
      assert (a + b)[1..] == a[1..] + b;
      CountConcat(a[1..], b, x);
    }
  }

  lemma {:induction false} CountRepeat<T>(y: T, n: nat, x: T)
    ensures Count(Repeat(y, n), x) == if x == y then n else 0
  {
    if n > 0 {
      assert Repeat(y, n)[1..] == Repeat(y, n - 1);
      CountRepeat(y, n - 1, x);
    }
  }

  lemma SliceSnoc<T>(s: seq<T>, k: nat)
    requires k < |s|
    ensures s[..k + 1] == s[..k] + [s[k]]
  {
  }

  /** Count on a one-element extension at the end. */
  lemma CountSnoc<T>(s: seq<T>, y: T, x: T)
    ensures Count(s + [y], x) == Count(s, x) + (if x == y then 1 else 0)
  {
    CountConcat(s, [y], x);
    assert [y][1..] == [];
  }

  /** Moving `u` into the processed set removes exactly its occurrences from the outstanding count. */
  lemma {:induction false} CountOutsideAdd<T>(s: seq<T>, done: set<T>, u: T)
    requires u !in done
    ensures CountOutside(s, done) == CountOutside(s, done + {u}) + Count(s, u)
  {
    if |s| > 0 {
      CountOutsideAdd(s[1..], done, u);
    }
  }

  /** A sequence longer than the set it draws from repeats an element. */
  lemma {:induction false} Pigeonhole<T>(c: seq<T>, s: set<T>)
    requires forall i :: 0 <= i < |c| ==> c[i] in s
    requires |c| > |s|
    ensures exists i, j :: 0 <= i < j < |c| && c[i] == c[j]
  {
    var x := c[|c| - 1];
    var init := c[..|c| - 1];
    if x in init {
      var i :| 0 <= i < |init| && init[i] == x;
      assert c[i] == c[|c| - 1];
    } else {
      assert forall i :: 0 <= i < |init| ==> init[i] in s - {x};
      assert |s - {x}| == |s| - 1;
      Pigeonhole(init, s - {x});
      var i, j :| 0 <= i < j < |init| && init[i] == init[j];
      assert c[i] == c[j];
    }
  }
}
