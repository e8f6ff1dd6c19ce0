/** Laws of concatenation, stated once so that proofs elsewhere rewrite with them
    instead of comparing sequences element by element. */
module Seqs {

  lemma Assoc<T>(a: seq<T>, b: seq<T>, c: seq<T>)
    ensures (a + b) + c == a + (b + c)
  {
  }

  lemma Split<T>(s: seq<T>, n: nat)
    requires n <= |s|
    ensures s[..n] + s[n..] == s
  {
  }

  lemma Parts<T>(a: seq<T>, b: seq<T>)
    ensures (a + b)[..|a|] == a && (a + b)[|a|..] == b
  {
  }

  lemma Empty<T>(a: seq<T>)
    ensures a + [] == a && [] + a == a && a[0..] == a && a[..|a|] == a
  {
  }

  /** Dropping from a concatenation, within its first part. */
  lemma DropLeft<T>(a: seq<T>, b: seq<T>, n: nat)
    requires n <= |a|
    ensures (a + b)[n..] == a[n..] + b && (a + b)[..n] == a[..n]
  {
  }

  lemma DropDrop<T>(s: seq<T>, m: nat, n: nat)
    requires m + n <= |s|
    ensures s[m..][n..] == s[m + n..] && s[m..][..n] == s[m..m + n]
  {
  }

  /** The elements of a sequence. */
  function SetOf<T(==)>(s: seq<T>): set<T> {
    set x | x in s
  }

  predicate Distinct<T(==)>(s: seq<T>) {
    forall i, j :: 0 <= i < j < |s| ==> s[i] != s[j]
  }

  /** A sequence has as many elements as positions exactly when none is repeated. */
  lemma {:induction false} ElementCount<T>(s: seq<T>)
    ensures |SetOf(s)| <= |s|
    ensures Distinct(s) <==> |SetOf(s)| == |s|
  {
    if s != [] {
      var n := |s| - 1;
      var before := s[..n];
      ElementCount(before);
      assert s == before + [s[n]];
      assert SetOf(s) == SetOf(before) + {s[n]};
      if s[n] in before {
        assert SetOf(s) == SetOf(before);
      } else {
        assert Distinct(s) <==> Distinct(before);
      }
    }
  }

  /** The numbers less than n. */
  function Upto(n: nat): (r: set<nat>)
    ensures |r| == n
    ensures forall i: nat :: i in r <==> i < n
  {
    if n == 0 then {} else Upto(n - 1) + {n - 1}
  }
}
