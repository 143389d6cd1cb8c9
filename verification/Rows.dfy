/** Putting one element into a sequence and taking one out. */
module Rows {

  /** The row with x put in at k, described element by element. */
  ghost function Inserted<T>(s: seq<T>, k: nat, x: T): (r: seq<T>)
    requires k <= |s|
    ensures |r| == |s| + 1
    ensures forall p {:trigger r[p]} | 0 <= p <= |s| ::
              r[p] == if p < k then s[p] else if p == k then x else s[p - 1]
  {
    var w := s[..k] + [x] + s[k..];
    assert |w| == |s| + 1 && forall p {:trigger w[p]} | 0 <= p <= |s| ::
             w[p] == if p < k then s[p] else if p == k then x else s[p - 1];
    var r :| |r| == |s| + 1 && forall p {:trigger r[p]} | 0 <= p <= |s| ::
               r[p] == if p < k then s[p] else if p == k then x else s[p - 1];
    r
  }

  /** The row without its element k. */
  ghost function Removed<T>(s: seq<T>, k: nat): (r: seq<T>)
    requires k < |s|
    ensures |r| == |s| - 1
    ensures forall p {:trigger r[p]} | 0 <= p < |s| - 1 :: r[p] == if p < k then s[p] else s[p + 1]
  {
    var w := s[..k] + s[k + 1..];
    assert |w| == |s| - 1 && forall p {:trigger w[p]} | 0 <= p < |s| - 1 :: w[p] == if p < k then s[p] else s[p + 1];
    var r :| |r| == |s| - 1 && forall p {:trigger r[p]} | 0 <= p < |s| - 1 :: r[p] == if p < k then s[p] else s[p + 1];
    r
  }

  lemma InsertedIs<T>(s: seq<T>, k: nat, x: T)
    requires k <= |s|
    ensures Inserted(s, k, x) == s[..k] + [x] + s[k..]
  {
  }

  lemma RemovedIs<T>(s: seq<T>, k: nat)
    requires k < |s|
    ensures Removed(s, k) == s[..k] + s[k + 1..]
  {
  }

  lemma InsertedContents<T>(s: seq<T>, k: nat, x: T)
    requires k <= |s|
    ensures multiset(Inserted(s, k, x)) == multiset(s) + multiset{x}
  {
    InsertedIs(s, k, x);
    assert s == s[..k] + s[k..];
  }

  lemma RemovedContents<T>(s: seq<T>, k: nat)
    requires k < |s|
    ensures multiset(s) == multiset(Removed(s, k)) + multiset{s[k]}
  {
    RemovedIs(s, k);
    assert s == s[..k] + [s[k]] + s[k + 1..];
  }
}
