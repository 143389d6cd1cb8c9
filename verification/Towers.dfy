/** The weighted-least-connection skip list seen as a value: a row of towers, the header
    at index 0, the level-0 order after it.  Level i of the list is the subsequence of the
    towers higher than i, so one function, `Next`, gives every forward pointer. */
module Towers {
  import opened Rows

  datatype Key = Key(wlc: int, id: nat)

  datatype Tower = Tower(key: Key, height: nat)

  /** The two advance tests of the source: insert compares block ids with `<`, find and
      delete with `!=`. */
  datatype Rule = Before | Differs

  predicate Less(a: Key, b: Key) {
    a.wlc < b.wlc || (a.wlc == b.wlc && a.id < b.id)
  }

  predicate Passes(rule: Rule, a: Key, k: Key) {
    a.wlc < k.wlc
    || (a.wlc == k.wlc && match rule case Before => a.id < k.id case Differs => a.id != k.id)
  }

  ghost predicate Sorted(ts: seq<Tower>) {
    forall p: nat, q: nat | 1 <= p < q < |ts| :: InPlace(ts, p, q)
  }

  ghost predicate InPlace(ts: seq<Tower>, p: nat, q: nat)
    requires p < q < |ts|
  {
    !Less(ts[q].key, ts[p].key)
  }

  /** The position the level-i forward pointer of position p leads to; |ts| stands for NULL. */
  ghost function Next(ts: seq<Tower>, p: nat, i: nat): (q: nat)
    requires p < |ts|
    ensures p < q <= |ts|
    ensures q < |ts| ==> i < ts[q].height
    ensures forall r | p < r < q :: ts[r].height <= i
    decreases |ts| - p
  {
    if p + 1 == |ts| || i < ts[p + 1].height then p + 1 else Next(ts, p + 1, i)
  }

  lemma NextUnique(ts: seq<Tower>, p: nat, i: nat, q: nat)
    requires p < q <= |ts|
    requires q < |ts| ==> i < ts[q].height
    requires forall r | p < r < q :: ts[r].height <= i
    ensures Next(ts, p, i) == q
  {
    var n := Next(ts, p, i);
  }

  /** One `while` loop of a search: walk level i from p as long as the advance test holds. */
  ghost function Walk(ts: seq<Tower>, p: nat, i: nat, rule: Rule, k: Key): (u: nat)
    requires p < |ts|
    ensures p <= u < |ts|
    ensures p < u ==> i < ts[u].height && Passes(rule, ts[u].key, k)
    decreases |ts| - p
  {
    var q := Next(ts, p, i);
    if q < |ts| && Passes(rule, ts[q].key, k) then Walk(ts, q, i, rule, k) else p
  }

  /** Where level i of a search starts: where level i+1 stopped, the top level at the header. */
  ghost function Entry(path: seq<nat>, i: nat): (p: nat)
    requires i < |path|
  {
    if i + 1 == |path| then 0 else path[i + 1]
  }

  ghost predicate Stopped(ts: seq<Tower>, path: seq<nat>, i: nat, rule: Rule, k: Key) {
    && i < |path| && Entry(path, i) < |ts|
    && path[i] == Walk(ts, Entry(path, i), i, rule, k)
  }

  /** `path` records a search: entry i is where level i stopped, for the levels from `lo` up. */
  ghost predicate Traced(ts: seq<Tower>, path: seq<nat>, lo: nat, rule: Rule, k: Key) {
    forall i: nat | lo <= i < |path| :: Stopped(ts, path, i, rule, k)
  }

  /** One more level of a search, and the array of nodes that goes with it. */
  lemma TraceLevel<T>(
    ts: seq<Tower>, row: seq<T>, path: seq<nat>, update: seq<T>, i: nat, u: nat, x: T, rule: Rule, k: Key)
    requires |update| == |path| && i < |path|
    requires Traced(ts, path, i + 1, rule, k) && Aligned(row, path, update, i + 1)
    requires Entry(path, i) < |ts| && u == Walk(ts, Entry(path, i), i, rule, k)
    requires u < |row| && x == row[u]
    ensures Traced(ts, path[i := u], i, rule, k) && Aligned(row, path[i := u], update[i := x], i)
  {
    var path' := path[i := u];
    forall j: nat | i <= j < |path| ensures Stopped(ts, path', j, rule, k) {
      assert j == i || Stopped(ts, path, j, rule, k);
    }
  }

  /** `update` holds the nodes at the positions in `path`. */
  ghost predicate Aligned<T>(row: seq<T>, path: seq<nat>, update: seq<T>, lo: nat)
    requires |update| == |path|
  {
    forall i | lo <= i < |path| :: path[i] < |row| && update[i] == row[path[i]]
  }

  /** `path[i]` is the last position before k that has a level i. */
  ghost predicate Fingers(ts: seq<Tower>, path: seq<nat>, k: nat) {
    1 <= k <= |ts| && forall i | 0 <= i < |path| :: Finger(ts, path[i], i, k)
  }

  ghost predicate Finger(ts: seq<Tower>, p: nat, i: nat, k: nat)
    requires k <= |ts|
  {
    p < k && i < ts[p].height && k <= Next(ts, p, i)
  }

  /** Fingers leave no level-i tower between themselves and k. */
  lemma FingersLast(ts: seq<Tower>, path: seq<nat>, k: nat, i: nat, p: nat)
    requires Fingers(ts, path, k) && i < |path|
    requires p < k && i < ts[p].height
    ensures p <= path[i]
    ensures p < path[i] ==> Next(ts, p, i) <= path[i]
    ensures p == path[i] <==> k <= Next(ts, p, i)
  {
    assert k <= Next(ts, path[i], i);
  }

  lemma FingersGrow(ts: seq<Tower>, path: seq<nat>, u: nat, k: nat)
    requires Fingers(ts, path, k)
    requires Finger(ts, u, |path|, k)
    ensures Fingers(ts, path + [u], k)
  {
  }

  // ---- inserting and removing one tower

  /** How every forward pointer changes when one tower goes in at k. */
  lemma NextInserted(ts: seq<Tower>, k: nat, x: Tower, p: nat, i: nat)
    requires 1 <= k <= |ts| && p <= |ts|
    ensures Next(Inserted(ts, k, x), p, i)
         == if p >= k then Next(ts, p - 1, i) + 1
            else if Next(ts, p, i) < k then Next(ts, p, i)
            else if i < x.height then k
            else Next(ts, p, i) + 1
  {
    var ts' := Inserted(ts, k, x);
    if p >= k {
      NextUnique(ts', p, i, Next(ts, p - 1, i) + 1);
    } else {
      var q := Next(ts, p, i);
      NextUnique(ts', p, i, if q < k then q else if i < x.height then k else q + 1);
    }
  }

  /** ... and when the tower at k goes out: what led to k leads where k led. */
  lemma NextRemoved(ts: seq<Tower>, k: nat, p: nat, i: nat)
    requires 1 <= k < |ts| && p < |ts| && p != k
    ensures var q := if Next(ts, p, i) == k then Next(ts, k, i) else Next(ts, p, i);
            Next(Removed(ts, k), if p < k then p else p - 1, i) == if q < k then q else q - 1
  {
    var q := if Next(ts, p, i) == k then Next(ts, k, i) else Next(ts, p, i);
    NextUnique(Removed(ts, k), if p < k then p else p - 1, i, if q < k then q else q - 1);
  }

  // ---- insert's search

  /** The place a key goes: after every tower with a smaller key. */
  ghost function Rank(ts: seq<Tower>, k: Key): (r: nat)
    requires |ts| > 0
    ensures 1 <= r <= |ts|
    ensures Sorted(ts) ==> forall p | 1 <= p < |ts| :: Less(ts[p].key, k) <==> p < r
    decreases |ts|
  {
    if |ts| == 1 then 1
    else if Less(ts[|ts| - 1].key, k) then BelowLast(ts, k); |ts|
    else SortedPrefix(ts); Rank(ts[..|ts| - 1], k)
  }

  lemma BelowLast(ts: seq<Tower>, k: Key)
    requires |ts| > 1 && Less(ts[|ts| - 1].key, k)
    ensures Sorted(ts) ==> forall p | 1 <= p < |ts| :: Less(ts[p].key, k)
  {
    if Sorted(ts) {
      forall p: nat | 1 <= p < |ts| ensures Less(ts[p].key, k) {
        assert p < |ts| - 1 ==> InPlace(ts, p, |ts| - 1);
      }
    }
  }

  lemma SortedPrefix(ts: seq<Tower>)
    requires |ts| > 0
    ensures Sorted(ts) ==> Sorted(ts[..|ts| - 1])
  {
    if Sorted(ts) {
      var r := ts[..|ts| - 1];
      forall p: nat, q: nat | 1 <= p < q < |r| ensures InPlace(r, p, q) {
        assert InPlace(ts, p, q);
      }
    }
  }

  lemma InsertedSorted(ts: seq<Tower>, x: Tower)
    requires |ts| > 0 && Sorted(ts)
    ensures Sorted(Inserted(ts, Rank(ts, x.key), x))
  {
    var k := Rank(ts, x.key);
    var ts' := Inserted(ts, k, x);
    forall p: nat, q: nat | 1 <= p < q < |ts'| ensures InPlace(ts', p, q) {
      assert ts'[p] == if p < k then ts[p] else if p == k then x else ts[p - 1];
      assert ts'[q] == if q < k then ts[q] else if q == k then x else ts[q - 1];
      assert p != k && q != k ==> InPlace(ts, if p < k then p else p - 1, if q < k then q else q - 1);
    }
  }

  lemma RemovedSorted(ts: seq<Tower>, k: nat)
    requires 1 <= k < |ts| && Sorted(ts)
    ensures Sorted(Removed(ts, k))
  {
    var r := Removed(ts, k);
    forall p: nat, q: nat | 1 <= p < q < |r| ensures InPlace(r, p, q) {
      assert r[p] == (if p < k then ts[p] else ts[p + 1]) && r[q] == if q < k then ts[q] else ts[q + 1];
      assert InPlace(ts, if p < k then p else p + 1, if q < k then q else q + 1);
    }
  }

  // ---- find's and delete's search

  ghost predicate Holds(ts: seq<Tower>, p: int, k: Key) {
    1 <= p < |ts| && ts[p].key == k
  }

  /** A tower that the `!=` test walks over although it lies behind key k. */
  ghost predicate Beyond(ts: seq<Tower>, r: int, k: Key) {
    1 <= r < |ts| && ts[r].key.wlc == k.wlc && k.id < ts[r].key.id
  }

  /** Some tower with key k is at least as high as every tower of equal weight and larger id. */
  ghost predicate Unmasked(ts: seq<Tower>, k: Key) {
    exists t :: Holds(ts, t, k) && forall r | Beyond(ts, r, k) :: ts[r].height <= ts[t].height
  }

  /** A level on which the search cannot be led past the key. */
  ghost predicate Clear(ts: seq<Tower>, i: nat, k: Key) {
    (exists t :: Holds(ts, t, k) && i < ts[t].height)
    || forall r | Beyond(ts, r, k) :: ts[r].height <= i
  }

  /** On such a level, and on every level with insert's test, the search stays before the key. */
  lemma {:induction false} WalkStays(ts: seq<Tower>, p: nat, i: nat, rule: Rule, k: Key)
    requires Sorted(ts) && |ts| > 0 && p < Rank(ts, k)
    requires rule == Before || Clear(ts, i, k)
    ensures var u := Walk(ts, p, i, rule, k);
            u < Rank(ts, k) <= Next(ts, u, i)
    decreases |ts| - p
  {
    var q := Next(ts, p, i);
    if q < |ts| && Passes(rule, ts[q].key, k) {
      if t: nat :| rule == Differs && Holds(ts, t, k) && i < ts[t].height {
        assert q < t ==> InPlace(ts, q, t);
      }
      assert q < Rank(ts, k) || Beyond(ts, q, k);
      WalkStays(ts, q, i, rule, k);
    }
  }

  /** A search over such levels ends with fingers at the key's place. */
  lemma {:induction false} SearchFingers(ts: seq<Tower>, path: seq<nat>, rule: Rule, k: Key)
    requires Sorted(ts) && |ts| > 0 && |path| <= ts[0].height
    requires Traced(ts, path, 0, rule, k)
    requires rule == Before || forall i: nat | i < |path| :: Clear(ts, i, k)
    ensures Fingers(ts, path, Rank(ts, k))
  {
    for i := |path| downto 0
      invariant forall j | i <= j < |path| :: Finger(ts, path[j], j, Rank(ts, k))
    {
      assert Stopped(ts, path, i, rule, k);
      WalkStays(ts, Entry(path, i), i, rule, k);
    }
  }

  /** A search never moves back. */
  lemma PathFalls(ts: seq<Tower>, path: seq<nat>, rule: Rule, k: Key, i: nat)
    requires Traced(ts, path, 0, rule, k) && i < |path|
    ensures Entry(path, i) <= path[i] <= path[0] < |ts|
  {
    assert Stopped(ts, path, 0, rule, k) && Stopped(ts, path, i, rule, k);
    for j := 0 to i
      invariant path[j] <= path[0]
    {
      assert Stopped(ts, path, j, rule, k);
    }
  }

  /** A level with a tower behind the key and none at the key carries the search past the key. */
  lemma {:induction false} WalkDiffersPasses(ts: seq<Tower>, p: nat, i: nat, k: Key, r: nat)
    requires Sorted(ts) && p < r && Beyond(ts, r, k) && i < ts[r].height
    requires forall t | Holds(ts, t, k) :: ts[t].height <= i
    ensures r <= Walk(ts, p, i, Differs, k)
    decreases |ts| - p
  {
    var q := Next(ts, p, i);
    assert q <= r && (q < r ==> InPlace(ts, q, r));
    assert !Holds(ts, q, k);
    if q < r { WalkDiffersPasses(ts, q, i, k, r); }
  }

  /** What find and delete look at: the level-0 successor of the last position reached. */
  ghost function Hit(ts: seq<Tower>, path: seq<nat>): (p: nat)
    requires |path| > 0 && path[0] < |ts|
  {
    Next(ts, path[0], 0)
  }

  lemma TallestHolder(ts: seq<Tower>, k: Key, t: nat) returns (best: nat)
    requires Holds(ts, t, k)
    ensures Holds(ts, best, k)
    ensures forall t' | Holds(ts, t', k) :: ts[t'].height <= ts[best].height
  {
    best := t;
    for n := 1 to |ts|
      invariant Holds(ts, best, k)
      invariant forall t' | Holds(ts, t', k) && t' < n :: ts[t'].height <= ts[best].height
    {
      if Holds(ts, n, k) && ts[best].height < ts[n].height { best := n; }
    }
  }

  lemma SearchUnmasked(ts: seq<Tower>, path: seq<nat>, k: Key)
    requires Sorted(ts) && |ts| > 0 && 0 < |path| <= ts[0].height
    requires forall p | 1 <= p < |ts| :: 1 <= ts[p].height
    requires Traced(ts, path, 0, Differs, k) && Unmasked(ts, k)
    ensures Fingers(ts, path, Rank(ts, k))
    ensures Hit(ts, path) == Rank(ts, k) && Holds(ts, Rank(ts, k), k)
  {
    var t :| Holds(ts, t, k) && forall r | Beyond(ts, r, k) :: ts[r].height <= ts[t].height;
    forall i: nat ensures Clear(ts, i, k) {
      assert i < ts[t].height || forall r | Beyond(ts, r, k) :: ts[r].height <= i;
    }
    SearchFingers(ts, path, Differs, k);
    NextUnique(ts, path[0], 0, path[0] + 1);
    assert Rank(ts, k) <= t && (Rank(ts, k) < t ==> InPlace(ts, Rank(ts, k), t));
  }

  lemma SearchMasked(ts: seq<Tower>, path: seq<nat>, k: Key)
    requires Sorted(ts) && |path| > 0
    requires forall p | 1 <= p < |ts| :: ts[p].height <= |path|
    requires Traced(ts, path, 0, Differs, k) && !Unmasked(ts, k)
    ensures path[0] < |ts| && !Holds(ts, Hit(ts, path), k)
  {
    PathFalls(ts, path, Differs, k, 0);
    if t: nat :| Holds(ts, t, k) {
      var best := TallestHolder(ts, k, t);
      var r :| Beyond(ts, r, k) && ts[best].height < ts[r].height;
      var i := ts[best].height;
      PathFalls(ts, path, Differs, k, i);
      assert Stopped(ts, path, i, Differs, k);
      if Entry(path, i) < r { WalkDiffersPasses(ts, Entry(path, i), i, k, r); }
      assert r < Hit(ts, path) < |ts| ==> InPlace(ts, r, Hit(ts, path));
    }
  }

  /** The search with `!=` finds a key exactly when it is there and no tower of equal weight
      and larger id rises above it.  On success it stops at the first tower with that key,
      with fingers for the deletion. */
  lemma SearchExact(ts: seq<Tower>, path: seq<nat>, k: Key)
    requires Sorted(ts) && |ts| > 0 && 0 < |path| <= ts[0].height
    requires forall p | 1 <= p < |ts| :: 1 <= ts[p].height <= |path|
    requires Traced(ts, path, 0, Differs, k)
    ensures path[0] < |ts|
    ensures Holds(ts, Hit(ts, path), k) <==> Unmasked(ts, k)
    ensures Unmasked(ts, k) ==> Hit(ts, path) == Rank(ts, k) && Fingers(ts, path, Rank(ts, k))
  {
    if Unmasked(ts, k) { SearchUnmasked(ts, path, k); } else { SearchMasked(ts, path, k); }
  }
}
