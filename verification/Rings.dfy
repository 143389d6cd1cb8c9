/** The intrusive circular doubly linked list. */
module Rings {
  import opened Options
  import opened Rows
  import opened Timers

  /** A list_head embedded in a timer; the list's own head is embedded in none. */
  class Link {
    var next: Link?
    var prev: Link?
    const timer: Option<Timer>
    ghost var place: nat   // index in the ring the link is in

    constructor (timer: Option<Timer>)
      ensures this.timer == timer && next == prev == this
    {
      this.timer := timer;
      next, prev := this, this;
    }
  }

  ghost function Succ(n: nat, p: nat): (q: nat)
    requires p < n
    ensures q < n
  {
    if p + 1 == n then 0 else p + 1
  }

  /** Neighbours p and p+1 point at each other. */
  ghost predicate Hop(ring: seq<Link>, p: nat)
    requires p < |ring|
    reads ring
  {
    ring[p].next == ring[Succ(|ring|, p)] && ring[Succ(|ring|, p)].prev == ring[p]
  }

  ghost predicate Placed(ring: seq<Link>, p: nat)
    requires p < |ring|
    reads ring
  {
    ring[p].place == p
  }

  /** A well-formed ring: every link points at its neighbours, and occurs once. */
  ghost predicate Ring(ring: seq<Link>)
    reads ring
  {
    |ring| > 0 && (forall p: nat | p < |ring| :: Hop(ring, p)) && forall p: nat | p < |ring| :: Placed(ring, p)
  }

  /** __list_add */
  method Connect(x: Link, prev: Link, next: Link)
    requires x != prev && x != next
    modifies x`next, x`prev, prev`next, next`prev
    ensures next.prev == x && x.next == next && x.prev == prev && prev.next == x
    ensures next != prev ==> next.next == old(next.next) && prev.prev == old(prev.prev)
  {
    next.prev := x;
    x.next := next;
    x.prev := prev;
    prev.next := x;
  }

  ghost predicate Inside(ring: seq<Link>, cells: set<Link>) {
    forall p | 0 <= p < |ring| :: ring[p] in cells
  }

  lemma SamePlace(ring: seq<Link>, p: nat, q: nat)
    requires Ring(ring) && p < |ring| && q < |ring|
    ensures ring[p] == ring[q] <==> p == q
  {
    assert Placed(ring, p) && Placed(ring, q);
  }

  /** list_add: behind the link at position k. */
  method AddBehind(x: Link, at: Link, ghost ring: seq<Link>, ghost k: nat, ghost cells: set<Link>)
    requires Ring(ring) && Inside(ring, cells) && x !in cells && k < |ring| && at == ring[k]
    modifies x, cells
    ensures Ring(Inserted(ring, k + 1, x))
  {
    assert Hop(ring, k);
    Connect(x, at, at.next);
    forall y | y in cells && k < y.place { y.place := y.place + 1; }
    x.place := k + 1;
    ghost var r := Inserted(ring, k + 1, x);
    forall p: nat | p < |r| ensures Placed(r, p) {
      if p != k + 1 { assert old(Placed(ring, if p <= k then p else p - 1)); }
    }
    forall p: nat | p < |r| ensures Hop(r, p) {
      if p < k || k + 1 < p {
        var q := if p < k then p else p - 1;
        assert old(Hop(ring, q));
        assert r[p] == ring[q] && r[Succ(|r|, p)] == ring[Succ(|ring|, q)];
        assert old(Placed(ring, q)) && old(Placed(ring, Succ(|ring|, q)));
        assert old(Placed(ring, k)) && old(Placed(ring, Succ(|ring|, k)));
      }
    }
  }

  /** list_del: the link at position k, not the head, leaves the ring. */
  method Delete(x: Link, ghost ring: seq<Link>, ghost k: nat, ghost cells: set<Link>)
    requires Ring(ring) && Inside(ring, cells) && 1 <= k < |ring| && x == ring[k]
    modifies cells
    ensures Ring(Removed(ring, k)) && x.next == x.prev == null
  {
    assert Hop(ring, k - 1) && Hop(ring, k);
    SamePlace(ring, k, k - 1);
    SamePlace(ring, k, Succ(|ring|, k));
    var next, prev := x.next, x.prev;
    next.prev := prev;
    prev.next := next;
    x.next, x.prev := null, null;
    forall y | y in cells && k < y.place { y.place := y.place - 1; }
    ghost var r := Removed(ring, k);
    forall p: nat | p < |r| ensures Placed(r, p) {
      assert old(Placed(ring, if p < k then p else p + 1));
    }
    forall p: nat | p < |r| ensures Hop(r, p) {
      var q := if p < k then p else p + 1;
      assert old(Hop(ring, q));
      assert r[p] == ring[q] && r[Succ(|r|, p)] == ring[if p == k - 1 then Succ(|ring|, k) else Succ(|ring|, q)];
      assert old(Placed(ring, q)) && old(Placed(ring, Succ(|ring|, q))) && old(Placed(ring, k));
      assert old(Placed(ring, k - 1)) && old(Placed(ring, Succ(|ring|, k)));
    }
  }

  /** The ring list_splice makes: the head, the spliced links, the links that were there. */
  ghost function Joined(la: seq<Link>, hb: seq<Link>): (r: seq<Link>)
    requires |la| > 0 && |hb| > 0
    ensures |r| == |la| + |hb| - 1
    ensures forall p {:trigger r[p]} | 0 <= p < |r| ::
      r[p] == if p == 0 then hb[0] else if p < |la| then la[p] else hb[p - |la| + 1]
  {
    [hb[0]] + la[1..] + hb[1..]
  }

  /** list_splice: the links of a non-empty list go behind the head of another, in their order. */
  method Splice(
    list: Link, head: Link, ghost la: seq<Link>, ghost hb: seq<Link>, ghost ca: set<Link>, ghost cb: set<Link>)
    requires Ring(la) && Ring(hb) && |la| > 1 && la[0] == list && hb[0] == head
    requires Inside(la, ca) && Inside(hb, cb) && ca !! cb
    modifies ca, cb
    ensures Ring(Joined(la, hb))
  {
    assert Hop(la, 0) && Hop(la, |la| - 1) && Hop(hb, 0);
    SamePlace(la, 0, 1);
    SamePlace(la, 0, |la| - 1);
    var first, last, at := list.next, list.prev, head.next;
    first.prev := head;
    head.next := first;
    last.next := at;
    at.prev := last;
    forall y | y in cb && y.place > 0 { y.place := y.place + |la| - 1; }
    ghost var r := Joined(la, hb);
    forall p: nat | p < |r| ensures Placed(r, p) {
      if 0 < p < |la| {
        assert old(Placed(la, p));
      } else {
        assert old(Placed(hb, if p == 0 then 0 else p - |la| + 1));
      }
    }
    forall p: nat | p < |r| ensures Hop(r, p) {
      if 0 < p < |la| - 1 {
        assert old(Hop(la, p)) && old(Placed(la, p)) && old(Placed(la, p + 1));
        assert old(Placed(la, 1)) && old(Placed(la, |la| - 1));
      } else if |la| <= p {
        var q := p - |la| + 1;
        assert old(Hop(hb, q)) && old(Placed(hb, q)) && old(Placed(hb, Succ(|hb|, q)));
        assert old(Placed(hb, 0)) && old(Placed(hb, Succ(|hb|, 0)));
        assert r[p] == hb[q] && r[Succ(|r|, p)] == hb[Succ(|hb|, q)];
      }
    }
  }
}
