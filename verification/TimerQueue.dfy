/** The timer list itself: timer_add, __timer_peek, __timer_remove and sched_yielded on links. */
module TimerQueues {
  import opened Options
  import opened Rows
  import opened Timers
  import opened Rings

  ghost function TimersOf(ring: seq<Link>): (q: seq<Timer>)
    requires |ring| > 0 && forall p | 1 <= p < |ring| :: ring[p].timer.Some?
    ensures |q| == |ring| - 1 && forall i {:trigger q[i]} | 0 <= i < |q| :: q[i] == ring[i + 1].timer.value
  {
    seq(|ring| - 1, i requires 0 <= i < |ring| - 1 => ring[i + 1].timer.value)
  }

  lemma Fires(fired: seq<Timer>, q: seq<Timer>, all: seq<Timer>)
    requires q != [] && fired + q == all
    ensures fired + [q[0]] + q[1..] == all
  {
  }

  class TimerQueue {
    const head: Link
    ghost var ring: seq<Link>
    ghost var cells: set<Link>

    ghost predicate Valid()
      reads this, cells, ring
    {
      && Ring(ring) && ring[0] == head && Inside(ring, cells)
      && forall p | 1 <= p < |ring| :: ring[p].timer.Some?
    }

    ghost function Queue(): (q: seq<Timer>)
      requires Valid()
      reads this, cells, ring
    {
      TimersOf(ring)
    }

    constructor ()
      ensures Valid() && fresh(cells) && Queue() == []
    {
      head := new Link(None);
      new;
      head.place := 0;
      ring, cells := [head], {head};
    }

    /** The loop of timer_add: from the back, the last timer that is not due later. */
    method FindSpot(deadline: int) returns (pos: Link, ghost k: nat)
      requires Valid()
      ensures k == Place(Queue(), deadline) && pos == ring[k]
    {
      ghost var q := Queue();
      assert Hop(ring, |ring| - 1);
      pos, k := head.prev, |ring| - 1;
      assert q[..k] == q;
      while pos != head && deadline < pos.timer.value.deadline
        invariant k < |ring| && pos == ring[k] && Ring(ring)
        invariant Place(q, deadline) == Place(q[..k], deadline)
        decreases k
      {
        SamePlace(ring, 0, k);
        assert Hop(ring, k - 1);
        assert q[..k][k - 1] == pos.timer.value && q[..k][..k - 1] == q[..k - 1];
        pos, k := pos.prev, k - 1;
      }
      SamePlace(ring, 0, k);
      if k > 0 { assert q[..k][k - 1] == pos.timer.value; }
    }

    /** timer_add */
    method Add(t: Timer)
      requires Valid()
      modifies this, cells
      ensures Valid() && fresh(cells - old(cells)) && Queue() == Added(old(Queue()), t)
    {
      ghost var q := Queue();
      var pos, k := FindSpot(t.deadline);
      var x := new Link(Some(t));
      AddBehind(x, pos, ring, k, cells);
      ring, cells := Inserted(ring, k + 1, x), cells + {x};
      assert Queue() == Inserted(q, k, t);
    }

    /** One locked round of sched_yielded: peek, and take the timer off if it is due. */
    method Take(now: int) returns (t: Option<Timer>)
      requires Valid()
      modifies this, cells
      ensures Valid() && cells == old(cells)
      ensures t.Some? <==> old(Queue()) != [] && old(Queue())[0].deadline <= now
      ensures t.Some? ==> t.value == old(Queue())[0] && Queue() == old(Queue())[1..]
      ensures t.None? ==> Queue() == old(Queue())
    {
      ghost var q := Queue();
      assert Hop(ring, 0);
      if head.next == head {
        if |ring| > 1 { SamePlace(ring, 0, 1); }
        return None;
      }
      var x := head.next;
      if x.timer.value.deadline > now { return None; }
      t := x.timer;
      Delete(x, ring, 1, cells);
      ring := Removed(ring, 1);
      assert Queue() == q[1..];
    }

    /** sched_yielded, which looks at the clock before every timer: the due timers in queue order, no
        other. */
    method Yield(clock: nat -> int) returns (fired: seq<Timer>)
      requires Valid()
      modifies this, cells
      ensures Valid() && fired + Queue() == old(Queue())
      ensures forall i | 0 <= i < |fired| :: fired[i].deadline <= clock(i)
      ensures Queue() == [] || Queue()[0].deadline > clock(|fired|)
    {
      fired := [];
      while true
        invariant Valid() && cells == old(cells) && fired + Queue() == old(Queue())
        invariant forall i | 0 <= i < |fired| :: fired[i].deadline <= clock(i)
        decreases |ring|
      {
        ghost var q := Queue();
        var t := Take(clock(|fired|));
        if t.None? { return; }
        Fires(fired, q, old(Queue()));
        fired := fired + [t.value];
      }
    }
  }
}
