/** Folding a step over a string, and when two folds can meet. */
module Folding {
  import opened Iteration

  function Fold<W, B>(step: (W, B) -> W, r: W, s: seq<B>): (w: W) {
    if s == [] then r else step(Fold(step, r, s[..|s| - 1]), s[|s| - 1])
  }

  lemma {:induction false} FoldConcat<W, B>(step: (W, B) -> W, r: W, s: seq<B>, t: seq<B>)
    ensures Fold(step, r, s + t) == Fold(step, Fold(step, r, s), t)
  {
    if t == [] {
      assert s + t == s;
    } else {
      FoldConcat(step, r, s, t[..|t| - 1]);
      assert (s + t)[..|s + t| - 1] == s + t[..|t| - 1];
    }
  }

  lemma FoldFirst<W, B>(step: (W, B) -> W, r: W, s: seq<B>)
    requires s != []
    ensures Fold(step, r, s) == Fold(step, step(r, s[0]), s[1..])
  {
    assert s == [s[0]] + s[1..] && [s[0]][..0] == [];
    FoldConcat(step, r, [s[0]], s[1..]);
  }

  lemma {:induction false} FoldSame<W, B>(f: (W, B) -> W, g: (W, B) -> W, r: W, s: seq<B>)
    requires forall w, b :: f(w, b) == g(w, b)
    ensures Fold(f, r, s) == Fold(g, r, s)
  {
    if s != [] { FoldSame(f, g, r, s[..|s| - 1]); }
  }

  ghost predicate Separates<W(!new), B(!new)>(step: (W, B) -> W) {
    forall x, y, b | step(x, b) == step(y, b) :: x == y
  }

  /** The same string never brings two values together. */
  lemma {:induction false} FoldApart<W(!new), B(!new)>(step: (W, B) -> W, r: W, r': W, s: seq<B>)
    requires Separates(step) && Fold(step, r, s) == Fold(step, r', s)
    ensures r == r'
  {
    if s != [] { FoldApart(step, r, r', s[..|s| - 1]); }
  }

  /** Differences of values: none, that of two values, one byte further back, and how many bytes one spans. */
  datatype Metric<!W, !B> = Metric(none: W, minus: (W, W) -> W, back: (B, B, W) -> W, spans: (W, nat) -> bool)

  /** A difference of at most three bytes can be traced back through a step. */
  ghost predicate Traces<W(!new), B(!new)>(m: Metric<W, B>, step: (W, B) -> W) {
    && (forall x, y, b, c | m.spans(m.minus(step(x, b), step(y, c)), 3) ::
          m.minus(x, y) == m.back(b, c, m.minus(step(x, b), step(y, c))))
    && (forall x :: m.minus(x, x) == m.none)
    && m.spans(m.none, 0)
  }

  ghost predicate Lifts<W(!new), B(!new)>(m: Metric<W, B>, clock: W -> W, up: W -> W) {
    forall x, y | m.spans(m.minus(clock(x), clock(y)), 3) :: m.minus(x, y) == up(m.minus(clock(x), clock(y)))
  }

  /** A linear clock that loses nothing, and that brings three bytes down, lifts them back up. */
  lemma LinearLifts<W(!new), B(!new)>(m: Metric<W, B>, clock: W -> W, up: W -> W)
    requires Linear(clock, m.minus) && Injective(clock)
    requires forall g | m.spans(g, 3) :: clock(up(g)) == g
    ensures Lifts(m, clock, up)
  {
    forall x, y | m.spans(m.minus(clock(x), clock(y)), 3)
      ensures m.minus(x, y) == up(m.minus(clock(x), clock(y)))
    {
      assert clock(m.minus(x, y)) == m.minus(clock(x), clock(y));
    }
  }

  ghost predicate Joins<W(!new), B(!new)>(m: Metric<W, B>, enter: (W, B) -> W, join: (B, B, W) -> W) {
    forall x, y, b, c :: m.minus(x, y) == join(b, c, m.minus(enter(x, b), enter(y, c)))
  }

  /** A step that takes a byte in and then clocks traces back if both parts do. */
  lemma PartsTrace<W(!new), B(!new)>(
    m: Metric<W, B>, clock: W -> W, enter: (W, B) -> W, step: (W, B) -> W, up: W -> W, join: (B, B, W) -> W)
    requires forall r, b :: step(r, b) == clock(enter(r, b))
    requires Lifts(m, clock, up) && Joins(m, enter, join)
    requires forall b, c, g :: m.back(b, c, g) == join(b, c, up(g))
    requires (forall x :: m.minus(x, x) == m.none) && m.spans(m.none, 0)
    ensures Traces(m, step)
  {
  }

  ghost predicate Widens<W(!new), B(!new)>(m: Metric<W, B>) {
    && (forall b, c, g, k: nat | k < 3 && m.spans(g, k) :: m.spans(m.back(b, c, g), k + 1))
    && (forall g, k: nat | k < 3 && m.spans(g, k) :: m.spans(g, 3))
  }

  ghost predicate Tells<W(!new), B(!new)>(m: Metric<W, B>) {
    forall b, c, g | m.spans(g, 3) && m.back(b, c, g) == m.none :: b == c && g == m.none
  }

  ghost function Gap<W, B>(m: Metric<W, B>, u: seq<B>, v: seq<B>): (g: W)
    requires |u| == |v|
  {
    if u == [] then m.none else m.back(u[0], v[0], Gap(m, u[1..], v[1..]))
  }

  lemma {:induction false} GapSpans<W(!new), B(!new)>(m: Metric<W, B>, step: (W, B) -> W, u: seq<B>, v: seq<B>)
    requires Traces(m, step) && Widens(m) && |u| == |v| <= 3
    ensures m.spans(Gap(m, u, v), |u|) && m.spans(Gap(m, u, v), 3)
  {
    if u != [] { GapSpans(m, step, u[1..], v[1..]); }
  }

  /** Two folds over at most four bytes that meet started exactly that far apart. */
  lemma {:induction false} Meet<W(!new), B(!new)>(
    m: Metric<W, B>, step: (W, B) -> W, r: W, r': W, u: seq<B>, v: seq<B>)
    requires Traces(m, step) && Widens(m) && |u| == |v| <= 4
    requires Fold(step, r, u) == Fold(step, r', v)
    ensures m.minus(r, r') == Gap(m, u, v)
    decreases |u|
  {
    if u != [] {
      FoldFirst(step, r, u);
      FoldFirst(step, r', v);
      Meet(m, step, step(r, u[0]), step(r', v[0]), u[1..], v[1..]);
      GapSpans(m, step, u[1..], v[1..]);
    }
  }

  lemma {:induction false} GapNone<W(!new), B(!new)>(m: Metric<W, B>, step: (W, B) -> W, u: seq<B>, v: seq<B>)
    requires Traces(m, step) && Widens(m) && Tells(m) && |u| == |v| <= 4 && Gap(m, u, v) == m.none
    ensures u == v
  {
    if u != [] {
      GapSpans(m, step, u[1..], v[1..]);
      GapNone(m, step, u[1..], v[1..]);
      assert u == [u[0]] + u[1..] && v == [v[0]] + v[1..];
    }
  }

  /** Strings that agree outside four bytes and fold to the same value are equal. */
  lemma Detects<W(!new), B(!new)>(
    m: Metric<W, B>, step: (W, B) -> W, r: W, p: seq<B>, u: seq<B>, v: seq<B>, q: seq<B>)
    requires Traces(m, step) && Widens(m) && Tells(m) && Separates(step) && |u| == |v| <= 4
    requires Fold(step, r, p + u + q) == Fold(step, r, p + v + q)
    ensures u == v
  {
    var s := Fold(step, r, p);
    FoldConcat(step, r, p + u, q);
    FoldConcat(step, r, p + v, q);
    FoldConcat(step, r, p, u);
    FoldConcat(step, r, p, v);
    FoldApart(step, Fold(step, s, u), Fold(step, s, v), q);
    Meet(m, step, s, s, u, v);
    GapNone(m, step, u, v);
  }
}
