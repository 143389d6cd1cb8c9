/** Binlog text as bytes and as lines. */
module Lines {

  type Byte = b: int | 0 <= b < 256

  const NEWLINE: Byte := 10

  /** One record as it stands in a file: its only newline is the last byte. */
  ghost predicate IsLine(s: seq<Byte>) {
    s != [] && s[|s| - 1] == NEWLINE && forall i | 0 <= i < |s| - 1 :: s[i] != NEWLINE
  }

  ghost predicate AllLines(ls: seq<seq<Byte>>) {
    forall i | 0 <= i < |ls| :: IsLine(ls[i])
  }

  ghost function Flatten<T>(ls: seq<seq<T>>): (s: seq<T>) {
    if ls == [] then [] else ls[0] + Flatten(ls[1..])
  }

  lemma {:induction false} FlattenConcat<T>(a: seq<seq<T>>, b: seq<seq<T>>)
    ensures Flatten(a + b) == Flatten(a) + Flatten(b)
  {
    if a == [] {
      assert a + b == b;
    } else {
      FlattenConcat(a[1..], b);
      assert (a + b)[1..] == a[1..] + b;
    }
  }

  lemma FlattenOne<T>(s: seq<T>)
    ensures Flatten([s]) == s
  {
    assert [s][1..] == [];
  }

  /** One past the first newline of s at or after position from; |s| + 1 if there is none. */
  ghost function LineEnd(s: seq<Byte>, from: nat): (e: nat)
    requires from <= |s|
    ensures from < e <= |s| + 1
    ensures e <= |s| ==> s[e - 1] == NEWLINE
    ensures forall i | from <= i < e - 1 :: s[i] != NEWLINE
    decreases |s| - from
  {
    if from == |s| || s[from] == NEWLINE then from + 1 else LineEnd(s, from + 1)
  }

  lemma LineEndUnique(s: seq<Byte>, from: nat, e: nat)
    requires from < e <= |s| && s[e - 1] == NEWLINE && forall i | from <= i < e - 1 :: s[i] != NEWLINE
    ensures LineEnd(s, from) == e
  {
    var g := LineEnd(s, from);
  }

  /** The complete lines of s from a position on; an unfinished last line is left alone. */
  ghost function LinesFrom(s: seq<Byte>, from: nat): (ls: seq<seq<Byte>>)
    requires from <= |s|
    decreases |s| - from
  {
    var e := LineEnd(s, from);
    if e > |s| then [] else [s[from..e]] + LinesFrom(s, e)
  }

  /** Where the unfinished last line begins. */
  ghost function Tail(s: seq<Byte>, from: nat): (k: nat)
    requires from <= |s|
    ensures from <= k <= |s| && forall i | k <= i < |s| :: s[i] != NEWLINE
    decreases |s| - from
  {
    var e := LineEnd(s, from);
    if e > |s| then from else Tail(s, e)
  }

  lemma FirstIsLine(s: seq<Byte>, from: nat)
    requires from <= |s| && LineEnd(s, from) <= |s|
    ensures IsLine(s[from..LineEnd(s, from)])
  {
  }

  lemma {:induction false} SplitIsLines(s: seq<Byte>, from: nat)
    requires from <= |s|
    ensures AllLines(LinesFrom(s, from))
    decreases |s| - from
  {
    if LineEnd(s, from) <= |s| {
      FirstIsLine(s, from);
      SplitIsLines(s, LineEnd(s, from));
    }
  }

  /** Joining undoes splitting, up to the unfinished line. */
  lemma {:induction false} JoinSplit(s: seq<Byte>, from: nat)
    requires from <= |s|
    ensures Flatten(LinesFrom(s, from)) == s[from..Tail(s, from)]
    decreases |s| - from
  {
    var e := LineEnd(s, from);
    if e <= |s| {
      JoinSplit(s, e);
      FlattenConcat([s[from..e]], LinesFrom(s, e));
      FlattenOne(s[from..e]);
    }
  }

  /** Splitting undoes joining: a file of whole lines reads back as those lines. */
  lemma {:induction false} SplitJoined(ls: seq<seq<Byte>>, s: seq<Byte>, from: nat)
    requires AllLines(ls) && from <= |s| && s[from..] == Flatten(ls)
    ensures LinesFrom(s, from) == ls
    decreases |ls|
  {
    if ls == [] {
      assert from == |s|;
    } else {
      var e := from + |ls[0]|;
      assert s[from..] == ls[0] + Flatten(ls[1..]);
      assert forall i | from <= i < e :: s[i] == s[from..][i - from] == ls[0][i - from];
      LineEndUnique(s, from, e);
      assert s[from..e] == ls[0] && s[e..] == s[from..][|ls[0]|..];
      SplitJoined(ls[1..], s, e);
    }
  }
}
