/** The cached, rotating binlog writer. */
module BinlogWriters {
  import opened Buffers
  import opened Lines

  const CACHE_SIZE: nat := 16384          // BINLOG_CACHE_BUFFER_SIZE
  const LINE_ROOM: nat := 256             // flush when less than this is free
  const MAX_FILE: nat := 0x4000_0000      // BINLOG_MAX_FILE_SIZE

  // ---- the writer as a value, in lines

  type Line = seq<Byte>

  /** The files in order, the last one open, the lines still in the cache, and binlog_file_size. */
  datatype Store = Store(files: seq<seq<Line>>, cache: seq<Line>, size: nat)

  /** No index file yet. */
  const EMPTY := Store([[]], [], 0)

  /** How a flush of a non-empty cache ends: write() and fsync() succeed, write() stores nothing, or
      write() succeeds and fsync() fails. */
  datatype Outcome = Stored | Refused | Unsynced

  ghost function Bytes(ls: seq<Line>): (n: nat) {
    |Flatten(ls)|
  }

  lemma BytesConcat(a: seq<Line>, b: seq<Line>)
    ensures Bytes(a + b) == Bytes(a) + Bytes(b)
  {
    FlattenConcat(a, b);
  }

  /** The files once write() has appended the cache to the last one. */
  ghost function Appended(s: Store): (files: seq<seq<Line>>)
    requires |s.files| > 0
    ensures |files| == |s.files|
  {
    s.files[|s.files| - 1 := s.files[|s.files| - 1] + s.cache]
  }

  /** __binlog_flush: only a stored and synced cache is emptied and counted. */
  ghost function Flush(s: Store, o: Outcome): (s': Store)
    requires |s.files| > 0
    ensures |s'.files| > 0
  {
    if Bytes(s.cache) == 0 || o == Refused then s
    else if o == Unsynced then s.(files := Appended(s))
    else if s.size + Bytes(s.cache) >= MAX_FILE then Store(Appended(s) + [[]], [], 0)
    else Store(Appended(s), [], s.size + Bytes(s.cache))
  }

  /** binlog_write */
  ghost function Write(s: Store, line: Line, o: Outcome): (s': Store)
    requires |s.files| > 0
    ensures |s'.files| > 0
  {
    var s1 := s.(cache := s.cache + [line]);
    if Full(s1) then Flush(s1, o) else s1
  }

  /** Little room is left. */
  ghost predicate Full(s: Store) {
    CACHE_SIZE - Bytes(s.cache) < LINE_ROOM
  }

  /** Everything ever written, in order. */
  ghost function Written(s: Store): (ls: seq<Line>) {
    Flatten(s.files) + s.cache
  }

  /** Whole lines that leave room for a terminating zero in a record buffer. */
  ghost predicate AllRecords(ls: seq<Line>) {
    forall i | 0 <= i < |ls| :: IsLine(ls[i]) && |ls[i]| < LINE_ROOM
  }

  /** The cache is not full, the counter of the open file has not reached the limit and counts no more
      than is there, closed files have reached it, and nothing but whole lines is anywhere. */
  ghost predicate Sound(s: Store) {
    && |s.files| > 0 && AllRecords(Written(s)) && Bytes(s.cache) < CACHE_SIZE
    && s.size < MAX_FILE && s.size <= Bytes(s.files[|s.files| - 1])
    && forall i | 0 <= i < |s.files| - 1 :: MAX_FILE <= Bytes(s.files[i])
  }

  /** Besides, the counter is exact and closed files are over the limit by less than a cache. */
  ghost predicate Tight(s: Store) {
    && |s.files| > 0 && s.size == Bytes(s.files[|s.files| - 1])
    && forall i | 0 <= i < |s.files| - 1 :: Bytes(s.files[i]) < MAX_FILE + CACHE_SIZE
  }

  /** The cache has room for any record. */
  ghost predicate Roomy(s: Store) {
    Bytes(s.cache) <= CACHE_SIZE - LINE_ROOM
  }

  /** The cache has room for this one and its terminating zero. */
  ghost predicate Room(s: Store, line: Line) {
    Bytes(s.cache) + |line| < CACHE_SIZE
  }

  lemma FlattenLast<T>(fs: seq<seq<T>>, more: seq<T>)
    requires |fs| > 0
    ensures Flatten(fs[|fs| - 1 := fs[|fs| - 1] + more]) == Flatten(fs) + more
  {
    var init, last := fs[..|fs| - 1], fs[|fs| - 1];
    assert fs == init + [last] && fs[|fs| - 1 := last + more] == init + [last + more];
    FlattenConcat(init, [last]);
    FlattenConcat(init, [last + more]);
    FlattenOne(last);
    FlattenOne(last + more);
  }

  /** A flush changes no line of files and cache, but one that ends unsynced leaves the cache twice. */
  lemma FlushConserves(s: Store, o: Outcome)
    requires |s.files| > 0
    ensures Written(Flush(s, o)) == Written(s) + if o == Unsynced && Bytes(s.cache) != 0 then s.cache else []
  {
    if Bytes(s.cache) != 0 && o != Refused {
      FlattenLast(s.files, s.cache);
      FlattenConcat(Appended(s), [[]]);
      FlattenOne<Line>([]);
    }
  }

  lemma AllRecordsTwice(a: seq<Line>, b: seq<Line>)
    requires AllRecords(a + b)
    ensures AllRecords(a + b + b)
  {
    assert forall i | 0 <= i < |b| :: b[i] == (a + b)[|a| + i];
  }

  lemma FlushSound(s: Store, o: Outcome)
    requires Sound(s)
    ensures Sound(Flush(s, o)) && (o == Stored ==> Roomy(Flush(s, o)))
    ensures Tight(s) && o != Unsynced ==> Tight(Flush(s, o))
  {
    FlushConserves(s, o);
    AllRecordsTwice(Flatten(s.files), s.cache);
    BytesConcat(s.files[|s.files| - 1], s.cache);
  }

  lemma WriteSound(s: Store, line: Line, o: Outcome)
    requires Sound(s) && IsLine(line) && |line| < LINE_ROOM && Room(s, line)
    ensures Sound(Write(s, line, o)) && (o == Stored ==> Roomy(Write(s, line, o)))
    ensures Tight(s) && o != Unsynced ==> Tight(Write(s, line, o))
  {
    BytesConcat(s.cache, [line]);
    FlattenOne(line);
    var s1 := s.(cache := s.cache + [line]);
    assert Written(s1) == Written(s) + [line];
    FlushSound(s1, o);
  }

  /** A write goes to the file only when the cache has not room for another record: what it then stores is
      more than CACHE_SIZE - LINE_ROOM bytes at once. */
  lemma WriteBatches(s: Store, line: Line, o: Outcome)
    requires |s.files| > 0
    ensures Write(s, line, o).files != s.files ==> Bytes(s.cache) + |line| > CACHE_SIZE - LINE_ROOM
    ensures Bytes(s.cache) + |line| <= CACHE_SIZE - LINE_ROOM ==> Write(s, line, o) == s.(cache := s.cache + [line])
    ensures Bytes(s.cache) + |line| > CACHE_SIZE - LINE_ROOM && o == Stored ==> Write(s, line, o).cache == []
  {
    BytesConcat(s.cache, [line]);
    FlattenOne(line);
  }

  // ---- whole runs

  /** `outcome` is how the flush ends, if there is one. */
  datatype Event = WriteLine(line: Line, outcome: Outcome) | FlushNow(outcome: Outcome)

  ghost function Step(s: Store, e: Event): (s': Store)
    requires |s.files| > 0
    ensures |s'.files| > 0
  {
    match e
    case WriteLine(line, o) => Write(s, line, o)
    case FlushNow(o) => Flush(s, o)
  }

  ghost function Apply(s: Store, es: seq<Event>): (s': Store)
    requires |s.files| > 0
    ensures |s'.files| > 0
    decreases |es|
  {
    if es == [] then s else Apply(Step(s, es[0]), es[1..])
  }

  ghost function LinesIn(e: Event): (ls: seq<Line>) {
    if e.WriteLine? then [e.line] else []
  }

  ghost function LinesOf(es: seq<Event>): (ls: seq<Line>) {
    if es == [] then [] else LinesIn(es[0]) + LinesOf(es[1..])
  }

  /** No line of the run is copied past the end of the cache. */
  ghost predicate Fits(s: Store, es: seq<Event>)
    requires |s.files| > 0
    decreases |es|
  {
    es != [] ==> (es[0].WriteLine? ==> Room(s, es[0].line)) && Fits(Step(s, es[0]), es[1..])
  }

  /** The lines that stand in the cache when this step appends it to the file without emptying it. */
  ghost function Repeated(s: Store, e: Event): (ls: seq<Line>)
    requires |s.files| > 0
  {
    var s1 := s.(cache := s.cache + LinesIn(e));
    if e.outcome == Unsynced && Bytes(s1.cache) != 0 && (e.WriteLine? ==> Full(s1)) then s1.cache else []
  }

  /** No flush of a non-empty cache ends unsynced. */
  ghost predicate Synced(s: Store, es: seq<Event>)
    requires |s.files| > 0
    decreases |es|
  {
    es != [] ==> Repeated(s, es[0]) == [] && Synced(Step(s, es[0]), es[1..])
  }

  ghost function Repeats(s: Store, es: seq<Event>): (n: nat)
    requires |s.files| > 0
    decreases |es|
  {
    if es == [] then 0 else |Repeated(s, es[0])| + Repeats(Step(s, es[0]), es[1..])
  }

  /** Lines that are written are records. */
  ghost predicate Proper(es: seq<Event>) {
    forall i | 0 <= i < |es| :: IsRecord(es[i])
  }

  ghost predicate IsRecord(e: Event) {
    e.WriteLine? ==> IsLine(e.line) && |e.line| < LINE_ROOM
  }

  /** A step adds its line and then what it repeats. */
  lemma StepAdds(s: Store, e: Event)
    requires |s.files| > 0
    ensures Written(Step(s, e)) == Written(s) + LinesIn(e) + Repeated(s, e)
  {
    var s1 := s.(cache := s.cache + LinesIn(e));
    assert Written(s1) == Written(s) + LinesIn(e);
    FlushConserves(s1, e.outcome);
    if e.FlushNow? { assert s1.cache == s.cache; }
  }

  lemma StepSound(s: Store, e: Event)
    requires Sound(s) && IsRecord(e) && (e.WriteLine? ==> Room(s, e.line))
    ensures Sound(Step(s, e)) && (Roomy(s) && e.outcome == Stored ==> Roomy(Step(s, e)))
    ensures Tight(s) && Repeated(s, e) == [] ==> Tight(Step(s, e))
  {
    match e {
      case WriteLine(line, o) =>
        WriteSound(s, line, o);
        if Tight(s) && Repeated(s, e) == [] { WriteTight(s, line, o); }
      case FlushNow(o) => FlushSound(s, o); assert s.cache + [] == s.cache;
    }
  }

  lemma WriteTight(s: Store, line: Line, o: Outcome)
    requires Tight(s) && line != [] && Repeated(s, WriteLine(line, o)) == []
    ensures o == Unsynced ==> Tight(Write(s, line, o))
  {
    BytesConcat(s.cache, [line]);
    FlattenOne(line);
  }

  /** Every run that keeps within the cache, whatever its flushes come to, leaves nothing but whole
      lines, and closed files of 2^30 bytes or more. */
  lemma {:induction false} RunSound(s: Store, es: seq<Event>)
    requires Sound(s) && Proper(es) && Fits(s, es)
    ensures Sound(Apply(s, es)) && (Tight(s) && Synced(s, es) ==> Tight(Apply(s, es)))
    decreases |es|
  {
    if es != [] {
      assert IsRecord(es[0]);
      StepSound(s, es[0]);
      RunSound(Step(s, es[0]), es[1..]);
    }
  }

  /** Over every run, files and cache have all lines and the repeated ones. */
  lemma {:induction false} RunCounts(s: Store, es: seq<Event>)
    requires |s.files| > 0
    ensures |Written(Apply(s, es))| == |Written(s)| + |LinesOf(es)| + Repeats(s, es)
    ensures Repeats(s, es) == 0 <==> Synced(s, es)
    decreases |es|
  {
    if es != [] {
      StepAdds(s, es[0]);
      RunCounts(Step(s, es[0]), es[1..]);
    }
  }

  lemma {:induction false} SyncedConserves(s: Store, es: seq<Event>)
    requires |s.files| > 0 && Synced(s, es)
    ensures Written(Apply(s, es)) == Written(s) + LinesOf(es)
    decreases |es|
  {
    if es != [] {
      StepAdds(s, es[0]);
      SyncedConserves(Step(s, es[0]), es[1..]);
    }
  }

  /** Over every run of writes and flushes, refused ones too, files plus cache are all lines in order
      if and only if no flush of a non-empty cache ends unsynced. */
  lemma RunConserves(s: Store, es: seq<Event>)
    requires |s.files| > 0
    ensures Written(Apply(s, es)) == Written(s) + LinesOf(es) <==> Synced(s, es)
  {
    RunCounts(s, es);
    if Synced(s, es) { SyncedConserves(s, es); }
  }

  /** a comes out of b by leaving elements out. */
  ghost predicate Within<T(!new)>(a: seq<T>, b: seq<T>)
    decreases |b|
  {
    a == [] || (b != [] && (Within(a, b[1..]) || (a[0] == b[0] && Within(a[1..], b[1..]))))
  }

  lemma {:induction false} WithinMore<T(!new)>(a: seq<T>, b: seq<T>, c: seq<T>)
    requires Within(a, b)
    ensures Within(a, b + c)
    decreases |b|
  {
    if a != [] {
      assert (b + c)[1..] == b[1..] + c;
      if Within(a, b[1..]) { WithinMore(a, b[1..], c); } else { WithinMore(a[1..], b[1..], c); }
    }
  }

  lemma {:induction false} WithinBoth<T(!new)>(a: seq<T>, b: seq<T>, c: seq<T>)
    requires Within(a, b)
    ensures Within(a + c, b + c)
    decreases |b|
  {
    if b == [] {
      assert a + c == c && b + c == c;
      WithinSelf(c);
    } else {
      assert (b + c)[1..] == b[1..] + c;
      if Within(a, b[1..]) {
        WithinBoth(a, b[1..], c);
      } else {
        WithinBoth(a[1..], b[1..], c);
        assert (a + c)[1..] == a[1..] + c;
      }
    }
  }

  lemma {:induction false} WithinSelf<T(!new)>(a: seq<T>)
    ensures Within(a, a)
  {
    if a != [] { WithinSelf(a[1..]); }
  }

  /** In every run, whatever its flushes come to, no line is lost and no two change places. */
  lemma {:induction false} RunKeepsAll(s: Store, es: seq<Event>, ls: seq<Line>)
    requires |s.files| > 0 && Within(ls, Written(s))
    ensures Within(ls + LinesOf(es), Written(Apply(s, es)))
    decreases |es|
  {
    if es == [] {
      assert ls + LinesOf(es) == ls;
    } else {
      StepAdds(s, es[0]);
      WithinBoth(ls, Written(s), LinesIn(es[0]));
      WithinMore(ls + LinesIn(es[0]), Written(s) + LinesIn(es[0]), Repeated(s, es[0]));
      RunKeepsAll(Step(s, es[0]), es[1..], ls + LinesIn(es[0]));
      assert ls + LinesIn(es[0]) + LinesOf(es[1..]) == ls + LinesOf(es);
    }
  }

  /** As long as flushes succeed, every run keeps within the cache. */
  lemma {:induction false} SuccessFits(s: Store, es: seq<Event>)
    requires Sound(s) && Roomy(s) && Proper(es) && forall i | 0 <= i < |es| :: es[i].outcome == Stored
    ensures Fits(s, es) && Synced(s, es)
    decreases |es|
  {
    if es != [] {
      assert IsRecord(es[0]);
      StepSound(s, es[0]);
      SuccessFits(Step(s, es[0]), es[1..]);
    }
  }

  lemma ApplyFirst(s: Store, e: Event, es: seq<Event>)
    requires |s.files| > 0
    ensures Apply(s, [e] + es) == Apply(Step(s, e), es)
  {
    assert ([e] + es)[1..] == es;
  }

  /** One line in the cache and a flush that cannot sync: the next flush writes the line again. */
  lemma UnsyncedRepeats(line: Line)
    requires IsLine(line) && |line| < LINE_ROOM
    ensures var s := Apply(EMPTY, [WriteLine(line, Stored), FlushNow(Unsynced), FlushNow(Stored)]);
            s.files == [[line, line]] && s.cache == []
  {
    var s0, s1 := Store([[]], [], 0), Store([[]], [line], 0);
    var s2, s3 := Store([[line]], [line], 0), Store([[line, line]], [], |line|);
    var e1, e2, e3 := WriteLine(line, Stored), FlushNow(Unsynced), FlushNow(Stored);
    FlattenOne(line);
    assert [] + [line] == [line] && [line] + [line] == [line, line];
    assert Step(s0, e1) == s1 && Step(s1, e2) == s2 && Step(s2, e3) == s3;
    ApplyFirst(s2, e3, []);
    ApplyFirst(s1, e2, [e3] + []);
    ApplyFirst(s0, e1, [e2] + ([e3] + []));
    assert [e1, e2, e3] == [e1] + ([e2] + ([e3] + []));
  }

  // ---- the writer on bytes

  class BinlogWriter {
    const cache: array<Byte>
    var len: nat
    var files: seq<seq<Byte>>
    var index: nat
    var size: nat
    ghost var store: Store

    /** The bytes are the lines of `store`. */
    ghost predicate Valid()
      reads this, cache
    {
      && cache.Length == CACHE_SIZE && len < CACHE_SIZE
      && cache[..len] == Flatten(store.cache)
      && |files| == |store.files| > 0 && index == |files| - 1 && size == store.size
      && forall i | 0 <= i < |files| :: files[i] == Flatten(store.files[i])
    }

    /** local_binlog_init: go on with the last of the files that are there, or begin the first. */
    constructor (found: seq<seq<Byte>>, ghost lines: seq<seq<Line>>)
      requires |found| == |lines| && forall i | 0 <= i < |found| :: found[i] == Flatten(lines[i])
      ensures Valid() && fresh(cache) && store.files == (if found == [] then [[]] else lines) && store.cache == []
      ensures store.size == Bytes(store.files[|store.files| - 1])
    {
      cache := new Byte[CACHE_SIZE](_ => 0);
      len, files := 0, if found == [] then [[]] else found;
      index := if found == [] then 0 else |found| - 1;
      size := if found == [] then 0 else |found[|found| - 1]|;
      store := Store(if found == [] then [[]] else lines, [], if found == [] then 0 else |found[|found| - 1]|);
    }

    /** __binlog_flush */
    method FlushCache(o: Outcome)
      requires Valid()
      modifies this`len, this`files, this`index, this`size, this`store, cache
      ensures Valid() && store == Flush(old(store), o)
    {
      if len == 0 || o == Refused { return; }
      FlattenConcat(store.files[index], store.cache);
      files := files[index := files[index] + cache[..len]];
      store := Flush(store, o);
      if o == Unsynced { return; }
      size := size + len;
      if size >= MAX_FILE {
        index := index + 1;
        files := files + [[]];
        size := 0;
      }
      forall i | 0 <= i < cache.Length { cache[i] := 0; }
      len := 0;
    }

    /** binlog_write: append to the cache, flush when little room is left.  The copy does not look at
        the room; `overrun` is a line that goes past the end, where the model stops. */
    method WriteLine(line: Line, o: Outcome) returns (overrun: bool)
      requires Valid()
      modifies this`len, this`files, this`index, this`size, this`store, cache
      ensures Valid() && (overrun <==> !old(Room(store, line)))
      ensures store == if overrun then old(store) else Write(old(store), line, o)
    {
      if len + |line| >= CACHE_SIZE { return true; }
      FlattenConcat(store.cache, [line]);
      FlattenOne(line);
      Put(cache, len, line + [0]);
      assert cache[..len + |line|] == cache[..len + |line| + 1][..len + |line|];
      len := len + |line|;
      store := store.(cache := store.cache + [line]);
      if CACHE_SIZE - len < LINE_ROOM { FlushCache(o); }
      return false;
    }
  }
}
