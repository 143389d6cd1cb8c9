/** The buffered line reader over one binlog file. */
module BinlogReaders {
  import opened Buffers
  import opened Lines
  import BinlogWriters

  const BUFFER_SIZE: nat := 65536   // BINLOG_BUFFER_SIZE
  const RECORD_SIZE: nat := 256     // BINLOG_RECORD_SIZE

  datatype FileState = Ok | NoData | End | Error

  /** The sizes a read() at descriptor offset pos may return: 0 exactly at the end of the file or
      with no room left, else any part of what is there. */
  ghost predicate Readable(file: seq<Byte>, pos: nat, room: nat, n: nat) {
    n <= room && pos + n <= |file| && (n == 0 <==> pos == |file| || room == 0)
  }

  lemma Parts(s: seq<Byte>, at: nat, len: nat, k: nat)
    requires at + len <= |s| && k <= len
    ensures s[at..at + k] == s[at..at + len][..k] && s[at + k..at + len] == s[at..at + len][k..]
  {
  }

  /** Where a buffer agrees with the file, so do the two parts of the stretch. */
  lemma CutSlices(b: seq<Byte>, at: nat, file: seq<Byte>, from: nat, len: nat, k: nat)
    requires at + len <= |b| && from + len <= |file| && b[at..at + len] == file[from..from + len] && k <= len
    ensures b[at..at + k] == file[from..from + k]
    ensures b[at + k..at + len] == file[from + k..from + len]
  {
    Parts(b, at, len, k);
    Parts(file, from, len, k);
  }

  /** binlog_buff_st with the descriptor's offset; `consumed` counts the bytes handed out. */
  class BinlogReader {
    const buff: array<Byte>
    var cbuff: nat
    var length: nat
    var flag: bool
    var pos: nat
    ghost var consumed: nat

    /** The buffer holds the file's bytes from `consumed` to the descriptor. */
    ghost predicate Valid(file: seq<Byte>)
      reads this, buff
    {
      && buff.Length == BUFFER_SIZE && cbuff + length <= BUFFER_SIZE
      && consumed + length == pos <= |file|
      && buff[cbuff..cbuff + length] == file[consumed..pos]
    }

    constructor (ghost file: seq<Byte>, offset: nat)
      requires offset <= |file|
      ensures Valid(file) && fresh(buff) && consumed == pos == offset && !flag
    {
      buff := new Byte[BUFFER_SIZE](_ => 0);
      cbuff, length, flag, pos, consumed := 0, 0, false, offset, offset;
    }

    lemma ValidGrows(file: seq<Byte>, file': seq<Byte>)
      requires Valid(file) && file <= file'
      ensures Valid(file')
    {
      assert file'[consumed..pos] == file[consumed..pos];
    }

    /** memchr over the unread bytes. */
    method FindNewline(ghost file: seq<Byte>) returns (k: nat)
      requires Valid(file)
      ensures k <= length && forall i | consumed <= i < consumed + k :: file[i] != NEWLINE
      ensures k < length ==> file[consumed + k] == NEWLINE
    {
      k := 0;
      while k < length
        invariant k <= length
        invariant forall i | consumed <= i < consumed + k :: file[i] != NEWLINE
      {
        assert buff[cbuff + k] == buff[cbuff..cbuff + length][k] == file[consumed + k];
        if buff[cbuff + k] == NEWLINE { return; }
        k := k + 1;
      }
    }

    /** __binlog_record_read_do: cut the next line out of the buffer if it is all there. */
    method CutRecord(ghost file: seq<Byte>) returns (state: FileState, record: seq<Byte>)
      requires Valid(file)
      modifies this`cbuff, this`length, this`consumed
      ensures Valid(file)
      ensures state == Ok ==> && LineEnd(file, old(consumed)) == consumed <= pos
                              && record == file[old(consumed)..consumed] && |record| < RECORD_SIZE
      ensures state != Ok ==> unchanged(this)
      ensures state == NoData ==> forall i | consumed <= i < pos :: file[i] != NEWLINE
      ensures state == Error ==> LineEnd(file, consumed) - consumed >= RECORD_SIZE && LineEnd(file, consumed) <= pos
      ensures state != End
    {
      var k := FindNewline(file);
      if k == length { return NoData, []; }
      LineEndUnique(file, consumed, consumed + k + 1);
      if k + 1 >= RECORD_SIZE { return Error, []; }
      record := buff[cbuff..cbuff + k + 1];
      CutSlices(buff[..], cbuff, file, consumed, length, k + 1);
      cbuff, length, consumed := cbuff + k + 1, length - (k + 1), consumed + k + 1;
      return Ok, record;
    }

    /** memcpy of the unread bytes to the front of the buffer, byte by byte. */
    method Compact(ghost file: seq<Byte>)
      requires Valid(file)
      modifies this`cbuff, buff
      ensures Valid(file) && cbuff == 0
    {
      ghost var was := buff[cbuff..cbuff + length];
      for i := 0 to length
        modifies buff
        invariant buff[..i] == was[..i]
        invariant buff[cbuff + i..cbuff + length] == was[i..]
      {
        assert buff[cbuff + i] == was[i];
        buff[i] := buff[cbuff + i];
      }
      cbuff := 0;
    }

    /** read(): n bytes of the file go behind the unread ones. */
    method Receive(file: seq<Byte>, n: nat)
      requires Valid(file) && cbuff == 0 && length + n <= BUFFER_SIZE && pos + n <= |file|
      modifies this`length, this`pos, buff
      ensures Valid(file) && pos == old(pos) + n
    {
      Put(buff, length, file[pos..pos + n]);
      assert file[consumed..pos] + file[pos..pos + n] == file[consumed..pos + n];
      length, pos := length + n, pos + n;
    }

    /** __binlog_file_read; n is what read() returns, `current` whether this is the file being
        written. */
    method FileRead(file: seq<Byte>, n: nat, current: bool) returns (state: FileState)
      requires Valid(file) && Readable(file, pos, BUFFER_SIZE - length, n)
      modifies this`cbuff, this`length, this`flag, this`pos, buff
      ensures Valid(file)
      ensures state == Ok ==> pos == old(pos) + n > old(pos)
      ensures state != Ok ==> pos == old(pos) && (n == 0 || (flag && length == 0))
      ensures state == NoData ==> current
      ensures state == End ==> flag
      ensures (current ==> flag == old(flag)) && state != Error
    {
      if flag && length == 0 { return End; }
      if cbuff != 0 { Compact(file); }
      if n == 0 {
        if current { return NoData; }
        flag := true;
        return End;
      }
      Receive(file, n);
      return Ok;
    }

    /** __binlog_record_read: try the buffer, then one read, then the buffer again. */
    method RecordRead(file: seq<Byte>, n: nat, current: bool) returns (state: FileState, record: seq<Byte>)
      requires Valid(file) && Readable(file, pos, BUFFER_SIZE - length, n)
      modifies this, buff
      ensures Valid(file)
      ensures state == Ok ==> && LineEnd(file, old(consumed)) == consumed <= |file|
                              && record == file[old(consumed)..consumed] && |record| < RECORD_SIZE
      ensures state != Ok ==> consumed == old(consumed)
      ensures state == NoData || state == End ==> forall i | consumed <= i < pos :: file[i] != NEWLINE
      ensures state == Error ==> LineEnd(file, consumed) <= |file| && LineEnd(file, consumed) - consumed >= RECORD_SIZE
      ensures current ==> flag == old(flag)
      ensures old(pos) <= pos && (state != Ok && pos == old(pos) ==> state == Error || n == 0 || (flag && length == 0))
    {
      state, record := CutRecord(file);
      if state != NoData { return; }
      state := FileRead(file, n, current);
      if state != Ok { return; }
      state, record := CutRecord(file);
    }
  }

  /** What read() makes of a wished-for size. */
  function Clip(file: seq<Byte>, pos: nat, room: nat, wish: nat): (n: nat)
    requires pos <= |file|
    ensures Readable(file, pos, room, n)
  {
    var most := if room < |file| - pos then room else |file| - pos;
    if most == 0 then 0 else if wish == 0 then 1 else if wish > most then most else wish
  }

  /** No line of the file is too long for a record. */
  ghost predicate ShortLines(file: seq<Byte>, from: nat)
    requires from <= |file|
    decreases |file| - from
  {
    var e := LineEnd(file, from);
    if e > |file| then |file| - from < RECORD_SIZE else e - from < RECORD_SIZE && ShortLines(file, e)
  }

  /** The lines `records` of s begin at `from` and end at `to`. */
  ghost predicate Cut(s: seq<Byte>, from: nat, records: seq<seq<Byte>>, to: nat)
    requires from <= |s|
    decreases |records|
  {
    if records == [] then from == to
    else
      var e := LineEnd(s, from);
      e <= |s| && records[0] == s[from..e] && Cut(s, e, records[1..], to)
  }

  /** What has been cut stays cut when the file grows. */
  lemma {:induction false} CutGrows(s: seq<Byte>, t: seq<Byte>, from: nat, records: seq<seq<Byte>>, to: nat)
    requires s <= t && from <= |s| && Cut(s, from, records, to)
    ensures Cut(t, from, records, to)
    decreases |records|
  {
    if records != [] {
      var e := LineEnd(s, from);
      assert forall i | 0 <= i < |s| :: t[i] == s[i];
      LineEndUnique(t, from, e);
      assert t[from..e] == s[from..e];
      CutGrows(s, t, e, records[1..], to);
    }
  }

  lemma {:induction false} CutMore(s: seq<Byte>, from: nat, records: seq<seq<Byte>>, to: nat)
    requires from <= |s| && to <= |s| && Cut(s, from, records, to) && LineEnd(s, to) <= |s|
    ensures Cut(s, from, records + [s[to..LineEnd(s, to)]], LineEnd(s, to))
    decreases |records|
  {
    var line := s[to..LineEnd(s, to)];
    if records == [] {
      assert (records + [line])[1..] == [];
    } else {
      CutMore(s, LineEnd(s, from), records[1..], to);
      assert (records + [line])[1..] == records[1..] + [line];
    }
  }

  /** When no newline is left, the lines cut are all of them. */
  lemma {:induction false} CutAll(s: seq<Byte>, from: nat, records: seq<seq<Byte>>, to: nat)
    requires from <= |s| && to <= |s| && Cut(s, from, records, to)
    requires forall i | to <= i < |s| :: s[i] != NEWLINE
    ensures LinesFrom(s, from) == records && Tail(s, from) == to
    decreases |records|
  {
    if records == [] {
      assert LineEnd(s, from) > |s|;
    } else {
      CutAll(s, LineEnd(s, from), records[1..], to);
    }
  }

  /** A file as the reader finds it at each call; it only grows, and no further than `last`. */
  ghost predicate Grows(looks: nat -> seq<Byte>, last: seq<Byte>) {
    forall k: nat :: GrowsAt(looks, last, k)
  }

  ghost predicate GrowsAt(looks: nat -> seq<Byte>, last: seq<Byte>, k: nat) {
    looks(k) <= looks(k + 1) && looks(k) <= last
  }

  /** However read() cuts the file up and whatever is appended between two calls, successive calls
      yield exactly the lines that the file has when a call finds no more, each a whole one and all in
      order, and leave the unfinished last line in the buffer. */
  method ReadFile(looks: nat -> seq<Byte>, ghost last: seq<Byte>, offset: nat, wish: nat -> nat)
    returns (records: seq<seq<Byte>>, r: BinlogReader, k: nat)
    requires Grows(looks, last) && offset <= |looks(0)| && offset <= |last| && ShortLines(last, offset)
    ensures offset <= |looks(k)| && records == LinesFrom(looks(k), offset) && AllLines(records)
    ensures r.Valid(looks(k)) && r.pos == |looks(k)| && r.consumed == Tail(looks(k), offset)
  {
    records, r, k := ReadLines(looks, last, offset, wish);
    SplitIsLines(looks(k), offset);
  }

  /** The calls themselves. */
  method ReadLines(looks: nat -> seq<Byte>, ghost last: seq<Byte>, offset: nat, wish: nat -> nat)
    returns (records: seq<seq<Byte>>, r: BinlogReader, k: nat)
    requires Grows(looks, last) && offset <= |looks(0)| && offset <= |last| && ShortLines(last, offset)
    ensures offset <= |looks(k)| && records == LinesFrom(looks(k), offset)
    ensures r.Valid(looks(k)) && r.pos == |looks(k)| && r.consumed == Tail(looks(k), offset)
  {
    r := new BinlogReader(looks(0), offset);
    records, k := [], 0;
    assert GrowsAt(looks, last, 0);
    while true
      invariant GrowsAt(looks, last, k) && offset <= |looks(k)|
      invariant r.Valid(looks(k)) && fresh(r) && fresh(r.buff) && !r.flag
      invariant ShortLines(last, r.consumed) && Cut(looks(k), offset, records, r.consumed)
      decreases |last| - r.consumed, |last| - r.pos
    {
      var more;
      more, records := ReadOne(looks(k), last, offset, records, r, wish(k));
      if !more { return; }
      assert GrowsAt(looks, last, k) && GrowsAt(looks, last, k + 1);
      r.ValidGrows(looks(k), looks(k + 1));
      CutGrows(looks(k), looks(k + 1), offset, records, r.consumed);
      k := k + 1;
    }
  }

  /** One call at one state of the file. */
  method ReadOne(
    file: seq<Byte>, ghost last: seq<Byte>, ghost offset: nat, records: seq<seq<Byte>>, r: BinlogReader, wish: nat)
    returns (more: bool, records': seq<seq<Byte>>)
    requires file <= last && offset <= |file| && r.Valid(file) && !r.flag
    requires ShortLines(last, r.consumed) && Cut(file, offset, records, r.consumed)
    modifies r, r.buff
    ensures r.Valid(file) && !r.flag && r.consumed >= old(r.consumed) && r.pos >= old(r.pos)
    ensures ShortLines(last, r.consumed) && Cut(file, offset, records', r.consumed)
    ensures more ==> r.consumed > old(r.consumed) || r.pos > old(r.pos)
    ensures !more ==> r.pos == |file| && records' == LinesFrom(file, offset) && r.consumed == Tail(file, offset)
  {
    var n := Clip(file, r.pos, BUFFER_SIZE - r.length, wish);
    ghost var from := r.consumed;
    var was := r.pos;
    ShortHere(file, last, from);
    var state, record := r.RecordRead(file, n, true);
    if state == Ok {
      CutMore(file, offset, records, from);
      return true, records + [record];
    }
    if r.pos > was { return true, records; }
    CutAll(file, offset, records, from);
    return false, records;
  }

  /** The next line is short in every part of the file. */
  lemma ShortHere(s: seq<Byte>, t: seq<Byte>, from: nat)
    requires s <= t && from <= |s| && ShortLines(t, from)
    ensures LineEnd(s, from) - from < RECORD_SIZE + 1
    ensures LineEnd(s, from) <= |s| ==> LineEnd(t, from) == LineEnd(s, from) && LineEnd(s, from) - from < RECORD_SIZE
    ensures LineEnd(s, from) <= |s| ==> ShortLines(t, LineEnd(s, from))
  {
    var e := LineEnd(s, from);
    assert forall i | 0 <= i < |s| :: t[i] == s[i];
    if e <= |s| { LineEndUnique(t, from, e); }
  }

  // ---- records and bytes

  /** Where record k of a file of whole lines begins. */
  ghost function Start(ls: seq<seq<Byte>>, k: nat): (p: nat)
    requires k <= |ls|
  {
    |Flatten(ls[..k])|
  }

  lemma FlattenAt(ls: seq<seq<Byte>>, k: nat) returns (a: seq<Byte>, b: seq<Byte>)
    requires k < |ls|
    ensures Flatten(ls) == a + ls[k] + b && |a| == Start(ls, k) && |a| + |ls[k]| == Start(ls, k + 1)
  {
    var head, tail := ls[..k], ls[k + 1..];
    assert ls[..k + 1] == head + [ls[k]] && ls == (head + [ls[k]]) + tail;
    FlattenConcat(head + [ls[k]], tail);
    FlattenConcat(head, [ls[k]]);
    FlattenOne(ls[k]);
    a, b := Flatten(head), Flatten(tail);
  }

  lemma LineBetween(s: seq<Byte>, a: seq<Byte>, line: seq<Byte>, b: seq<Byte>)
    requires s == a + line + b && IsLine(line)
    ensures LineEnd(s, |a|) == |a| + |line| && s[|a|..|a| + |line|] == line
  {
    assert forall i | 0 <= i < |line| :: s[|a| + i] == line[i];
    LineEndUnique(s, |a|, |a| + |line|);
  }

  /** Counting records and counting bytes is the same: record k ends where record k + 1 begins, and
      behind the last there is no byte. */
  lemma RecordBytes(ls: seq<seq<Byte>>, k: nat, s: seq<Byte>)
    requires AllLines(ls) && k <= |ls| && s == Flatten(ls)
    ensures Start(ls, k) <= |s| && (k < |ls| ==> LineEnd(s, Start(ls, k)) == Start(ls, k + 1) <= |s|)
    ensures k < |ls| ==> s[Start(ls, k)..Start(ls, k + 1)] == ls[k]
    ensures k == |ls| ==> Start(ls, k) == |s|
  {
    if k < |ls| {
      var a, b := FlattenAt(ls, k);
      LineBetween(s, a, ls[k], b);
    } else {
      assert ls[..k] == ls;
    }
  }

  /** __binlog_record_read in records: a call that yields a record reads record k of the file, and one
      that finds nothing with the descriptor at the end has read them all. */
  method ReadRecord(ghost ls: seq<seq<Byte>>, ghost k: nat, file: seq<Byte>, r: BinlogReader, n: nat, current: bool)
    returns (state: FileState, record: seq<Byte>)
    requires AllLines(ls) && k <= |ls| && file == Flatten(ls)
    requires r.Valid(file) && r.consumed == Start(ls, k) && Readable(file, r.pos, BUFFER_SIZE - r.length, n)
    modifies r, r.buff
    ensures r.Valid(file)
    ensures state == Ok ==> k < |ls| && record == ls[k] && r.consumed == Start(ls, k + 1)
    ensures state != Ok ==> r.consumed == Start(ls, k)
    ensures (state == NoData || state == End) && r.pos == |file| ==> k == |ls|
  {
    RecordBytes(ls, k, file);
    state, record := r.RecordRead(file, n, current);
  }

  // ---- reading back what was written

  lemma {:induction false} RecordsAreShort(ls: seq<seq<Byte>>, s: seq<Byte>, from: nat)
    requires BinlogWriters.AllRecords(ls) && from <= |s| && s[from..] == Flatten(ls)
    ensures ShortLines(s, from)
    decreases |ls|
  {
    if ls == [] {
      assert from == |s|;
    } else {
      var e := from + |ls[0]|;
      assert s[from..] == ls[0] + Flatten(ls[1..]);
      assert forall i | from <= i < e :: s[i] == s[from..][i - from] == ls[0][i - from];
      LineEndUnique(s, from, e);
      assert s[e..] == s[from..][|ls[0]|..];
      RecordsAreShort(ls[1..], s, e);
    }
  }

  lemma {:induction false} FilesHoldRecords(files: seq<seq<seq<Byte>>>, f: nat)
    requires BinlogWriters.AllRecords(Flatten(files)) && f < |files|
    ensures BinlogWriters.AllRecords(files[f])
    decreases f
  {
    var all := Flatten(files);
    assert all == files[0] + Flatten(files[1..]);
    if f == 0 {
      assert forall i | 0 <= i < |files[0]| :: files[0][i] == all[i];
    } else {
      assert forall i | 0 <= i < |Flatten(files[1..])| :: Flatten(files[1..])[i] == all[|files[0]| + i];
      FilesHoldRecords(files[1..], f - 1);
    }
  }

  /** Write, rotate, read: after any run of the writer in which the cache had room, reading file f
      from its start yields the very lines that went into it, and all files and the cache together
      hold all lines written, in order, if and only if no flush ended unsynced. */
  lemma ReadsBackWhatWasWritten(es: seq<BinlogWriters.Event>, f: nat)
    requires BinlogWriters.Proper(es) && BinlogWriters.Fits(BinlogWriters.EMPTY, es)
    requires f < |BinlogWriters.Apply(BinlogWriters.EMPTY, es).files|
    ensures var s := BinlogWriters.Apply(BinlogWriters.EMPTY, es);
            var bytes := Flatten(s.files[f]);
            && ShortLines(bytes, 0) && LinesFrom(bytes, 0) == s.files[f] && Tail(bytes, 0) == |bytes|
            && (Flatten(s.files) + s.cache == BinlogWriters.LinesOf(es)
                <==> BinlogWriters.Synced(BinlogWriters.EMPTY, es))
  {
    var s0 := BinlogWriters.EMPTY;
    assert Flatten(s0.files) == [] by { FlattenOne<seq<Byte>>([]); }
    BinlogWriters.RunConserves(s0, es);
    assert BinlogWriters.Written(s0) + BinlogWriters.LinesOf(es) == BinlogWriters.LinesOf(es);
    BinlogWriters.RunSound(s0, es);
    var s := BinlogWriters.Apply(s0, es);
    assert forall i | 0 <= i < |Flatten(s.files)| :: Flatten(s.files)[i] == BinlogWriters.Written(s)[i];
    FilesHoldRecords(s.files, f);
    var bytes := Flatten(s.files[f]);
    assert bytes[0..] == bytes;
    RecordsAreShort(s.files[f], bytes, 0);
    SplitJoined(s.files[f], bytes, 0);
    JoinSplit(bytes, 0);
  }
}
