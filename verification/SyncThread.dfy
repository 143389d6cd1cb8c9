/** The master's sync thread as it runs: sync_ctx changed in place by asyncctx_init, binlog_read
    and the inner loop, each proved to be the protocol's steps. */
module SyncThreads {
  import opened Options
  import opened Replication

  /** How a look at the binlog ends; the loop goes on after a switch. */
  datatype FileState = Ok | NoData | Again

  /** How sending a record and waiting for the answer ends. */
  datatype Outcome = Acked | Failed

  /** The log as the thread finds it at each of its looks, and when binlog_read returns.  Nothing
      keeps the writer from appending and rotating between two looks. */
  ghost predicate Grows(looks: nat -> Log, last: Log) {
    last.Valid() && forall k: nat :: GrowsAt(looks, last, k)
  }

  ghost predicate GrowsAt(looks: nat -> Log, last: Log, k: nat) {
    Extends(looks(k), looks(k + 1)) && Extends(looks(k), last)
  }

  /** A thread about to read. */
  ghost predicate Ready(l: Log, r: Replica) {
    Inv(l, r) && r.session.Some? && r.session.value.phase == Idle
  }

  /** Once round the loop of binlog_read, whose read() finds the log l and whose comparison finds l1:
      take a record, or see the end and move on to the next file, or report no data. */
  ghost function Turn(l: Log, l1: Log, r: Replica): (r': Replica)
    requires Ready(l, r) && Extends(l, l1)
    ensures Inv(l1, r') && r'.session.Some?
  {
    if Enabled(l, r, Read) then
      InvNext(l, r, Read, false);
      InvLog(l, l1, Next(l, r, Read, false));
      Next(l, r, Read, false)
    else
      var r1 := AtEnd(l, l1, r);
      var e := if r1.session.value.index < l1.Current() then Switch else Wait;
      InvNext(l1, r1, e, false);
      Next(l1, r1, e, false)
  }

  ghost function AtEnd(l: Log, l1: Log, r: Replica): (r': Replica)
    requires Ready(l, r) && Extends(l, l1) && !Enabled(l, r, Read)
    ensures Inv(l1, r') && r' == r.(session := Some(r.session.value.(phase := Ended)))
  {
    InvNext(l, r, SeeEnd, false);
    InvLog(l, l1, Next(l, r, SeeEnd, false));
    Next(l, r, SeeEnd, false)
  }

  /** The thread reads a record, or waits at the file being written. */
  ghost predicate Settles(l: Log, l1: Log, r: Replica)
    requires Ready(l, r) && Extends(l, l1)
  {
    Enabled(l, r, Read) || r.session.value.index == l1.Current()
  }

  lemma Moves(l: Log, l1: Log, r: Replica, r': Replica)
    requires Ready(l, r) && Extends(l, l1) && !Settles(l, l1, r) && r' == Turn(l, l1, r)
    ensures r'.session.value.phase == Idle && r'.session.value.index == r.session.value.index + 1 <= l1.Current()
  {
  }

  lemma GoesOn(l: Log, l1: Log, l2: Log, last: Log, r: Replica, r': Replica)
    requires Ready(l, r) && Extends(l, l1) && !Settles(l, l1, r) && r' == Turn(l, l1, r)
    requires Extends(l1, l2) && Extends(l1, last)
    ensures Ready(l2, r') && r'.session.value.index == r.session.value.index + 1 <= last.Current()
  {
    Moves(l, l1, r, r');
    InvLog(l1, l2, r');
  }

  /** binlog_read on the protocol, from look k on. */
  ghost function Reading(looks: nat -> Log, last: Log, k: nat, r: Replica): (r': Replica)
    requires Grows(looks, last) && Ready(looks(k), r)
    decreases last.Current() - r.session.value.index
  {
    assert GrowsAt(looks, last, k) && GrowsAt(looks, last, k + 1);
    if Settles(looks(k), looks(k + 1), r) then Turn(looks(k), looks(k + 1), r)
    else
      var r1 := Turn(looks(k), looks(k + 1), r);
      GoesOn(looks(k), looks(k + 1), looks(k + 2), last, r, r1);
      Reading(looks, last, k + 2, r1)
  }

  /** The record the thread holds. */
  ghost function HeldRecord(l: Log, r: Replica): (i: nat)
    requires Inv(l, r) && r.session.Some? && r.session.value.phase == Held
    ensures i < |l.recs|
  {
    l.starts[r.session.value.fd] + r.session.value.read - 1
  }

  /** One round of the inner loop on the protocol: ship the record, and either the slave applies it,
      the answer arrives and the mark is looked at, or the loop is left with the record on its way. */
  ghost function Round(l: Log, r: Replica, outcome: Outcome): (r': Replica)
    requires Inv(l, r) && r.session.Some? && r.session.value.phase == Held
    ensures Inv(l, r')
  {
    InvNext(l, r, Ship, false);
    var r1 := Next(l, r, Ship, false);
    if outcome == Failed then
      InvNext(l, r1, Close, false);
      Next(l, r1, Close, false)
    else
      var i := HeldRecord(l, r);
      InvNext(l, r1, Apply(i), false);
      var r2 := Next(l, r1, Apply(i), false);
      InvNext(l, r2, Ack, false);
      var r3 := Next(l, r2, Ack, false);
      InvNext(l, r3, WriteMark, false);
      Next(l, r3, WriteMark, false)
  }

  /** The loop of __binlog_sync_offset_locate over the file being written. */
  method Locate(l: Log, sequence: int) returns (offset: nat)
    requires l.Valid()
    ensures offset == Located(l, l.Current(), sequence, 0)
  {
    var index := l.Current();
    offset := 0;
    while l.starts[index] + offset < l.End(index) && l.recs[l.starts[index] + offset] <= sequence
      invariant l.starts[index] + offset <= l.End(index)
      invariant Located(l, index, sequence, 0) == Located(l, index, sequence, offset)
      decreases l.End(index) - l.starts[index] - offset
    {
      offset := offset + 1;
    }
  }

  class SyncThread {
    var mark: Option<Mark>
    var running: bool
    var index: nat
    var offset: nat
    var fd: nat
    var read: nat
    var count: nat
    var lastCount: nat
    var phase: Phase

    ghost predicate Tracks(r: Replica)
      reads this
    {
      && r.mark == mark
      && r.session == if running then Some(Session(index, offset, fd, read, count, lastCount, phase)) else None
    }

    /** sync_mark_file_batdata_write */
    method WriteMarkFile()
      modifies this`mark, this`lastCount
      ensures mark == Some(Mark(index, offset, count)) && lastCount == count
    {
      mark, lastCount := Some(Mark(index, offset, count)), count;
    }

    /** asyncctx_init */
    method Init(l: Log, lastSyncSequence: int, ghost r: Replica)
      requires Tracks(r) && Inv(l, r) && !running
      modifies this
      ensures Tracks(Next(l, r, Start(lastSyncSequence), false)) && running && phase == Idle
    {
      if mark.Some? {
        index, offset, count := mark.value.index, mark.value.offset, mark.value.count;
        lastCount := count;
      } else {
        var n := Locate(l, lastSyncSequence);
        index, offset, count := l.Current(), n, 0;
        WriteMarkFile();
      }
      fd, read, phase, running := index, offset, Idle, true;
    }

    /** The body of binlog_read's loop: on to the next file, with the descriptor left as it is. */
    method SwitchFile(l: Log, ghost r: Replica)
      requires l.Valid() && Tracks(r) && running && Enabled(l, r, Switch)
      modifies this
      ensures Tracks(Next(l, r, Switch, false)) && running && phase == Idle && index == old(index) + 1
    {
      index, offset, phase := index + 1, 0, Idle;
      WriteMarkFile();
    }

    /** read() has returned a record. */
    method TakeRecord(l: Log, ghost r: Replica)
      requires Tracks(r) && Inv(l, r) && running && phase == Idle && Enabled(l, r, Read)
      modifies this`read, this`phase
      ensures Tracks(Next(l, r, Read, false)) && phase == Held && read == old(read) + 1
    {
      read, phase := read + 1, Held;
    }

    /** read() has returned nothing.  Which file is being written now? */
    method LeaveFile(l: Log, ghost r: Replica) returns (moved: bool)
      requires Tracks(r) && Inv(l, r) && running && phase == Ended
      modifies this
      ensures running && phase == Idle && (moved <==> old(index) < l.Current())
      ensures Tracks(Next(l, r, if moved then Switch else Wait, false))
      ensures index == if moved then old(index) + 1 else old(index)
    {
      if index == l.Current() {
        phase := Idle;
        return false;
      }
      SwitchFile(l, r);
      return true;
    }

    /** Once round binlog_read's loop. */
    method ReadOrSwitch(l: Log, l1: Log, ghost r: Replica) returns (state: FileState)
      requires Tracks(r) && Ready(l, r) && Extends(l, l1)
      modifies this
      ensures running && Tracks(Turn(l, l1, r)) && (state == Again <==> !Settles(l, l1, r))
      ensures state == Ok ==> Enabled(l, r, Read) && phase == Held && fd == old(fd) && read == old(read) + 1
      ensures state == NoData ==> phase == Idle && index == l1.Current()
      ensures state == Again ==> phase == Idle && index == old(index) + 1 <= l1.Current()
    {
      if l.starts[fd] + read < l.End(fd) {
        TakeRecord(l, r);
        return Ok;
      }
      phase := Ended;
      var moved := LeaveFile(l1, AtEnd(l, l1, r));
      return if moved then Again else NoData;
    }

    /** binlog_read: `rec` is the record's place in the log. */
    method BinlogRead(looks: nat -> Log, ghost last: Log, ghost r: Replica) returns (state: FileState, rec: nat)
      requires Grows(looks, last) && Tracks(r) && Ready(looks(0), r)
      modifies this
      ensures running && Tracks(Reading(looks, last, 0, r)) && state != Again
      ensures state == Ok ==> phase == Held && fd < |last.starts| && rec == last.starts[fd] + read - 1 < |last.recs|
      ensures state == NoData ==> phase == Idle && exists k: nat :: |looks(k).starts| == index + 1
    {
      ghost var r1 := r;
      var k := 0;
      while true
        invariant running && Tracks(r1) && Ready(looks(k), r1)
        invariant Reading(looks, last, 0, r) == Reading(looks, last, k, r1)
        decreases last.Current() - index
      {
        assert GrowsAt(looks, last, k) && GrowsAt(looks, last, k + 1);
        state := ReadOrSwitch(looks(k), looks(k + 1), r1);
        if state != Again {
          return state, if state == Ok then looks(k).starts[fd] + read - 1 else 0;
        }
        ghost var r2 := Turn(looks(k), looks(k + 1), r1);
        GoesOn(looks(k), looks(k + 1), looks(k + 2), last, r1, r2);
        r1 := r2;
        k := k + 2;
      }
    }

    /** The rest of an inner round, and what follows the loop when it is left. */
    method Deliver(l: Log, outcome: Outcome, ghost r: Replica)
      requires Tracks(r) && Inv(l, r) && running && phase == Held
      modifies this
      ensures Tracks(Round(l, r, outcome))
    {
      match outcome
      case Failed =>
        if lastCount != count { WriteMarkFile(); }
        running := false;
      case Acked =>
        offset, count, phase := offset + 1, count + 1, Idle;
        if count - lastCount >= MARK_EVERY { WriteMarkFile(); }
    }
  }
}
