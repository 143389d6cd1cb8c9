/** Binlog replication from a master to one slave, as steps of a crash-prone protocol. */
module Replication {
  import opened Options

  /** WRITE_TO_BAT_FILE_BY_SYNC_COUNT */
  const MARK_EVERY: nat := 2

  // ---- the log

  /** The flushed binlog: every record's sequence number in log order, and the record at
      which each file begins.  The last file is the one being written. */
  datatype Log = Log(recs: seq<int>, starts: seq<nat>) {
    ghost predicate Valid() {
      && |starts| > 0 && starts[0] == 0 && starts[|starts| - 1] <= |recs|
      && forall f, g | 0 <= f < g < |starts| :: starts[f] < starts[g]
    }

    function Current(): nat
      requires |starts| > 0
    {
      |starts| - 1
    }

    /** One past the last record of file f. */
    function End(f: nat): nat
      requires f < |starts|
    {
      if f + 1 < |starts| then starts[f + 1] else |recs|
    }
  }

  datatype LogStep = Append(recs: seq<int>) | Rotate

  ghost predicate LogEnabled(l: Log, e: LogStep) {
    l.Valid() && (e.Rotate? ==> l.starts[l.Current()] < |l.recs|)
  }

  ghost function LogNext(l: Log, e: LogStep): (l': Log)
    requires LogEnabled(l, e)
    ensures l'.Valid() && Extends(l, l')
  {
    match e
    case Append(recs) => Log(l.recs + recs, l.starts)
    case Rotate => Log(l.recs, l.starts + [|l.recs|])
  }

  ghost predicate Extends(l: Log, l': Log) {
    && l.Valid() && l'.Valid() && l.recs <= l'.recs && |l.starts| <= |l'.starts|
    && (forall f | 0 <= f < |l.starts| :: l'.starts[f] == l.starts[f] && l.End(f) <= l'.End(f))
    && forall f | 0 <= f < |l.starts| - 1 :: l'.End(f) == l.End(f)
  }

  // ---- master's sync thread and slave

  /** What sync_mark_file_batdata_write persists. */
  datatype Mark = Mark(index: nat, offset: nat, count: nat)

  /** Where the sync thread's inner loop stands: about to read, at the end its descriptor's file had
      when read() returned nothing, with a record to deliver, or about to look at the mark. */
  datatype Phase = Idle | Ended | Held | Marking

  /** sync_ctx.  `index` and `offset` are b_index and b_offset in records; `fd` is the file
      b_fd is open on and `read` how many of its records have been taken from it. */
  datatype Session = Session(index: nat, offset: nat, fd: nat, read: nat, count: nat, lastCount: nat, phase: Phase)

  /** One slave as seen from everywhere: the master's mark file and thread, the records on
      their way, the records applied in order of arrival, the slave's last_sync_sequence and
      the tracker's copy of it.  The slave got records 0 .. base-1 by full sync, which left it
      with last_sync_sequence `synced`. */
  datatype Replica = Replica(base: nat, synced: int, mark: Option<Mark>, session: Option<Session>,
                             inflight: set<nat>, applied: seq<nat>, lastSync: int, reported: int)

  datatype Event =
    | Start(sequence: int)   // asyncctx_init, with the slave's sequence as the tracker told it
    | Read                   // binlog_read returns a record
    | SeeEnd                 // read() returns nothing
    | Switch                 // binlog_read finds a newer file being written and moves on by one
    | Wait                   // or finds its own file being written and reports no data
    | Ship                   // the record goes out
    | Apply(rec: nat)        // the slave applies a record
    | Ack                    // the master hears about it: b_offset and sync_count advance
    | WriteMark              // the mark is written if MARK_EVERY records are unmarked
    | Close                  // the inner loop ends; the mark is written if behind
    | Crash                  // the thread is gone
    | Report                 // the slave's sync report reaches the tracker
    | Forget(sequence: int)  // the slave restarts with an older last_sync_sequence

  /** __binlog_sync_offset_locate: how many leading records of file f the slave is not missing. */
  ghost function Located(l: Log, f: nat, sequence: int, n: nat): (r: nat)
    requires l.Valid() && f < |l.starts| && l.starts[f] + n <= l.End(f)
    ensures n <= r && l.starts[f] + r <= l.End(f)
    ensures forall i | l.starts[f] + n <= i < l.starts[f] + r :: l.recs[i] <= sequence
    ensures l.starts[f] + r < l.End(f) ==> sequence < l.recs[l.starts[f] + r]
    decreases l.End(f) - l.starts[f] - n
  {
    assert l.End(f) <= |l.recs|;
    if l.starts[f] + n < l.End(f) && l.recs[l.starts[f] + n] <= sequence then Located(l, f, sequence, n + 1) else n
  }

  ghost predicate Enabled(l: Log, r: Replica, e: Event)
    requires l.Valid()
  {
    match e
    case Start(_) => r.session.None?
    case Read => r.session.Some? && (var s := r.session.value;
      s.phase == Idle && s.fd < |l.starts| && l.starts[s.fd] + s.read < l.End(s.fd))
    case SeeEnd => r.session.Some? && (var s := r.session.value;
      s.phase == Idle && s.fd < |l.starts| && l.starts[s.fd] + s.read >= l.End(s.fd))
    case Switch => r.session.Some? && r.session.value.phase == Ended && r.session.value.index < l.Current()
    case Wait => r.session.Some? && r.session.value.phase == Ended && r.session.value.index == l.Current()
    case Ship => r.session.Some? && r.session.value.phase == Held
    case Apply(i) => i in r.inflight && i < |l.recs|
    case Ack => r.session.Some? && (var s := r.session.value;
      s.phase == Held && s.fd < |l.starts| && s.read > 0 && l.starts[s.fd] + s.read - 1 in r.applied)
    case WriteMark => r.session.Some? && r.session.value.phase == Marking
    case Close => r.session.Some? && r.session.value.phase != Marking
    case Crash => r.session.Some?
    case Report => true
    case Forget(v) => v <= r.lastSync
  }

  /** The literal file switch leaves the reader's descriptor where it is; `reopen` is the
      switch that opens the new file for the reader. */
  ghost function Next(l: Log, r: Replica, e: Event, reopen: bool): (r': Replica)
    requires l.Valid() && Enabled(l, r, e)
  {
    match e
    case Start(q) =>
      if r.mark.Some? then
        var m := r.mark.value;
        r.(session := Some(Session(m.index, m.offset, m.index, m.offset, m.count, m.count, Idle)))
      else
        var f := l.Current();
        var n := Located(l, f, q, 0);
        r.(mark := Some(Mark(f, n, 0)), session := Some(Session(f, n, f, n, 0, 0, Idle)))
    case Read =>
      var s := r.session.value;
      r.(session := Some(s.(read := s.read + 1, phase := Held)))
    case SeeEnd => r.(session := Some(r.session.value.(phase := Ended)))
    case Wait => r.(session := Some(r.session.value.(phase := Idle)))
    case Switch =>
      var s := r.session.value;
      var s' := s.(index := s.index + 1, offset := 0, lastCount := s.count, phase := Idle);
      r.(mark := Some(Mark(s.index + 1, 0, s.count)),
         session := Some(if reopen then s'.(fd := s.index + 1, read := 0) else s'))
    case Ship =>
      var s := r.session.value;
      if s.fd < |l.starts| && s.read > 0 then r.(inflight := r.inflight + {l.starts[s.fd] + s.read - 1}) else r
    case Apply(i) =>
      r.(inflight := r.inflight - {i}, applied := r.applied + [i],
         lastSync := if l.recs[i] > r.lastSync then l.recs[i] else r.lastSync)
    case Ack =>
      var s := r.session.value;
      r.(session := Some(s.(offset := s.offset + 1, count := s.count + 1, phase := Marking)))
    case WriteMark =>
      var s := r.session.value;
      if s.count - s.lastCount >= MARK_EVERY then Marked(r, s) else r.(session := Some(s.(phase := Idle)))
    case Close =>
      var s := r.session.value;
      (if s.count != s.lastCount then Marked(r, s) else r).(session := None)
    case Crash => r.(session := None)
    case Report => r.(reported := r.lastSync)
    case Forget(v) => r.(lastSync := v)
  }

  ghost function Marked(r: Replica, s: Session): (r': Replica) {
    r.(mark := Some(Mark(s.index, s.offset, s.count)), session := Some(s.(lastCount := s.count, phase := Idle)))
  }

  // ---- what every reachable state satisfies

  ghost function Pos(l: Log, index: nat, offset: nat): (p: nat)
    requires index < |l.starts|
  {
    l.starts[index] + offset
  }

  /** The file beyond whose end nothing has been read yet. */
  ghost function Horizon(r: Replica): (f: nat)
    requires r.mark.Some?
  {
    if r.session.Some? then r.session.value.fd else r.mark.value.index
  }

  ghost predicate SessionInv(l: Log, m: Mark, s: Session)
    requires l.Valid()
  {
    && m.index == s.index && m.count == s.lastCount <= s.count
    && s.offset - m.offset == s.count - s.lastCount
    && s.count - s.lastCount < (if s.phase == Marking then MARK_EVERY + 1 else MARK_EVERY)
    && s.fd <= s.index < |l.starts|
    && (s.fd == s.index ==> s.offset + (if s.phase == Held then 1 else 0) == s.read)
    && (s.phase == Held ==> 0 < s.read && l.starts[s.fd] + s.read <= l.End(s.fd))
  }

  /** The slave has nothing from record p on, and nothing of it is on its way. */
  ghost predicate Before(r: Replica, p: nat) {
    r.base <= p && (forall i | i in r.applied :: i < p) && (forall i | i in r.inflight :: i < p)
  }

  ghost predicate Inv(l: Log, r: Replica) {
    && l.Valid() && r.base <= |l.recs|
    && (r.mark.None? ==> r.session.None? && r.applied == [] && r.inflight == {})
    && (r.mark.Some? && r.session.Some? ==>
          var s := r.session.value;
          SessionInv(l, r.mark.value, s) && (s.phase == Ended ==> Before(r, l.starts[s.fd] + s.read)))
    && (r.mark.Some? ==> r.mark.value.index < |l.starts| && Before(r, l.End(Horizon(r))))
  }

  lemma InvLog(l: Log, l': Log, r: Replica)
    requires Inv(l, r) && Extends(l, l')
    ensures Inv(l', r)
  {
  }

  lemma InvStart(l: Log, r: Replica, e: Event, reopen: bool)
    requires Inv(l, r) && Enabled(l, r, e) && (e.Start? || e.SeeEnd? || e.Switch? || e.Wait?)
    ensures Inv(l, Next(l, r, e, reopen))
  {
  }

  lemma InvThread(l: Log, r: Replica, e: Event, reopen: bool)
    requires Inv(l, r) && Enabled(l, r, e) && (e.Read? || e.Ack? || e.WriteMark? || e.Close? || e.Crash?)
    ensures Inv(l, Next(l, r, e, reopen))
  {
  }

  lemma InvSlave(l: Log, r: Replica, e: Event, reopen: bool)
    requires Inv(l, r) && Enabled(l, r, e) && (e.Ship? || e.Apply? || e.Report? || e.Forget?)
    ensures Inv(l, Next(l, r, e, reopen))
  {
  }

  lemma InvNext(l: Log, r: Replica, e: Event, reopen: bool)
    requires Inv(l, r) && Enabled(l, r, e)
    ensures Inv(l, Next(l, r, e, reopen))
  {
    match e {
      case Start(_) => InvStart(l, r, e, reopen);
      case SeeEnd => InvStart(l, r, e, reopen);
      case Switch => InvStart(l, r, e, reopen);
      case Wait => InvStart(l, r, e, reopen);
      case Ship => InvSlave(l, r, e, reopen);
      case Apply(_) => InvSlave(l, r, e, reopen);
      case Report => InvSlave(l, r, e, reopen);
      case Forget(_) => InvSlave(l, r, e, reopen);
      case _ => InvThread(l, r, e, reopen);
    }
  }

  // ---- no gap

  ghost predicate Has(r: Replica, i: nat) {
    i < r.base || i in r.applied
  }

  /** Nothing before the mark, nor before the thread's position, is missing on the slave. */
  ghost predicate GapFree(l: Log, r: Replica)
    requires Inv(l, r)
  {
    && (r.mark.Some? ==> forall i: nat | i < Pos(l, r.mark.value.index, r.mark.value.offset) :: Has(r, i))
    && (r.session.Some? ==> forall i: nat | i < Pos(l, r.session.value.index, r.session.value.offset) :: Has(r, i))
  }

  /** How far the slave has got: the applied records, repeats ignored, continue the full sync
      in log order. */
  ghost function Water(base: nat, applied: seq<nat>): (w: nat)
    ensures base <= w
  {
    if applied == [] then base
    else
      var w := Water(base, applied[..|applied| - 1]);
      if applied[|applied| - 1] == w then w + 1 else w
  }

  ghost predicate InOrder(base: nat, applied: seq<nat>) {
    applied != [] ==>
      && InOrder(base, applied[..|applied| - 1])
      && applied[|applied| - 1] <= Water(base, applied[..|applied| - 1])
  }

  lemma WaterGrows(base: nat, applied: seq<nat>, i: nat)
    ensures Water(base, applied + [i]) == if i == Water(base, applied) then i + 1 else Water(base, applied)
    ensures InOrder(base, applied + [i]) <==> InOrder(base, applied) && i <= Water(base, applied)
  {
    var a := applied + [i];
    assert a[..|a| - 1] == applied;
  }

  /** What arrived in order is exactly what lies below the water. */
  lemma {:induction false} InOrderHas(base: nat, applied: seq<nat>)
    requires InOrder(base, applied)
    ensures forall i: nat :: i < base || i in applied <==> i < Water(base, applied)
  {
    if applied != [] {
      var a := applied[..|applied| - 1];
      InOrderHas(base, a);
      assert applied == a + [applied[|applied| - 1]];
    }
  }

  ghost predicate CleanInv(l: Log, r: Replica)
    requires Inv(l, r)
  {
    var w := Water(r.base, r.applied);
    && InOrder(r.base, r.applied)
    && (forall i | i in r.inflight :: i <= w)
    && (r.mark.Some? ==>
          var m := r.mark.value;
          Pos(l, m.index, m.offset) <= w && Pos(l, m.index, m.offset) <= l.End(m.index))
    && (r.session.Some? ==>
          var s := r.session.value;
          && Pos(l, s.index, s.offset) <= w && l.starts[s.fd] + s.read <= l.End(s.fd)
          && (s.fd < s.index ==> s.offset == 0 && s.phase in {Idle, Ended} && l.starts[s.fd] + s.read == l.End(s.fd)))
  }

  lemma CleanIsGapFree(l: Log, r: Replica)
    requires Inv(l, r) && CleanInv(l, r)
    ensures GapFree(l, r)
  {
    InOrderHas(r.base, r.applied);
  }

  /** The file being written begins no later than the first record the slave is missing, and
      up to there holds one newer than the sequence the tracker told. */
  ghost predicate CanLocate(l: Log, base: nat, sequence: int)
    requires l.Valid()
  {
    && l.starts[l.Current()] <= base
    && (base < |l.recs| ==> exists j | l.starts[l.Current()] <= j <= base :: sequence < l.recs[j])
  }

  /** The branches that can lose records: a first start that locates nothing to go by, and a
      switch taken with the descriptor still on an earlier file or with records appended to the
      file since its end was seen. */
  ghost predicate Clean(l: Log, r: Replica, e: Event)
    requires l.Valid() && Enabled(l, r, e)
  {
    && (e.Start? && r.mark.None? ==> CanLocate(l, r.base, e.sequence))
    && (e.Switch? ==>
          var s := r.session.value;
          s.fd == s.index < |l.starts| && l.starts[s.fd] + s.read >= l.End(s.fd))
  }

  lemma CleanLog(l: Log, l': Log, r: Replica)
    requires Inv(l, r) && CleanInv(l, r) && Extends(l, l')
    ensures Inv(l', r) && CleanInv(l', r)
  {
    InvLog(l, l', r);
  }

  lemma CleanApply(l: Log, r: Replica, e: Event, reopen: bool)
    requires Inv(l, r) && CleanInv(l, r) && Enabled(l, r, e) && e.Apply? && Inv(l, Next(l, r, e, reopen))
    ensures CleanInv(l, Next(l, r, e, reopen))
  {
    WaterGrows(r.base, r.applied, e.rec);
  }

  lemma CleanStart(l: Log, r: Replica, e: Event, reopen: bool)
    requires Inv(l, r) && CleanInv(l, r) && Enabled(l, r, e) && Clean(l, r, e) && e.Start?
    requires Inv(l, Next(l, r, e, reopen))
    ensures CleanInv(l, Next(l, r, e, reopen))
  {
  }

  lemma CleanThread(l: Log, r: Replica, e: Event, reopen: bool)
    requires Inv(l, r) && CleanInv(l, r) && Enabled(l, r, e) && (e.Read? || e.Ack? || e.WriteMark? || e.Close?)
    requires Inv(l, Next(l, r, e, reopen))
    ensures CleanInv(l, Next(l, r, e, reopen))
  {
    InOrderHas(r.base, r.applied);
  }

  lemma CleanEnd(l: Log, r: Replica, e: Event, reopen: bool)
    requires Inv(l, r) && CleanInv(l, r) && Enabled(l, r, e) && Clean(l, r, e)
    requires (e.SeeEnd? || e.Switch? || e.Wait?) && Inv(l, Next(l, r, e, reopen))
    ensures CleanInv(l, Next(l, r, e, reopen))
  {
  }

  lemma CleanSlave(l: Log, r: Replica, e: Event, reopen: bool)
    requires Inv(l, r) && CleanInv(l, r) && Enabled(l, r, e) && (e.Ship? || e.Crash? || e.Report? || e.Forget?)
    requires Inv(l, Next(l, r, e, reopen))
    ensures CleanInv(l, Next(l, r, e, reopen))
  {
  }

  lemma CleanStep(l: Log, r: Replica, e: Event, reopen: bool)
    requires Inv(l, r) && CleanInv(l, r) && Enabled(l, r, e) && Clean(l, r, e)
    ensures Inv(l, Next(l, r, e, reopen)) && CleanInv(l, Next(l, r, e, reopen))
  {
    InvNext(l, r, e, reopen);
    match e {
      case Start(_) => CleanStart(l, r, e, reopen);
      case SeeEnd => CleanEnd(l, r, e, reopen);
      case Switch => CleanEnd(l, r, e, reopen);
      case Wait => CleanEnd(l, r, e, reopen);
      case Apply(_) => CleanApply(l, r, e, reopen);
      case Ship => CleanSlave(l, r, e, reopen);
      case Crash => CleanSlave(l, r, e, reopen);
      case Report => CleanSlave(l, r, e, reopen);
      case Forget(_) => CleanSlave(l, r, e, reopen);
      case _ => CleanThread(l, r, e, reopen);
    }
  }

  lemma DirtyStart(l: Log, r: Replica, e: Event, reopen: bool)
    requires Inv(l, r) && Enabled(l, r, e) && e.Start? && !Clean(l, r, e)
    ensures Inv(l, Next(l, r, e, reopen)) && !GapFree(l, Next(l, r, e, reopen))
  {
    InvNext(l, r, e, reopen);
    var r', f := Next(l, r, e, reopen), l.Current();
    var n := Located(l, f, e.sequence, 0);
    if l.starts[f] <= r.base { assert r.base < |l.recs| && e.sequence >= l.recs[r.base]; }
    assert r.base < Pos(l, f, n) && !Has(r', r.base);
  }

  lemma DirtySwitch(l: Log, r: Replica, e: Event, reopen: bool)
    requires Inv(l, r) && Enabled(l, r, e) && e.Switch? && !Clean(l, r, e)
    ensures Inv(l, Next(l, r, e, reopen)) && !GapFree(l, Next(l, r, e, reopen))
  {
    InvNext(l, r, e, reopen);
    var s := r.session.value;
    var r' := Next(l, r, e, reopen);
    var p := if s.fd < s.index then l.starts[s.index] else l.starts[s.fd] + s.read;
    assert s.fd < s.index ==> l.End(s.fd) <= l.starts[s.index];
    assert !Has(r', p) && p < Pos(l, r'.mark.value.index, 0);
  }

  // ---- whole runs

  /** A master and its slaves. */
  datatype Cluster = Cluster(l: Log, rs: seq<Replica>)

  datatype Step = OnLog(g: LogStep) | OnReplica(j: nat, e: Event)

  ghost predicate StepEnabled(c: Cluster, s: Step) {
    match s
    case OnLog(g) => LogEnabled(c.l, g)
    case OnReplica(j, e) => c.l.Valid() && j < |c.rs| && Enabled(c.l, c.rs[j], e)
  }

  ghost function StepNext(c: Cluster, s: Step, reopen: bool): (c': Cluster)
    requires StepEnabled(c, s)
    ensures |c'.rs| == |c.rs|
  {
    match s
    case OnLog(g) => Cluster(LogNext(c.l, g), c.rs)
    case OnReplica(j, e) => Cluster(c.l, c.rs[j := Next(c.l, c.rs[j], e, reopen)])
  }

  ghost predicate Runs(c: Cluster, steps: seq<Step>, reopen: bool)
    decreases |steps|
  {
    steps != [] ==> StepEnabled(c, steps[0]) && Runs(StepNext(c, steps[0], reopen), steps[1..], reopen)
  }

  ghost predicate InvAt(c: Cluster, j: nat) {
    j < |c.rs| && Inv(c.l, c.rs[j])
  }

  lemma InvStep(c: Cluster, s: Step, j: nat, reopen: bool)
    requires InvAt(c, j) && StepEnabled(c, s)
    ensures InvAt(StepNext(c, s, reopen), j)
  {
    match s {
      case OnLog(g) => InvLog(c.l, LogNext(c.l, g), c.rs[j]);
      case OnReplica(k, e) => if k == j { InvNext(c.l, c.rs[j], e, reopen); }
    }
  }

  /** In every state of the run, slave j misses nothing before its mark. */
  ghost predicate GapFreeThroughout(c: Cluster, steps: seq<Step>, j: nat, reopen: bool)
    requires InvAt(c, j) && Runs(c, steps, reopen)
    decreases |steps|
  {
    && GapFree(c.l, c.rs[j])
    && (steps != [] ==>
          (InvStep(c, steps[0], j, reopen);
           GapFreeThroughout(StepNext(c, steps[0], reopen), steps[1..], j, reopen)))
  }

  ghost predicate CleanAt(c: Cluster, s: Step, j: nat)
    requires StepEnabled(c, s)
  {
    s.OnReplica? && s.j == j ==> Clean(c.l, c.rs[j], s.e)
  }

  ghost predicate CleanThroughout(c: Cluster, steps: seq<Step>, j: nat, reopen: bool)
    requires Runs(c, steps, reopen)
    decreases |steps|
  {
    steps != [] ==>
      CleanAt(c, steps[0], j) && CleanThroughout(StepNext(c, steps[0], reopen), steps[1..], j, reopen)
  }

  lemma StepExact(c: Cluster, s: Step, j: nat, reopen: bool)
    requires InvAt(c, j) && CleanInv(c.l, c.rs[j]) && StepEnabled(c, s)
    ensures InvAt(StepNext(c, s, reopen), j)
    ensures var c' := StepNext(c, s, reopen);
            if CleanAt(c, s, j) then CleanInv(c'.l, c'.rs[j]) else !GapFree(c'.l, c'.rs[j])
  {
    InvStep(c, s, j, reopen);
    match s {
      case OnLog(g) => CleanLog(c.l, LogNext(c.l, g), c.rs[j]);
      case OnReplica(k, e) =>
        if k == j {
          if Clean(c.l, c.rs[j], e) { CleanStep(c.l, c.rs[j], e, reopen); }
          else if e.Start? { DirtyStart(c.l, c.rs[j], e, reopen); }
          else { DirtySwitch(c.l, c.rs[j], e, reopen); }
        }
    }
  }

  /** Over every run of reads, ships, lost acks, mark writes, crashes and restarts, the slave
      never has a gap before the mark if and only if the first start could locate its place
      and every file switch was taken with the descriptor on the file being left and nothing
      of that file unread. */
  lemma {:induction false} GapExact(c: Cluster, steps: seq<Step>, j: nat, reopen: bool)
    requires InvAt(c, j) && CleanInv(c.l, c.rs[j]) && Runs(c, steps, reopen)
    ensures GapFreeThroughout(c, steps, j, reopen) <==> CleanThroughout(c, steps, j, reopen)
    decreases |steps|
  {
    CleanIsGapFree(c.l, c.rs[j]);
    if steps != [] {
      var c' := StepNext(c, steps[0], reopen);
      StepExact(c, steps[0], j, reopen);
      if CleanAt(c, steps[0], j) { GapExact(c', steps[1..], j, reopen); }
    }
  }

  /** A slave fresh from full sync, before its first session, is where runs begin. */
  lemma FreshIsClean(l: Log, r: Replica)
    requires l.Valid() && r.base <= |l.recs|
    requires r.mark.None? && r.session.None? && r.applied == [] && r.inflight == {}
    ensures Inv(l, r) && CleanInv(l, r)
  {
  }

  ghost function Final(c: Cluster, steps: seq<Step>, reopen: bool): (c': Cluster)
    requires Runs(c, steps, reopen)
    ensures |c'.rs| == |c.rs|
    decreases |steps|
  {
    if steps == [] then c else Final(StepNext(c, steps[0], reopen), steps[1..], reopen)
  }

  lemma RunsOne(c: Cluster, s: Step, steps: seq<Step>, reopen: bool)
    requires StepEnabled(c, s) && Runs(StepNext(c, s, reopen), steps, reopen)
    ensures Runs(c, [s] + steps, reopen)
    ensures Final(c, [s] + steps, reopen) == Final(StepNext(c, s, reopen), steps, reopen)
  {
    assert ([s] + steps)[1..] == steps;
  }

  lemma {:induction false} RunsConcat(c: Cluster, a: seq<Step>, b: seq<Step>, steps: seq<Step>, reopen: bool)
    requires Runs(c, a, reopen) && Runs(Final(c, a, reopen), b, reopen) && steps == a + b
    ensures Runs(c, steps, reopen) && Final(c, steps, reopen) == Final(Final(c, a, reopen), b, reopen)
    decreases |a|
  {
    if a == [] {
      assert steps == b;
    } else {
      RunsConcat(StepNext(c, a[0], reopen), a[1..], b, steps[1..], reopen);
    }
  }

  /** Neither a start nor a switch. */
  ghost predicate Quiet(s: Step) {
    s.OnReplica? ==> !s.e.Start? && !s.e.Switch?
  }

  lemma {:induction false} QuietIsClean(c: Cluster, steps: seq<Step>, j: nat, reopen: bool)
    requires Runs(c, steps, reopen) && forall k | 0 <= k < |steps| :: Quiet(steps[k])
    ensures CleanThroughout(c, steps, j, reopen)
    decreases |steps|
  {
    if steps != [] {
      assert Quiet(steps[0]);
      QuietIsClean(StepNext(c, steps[0], reopen), steps[1..], j, reopen);
    }
  }

  // ---- order and repeats

  /** The applied records beyond the full sync, each where it first arrived. */
  ghost function FirstSeen(base: nat, applied: seq<nat>): (s: seq<nat>) {
    if applied == [] then []
    else
      var before, i := applied[..|applied| - 1], applied[|applied| - 1];
      if i < base || i in before then FirstSeen(base, before) else FirstSeen(base, before) + [i]
  }

  /** Repeats ignored, the slave receives the log from `base` on, in order, without a hole. */
  lemma {:induction false} FirstSeenIsPrefix(base: nat, applied: seq<nat>)
    requires InOrder(base, applied)
    ensures FirstSeen(base, applied) == seq(Water(base, applied) - base, k => base + k)
  {
    if applied != [] {
      var before, i := applied[..|applied| - 1], applied[|applied| - 1];
      FirstSeenIsPrefix(base, before);
      InOrderHas(base, before);
      WaterGrows(base, before, i);
      assert before + [i] == applied;
    }
  }

  lemma WaterInLog(l: Log, r: Replica)
    requires Inv(l, r) && CleanInv(l, r)
    ensures Water(r.base, r.applied) <= |l.recs|
  {
    InOrderHas(r.base, r.applied);
    var w := Water(r.base, r.applied);
    if w > r.base { assert w - 1 in r.applied; }
  }

  /** A run only adds to the log, and full synchronisation is behind it. */
  lemma {:induction false} RunExtends(c: Cluster, steps: seq<Step>, j: nat, reopen: bool)
    requires j < |c.rs| && Runs(c, steps, reopen)
    ensures var c' := Final(c, steps, reopen);
            c.l.recs <= c'.l.recs && c'.rs[j].base == c.rs[j].base && c'.rs[j].synced == c.rs[j].synced
    decreases |steps|
  {
    if steps != [] { RunExtends(StepNext(c, steps[0], reopen), steps[1..], j, reopen); }
  }

  lemma {:induction false} CleanRun(c: Cluster, steps: seq<Step>, j: nat, reopen: bool)
    requires InvAt(c, j) && CleanInv(c.l, c.rs[j]) && Runs(c, steps, reopen) && CleanThroughout(c, steps, j, reopen)
    ensures var c' := Final(c, steps, reopen);
            InvAt(c', j) && CleanInv(c'.l, c'.rs[j])
    decreases |steps|
  {
    if steps != [] {
      StepExact(c, steps[0], j, reopen);
      CleanRun(StepNext(c, steps[0], reopen), steps[1..], j, reopen);
    }
  }

  /** After every clean run the slave has received, repeats ignored and in this order, the records
      of the log from its base up to some place that is not before the mark. */
  lemma RunIsPrefix(c: Cluster, steps: seq<Step>, j: nat, reopen: bool)
    requires InvAt(c, j) && CleanInv(c.l, c.rs[j]) && Runs(c, steps, reopen) && CleanThroughout(c, steps, j, reopen)
    ensures var c' := Final(c, steps, reopen);
            var r, base := c'.rs[j], c.rs[j].base;
            var seen := FirstSeen(base, r.applied);
            && InvAt(c', j) && CleanInv(c'.l, r) && r.base == base
            && base + |seen| <= |c'.l.recs| && seen == seq(|seen|, k => base + k)
            && (r.mark.Some? ==> Pos(c'.l, r.mark.value.index, r.mark.value.offset) <= base + |seen|)
  {
    CleanRun(c, steps, j, reopen);
    RunExtends(c, steps, j, reopen);
    var c' := Final(c, steps, reopen);
    WaterInLog(c'.l, c'.rs[j]);
    FirstSeenIsPrefix(c'.rs[j].base, c'.rs[j].applied);
  }

  /** A restart goes back to the mark.  What it sends again of the acknowledged records is less
      than MARK_EVERY, except in the moment the mark is about to be written. */
  lemma {:induction false} RestartResends(c: Cluster, steps: seq<Step>, j: nat, reopen: bool)
    requires InvAt(c, j) && Runs(c, steps, reopen)
    ensures var c' := Final(c, steps, reopen);
            && InvAt(c', j)
            && (c'.rs[j].session.Some? ==>
                  var m, s := c'.rs[j].mark.value, c'.rs[j].session.value;
                  var again := Pos(c'.l, s.index, s.offset) - Pos(c'.l, m.index, m.offset);
                  && 0 <= again == s.count - m.count
                  && if s.phase == Marking then again <= MARK_EVERY else again < MARK_EVERY)
    decreases |steps|
  {
    if steps != [] {
      InvStep(c, steps[0], j, reopen);
      RestartResends(StepNext(c, steps[0], reopen), steps[1..], j, reopen);
    }
  }

  // ---- the mark

  /** How far the master has got with the slave: its thread's position, or where the next one starts. */
  ghost function Place(l: Log, r: Replica): (p: nat)
    requires Inv(l, r) && r.mark.Some?
  {
    if r.session.Some? then Pos(l, r.session.value.index, r.session.value.offset)
    else Pos(l, r.mark.value.index, r.mark.value.offset)
  }

  ghost predicate Does(s: Step, j: nat, e: Event) {
    s == OnReplica(j, e)
  }

  /** How often slave j's thread does e. */
  ghost function Times(steps: seq<Step>, j: nat, e: Event): (n: nat) {
    if steps == [] then 0 else (if Does(steps[0], j, e) then 1 else 0) + Times(steps[1..], j, e)
  }

  lemma PlaceLog(l: Log, l': Log, r: Replica)
    requires Inv(l, r) && Extends(l, l') && r.mark.Some?
    ensures Inv(l', r) && Place(l', r) == Place(l, r)
  {
    InvLog(l, l', r);
  }

  lemma PlaceNext(l: Log, r: Replica, e: Event, reopen: bool)
    requires Inv(l, r) && CleanInv(l, r) && r.mark.Some? && Enabled(l, r, e) && Clean(l, r, e) && !e.Crash?
    ensures var r' := Next(l, r, e, reopen);
            Inv(l, r') && r'.mark.Some? && Place(l, r') == Place(l, r) + if e == Ack then 1 else 0
  {
    InvNext(l, r, e, reopen);
  }

  lemma PlaceStep(c: Cluster, s: Step, j: nat, reopen: bool)
    requires InvAt(c, j) && CleanInv(c.l, c.rs[j]) && c.rs[j].mark.Some? && StepEnabled(c, s)
    requires CleanAt(c, s, j) && !Does(s, j, Crash)
    ensures var c' := StepNext(c, s, reopen);
            && InvAt(c', j) && c'.rs[j].mark.Some?
            && Place(c'.l, c'.rs[j]) == Place(c.l, c.rs[j]) + if Does(s, j, Ack) then 1 else 0
  {
    match s {
      case OnLog(g) => PlaceLog(c.l, LogNext(c.l, g), c.rs[j]);
      case OnReplica(k, e) => if k == j { PlaceNext(c.l, c.rs[j], e, reopen); }
    }
  }

  /** In every clean run the master goes forward by one record for every acknowledgement and never
      back, through any number of lost connections and new sessions, unless the thread crashes: what
      has been acknowledged is not sent again. */
  lemma {:induction false} AckedOnce(c: Cluster, steps: seq<Step>, j: nat, reopen: bool)
    requires InvAt(c, j) && CleanInv(c.l, c.rs[j]) && c.rs[j].mark.Some?
    requires Runs(c, steps, reopen) && CleanThroughout(c, steps, j, reopen)
    requires forall k | 0 <= k < |steps| :: !Does(steps[k], j, Crash)
    ensures var c' := Final(c, steps, reopen);
            && InvAt(c', j) && c'.rs[j].mark.Some?
            && Place(c'.l, c'.rs[j]) == Place(c.l, c.rs[j]) + Times(steps, j, Ack)
    decreases |steps|
  {
    if steps != [] {
      assert !Does(steps[0], j, Crash);
      PlaceStep(c, steps[0], j, reopen);
      StepExact(c, steps[0], j, reopen);
      AckedOnce(StepNext(c, steps[0], reopen), steps[1..], j, reopen);
    }
  }

  /** Without a session and without a start, slave j has no session and its mark stays. */
  lemma {:induction false} MarkStays(c: Cluster, steps: seq<Step>, j: nat, reopen: bool)
    requires j < |c.rs| && c.rs[j].session.None? && Runs(c, steps, reopen)
    requires forall k | 0 <= k < |steps| :: steps[k].OnReplica? && steps[k].j == j ==> !steps[k].e.Start?
    ensures var c' := Final(c, steps, reopen);
            c'.rs[j].session.None? && c'.rs[j].mark == c.rs[j].mark
    decreases |steps|
  {
    if steps != [] {
      assert steps[0].OnReplica? && steps[0].j == j ==> !steps[0].e.Start?;
      MarkStays(StepNext(c, steps[0], reopen), steps[1..], j, reopen);
    }
  }

  /** The session a mark starts. */
  ghost function FromMark(m: Mark): (s: Session) {
    Session(m.index, m.offset, m.index, m.offset, m.count, m.count, Idle)
  }

  lemma EndsWithMark(c: Cluster, e: Event, j: nat, reopen: bool)
    requires InvAt(c, j) && c.rs[j].session.Some? && (e.Close? || e.Crash?) && Enabled(c.l, c.rs[j], e)
    ensures var r, s := StepNext(c, OnReplica(j, e), reopen).rs[j], c.rs[j].session.value;
            && r.session.None?
            && r.mark == Some(if e.Close? then Mark(s.index, s.offset, s.count) else c.rs[j].mark.value)
  {
  }

  lemma StartsFromMark(c: Cluster, q: int, m: Mark, j: nat, reopen: bool)
    requires c.l.Valid() && j < |c.rs| && c.rs[j].session.None? && c.rs[j].mark == Some(m)
    ensures StepNext(c, OnReplica(j, Start(q)), reopen).rs[j].session == Some(FromMark(m))
  {
  }

  /** A session that is closed is resumed by the next start exactly where it was, whatever happens in
      between; after a crash the next start is back at the mark. */
  lemma ResumesAfter(c: Cluster, e: Event, between: seq<Step>, c1: Cluster, c2: Cluster, q: int, j: nat, reopen: bool)
    requires InvAt(c, j) && c.rs[j].session.Some? && (e.Close? || e.Crash?) && Enabled(c.l, c.rs[j], e)
    requires c1 == StepNext(c, OnReplica(j, e), reopen) && Runs(c1, between, reopen)
    requires c2 == Final(c1, between, reopen) && StepEnabled(c2, OnReplica(j, Start(q)))
    requires forall k | 0 <= k < |between| :: between[k].OnReplica? && between[k].j == j ==> !between[k].e.Start?
    ensures var s, m := c.rs[j].session.value, c.rs[j].mark.value;
            StepNext(c2, OnReplica(j, Start(q)), reopen).rs[j].session
            == Some(FromMark(if e.Close? then Mark(s.index, s.offset, s.count) else m))
  {
    EndsWithMark(c, e, j, reopen);
    MarkStays(c1, between, j, reopen);
    StartsFromMark(c2, q, c1.rs[j].mark.value, j, reopen);
  }

  /** The acknowledgements that the mark does not have yet. */
  ghost function Lag(r: Replica): (n: int) {
    if r.session.Some? then r.session.value.count - r.session.value.lastCount else 0
  }

  /** Marks are written by counting: the step that looks at the mark writes it. */
  ghost predicate Writes(c: Cluster, s: Step, j: nat, reopen: bool)
    requires StepEnabled(c, s)
  {
    Does(s, j, WriteMark) && j < |c.rs| && StepNext(c, s, reopen).rs[j].mark != c.rs[j].mark
  }

  ghost function MarkWrites(c: Cluster, steps: seq<Step>, j: nat, reopen: bool): (n: nat)
    requires Runs(c, steps, reopen)
    decreases |steps|
  {
    if steps == [] then 0
    else (if Writes(c, steps[0], j, reopen) then 1 else 0)
         + MarkWrites(StepNext(c, steps[0], reopen), steps[1..], j, reopen)
  }

  lemma LagStep(c: Cluster, s: Step, j: nat, reopen: bool)
    requires InvAt(c, j) && StepEnabled(c, s)
    ensures var c' := StepNext(c, s, reopen);
            && InvAt(c', j) && Lag(c'.rs[j]) >= 0
            && Lag(c'.rs[j]) + MARK_EVERY * (if Writes(c, s, j, reopen) then 1 else 0)
               <= Lag(c.rs[j]) + if Does(s, j, Ack) then 1 else 0
  {
    InvStep(c, s, j, reopen);
  }

  /** Over every run the counting marks are no more than one for MARK_EVERY acknowledgements. */
  lemma {:induction false} MarksAreRare(c: Cluster, steps: seq<Step>, j: nat, reopen: bool)
    requires InvAt(c, j) && Runs(c, steps, reopen)
    ensures MARK_EVERY * MarkWrites(c, steps, j, reopen) <= Lag(c.rs[j]) + Times(steps, j, Ack)
    decreases |steps|
  {
    if steps != [] {
      LagStep(c, steps[0], j, reopen);
      MarksAreRare(StepNext(c, steps[0], reopen), steps[1..], j, reopen);
    }
  }

  // ---- no clean state is a dead end

  /** What the thread or the slave can do next towards the end of the log, None at the end. */
  ghost function Plan(l: Log, r: Replica): (e: Option<Event>)
    requires Inv(l, r) && r.mark.Some?
  {
    if r.session.None? then Some(Start(0))
    else
      var s := r.session.value;
      if s.fd < s.index then Some(Close)
      else
        match s.phase
        case Marking => Some(WriteMark)
        case Held =>
          var i := l.starts[s.fd] + s.read - 1;
          Some(if i in r.applied then Ack else if i in r.inflight then Apply(i) else Ship)
        case Ended =>
          if s.index == l.Current() then Some(Wait)
          else if l.starts[s.fd] + s.read >= l.End(s.fd) then Some(Switch) else Some(Close)
        case Idle =>
          if l.starts[s.fd] + s.read < l.End(s.fd) then Some(Read)
          else if s.index < l.Current() then Some(SeeEnd) else None
  }

  ghost function FilesLeft(l: Log, r: Replica): (n: nat)
    requires Inv(l, r) && r.mark.Some?
  {
    l.Current() - if r.session.Some? then r.session.value.index else r.mark.value.index
  }

  ghost function RecordsLeft(l: Log, r: Replica): (n: nat)
    requires Inv(l, r) && CleanInv(l, r) && r.mark.Some?
  {
    WaterInLog(l, r);
    |l.recs| - Place(l, r)
  }

  /** How many steps at most until the next record or file. */
  ghost function Rank(l: Log, r: Replica): (n: nat)
    requires Inv(l, r) && r.mark.Some?
  {
    if r.session.None? then 6
    else
      var s := r.session.value;
      if s.fd < s.index then 7
      else
        match s.phase
        case Marking => 4
        case Held =>
          var i := l.starts[s.fd] + s.read - 1;
          if i in r.applied then 0 else if i in r.inflight then 1 else 2
        case Ended => if s.index == l.Current() then 5 else if l.starts[s.fd] + s.read >= l.End(s.fd) then 2 else 7
        case Idle => 3
  }

  lemma PlanAllowed(l: Log, r: Replica)
    requires Inv(l, r) && CleanInv(l, r) && r.mark.Some? && Plan(l, r).Some?
    ensures Enabled(l, r, Plan(l, r).value) && Clean(l, r, Plan(l, r).value) && !Plan(l, r).value.Crash?
  {
  }

  lemma PlanAdvances(l: Log, r: Replica, e: Event, r': Replica, reopen: bool)
    requires Inv(l, r) && CleanInv(l, r) && r.mark.Some? && Plan(l, r) == Some(e)
    requires Enabled(l, r, e) && r' == Next(l, r, e, reopen) && Inv(l, r') && r'.mark.Some?
    ensures e == Ack || FilesLeft(l, r') < FilesLeft(l, r)
         || (FilesLeft(l, r') == FilesLeft(l, r) && Rank(l, r') < Rank(l, r))
  {
  }

  /** The thread is on the file being written. */
  ghost predicate OnLast(l: Log, r: Replica)
    requires l.Valid()
  {
    r.session.Some? && r.session.value.fd == r.session.value.index == l.Current()
  }

  ghost predicate NewSession(s: Step) {
    s.OnReplica? && (s.e.Close? || s.e.Start? || s.e.Crash?)
  }

  lemma PlanStays(l: Log, r: Replica, e: Event, reopen: bool)
    requires Inv(l, r) && r.mark.Some? && Plan(l, r) == Some(e) && Enabled(l, r, e) && OnLast(l, r)
    ensures OnLast(l, Next(l, r, e, reopen)) && !e.Close? && !e.Start? && !e.Crash?
  {
  }

  lemma PlanDone(l: Log, r: Replica)
    requires Inv(l, r) && CleanInv(l, r) && r.mark.Some? && Plan(l, r) == None
    ensures forall i: nat | i < |l.recs| :: Has(r, i)
  {
    CleanIsGapFree(l, r);
  }

  lemma PlanStep(c: Cluster, e: Event, c': Cluster, j: nat, reopen: bool)
    requires InvAt(c, j) && CleanInv(c.l, c.rs[j]) && c.rs[j].mark.Some? && Plan(c.l, c.rs[j]) == Some(e)
    ensures StepEnabled(c, OnReplica(j, e)) && CleanAt(c, OnReplica(j, e), j)
    ensures c' == StepNext(c, OnReplica(j, e), reopen) ==>
              && InvAt(c', j) && CleanInv(c'.l, c'.rs[j]) && c'.rs[j].mark.Some? && c'.l == c.l
              && (RecordsLeft(c'.l, c'.rs[j]) < RecordsLeft(c.l, c.rs[j])
                  || (RecordsLeft(c'.l, c'.rs[j]) == RecordsLeft(c.l, c.rs[j])
                      && (FilesLeft(c'.l, c'.rs[j]) < FilesLeft(c.l, c.rs[j])
                          || (FilesLeft(c'.l, c'.rs[j]) == FilesLeft(c.l, c.rs[j])
                              && Rank(c'.l, c'.rs[j]) < Rank(c.l, c.rs[j])))))
  {
    var l, r := c.l, c.rs[j];
    PlanAllowed(l, r);
    CleanStep(l, r, e, reopen);
    PlaceNext(l, r, e, reopen);
    PlanAdvances(l, r, e, Next(l, r, e, reopen), reopen);
  }

  /** A clean run of slave j's own steps, without a crash, after which it has the whole log. */
  ghost predicate Delivers(c: Cluster, steps: seq<Step>, j: nat, reopen: bool)
    requires j < |c.rs|
  {
    && Runs(c, steps, reopen) && CleanThroughout(c, steps, j, reopen)
    && (forall k | 0 <= k < |steps| :: steps[k].OnReplica? && steps[k].j == j && !steps[k].e.Crash?)
    && (var c' := Final(c, steps, reopen);
        c'.l == c.l && forall i: nat | i < |c.l.recs| :: Has(c'.rs[j], i))
  }

  lemma DeliversOne(c: Cluster, s: Step, rest: seq<Step>, j: nat, reopen: bool)
    requires j < |c.rs| && StepEnabled(c, s) && CleanAt(c, s, j) && s.OnReplica? && s.j == j && !s.e.Crash?
    requires Delivers(StepNext(c, s, reopen), rest, j, reopen)
    ensures Delivers(c, [s] + rest, j, reopen)
  {
    RunsOne(c, s, rest, reopen);
    assert ([s] + rest)[1..] == rest;
  }

  ghost predicate Quietly(steps: seq<Step>) {
    forall k | 0 <= k < |steps| :: !NewSession(steps[k])
  }

  /** The next step, and the state and the measure after it. */
  lemma Onward(c: Cluster, j: nat, reopen: bool, records: nat, files: nat, rank: nat)
    returns (s: Step, c': Cluster, records': nat, files': nat, rank': nat)
    requires InvAt(c, j) && CleanInv(c.l, c.rs[j]) && c.rs[j].mark.Some? && Plan(c.l, c.rs[j]).Some?
    requires records == RecordsLeft(c.l, c.rs[j]) && files == FilesLeft(c.l, c.rs[j]) && rank == Rank(c.l, c.rs[j])
    ensures StepEnabled(c, s) && CleanAt(c, s, j) && s.OnReplica? && s.j == j && !s.e.Crash?
    ensures c' == StepNext(c, s, reopen)
    ensures InvAt(c', j) && CleanInv(c'.l, c'.rs[j]) && c'.rs[j].mark.Some?
    ensures records' == RecordsLeft(c'.l, c'.rs[j]) && files' == FilesLeft(c'.l, c'.rs[j])
    ensures rank' == Rank(c'.l, c'.rs[j])
    ensures records' < records || (records' == records && (files' < files || (files' == files && rank' < rank)))
    ensures OnLast(c.l, c.rs[j]) ==> OnLast(c'.l, c'.rs[j]) && !NewSession(s)
  {
    var e := Plan(c.l, c.rs[j]).value;
    PlanAllowed(c.l, c.rs[j]);
    s := OnReplica(j, e);
    c' := StepNext(c, s, reopen);
    PlanStep(c, e, c', j, reopen);
    if OnLast(c.l, c.rs[j]) { PlanStays(c.l, c.rs[j], e, reopen); }
    records', files', rank' := RecordsLeft(c'.l, c'.rs[j]), FilesLeft(c'.l, c'.rs[j]), Rank(c'.l, c'.rs[j]);
  }

  lemma {:induction false} CatchesUpIn(c: Cluster, j: nat, reopen: bool, records: nat, files: nat, rank: nat)
    returns (steps: seq<Step>)
    requires InvAt(c, j) && CleanInv(c.l, c.rs[j]) && c.rs[j].mark.Some?
    requires records == RecordsLeft(c.l, c.rs[j]) && files == FilesLeft(c.l, c.rs[j]) && rank == Rank(c.l, c.rs[j])
    ensures Delivers(c, steps, j, reopen) && (OnLast(c.l, c.rs[j]) ==> Quietly(steps))
    decreases records, files, rank
  {
    if Plan(c.l, c.rs[j]).None? {
      PlanDone(c.l, c.rs[j]);
      return [];
    }
    var s, c', records', files', rank' := Onward(c, j, reopen, records, files, rank);
    var rest := CatchesUpIn(c', j, reopen, records', files', rank');
    DeliversOne(c, s, rest, j, reopen);
    steps := [s] + rest;
  }

  /** From every state of a clean run, once there is a mark, the slave can get the whole log, cleanly
      and by steps of its own thread and connection; no new session is needed if the thread is on the
      file being written. */
  lemma CatchesUp(c: Cluster, j: nat, reopen: bool) returns (steps: seq<Step>)
    requires InvAt(c, j) && CleanInv(c.l, c.rs[j]) && c.rs[j].mark.Some?
    ensures Delivers(c, steps, j, reopen)
    ensures OnLast(c.l, c.rs[j]) ==> Quietly(steps)
  {
    var records, files, rank := RecordsLeft(c.l, c.rs[j]), FilesLeft(c.l, c.rs[j]), Rank(c.l, c.rs[j]);
    steps := CatchesUpIn(c, j, reopen, records, files, rank);
  }

  // ---- last_sync_sequence

  ghost predicate Applies(s: Step, j: nat, i: nat) {
    Does(s, j, Apply(i))
  }

  ghost predicate Restarts(s: Step, j: nat) {
    s.OnReplica? && s.j == j && s.e.Forget?
  }

  /** q is v or the sequence of one of the records applied, and no less than any of them. */
  ghost predicate Newest(q: int, v: int, steps: seq<Step>, j: nat, recs: seq<int>) {
    && v <= q && (forall k, i: nat | 0 <= k < |steps| && Applies(steps[k], j, i) :: i < |recs| && recs[i] <= q)
    && (q == v || exists k, i: nat :: 0 <= k < |steps| && i < |recs| && Applies(steps[k], j, i) && recs[i] == q)
  }

  ghost predicate AppliesAny(s: Step, j: nat) {
    s.OnReplica? && s.j == j && s.e.Apply?
  }

  lemma NewestAt(q: int, v: int, steps: seq<Step>, j: nat, recs: seq<int>, k: nat, i: nat)
    requires Newest(q, v, steps, j, recs) && k < |steps| && Applies(steps[k], j, i)
    ensures i < |recs| && recs[i] <= q
  {
  }

  lemma NewestFirst(q: int, v: int, s: Step, v': int, rest: seq<Step>, j: nat, recs: seq<int>, steps: seq<Step>)
    requires Newest(q, v', rest, j, recs) && steps == [s] + rest
    requires AppliesAny(s, j) ==> s.e.rec < |recs| && v' == if recs[s.e.rec] > v then recs[s.e.rec] else v
    requires !AppliesAny(s, j) ==> v' == v
    ensures Newest(q, v, steps, j, recs)
  {
    forall k, i: nat | 0 <= k < |steps| && Applies(steps[k], j, i) ensures i < |recs| && recs[i] <= q {
      if k > 0 { NewestAt(q, v', rest, j, recs, k - 1, i); }
    }
    if q != v' {
      var k, i: nat :| 0 <= k < |rest| && i < |recs| && Applies(rest[k], j, i) && recs[i] == q;
      assert Applies(steps[k + 1], j, i);
    } else if q != v {
      assert Applies(steps[0], j, s.e.rec);
    }
  }

  /** While the slave is not restarted its last_sync_sequence is the newest of what it was and what the
      slave has applied. */
  lemma {:induction false} LastSyncIs(c: Cluster, steps: seq<Step>, j: nat, reopen: bool)
    requires j < |c.rs| && Runs(c, steps, reopen) && forall k | 0 <= k < |steps| :: !Restarts(steps[k], j)
    ensures var c' := Final(c, steps, reopen);
            Newest(c'.rs[j].lastSync, c.rs[j].lastSync, steps, j, c'.l.recs)
    decreases |steps|
  {
    if steps != [] {
      LastSyncIs(StepNext(c, steps[0], reopen), steps[1..], j, reopen);
      RunExtends(c, steps, j, reopen);
      LastSyncOne(c, steps[0], steps[1..], steps, j, reopen, Final(c, steps, reopen));
    }
  }

  lemma LastSyncOne(c: Cluster, s: Step, rest: seq<Step>, steps: seq<Step>, j: nat, reopen: bool, c': Cluster)
    requires j < |c.rs| && StepEnabled(c, s) && !Restarts(s, j) && j < |c'.rs| && c.l.recs <= c'.l.recs
    requires steps == [s] + rest
    requires Newest(c'.rs[j].lastSync, StepNext(c, s, reopen).rs[j].lastSync, rest, j, c'.l.recs)
    ensures Newest(c'.rs[j].lastSync, c.rs[j].lastSync, steps, j, c'.l.recs)
  {
    var v' := StepNext(c, s, reopen).rs[j].lastSync;
    NewestFirst(c'.rs[j].lastSync, c.rs[j].lastSync, s, v', rest, j, c'.l.recs, steps);
  }

  /** After a restart it begins again with what the slave remembers. */
  lemma LastSyncAfterRestart(c: Cluster, v: int, steps: seq<Step>, all: seq<Step>, j: nat, reopen: bool)
    requires j < |c.rs| && all == [OnReplica(j, Forget(v))] + steps && Runs(c, all, reopen)
    requires forall k | 0 <= k < |steps| :: !Restarts(steps[k], j)
    ensures var c' := Final(c, all, reopen);
            Newest(c'.rs[j].lastSync, v, steps, j, c'.l.recs)
  {
    assert all[1..] == steps;
    LastSyncIs(StepNext(c, all[0], reopen), steps, j, reopen);
  }

  // ---- a reader that reopens its file

  ghost predicate Synced(r: Replica) {
    r.session.Some? ==> r.session.value.fd == r.session.value.index
  }

  /** First starts locate their place, and what was seen as the end of a file still is when the
      thread leaves it. */
  ghost predicate CarefulThroughout(c: Cluster, steps: seq<Step>, j: nat, reopen: bool)
    requires Runs(c, steps, reopen)
    decreases |steps|
  {
    steps != [] ==>
      && (steps[0].OnReplica? && steps[0].j == j ==> Careful(c.l, c.rs[j], steps[0].e))
      && CarefulThroughout(StepNext(c, steps[0], reopen), steps[1..], j, reopen)
  }

  ghost predicate Careful(l: Log, r: Replica, e: Event)
    requires l.Valid() && Enabled(l, r, e)
  {
    && (e.Start? && r.mark.None? ==> CanLocate(l, r.base, e.sequence))
    && (e.Switch? ==> Pos(l, r.session.value.index, r.session.value.read) >= l.End(r.session.value.index))
  }

  /** With the reader's own file reopened at a switch, that is all that is needed. */
  lemma {:induction false} ReopeningIsClean(c: Cluster, steps: seq<Step>, j: nat)
    requires j < |c.rs| && Synced(c.rs[j]) && Runs(c, steps, true)
    ensures CleanThroughout(c, steps, j, true) <==> CarefulThroughout(c, steps, j, true)
    decreases |steps|
  {
    if steps != [] {
      ReopeningIsClean(StepNext(c, steps[0], true), steps[1..], j);
    }
  }

  // ---- a reader that does not

  /** The thread's descriptor is on an earlier file than its index says. */
  ghost predicate Behind(r: Replica) {
    r.session.Some? && r.session.value.fd < r.session.value.index
  }

  /** The session of slave j does not end with this step. */
  ghost predicate Continues(s: Step, j: nat) {
    s.OnReplica? && s.j == j ==> !s.e.Close? && !s.e.Crash?
  }

  lemma BehindStep(c: Cluster, s: Step, j: nat)
    requires InvAt(c, j) && CleanInv(c.l, c.rs[j]) && Behind(c.rs[j])
    requires StepEnabled(c, s) && CleanAt(c, s, j) && Continues(s, j)
    ensures s != OnReplica(j, Read) && Behind(StepNext(c, s, false).rs[j])
  {
  }

  lemma {:induction false} SilentWhileClean(c: Cluster, steps: seq<Step>, j: nat)
    requires InvAt(c, j) && CleanInv(c.l, c.rs[j]) && Behind(c.rs[j]) && Runs(c, steps, false)
    requires CleanThroughout(c, steps, j, false) && forall k | 0 <= k < |steps| :: Continues(steps[k], j)
    ensures forall k | 0 <= k < |steps| :: steps[k] != OnReplica(j, Read)
    decreases |steps|
  {
    if steps != [] {
      assert Continues(steps[0], j);
      BehindStep(c, steps[0], j);
      StepExact(c, steps[0], j, false);
      SilentWhileClean(StepNext(c, steps[0], false), steps[1..], j);
    }
  }

  /** After a literal switch the thread either loses a record or reads nothing more for the rest of
      its session, however much is written: its descriptor is at the end of a closed file. */
  lemma SilentAfterSwitch(c: Cluster, steps: seq<Step>, j: nat)
    requires InvAt(c, j) && CleanInv(c.l, c.rs[j]) && Behind(c.rs[j]) && Runs(c, steps, false)
    requires forall k | 0 <= k < |steps| :: Continues(steps[k], j)
    ensures GapFreeThroughout(c, steps, j, false) ==> OnReplica(j, Read) !in steps
  {
    GapExact(c, steps, j, false);
    if CleanThroughout(c, steps, j, false) { SilentWhileClean(c, steps, j); }
  }

  /** Every clean literal switch leads there, and with the file reopened the next record can be read as
      soon as the new file has one. */
  lemma AfterSwitch(l: Log, r: Replica)
    requires Inv(l, r) && Enabled(l, r, Switch)
    ensures Behind(Next(l, r, Switch, false))
    ensures var f := r.session.value.index + 1;
            Enabled(l, Next(l, r, Switch, true), Read) <==> l.starts[f] < l.End(f)
  {
  }

  // ---- runs of one slave

  ghost predicate Leads(cs: seq<Cluster>, steps: seq<Step>, k: nat, reopen: bool)
    requires k < |steps| < |cs|
  {
    StepEnabled(cs[k], steps[k]) && StepNext(cs[k], steps[k], reopen) == cs[k + 1]
  }

  /** A run given by the states it goes through. */
  lemma {:induction false} RunsThrough(cs: seq<Cluster>, steps: seq<Step>, reopen: bool)
    requires |cs| == |steps| + 1 && forall k | 0 <= k < |steps| :: Leads(cs, steps, k, reopen)
    ensures Runs(cs[0], steps, reopen) && Final(cs[0], steps, reopen) == cs[|steps|]
    decreases |steps|
  {
    if steps != [] {
      assert Leads(cs, steps, 0, reopen);
      forall k | 0 <= k < |steps[1..]| ensures Leads(cs[1..], steps[1..], k, reopen) {
        assert Leads(cs, steps, k + 1, reopen);
      }
      RunsThrough(cs[1..], steps[1..], reopen);
    }
  }

  lemma OneSlave(l: Log, r: Replica, e: Event, r': Replica, reopen: bool)
    requires l.Valid() && Enabled(l, r, e) && Next(l, r, e, reopen) == r'
    ensures StepEnabled(Cluster(l, [r]), OnReplica(0, e))
    ensures StepNext(Cluster(l, [r]), OnReplica(0, e), reopen) == Cluster(l, [r'])
  {
  }

  // ---- two runs that lose a record

  /** A slave with record 7, and a thread restarted behind it, at the end of file 0. */
  ghost function Caught(phase: Phase): (r: Replica) {
    Replica(1, 7, Some(Mark(0, 1, 0)), Some(Session(0, 1, 0, 1, 0, 0, phase)), {}, [], 7, 7)
  }

  /** The same slave after the thread has moved on to file f. */
  ghost function Moved(f: nat, phase: Phase, reopen: bool): (r: Replica) {
    var s := if reopen then Session(f, 0, f, 0, 0, 0, phase) else Session(f, 0, 0, 1, 0, 0, phase);
    Caught(phase).(mark := Some(Mark(f, 0, 0)), session := Some(s))
  }

  ghost predicate Loses(c: Cluster, steps: seq<Step>, i: nat, reopen: bool) {
    && InvAt(c, 0) && CleanInv(c.l, c.rs[0]) && Runs(c, steps, reopen)
    && (var c' := Final(c, steps, reopen);
        i < |c'.l.recs| && InvAt(c', 0) && !Has(c'.rs[0], i) && !GapFree(c'.l, c'.rs[0]))
  }

  lemma CaughtIsClean(l: Log)
    requires l.Valid() && |l.recs| > 0 && l.End(0) == 1
    ensures Inv(l, Caught(Idle)) && CleanInv(l, Caught(Idle))
  {
  }

  lemma MovedLoses(l: Log, f: nat, reopen: bool)
    requires l.Valid() && 0 < f < |l.starts| && l.starts[f] > 1
    ensures Inv(l, Moved(f, Idle, reopen)) && !GapFree(l, Moved(f, Idle, reopen))
    ensures !Has(Moved(f, Idle, reopen), 1)
  {
    var r := Moved(f, Idle, reopen);
    assert !Has(r, 1) && 1 < Pos(l, r.mark.value.index, r.mark.value.offset);
  }

  lemma SeesEnd(l: Log, r: Replica, r': Replica, reopen: bool)
    requires l.Valid() && l.End(0) == 1
    requires (r == Caught(Idle) && r' == Caught(Ended)) || (r == Moved(1, Idle, false) && r' == Moved(1, Ended, false))
    ensures StepEnabled(Cluster(l, [r]), OnReplica(0, SeeEnd))
    ensures StepNext(Cluster(l, [r]), OnReplica(0, SeeEnd), reopen) == Cluster(l, [r'])
  {
    OneSlave(l, r, SeeEnd, r', reopen);
  }

  lemma MovesOn(l: Log, r: Replica, f: nat, reopen: bool)
    requires l.Valid() && f + 1 < |l.starts| && r == if f == 0 then Caught(Ended) else Moved(f, Ended, reopen)
    ensures StepEnabled(Cluster(l, [r]), OnReplica(0, Switch))
    ensures f == 0 || !reopen ==>
              StepNext(Cluster(l, [r]), OnReplica(0, Switch), reopen) == Cluster(l, [Moved(f + 1, Idle, reopen)])
  {
    if f == 0 || !reopen {
      OneSlave(l, r, Switch, Moved(f + 1, Idle, reopen), reopen);
    }
  }

  /** File 1, with record 8, and the empty file 2 are already there: the second literal switch
      walks over file 1 without reading it. */
  lemma SwitchSkipsFile()
    ensures Loses(Cluster(Log([7, 8], [0, 1, 2]), [Caught(Idle)]),
                  [OnReplica(0, SeeEnd), OnReplica(0, Switch), OnReplica(0, SeeEnd), OnReplica(0, Switch)], 1, false)
  {
    var l := Log([7, 8], [0, 1, 2]);
    var see, switch := OnReplica(0, SeeEnd), OnReplica(0, Switch);
    var cs := [Cluster(l, [Caught(Idle)]), Cluster(l, [Caught(Ended)]), Cluster(l, [Moved(1, Idle, false)]),
               Cluster(l, [Moved(1, Ended, false)]), Cluster(l, [Moved(2, Idle, false)])];
    SeesEnd(l, Caught(Idle), Caught(Ended), false);
    MovesOn(l, Caught(Ended), 0, false);
    SeesEnd(l, Moved(1, Idle, false), Moved(1, Ended, false), false);
    MovesOn(l, Moved(1, Ended, false), 1, false);
    RunsThrough(cs, [see, switch, see, switch], false);
    CaughtIsClean(l);
    MovedLoses(l, 2, false);
  }

  lemma LogGrows(rs: seq<Replica>, reopen: bool)
    ensures StepEnabled(Cluster(Log([7], [0]), rs), OnLog(Append([8])))
    ensures StepNext(Cluster(Log([7], [0]), rs), OnLog(Append([8])), reopen) == Cluster(Log([7, 8], [0]), rs)
    ensures StepEnabled(Cluster(Log([7, 8], [0]), rs), OnLog(Rotate))
    ensures StepNext(Cluster(Log([7, 8], [0]), rs), OnLog(Rotate), reopen) == Cluster(Log([7, 8], [0, 2]), rs)
  {
  }

  /** Record 8 goes into file 0 and file 1 is begun after the thread saw the end of file 0 and before
      it asks which file is being written: the very first switch walks over record 8, whether or not
      the reader's file is reopened. */
  lemma LateRecordIsSkipped(reopen: bool)
    ensures Loses(Cluster(Log([7], [0]), [Caught(Idle)]),
                  [OnReplica(0, SeeEnd), OnLog(Append([8])), OnLog(Rotate), OnReplica(0, Switch)], 1, reopen)
  {
    var l, l1, l2 := Log([7], [0]), Log([7, 8], [0]), Log([7, 8], [0, 2]);
    var cs := [Cluster(l, [Caught(Idle)]), Cluster(l, [Caught(Ended)]), Cluster(l1, [Caught(Ended)]),
               Cluster(l2, [Caught(Ended)]), Cluster(l2, [Moved(1, Idle, reopen)])];
    SeesEnd(l, Caught(Idle), Caught(Ended), reopen);
    LogGrows([Caught(Ended)], reopen);
    MovesOn(l2, Caught(Ended), 0, reopen);
    RunsThrough(cs, [OnReplica(0, SeeEnd), OnLog(Append([8])), OnLog(Rotate), OnReplica(0, Switch)], reopen);
    CaughtIsClean(l);
    MovedLoses(l2, 1, reopen);
  }
}
