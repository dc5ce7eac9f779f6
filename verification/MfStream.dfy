/**
 The asynchronous byte stream as interleaved steps: any number of submitting calls, one
 worker thread, a lock over the operation list, a semaphore, a pending counter, a manual
 reset event for Flush, and reference-counted operation records. A step is one action on
 shared state; the stream has been constructed and its worker runs.
 */
module MfStream {
  import opened Machine

  /** Operations are numbered in the order their records are created. */
  type Op = nat

  /** What the read or write callback reported. */
  datatype Outcome = Outcome(result: int, bytes: int)

  /** Where a submitting call stands: OpRecordInsert, then Wait and the getters, then Release. */
  datatype SubPc = Enter | Link | Count | Reset | Leave | Post | Await | Take | Drop | Gone

  /** Read and Write wait for the operation, BeginRead and BeginWrite do not. */
  datatype Sub = Sub(pc: SubPc, waits: bool)

  /** Where the worker stands in its loop. */
  datatype WorkPc =
    Test | WaitToken | EnterList | Unlink | LeaveList
  | Call | Store | Signal | EnterCount | Discount | SetEvent | LeaveCount | Unref | Exited

  datatype Owner = Free | HeldBy(op: Op) | Worker

  /** The result fields and the event of an operation record. */
  datatype Record = Record(stored: Option<Outcome>, signalled: bool)

  datatype State = State(
    lock: Owner,
    queue: seq<Op>,
    pending: int,
    flushed: bool,
    tokens: nat,
    closed: bool,
    closing: nat,
    subs: seq<Sub>,
    refs: seq<int>,
    records: seq<Record>,
    worker: WorkPc,
    hand: Option<Op>,
    outcome: Outcome,
    inserted: seq<Op>,
    finished: seq<Op>,
    reported: seq<Option<Outcome>>,
    taken: seq<Option<Outcome>>)

  datatype Action =
    Start(waits: bool)
  | Submit(op: Op)
  | Work(called: Outcome)
  | Close
  | ClosePost

  ghost predicate Init(s: State) {
    && s.lock == Free && s.queue == [] && s.pending == 0 && s.flushed
    && s.tokens == 0 && !s.closed && s.closing == 0
    && s.subs == [] && s.refs == [] && s.records == [] && s.worker == Test && s.hand == None
    && s.inserted == [] && s.finished == [] && s.reported == [] && s.taken == []
  }

  // --------------------------------------------------------------- steps

  predicate Enabled(s: State, a: Action) {
    match a
    case Start(_) => true
    case Submit(o) => o < |s.subs| && SubmitEnabled(s, o)
    case Work(_) => WorkEnabled(s)
    case Close => true
    case ClosePost => s.closing > 0
  }

  predicate SubmitEnabled(s: State, o: Op)
    requires o < |s.subs|
  {
    match s.subs[o].pc
    case Enter => s.lock == Free
    case Await => o < |s.records| && s.records[o].signalled
    case Gone => false
    case _ => true
  }

  predicate WorkEnabled(s: State) {
    match s.worker
    case WaitToken => s.tokens > 0
    case EnterList => s.lock == Free
    case EnterCount => s.lock == Free
    case Exited => false
    case _ => true
  }

  function Next(s: State, a: Action): State
    requires Shapes(s) && Enabled(s, a)
  {
    match a
    case Start(waits) => Started(s, waits)
    case Submit(o) => Submitted(s, o)
    case Work(v) => Worked(s, v)
    case Close => s.(closed := true, closing := s.closing + 1)
    case ClosePost => s.(closing := s.closing - 1, tokens := s.tokens + 1)
  }

  /** NewInstance: a record whose one reference belongs to the submitting call. */
  function Started(s: State, waits: bool): State {
    s.(subs := s.subs + [Sub(Enter, waits)], refs := s.refs + [1], records := s.records + [Record(None, false)],
       reported := s.reported + [None], taken := s.taken + [None])
  }

  function At(s: State, o: Op, pc: SubPc): State
    requires o < |s.subs|
  {
    s.(subs := s.subs[o := s.subs[o].(pc := pc)])
  }

  /** AddRef and Release; the record is deleted when the count reaches zero. */
  function Counted(s: State, o: Op, delta: int): State
    requires o < |s.refs|
  {
    s.(refs := s.refs[o := s.refs[o] + delta])
  }

  function Submitted(s: State, o: Op): State
    requires Shapes(s) && o < |s.subs| && SubmitEnabled(s, o)
  {
    match s.subs[o].pc
    case Enter => At(s.(lock := HeldBy(o)), o, Link)
    case Link => At(Counted(s.(queue := s.queue + [o], inserted := s.inserted + [o]), o, 1), o, Count)
    case Count => At(s.(pending := s.pending + 1), o, if s.pending + 1 == 1 then Reset else Leave)
    case Reset => At(s.(flushed := false), o, Leave)
    case Leave => At(s.(lock := Free), o, Post)
    case Post => At(s.(tokens := s.tokens + 1), o, if s.subs[o].waits then Await else Drop)
    case Await => At(s, o, Take)
    case Take => At(s.(taken := s.taken[o := s.records[o].stored]), o, Drop)
    case Drop => At(Counted(s, o, -1), o, Gone)
  }

  function Worked(s: State, v: Outcome): State
    requires Shapes(s) && WorkEnabled(s)
  {
    match s.worker
    case Test => s.(worker := if s.closed then Exited else WaitToken)
    case WaitToken => s.(tokens := s.tokens - 1, worker := EnterList)
    case EnterList => s.(lock := Worker, worker := Unlink)
    case Unlink =>
      if s.queue == [] then s.(hand := None, worker := LeaveList)
      else s.(hand := Some(s.queue[0]), queue := s.queue[1..], worker := LeaveList)
    case LeaveList => s.(lock := Free, worker := if s.hand.Some? then Call else Test)
    case Call => s.(outcome := v, reported := s.reported[s.hand.value := Some(v)], worker := Store)
    case Store =>
      s.(records := s.records[s.hand.value := s.records[s.hand.value].(stored := Some(s.outcome))], worker := Signal)
    case Signal =>
      s.(records := s.records[s.hand.value := s.records[s.hand.value].(signalled := true)],
         finished := s.finished + [s.hand.value], worker := EnterCount)
    case EnterCount => s.(lock := Worker, worker := Discount)
    case Discount => s.(pending := s.pending - 1, worker := if s.pending - 1 == 0 then SetEvent else LeaveCount)
    case SetEvent => s.(flushed := true, worker := LeaveCount)
    case LeaveCount => s.(lock := Free, worker := Unref)
    case Unref => Counted(s, s.hand.value, -1).(hand := None, worker := Test)
  }

  // ----------------------------------------------------------- invariant

  predicate Holding(w: WorkPc) {
    w.Call? || w.Store? || w.Signal? || w.EnterCount? || w.Discount? || w.SetEvent? || w.LeaveCount? || w.Unref?
  }

  /** The worker has an operation whose completion is still to be signalled. */
  predicate Finishing(w: WorkPc) { w.LeaveList? || w.Call? || w.Store? || w.Signal? }

  /** The worker is inside a critical section. */
  predicate Inside(w: WorkPc) { w.Unlink? || w.LeaveList? || w.Discount? || w.SetEvent? || w.LeaveCount? }

  /** Every number stands for a record, and the worker has an operation exactly where it uses one. */
  ghost predicate Shapes(s: State) {
    && |s.records| == |s.refs| == |s.subs| == |s.reported| == |s.taken|
    && (s.hand.Some? ==> s.hand.value < |s.subs|)
    && (forall i :: 0 <= i < |s.queue| ==> s.queue[i] < |s.subs|)
    && (Holding(s.worker) ==> s.hand.Some?)
    && (!Holding(s.worker) && !s.worker.LeaveList? ==> s.hand == None)
    && (s.worker.Exited? ==> s.closed)
  }

  predicate InList(pc: SubPc) { pc.Link? || pc.Count? || pc.Reset? || pc.Leave? }

  /** The lock is held exactly by the thread inside a critical section. */
  ghost predicate Locks(lock: Owner, subs: seq<Sub>, inside: bool) {
    && (forall o :: 0 <= o < |subs| ==> (InList(subs[o].pc) <==> lock == HeldBy(o)))
    && (lock.HeldBy? ==> lock.op < |subs|)
    && (inside <==> lock == Worker)
  }

  /** The operation taken off the list and not yet finished. */
  function Unfinished(hand: Option<Op>, worker: WorkPc): seq<Op> {
    if hand.Some? && Finishing(worker) then [hand.value] else []
  }

  predicate Linked(pc: SubPc) { !pc.Enter? && !pc.Link? }

  /** First in, first finished: what was inserted is finished, in hand, or still listed, in that order. */
  ghost predicate Fifo(inserted: seq<Op>, finished: seq<Op>, unfinished: seq<Op>, queue: seq<Op>) {
    && inserted == finished + unfinished + queue
    && (forall i, j :: 0 <= i < j < |inserted| ==> inserted[i] != inserted[j])
  }

  ghost predicate InsertedOnce(inserted: seq<Op>, subs: seq<Sub>) {
    && (forall o :: 0 <= o < |subs| ==> (o in inserted <==> Linked(subs[o].pc)))
    && (forall i :: 0 <= i < |inserted| ==> inserted[i] < |subs|)
  }

  /** The operation in hand that still counts as pending. */
  function InHand(s: State): nat {
    if s.hand.Some? && !(s.worker.SetEvent? || s.worker.LeaveCount? || s.worker.Unref?) then 1 else 0
  }

  predicate HolderAt(s: State, pc: SubPc) {
    s.lock.HeldBy? && s.lock.op < |s.subs| && s.subs[s.lock.op].pc == pc
  }

  /** The counter and the event; one listed operation may not be counted yet, one update of the event may be due. */
  ghost predicate Pending(s: State) {
    && s.pending == |s.queue| + InHand(s) - (if HolderAt(s, Count) then 1 else 0)
    && (HolderAt(s, Count) || HolderAt(s, Reset) ==> s.queue != [] && s.queue[|s.queue| - 1] == s.lock.op)
    && (HolderAt(s, Reset) ==> s.pending == 1 && s.flushed)
    && (s.worker.SetEvent? ==> s.pending == 0 && !s.flushed)
    && (!HolderAt(s, Reset) && !s.worker.SetEvent? ==> (s.flushed <==> s.pending == 0))
  }

  /** An operation on the list whose semaphore release is still to come. */
  function Unposted(pc: SubPc): nat { if pc.Count? || pc.Reset? || pc.Leave? || pc.Post? then 1 else 0 }

  function Total(w: SubPc -> nat, subs: seq<Sub>): nat {
    if subs == [] then 0 else w(subs[0].pc) + Total(w, subs[1..])
  }

  function Woken(worker: WorkPc): nat { if worker.EnterList? || worker.Unlink? then 1 else 0 }

  /** Tokens that cover the list: available, just consumed, or about to be released. */
  ghost predicate Tokens(s: State) {
    |s.queue| <= s.tokens + Woken(s.worker) + Total(Unposted, s.subs)
  }

  /** The list or the worker holds a reference. */
  predicate HeldByStream(queue: seq<Op>, hand: Option<Op>, o: Op) { o in queue || hand == Some(o) }

  /** A record has one reference for its submitting call and one for the list or the worker. */
  ghost predicate References(refs: seq<int>, subs: seq<Sub>, queue: seq<Op>, hand: Option<Op>) {
    |refs| == |subs| &&
    forall o :: 0 <= o < |subs| ==>
      refs[o] == (if subs[o].pc.Gone? then 0 else 1) + (if HeldByStream(queue, hand, o) then 1 else 0)
  }

  /** What a record stores is what the callback reported for that operation, and it is stored before it is signalled. */
  ghost predicate Results(records: seq<Record>, reported: seq<Option<Outcome>>, finished: seq<Op>, hand: Option<Op>,
      finishing: bool, storing: bool, signalling: bool, outcome: Outcome)
  {
    && |records| == |reported|
    && (hand.Some? ==> hand.value < |records| && (!finishing ==> hand.value in finished))
    && (forall o :: 0 <= o < |records| ==> (records[o].signalled <==> o in finished))
    && (forall o :: 0 <= o < |records| && records[o].signalled ==> records[o].stored.Some?)
    && (forall o :: 0 <= o < |records| && records[o].stored.Some? ==> records[o].stored == reported[o])
    && (storing && hand.Some? ==> reported[hand.value] == Some(outcome))
    && (signalling && hand.Some? ==> records[hand.value].stored == Some(outcome))
    && (forall o :: 0 <= o < |records| && o !in finished && !(signalling && hand == Some(o)) ==>
          records[o].stored == None)
  }

  /** A call that waited has read, after the signal, the outcome of its own operation. */
  ghost predicate Answers(records: seq<Record>, reported: seq<Option<Outcome>>, taken: seq<Option<Outcome>>,
                          subs: seq<Sub>) {
    && |records| == |subs| == |reported| == |taken|
    && (forall o :: 0 <= o < |subs| && subs[o].pc.Take? ==> records[o].signalled)
    && (forall o :: 0 <= o < |subs| && taken[o].Some? ==> taken[o] == reported[o] && records[o].signalled)
    && (forall o :: 0 <= o < |subs| && subs[o].waits && (subs[o].pc.Drop? || subs[o].pc.Gone?) ==> taken[o].Some?)
  }

  ghost predicate Inv(s: State): (inv: bool)
    ensures inv ==> Shapes(s)
  {
    && Shapes(s)
    && Locks(s.lock, s.subs, Inside(s.worker))
    && Fifo(s.inserted, s.finished, Unfinished(s.hand, s.worker), s.queue)
    && InsertedOnce(s.inserted, s.subs)
    && Pending(s)
    && Tokens(s)
    && References(s.refs, s.subs, s.queue, s.hand)
    && Results(s.records, s.reported, s.finished, s.hand, Finishing(s.worker), s.worker.Store?, s.worker.Signal?,
               s.outcome)
    && Answers(s.records, s.reported, s.taken, s.subs)
  }

  // -------------------------------------------------------- preservation

  lemma {:induction false} TotalUpdate(w: SubPc -> nat, subs: seq<Sub>, o: nat, x: Sub)
    requires o < |subs|
    ensures Total(w, subs[o := x]) == Total(w, subs) - w(subs[o].pc) + w(x.pc)
    decreases |subs|
  {
    if o > 0 {
      TotalUpdate(w, subs[1..], o - 1, x);
      assert subs[o := x][1..] == subs[1..][o - 1 := x];
    } else {
      assert subs[o := x][1..] == subs[1..];
    }
  }

  lemma {:induction false} TotalAppend(w: SubPc -> nat, subs: seq<Sub>, x: Sub)
    ensures Total(w, subs + [x]) == Total(w, subs) + w(x.pc)
    decreases |subs|
  {
    if subs == [] {
      assert (subs + [x])[1..] == [];
    } else {
      TotalAppend(w, subs[1..], x);
      assert (subs + [x])[1..] == subs[1..] + [x];
    }
  }

  /** Listed, in hand and finished operations are different ones, and all were inserted. */
  lemma Apart(s: State)
    requires Inv(s)
    ensures forall o :: o in s.queue ==> o !in s.finished && s.hand != Some(o) && o in s.inserted
    ensures s.hand.Some? ==> s.hand.value in s.inserted && (Finishing(s.worker) <==> s.hand.value !in s.finished)
    ensures forall o :: o in s.finished ==> o in s.inserted
  {
    hide Locks, InsertedOnce, Pending, Tokens, References;
    var f, u, q := s.finished, Unfinished(s.hand, s.worker), s.queue;
    forall i, j | 0 <= i < |f| + |u| && 0 <= j < |q| ensures (f + u)[i] != q[j] && q[j] in s.inserted {
      assert s.inserted[i] == (f + u)[i] && s.inserted[|f| + |u| + j] == q[j];
    }
    if s.hand.Some? && Finishing(s.worker) {
      assert s.inserted[|f|] == s.hand.value;
      forall i | 0 <= i < |f| ensures f[i] != s.hand.value {
        assert s.inserted[i] == f[i];
      }
      assert (f + u)[|f|] == s.hand.value;
    }
    forall o | o in q ensures o !in f && s.hand != Some(o) && o in s.inserted {
      var j :| 0 <= j < |q| && q[j] == o;
      forall i | 0 <= i < |f| ensures f[i] != o {
        assert (f + u)[i] == f[i];
      }
    }
  }

  /** One thread at a time inside the critical sections. */
  lemma Exclusive(s: State, o: Op)
    requires Inv(s)
    ensures Inside(s.worker) <==> s.lock == Worker
    ensures o < |s.subs| && InList(s.subs[o].pc) ==> s.lock == HeldBy(o)
  {
    hide Fifo, InsertedOnce, Pending, Tokens, References, Results, Answers;
  }

  lemma FifoAppend(inserted: seq<Op>, f: seq<Op>, u: seq<Op>, q: seq<Op>, o: Op)
    requires Fifo(inserted, f, u, q) && o !in inserted
    ensures Fifo(inserted + [o], f, u, q + [o])
  {
    assert (f + u + q) + [o] == f + u + (q + [o]);
  }

  lemma FifoTake(inserted: seq<Op>, f: seq<Op>, q: seq<Op>)
    requires Fifo(inserted, f, [], q) && q != []
    ensures Fifo(inserted, f, [q[0]], q[1..])
  {
    assert q == [q[0]] + q[1..];
    assert f + [] + q == f + [q[0]] + q[1..];
  }

  lemma ReferencesTake(refs: seq<int>, subs: seq<Sub>, q: seq<Op>)
    requires References(refs, subs, q, None) && q != []
    ensures References(refs, subs, q[1..], Some(q[0]))
  {
    assert q == [q[0]] + q[1..];
    assert forall o :: HeldByStream(q, None, o) <==> HeldByStream(q[1..], Some(q[0]), o);
  }

  lemma ReferencesAppend(refs: seq<int>, subs: seq<Sub>, q: seq<Op>, hand: Option<Op>, o: Op)
    requires References(refs, subs, q, hand) && o < |subs| && !HeldByStream(q, hand, o) && subs[o].pc.Link?
    ensures References(refs[o := refs[o] + 1], subs[o := subs[o].(pc := Count)], q + [o], hand)
  {
  }

  lemma InsertedAppend(inserted: seq<Op>, subs: seq<Sub>, o: Op)
    requires InsertedOnce(inserted, subs) && o < |subs| && subs[o].pc.Link?
    ensures InsertedOnce(inserted + [o], subs[o := subs[o].(pc := Count)])
  {
  }

  lemma ResultsTake(records: seq<Record>, reported: seq<Option<Outcome>>, finished: seq<Op>, o: Op, outcome: Outcome)
    requires Results(records, reported, finished, None, false, false, false, outcome)
    ensures Results(records, reported, finished, None, true, false, false, outcome)
    ensures o < |records| ==> Results(records, reported, finished, Some(o), true, false, false, outcome)
  {
  }

  /** A submitting call that moves on without crossing the boundary a condition is about keeps that condition. */
  lemma Moved(s: State, o: Op, pc: SubPc)
    requires Inv(s) && o < |s.subs|
    ensures var subs := s.subs[o := s.subs[o].(pc := pc)];
            && (InList(s.subs[o].pc) == InList(pc) ==> Locks(s.lock, subs, Inside(s.worker)))
            && (Linked(s.subs[o].pc) == Linked(pc) ==> InsertedOnce(s.inserted, subs))
            && (s.subs[o].pc.Gone? == pc.Gone? ==> References(s.refs, subs, s.queue, s.hand))
            && (!pc.Take? && !pc.Drop? && !pc.Gone? ==> Answers(s.records, s.reported, s.taken, subs))
            && Total(Unposted, subs) == Total(Unposted, s.subs) - Unposted(s.subs[o].pc) + Unposted(pc)
  {
    hide Fifo, Results, Pending, Tokens, Total;
    TotalUpdate(Unposted, s.subs, o, s.subs[o].(pc := pc));
  }

  // ------------------------------------------------------- steps left

  function SubWeight(pc: SubPc): nat {
    match pc
    case Enter => 29
    case Link => 28
    case Count => 27
    case Reset => 26
    case Leave => 25
    case Post => 24
    case Await => 3
    case Take => 2
    case Drop => 1
    case Gone => 0
  }

  function WorkWeight(pc: WorkPc): nat {
    match pc
    case EnterList => 12
    case Unlink => 11
    case LeaveList => 10
    case Call => 9
    case Store => 8
    case Signal => 7
    case EnterCount => 6
    case Discount => 5
    case SetEvent => 4
    case LeaveCount => 3
    case Unref => 2
    case Test => 1
    case _ => 0
  }

  /** The insertion of this operation has left its critical section, or is about to with nothing left to update. */
  predicate Settled(pc: SubPc) { Linked(pc) && !pc.Count? && !pc.Reset? }

  /** What a submitting call's step does to its own program counter, the tokens and the steps left. */
  ghost predicate SubmitEffect(s: State, o: Op, t: State)
    requires o < |s.subs|
  {
    && |t.subs| == |s.subs| && t.subs == s.subs[o := t.subs[o]]
    && (Settled(s.subs[o].pc) ==> Settled(t.subs[o].pc))
    && t.worker == s.worker && t.closing == s.closing && t.closed == s.closed
    && SubWeight(t.subs[o].pc) + 20 * t.tokens < SubWeight(s.subs[o].pc) + 20 * s.tokens
  }

  ghost predicate WorkEffect(s: State, t: State) {
    && t.subs == s.subs && t.closing == s.closing && t.closed == s.closed
    && WorkWeight(t.worker) + 20 * t.tokens < WorkWeight(s.worker) + 20 * s.tokens
  }

  // ------------------------------------------------------ step by step

  lemma SubmitEnter(s: State, o: Op)
    requires Inv(s) && o < |s.subs| && s.subs[o].pc.Enter? && SubmitEnabled(s, o)
    ensures Inv(Submitted(s, o)) && SubmitEffect(s, o, Submitted(s, o))
  {
    hide Total, Fifo, InsertedOnce, References, Results, Answers;
    Moved(s, o, Submitted(s, o).subs[o].pc);
  }

  lemma Fresh(s: State, o: Op)
    requires Inv(s) && o < |s.subs| && !Linked(s.subs[o].pc)
    ensures o !in s.inserted
  {
    hide Locks, Fifo, Pending, Tokens, References, Results, Answers;
  }

  lemma SubmitLink(s: State, o: Op)
    requires Inv(s) && o < |s.subs| && s.subs[o].pc.Link? && SubmitEnabled(s, o)
    ensures Inv(Submitted(s, o)) && SubmitEffect(s, o, Submitted(s, o))
  {
    hide Total, Locks, Fifo, Results, References, InsertedOnce, Answers;
    Apart(s);
    Fresh(s, o);
    Exclusive(s, o);
    FifoAppend(s.inserted, s.finished, Unfinished(s.hand, s.worker), s.queue, o);
    ReferencesAppend(s.refs, s.subs, s.queue, s.hand, o);
    InsertedAppend(s.inserted, s.subs, o);
    Moved(s, o, Count);
  }

  lemma SubmitCount(s: State, o: Op)
    requires Inv(s) && o < |s.subs| && s.subs[o].pc.Count? && SubmitEnabled(s, o)
    ensures Inv(Submitted(s, o)) && SubmitEffect(s, o, Submitted(s, o))
  {
    hide Total, Fifo, InsertedOnce, References, Results, Answers;
    Moved(s, o, Submitted(s, o).subs[o].pc);
  }

  lemma SubmitReset(s: State, o: Op)
    requires Inv(s) && o < |s.subs| && s.subs[o].pc.Reset? && SubmitEnabled(s, o)
    ensures Inv(Submitted(s, o)) && SubmitEffect(s, o, Submitted(s, o))
  {
    hide Total, Fifo, InsertedOnce, References, Results, Answers;
    Moved(s, o, Submitted(s, o).subs[o].pc);
  }

  lemma SubmitLeave(s: State, o: Op)
    requires Inv(s) && o < |s.subs| && s.subs[o].pc.Leave? && SubmitEnabled(s, o)
    ensures Inv(Submitted(s, o)) && SubmitEffect(s, o, Submitted(s, o))
  {
    hide Total, Fifo, InsertedOnce, References, Results, Answers;
    Moved(s, o, Submitted(s, o).subs[o].pc);
  }

  lemma SubmitPost(s: State, o: Op)
    requires Inv(s) && o < |s.subs| && s.subs[o].pc.Post? && SubmitEnabled(s, o)
    ensures Inv(Submitted(s, o)) && SubmitEffect(s, o, Submitted(s, o))
  {
    hide Total, Locks, Fifo, InsertedOnce, References, Results;
    Moved(s, o, Submitted(s, o).subs[o].pc);
  }

  lemma SubmitAwait(s: State, o: Op)
    requires Inv(s) && o < |s.subs| && s.subs[o].pc.Await? && SubmitEnabled(s, o)
    ensures Inv(Submitted(s, o)) && SubmitEffect(s, o, Submitted(s, o))
  {
    hide Total, Locks, Fifo, InsertedOnce, References, Results;
    Moved(s, o, Submitted(s, o).subs[o].pc);
  }

  lemma SubmitTake(s: State, o: Op)
    requires Inv(s) && o < |s.subs| && s.subs[o].pc.Take? && SubmitEnabled(s, o)
    ensures Inv(Submitted(s, o)) && SubmitEffect(s, o, Submitted(s, o))
  {
    hide Total, Locks, Fifo, InsertedOnce, References;
    Moved(s, o, Submitted(s, o).subs[o].pc);
  }

  lemma SubmitDrop(s: State, o: Op)
    requires Inv(s) && o < |s.subs| && s.subs[o].pc.Drop? && SubmitEnabled(s, o)
    ensures Inv(Submitted(s, o)) && SubmitEffect(s, o, Submitted(s, o))
  {
    hide Total, Locks, Fifo, InsertedOnce, Results;
    Moved(s, o, Submitted(s, o).subs[o].pc);
  }

  lemma StartRecords(s: State, waits: bool)
    requires Inv(s)
    ensures var t := Started(s, waits);
            References(t.refs, t.subs, t.queue, t.hand)
            && Results(t.records, t.reported, t.finished, t.hand, Finishing(t.worker), t.worker.Store?,
                       t.worker.Signal?, t.outcome)
            && Answers(t.records, t.reported, t.taken, t.subs)
  {
    hide Total, Fifo, Locks, Pending, Tokens, InsertedOnce;
    Apart(s);
    Unused(s);
  }

  lemma Unused(s: State)
    requires Inv(s)
    ensures |s.subs| !in s.inserted
  {
    hide Total, Fifo, Locks, Pending, Tokens, References, Results, Answers;
  }

  lemma StartKeeps(s: State, waits: bool)
    requires Inv(s)
    ensures Inv(Started(s, waits))
  {
    hide Total, Fifo, References, Results, Answers;
    TotalAppend(Unposted, s.subs, Sub(Enter, waits));
    StartRecords(s, waits);
    Unused(s);
  }

  lemma WorkTest(s: State, v: Outcome)
    requires Inv(s) && s.worker.Test? && WorkEnabled(s)
    ensures Inv(Worked(s, v)) && WorkEffect(s, Worked(s, v))
  {
    hide Total, Locks, Fifo, InsertedOnce, References, Results, Answers;
  }

  lemma WorkWaitToken(s: State, v: Outcome)
    requires Inv(s) && s.worker.WaitToken? && WorkEnabled(s)
    ensures Inv(Worked(s, v)) && WorkEffect(s, Worked(s, v))
  {
    hide Total, Locks, Fifo, InsertedOnce, References, Results, Answers;
  }

  lemma WorkEnterList(s: State, v: Outcome)
    requires Inv(s) && s.worker.EnterList? && WorkEnabled(s)
    ensures Inv(Worked(s, v)) && WorkEffect(s, Worked(s, v))
  {
    hide Total, Fifo, InsertedOnce, References, Results, Answers;
  }

  lemma WorkUnlink(s: State, v: Outcome)
    requires Inv(s) && s.worker.Unlink? && WorkEnabled(s)
    ensures Inv(Worked(s, v)) && WorkEffect(s, Worked(s, v))
  {
    hide Total, Locks, Fifo, InsertedOnce, References, Answers, Results;
    Apart(s);
    Exclusive(s, 0);
    if s.queue == [] {
      ResultsTake(s.records, s.reported, s.finished, 0, s.outcome);
    } else {
      FifoTake(s.inserted, s.finished, s.queue);
      ReferencesTake(s.refs, s.subs, s.queue);
      ResultsTake(s.records, s.reported, s.finished, s.queue[0], s.outcome);
    }
  }

  lemma WorkLeaveList(s: State, v: Outcome)
    requires Inv(s) && s.worker.LeaveList? && WorkEnabled(s)
    ensures Inv(Worked(s, v)) && WorkEffect(s, Worked(s, v))
  {
    hide Total, Fifo, InsertedOnce, References, Answers;
  }

  lemma WorkCall(s: State, v: Outcome)
    requires Inv(s) && s.worker.Call? && WorkEnabled(s)
    ensures Inv(Worked(s, v)) && WorkEffect(s, Worked(s, v))
  {
    hide Total, Locks, InsertedOnce, References;
    Apart(s);
  }

  lemma WorkStore(s: State, v: Outcome)
    requires Inv(s) && s.worker.Store? && WorkEnabled(s)
    ensures Inv(Worked(s, v)) && WorkEffect(s, Worked(s, v))
  {
    hide Total, Locks, InsertedOnce, References;
    Apart(s);
  }

  lemma WorkSignal(s: State, v: Outcome)
    requires Inv(s) && s.worker.Signal? && WorkEnabled(s)
    ensures Inv(Worked(s, v)) && WorkEffect(s, Worked(s, v))
  {
    hide Total, Locks, InsertedOnce, References;
    Apart(s);
  }

  lemma WorkEnterCount(s: State, v: Outcome)
    requires Inv(s) && s.worker.EnterCount? && WorkEnabled(s)
    ensures Inv(Worked(s, v)) && WorkEffect(s, Worked(s, v))
  {
    hide Total, Fifo, InsertedOnce, References, Results, Answers;
  }

  lemma WorkDiscount(s: State, v: Outcome)
    requires Inv(s) && s.worker.Discount? && WorkEnabled(s)
    ensures Inv(Worked(s, v)) && WorkEffect(s, Worked(s, v))
  {
    hide Total, Fifo, InsertedOnce, References, Results, Answers;
  }

  lemma WorkSetEvent(s: State, v: Outcome)
    requires Inv(s) && s.worker.SetEvent? && WorkEnabled(s)
    ensures Inv(Worked(s, v)) && WorkEffect(s, Worked(s, v))
  {
    hide Total, Fifo, InsertedOnce, References, Results, Answers;
  }

  lemma WorkLeaveCount(s: State, v: Outcome)
    requires Inv(s) && s.worker.LeaveCount? && WorkEnabled(s)
    ensures Inv(Worked(s, v)) && WorkEffect(s, Worked(s, v))
  {
    hide Total, Fifo, InsertedOnce, References, Results, Answers;
  }

  lemma WorkUnref(s: State, v: Outcome)
    requires Inv(s) && s.worker.Unref? && WorkEnabled(s)
    ensures Inv(Worked(s, v)) && WorkEffect(s, Worked(s, v))
  {
    hide Total, Locks, Fifo, InsertedOnce, Answers;
    Apart(s);
  }

  lemma SubmitKeeps(s: State, o: Op)
    requires Inv(s) && o < |s.subs| && SubmitEnabled(s, o)
    ensures Inv(Submitted(s, o)) && SubmitEffect(s, o, Submitted(s, o))
  {
    hide Inv, Submitted, SubmitEffect;
    match s.subs[o].pc
    case Enter => SubmitEnter(s, o);
    case Link => SubmitLink(s, o);
    case Count => SubmitCount(s, o);
    case Reset => SubmitReset(s, o);
    case Leave => SubmitLeave(s, o);
    case Post => SubmitPost(s, o);
    case Await => SubmitAwait(s, o);
    case Take => SubmitTake(s, o);
    case Drop => SubmitDrop(s, o);
  }

  lemma WorkKeeps(s: State, v: Outcome)
    requires Inv(s) && WorkEnabled(s)
    ensures Inv(Worked(s, v)) && WorkEffect(s, Worked(s, v))
  {
    hide Inv, Worked, WorkEffect;
    match s.worker
    case Test => WorkTest(s, v);
    case WaitToken => WorkWaitToken(s, v);
    case EnterList => WorkEnterList(s, v);
    case Unlink => WorkUnlink(s, v);
    case LeaveList => WorkLeaveList(s, v);
    case Call => WorkCall(s, v);
    case Store => WorkStore(s, v);
    case Signal => WorkSignal(s, v);
    case EnterCount => WorkEnterCount(s, v);
    case Discount => WorkDiscount(s, v);
    case SetEvent => WorkSetEvent(s, v);
    case LeaveCount => WorkLeaveCount(s, v);
    case Unref => WorkUnref(s, v);
  }

  /** No step breaks the invariant. */
  lemma Kept(s: State, a: Action)
    requires Inv(s) && Enabled(s, a)
    ensures Inv(Next(s, a))
  {
    hide Inv, Submitted, Worked, Started;
    match a
    case Start(waits) => StartKeeps(s, waits);
    case Submit(o) => SubmitKeeps(s, o);
    case Work(v) => WorkKeeps(s, v);
    case _ => ClosersKeep(s, a);
  }

  lemma ClosersKeep(s: State, a: Action)
    requires Inv(s) && Enabled(s, a) && (a.Close? || a.ClosePost?)
    ensures Inv(Next(s, a))
  {
    hide Locks, Fifo, InsertedOnce, References, Results, Answers;
  }

  // ---------------------------------------------------------------- runs

  ghost predicate Legal(s: State, run: seq<Action>)
    requires Inv(s)
    decreases |run|
  {
    run != [] ==> Enabled(s, run[0]) && (Kept(s, run[0]); Legal(Next(s, run[0]), run[1..]))
  }

  ghost function End(s: State, run: seq<Action>): State
    requires Inv(s) && Legal(s, run)
    decreases |run|
  {
    if run == [] then s else Kept(s, run[0]); End(Next(s, run[0]), run[1..])
  }

  lemma Starts(s: State)
    requires Init(s)
    ensures Inv(s)
  {
  }

  /** A constructed stream: nothing submitted, the worker about to look at its closed flag. */
  function Constructed(): State {
    State(Free, [], 0, true, 0, false, 0, [], [], [], Test, None, Outcome(0, 0), [], [], [], [])
  }

  /** Runs start somewhere: a constructed stream satisfies the invariant that every step keeps. */
  lemma ConstructedStarts()
    ensures Init(Constructed()) && Inv(Constructed())
  {
    Starts(Constructed());
  }

  /** The invariant holds after every run. */
  lemma {:induction false} Always(s: State, run: seq<Action>)
    requires Inv(s) && Legal(s, run)
    ensures Inv(End(s, run))
    decreases |run|
  {
    hide Inv, Next, Enabled;
    if run != [] {
      Kept(s, run[0]);
      Always(Next(s, run[0]), run[1..]);
    }
  }

  /** With the lock free, the counter is the listed operations plus the one in hand, and the event says it is zero. */
  lemma CounterExact(s: State)
    requires Inv(s) && s.lock == Free
    ensures s.pending == |s.queue| + InHand(s)
    ensures s.flushed <==> s.pending == 0
  {
    hide Fifo, InsertedOnce, Tokens, References, Results, Answers;
  }

  lemma {:induction false} TotalWitness(w: SubPc -> nat, subs: seq<Sub>) returns (o: nat)
    requires Total(w, subs) > 0
    ensures o < |subs| && w(subs[o].pc) > 0
    decreases |subs|
  {
    if w(subs[0].pc) > 0 {
      o := 0;
    } else {
      var k := TotalWitness(w, subs[1..]);
      o := k + 1;
    }
  }

  /** A listed operation is never forgotten: a token is there, was just consumed, or is about to be released. */
  lemma NoLostWakeup(s: State)
    requires Inv(s) && s.queue != []
    ensures s.tokens > 0 || Woken(s.worker) == 1 || exists o :: 0 <= o < |s.subs| && Unposted(s.subs[o].pc) == 1
  {
    hide Total, Locks, Fifo, InsertedOnce, References, Results, Answers;
    if s.tokens == 0 && Woken(s.worker) == 0 {
      var o := TotalWitness(Unposted, s.subs);
    }
  }

  /** Operations finish in insertion order, none of them twice. */
  lemma FinishedInOrder(s: State)
    requires Inv(s)
    ensures s.finished <= s.inserted
    ensures forall i, j :: 0 <= i < j < |s.finished| ==> s.finished[i] != s.finished[j]
  {
    hide Locks, InsertedOnce, Pending, Tokens, References, Results, Answers;
    assert s.inserted[..|s.finished|] == s.finished;
    forall i, j | 0 <= i < j < |s.finished| ensures s.finished[i] != s.finished[j] {
      assert s.inserted[i] == s.finished[i] && s.inserted[j] == s.finished[j];
    }
  }

  /** The record a step reads or writes. */
  function Touched(s: State, a: Action): Option<Op>
    requires Shapes(s) && Enabled(s, a)
  {
    match a
    case Submit(o) => if s.subs[o].pc.Enter? then None else Some(o)
    case Work(_) => if s.worker.Call? || s.worker.Store? || s.worker.Signal? || s.worker.Unref? then s.hand else None
    case _ => None
  }

  /** A record is deleted when both its holders have released it, not before and not later. */
  lemma DeletedWhenReleased(s: State, o: Op)
    requires Inv(s) && o < |s.subs|
    ensures s.refs[o] >= 0
    ensures s.refs[o] == 0 <==> s.subs[o].pc.Gone? && !HeldByStream(s.queue, s.hand, o)
  {
    hide Locks, Fifo, InsertedOnce, Pending, Tokens, Results, Answers;
  }

  /** No step uses a deleted record, and no listed record is deleted. */
  lemma OnlyLiveRecordsUsed(s: State, a: Action)
    requires Inv(s) && Enabled(s, a)
    ensures Touched(s, a).Some? ==> Touched(s, a).value < |s.refs| && s.refs[Touched(s, a).value] > 0
    ensures forall i :: 0 <= i < |s.queue| ==> s.refs[s.queue[i]] > 0
  {
    hide Locks, Fifo, InsertedOnce, Pending, Tokens, Results, Answers;
  }

  /** A call that waited returns the outcome the callback reported for its own operation. */
  lemma AnswerIsOwn(s: State, o: Op)
    requires Inv(s) && o < |s.subs| && s.subs[o].waits && s.subs[o].pc.Gone?
    ensures s.taken[o].Some? && s.taken[o] == s.reported[o] && o in s.finished
  {
    hide Locks, Fifo, InsertedOnce, Pending, Tokens, References;
  }

  // --------------------------------------------------------------- flush

  /** While the event is set, everything inserted is finished. */
  lemma SetMeansFinished(s: State, o: Op)
    requires Inv(s) && s.flushed && o < |s.subs| && Settled(s.subs[o].pc)
    ensures o in s.finished
  {
    hide Locks, Tokens, References, Results, Answers;
    assert o in s.inserted;
    var u := Unfinished(s.hand, s.worker);
    if HolderAt(s, Count) || HolderAt(s, Reset) {
      assert |s.queue| + InHand(s) == 1;
      assert s.queue == [s.lock.op] && u == [];
      assert s.inserted == s.finished + [s.lock.op];
    } else {
      assert s.queue == [] && u == [];
      assert s.inserted == s.finished;
    }
  }

  lemma SettledStays(s: State, a: Action, o: Op)
    requires Inv(s) && Enabled(s, a) && o < |s.subs| && Settled(s.subs[o].pc)
    ensures o < |Next(s, a).subs| && Settled(Next(s, a).subs[o].pc)
  {
    hide Inv, Submitted, Worked;
    match a
    case Submit(p) => SubmitKeeps(s, p);
    case Work(v) => WorkKeeps(s, v);
    case _ =>
  }

  lemma {:induction false} SettledAfter(s: State, run: seq<Action>, o: Op)
    requires Inv(s) && Legal(s, run) && o < |s.subs| && Settled(s.subs[o].pc)
    ensures o < |End(s, run).subs| && Settled(End(s, run).subs[o].pc)
    decreases |run|
  {
    hide Inv, Next, Enabled;
    if run != [] {
      Kept(s, run[0]);
      SettledStays(s, run[0], o);
      SettledAfter(Next(s, run[0]), run[1..], o);
    }
  }

  /** Flush called in `s` that finds the event set after `run` returns with every earlier operation finished. */
  lemma FlushWaitsForAll(s: State, run: seq<Action>, o: Op)
    requires Inv(s) && Legal(s, run) && End(s, run).flushed
    requires o < |s.subs| && Settled(s.subs[o].pc)
    ensures o in End(s, run).finished
  {
    hide Inv, Next, Enabled;
    Always(s, run);
    SettledAfter(s, run, o);
    SetMeansFinished(End(s, run), o);
  }

  // ------------------------------------------------------------ progress

  /** Bounds the steps left when no new call arrives. */
  function Rank(s: State): nat {
    Total(SubWeight, s.subs) + WorkWeight(s.worker) + 20 * s.tokens + 21 * s.closing
  }

  predicate OldWork(a: Action) { a.Submit? || a.Work? || a.ClosePost? }

  lemma RankDrops(s: State, a: Action)
    requires Inv(s) && Enabled(s, a) && OldWork(a)
    ensures Rank(Next(s, a)) < Rank(s)
    ensures Next(s, a).closed == s.closed
  {
    hide Inv, Total, Submitted, Worked;
    match a
    case Submit(o) =>
      SubmitKeeps(s, o);
      TotalUpdate(SubWeight, s.subs, o, Submitted(s, o).subs[o]);
    case Work(v) => WorkKeeps(s, v);
    case ClosePost =>
  }

  /** Nothing is left to do. */
  ghost predicate Idle(s: State) {
    && s.queue == [] && s.finished == s.inserted && s.pending == 0 && s.flushed
    && |s.refs| == |s.subs|
    && (forall o :: 0 <= o < |s.subs| ==> s.subs[o].pc.Gone? && o in s.finished && s.refs[o] == 0)
  }

  ghost predicate Stuck(s: State) { forall a :: OldWork(a) ==> !Enabled(s, a) }

  /** An open stream on which no step is possible has finished everything. */
  lemma StuckIsIdle(s: State)
    requires Inv(s) && !s.closed && Stuck(s)
    ensures Idle(s)
  {
    hide Total, Locks, Fifo, InsertedOnce, Pending, References, Results, Answers;
    assert !Enabled(s, Work(Outcome(0, 0)));
    forall o | 0 <= o < |s.subs| ensures !SubmitEnabled(s, o) {
      assert !Enabled(s, Submit(o));
    }
    StuckWorkerWaits(s);
    forall o | 0 <= o < |s.subs| ensures Unposted(s.subs[o].pc) == 0 {
      assert !SubmitEnabled(s, o);
    }
    TotalZero(Unposted, s.subs);
    AllFinished(s);
    CounterExact(s);
    forall o | 0 <= o < |s.subs| ensures s.subs[o].pc.Gone? && o in s.finished && s.refs[o] == 0 {
      assert !SubmitEnabled(s, o);
      StuckCallIsGone(s, o);
      DeletedWhenReleased(s, o);
    }
  }

  lemma {:induction false} TotalZero(w: SubPc -> nat, subs: seq<Sub>)
    requires forall o :: 0 <= o < |subs| ==> w(subs[o].pc) == 0
    ensures Total(w, subs) == 0
    decreases |subs|
  {
    if subs != [] {
      TotalZero(w, subs[1..]);
    }
  }

  lemma AllFinished(s: State)
    requires Inv(s) && s.queue == [] && s.hand == None
    ensures s.finished == s.inserted
  {
    hide Locks, InsertedOnce, Pending, References, Results, Answers, Tokens;
  }

  lemma StuckCallIsGone(s: State, o: Op)
    requires Inv(s) && o < |s.subs| && s.lock == Free && s.finished == s.inserted && !SubmitEnabled(s, o)
    ensures s.subs[o].pc.Gone? && o in s.finished
  {
    hide Locks, Fifo, Pending, References, Answers, Tokens;
  }

  lemma HolderRuns(s: State)
    requires Inv(s) && s.lock.HeldBy?
    ensures s.lock.op < |s.subs| && SubmitEnabled(s, s.lock.op)
  {
    hide Fifo, InsertedOnce, Pending, Tokens, References, Results, Answers;
    assert InList(s.subs[s.lock.op].pc);
  }

  lemma StuckWorkerWaits(s: State)
    requires Inv(s) && !s.closed && !WorkEnabled(s)
    requires forall o :: 0 <= o < |s.subs| ==> !SubmitEnabled(s, o)
    ensures s.worker == WaitToken && s.tokens == 0 && s.lock == Free
  {
    hide Fifo, InsertedOnce, Pending, Tokens, References, Results, Answers;
    if s.lock.HeldBy? {
      HolderRuns(s);
      assert false;
    }
  }

  /** Left alone, an open stream drains: every run of old work is short, and where it cannot go on all is finished. */
  lemma {:induction false} Drains(s: State, run: seq<Action>)
    requires Inv(s) && !s.closed && Legal(s, run) && forall i :: 0 <= i < |run| ==> OldWork(run[i])
    ensures |run| <= Rank(s)
    ensures Stuck(End(s, run)) ==> Idle(End(s, run))
    decreases |run|
  {
    hide Inv, Next, Enabled, Rank, Stuck, Idle;
    if run == [] {
      if Stuck(s) {
        StuckIsIdle(s);
      }
    } else {
      Kept(s, run[0]);
      RankDrops(s, run[0]);
      Drains(Next(s, run[0]), run[1..]);
    }
  }

  // ----------------------------------------------------------- after Close

  /** A closed stream whose worker sleeps has a token for it, or a Close that is about to post one. */
  predicate WakesUp(s: State) { s.closed && s.worker == WaitToken ==> s.tokens + s.closing > 0 }

  lemma WakesKept(s: State, a: Action)
    requires Inv(s) && Enabled(s, a) && WakesUp(s)
    ensures WakesUp(Next(s, a))
  {
    hide Inv, Shapes;
    ShapesOf(s);
  }

  lemma ShapesOf(s: State)
    requires Inv(s)
    ensures Shapes(s)
  {
  }

  /** So it is after every interleaving from construction on. */
  lemma {:induction false} WakesAlways(s: State, run: seq<Action>)
    requires Inv(s) && Legal(s, run) && WakesUp(s)
    ensures WakesUp(Constructed())
    ensures WakesUp(End(s, run))
    decreases |run|
  {
    hide Inv, Next, Enabled, WakesUp;
    NothingClosed();
    if run != [] {
      Kept(s, run[0]);
      WakesKept(s, run[0]);
      WakesAlways(Next(s, run[0]), run[1..]);
    }
  }

  lemma NothingClosed()
    ensures WakesUp(Constructed())
  {
  }

  /** A closed stream on which no step is possible has lost its worker: the thread has ended. */
  lemma StuckHasEnded(s: State)
    requires Inv(s) && s.closed && WakesUp(s) && Stuck(s)
    ensures s.worker == Exited
  {
    hide Fifo, InsertedOnce, Pending, Tokens, References, Results, Answers;
    assert !Enabled(s, Work(Outcome(0, 0))) && !Enabled(s, ClosePost);
    forall o | 0 <= o < |s.subs| ensures !SubmitEnabled(s, o) {
      assert !Enabled(s, Submit(o));
    }
    if s.lock.HeldBy? {
      HolderRuns(s);
      assert false;
    }
  }

  /** After Close the worker ends: every run of old work is short, and where it cannot go on the thread is gone. */
  lemma {:induction false} CloseEnds(s: State, run: seq<Action>)
    requires Inv(s) && s.closed && WakesUp(s) && Legal(s, run) && forall i :: 0 <= i < |run| ==> OldWork(run[i])
    ensures |run| <= Rank(s)
    ensures Stuck(End(s, run)) ==> End(s, run).worker == Exited
    decreases |run|
  {
    hide Inv, Next, Enabled, Rank, Stuck, WakesUp;
    if run == [] {
      if Stuck(s) {
        StuckHasEnded(s);
      }
    } else {
      Kept(s, run[0]);
      WakesKept(s, run[0]);
      RankDrops(s, run[0]);
      CloseEnds(Next(s, run[0]), run[1..]);
    }
  }
}
