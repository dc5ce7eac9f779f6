/**
 A connection slot of the broker as interleaved steps: one interlocked operation on the
 reference count, or one operation under the send lock, at a time. `MfBroker` has the
 methods that perform these steps on the real fields.
 */
module MfSlot {
  import opened Machine

  datatype State = Free | Handshake | Established

  /** Who gives a reference back. */
  datatype Holder<M> = Owner | Carried(message: M) | Guest

  /**
   Count and state, and who holds the references: the owner of the slot, guests, messages not
   yet listed, listed messages, and messages taken off the list and not released. `clearing`
   is the number of listed messages released so far by a running `MFConnection_Clear`, which
   holds the send lock. `listed` is everything listed since the slot was taken, `drained` the
   part that has left the list. A connection belongs to one worker, which is `draining` while
   it is inside its send loop.
   */
  datatype Slot<M> = Slot(
    state: State, count: int, owned: bool, guests: nat, arriving: set<M>, queue: seq<M>, popped: set<M>,
    clearing: Option<nat>, listed: seq<M>, drained: seq<M>, draining: bool)

  datatype Step<M> =
    | Open
    | Establish
    | AddRef
    | Prepare(message: M)
    | Enqueue(message: M)
    | DrainStart
    | Look
    | Pop
    | DrainEnd
    | Drop(who: Holder<M>)
    | FreeSlot
    | ClearStart
    | ClearOne
    | ClearEnd

  function Cleared<M>(s: Slot<M>): nat { if s.clearing.Some? then s.clearing.value else 0 }

  /** References not given back. */
  function Held<M>(s: Slot<M>): int {
    (if s.owned then 1 else 0) + s.guests + |s.arriving| + |s.queue| - Cleared(s) + |s.popped|
  }

  /** A message is in one place. */
  ghost predicate Apart<M>(s: Slot<M>) {
    && (forall e :: e in s.queue ==> e !in s.arriving && e !in s.popped)
    && s.arriving !! s.popped
    && (forall i, j :: 0 <= i < j < |s.queue| ==> s.queue[i] != s.queue[j])
  }

  ghost predicate Inv<M>(s: Slot<M>) {
    && s.count == Held(s)
    && (s.state == Free ==> s.count == 0)
    && Apart(s)
    && s.listed == s.drained + s.queue
    && (s.clearing.Some? ==> s.owned && s.clearing.value <= |s.queue|)
    && (s.draining ==> s.owned)
    && (s.popped != {} ==> s.draining)
  }

  /** A slot that has never been used. */
  function Unused<M>(): Slot<M> { Slot(Free, 0, false, 0, {}, [], {}, None, [], [], false) }

  /**
   When a step can be taken. The send loop takes the send lock and reads the list with no
   reference of its own: the worker that runs it is also the one that gives the owner's
   reference back, outside the loop, or has ended before somebody else does.
   */
  ghost predicate Enabled<M>(s: Slot<M>, step: Step<M>) {
    match step
    case Open => s.state == Free
    case Establish => Held(s) > 0
    case AddRef => Held(s) > 0
    case Prepare(m) => Held(s) > 0 && m !in s.arriving && m !in s.queue && m !in s.popped
    case Enqueue(m) => m in s.arriving && s.clearing == None
    case DrainStart => s.owned && !s.draining
    case Look => s.draining && s.popped == {} && s.clearing == None
    case Pop => s.draining && s.popped == {} && s.queue != [] && s.clearing == None
    case DrainEnd => s.draining && s.popped == {}
    case Drop(Owner) => s.owned && !s.draining && s.clearing == None
    case Drop(Carried(m)) => m in s.popped
    case Drop(Guest) => s.guests > 0
    case FreeSlot => s.count == 0 && s.state != Free
    case ClearStart => s.owned && s.clearing == None
    case ClearOne => s.clearing.Some? && s.clearing.value < |s.queue|
    case ClearEnd => s.clearing == Some(|s.queue|)
  }

  ghost function Next<M>(s: Slot<M>, step: Step<M>): Slot<M>
    requires Enabled(s, step)
  {
    match step
    case Open => Slot(Handshake, 1, true, 0, {}, [], {}, None, [], [], false)
    case Establish => s.(state := Established)
    case AddRef => s.(count := s.count + 1, guests := s.guests + 1)
    case Prepare(m) => s.(count := s.count + 1, arriving := s.arriving + {m})
    case Enqueue(m) => s.(arriving := s.arriving - {m}, queue := s.queue + [m], listed := s.listed + [m])
    case DrainStart => s.(draining := true)
    case Look => s
    case DrainEnd => s.(draining := false)
    case Pop => s.(queue := s.queue[1..], popped := s.popped + {s.queue[0]}, drained := s.drained + [s.queue[0]])
    case Drop(Owner) => s.(count := s.count - 1, owned := false)
    case Drop(Carried(m)) => s.(count := s.count - 1, popped := s.popped - {m})
    case Drop(Guest) => s.(count := s.count - 1, guests := s.guests - 1)
    case FreeSlot => s.(state := Free)
    case ClearStart => s.(clearing := Some(0))
    case ClearOne => s.(count := s.count - 1, clearing := Some(s.clearing.value + 1))
    case ClearEnd => s.(queue := [], drained := s.drained + s.queue, clearing := None)
  }

  lemma PopKeeps<M>(s: Slot<M>)
    requires Inv(s) && Enabled(s, Pop)
    ensures Inv(Next(s, Pop))
  {
    var m := s.queue[0];
    assert s.queue == [m] + s.queue[1..];
    assert m !in s.popped && m !in s.queue[1..];
    assert s.drained + s.queue == s.drained + [m] + s.queue[1..];
  }

  lemma EnqueueKeeps<M>(s: Slot<M>, m: M)
    requires Inv(s) && Enabled(s, Enqueue(m))
    ensures Inv(Next(s, Enqueue(m)))
  {
    assert s.drained + s.queue + [m] == s.drained + (s.queue + [m]);
  }

  lemma PrepareKeeps<M>(s: Slot<M>, m: M)
    requires Inv(s) && Enabled(s, Prepare(m))
    ensures Inv(Next(s, Prepare(m)))
  {
  }

  lemma DropKeeps<M>(s: Slot<M>, who: Holder<M>)
    requires Inv(s) && Enabled(s, Drop(who))
    ensures Inv(Next(s, Drop(who)))
  {
    if s.count == 0 {
      NobodyHolds(s);
    }
  }

  lemma ClearKeeps<M>(s: Slot<M>, step: Step<M>)
    requires Inv(s) && Enabled(s, step) && (step.ClearStart? || step.ClearOne? || step.ClearEnd?)
    ensures Inv(Next(s, step))
  {
    assert s.drained + s.queue == s.drained + s.queue + [];
  }

  lemma OthersKeep<M>(s: Slot<M>, step: Step<M>)
    requires Inv(s) && Enabled(s, step) && (step.Open? || step.Establish? || step.AddRef? || step.FreeSlot?)
    ensures Inv(Next(s, step))
  {
  }

  lemma LoopKeeps<M>(s: Slot<M>, step: Step<M>)
    requires Inv(s) && Enabled(s, step) && (step.DrainStart? || step.Look? || step.DrainEnd?)
    ensures Inv(Next(s, step))
  {
  }

  /** No step breaks the accounting. */
  lemma Kept<M>(s: Slot<M>, step: Step<M>)
    requires Inv(s) && Enabled(s, step)
    ensures Inv(Next(s, step))
  {
    hide Inv, Enabled, Next;
    match step
    case Pop =>
      PopKeeps(s);
    case Enqueue(m) =>
      EnqueueKeeps(s, m);
    case Prepare(m) =>
      PrepareKeeps(s, m);
    case Drop(who) =>
      DropKeeps(s, who);
    case ClearStart =>
      ClearKeeps(s, step);
    case ClearOne =>
      ClearKeeps(s, step);
    case ClearEnd =>
      ClearKeeps(s, step);
    case DrainStart =>
      LoopKeeps(s, step);
    case Look =>
      LoopKeeps(s, step);
    case DrainEnd =>
      LoopKeeps(s, step);
    case _ =>
      OthersKeep(s, step);
  }

  ghost predicate Legal<M>(s: Slot<M>, run: seq<Step<M>>)
    decreases |run|
  {
    run == [] || (Enabled(s, run[0]) && Legal(Next(s, run[0]), run[1..]))
  }

  ghost function End<M>(s: Slot<M>, run: seq<Step<M>>): Slot<M>
    requires Legal(s, run)
    decreases |run|
  {
    if run == [] then s else End(Next(s, run[0]), run[1..])
  }

  lemma UnusedStarts<M>()
    ensures Inv(Unused<M>())
  {
  }

  /** The accounting holds after every interleaving of senders, workers and releases. */
  lemma {:induction false} Always<M>(s: Slot<M>, run: seq<Step<M>>)
    requires Inv(s) && Legal(s, run)
    ensures Inv(End(s, run))
    decreases |run|
  {
    if run != [] {
      Kept(s, run[0]);
      Always(Next(s, run[0]), run[1..]);
    }
  }

  /** Between the release that takes the count to zero and the slot being free, nothing else can happen. */
  lemma ClosingAlone<M>(s: Slot<M>, step: Step<M>)
    requires Inv(s) && s.count == 0 && s.state != Free && Enabled(s, step)
    ensures step == FreeSlot && Next(s, step).state == Free
    ensures s.queue == [] && s.arriving == {} && s.popped == {} && !s.owned && s.guests == 0 && !s.draining
  {
    NobodyHolds(s);
  }

  /** Everything the send loop does to the list happens while a reference is held, the return to the lock after a
      release included: that release is never the last one. */
  lemma LoopIsHeld<M>(s: Slot<M>, step: Step<M>, m: M)
    requires Inv(s) && Enabled(s, step) && (step.Look? || step.Pop? || step.DrainEnd? || step == Drop(Carried(m)))
    ensures s.count > 0 && s.state != Free && Next(s, step).count > 0 && Next(s, step).state != Free
  {
    if step.Drop? {
      OwnerAndMessage(s, m);
    }
  }

  lemma OwnerAndMessage<M>(s: Slot<M>, m: M)
    requires Inv(s) && m in s.popped
    ensures s.count >= 2
  {
    assert s.popped != {} && |s.popped| >= 1;
  }

  lemma NobodyHolds<M>(s: Slot<M>)
    requires Inv(s) && s.count == 0
    ensures s.queue == [] && s.arriving == {} && s.popped == {} && !s.owned && s.guests == 0 && s.clearing == None
    ensures !s.draining
  {
  }

  /** A slot becomes free only from a count of zero, and then no message refers to it. */
  lemma FreeMeansUnreferenced<M>(s: Slot<M>, step: Step<M>)
    requires Inv(s) && Enabled(s, step) && s.state != Free && Next(s, step).state == Free
    ensures s.count == 0 && s.queue == [] && s.arriving == {} && s.popped == {}
  {
    NobodyHolds(s);
  }

  /** While the owner holds its one reference and no call is half done, the count is one more than the messages
      listed and the messages being sent. */
  lemma Conserved<M>(s: Slot<M>)
    requires Inv(s) && s.owned && s.guests == 0 && s.arriving == {} && s.clearing == None
    ensures s.count == 1 + |s.queue| + |s.popped|
  {
  }

  lemma OneInOrder<M>(s: Slot<M>, step: Step<M>)
    requires Enabled(s, step) && step != Open
    ensures s.listed <= Next(s, step).listed && s.drained <= Next(s, step).drained
  {
  }

  lemma DrainedFirst<M>(s: Slot<M>)
    requires Inv(s)
    ensures s.drained <= s.listed
  {
  }

  /** No step between two uses of a slot reorders or forgets messages: what was listed stays listed in that order,
      and what left the list stays gone. */
  lemma {:induction false} InOrder<M>(s: Slot<M>, run: seq<Step<M>>)
    requires Inv(s) && Legal(s, run) && Open !in run
    ensures s.listed <= End(s, run).listed && s.drained <= End(s, run).drained <= End(s, run).listed
    decreases |run|
  {
    hide Inv, Next, Enabled;
    if run == [] {
      DrainedFirst(s);
    } else {
      Kept(s, run[0]);
      OneInOrder(s, run[0]);
      assert run[0] in run && forall x :: x in run[1..] ==> x in run;
      InOrder(Next(s, run[0]), run[1..]);
    }
  }

  /** What a step puts on the list and what it takes off for sending. */
  function Put<M>(step: Step<M>): seq<M> { if step.Enqueue? then [step.message] else [] }
  ghost function Take<M>(s: Slot<M>, step: Step<M>): seq<M>
    requires Enabled(s, step)
  {
    if step.Pop? then [s.queue[0]] else []
  }

  /** The messages listed in a run, in order. */
  function Enqueued<M>(run: seq<Step<M>>): seq<M>
    decreases |run|
  {
    if run == [] then [] else Put(run[0]) + Enqueued(run[1..])
  }

  /** The messages the send loop takes off in a run, in order. */
  ghost function Taken<M>(s: Slot<M>, run: seq<Step<M>>): seq<M>
    requires Legal(s, run)
    decreases |run|
  {
    if run == [] then [] else Take(s, run[0]) + Taken(Next(s, run[0]), run[1..])
  }

  /** However senders, guests and the send loop interleave: what the loop takes off, followed by what is still listed,
      is what was listed at the start followed by what was added, each message once and in that order. */
  lemma {:induction false} FirstInFirstOut<M>(s: Slot<M>, run: seq<Step<M>>)
    requires Legal(s, run) && Open !in run && ClearEnd !in run
    ensures Taken(s, run) + End(s, run).queue == s.queue + Enqueued(run)
    decreases |run|
  {
    hide Next, Enabled, Put, Take;
    if run != [] {
      var t, rest := Next(s, run[0]), run[1..];
      assert run[0] in run && forall x :: x in rest ==> x in run;
      FirstInFirstOut(t, rest);
      OneInOneOut(s, run[0]);
      Regroup(Take(s, run[0]), Taken(t, rest), End(t, rest).queue, t.queue, Enqueued(rest), s.queue, Put(run[0]));
    }
  }

  lemma Regroup<M>(a: seq<M>, x: seq<M>, y: seq<M>, q: seq<M>, e: seq<M>, p: seq<M>, b: seq<M>)
    requires x + y == q + e && a + q == p + b
    ensures (a + x) + y == p + (b + e)
  {
    assert (a + x) + y == a + (x + y);
    assert a + (q + e) == (a + q) + e;
    assert (p + b) + e == p + (b + e);
  }

  lemma OneInOneOut<M>(s: Slot<M>, step: Step<M>)
    requires Enabled(s, step) && step != Open && step != ClearEnd
    ensures Take(s, step) + Next(s, step).queue == s.queue + Put(step)
  {
    var q, t := s.queue, Next(s, step);
    if step.Pop? {
      assert [q[0]] + q[1..] == q && t.queue == q[1..];
    } else if step.Enqueue? {
      assert t.queue == q + [step.message];
    } else {
      assert t.queue == q;
    }
  }

  function Repeated<M>(step: Step<M>, n: nat): (run: seq<Step<M>>)
    ensures |run| == n && forall i :: 0 <= i < n ==> run[i] == step
  {
    seq(n, _ => step)
  }

  /** Releasing the messages of the list one by one. */
  lemma {:induction false} ClearRest<M>(s: Slot<M>, n: nat)
    requires s.clearing.Some? && s.clearing.value + n == |s.queue|
    ensures Legal(s, Repeated(ClearOne, n))
    ensures End(s, Repeated(ClearOne, n)) == s.(count := s.count - n, clearing := Some(|s.queue|))
    decreases n
  {
    if n > 0 {
      ClearRest(Next(s, ClearOne), n - 1);
      assert Repeated<M>(ClearOne, n)[1..] == Repeated<M>(ClearOne, n - 1);
    }
  }

  /** What a whole `MFConnection_Clear` does when no other thread steps in between. */
  lemma ClearedAtOnce<M>(s: Slot<M>)
    requires Enabled(s, ClearStart)
    ensures var t := Next(s, ClearStart);
        var run := Repeated(ClearOne, |s.queue|);
        && Legal(t, run) && Enabled(End(t, run), ClearEnd)
        && Next(End(t, run), ClearEnd) == s.(count := s.count - |s.queue|, queue := [], drained := s.drained + s.queue)
  {
    ClearRest(Next(s, ClearStart), |s.queue|);
  }
}
