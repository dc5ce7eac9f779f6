/**
 The send side of a connection: a reference count shared by the slot owner, the messages on
 their way, and other users, and an intrusive list of messages to send. A message is
 identified with its list entry. Opening, taking a reference, listing a message, taking one
 off, dropping a reference and freeing the slot are single steps of `MfSlot`, which has all
 interleavings of them. The calls made of several steps are described as they are when no
 other thread steps in between.
 */
module MfBroker {
  import opened Machine
  import opened MfList
  import opened MfSlot

  class Connection {
    var referenceCount: int
    var state: State
    var socketOpen: bool
    var disconnected: bool
    const messagesToSend: Entry

    /** Messages listed, references taken for messages not yet listed, messages taken off and not released. */
    ghost var queue: seq<Entry>
    ghost var arriving: set<Entry>
    ghost var popped: set<Entry>
    ghost var owned: bool
    ghost var guests: nat

    /** Everything listed since the slot was taken, and the part already taken off. */
    ghost var listed: seq<Entry>
    ghost var drained: seq<Entry>

    /** The worker is inside its send loop. */
    ghost var draining: bool

    ghost function View(): Slot<Entry>
      reads this
    {
      Slot(state, referenceCount, owned, guests, arriving, queue, popped, None, listed, drained, draining)
    }

    /** The list is a ring over the queue, and the references are accounted for. */
    ghost predicate Valid()
      reads this, messagesToSend, queue
    {
      && Ring([messagesToSend] + queue)
      && messagesToSend !in arriving && messagesToSend !in popped
      && Inv(View())
    }

    /** A slot that has never been used. */
    constructor ()
      ensures Valid() && View() == Unused() && fresh(messagesToSend)
    {
      hide Ring;
      var head := new Entry();
      messagesToSend := head;
      referenceCount, state, socketOpen, disconnected := 0, Free, false, false;
      queue, arriving, popped, owned, guests := [], {}, {}, false, 0;
      listed, drained, draining := [], [], false;
      new;
      Init(messagesToSend);
      assert [messagesToSend] + [] == [messagesToSend];
    }

    /** `_MFConn_Init` on a free slot: the caller becomes the owner. */
    method Open()
      requires Valid() && state == Free
      modifies this, messagesToSend
      ensures Valid() && View() == Next(old(View()), Step.Open)
    {
      hide Ring, Inv;
      NobodyWhenFree(View());
      Kept(View(), Step.Open);
      Init(messagesToSend);
      socketOpen, disconnected := true, false;
      referenceCount := 1;
      state := Handshake;
      owned, listed, drained := true, [], [];
      assert [messagesToSend] + queue == [messagesToSend];
    }

    /** `MFConnection_SetKey` as far as the slot is concerned. */
    method SetKey()
      requires Valid() && Held(View()) > 0
      modifies this`state
      ensures Valid() && View() == Next(old(View()), Step.Establish)
    {
      hide Ring, Inv;
      Kept(View(), Step.Establish);
      state := Established;
    }

    /** `MFConnection_AddRef` by somebody who can name the connection. */
    method AddRef()
      requires Valid() && Held(View()) > 0
      modifies this`referenceCount, this`guests
      ensures Valid() && View() == Next(old(View()), Step.AddRef)
    {
      hide Ring, Inv;
      Kept(View(), Step.AddRef);
      referenceCount := referenceCount + 1;
      guests := guests + 1;
    }

    /** First half of `MFConnection_SendAsync`: the new message takes a reference. */
    method Prepare(message: Entry)
      requires Valid() && message != messagesToSend && Enabled(View(), Step.Prepare(message))
      modifies this`referenceCount, this`arriving
      ensures Valid() && View() == Next(old(View()), Step.Prepare(message))
    {
      hide Ring, Inv;
      Kept(View(), Step.Prepare(message));
      referenceCount := referenceCount + 1;
      arriving := arriving + {message};
    }

    /** Second half, under the send lock: the message joins the end of the list. */
    method Enqueue(message: Entry)
      requires Valid() && message in arriving
      modifies this`arriving, this`queue, this`listed, messagesToSend, message, queue
      ensures Valid() && View() == Next(old(View()), Step.Enqueue(message))
    {
      hide Ring, Inv;
      EnqueueKeeps(View(), message);
      NotListed(View(), message);
      InsertTail(messagesToSend, message, queue);
      queue, arriving, listed := queue + [message], arriving - {message}, listed + [message];
    }

    /** `MFConnection_SendAsync`: nothing changes when there is no memory for the message. */
    method SendAsync(message: Entry, hasMemory: bool) returns (sent: bool)
      requires Valid() && message != messagesToSend && Enabled(View(), Step.Prepare(message))
      modifies this, messagesToSend, message, queue
      ensures Valid() && sent == hasMemory
      ensures !sent ==> View() == old(View())
      ensures sent ==> View() == Next(Next(old(View()), Step.Prepare(message)), Step.Enqueue(message))
    {
      hide Ring, Inv;
      if !hasMemory {
        return false;
      }
      Prepare(message);
      Enqueue(message);
      sent := true;
    }

    /** The worker takes up and leaves its send loop. */
    method EnterLoop()
      requires Valid() && Enabled(View(), Step.DrainStart)
      modifies this`draining
      ensures Valid() && View() == Next(old(View()), Step.DrainStart)
    {
      hide Ring, Inv;
      Kept(View(), Step.DrainStart);
      draining := true;
    }

    method LeaveLoop()
      requires Valid() && Enabled(View(), Step.DrainEnd)
      modifies this`draining
      ensures Valid() && !draining && View() == Next(old(View()), Step.DrainEnd)
    {
      hide Ring, Inv;
      Kept(View(), Step.DrainEnd);
      draining := false;
    }

    /** The send loop enters the send lock and tests the list. */
    method Look() returns (empty: bool)
      requires Valid() && Enabled(View(), Step.Look)
      ensures empty <==> queue == []
      ensures View() == Next(View(), Step.Look)
    {
      hide Ring, Inv;
      Listed(this);
      empty := Empty(messagesToSend, queue);
    }

    /** Under the send lock: the first message leaves the list, and keeps its reference. */
    method Pop() returns (message: Entry)
      requires Valid() && Enabled(View(), Step.Pop)
      modifies this`queue, this`popped, this`drained, messagesToSend, queue
      ensures Valid() && message == old(queue)[0] && Ring([message])
      ensures View() == Next(old(View()), Step.Pop)
    {
      hide Ring, Inv, Next, Enabled;
      PopIs(View());
      FirstAndRest(messagesToSend, queue);
      ghost var rest := queue[1..];
      var e := messagesToSend.next;
      message := e;
      Remove(message, messagesToSend, queue, 0);
      queue, popped, drained := rest, popped + {message}, drained + [message];
    }

    method Disconnect()
      modifies this`socketOpen, this`disconnected
      ensures !socketOpen && disconnected
    {
      socketOpen := false;
      disconnected := true;
    }

    /** `MFConnection_Clear`: every listed message gives its reference back and the list is emptied.
        Somebody else must hold a reference, or no message may be listed. */
    method Clear()
      requires Valid() && (queue == [] || referenceCount > |queue|)
      modifies this`referenceCount, this`queue, this`drained, messagesToSend
      ensures Valid()
      ensures View()
          == old(View()).(count := old(referenceCount) - |old(queue)|, queue := [], drained := old(drained + queue))
    {
      hide Ring, Linked, Inv;
      ListReleased(View());
      ghost var ring := [messagesToSend] + queue;
      ghost var i := 1;
      LinkAt(ring, 0);
      var message := messagesToSend.next;
      while message != messagesToSend
        invariant Ring(ring) && 1 <= i <= |ring| && queue == old(queue) && drained == old(drained)
        invariant message == if i == |ring| then messagesToSend else ring[i]
        invariant referenceCount == old(referenceCount) - (i - 1)
        decreases |ring| - i
      {
        LinkAt(ring, i);
        message := message.next;
        referenceCount := referenceCount - 1;
        assert referenceCount > 0;
        i := i + 1;
      }
      HeadOnce(ring, i);
      Init(messagesToSend);
      assert [messagesToSend] + [] == [messagesToSend];
      drained, queue := drained + queue, [];
    }

    /** The interlocked decrement of `MFConnection_Release`. */
    method DropRef(ghost who: Holder<Entry>) returns (last: bool)
      requires Valid() && Enabled(View(), Step.Drop(who))
      modifies this`referenceCount, this`owned, this`popped, this`guests
      ensures Valid() && View() == Next(old(View()), Step.Drop(who)) && last == (referenceCount == 0)
    {
      hide Ring, Inv;
      Kept(View(), Step.Drop(who));
      match who {
        case Owner => owned := false;
        case Carried(m) => popped := popped - {m};
        case Guest => guests := guests - 1;
      }
      referenceCount := referenceCount - 1;
      last := referenceCount == 0;
    }

    /** The last reference is gone: close, empty the list, free the slot. */
    method FreeSlot()
      requires Valid() && referenceCount == 0 && state != Free
      modifies this`state, this`socketOpen, this`disconnected, this`referenceCount, this`queue, this`drained,
               messagesToSend
      ensures Valid() && View() == Next(old(View()), Step.FreeSlot)
    {
      hide Ring, Inv;
      NobodyHolds(View());
      Kept(View(), Step.FreeSlot);
      Disconnect();
      Clear();
      assert drained == old(drained) + [] == old(drained);
      state := Free;
    }

    /** `MFConnection_Release`: at zero the connection is closed, its list emptied, and the slot freed. */
    method Release(ghost who: Holder<Entry>)
      requires Valid() && Enabled(View(), Step.Drop(who))
      modifies this, messagesToSend
      ensures Valid()
      ensures var s := Next(old(View()), Step.Drop(who)); View() == if s.count == 0 then Next(s, Step.FreeSlot) else s
    {
      hide Ring, Inv;
      HeldWhileOpen(View(), who);
      var last := DropRef(who);
      if last {
        FreeSlot();
      }
    }

    /** One round of the send loop. */
    method SendFirst(succeeds: Entry -> bool) returns (ghost message: Entry, ok: bool)
      requires Valid() && Enabled(View(), Step.Pop)
      modifies this, messagesToSend, queue
      ensures Valid() && message == old(queue)[0] && ok == succeeds(message)
      ensures View() == Sent(old(View())) && queue == old(queue)[1..]
    {
      hide Ring, Inv;
      SentStep(View());
      var first := Pop();
      ok := succeeds(first);
      Release(Carried(first));
      message := first;
    }

    /** The send loop of a connection whose owner holds its reference. `clean` says that the result carried into the
        loop is zero: otherwise nothing is sent. Messages go out from the front, in order, up to and including the
        first one that fails; `ok` is the result the loop leaves behind. */
    method Drain(clean: bool, succeeds: Entry -> bool) returns (ghost sent: seq<Entry>, ok: bool)
      requires Valid() && Enabled(View(), Step.DrainStart)
      modifies this, messagesToSend, queue
      ensures Valid() && !draining
      ensures !clean ==> sent == [] && !ok && View() == old(View())
      ensures clean ==> Progress(old(queue), sent, queue, ok, succeeds) && (ok ==> queue == [])
      ensures View() == Drained(old(View()), |sent|, false)
    {
      hide *;
      ghost var was := View();
      NothingPopped(this);
      EnterLoop();
      sent := [];
      ok := clean;
      NothingSent(was.queue, succeeds);
      NoneDrained(was);
      InLoop(was, 0);
      var empty := Look();
      while ok && !empty
        invariant Valid() && |sent| <= |was.queue| && View() == Drained(was, |sent|, true) && (empty <==> queue == [])
        invariant if clean then Progress(was.queue, sent, queue, ok, succeeds) else sent == [] && !ok
        decreases ok, |queue|
      {
        OneSent(was.queue, sent, queue, succeeds);
        InLoop(was, |sent|);
        OneDrained(was, |sent|);
        ghost var message;
        message, ok := SendFirst(succeeds);
        sent := sent + [message];
        InLoop(was, |sent|);
        empty := Look();
      }
      InLoop(was, |sent|);
      LeaveLoop();
    }
  }

  /** `n` messages sent, by a worker that is in or out of its loop. */
  ghost function Drained(s: Slot<Entry>, n: nat, inside: bool): Slot<Entry>
    requires n <= |s.queue|
  {
    s.(count := s.count - n, queue := s.queue[n..], drained := s.drained + s.queue[..n], draining := inside)
  }

  lemma NoneDrained(s: Slot<Entry>)
    requires Enabled(s, Step.DrainStart)
    ensures Next(s, Step.DrainStart) == Drained(s, 0, true)
  {
    assert s.drained + s.queue[..0] == s.drained && s.queue[0..] == s.queue;
  }

  lemma NothingPopped(c: Connection)
    requires c.Valid() && Enabled(c.View(), Step.DrainStart)
    ensures c.View().popped == {} && c.View().clearing == None && c.View().queue == c.queue
    ensures !c.draining
  {
  }

  /** What holds at the lock, `n` messages into the loop. */
  lemma InLoop(s: Slot<Entry>, n: nat)
    requires Enabled(s, Step.DrainStart) && s.popped == {} && s.clearing == None && n <= |s.queue|
    ensures var t := Drained(s, n, true);
        && t.queue == s.queue[n..] && Enabled(t, Step.Look) && Enabled(t, Step.DrainEnd)
        && (t.queue != [] ==> Enabled(t, Step.Pop))
        && Next(t, Step.Look) == t && Next(t, Step.DrainEnd) == Drained(s, n, false)
        && (n == 0 ==> Drained(s, n, false) == s)
  {
    if n == 0 {
      assert s.drained + s.queue[..0] == s.drained && s.queue[0..] == s.queue;
    }
  }

  lemma OneDrained(s: Slot<Entry>, n: nat)
    requires n < |s.queue|
    ensures Drained(s, n, true).queue != [] && Sent(Drained(s, n, true)) == Drained(s, n + 1, true)
    ensures Drained(s, n, true).queue[0] == s.queue[n]
  {
    assert s.queue[..n + 1] == s.queue[..n] + [s.queue[n]] && s.queue[n..][1..] == s.queue[n + 1..];
    assert s.drained + s.queue[..n] + [s.queue[n]] == s.drained + s.queue[..n + 1];
  }

  /** One message sent and released. */
  function Sent(s: Slot<Entry>): Slot<Entry>
    requires s.queue != []
  {
    s.(count := s.count - 1, queue := s.queue[1..], drained := s.drained + [s.queue[0]])
  }

  lemma SentStep(s: Slot<Entry>)
    requires Inv(s) && Enabled(s, Step.Pop)
    ensures var t := Next(s, Step.Pop);
        && Enabled(t, Step.Drop(Carried(s.queue[0]))) && Next(t, Step.Drop(Carried(s.queue[0]))) == Sent(s)
        && Sent(s).count > 0
  {
    assert s.popped + {s.queue[0]} - {s.queue[0]} == s.popped;
  }

  lemma HeldWhileOpen(s: Slot<Entry>, who: Holder<Entry>)
    requires Inv(s) && Enabled(s, Step.Drop(who))
    ensures s.state != Free
  {
    if s.count == 0 {
      NobodyHolds(s);
    }
  }

  lemma NobodyWhenFree(s: Slot<Entry>)
    requires Inv(s) && s.state == Free
    ensures s.queue == [] && s.arriving == {} && s.popped == {} && !s.owned && s.guests == 0 && !s.draining
  {
    NobodyHolds(s);
  }

  /** What the send loop needs to know about a valid connection. */
  lemma Listed(c: Connection)
    requires c.Valid()
    ensures Ring([c.messagesToSend] + c.queue)
  {
  }

  lemma PopIs(s: Slot<Entry>)
    requires Inv(s) && Enabled(s, Step.Pop)
    ensures s.queue != [] && Inv(Next(s, Step.Pop)) && s.queue[..0] + s.queue[1..] == s.queue[1..]
    ensures Next(s, Step.Pop)
            == s.(queue := s.queue[1..], popped := s.popped + {s.queue[0]}, drained := s.drained + [s.queue[0]])
  {
    hide Inv;
    PopKeeps(s);
  }

  lemma NotListed(s: Slot<Entry>, message: Entry)
    requires Inv(s) && message in s.arriving
    ensures message !in s.queue
  {
  }

  lemma ListReleased(s: Slot<Entry>)
    requires Inv(s) && s.clearing == None && (s.queue == [] || s.count > |s.queue|)
    ensures Inv(s.(count := s.count - |s.queue|, queue := [], drained := s.drained + s.queue))
  {
    assert s.drained + s.queue == s.drained + s.queue + [];
  }

  lemma LinkAt(ring: seq<Entry>, i: nat)
    requires Ring(ring) && i < |ring|
    ensures ring[i].next == ring[Succ(i, |ring|)]
  {
    assert Linked(ring, i);
  }

  lemma HeadOnce(ring: seq<Entry>, i: nat)
    requires Ring(ring) && 1 <= i <= |ring|
    ensures i < |ring| ==> ring[i] != ring[0]
  {
  }

  /** `sent` is the part of `before` that went out; while `ok` every one succeeded, otherwise all but the last. */
  ghost predicate Progress(before: seq<Entry>, sent: seq<Entry>, queue: seq<Entry>, ok: bool, succeeds: Entry -> bool) {
    && before == sent + queue
    && (ok ==> forall i :: 0 <= i < |sent| ==> succeeds(sent[i]))
    && (!ok ==> sent != [] && !succeeds(sent[|sent| - 1]) && forall i :: 0 <= i < |sent| - 1 ==> succeeds(sent[i]))
  }

  lemma NothingSent(queue: seq<Entry>, succeeds: Entry -> bool)
    ensures Progress(queue, [], queue, true, succeeds)
  {
    assert [] + queue == queue;
  }

  lemma OneSent(before: seq<Entry>, sent: seq<Entry>, queue: seq<Entry>, succeeds: Entry -> bool)
    requires Progress(before, sent, queue, true, succeeds) && queue != []
    ensures Progress(before, sent + [queue[0]], queue[1..], succeeds(queue[0]), succeeds)
    ensures |sent| < |before| && queue[1..] == before[|sent| + 1..]
  {
    assert queue == [queue[0]] + queue[1..];
  }

  /** The head points to the first message, which occurs once. */
  lemma FirstAndRest(head: Entry, queue: seq<Entry>)
    requires Ring([head] + queue) && queue != []
    ensures head.next == queue[0] && queue[0] != head
  {
    var ring := [head] + queue;
    assert Linked(ring, 0) && ring[0] == head && ring[1] == queue[0];
  }
}
