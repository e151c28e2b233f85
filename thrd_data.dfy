/**
 * The data thread's cycle, in both revisions of its source
 * (src/main/thrd_data.c and blackhole2/src/main/thrd_data.c): poll, scan
 * every slot, schedule writes, drain the write queue.  Each method is proved
 * against the functions of `PollScan`.
 */
module DataThread {
  import opened Vectors
  import opened Registry
  import opened Bytes
  import opened PollScan

  /** The data thread's file-scope state: the write queue and the receive buffer. */
  class DataThread {
    const rev: Revision
    var awaitWritings: Vector<nat>
    var recvBuffer: array<byte>
    ghost var Repr: set<object>

    ghost predicate Valid()
      reads this, Repr
      ensures Valid() ==> this in Repr
    {
      this in Repr && recvBuffer in Repr && awaitWritings in Repr && awaitWritings.Repr <= Repr &&
      this !in awaitWritings.Repr && recvBuffer !in awaitWritings.Repr &&
      awaitWritings.Valid() && !awaitWritings.hasFreeFunc &&
      BufferInv(rev, recvBuffer[..])
    }

    /** The thread and the registry it works on are both valid and share no object. */
    ghost predicate Linked(reg: Registry)
      reads this, Repr, reg, reg.Repr
    {
      Valid() && reg.Valid() && Repr !! reg.Repr
    }

    /** The state the scan specification talks about. */
    ghost function View(reg: Registry, closed: seq<int>, received: seq<int>): ScanState
      reads this, awaitWritings, recvBuffer, reg, reg.clients, reg.pfds
    {
      ScanState(reg.clients.Contents, reg.pfds.Contents, recvBuffer[..], awaitWritings.Contents, closed, received)
    }

    /** Current revision start-up: the queue is created empty and the static buffer is zeroed. */
    constructor StartCurrent()
      ensures Valid() && fresh(Repr) && rev == Current
      ensures awaitWritings.Contents == [] && recvBuffer[..] == seq(BufferSize(Current), _ => 0)
    {
      rev := Current;
      awaitWritings := new Vector<nat>.Create(8, false);
      recvBuffer := new byte[BufferSize(Current)](_ => 0);
      new;
      Repr := {this, recvBuffer} + awaitWritings.Repr;
    }

    /** Earlier revision start-up: the buffer comes from `malloc`, so its initial bytes `heap` are arbitrary. */
    constructor StartEarlier(heap: seq<byte>)
      requires |heap| == BufferSize(Earlier)
      ensures Valid() && fresh(Repr) && rev == Earlier
      ensures awaitWritings.Contents == [] && recvBuffer[..] == heap
    {
      rev := Earlier;
      awaitWritings := new Vector<nat>.Create(8, false);
      recvBuffer := new byte[BufferSize(Earlier)](k requires 0 <= k < |heap| => heap[k]);
      new;
      Repr := {this, recvBuffer} + awaitWritings.Repr;
    }

    /** A non-negative `recv` into the buffer; the Earlier revision then writes the terminator. */
    method StoreReceived(bytes: seq<byte>)
      requires Valid() && StoreFits(rev, |bytes|)
      modifies recvBuffer
      ensures Valid()
      ensures recvBuffer[..] == Store(rev, old(recvBuffer[..]), bytes)
    {
      forall k | 0 <= k < |bytes| {
        recvBuffer[k] := bytes[k];
      }
      if rev == Earlier {
        recvBuffer[|bytes|] := 0;
      }
      assert recvBuffer[..] == Store(rev, old(recvBuffer[..]), bytes);
    }

    /** `for (haystack = recv_buffer; haystack; haystack = strstr(haystack + 1, "\r\n\r\n")) Vector_Push(...)`. */
    method SchedulePushes(i: nat)
      requires Valid() && HasNul(recvBuffer[..], 1)
      modifies Repr
      ensures Valid() && fresh(Repr - old(Repr))
      ensures awaitWritings == old(awaitWritings) && recvBuffer == old(recvBuffer)
      ensures recvBuffer[..] == old(recvBuffer[..])
      ensures awaitWritings.Contents == old(awaitWritings.Contents) + Repeat(i, Pushes(recvBuffer[..], 0))
    {
      ghost var b := recvBuffer[..];
      var haystack: Option<nat> := Some(0);
      while haystack.Some?
        invariant Valid() && fresh(Repr - old(Repr))
        invariant awaitWritings == old(awaitWritings) && recvBuffer == old(recvBuffer) && recvBuffer[..] == b
        invariant haystack.Some? ==> haystack.value < |b| && HasNul(b, haystack.value + 1)
        invariant awaitWritings.Contents + Repeat(i, if haystack.Some? then Pushes(b, haystack.value) else 0)
                  == old(awaitWritings.Contents) + Repeat(i, Pushes(b, 0))
        decreases if haystack.Some? then |b| - haystack.value else 0
      {
        ghost var n := Pushes(b, haystack.value);
        awaitWritings.Push(i);
        Repr := Repr + awaitWritings.Repr;
        var next := StrStr(recvBuffer[..], haystack.value + 1);
        RepeatCons(i, n);
        assert n - 1 == if next.Some? then Pushes(b, next.value) else 0;
        if next.Some? {
          ghost var j :| next.value + 1 <= j < |b| && b[j] == 0;
        }
        haystack := next;
      }
    }

    /** `close(cl->fd)` and the paired `Vector_Delete` of slot `i`. */
    method DropSlot(reg: Registry, i: nat, fd: int, closed: seq<int>) returns (closed': seq<int>)
      requires Linked(reg) && i < |reg.clients.Contents|
      modifies reg.Repr
      ensures Linked(reg) && reg.Repr == old(reg.Repr)
      ensures reg.clients == old(reg.clients) && reg.pfds == old(reg.pfds)
      ensures reg.clients.Contents == RemoveAt(old(reg.clients.Contents), i)
      ensures reg.pfds.Contents == RemoveAt(old(reg.pfds.Contents), i)
      ensures closed' == closed + [fd]
    {
      closed' := closed + [fd];
      reg.RemoveAt(i);
    }

    /** One iteration of the scan loop at slot `i`, with its `close` and `recv` calls logged. */
    method ScanSlot(reg: Registry, i: nat, recv: int -> RecvOutcome, closed: seq<int>, received: seq<int>)
      returns (closed': seq<int>, received': seq<int>)
      requires Linked(reg) && i < |reg.clients.Contents| && RecvFitsAll(rev, recv)
      modifies Repr, reg.Repr
      ensures Linked(reg) && fresh(Repr - old(Repr)) && reg.Repr == old(reg.Repr)
      ensures awaitWritings == old(awaitWritings) && recvBuffer == old(recvBuffer)
      ensures reg.clients == old(reg.clients) && reg.pfds == old(reg.pfds)
      ensures View(reg, closed', received') == Step(rev, old(View(reg, closed, received)), i, recv)
    {
      closed', received' := closed, received;
      var cl := reg.pfds.PtrAt(i);
      if cl.revents != 0 {
        if cl.revents & POLLHUP != 0 {
          closed' := DropSlot(reg, i, cl.fd, closed');
          return;
        }
        if cl.revents & POLLERR != 0 {
          closed' := DropSlot(reg, i, cl.fd, closed');
          return;
        }
        if cl.revents & POLLIN != 0 {
          received' := received' + [cl.fd];
          var o := recv(cl.fd);
          assert RecvFits(rev, o);
          match o {
            case RecvFailed =>
              closed' := DropSlot(reg, i, cl.fd, closed');
            case RecvClosed =>
              StoreReceived([]);
              closed' := DropSlot(reg, i, cl.fd, closed');
            case Received(bytes) =>
              StoreReceived(bytes);
              assert HasNul(recvBuffer[..], 1) by {
                if rev == Current {
                  assert recvBuffer[..][BufferSize(Current) - 1] == 0;
                } else {
                  assert recvBuffer[..][|bytes|] == 0;
                }
              }
              SchedulePushes(i);
          }
        }
      }
    }

    /** The scan loop `for (i = 0; i < clients.length; i++)`, proved against `ScanFrom`. */
    method Scan(reg: Registry, recv: int -> RecvOutcome) returns (closed: seq<int>, received: seq<int>)
      requires Linked(reg) && RecvFitsAll(rev, recv)
      modifies Repr, reg.Repr
      ensures Linked(reg) && fresh(Repr - old(Repr)) && reg.Repr == old(reg.Repr)
      ensures awaitWritings == old(awaitWritings) && recvBuffer == old(recvBuffer)
      ensures reg.clients == old(reg.clients) && reg.pfds == old(reg.pfds)
      ensures View(reg, closed, received) == ScanFrom(rev, old(View(reg, [], [])), 0, recv)
    {
      closed, received := [], [];
      var i := 0;
      while i < reg.clients.length
        invariant Linked(reg) && fresh(Repr - old(Repr)) && reg.Repr == old(reg.Repr)
        invariant awaitWritings == old(awaitWritings) && recvBuffer == old(recvBuffer)
        invariant reg.clients == old(reg.clients) && reg.pfds == old(reg.pfds)
        invariant ScanFrom(rev, View(reg, closed, received), i, recv) == ScanFrom(rev, old(View(reg, [], [])), 0, recv)
        decreases reg.clients.length - i
      {
        closed, received := ScanSlot(reg, i, recv, closed, received);
        i := i + 1;
      }
    }

    /**
     * The write drain: pop from the back of the queue and send to the
     * client at the popped index, 14 times at most in the Current revision,
     * until the queue is empty in the Earlier one.
     */
    method Drain(reg: Registry) returns (sent: seq<int>)
      requires Linked(reg)
      requires DrainInBounds(awaitWritings.Contents, |reg.clients.Contents|, DrainCount(rev, |awaitWritings.Contents|))
      modifies awaitWritings.Repr
      ensures Linked(reg) && awaitWritings.Repr == old(awaitWritings.Repr)
      ensures var q := old(awaitWritings.Contents); var m := DrainCount(rev, |q|);
        awaitWritings.Contents == q[..|q| - m] && sent == Drained(reg.clients.Contents, q, m)
    {
      ghost var q := awaitWritings.Contents;
      ghost var m := DrainCount(rev, |q|);
      sent := [];
      var i := 0;
      while (rev == Earlier || i < WriteCap) && awaitWritings.length > 0
        invariant Linked(reg) && awaitWritings.Repr == old(awaitWritings.Repr)
        invariant i <= m
        invariant awaitWritings.Contents == q[..|q| - i]
        invariant AllBelow(q, |q| - i, |reg.clients.Contents|)
        invariant sent == Drained(reg.clients.Contents, q, i)
        decreases awaitWritings.length
      {
        var clientId: nat := 0;
        var r := awaitWritings.Pop(true);
        if r.Some? {
          clientId := r.value;
        }
        assert clientId == q[|q| - 1 - i];
        var client := reg.clients.PtrAt(clientId);
        sent := sent + [client.socketFd];
        i := i + 1;
        assert AllBelow(q, |q| - i, |reg.clients.Contents|);
      }
    }

    /** `poll`'s input: the registry with the `revents` it writes, and this thread's own state. */
    ghost function Polled(reg: Registry, revents: seq<bv16>): ScanState
      requires |revents| == |reg.pfds.Contents|
      reads this, awaitWritings, recvBuffer, reg, reg.clients, reg.pfds
    {
      ScanState(reg.clients.Contents, WithRevents(reg.pfds.Contents, revents), recvBuffer[..],
                awaitWritings.Contents, [], [])
    }

    /**
     * The part of a turn after `poll` has written `revents`: the scan, when
     * `poll` returned a positive count, then the drain of the write queue.
     */
    method ServePolled(reg: Registry, pollResult: int, recv: int -> RecvOutcome)
      returns (closed: seq<int>, received: seq<int>, sent: seq<int>)
      requires Linked(reg) && RecvFitsAll(rev, recv)
      requires rev == Earlier ==> awaitWritings.Contents == []
      requires rev == Current ==>
        var st := Scanned(rev, View(reg, [], []), pollResult, recv);
        DrainInBounds(st.awaitWritings, |st.clients|, DrainCount(rev, |st.awaitWritings|))
      modifies Repr, reg.Repr
      ensures Linked(reg) && fresh(Repr - old(Repr)) && reg.Repr == old(reg.Repr)
      ensures var st := old(Scanned(rev, View(reg, [], []), pollResult, recv));
        var m := DrainCount(rev, |st.awaitWritings|);
        DrainInBounds(st.awaitWritings, |st.clients|, m) &&
        View(reg, closed, received) == st.(awaitWritings := st.awaitWritings[..|st.awaitWritings| - m]) &&
        sent == Drained(st.clients, st.awaitWritings, m)
    {
      ghost var start := View(reg, [], []);
      closed, received, sent := [], [], [];
      if pollResult > 0 {
        closed, received := Scan(reg, recv);
      }
      assert View(reg, closed, received) == Scanned(rev, start, pollResult, recv);
      if rev == Earlier {
        EarlierDrainInBounds(start, pollResult, recv);
      }
      if awaitWritings.length > 0 {
        sent := Drain(reg);
      }
    }

    /**
     * One turn of the data thread's main loop.  `revents` and `pollResult`
     * are what `poll` writes and returns; `recv` gives the result of each
     * read.  `timeout` is the timeout passed to `poll`, `None` when the
     * registry is empty and nothing is polled.
     */
    method Cycle(reg: Registry, revents: seq<bv16>, pollResult: int, recv: int -> RecvOutcome)
      returns (timeout: Option<int>, closed: seq<int>, received: seq<int>, sent: seq<int>)
      requires Linked(reg) && |revents| == |reg.pfds.Contents| && RecvFitsAll(rev, recv)
      requires rev == Earlier ==> awaitWritings.Contents == []
      requires rev == Current && |reg.clients.Contents| > 0 ==>
        var st := Scanned(rev, Polled(reg, revents), pollResult, recv);
        DrainInBounds(st.awaitWritings, |st.clients|, DrainCount(rev, |st.awaitWritings|))
      modifies Repr, reg.Repr
      ensures Linked(reg) && fresh(Repr - old(Repr)) && reg.Repr == old(reg.Repr)
      ensures old(|reg.clients.Contents|) == 0 ==>
        timeout == None && closed == [] && received == [] && sent == [] &&
        View(reg, [], []) == old(View(reg, [], []))
      ensures old(|reg.clients.Contents|) > 0 ==>
        var st := old(Scanned(rev, Polled(reg, revents), pollResult, recv));
        var m := DrainCount(rev, |st.awaitWritings|);
        timeout == Some(if old(|awaitWritings.Contents|) > 0 then 100 else 300) &&
        DrainInBounds(st.awaitWritings, |st.clients|, m) &&
        View(reg, closed, received) == st.(awaitWritings := st.awaitWritings[..|st.awaitWritings| - m]) &&
        sent == Drained(st.clients, st.awaitWritings, m)
      ensures rev == Earlier ==> awaitWritings.Contents == []
    {
      if reg.clients.length == 0 {
        timeout, closed, received, sent := None, [], [], [];
        return;
      }
      timeout := Some(if awaitWritings.length > 0 then 100 else 300);
      reg.StoreRevents(revents);
      assert View(reg, [], []) == old(Polled(reg, revents));
      closed, received, sent := ServePolled(reg, pollResult, recv);
    }
  }
}
