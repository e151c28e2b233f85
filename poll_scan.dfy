/**
 * The data thread's per-cycle logic as pure functions over the state it
 * touches: the classification of `revents`, one iteration of the scan loop,
 * the `strstr` chain that schedules one write per "\r\n\r\n", and the
 * write drain.  Both revisions of src/main/thrd_data.c share this
 * specification; `Revision` selects where they differ.
 *
 *   Current   src/main/thrd_data.c: static 65536-byte receive buffer, never
 *             NUL-terminated after `recv`; at most 14 writes per cycle.
 *   Earlier   blackhole2/src/main/thrd_data.c: 65535-byte heap buffer, NUL
 *             written at `recv_buffer[recv_result]`; the queue is drained fully.
 */
module PollScan {
  import opened Vectors
  import opened Registry
  import opened Bytes

  const CR: byte := 13
  const LF: byte := 10

  /** The length argument of every `recv` call. */
  const RecvLimit: nat := 65535

  /** The Current revision writes to at most this many clients per cycle. */
  const WriteCap: nat := 14

  datatype Revision = Current | Earlier

  /** The size of the receive buffer in each revision. */
  function BufferSize(rev: Revision): nat
  {
    if rev == Current then 65536 else 65535
  }

  /**
   * The buffer invariant: the Current revision's static buffer starts zeroed
   * and `recv` never reaches its last byte, so that byte stays 0 and every
   * `strstr` over it stops inside it.
   */
  ghost predicate BufferInv(rev: Revision, b: seq<byte>)
  {
    |b| == BufferSize(rev) && (rev == Current ==> b[|b| - 1] == 0)
  }

  /** `recv` as the scan sees it: an error, an orderly shutdown, or some bytes. */
  datatype RecvOutcome = RecvFailed | RecvClosed | Received(bytes: seq<byte>)

  /** What `recv(fd, recv_buffer, 65535, 0)` can return: a positive result is at most 65535 bytes. */
  predicate RecvContract(o: RecvOutcome)
  {
    o.Received? ==> 1 <= |o.bytes| <= RecvLimit
  }

  /**
   * What each revision's code needs of `recv` to stay in bounds.  The Earlier
   * revision writes the terminator at index `recv_result` of a 65535-byte
   * buffer, so a full-sized receive would write one byte past its end.
   */
  predicate RecvFits(rev: Revision, o: RecvOutcome)
  {
    RecvContract(o) && (o.Received? ==> StoreFits(rev, |o.bytes|))
  }

  /** `n` received bytes, and the Earlier revision's terminator after them, lie inside the buffer. */
  predicate StoreFits(rev: Revision, n: nat)
  {
    n <= RecvLimit && (rev == Earlier ==> n < BufferSize(Earlier))
  }

  /** `recv` modelled as a function of the descriptor, within what the revision needs. */
  ghost predicate RecvFitsAll(rev: Revision, recv: int -> RecvOutcome)
  {
    forall fd :: RecvFits(rev, recv(fd))
  }

  /**
   * The buffer after a non-negative receive of `bytes`: they overwrite its
   * prefix; the Earlier revision also writes a NUL right after them.
   */
  function Store(rev: Revision, b: seq<byte>, bytes: seq<byte>): (r: seq<byte>)
    requires BufferInv(rev, b) && StoreFits(rev, |bytes|)
    ensures BufferInv(rev, r) && r[..|bytes|] == bytes
    ensures rev == Current ==> r[|bytes|..] == b[|bytes|..]
    ensures rev == Earlier ==> r[|bytes|] == 0 && r[|bytes| + 1..] == b[|bytes| + 1..]
  {
    if rev == Current then bytes + b[|bytes|..] else bytes + [0] + b[|bytes| + 1..]
  }

  // ---------------------------------------------------------------------
  // C strings and strstr
  // ---------------------------------------------------------------------

  /** There is a NUL at or after `from`, so a C string starts at `from`. */
  ghost predicate HasNul(b: seq<byte>, from: nat)
  {
    exists j :: from <= j < |b| && b[j] == 0
  }

  /** No NUL in `b[from..to]`. */
  ghost predicate NulFree(b: seq<byte>, from: nat, to: nat)
    requires to <= |b|
  {
    forall j :: from <= j < to ==> b[j] != 0
  }

  /** "\r\n\r\n" starts at position `p`. */
  predicate IsBoundaryAt(b: seq<byte>, p: nat)
  {
    p + 4 <= |b| && b[p] == CR && b[p + 1] == LF && b[p + 2] == CR && b[p + 3] == LF
  }

  /** `strlen` measured from `from`: the position of the first NUL at or after it. */
  function CStrEnd(b: seq<byte>, from: nat): (e: nat)
    requires HasNul(b, from)
    ensures from <= e < |b| && b[e] == 0 && NulFree(b, from, e)
    decreases |b| - from
  {
    if b[from] == 0 then from else CStrEnd(b, from + 1)
  }

  /**
   * `strstr(b + from, "\r\n\r\n")` as a position: the first boundary of the
   * C string that starts at `from`, or `None` when it ends first.
   */
  function StrStr(b: seq<byte>, from: nat): (r: Option<nat>)
    requires HasNul(b, from)
    ensures r.Some? ==> from <= r.value && IsBoundaryAt(b, r.value) && NulFree(b, from, r.value)
    ensures r.Some? ==> forall p :: from <= p < r.value ==> !IsBoundaryAt(b, p)
    ensures r.Some? ==> HasNul(b, r.value + 1)
    ensures r.None? ==> forall p :: from <= p < CStrEnd(b, from) ==> !IsBoundaryAt(b, p)
    decreases |b| - from
  {
    if b[from] == 0 then None
    else if IsBoundaryAt(b, from) then Some(from)
    else StrStr(b, from + 1)
  }

  /**
   * The number of `Vector_Push` calls the loop
   * `for (haystack = buf + h; haystack; haystack = strstr(haystack + 1, ...))`
   * makes: one for the start, one more for every boundary found after it.
   */
  function Pushes(b: seq<byte>, h: nat): (n: nat)
    requires HasNul(b, h + 1)
    decreases |b| - h
  {
    match StrStr(b, h + 1)
    case None => 1
    case Some(q) => 1 + Pushes(b, q)
  }

  /** The number of boundaries that start in `[from, to)`. */
  function CountBoundaries(b: seq<byte>, from: nat, to: nat): (n: nat)
    requires from <= to
    ensures n <= to - from
    decreases (to as int) - (from as int)
  {
    if from == to then 0 else (if IsBoundaryAt(b, from) then 1 else 0) + CountBoundaries(b, from + 1, to)
  }

  /** Positions without a boundary do not count. */
  lemma {:induction false} CountSkip(b: seq<byte>, from: nat, mid: nat, to: nat)
    requires from <= mid <= to
    requires forall p :: from <= p < mid ==> !IsBoundaryAt(b, p)
    ensures CountBoundaries(b, from, to) == CountBoundaries(b, mid, to)
    decreases mid - from
  {
    if from < mid {
      CountSkip(b, from + 1, mid, to);
    }
  }

  /** Skipping non-NUL bytes does not move the end of the C string. */
  lemma {:induction false} CStrEndSkip(b: seq<byte>, from: nat, mid: nat)
    requires HasNul(b, from) && from <= mid <= |b| && NulFree(b, from, mid)
    ensures HasNul(b, mid) && CStrEnd(b, from) == CStrEnd(b, mid)
    decreases mid - from
  {
    if from < mid {
      var j :| from <= j < |b| && b[j] == 0;
      assert from + 1 <= j;
      assert HasNul(b, from + 1);
      CStrEndSkip(b, from + 1, mid);
    }
  }

  /**
   * The push loop schedules one write for its start plus one per boundary
   * found in the C string after it: `1 + k` writes for `k` boundaries.
   */
  lemma {:induction false} PushesCountsBoundaries(b: seq<byte>, h: nat)
    requires HasNul(b, h + 1)
    ensures Pushes(b, h) == 1 + CountBoundaries(b, h + 1, CStrEnd(b, h + 1))
    decreases |b| - h
  {
    var e := CStrEnd(b, h + 1);
    match StrStr(b, h + 1)
    case None =>
      CountSkip(b, h + 1, e, e);
    case Some(q) =>
      assert NulFree(b, h + 1, q + 1);
      CStrEndSkip(b, h + 1, q + 1);
      assert q < e;
      CountSkip(b, h + 1, q, e);
      PushesCountsBoundaries(b, q);
  }

  /** Positions before the terminator are boundaries in the buffer exactly when they are in the string. */
  lemma {:induction false} CountAgrees(s: seq<byte>, b: seq<byte>, from: nat, to: nat)
    requires |s| < |b| && b[..|s|] == s && b[|s|] == 0
    requires from <= to <= |s|
    ensures CountBoundaries(b, from, to) == CountBoundaries(s, from, to)
    decreases (to as int) - (from as int)
  {
    if from < to {
      assert b[from] == s[from];
      if from + 4 <= |s| {
        assert b[from + 1] == s[from + 1] && b[from + 2] == s[from + 2] && b[from + 3] == s[from + 3];
      }
      assert IsBoundaryAt(b, from) == IsBoundaryAt(s, from);
      CountAgrees(s, b, from + 1, to);
    }
  }

  /**
   * For a buffer holding the NUL-free string `s` and then a terminator, the
   * loop schedules `1 + k` writes, `k` the boundaries of `s` after its first byte.
   */
  lemma {:induction false} CStringPushes(s: seq<byte>, b: seq<byte>)
    requires 1 <= |s| < |b| && b[..|s|] == s && b[|s|] == 0
    requires NulFree(s, 0, |s|)
    ensures HasNul(b, 1) && Pushes(b, 0) == 1 + CountBoundaries(s, 1, |s|)
  {
    assert HasNul(b, 1) by { assert 1 <= |s| < |b| && b[|s|] == 0; }
    assert NulFree(b, 1, |s|) by {
      forall j | 1 <= j < |s| ensures b[j] != 0 { assert b[j] == s[j]; }
    }
    CStrEndSkip(b, 1, |s|);
    PushesCountsBoundaries(b, 0);
    CountAgrees(s, b, 1, |s|);
  }

  /** "GET / HTTP/1.1\r\n\r\n" as bytes. */
  const GetRequest: seq<byte> :=
    [71, 69, 84, 32, 47, 32, 72, 84, 84, 80, 47, 49, 46, 49, 13, 10, 13, 10]

  /** The request holds one boundary, at its end. */
  lemma GetRequestBoundaries()
    ensures NulFree(GetRequest, 0, |GetRequest|)
    ensures CountBoundaries(GetRequest, 1, |GetRequest|) == 1
  {
    var g := GetRequest;
    CountSkip(g, 1, 14, 18);
    assert IsBoundaryAt(g, 14);
    assert CountBoundaries(g, 15, 18) == 0;
  }

  /** Two requests back to back hold two boundaries, one at the end of each. */
  lemma TwoGetRequestsBoundaries()
    ensures CountBoundaries(GetRequest + GetRequest, 1, 2 * |GetRequest|) == 2
  {
    var gg := GetRequest + GetRequest;
    assert gg == [71, 69, 84, 32, 47, 32, 72, 84, 84, 80, 47, 49, 46, 49, 13, 10, 13, 10,
                  71, 69, 84, 32, 47, 32, 72, 84, 84, 80, 47, 49, 46, 49, 13, 10, 13, 10];
    CountSkip(gg, 1, 14, 36);
    assert IsBoundaryAt(gg, 14);
    CountSkip(gg, 15, 32, 36);
    assert IsBoundaryAt(gg, 32);
    assert CountBoundaries(gg, 33, 36) == 0;
  }

  /**
   * One complete request, received into the Earlier revision's buffer,
   * schedules two writes: one for the start of the buffer and one for its
   * terminating blank line.
   */
  lemma OneRequestTwoWrites(b: seq<byte>)
    requires BufferInv(Earlier, b)
    ensures Pushes(Store(Earlier, b, GetRequest), 0) == 2
  {
    var r := Store(Earlier, b, GetRequest);
    GetRequestBoundaries();
    CStringPushes(GetRequest, r);
  }

  /** Two pipelined requests in one receive schedule three writes. */
  lemma TwoRequestsThreeWrites(b: seq<byte>)
    requires BufferInv(Earlier, b)
    ensures Pushes(Store(Earlier, b, GetRequest + GetRequest), 0) == 3
  {
    var gg := GetRequest + GetRequest;
    var r := Store(Earlier, b, gg);
    GetRequestBoundaries();
    TwoGetRequestsBoundaries();
    assert NulFree(gg, 0, |gg|) by {
      forall j | 0 <= j < |gg| ensures gg[j] != 0 {
        assert gg[j] == GetRequest[if j < 18 then j else j - 18];
      }
    }
    CStringPushes(gg, r);
  }

  /**
   * The Current revision does not terminate what it receives, so `strstr`
   * reads on into bytes left by earlier receives: two bytes "ab" without any
   * blank line still schedule two writes when a stale "\r\n\r\n" follows them.
   */
  lemma StaleBytesScanned(b: seq<byte>)
    requires BufferInv(Current, b)
    requires b[2] == CR && b[3] == LF && b[4] == CR && b[5] == LF && b[6] == 0
    ensures CountBoundaries([97, 98], 0, 2) == 0
    ensures Pushes(Store(Current, b, [97, 98]), 0) == 2
  {
    var r := Store(Current, b, [97, 98]);
    var s: seq<byte> := [97, 98, CR, LF, CR, LF];
    assert r[..6] == s;
    assert NulFree(s, 0, 6);
    CStringPushes(s, r);
    assert IsBoundaryAt(s, 2);
  }

  // ---------------------------------------------------------------------
  // The scan loop
  // ---------------------------------------------------------------------

  /** The registry and the data thread's state as the scan changes them, with its effects logged. */
  datatype ScanState = ScanState(
    clients: seq<Client>,
    pfds: seq<PollFd>,
    recvBuffer: seq<byte>,
    awaitWritings: seq<nat>,
    closed: seq<int>,      // descriptors passed to `close`, in order
    received: seq<int>)    // descriptors passed to `recv`, in order

  ghost predicate IsPrefix<T>(a: seq<T>, b: seq<T>)
  {
    |a| <= |b| && b[..|a|] == a
  }

  /** `r` is a later state of the same cycle: logs and queue only grow, slots are only removed. */
  ghost predicate Extends(st: ScanState, r: ScanState)
  {
    |r.clients| <= |st.clients| &&
    IsPrefix(st.closed, r.closed) && IsPrefix(st.received, r.received) &&
    IsPrefix(st.awaitWritings, r.awaitWritings)
  }

  lemma ExtendsTransitive(a: ScanState, b: ScanState, c: ScanState)
    requires Extends(a, b) && Extends(b, c)
    ensures Extends(a, c)
  {
    assert c.closed[..|a.closed|] == c.closed[..|b.closed|][..|a.closed|];
    assert c.received[..|a.received|] == c.received[..|b.received|][..|a.received|];
    assert c.awaitWritings[..|a.awaitWritings|] == c.awaitWritings[..|b.awaitWritings|][..|a.awaitWritings|];
  }

  ghost predicate WellFormed(rev: Revision, st: ScanState)
  {
    |st.clients| == |st.pfds| && BufferInv(rev, st.recvBuffer)
  }

  /** What the `if` chain on `revents` does with a descriptor. */
  datatype Readiness = Quiet | HungUp | Errored | Readable

  /** `POLLHUP` is tested before `POLLERR`, which is tested before `POLLIN`; other bits are ignored. */
  function Classify(revents: bv16): (k: Readiness)
    ensures k == HungUp <==> revents & POLLHUP != 0
    ensures k == Errored <==> revents & POLLHUP == 0 && revents & POLLERR != 0
    ensures k == Readable <==> revents & (POLLHUP | POLLERR) == 0 && revents & POLLIN != 0
  {
    if revents == 0 then Quiet
    else if revents & POLLHUP != 0 then HungUp
    else if revents & POLLERR != 0 then Errored
    else if revents & POLLIN != 0 then Readable
    else Quiet
  }

  function Repeat(x: nat, n: nat): (r: seq<nat>)
    ensures |r| == n && forall k :: 0 <= k < n ==> r[k] == x
  {
    seq(n, _ => x)
  }

  lemma RepeatCons(x: nat, n: nat)
    requires n > 0
    ensures Repeat(x, n) == [x] + Repeat(x, n - 1)
  {
  }

  /** `close(cl->fd)` and `Vector_Delete` of slot `i` in both vectors. */
  function Drop(st: ScanState, i: nat): (r: ScanState)
    requires i < |st.clients| == |st.pfds|
    ensures |r.clients| == |r.pfds| == |st.clients| - 1
  {
    st.(clients := RemoveAt(st.clients, i), pfds := RemoveAt(st.pfds, i),
        closed := st.closed + [st.pfds[i].fd])
  }

  /** One iteration of the scan loop, at slot `i`. */
  function Step(rev: Revision, st: ScanState, i: nat, recv: int -> RecvOutcome): (r: ScanState)
    requires WellFormed(rev, st) && i < |st.clients| && RecvFitsAll(rev, recv)
    ensures WellFormed(rev, r) && Extends(st, r)
    ensures (r.clients == st.clients && r.pfds == st.pfds) ||
            (r.clients == RemoveAt(st.clients, i) && r.pfds == RemoveAt(st.pfds, i))
    ensures Classify(st.pfds[i].revents) == Quiet ==> r == st
  {
    var fd := st.pfds[i].fd;
    match Classify(st.pfds[i].revents)
    case Quiet => st
    case HungUp => Drop(st, i)
    case Errored => Drop(st, i)
    case Readable =>
      var st1 := st.(received := st.received + [fd]);
      assert RecvFits(rev, recv(fd));
      match recv(fd)
      case RecvFailed => Drop(st1, i)
      case RecvClosed => Drop(st1.(recvBuffer := Store(rev, st.recvBuffer, [])), i)
      case Received(bytes) =>
        var b := Store(rev, st.recvBuffer, bytes);
        assert HasNul(b, 1) by {
          if rev == Current { assert b[|b| - 1] == 0; } else { assert b[|bytes|] == 0; }
        }
        st1.(recvBuffer := b, awaitWritings := st.awaitWritings + Repeat(i, Pushes(b, 0)))
  }

  /** The scan loop from slot `i` on; slots removed at `i` shift the next client into `i`, and `i` still advances. */
  function ScanFrom(rev: Revision, st: ScanState, i: nat, recv: int -> RecvOutcome): (r: ScanState)
    requires WellFormed(rev, st) && RecvFitsAll(rev, recv)
    ensures WellFormed(rev, r) && Extends(st, r)
    decreases |st.clients| - i
  {
    if i < |st.clients| then
      var s := Step(rev, st, i, recv);
      var r := ScanFrom(rev, s, i + 1, recv);
      ExtendsTransitive(st, s, r);
      r
    else st
  }

  /** The scan runs only when `poll` reported ready descriptors. */
  function Scanned(rev: Revision, st: ScanState, pollResult: int, recv: int -> RecvOutcome): (r: ScanState)
    requires WellFormed(rev, st) && RecvFitsAll(rev, recv)
    ensures WellFormed(rev, r)
    ensures pollResult <= 0 ==> r == st
  {
    if pollResult > 0 then ScanFrom(rev, st, 0, recv) else st
  }

  /**
   * A hang-up or an error removes the slot and closes its descriptor without
   * reading from it; the buffer and the queue are left alone.
   */
  lemma HangUpDrops(rev: Revision, st: ScanState, i: nat, recv: int -> RecvOutcome)
    requires WellFormed(rev, st) && i < |st.clients| && RecvFitsAll(rev, recv)
    requires Classify(st.pfds[i].revents) == HungUp || Classify(st.pfds[i].revents) == Errored
    ensures var r := Step(rev, st, i, recv);
      r.clients == RemoveAt(st.clients, i) && r.pfds == RemoveAt(st.pfds, i) &&
      r.closed == st.closed + [st.pfds[i].fd] && r.received == st.received &&
      r.recvBuffer == st.recvBuffer && r.awaitWritings == st.awaitWritings
  {
  }

  /** A read failure or an orderly shutdown removes the slot and schedules no write for it. */
  lemma FailedReadDrops(rev: Revision, st: ScanState, i: nat, recv: int -> RecvOutcome)
    requires WellFormed(rev, st) && i < |st.clients| && RecvFitsAll(rev, recv)
    requires Classify(st.pfds[i].revents) == Readable && !recv(st.pfds[i].fd).Received?
    ensures var r := Step(rev, st, i, recv);
      r.clients == RemoveAt(st.clients, i) && r.pfds == RemoveAt(st.pfds, i) &&
      r.awaitWritings == st.awaitWritings &&
      r.closed == st.closed + [st.pfds[i].fd] && r.received == st.received + [st.pfds[i].fd]
  {
  }

  /**
   * A successful read keeps the slot and schedules `1 + k` writes for it,
   * `k` the boundaries after the first byte of the string `strstr` sees.
   */
  lemma {:induction false} ReadSchedules(rev: Revision, st: ScanState, i: nat, recv: int -> RecvOutcome)
    requires WellFormed(rev, st) && i < |st.clients| && RecvFitsAll(rev, recv)
    requires Classify(st.pfds[i].revents) == Readable && recv(st.pfds[i].fd).Received?
    ensures var r := Step(rev, st, i, recv);
      var b := Store(rev, st.recvBuffer, recv(st.pfds[i].fd).bytes);
      r.clients == st.clients && r.pfds == st.pfds && r.recvBuffer == b &&
      HasNul(b, 1) &&
      r.awaitWritings == st.awaitWritings + Repeat(i, 1 + CountBoundaries(b, 1, CStrEnd(b, 1)))
  {
    var b := Store(rev, st.recvBuffer, recv(st.pfds[i].fd).bytes);
    assert HasNul(b, 1) by {
      if rev == Current { assert b[|b| - 1] == 0; } else { assert b[|recv(st.pfds[i].fd).bytes|] == 0; }
    }
    PushesCountsBoundaries(b, 0);
  }

  /** In the Earlier revision a NUL-free request of `n` bytes schedules `1 + k` writes, `k` its own boundaries. */
  lemma {:induction false} EarlierReadSchedules(st: ScanState, i: nat, recv: int -> RecvOutcome)
    requires WellFormed(Earlier, st) && i < |st.clients| && RecvFitsAll(Earlier, recv)
    requires Classify(st.pfds[i].revents) == Readable && recv(st.pfds[i].fd).Received?
    requires var bytes := recv(st.pfds[i].fd).bytes; NulFree(bytes, 0, |bytes|)
    ensures var bytes := recv(st.pfds[i].fd).bytes;
      Step(Earlier, st, i, recv).awaitWritings == st.awaitWritings + Repeat(i, 1 + CountBoundaries(bytes, 1, |bytes|))
  {
    var bytes := recv(st.pfds[i].fd).bytes;
    assert RecvFits(Earlier, recv(st.pfds[i].fd));
    CStringPushes(bytes, Store(Earlier, st.recvBuffer, bytes));
  }

  /** Every entry of `q` from position `from` on is below `n`. */
  ghost predicate AllBelow(q: seq<nat>, from: nat, n: nat)
  {
    forall k :: from <= k < |q| ==> q[k] < n
  }

  /** Every scheduled index is below `i` and names a live slot. */
  ghost predicate QueueBelow(q: seq<nat>, from: nat, i: nat, n: nat)
    requires from <= |q|
  {
    forall k :: from <= k < |q| ==> q[k] < i && q[k] < n
  }

  /**
   * Indices scheduled during a scan still name live slots when it ends:
   * a removal at `i` only shifts slots above every index scheduled so far.
   */
  lemma {:induction false} ScanKeepsQueueInBounds(rev: Revision, st: ScanState, i: nat, from: nat, recv: int -> RecvOutcome)
    requires WellFormed(rev, st) && RecvFitsAll(rev, recv)
    requires from <= |st.awaitWritings| && QueueBelow(st.awaitWritings, from, i, |st.clients|)
    ensures var r := ScanFrom(rev, st, i, recv); AllBelow(r.awaitWritings, from, |r.clients|)
    decreases |st.clients| - i
  {
    if i < |st.clients| {
      var s := Step(rev, st, i, recv);
      assert QueueBelow(s.awaitWritings, from, i + 1, |s.clients|) by {
        match Classify(st.pfds[i].revents)
        case Quiet =>
        case HungUp =>
        case Errored =>
        case Readable =>
          if recv(st.pfds[i].fd).Received? {
            assert s.clients == st.clients;
            forall k | from <= k < |s.awaitWritings| ensures s.awaitWritings[k] < i + 1 && s.awaitWritings[k] < |s.clients| {
              if k >= |st.awaitWritings| { assert s.awaitWritings[k] == i; }
            }
          }
      }
      ScanKeepsQueueInBounds(rev, s, i + 1, from, recv);
      assert ScanFrom(rev, st, i, recv) == ScanFrom(rev, s, i + 1, recv);
    } else {
      assert ScanFrom(rev, st, i, recv) == st;
      assert forall k :: from <= k < |st.awaitWritings| ==> st.awaitWritings[k] < |st.clients|;
    }
  }

  /** Every entry of `s` from position `from` on is in `fds`. */
  ghost predicate AllIn(s: seq<int>, from: nat, fds: set<int>)
  {
    forall k :: from <= k < |s| ==> s[k] in fds
  }

  /** The descriptors of the slots whose `revents` make the scan read them. */
  ghost function ReadableFds(pfds: seq<PollFd>): set<int>
  {
    set j | 0 <= j < |pfds| && Classify(pfds[j].revents) == Readable :: pfds[j].fd
  }

  lemma RemoveAtReadable(pfds: seq<PollFd>, i: nat)
    requires i < |pfds|
    ensures ReadableFds(RemoveAt(pfds, i)) <= ReadableFds(pfds)
  {
    var r := RemoveAt(pfds, i);
    forall fd | fd in ReadableFds(r) ensures fd in ReadableFds(pfds) {
      var j :| 0 <= j < |r| && Classify(r[j].revents) == Readable && r[j].fd == fd;
      var j' := if j < i then j else j + 1;
      assert pfds[j'] == r[j];
    }
  }

  /**
   * The scan passes to `recv` only descriptors whose `revents` are readable
   * without `POLLHUP` or `POLLERR`: a hung-up or failed descriptor is never read.
   */
  lemma {:induction false} OnlyReadableRead(rev: Revision, st: ScanState, i: nat, recv: int -> RecvOutcome)
    requires WellFormed(rev, st) && RecvFitsAll(rev, recv)
    ensures var r := ScanFrom(rev, st, i, recv); AllIn(r.received, |st.received|, ReadableFds(st.pfds))
    decreases |st.clients| - i
  {
    if i < |st.clients| {
      var s := Step(rev, st, i, recv);
      assert ReadableFds(s.pfds) <= ReadableFds(st.pfds) by {
        if s.pfds != st.pfds { RemoveAtReadable(st.pfds, i); }
      }
      assert forall k :: |st.received| <= k < |s.received| ==> s.received[k] in ReadableFds(st.pfds) by {
        if |s.received| > |st.received| {
          assert Classify(st.pfds[i].revents) == Readable;
          assert s.received[|st.received|] == st.pfds[i].fd;
        }
      }
      OnlyReadableRead(rev, s, i + 1, recv);
      var r := ScanFrom(rev, s, i + 1, recv);
      assert ScanFrom(rev, st, i, recv) == r;
      forall k | |st.received| <= k < |r.received| ensures r.received[k] in ReadableFds(st.pfds) {
        if k < |s.received| {
          assert r.received[k] == r.received[..|s.received|][k] == s.received[k];
        }
      }
    } else {
      assert ScanFrom(rev, st, i, recv) == st;
    }
  }

  /**
   * Removing slot `i` moves the next client into `i` before the loop
   * advances, so when two adjacent slots hang up only the first is closed
   * in this cycle.
   */
  lemma ShiftedSlotSkipped(rev: Revision, c0: Client, c1: Client, p0: PollFd, p1: PollFd,
                           buffer: seq<byte>, recv: int -> RecvOutcome)
    requires BufferInv(rev, buffer) && RecvFitsAll(rev, recv)
    requires Classify(p0.revents) == HungUp && Classify(p1.revents) == HungUp
    ensures var r := ScanFrom(rev, ScanState([c0, c1], [p0, p1], buffer, [], [], []), 0, recv);
      r.clients == [c1] && r.pfds == [p1] && r.closed == [p0.fd]
  {
    var st := ScanState([c0, c1], [p0, p1], buffer, [], [], []);
    var s1 := Step(rev, st, 0, recv);
    assert s1.clients == [c1] && s1.pfds == [p1] && s1.closed == [p0.fd];
    assert ScanFrom(rev, s1, 1, recv) == s1;
    assert ScanFrom(rev, st, 0, recv) == s1;
  }

  // ---------------------------------------------------------------------
  // The write drain
  // ---------------------------------------------------------------------

  /**
   * The sockets the drain writes to when it pops the last `m` entries of `q`:
   * `Vector_Pop` takes from the back, so the newest entry is written first.
   */
  function Drained(clients: seq<Client>, q: seq<nat>, m: nat): (sent: seq<int>)
    requires m <= |q| && AllBelow(q, |q| - m, |clients|)
  {
    seq(m, j requires 0 <= j < m => clients[q[|q| - 1 - j]].socketFd)
  }

  /** How many entries one drain pops from a queue of `n`. */
  function DrainCount(rev: Revision, n: nat): (m: nat)
    ensures m <= n
    ensures rev == Current ==> m <= WriteCap && (m == n || m == WriteCap)
    ensures rev == Earlier ==> m == n
  {
    if rev == Current && n > WriteCap then WriteCap else n
  }

  /** The `m` entries the drain pops each name a slot that `Vector_PtrAt` can reach. */
  ghost predicate DrainInBounds(q: seq<nat>, clientCount: nat, m: nat)
    requires m <= |q|
  {
    AllBelow(q, |q| - m, clientCount)
  }

  /**
   * In the Earlier revision the queue is empty when a cycle starts, so every
   * index the drain pops was scheduled by this cycle's scan and is in bounds.
   */
  lemma EarlierDrainInBounds(st: ScanState, pollResult: int, recv: int -> RecvOutcome)
    requires WellFormed(Earlier, st) && RecvFitsAll(Earlier, recv) && st.awaitWritings == []
    ensures var r := Scanned(Earlier, st, pollResult, recv);
      DrainInBounds(r.awaitWritings, |r.clients|, DrainCount(Earlier, |r.awaitWritings|))
  {
    if pollResult > 0 {
      ScanKeepsQueueInBounds(Earlier, st, 0, 0, recv);
      var r := ScanFrom(Earlier, st, 0, recv);
      assert Scanned(Earlier, st, pollResult, recv) == r;
      assert DrainCount(Earlier, |r.awaitWritings|) == |r.awaitWritings|;
    }
  }

  /**
   * In the Current revision entries left by the 14-write cap outlive the
   * scan: an entry for slot 1, left from the previous cycle, still names
   * slot 1 after slot 1 hangs up, and the drain would pass it to `Vector_PtrAt`
   * on a one-element vector.
   */
  lemma LeftoverEntryOutlivesSlot(c0: Client, c1: Client, p0: PollFd, p1: PollFd,
                                  buffer: seq<byte>, recv: int -> RecvOutcome)
    requires BufferInv(Current, buffer) && RecvFitsAll(Current, recv)
    requires Classify(p0.revents) == Quiet && Classify(p1.revents) == HungUp
    ensures var r := ScanFrom(Current, ScanState([c0, c1], [p0, p1], buffer, [1], [], []), 0, recv);
      r.awaitWritings == [1] && |r.clients| == 1 &&
      !DrainInBounds(r.awaitWritings, |r.clients|, DrainCount(Current, |r.awaitWritings|))
  {
    var st := ScanState([c0, c1], [p0, p1], buffer, [1], [], []);
    var s1 := Step(Current, st, 0, recv);
    assert s1 == st;
    var s2 := Step(Current, s1, 1, recv);
    assert s2.clients == [c0] && s2.awaitWritings == [1];
    assert ScanFrom(Current, s2, 2, recv) == s2;
    assert ScanFrom(Current, s1, 1, recv) == s2;
    assert ScanFrom(Current, st, 0, recv) == s2;
    assert s2.awaitWritings[0] == 1;
  }

  /** A full-sized receive is within `recv`'s contract but overruns the Earlier revision's buffer. */
  lemma FullReceiveOverruns()
    ensures var o := Received(seq(RecvLimit, _ => 1));
      RecvContract(o) && !RecvFits(Earlier, o) && RecvFits(Current, o)
  {
  }
}
