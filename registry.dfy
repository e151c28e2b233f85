/**
 * The connection registry shared by the acceptor and the data thread: the
 * two index-parallel vectors `clients` and `client_pfds` (src/main/shared.h,
 * src/main/shared.c), with the record types they hold.  The mutex, the
 * condition variable and the atomic flags that guard them are not modelled:
 * the registry is owned by one sequential caller.
 */
module Registry {
  import opened Vectors

  /** `poll` event bits, Linux values. */
  const POLLIN: bv16 := 0x001
  const POLLERR: bv16 := 0x008
  const POLLHUP: bv16 := 0x010

  /** Capacity both registry vectors are expanded to at start-up. */
  const InitialSlots: nat := 32

  /**
   * A `Client` record reduced to what the core reads or writes: the socket,
   * the address length and the port (never assigned by the acceptor).
   * The `sockaddr_storage` bytes are not modelled.
   */
  datatype Client = Client(socketFd: int, addrLen: nat, port: nat)

  /** A `struct pollfd`. */
  datatype PollFd = PollFd(fd: int, events: bv16, revents: bv16)

  /** `pfds` with the `revents` field of every entry replaced, as `poll` writes it. */
  function WithRevents(pfds: seq<PollFd>, revents: seq<bv16>): (r: seq<PollFd>)
    requires |revents| == |pfds|
    ensures |r| == |pfds|
    ensures forall k :: 0 <= k < |r| ==>
              r[k].fd == pfds[k].fd && r[k].events == pfds[k].events && r[k].revents == revents[k]
  {
    seq(|pfds|, k requires 0 <= k < |pfds| => pfds[k].(revents := revents[k]))
  }

  /** Doubling from an empty vector reaches exactly 32 slots when 32 are asked for. */
  lemma InitialCapacity()
    ensures GrowTo(0, InitialSlots) == InitialSlots
  {
    GrowToBounds(0, InitialSlots);
    GrowToTight(0, InitialSlots);
    GrowToPowerOfTwo(0, InitialSlots);
    var c := GrowTo(0, InitialSlots);
    assert IsPowerOfTwo(c) && 32 <= c < 64;
    PowerOfTwoBetween(c);
  }

  /** The only power of two in [32, 64) is 32. */
  lemma PowerOfTwoBetween(c: nat)
    requires IsPowerOfTwo(c) && 32 <= c < 64
    ensures c == 32
  {
    assert IsPowerOfTwo(c / 2) && c % 2 == 0;
    assert IsPowerOfTwo(c / 4) && (c / 2) % 2 == 0;
    assert IsPowerOfTwo(c / 8) && (c / 4) % 2 == 0;
    assert IsPowerOfTwo(c / 16) && (c / 8) % 2 == 0;
    assert IsPowerOfTwo(c / 32) && (c / 16) % 2 == 0;
  }

  class Registry {
    var clients: Vector<Client>
    var pfds: Vector<PollFd>
    ghost var Repr: set<object>

    /** Both vectors are valid, disjoint, free-function-less and of equal length. */
    ghost predicate Valid()
      reads this, Repr
      ensures Valid() ==> this in Repr
    {
      this in Repr && clients in Repr && pfds in Repr &&
      clients.Repr <= Repr && pfds.Repr <= Repr &&
      this !in clients.Repr && this !in pfds.Repr && clients.Repr !! pfds.Repr &&
      clients.Valid() && pfds.Valid() &&
      |clients.Contents| == |pfds.Contents| &&
      !clients.hasFreeFunc && !pfds.hasFreeFunc
    }

    /**
     * Start-up (src/main/thrd_main.c): both vectors are created without a
     * free function and expanded until they hold 32 slots.
     */
    constructor Init(clientSize: nat, pollFdSize: nat)
      ensures Valid() && fresh(Repr)
      ensures clients.Contents == [] && pfds.Contents == []
      ensures clients.capacity == InitialSlots && pfds.capacity == InitialSlots
      ensures clients.elemSize == clientSize && pfds.elemSize == pollFdSize
    {
      var cs := new Vector<Client>.Create(clientSize, false);
      var ps := new Vector<PollFd>.Create(pollFdSize, false);
      cs.ExpandUntil(InitialSlots);
      ps.ExpandUntil(InitialSlots);
      InitialCapacity();
      clients := cs;
      pfds := ps;
      Repr := {this} + cs.Repr + ps.Repr;
    }

    /** The paired push of the acceptor: one record and one descriptor, so the lengths stay equal. */
    method Add(c: Client, p: PollFd)
      requires Valid()
      modifies Repr
      ensures Valid() && fresh(Repr - old(Repr))
      ensures clients == old(clients) && pfds == old(pfds)
      ensures clients.Contents == old(clients.Contents) + [c]
      ensures pfds.Contents == old(pfds.Contents) + [p]
    {
      clients.Push(c);
      pfds.Push(p);
      Repr := Repr + clients.Repr + pfds.Repr;
    }

    /** The paired removal of the data thread: `Vector_Delete` at the same index in both vectors. */
    method RemoveAt(i: nat)
      requires Valid() && i < |clients.Contents|
      modifies Repr
      ensures Valid() && Repr == old(Repr)
      ensures clients == old(clients) && pfds == old(pfds)
      ensures clients.Contents == Vectors.RemoveAt(old(clients.Contents), i)
      ensures pfds.Contents == Vectors.RemoveAt(old(pfds.Contents), i)
    {
      clients.Delete(i);
      pfds.Delete(i);
    }

    /** What `poll` writes through `client_pfds.ptr`: the `revents` of every descriptor. */
    method StoreRevents(revents: seq<bv16>)
      requires Valid() && |revents| == |pfds.Contents|
      modifies pfds, pfds.buf
      ensures Valid() && Repr == old(Repr)
      ensures clients == old(clients) && pfds == old(pfds)
      ensures pfds.Contents == WithRevents(old(pfds.Contents), revents)
      ensures pfds.Freed == old(pfds.Freed) && pfds.capacity == old(pfds.capacity)
      ensures clients.Contents == old(clients.Contents)
    {
      var ps := pfds;
      forall k | 0 <= k < ps.length {
        ps.buf[k] := ps.buf[k].(revents := revents[k]);
      }
      ps.Contents := ps.buf[..ps.length];
      assert ps.Contents == WithRevents(old(ps.Contents), revents);
    }
  }
}
