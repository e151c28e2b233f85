/**
 * The acceptor's bookkeeping (src/main/thrd_main.c): the layout of the
 * response buffer, the record built for each accepted connection and its
 * paired insertion into the registry, and the final close loop.
 */
module MainThread {
  import opened Vectors
  import opened Registry
  import opened Bytes
  import opened PollScan

  /** The blank line appended after the file: "\r\n\r\n". */
  const BlankLine: seq<byte> := [CR, LF, CR, LF]

  /** The response layout: the header text, the file bytes, a blank line, and nothing else. */
  function Response(head: seq<byte>, file: seq<byte>): (r: seq<byte>)
  {
    head + file + BlankLine
  }

  /**
   * The three parts of a response sit back to back and fill it exactly,
   * and it ends with a request boundary.
   */
  lemma ResponseLayout(head: seq<byte>, file: seq<byte>)
    ensures var r := Response(head, file);
      |r| == |head| + |file| + 4 &&
      r[..|head|] == head &&
      r[|head|..|head| + |file|] == file &&
      r[|head| + |file|..] == BlankLine &&
      IsBoundaryAt(r, |r| - 4)
  {
    var r := Response(head, file);
    assert r[..|head|] == head;
    assert r[|head|..|head| + |file|] == file;
    assert r[|head| + |file|..] == BlankLine;
  }

  /**
   * Response assembly: `strlen(HTTP_HEAD)` bytes of the header string
   * `httpHead` (the C array with its terminator), then the `size` bytes of
   * the mapped file, then "\r\n\r\n", copied into a fresh buffer of
   * `html_content_size` bytes.
   */
  method BuildResponse(httpHead: seq<byte>, file: seq<byte>) returns (content: array<byte>, size: nat)
    requires HasNul(httpHead, 0)
    ensures fresh(content) && content.Length == size
    ensures size == CStrEnd(httpHead, 0) + |file| + 4
    ensures content[..] == Response(httpHead[..CStrEnd(httpHead, 0)], file)
  {
    var headSize := CStrEnd(httpHead, 0);
    var fileSize := |file|;
    size := headSize + fileSize + 4;
    content := new byte[size];
    forall k | 0 <= k < headSize {
      content[k] := httpHead[k];
    }
    forall k | 0 <= k < fileSize {
      content[headSize + k] := file[k];
    }
    forall k | 0 <= k < 4 {
      content[headSize + fileSize + k] := BlankLine[k];
    }
    assert content[..] == Response(httpHead[..headSize], file);
  }

  /** The record built for an accepted descriptor; `port` is never assigned and keeps its zero. */
  function NewClient(fd: int, addrLen: nat): Client
  {
    Client(fd, addrLen, 0)
  }

  /** The descriptor registered for an accepted connection: it asks for reads and reports nothing yet. */
  function NewPollFd(fd: int): (p: PollFd)
    ensures p.fd == fd && p.events & POLLIN != 0
    ensures Classify(p.revents) == Quiet
  {
    PollFd(fd, POLLIN, 0)
  }

  /**
   * A slot added after the last `poll` is neither read nor dropped by the
   * scan: it waits until `poll` reports on it.
   */
  lemma NewSlotUntouched(rev: Revision, st: ScanState, i: nat, recv: int -> RecvOutcome, fd: int)
    requires WellFormed(rev, st) && i < |st.clients| && RecvFitsAll(rev, recv)
    requires st.pfds[i] == NewPollFd(fd)
    ensures Step(rev, st, i, recv) == st
  {
  }

  /**
   * One turn of the accept loop, after `accept` returned `fd` and set
   * `addrLen`; `shouldExit` is the flag read after a successful accept.
   * `stop` tells whether the loop ends.
   */
  method AcceptOne(reg: Registry, fd: int, addrLen: nat, shouldExit: bool) returns (stop: bool)
    requires reg.Valid()
    modifies reg.Repr
    ensures reg.Valid() && fresh(reg.Repr - old(reg.Repr))
    ensures reg.clients == old(reg.clients) && reg.pfds == old(reg.pfds)
    ensures stop <==> fd != -1 && shouldExit
    ensures fd == -1 || shouldExit ==>
      reg.clients.Contents == old(reg.clients.Contents) && reg.pfds.Contents == old(reg.pfds.Contents)
    ensures fd != -1 && !shouldExit ==>
      reg.clients.Contents == old(reg.clients.Contents) + [NewClient(fd, addrLen)] &&
      reg.pfds.Contents == old(reg.pfds.Contents) + [NewPollFd(fd)]
  {
    if fd == -1 {
      return false;
    }
    if shouldExit {
      return true;
    }
    reg.Add(NewClient(fd, addrLen), NewPollFd(fd));
    stop := false;
  }

  /** The sockets of `clients`, in slot order. */
  function Sockets(clients: seq<Client>): (fds: seq<int>)
    ensures |fds| == |clients|
    ensures forall k :: 0 <= k < |clients| ==> fds[k] == clients[k].socketFd
  {
    seq(|clients|, k requires 0 <= k < |clients| => clients[k].socketFd)
  }

  /** The close loop after the data thread is joined: each remaining client's socket, once, in slot order. */
  method CloseAll(reg: Registry) returns (closed: seq<int>)
    requires reg.Valid()
    ensures closed == Sockets(reg.clients.Contents)
  {
    closed := [];
    var i := 0;
    while i < reg.clients.length
      invariant i <= reg.clients.length
      invariant closed == Sockets(reg.clients.Contents[..i])
    {
      var client := reg.clients.PtrAt(i);
      assert reg.clients.Contents[..i + 1] == reg.clients.Contents[..i] + [client];
      closed := closed + [client.socketFd];
      i := i + 1;
    }
    assert reg.clients.Contents[..i] == reg.clients.Contents;
  }

  /** With distinct sockets, the close loop closes every one of them exactly once. */
  lemma {:induction false} ClosedOnce(clients: seq<Client>, fd: int)
    requires forall j, k :: 0 <= j < k < |clients| ==> clients[j].socketFd != clients[k].socketFd
    ensures multiset(Sockets(clients))[fd] == if exists k :: 0 <= k < |clients| && clients[k].socketFd == fd then 1 else 0
    decreases |clients|
  {
    if clients != [] {
      var last := |clients| - 1;
      var front := clients[..last];
      assert Sockets(clients) == Sockets(front) + [clients[last].socketFd];
      ClosedOnce(front, fd);
      if clients[last].socketFd == fd {
        assert forall k :: 0 <= k < |front| ==> front[k].socketFd != fd;
      } else {
        if exists k :: 0 <= k < |clients| && clients[k].socketFd == fd {
          var k :| 0 <= k < |clients| && clients[k].socketFd == fd;
          assert front[k].socketFd == fd;
        }
      }
    }
  }
}
