# Blackhole2 server core in Dafny

Blackhole2 is a small HTTP server. It answers every request with one fixed
page. An acceptor thread adds each new connection to a shared registry: two
index-parallel vectors, `clients` and `client_pfds`. A data thread runs in a
loop. Each turn it polls the registry, reads from ready clients, schedules one
write per request boundary, and drains the scheduled writes. Every collection
is a type-erased growable array, `Vector`.

This project models that bookkeeping and proves properties of it:

- `vector.dfy` (module `Vectors`) models `Vector` as a class.
  - Fields: an `array` buffer of `capacity` slots, plus `length` and `capacity`.
  - Ghost state: the live `Contents`, and the log `Freed` of elements handed to the free function.
  - Each operation is proved against `Contents`, `Freed` and `capacity`.
- `bhash.dfy` (module `BHash`) models `CalculateBHash` on `bv64`, where arithmetic wraps exactly as `uint64_t` does. The byte type it reads is the same `Bytes.byte` the receive buffer uses.
- `registry.dfy` (module `Registry`) models the registry:
  - the `Client` and `pollfd` records;
  - start-up, expanding both vectors to 32 slots;
  - the paired push and the paired removal;
  - the `revents` that `poll` writes.
- `poll_scan.dfy` (module `PollScan`) specifies one data-thread cycle as pure functions:
  - `strlen`/`strstr` on the receive buffer;
  - the count of scheduled writes;
  - the `revents` priority;
  - one scan iteration (`Step`) and the whole scan (`ScanFrom`);
  - the write drain.

  Its lemmas carry the properties of the cycle. Both revisions of the data thread share this specification; the `Revision` value selects the buffer size, the NUL terminator and the drain cap.
- `thrd_data.dfy` (module `DataThread`) models the data thread. Its `DataThread` class has methods for:
  - the slot scan;
  - the `strstr` push loop;
  - the capped or unbounded drain;
  - the whole cycle.

  Each method is proved against the functions of `PollScan`.
- `thrd_main.dfy` (module `MainThread`) models three parts of the acceptor:
  - response assembly;
  - the record built for an accepted descriptor and its insertion;
  - the close loop at shutdown.

System calls are inputs:
- `poll` gives the `revents` it writes and its return value.
- `recv` is a function from descriptor to outcome: failure, orderly shutdown, or the bytes received.
- `close` and `send` are recorded as the sequences of descriptors they were given.
- `accept` gives a descriptor and an address length.

## Where the code differs from its comments

The model follows what the code does:

- **`Vector_PtrAt` does not clamp** (blackhole2/src/container/vector.c:45-50). vector.h:76 says an out-of-range index yields the last element; the code does no such thing. `PtrAt` therefore requires `index < length`.
- **`Vector_Expand` tests `capacity`, not `length`** (vector.c:69). vector.h:103 suggests otherwise.
- **`Vector_Pop` without a retrieve pointer frees the wrong slot.** It hands slot `length` to the free function: one past the last element (vector.c:207). `Pop` requires that slot to exist, and logs the stale value found there. `PopFreesSlotPastEnd` shows the element freed is not the one removed.
- **`Vector_ShrinkToFit` at length 0** frees the buffer but keeps the dangling pointer. The model replaces the buffer with an empty one.
- **A receive schedules `1 + k` writes for `k` boundaries.** The push loop pushes once unconditionally, then once per `"\r\n\r\n"` (the blank line that ends a header section, section 2.1 of RFC 9112) found after the first byte. One complete request therefore gets two responses.
- **The current revision never terminates what it receives.** `strstr` reads on into bytes left by earlier receives, up to the last byte of the 65536-byte static buffer, which stays zero.
- **Leftover queue entries in the current revision can outlive their slot.** The 14-write cap leaves entries in the queue, and they can name slots that later removals shifted away. `Cycle` therefore carries the in-bounds requirement of the unchecked `Vector_PtrAt` (src/main/thrd_data.c:148) as a precondition. `LeftoverEntryOutlivesSlot` shows it can fail.
- **The earlier revision's terminator can land past its buffer.** It allocates 65535 bytes (blackhole2/src/main/thrd_data.c:42) but writes the terminator at index `recv_result`, which can be 65535. Its scan requires `RecvFits`, which is stricter than `recv`'s own contract; `FullReceiveOverruns` shows a receive that `recv` allows but the buffer cannot hold.
- **The port is never stored.** The acceptor computes the client port but never assigns it to the record. Every new `Client` has port 0.

## Model

| member | source | states |
|---|---|---|
| Vectors.GrowToBounds | blackhole2/src/container/vector.c:81-87 | expanding until `size` reaches at least `size`, never lowers the capacity, and changes nothing when the capacity already suffices |
| Vectors.GrowToTight | blackhole2/src/container/vector.c:66-87 | when growth is needed, the final capacity is below `2 * size` |
| Vectors.GrowToPowerOfTwo | blackhole2/src/container/vector.c:66-79 | from capacity 0 or a power of two, repeated expansion yields 0 or a power of two |
| Vectors.Vector.Create | blackhole2/src/container/vector.c:3-26 | a new vector is empty with capacity 0, nothing freed, and the given element size and free-function setting |
| Vectors.Vector.First | blackhole2/src/container/vector.c:28-33 | returns the element in slot 0; the C code does no check, so a live element is required |
| Vectors.Vector.Last | blackhole2/src/container/vector.c:35-43 | `None` exactly when the vector is empty, otherwise the last live element |
| Vectors.Vector.PtrAt | blackhole2/src/container/vector.c:45-50 | returns the element at `index`; no clamping, so `index < length` is required |
| Vectors.Vector.Find | blackhole2/src/container/vector.c:52-64 | returns the first index whose element `cmp` accepts; `None` exactly when no live element is accepted |
| Vectors.Vector.Expand | blackhole2/src/container/vector.c:66-79 | capacity goes 0 to 1, otherwise doubles; length, contents and freed log unchanged; every old slot is carried over |
| Vectors.Vector.ExpandUntil | blackhole2/src/container/vector.c:81-87 | capacity becomes `GrowTo(old capacity, size)`, at least `size` and at least the old capacity; contents unchanged |
| Vectors.Vector.ShrinkToFit | blackhole2/src/container/vector.c:89-103 | capacity becomes the length (0 for an empty vector); contents and freed log unchanged |
| Vectors.Vector.Walk | blackhole2/src/container/vector.c:105-114 | `func` is given the live elements in index order and each is replaced by its image; length and capacity unchanged |
| Vectors.Vector.Clear | blackhole2/src/container/vector.c:116-122 | with a free function every live element is freed in index order; the vector becomes empty and keeps its capacity |
| Vectors.Vector.Insert | blackhole2/src/container/vector.c:124-139 | an in-bound index gives `s[..i] + [e] + s[i..]`; otherwise `e` is appended as by `Push`; nothing is freed |
| Vectors.Vector.Replace | blackhole2/src/container/vector.c:141-153 | an in-bound index frees the old element, overwrites it and keeps the length and capacity; otherwise `e` is appended |
| Vectors.Vector.Delete | blackhole2/src/container/vector.c:155-168 | an in-bound index gives `s` without `s[i]` and frees `s[i]` exactly once if a free function is set; otherwise nothing changes |
| Vectors.Vector.Take | blackhole2/src/container/vector.c:170-189 | a non-empty vector loses one element with the order of the rest kept; the element goes to the caller or to the free function, never both; an index past the end acts as `Pop`; empty is a no-op |
| Vectors.Vector.Push | blackhole2/src/container/vector.c:191-197 | appends `elem`, keeps every earlier element, grows the capacity by the doubling rule; nothing freed |
| Vectors.Vector.Pop | blackhole2/src/container/vector.c:199-209 | empty is a no-op; otherwise the last element is removed and returned when retrieving; without a retrieve pointer the stale slot at `length` is what gets freed |
| Vectors.Vector.PushFront | blackhole2/src/container/vector.c:211-218 | contents become `[e] + s`; nothing freed |
| Vectors.Vector.PopFront | blackhole2/src/container/vector.c:220-231 | a non-empty vector becomes `s[1..]`, with `s[0]` returned or else freed; empty is a no-op |
| Vectors.Vector.Destroy | blackhole2/src/container/vector.c:233-248 | every live element is freed as by `Clear` and the buffer is released |
| Vectors.PushThenPop | blackhole2/src/container/vector.c:191-209 | popping into a retrieve pointer right after a push returns the pushed value and restores the contents |
| Vectors.InsertThenAt | blackhole2/src/container/vector.c:124-139 | an in-bound insertion is read back by `PtrAt` at the same index, and the length grows by one |
| Vectors.PopFreesSlotPastEnd | blackhole2/src/container/vector.c:204-208 | after pushing `a` and `b` and retrieving `b`, a pop without a retrieve pointer empties the vector but frees `b`, not `a` |
| BHash.CalculateBHash | blackhole2/src/data/bhash.c:8-26 | the result is `BHashOf(length, data[0])`: `length` rounds on the first byte, one multiplication, ten salt rounds, all modulo 2^64 |
| BHash.EmptySaltRounds | blackhole2/src/data/bhash.c:19-23 | the ten salt rounds map the empty-input accumulator to `0x851445e2c343775c` |
| BHash.EmptyBHash | blackhole2/src/data/bhash.c:11-24 | with `length == 0` no byte is read and the hash is the constant `0x851445e2c343775c` |
| BHash.RepeatsFirstByte | blackhole2/src/data/bhash.c:13-17 | the byte loop as written equals the advancing fold over `length` copies of `data[0]` |
| BHash.TailIgnored | blackhole2/src/data/bhash.c:13-17 | the distinct inputs 00 00 and 00 01 read the same byte, so they hash alike, though an advancing loop would tell them apart |
| Registry.InitialCapacity | src/main/thrd_main.c:114-115 | expanding an empty vector until 32 slots gives exactly 32 |
| Registry.Registry.Init | src/main/thrd_main.c:112-115 | both registry vectors start empty, without free function, with capacity exactly 32 |
| Registry.Registry.Add | src/main/thrd_main.c:235-236 | the record and the descriptor are appended to their vectors, whose lengths stay equal |
| Registry.Registry.RemoveAt | src/main/thrd_data.c:77-79 | slot `i` is removed from both vectors, whose lengths stay equal |
| Registry.Registry.StoreRevents | src/main/thrd_data.c:54 | `poll` overwrites the `revents` of every descriptor; the descriptors, their events, the clients, the capacity and the freed log are unchanged |
| PollScan.Store | blackhole2/src/main/thrd_data.c:102-104 | received bytes overwrite the buffer prefix; the earlier revision adds a NUL after them, the current one keeps the old bytes after them; the buffer invariant is kept |
| PollScan.CStrEnd | src/main/thrd_main.c:80 | `strlen`: the first NUL at or after `from`, with none before it |
| PollScan.StrStr | src/main/thrd_data.c:126 | `strstr` for "\r\n\r\n": the first boundary before the string's NUL, or `None` when there is none |
| PollScan.PushesCountsBoundaries | src/main/thrd_data.c:126-127 | the push loop pushes `1 + k` times, `k` the boundaries, overlapping ones included, from position 1 up to the first NUL |
| PollScan.CStringPushes | blackhole2/src/main/thrd_data.c:129-130 | for a NUL-free string `s` followed by a NUL, the loop pushes `1 +` the boundaries of `s` after its first byte |
| PollScan.OneRequestTwoWrites | blackhole2/src/main/thrd_data.c:129-130 | one complete "GET / HTTP/1.1\r\n\r\n" schedules two writes |
| PollScan.TwoRequestsThreeWrites | blackhole2/src/main/thrd_data.c:129-130 | two pipelined requests in one receive schedule three writes |
| PollScan.StaleBytesScanned | src/main/thrd_data.c:101-127 | in the current revision a receive with no boundary still schedules a second write when stale buffer bytes after it hold one |
| PollScan.Classify | src/main/thrd_data.c:72-91 | `POLLHUP` wins over `POLLERR`, which wins over `POLLIN`; other bits and zero mean the slot is skipped |
| PollScan.Step | src/main/thrd_data.c:71-129 | one scan iteration keeps the two sequences paired and the buffer invariant; either both sequences are unchanged or exactly slot `i` leaves both; a quiet slot changes nothing; the logs and the queue are only appended to |
| PollScan.ScanFrom | src/main/thrd_data.c:69-131 | the whole scan keeps the same invariants, with `i` advancing after every removal |
| PollScan.Scanned | src/main/thrd_data.c:56-66 | nothing is scanned or changed unless `poll` returned a positive count |
| PollScan.HangUpDrops | src/main/thrd_data.c:74-90 | a hang-up or an error closes the descriptor and removes slot `i` from both sequences without reading it; the buffer and the queue are unchanged |
| PollScan.FailedReadDrops | src/main/thrd_data.c:103-116 | a failed or zero-byte receive closes and removes the slot and schedules no write |
| PollScan.ReadSchedules | src/main/thrd_data.c:117-128 | a positive receive keeps the slot, stores the bytes, and schedules slot `i` `1 + k` times |
| PollScan.EarlierReadSchedules | blackhole2/src/main/thrd_data.c:120-131 | in the earlier revision `k` counts the boundaries of the NUL-free received bytes themselves |
| PollScan.ScanKeepsQueueInBounds | blackhole2/src/main/thrd_data.c:70-134 | every index the scan schedules still names a live slot when the scan ends |
| PollScan.OnlyReadableRead | src/main/thrd_data.c:74-101 | `recv` is only called for descriptors whose `revents` have `POLLIN` and neither `POLLHUP` nor `POLLERR` |
| PollScan.ShiftedSlotSkipped | src/main/thrd_data.c:69-82 | when two adjacent slots hang up, only the first is closed this cycle; the shifted one stays |
| PollScan.DrainCount | src/main/thrd_data.c:138 | the current revision pops `min(n, 14)` entries (at most 14, and `n` or 14), the earlier one all `n` |
| PollScan.EarlierDrainInBounds | blackhole2/src/main/thrd_data.c:138-154 | in the earlier revision every index the drain pops names a live slot |
| PollScan.LeftoverEntryOutlivesSlot | src/main/thrd_data.c:138-149 | in the current revision a leftover entry can name a slot removed by the scan, so the drain's `Vector_PtrAt` would be out of range |
| PollScan.FullReceiveOverruns | blackhole2/src/main/thrd_data.c:102-104 | a 65535-byte receive meets `recv`'s contract but not the 65535-byte buffer's need for a terminator slot |
| DataThread.DataThread.StartCurrent | src/main/thrd_data.c:18-37 | the queue starts empty and the static buffer zeroed |
| DataThread.DataThread.StartEarlier | blackhole2/src/main/thrd_data.c:36-42 | the queue starts empty and the buffer holds whatever the allocation contained |
| DataThread.DataThread.StoreReceived | blackhole2/src/main/thrd_data.c:102-104 | the buffer becomes `Store` of the received bytes |
| DataThread.DataThread.SchedulePushes | src/main/thrd_data.c:126-127 | the loop appends `i` to the queue exactly `Pushes(buffer, 0)` times and changes nothing else |
| DataThread.DataThread.DropSlot | src/main/thrd_data.c:77-79 | closes the descriptor and removes slot `i` from both vectors |
| DataThread.DataThread.ScanSlot | src/main/thrd_data.c:71-129 | one iteration of the scan loop leaves exactly the state `Step` describes |
| DataThread.DataThread.Scan | src/main/thrd_data.c:69-131 | the scan loop leaves exactly the state `ScanFrom` describes from slot 0 |
| DataThread.DataThread.Drain | src/main/thrd_data.c:135-151 | pops `DrainCount` entries from the back and sends to each popped client's socket, newest first, leaving the oldest entries |
| DataThread.DataThread.ServePolled | src/main/thrd_data.c:56-151 | scan when `poll` returned a positive count, then drain; the drain's indices are in bounds |
| DataThread.DataThread.Cycle | src/main/thrd_data.c:50-155 | an empty registry is left alone; otherwise the timeout is 100 with writes pending and 300 without, and the state after scan and drain is exactly as specified; the earlier revision ends with an empty queue |
| MainThread.ResponseLayout | src/main/thrd_main.c:85-88 | the response is the header, the file and "\r\n\r\n" back to back, filling it exactly and ending with a boundary |
| MainThread.BuildResponse | src/main/thrd_main.c:80-88 | the buffer has `strlen(HTTP_HEAD) + file size + 4` bytes laid out as `Response` |
| MainThread.NewPollFd | src/main/thrd_main.c:223-225 | the new descriptor asks for `POLLIN` and its `revents` classify as quiet |
| MainThread.NewSlotUntouched | src/main/thrd_main.c:223-225 | a slot added since the last `poll` is neither read nor dropped by the scan |
| MainThread.AcceptOne | src/main/thrd_main.c:186-236 | a failed accept changes nothing and continues; an exit request stops without inserting; otherwise one record and one descriptor are appended |
| MainThread.CloseAll | src/main/thrd_main.c:261-262 | closes the socket of every remaining client, in slot order |
| MainThread.ClosedOnce | src/main/thrd_main.c:261-262 | with distinct sockets, every remaining client's socket is closed exactly once |

## Left out

- The thread handoff between the acceptor and the data thread is not modelled: mutex, condition variable, atomic flags and both signal handlers. It exists only for concurrency; here one sequential caller owns the registry.
- Socket set-up, `inet_ntop`, `open`/`fstat`/`mmap` and the log calls are not modelled: they are I/O or side effects only. `poll`, `recv`, `send`, `close` and `accept` appear only as inputs and logged effects.
- Allocation failure is not modelled: the code never checks the results of `malloc` or `realloc`. `elemSize` is kept as a field, but byte offsets are not computed.
- `size_t` wrap-around is not modelled. Lengths and capacities are unbounded naturals, since no reachable size in the server comes near 2^64.
- `recv` is modelled as a function of the descriptor, so one descriptor gives the same outcome every time in a cycle. A descriptor is read at most once per cycle anyway.
- `HTTP_HEAD` and the page are parameters. The hard-coded `Content-Length` is not checked against the file size.
- `Client`'s `sockaddr_storage` bytes are not modelled: a client is its descriptor, address length and port.
- Vectors.Vector.Destroy: sets the capacity to 0 and drops the buffer. `Vector_DestroyS` keeps the stale capacity and a dangling pointer; `Vector_Destroy` frees the struct itself, which has no counterpart.
- Vectors.Vector.Create: covers both `Vector_Create` and `Vector_CreateS`. The heap or stack placement of the struct is not modelled.
- Vectors.Vector.ShrinkToFit: at length 0 the model holds an empty buffer where the C struct keeps a freed pointer.
- Vectors.Vector.Walk: `func` is a pure function from element to element, standing in for a callback that may update the element in place.
- The untaken `poll` error branch (`poll_result < 0`) logs only, and is covered by `Scanned`.
- `poll` bits other than `POLLIN`, `POLLERR` and `POLLHUP` (such as `POLLNVAL`) take no branch of their own, as in the code.
