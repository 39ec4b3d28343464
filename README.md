# WorkerNode server core in Dafny

This project models the core of the WorkerNode server, `AsyncServerSocket` with its `NodeManager` identity record. A node listens for clients. Each client sends length-prefixed frames, and the node answers every frame with the request text followed by `" from <node name>"`, framed in the same way. The model covers five parts:

- **Frame codec** (`frame_codec.dfy`, module `FrameCodec`). `prependLenBytes` narrows the payload length to a Java `short` and writes a 2-byte big-endian header. The reader decodes that header with `ByteBuffer.getShort` as a signed short, so a usable payload has 0..32767 bytes. The `(short)` cast is modelled exactly (`Java.ToShort`). So are the exceptions it causes.
- **Frame reader** (`frame_reader.dfy`, module `FrameReader`). The completion-handler chain is modelled as states plus a step function over read completions. The states are `AwaitingLength`, `AwaitingBody(n)`, `Disconnected` and `Halted`. A completion is the bytes transferred, end of stream (`completed(-1)`) or `failed`. Each step returns the next state and the handler's effects, in the order the handler performs them. There is one read per phase, as in the code.
- **Response transform** (`dispatcher.dfy`, module `Dispatcher`). `handleRequest` builds `request + " from " + name` and frames it. A framing exception means nothing is written.
- **Connection registry and handlers** (`server.dfy`, module `Server`; list facts in `client_list.dfy`, module `ClientList`). `AsyncServerSocket` is a class whose `connectedClients` field is a `seq`. `notifyConnect` appends. `notifyDisconnect` runs the source's index loop with `break` and removes the first equal entry. The accept and read completion handlers are methods on the class.
- **Node identity** (`node_manager.dfy`, module `Node`). `NodeManager` is an immutable datatype.

Modelling conventions:

- A Java `byte` is its unsigned bit pattern (`Java.byte`, 0..255).
- A channel is an opaque `Channel` value compared by identity. A `null` channel is `None`.
- The platform charset is taken to be US-ASCII. Decoding maps a byte of 128 or more to U+FFFD, and encoding writes `?` for a character it cannot map. So ASCII text passes through `new String(bytes).getBytes()` unchanged (`Dispatcher.AsciiRoundTrip`).
- I/O results are parameters. Examples are the bytes a read delivered and whether `getRemoteAddress` succeeded.

The model records these behaviours of the code, which a reader might not expect from a length-prefixed protocol:

- The header is decoded as a signed short, not an unsigned one. A header with its high bit set makes `ByteBuffer.allocate` throw, and the reader halts with no read pending (`FrameReader.LengthPhase`).
- Partial reads are not accumulated. A 0- or 1-byte length read makes `getShort` underflow (the reader halts). A short body read dispatches the whole buffer, with a zero tail. The body's remaining bytes are then read as the next header (`FrameReader.BodyPhase`, `FrameReader.SplitBodyIsNotReassembled`).
- An empty frame (length 0) is dispatched. Only `-1` means end of stream.
- The registry is a list that allows duplicates and removes by an equality scan. It is not a map keyed by a connection id.
- A failed accept is only logged. The next accept is not armed (`Server.AcceptFailed`).
- `handleRequest` runs in the read completion handler, not on the worker pool. Only the body read is submitted to the pool.
- For node "A" and request "hello", the reply is the header `00 0C` (12 bytes of payload) followed by "hello from A" (`Dispatcher.HelloFromA`).

`Dispatcher.HandleRequest` frames with `FrameCodec.PrependLenBytes` as written, so it also writes the truncated frames described under Findings. The corrected `FrameCodec.EncodeFrame` agrees with it for every response shorter than 65536 bytes (`FrameCodec.EncodeFrameAgrees`). A request holds at most 32767 bytes, so the two can differ only for a node name longer than about 32760 characters.

## Model

| member | source | states |
|---|---|---|
| `Java.ToShort` | src/com/workernode/AsyncServerSocket.java:170 | `(short) n` is the unique value in -32768..32767 congruent to n modulo 65536, and it is n itself for 0..32767 |
| `Java.ToByte` | src/com/workernode/AsyncServerSocket.java:172-173 | `(byte) n` keeps n modulo 256, and is n itself for 0..255 |
| `FrameCodec.GetShort` | src/com/workernode/AsyncServerSocket.java:113 | the header decodes big-endian and signed: the result is negative exactly when the first byte's high bit is set, and is 256·hi + lo otherwise |
| `FrameCodec.Header` | src/com/workernode/AsyncServerSocket.java:172-173 | the header written for a length 0..32767 has two bytes, and `getShort` decodes it back to that length |
| `FrameCodec.HeaderOfDecodedLength` | src/com/workernode/AsyncServerSocket.java:113 | every header that decodes to a non-negative length is exactly the header written for that length |
| `FrameCodec.PrependLenBytes` | src/com/workernode/AsyncServerSocket.java:169-176 | as written: it succeeds exactly when `(short) |data|` is non-negative; for up to 32767 bytes it returns the header followed by all of `data`; for 32768..65535 bytes it throws; on success the output has `(short) |data|` + 2 bytes and decodes as a frame whose payload is the first `(short) |data|` bytes of `data` |
| `FrameCodec.DecodeFrame` | src/com/workernode/AsyncServerSocket.java:110-114 | a whole frame decodes only if its header is a non-negative length equal to the number of bytes that follow, and then it yields exactly those bytes |
| `FrameCodec.EncodeFrame` | src/com/workernode/AsyncServerSocket.java:169-176 | corrected framing: it succeeds exactly for payloads of at most 32767 bytes, adds 2 bytes, and `DecodeFrame` of the frame returns the payload |
| `FrameCodec.EncodeDecodedFrame` | src/com/workernode/AsyncServerSocket.java:169-176 | every decodable frame is re-encoded to itself: encoding and decoding are inverse in both directions |
| `FrameCodec.EncodeFrameAgrees` | src/com/workernode/AsyncServerSocket.java:169-176 | below 65536 bytes the corrected framing and `prependLenBytes` return the same frame or both fail |
| `FrameCodec.PrependLenBytesTruncates` | src/com/workernode/AsyncServerSocket.java:170-174 | for every payload of 65536 + k bytes with k ≤ 32767, `prependLenBytes` returns a valid frame carrying only the first k bytes, which is not the payload |
| `FrameReader.FilledBuffer` | src/com/workernode/AsyncServerSocket.java:136-140 | the array handed on after a read has exactly the allocated size, starts with the bytes read, and is zero after them |
| `FrameReader.Step` | src/com/workernode/AsyncServerSocket.java:96-141 | a completion disconnects exactly when it is end of stream or a failure, and `notifyDisconnect` is called exactly then; a step that leaves a read pending arms exactly that read, as its first effect, and arms nothing else; a step that leaves no read pending arms none |
| `FrameReader.LengthPhase` | src/com/workernode/AsyncServerSocket.java:105-117 | a 2-byte header with the high bit clear leads to a body read of exactly the decoded length; a short read throws `BufferUnderflowException`; a negative length throws `IllegalArgumentException`; both halt the reader without a disconnect |
| `FrameReader.BodyPhase` | src/com/workernode/AsyncServerSocket.java:129-141 | any body completion other than -1, an empty one included, first re-arms the length read and then dispatches the whole buffer: the bytes read followed by zeros up to the allocated length |
| `FrameReader.FrameRoundTrip` | src/com/workernode/AsyncServerSocket.java:83-141 | a frame encoded for a payload of at most 32767 bytes, read as one header read and one body read, arms the body read, re-arms the length read and dispatches exactly the payload |
| `FrameReader.SplitBodyIsNotReassembled` | src/com/workernode/AsyncServerSocket.java:83-141 | "hello" delivered as header, "he", "llo" dispatches "he" padded with zeros, and then takes "ll" as a 27756-byte length |
| `Dispatcher.DecodeAscii` | src/com/workernode/AsyncServerSocket.java:149 | `new String(bytes)` gives one character per byte: the same code for ASCII bytes and U+FFFD for the others |
| `Dispatcher.EncodeAscii` | src/com/workernode/AsyncServerSocket.java:150 | `getBytes()` gives one byte per character: the same code for ASCII characters and `?` for the others |
| `Dispatcher.AsciiRoundTrip` | src/com/workernode/AsyncServerSocket.java:149-150 | ASCII request bytes come back from decode-then-encode unchanged |
| `Dispatcher.ResponseBytes` | src/com/workernode/AsyncServerSocket.java:149-150 | the response is |request| + 6 + |name| bytes: the request (unchanged when ASCII), then `" from "`, then the name (unchanged when ASCII) |
| `Dispatcher.HandleRequest` | src/com/workernode/AsyncServerSocket.java:144-167 | framing is `prependLenBytes`: a frame is written exactly when `(short)` of the response length is non-negative, and otherwise the exception is swallowed and nothing is written. A response of at most 32767 bytes is written whole, as a frame of |request| + 6 + |name| + 2 bytes that decodes to it. One of 32768..65535 bytes is not written. Any written frame decodes to the first `(short)` length bytes of the response |
| `Dispatcher.HelloFromA` | src/com/workernode/AsyncServerSocket.java:144-167 | node "A" answers "hello" with `00 0C` followed by "hello from A" |
| `Node.GettersReturnConstructorArguments` | src/com/workernode/NodeManager.java:8-24 | `getNodeName`, `getNodeIp` and `getNodePort` return the name, ip and port passed to the constructor |
| `Node.GettersDetermineNode` | src/com/workernode/NodeManager.java:4-24 | the three getters expose the whole record: two nodes that agree on them are equal |
| `ClientList.RemoveFirst` | src/com/workernode/AsyncServerSocket.java:194 | `remove(Object)` shortens the list by one exactly when the element is present |
| `ClientList.RemoveFirstMultiset` | src/com/workernode/AsyncServerSocket.java:194 | `remove(Object)` takes exactly one copy of the element out of the list's contents, and nothing else |
| `ClientList.FirstIndex` | src/com/workernode/AsyncServerSocket.java:192-193 | the scan stops at an index holding the channel, and no earlier index holds it |
| `ClientList.RemoveFirstAt` | src/com/workernode/AsyncServerSocket.java:191-197 | the entry removed is the first equal one; the entries before and after it keep their relative order |
| `ClientList.RemoveFirstAbsent` | src/com/workernode/AsyncServerSocket.java:191-198 | removing an absent channel leaves the list as it was |
| `ClientList.RemoveFirstDistinct` | src/com/workernode/AsyncServerSocket.java:186-199 | in a list without duplicates, a removal keeps it duplicate-free and leaves no copy of the channel |
| `ClientList.AppendFreshDistinct` | src/com/workernode/AsyncServerSocket.java:183 | appending a channel that is not present keeps the list duplicate-free |
| `ClientList.RemoveAppended` | src/com/workernode/AsyncServerSocket.java:179-199 | connecting a new channel and then disconnecting it restores the list |
| `Server.AcceptFailed` | src/com/workernode/AsyncServerSocket.java:77-80 | a failed accept re-arms no accept, registers no client and starts no read |
| `Server.AsyncServerSocket.constructor` | src/com/workernode/AsyncServerSocket.java:23-29 | a new server holds its node and an empty client list |
| `Server.AsyncServerSocket.NotifyConnect` | src/com/workernode/AsyncServerSocket.java:179-184 | a null channel throws `IOException` and leaves the list unchanged; otherwise the channel is appended at the end with no duplicate check, and a fresh channel keeps the list duplicate-free |
| `Server.AsyncServerSocket.NotifyDisconnect` | src/com/workernode/AsyncServerSocket.java:186-199 | the list loses its first entry equal to the channel, and nothing else; a null or absent channel changes nothing; a duplicate-free list stays duplicate-free and no longer holds the channel |
| `Server.AsyncServerSocket.AcceptCompleted` | src/com/workernode/AsyncServerSocket.java:58-75 | the next accept is armed first. Then a null client throws `NullPointerException` at `getRemoteAddress`, and an address failure is caught. Otherwise the client is appended to the list and its reader starts waiting for a length |
| `Server.AsyncServerSocket.ReadCompleted` | src/com/workernode/AsyncServerSocket.java:96-142 | the reader steps. The client is removed from the list exactly when the step disconnects. A completed body read writes back what `handleRequest` writes for the whole buffer |

## Findings

| source | as written | input that shows it | evidently intended | confidence | as-written member | corrected member |
|---|---|---|---|---|---|---|
| src/com/workernode/AsyncServerSocket.java:170-174 | `(short) data.length` keeps only the low 16 bits, so a payload of 65536 + k bytes (0 ≤ k ≤ 32767) is sent as a valid frame of its first k bytes, and the rest is dropped without an exception | a 65541-byte response is framed as 5 bytes | refuse every payload over 32767 bytes, as lengths 32768..65535 already are, so that no frame ever carries less than its payload | medium (needs a node name of about 32760 characters or more); not executed | `FrameCodec.PrependLenBytesTruncates` | `FrameCodec.EncodeFrame` |

`Dispatcher.HandleRequest` keeps the code's framing. `FrameCodec.EncodeFrame` is the corrected framing, and its round trip is proved (`FrameCodec.EncodeDecodedFrame`).

## Left out

- Socket I/O is left out: opening and binding the server channel (`run`), `accept`, `read` and `write`. Read completions are inputs to `FrameReader.Step`, and `getRemoteAddress` success is an input to `AcceptCompleted`. A bind failure is only logged, and no node state depends on it.
- The write of the response frame is not modelled. `HandleRequest` returns the frame to be written. Its asynchronous completion is outside the model, and so is the exception a second write throws while one is pending (the catch block swallows it). The `synchronized` block around it is concurrency.
- The thread pool is left out. The body read is submitted to it, and the model treats that as arming the read at once. An exception thrown inside that task is not modelled.
- All console logging and `printStackTrace` are left out.
- Each completion handler is modelled as one atomic step. `connectedClients` is an unsynchronized `ArrayList`. `notifyConnect` changes it on the accept thread, and `notifyDisconnect` changes it on read-completion threads. Races between them are not captured: a lost `add`, or `get(i)` throwing after another thread shrinks the list below the size read at line 191.
- `Halted`: the model records that a completion handler threw and no read is pending. What the channel group does with the uncaught exception is not modelled.
- Platform charsets other than US-ASCII are left out. Under UTF-8, well-formed multi-byte sequences pass through `new String(bytes).getBytes()` unchanged. A malformed byte becomes the 3-byte replacement sequence `EF BF BD`, so the response can be longer than the request plus name.
- `Main.java` is not part of this model. Its interactive prompt is console I/O, and its start-up loop is a race between a thread pool and a concurrent map.
