# Shadowsocks wire protocol in Dafny

This project models the protocol core of go-shadowsocks2 and proves what its layers promise each other:

- **AEAD streams** (`Bytes`, `Aead`, `Records`, `Reading`, `Chunking`, `AeadStream`, `AeadConn`, `Duplex`):
  the record format as pure functions (`Wire`, `DecodeAll`), the writer and reader as classes that seal and open
  in place in one shared buffer and bump a little-endian nonce, the connection that sends and reads its salt at
  first use, and a state machine of both ends over a channel that fragments as it likes.
- **Stream ciphers** (`StreamCipher`, `ShadowStream`): `XORKeyStream` as a byte-wise machine, CTR and CFB as
  instances, readers and writers that chunk independently, and the merged first write of `conn.ReadFrom`.
- **Datagrams** (`Datagram`, `StreamDatagram`, `SharedConn`): packing, unpacking in place with the overlapping copy,
  and any number of callers that share one send buffer under a lock.
- **SOCKS** (`Socks`, `Tunnel`): the address code with its two decoders, the handshake over one buffer, and the TCP
  tunnel from the client's target to the server's copy.
- **UDP relay** (`Nat`, `Udp`): the NAT table with its listener and copiers in every interleaving, and what both ends
  put in front of a payload and take off again.
- **Websocket packets** (`WebSocket`): the registry, the reader loops and the hand-over to `ReadFrom`.

Objects that the source updates in place are classes; each of their methods is proved against a pure function, and
the protocol theorems are lemmas about those functions. Concurrent parts are state machines whose steps are the
source's atomic steps, and their theorems hold in every reachable state.

## Assumptions

- An AEAD (`Aead.AEAD`) is a pair of functions with a fixed positive tag length such that opening undoes sealing.
  Authenticity is a hypothesis of the theorems that need it: `Records.Unforged` says of one run that whatever was
  opened had been sealed by the writer under the same nonce, and `Datagram.Unforged` of one packet that if it opens, a
  packing under its salt had sealed it. `Aead.NonceTaggedLawful` and `Aead.NonceTaggedBinds` show
  that the laws have an instance in which nonces matter, `Records.HonestIsUnforged` and
  `Datagram.PackedIsUnforged` that the hypotheses hold of what was sent.
- Salts, initialisation vectors and the result of key derivation are parameters; so is a failing random generator.
- The payload mask is 2^k - 1 with k <= 16 and at least 2, and salt and vector fit the buffers they are put into. The
  setters permit other values; `Bytes.MaskExact` says which masks keep the length field intact.
- `Encrypter` and `Decrypter` of a stream cipher copy the vector they are given: in the source it lies in the buffer
  that the first read overwrites (`shadowstream/stream.go:110-115`, `140-148`, `170-178`).
- Sources keep reporting their final error, and may report it along with the last bytes. A sink that writes less than
  it was given reports an error. `io.ReadFull`, `bytes.Buffer` and the sockets are modelled by these contracts.

## Where the code does less than one would expect

The named members prove these, with the exact condition where there is one:

- A reader whose read was starved after k bytes of the stream, by a deadline say, has lost them: the record comes out of
  the next read exactly if k = 0 (`Reading.RetryDelivers`). Short of a whole sealed header at least nothing but the
  record due can come out if nothing was forged; from there to before the end of a sealed payload of two bytes other
  bytes can, and do so on the writer's own undisturbed stream, where the sealed payload then passes for a header
  (`Reading.RetrySafeExact`, `Reading.RetrySlips`). An opening that failed has moved the nonce (`Reading.FailedOpeningSlips`, `Reading.InStepExact`). Hence the prefix theorems speak of
  calls up to the first error.
- A session is safe for exactly as many records as there are pairs of nonces, less one (`Records.WrapExact`); after
  256^n operations the whole stream can be replayed (`Records.WrapReplays`).
- A stream that is cut right after a sealed header ends as cleanly as one cut at a record boundary
  (`Records.CutStream`).
- `shadowaead/doc.go:17-18` says that the two high bits of the length must be zero; the reader accepts any header and
  takes its value modulo the mask plus one (`Records.HighBitsIgnored`, `Bytes.MaskedMod`).
- The merged `conn.ReadFrom` of the stream ciphers does what the plain path does exactly if its first read gives at
  least one byte and no error (`ShadowStream.MergedExact`); otherwise the vector is never sent.
- The stream-cipher reader drops bytes that come along with an error: everything is delivered exactly unless the source
  reports its final error together with last bytes (`ShadowStream.DecryptAllExact`, `ShadowStream.ChunkingIndependent`,
  `ShadowStream.ConnCarries`).
- When the sink of the AEAD reader's `WriteTo` fails on a record, what it did not take of that record is lost, and no
  more (`AeadStream.Reader.WriteTo`, `Reading.CutShortConserves`).
- Whenever the UDP listener has just set an entry, it can come to be about to send on a closed socket
  (`Nat.LateForward`); the socket is closed exactly if its copier is done (`Nat.SendingExact`).
- The SOCKS UDP listener does not look at the FRAG byte, although section 7 of RFC 1928 wants fragments dropped by who
  does not reassemble them: what is sent depends on the bytes behind the third only (`Udp.SocksForward`). It panics
  exactly if it is sent fewer than three bytes (`Udp.SocksListener`).
- A copier of the server panics on a reply that together with its source address exceeds the buffer, as the largest
  ones over IPv6 do (`Udp.TimedCopy`, `Udp.ReplyRoom`, `Udp.LargestReplyOverflows`). A reply that the packet connection
  refuses, for instance because it exceeds the send buffer (4096 bytes unless set), ends the copier.
- The `break` in the websocket reader loop leaves only the select, so the loop reads on after the context was cancelled
  and drops what it reads (`WebSocket.DropsReadOn`, `WebSocket.CancelledReadsOn`).

## Model

| member | source | states |
|---|---|---|
| Bytes.MaskedLength | shadowaead/stream.go:109-112 | whatever the mask and the decrypted header, the payload length is at most the mask, so the payload slice stays inside the reader's buffer |
| Bytes.MaskRoundTrip | shadowaead/stream.go:49 | a length up to the mask comes back from the big-endian field |
| Bytes.MaskExact | shadowaead/var.go:4-9 | every length up to m survives the field exactly if m = 2^k - 1 with k <= 16 |
| Bytes.MaskedMod | shadowaead/stream.go:109 | of any header the reader takes the value modulo m + 1, which is the header's own value exactly if that is at most m |
| Bytes.AndBits | shadowaead/stream.go:109 | the conjunction that masks the length sets exactly the bits that are set in both |
| Bytes.Increment | shadowaead/stream.go:181-189 | the in-place loop computes the carry function |
| Bytes.BumpAddsOne | shadowaead/stream.go:181-189 | that function adds one modulo 256^len to the little-endian value |
| Bytes.NonceCounts | shadowaead/doc.go:18-20 | after i operations the nonce is i modulo 256^len |
| Bytes.NoncePeriod | shadowaead/stream.go:181-189 | two counts share a nonce exactly if they agree modulo 256^len |
| Bytes.NoncesFresh | shadowaead/stream.go:50-54 | the first n nonces are pairwise different exactly if n <= 256^len |
| Records.RecordReads | shadowaead/stream.go:47-54 | one sealed record is read back whole, leaves what follows it, and costs the reader two operations |
| Records.HighBitsIgnored | shadowaead/stream.go:103-124 | a sealed header with its high bits set is accepted, and the payload is read as long as the low bits say |
| Records.WireReads | shadowaead/stream.go:95-125 | reading what was written gives the chunks and then decodes whatever follows, at operation count 2r after r records |
| Records.WireDecodes | shadowaead/stream.go:39-72 | an undisturbed stream decodes to the chunks and ends cleanly with nothing left |
| Records.WireLength | shadowaead/stream.go:47-56 | the wire has the plaintext and two bytes and two tags for every record |
| Records.CutStream | shadowaead/stream.go:95-125 | a cut stream yields exactly the payloads of the records before the cut; it ends with the source's own error, or with EOF at a record boundary or after a sealed header and else unexpected EOF |
| Records.EveryCut | shadowaead/stream.go:147-179 | every cut of a stream is of that form |
| Records.NextIsInOrder | shadowaead/stream.go:95-125 | if nothing was forged, a reader in step can only read the writer's next record |
| Records.DecodedIsPrefix | shadowaead/stream.go:95-179 | whatever bytes are on the wire, the records that decode are a prefix of the writer's: none dropped, repeated, reordered or altered |
| Records.HonestIsUnforged | shadowaead/stream.go:39-72 | the authenticity hypothesis holds of the writer's own output |
| Records.WrapReplays | shadowaead/stream.go:181-189 | at exactly 256^n operations the whole stream decodes a second time though nothing was forged |
| Records.WrapExact | shadowaead/stream.go:181-189 | for every number n of records: whatever the chunks and the wire, nothing but a prefix decodes without forgery, exactly if 2n < 256^len |
| Reading.ReadConserves | shadowaead/stream.go:127-142 | a Read fails exactly when nothing is available, and then with how the stream ends; else it takes bytes from the front, filling the buffer or emptying the leftover |
| Reading.RunConserves | shadowaead/stream.go:128-179 | for any bytes and any mix of Read and WriteTo, delivered and still available bytes are together what was available, in order, and the caller is told how the stream ends |
| Reading.WriteToCut | shadowaead/stream.go:147-179 | over a stream cut anywhere inside its k-th record WriteTo emits the k records before, and returns the source's error, or nil at the two clean places, or unexpected EOF |
| Reading.WriteToEnds | shadowaead/stream.go:169-175 | over every cut WriteTo returns nil exactly at a record boundary or behind a whole sealed header, and else unexpected EOF |
| Reading.ForgeryReported | shadowaead/stream.go:103-122 | records and then a header or payload that does not open: every mix of calls delivers exactly the records, and the failed opening is reported |
| Reading.RunEnds | shadowaead/stream.go:147-179 | a mix of calls that ends with WriteTo gets to the end of the stream |
| Reading.DeliveredIsPrefix | shadowaead/stream.go:95-179 | before the nonce wraps and if nothing was forged, any mix of calls up to the first error delivers a prefix of the writer's plaintext |
| Reading.HonestRunDeliversAll | shadowaead/stream.go:128-179 | on an undisturbed stream a mix of calls that reaches the end delivers all of the plaintext |
| Reading.FillTakes | shadowaead/stream.go:128-142 | a caller of io.ReadFull on the reader gets exactly the next n plaintext bytes, or all of them and the error that io.ReadFull makes of the stream's |
| Reading.InStepExact | shadowaead/stream.go:95-125 | only at operation count 2r is the next record to decode sure to be record r |
| Reading.FailedOpeningSlips | shadowaead/stream.go:103-119 | a failed read that got a whole sealed header leaves the reader at a count at which the next record to decode need not be the one due |
| Reading.RetrySafeExact | shadowaead/stream.go:95-125 | over one stream of which a read found only k bytes: whatever comes out of the read after it is the record due, if nothing was forged, exactly unless k lies from the end of the sealed header to before the end of a sealed payload of two bytes |
| Reading.RetrySlips | shadowaead/stream.go:95-125 | for each such k a stream on which other bytes come out though nothing was forged; with k at the end of the header it is the writer's own |
| Reading.RetryDelivers | shadowaead/stream.go:95-125 | the record that the read was starved of comes out of the next one, whatever follows it, exactly if the first had taken no byte |
| Reading.WriteToIsReads | shadowaead/stream.go:144-179 | WriteTo delivers and leaves what reads into a buffer of at least the mask do when repeated to the end |
| Reading.CutShortConserves | shadowaead/stream.go:147-179 | a WriteTo whose sink failed loses the tail of one record and nothing else |
| Chunking.ChunksKeep | shadowaead/stream.go:39-45 | the chunks of any source are non-empty, at most the mask long, and concatenate to what it delivers |
| Chunking.BufferedChunks | shadowaead/stream.go:30-34 | a slice of n bytes is cut into ceil(n / m) chunks, all full but perhaps the last |
| AeadStream.SealRecord | shadowaead/stream.go:47-54 | sealing length and payload in place in one buffer gives the record of operations c and c + 1 |
| AeadStream.Writer.ReadFrom | shadowaead/stream.go:36-72 | the sink gets the records of the source's non-empty reads and n is their length; on a failed write everything before that record is out, nothing after it was sealed, and the nonce has still moved on |
| AeadStream.Writer.Write | shadowaead/stream.go:30-34 | the slice goes out as the records of its ceil(n / mask) chunks |
| AeadStream.Reader.ReadNext | shadowaead/stream.go:94-125 | one record is read, opened in place and left at the front of the buffer, only when nothing is left over there |
| AeadStream.Reader.Read | shadowaead/stream.go:127-142 | leftover bytes first, else the next record, of which the tail stays as the leftover slice of the same buffer |
| AeadStream.Reader.WriteTo | shadowaead/stream.go:144-179 | leftover and all later payloads go to the sink and a clean end is no error; a sink that fails on the leftover loses nothing, and one that fails on the k-th payload loses exactly the tail of it that was not taken |
| AeadConn.ConnDelivers | shadowaead/stream.go:198-264 | salt and records of an undisturbed sender are delivered completely by any reads followed by WriteTo |
| AeadConn.ConnDeliversPrefix | shadowaead/stream.go:198-229 | behind the sender's salt any bytes at all deliver no more than a prefix of the plaintext |
| AeadConn.ConnCut | shadowaead/stream.go:198-229 | a connection cut inside the salt reports it; behind the salt, WriteTo returns nil exactly at a record boundary or behind a whole sealed header |
| AeadConn.NoSession | shadowaead/stream.go:204-207 | a salt that no session comes of is used up and reported |
| AeadConn.StreamConn.InitReader | shadowaead/stream.go:198-211 | the salt is read and the session derived; a short salt or a failed derivation leaves no reader |
| AeadConn.StreamConn.Read | shadowaead/stream.go:213-220 | the first read is preceded by that of the salt, with its errors |
| AeadConn.StreamConn.WriteTo | shadowaead/stream.go:222-229 | the same for copying everything, and what is lost and left when the sink fails |
| AeadConn.StreamConn.InitWriter | shadowaead/stream.go:231-246 | a writer exists exactly if the salt is out and the session derived from it; which error is returned otherwise, and that no more than a part of the salt is out |
| AeadConn.StreamConn.Write | shadowaead/stream.go:248-255 | unless a write failed, a receiver of all that was put on the wire delivers all that was given, over any number of writes; the salt goes out once, before the first record; if a write fails, a prefix of salt and records is out |
| AeadConn.StreamConn.ReadFrom | shadowaead/stream.go:257-264 | the same for a whole source, and n and the error are the source's |
| Duplex.NextKeeps | shadowaead/stream.go:95-142 | every step of a writer, of the channel or of a reader keeps the invariant of its direction |
| Duplex.Safety | shadowaead/stream.go:128-264 | in every state of every interleaving of sends, pulls and reads, in each direction: nothing fails to open, and sent = delivered ++ leftover ++ what the bytes in flight decode to |
| Duplex.QuietMeansDelivered | shadowaead/stream.go:128-142 | with an empty channel everything sent is delivered or left over |
| Duplex.NeverStuck | shadowaead/stream.go:95-142 | while something sent is not out, a read can be served from the leftover or from the next byte of the channel |
| Duplex.PullsRefineRead | shadowaead/stream.go:95-142 | a whole header and a whole payload arriving is one Read |
| Duplex.PullTwice | shadowaead/stream.go:98-113 | two pieces within a header or payload are as good as one |
| Duplex.AnyPullsRead | shadowaead/stream.go:95-142 | a record that arrives in pieces of any sizes is one Read of the reader |
| Duplex.DrainIsRead | shadowaead/stream.go:130-134 | a read that is served from the leftover is the reader's |
| Duplex.AnyPullsBegin | shadowaead/stream.go:198-211 | a salt that arrives in pieces of any sizes is initReader, with its failure |
| Duplex.SendsAreWrites | shadowaead/stream.go:231-264 | the sender's steps put the salt at first use and then the records of the chunks on the channel, which is what AeadConn.StreamConn.Write and ReadFrom promise to put on the wire |
| StreamCipher.RunAppend | shadowstream/stream.go:22-44 | ciphering piece by piece is ciphering the concatenation |
| StreamCipher.DecryptsEncrypted | shadowstream/cipher.go:12-17 | the decrypting stream undoes the encrypting one for the same vector |
| StreamCipher.CtrUndoes | shadowstream/cipher.go:28-30 | the CTR machine undoes itself |
| Bytes.XorBits | shadowstream/cipher.go:28-30 | a bit of the masked byte is set exactly if it is set in one of plaintext and keystream |
| StreamCipher.CtrIsStandard | shadowstream/cipher.go:30 | byte k is masked with byte k mod b of the image of counter block k div b, as in section 6.5 of NIST SP 800-38A |
| StreamCipher.CounterCounts | shadowstream/cipher.go:30 | counter block j is the vector plus j modulo 256^size |
| StreamCipher.CfbUndoes | shadowstream/cipher.go:43-45 | the CFB decrypting machine undoes the encrypting one |
| StreamCipher.CfbIsStandard | shadowstream/cipher.go:45 | the byte-wise machine is the block-wise definition of section 6.3 of NIST SP 800-38A |
| ShadowStream.Stream.XORKeyStream | shadowstream/stream.go:29 | in place, the slice becomes its image under the machine and the state advances by it |
| ShadowStream.Writer.ReadFrom | shadowstream/stream.go:22-44 | everything the source delivers goes out encrypted as one stream however it was cut; after a failed write a prefix of it |
| ShadowStream.Reader.Read | shadowstream/stream.go:62-71 | one read of the connection is decrypted in the caller's buffer; with an error, nothing |
| ShadowStream.Reader.WriteTo | shadowstream/stream.go:73-94 | everything that arrives without an error goes out decrypted as one stream |
| ShadowStream.DecryptAllExact | shadowstream/stream.go:62-94 | that is the whole decrypted stream exactly unless the source reports its final error together with last bytes |
| ShadowStream.ReadManyDecrypts | shadowstream/stream.go:62-71 | reads into buffers of any sizes deliver a prefix of the decrypted stream, at the end all of it but the dropped bytes, of which there are none exactly unless the source ends that way |
| ShadowStream.ChunkingIndependent | shadowstream/stream.go:22-94 | for any cutting by writer, network and readers the reads give a prefix of the plaintext, at the end all of it exactly unless the source reports its final error together with last bytes |
| ShadowStream.ConnCarries | shadowstream/stream.go:108-160 | from one connection to the other, vector included: any writes, fragments and buffers, reading piecewise or copying, with the same exact condition |
| ShadowStream.MergedExact | shadowstream/stream.go:162-216 | the merged path and the plain one put the same bytes on the wire and report the same exactly if the first read gives a byte and no error |
| ShadowStream.TransfersCarry | shadowstream/stream.go:138-216 | what a receiver makes of each: both carry the source with its own error, if the first read was good; else the merged one sends nothing, or all but the vector; a later transfer continues the stream |
| ShadowStream.Conn.InitReader | shadowstream/stream.go:108-118 | the vector is read and starts the decrypting stream |
| ShadowStream.Conn.Read | shadowstream/stream.go:120-127 | the first read is preceded by that of the vector; then exactly the next fragment, or what of it fits, is decrypted |
| ShadowStream.Conn.WriteTo | shadowstream/stream.go:129-136 | everything that arrives behind the vector without an error goes out decrypted; if the sink fails, a prefix of it |
| ShadowStream.Conn.InitWriter | shadowstream/stream.go:138-151 | a writer exists exactly if the generator gave a vector and it is out |
| ShadowStream.Conn.Write | shadowstream/stream.go:153-160 | the vector goes out once, before the first bytes; if a write fails, a prefix of both |
| ShadowStream.Conn.FirstRead | shadowstream/stream.go:168-192 | one read goes out along with the vector; without a byte or with an error nothing does, and the writer is set all the same |
| ShadowStream.Conn.ReadFrom | shadowstream/stream.go:162-216 | the wire, the count and the error are those of the merged transfer, or of the plain one on a connection that has sent before; if a write fails, a prefix of that wire |
| Datagram.PackShort | shadowaead/packet.go:31-33 | short-buffer exactly if salt, payload and tag exceed the buffer, and else a packet of that size |
| Datagram.PackFails | shadowaead/packet.go:22-29 | without a salt or a session nothing is packed, and each has its own error |
| Datagram.PacketFormat | shadowaead/doc.go:23-30 | a packet is the salt and then the payload sealed under a nonce of zeros |
| Datagram.PackRoundTrip | shadowaead/packet.go:16-58 | unpacking what was packed gives the payload |
| Datagram.UnpackExact | shadowaead/packet.go:38-58 | which packets are too short, have no session, exceed the buffer, do not open, or are delivered, and as what |
| Datagram.OnlyPacked | shadowaead/packet.go:38-58 | whatever arrives, what is delivered is the payload of a packing and what arrived is its packet, if nothing was forged |
| Datagram.PackedIsUnforged | shadowaead/packet.go:16-36 | that hypothesis holds of every packet that was packed |
| Datagram.PackInto | shadowaead/packet.go:16-36 | the buffer's front is the packet of the pure definition, with the same errors |
| Datagram.ReadFrom | shadowaead/packet.go:84-96 | decrypting at the salt's offset and copying down over itself is the pure Unpack, and never short of buffer |
| Datagram.CopyWithin | shadowaead/packet.go:94 | the overlapping copy moves the old contents, in either direction |
| Datagram.Delivered | shadowaead/packet.go:73-96 | what one side packs the other delivers, whenever the packet fits both buffers |
| StreamDatagram.StreamPackRoundTrip | shadowstream/packet.go:14-44 | unpacking what was packed gives the payload |
| StreamDatagram.StreamPackExact | shadowstream/packet.go:14-29 | short-buffer exactly if vector and payload exceed the buffer, else a packet of that size unless there is no vector |
| StreamDatagram.StreamUnpackExact | shadowstream/packet.go:31-44 | every packet with a whole vector that fits is delivered, authentic or not |
| StreamDatagram.StreamDelivered | shadowstream/packet.go:58-80 | what one side packs the other delivers, whenever the packet fits both buffers |
| StreamDatagram.StreamPackInto | shadowstream/packet.go:14-29 | the buffer's front is vector and encrypted payload |
| StreamDatagram.StreamReadFrom | shadowstream/packet.go:69-80 | decrypting behind the vector and copying down is the pure Unpack |
| SharedConn.EveryDatagramIsOneCalls | shadowaead/packet.go:72-82 | however callers interleave on the one buffer, every datagram is the packing of one call's payload to its address, none is sent twice, and a call reports success exactly if its datagram is out |
| SharedConn.ShortExactly | shadowaead/packet.go:31-33 | in every run, with working randomness, a call that returned got short-buffer exactly if its packet does not fit |
| SharedConn.AcceptedIsOut | shadowaead/packet.go:73-82 | in every run, a send that the network accepts puts this call's packing out and the call returns success; one that it refuses puts nothing out and is reported |
| SharedConn.HolderGoesOn | shadowaead/packet.go:74-81 | who holds the lock can always go on towards giving it back |
| SharedConn.CallGoesThrough | shadowaead/packet.go:73-82 | whenever the lock is free, a call whose packet fits can put it out and return |
| Socks.SplitIsPrefix | socks/socks.go:114-141 | what is split off is a well-formed address at the front of the input |
| Socks.AddressForms | socks/socks.go:114-141 | the well-formed addresses are the three forms of section 5 of RFC 1928, with their types and lengths |
| Socks.PrefixFree | socks/socks.go:114-141 | no address is a proper prefix of another |
| Socks.DecodersAgree | socks/socks.go:81-141 | reading succeeds with a exactly if splitting gives a, and leaves exactly the suffix |
| Socks.ReadAddr | socks/socks.go:81-107 | over any fragmentation the byte-by-byte reader gives that address, error and rest |
| Socks.AddrFails | socks/socks.go:81-107 | an unknown type is reported as such and only that byte is taken; else everything is taken, and the end is unexpected unless it comes between two reads |
| Socks.EncodeRoundTrip | socks/socks.go:144-178 | what is built for a host and port is a well-formed address, split off whatever follows it, and shows host and port again |
| Socks.EncodeLayout | socks/socks.go:144-178 | the layout of section 5 of RFC 1928 for each kind of host, and none for a name of more than 255 bytes |
| Socks.DecodeRoundTrip | socks/socks.go:54-79 | every well-formed address is the encoding of the host and port it shows |
| Socks.ParseAddr | socks/socks.go:143-178 | the buffer filled step by step is that encoding; nothing for a string that does not split, a long name or a bad port |
| Socks.RequestAnswered | socks/socks.go:180-223 | a well-formed request for a supported command is consumed exactly, answered after the method reply, and gives its own address |
| Socks.RequestRefused | socks/socks.go:205-220 | one for another command is consumed exactly and refused with only the method reply written |
| Socks.OnlyRequestsAnswered | socks/socks.go:180-223 | an address comes out of nothing else |
| Socks.CutRequestFails | socks/socks.go:184-204 | every proper prefix of a request ends in the source's error, which is an unexpected end of file exactly if it is not cut between two reads, with no more than the method reply written |
| Socks.UnknownAddressType | socks/socks.go:201-204 | a request with an unknown address type is refused once that byte is read |
| Socks.ClientUnderstands | socks/socks.go:192-219 | what a client reads of the replies by sections 3, 4 and 6 of RFC 1928: no authentication, then success with a bound address for CONNECT and UDP ASSOCIATE, and nothing more for any other command |
| Socks.Handshake | socks/socks.go:180-223 | over one reused buffer the handshake does just that: address, error, bytes left and bytes written; after a failed write, the error and that a prefix of the replies is out |
| Tunnel.TargetIsAddr | tcp.go:114-118 | reading the address through the decrypting reader consumes exactly the address, whatever is parked in the leftover, or fails as reading the plaintext would |
| Tunnel.TunnelCarries | tcp.go:76-129 | for any target and any chunking of the payload the server reads exactly the target and copies exactly the payload |
| Tunnel.TunnelCut | tcp.go:109-136 | of a client's stream that was cut the server copies what came whole, and is told of the cut except at the two clean places; without a whole target it connects nowhere |
| Tunnel.TunnelIsAuthentic | tcp.go:109-136 | whatever is done to the records, a server that connects connects to the client's target and copies a prefix of its payload |
| Nat.GetExact | udp.go:190-194 | in every reachable state, Get finds a socket for a peer exactly if its copier was started for that peer and has not run Del, or is about to be started; never a closed one |
| Nat.SetReplacesNothing | udp.go:196-201 | in every reachable state, Set, which does not look, replaces no entry, and no copier of that peer is left to run Del |
| Nat.NatMap.Del | udp.go:203-213 | the entry goes and is returned, or nothing |
| Nat.Perform | udp.go:190-224 | the steps of listener and copiers, performed with Get, Set and Del on the shared table, are those of the state machine |
| Nat.Play | udp.go:190-254 | so any run of them on a new table ends with the machine's table and its invariant |
| Nat.NextKeeps | udp.go:190-254 | every step of the listener and of any copier keeps the table's invariant |
| Nat.KnownPeerForwarded | udp.go:51-69 | a datagram of a peer with an entry is forwarded once, through that entry's socket, and nothing else changes |
| Nat.NewPeerForwarded | udp.go:57-69 | one of a peer without an entry is forwarded once, through a new socket whose copier reads |
| Nat.NoSocketDropped | udp.go:58-63 | one that no socket can be had for leaves no trace |
| Nat.ReplyAnswered | udp.go:230-252 | a reply goes to the copier's peer once; a refusal stops the copier, and else it reads on |
| Nat.CopierExpires | udp.go:218-222 | a copier that times out takes its own entry with it and closes its own socket, and nothing else changes |
| Nat.ForwardsExact | udp.go:50-74 | in every reachable state, forwards and the datagram in the listener's hands are the datagrams received, in order, but for those that no socket could be had for; and so counted |
| Nat.RepliesExact | udp.go:230-252 | in every reachable state, what was read from a socket was sent on once, unchanged and in order, but for a reply in its copier's hands |
| Nat.Safety | udp.go:215-224 | in every reachable state each entry belongs to one copier that has not run Del or to the one about to start, the peer that a copier captured is the one its socket was opened for, a Del that ran returned its own socket, no socket is closed twice, and forwards and replies stay with the socket's peer |
| Nat.DelTakesOwn | udp.go:220-222 | a copier's Del removes its own entry and never a successor's |
| Nat.NothingLeaks | udp.go:215-224 | once all copiers are done every socket ever opened is closed and the table is empty |
| Nat.SendingExact | udp.go:102-114 | before the listener's WriteTo the socket has a copier for this peer; it is in the table exactly if that copier has not run Del, and closed exactly if that copier is done |
| Nat.LateForward | udp.go:102-114 | every run in which an entry has just been set can go on so that the listener is about to send on a closed socket |
| Nat.FirstForward | udp.go:102-111 | such a run exists for every peer |
| Udp.Insert | udp.go:240-241 | shifting up over itself and copying in front gives address and payload |
| Udp.FrameInPlace | udp.go:237-248 | one round of a copier in each of its three roles, in one buffer |
| Udp.ReplyRoom | udp.go:238-242 | a reply is framed without a panic exactly if it is at most 65529 bytes behind an IPv4 source, or 65517 behind an IPv6 one |
| Udp.LargestReplyOverflows | udp.go:238-242 | the largest reply that UDP over IPv6 carries is not |
| Udp.TimedCopy | udp.go:227-254 | over any arrivals each packet is framed by itself though the buffer is reused; the copier panics exactly if a reply overflows the buffer before a packet was refused, and times out exactly if none does either |
| Udp.TunnelListener | udp.go:45-69 | the target written once stays in front of every datagram |
| Udp.SocksListener | udp.go:95-114 | the SOCKS listener panics exactly if it is sent fewer than three bytes, and until then encrypts what is behind the first three of each datagram |
| Udp.ServerRound | udp.go:136-155 | decrypting in place and splitting gives target and payload |
| Udp.Forward | udp.go:136-168 | a payload is sent exactly if it fits, and the server forwards exactly what is behind the address at its front |
| Udp.ForwardAuthentic | udp.go:136-168 | what the server forwards was packed by a client as that target and payload, if nothing was forged |
| Udp.ForgedNotForwarded | udp.go:137-141 | nothing is forwarded of a datagram that does not open |
| Udp.TunnelForward | udp.go:45-69 | the server sends exactly the user's payload to exactly the target |
| Udp.SocksForward | udp.go:95-114 | what the server sends and where is what stands behind the first three bytes, and nothing else is sent |
| Udp.ReplyPath | udp.go:237-248 | the reply body comes back bare to a tunnel, and to a SOCKS program behind the header of section 7 of RFC 1928 that names its source |
| Udp.ReturnAuthentic | udp.go:232-248 | what the client passes on is the frame of something the server packed, if nothing was forged |
| Udp.UnaddressedReply | udp.go:243-245 | a reply without an address at its front is passed on whole through a tunnel |
| WebSocket.ReadFrom | websocket/packetconn.go:129-143 | end of file once the context is done; else the packet's address, and its message whole or, if the buffer is too short, not at all |
| WebSocket.OneLoopPerAddress | websocket/packetconn.go:74-117 | at most one active reader loop per address, whose entry only its own Delete removes |
| WebSocket.HandleRegisters | websocket/packetconn.go:74-94 | a connection is registered, and its loop starts, exactly if its address has no entry |
| WebSocket.MessageHandedOver | websocket/packetconn.go:95-114 | a binary message can be handed to any ReadFrom, which returns it if its buffer is long enough; then the loop reads on |
| WebSocket.TextIgnored | websocket/packetconn.go:100-103 | any other message changes nothing |
| WebSocket.LoopEnds | websocket/packetconn.go:91-98 | a loop whose read fails takes its own entry with it and closes |
| WebSocket.ReturnedInOrder | websocket/packetconn.go:94-142 | what ReadFrom returned for a connection is a subsequence of its binary messages, and all of them exactly if none was too long or dropped |
| WebSocket.DropsReadOn | websocket/packetconn.go:94-114 | in every reachable state a message was dropped only after Close, and a loop that drops one is at reading again: only a failed read ends it |
| WebSocket.CancelledReadsOn | websocket/packetconn.go:109-114 | a run in which a loop reads and drops after the context was cancelled, and reads again |
| WebSocket.AllReturned | websocket/packetconn.go:109-142 | until Close, callers with long enough buffers lose nothing |

## Left out

- AeadConn.StreamConn.Write: once a write has failed it does not say how many records were sealed; AeadStream.Writer.ReadFrom does.
- AeadConn.StreamConn.ReadFrom: the same.
- Socks.Handshake: once a write to the client has failed it does not say what is left unread.
- Duplex.Safety: WriteTo is no step of its own; it is reads (Reading.WriteToIsReads), and a read is pulls in any pieces (Duplex.AnyPullsRead).
- Sources that report an error and later deliver more bytes: the class Source has none, and the theorems about reading on after a starved read are about the pure reader (Reading.Retried). A failed `io.ReadFull` says nothing about the buffer.
- Block ciphers, ChaCha20, Poly1305, HKDF, the key derivation of `core/cipher.go` and its table of ciphers: functions with stated laws, or leaving only easy members.
- ChaCha20 as a machine of its own: the stream theorems hold of any machine with an inverse.
- `net.ParseIP`, `net.SplitHostPort` and number parsing: Socks.ParseAddr starts from what they return.
- Sockets, dialling, name resolution, deadlines, logging, flags and the accept loops.
- Errors of the sockets in the UDP listeners, which only skip a datagram; timeouts are a step a copier may take at any time.
- The payloads in the NAT table's runs: Nat says which socket and peer, Udp what is sent.
- `relay` beyond the order of address and payload: its two directions share nothing but the connections.
- Websocket `WriteTo`, which looks an address up twice, deadlines and `Close` beyond cancelling the context.
- `clientlib`, which repeats `udp.go` and `relay`; its pool counter and lock are not modelled.
- `freconn`: counters without synchronisation.
