# heteroglossia: verified models of its carriers, rules and router

heteroglossia is a proxy. Most of what can go wrong in it goes wrong in byte streams: a
framing codec that must survive every fragmentation, a header that is peeked and put
back, a recycled buffer that is sealed in place. This project models those parts, the
rule index and router that decide where a connection goes, and the small protocols that
keep replays and unauthenticated streams out.

Code that changes state is modelled by classes and methods with the source's fields and
loops. Each such method is proved against functions on byte strings, rule lists or
states, and the guarantees are proved about those functions and about whole runs:

- **Shadowsocks 2022 streams** (`ShadowsocksWire`, `ShadowsocksHeaders`,
  `ShadowsocksCuts`, `ShadowsocksConn`, `ShadowsocksSession`, `ShadowsocksClient`).
  Whatever is written, however the wire is fragmented and wherever it is cut, the peer
  delivers exactly the payload of what arrived whole, and the end it reports is stated for
  every cut. This includes the sealing at computed offsets in recycled buffers, the two
  nonces, the salts, both read paths, and sessions that go both ways.
- **NaiveProxy padding** (`NaivePadding`). The resumable reader decodes what the writer
  frames, in any fragmentation; a wire cut inside a padded frame is told from a clean end.
- **Domain rules** (`DomainNames`, `DomainTrie`, `DomainMatcher`). The heap trie, with its
  early exits and shadowed subtrees, answers like the plain list of rules.
- **Salt pool and timestamp window** (`SaltPool`), timed, over whole runs: which calls
  are accepted is told from the times alone.
- **SunnyQUIC authentication** (`SunnyQuic`, `SunnyQuicClient`) as a transition system
  over all interleavings - who may still be served after any run and who is stuck, besides
  safety - and the client's 0-RTT resend.
- **Trojan, SOCKS5 and the preload connection** (`Trojan`, `SocksHandshake`,
  `SocksAddress`, `PreloadConn`). No byte is lost, duplicated or reordered.
- **Router** (`Router`), **IP rules** (`IpRules`), **weighted picker** (`WeightedPicker`).

`Arith`, `Bytes`, `Buffers` and `Streams` hold what these share. `Streams.Reader` and
`Streams.Writer` stand for the environment: how much a read returns, whether a stream
stutters, ends in an error or reports its end with the last bytes, and when a write fails
are free choices, so what is proved holds for all of them. A reader knows what its next
read call will bring, so contracts can say exactly when a single read suffices; a writer
remembers that it has failed, so contracts can say that an operation fails for no other
reason. `Streams.Entropy` is the random number generators: a tape of bytes and one of
numbers, of which everything drawn is the next piece.

Formats are functions on byte strings, and what they put where is stated in literal
bytes (`SocksAddress.WireIPv4`, `ShadowsocksHeaders.RequestLayout`,
`NaivePadding.FrameLayout`, `SocksHandshake.SaysInBytes` and their like).

## Findings

Where the code does not keep a promise, the model follows the code, and the exact
condition is proved.

- The comment on `HasPasswordHash` says that it stops at the first impossible byte. The
  code waits for the token's length, the end of the stream or the first CRLF, whichever
  comes first. That is the first impossible byte if and only if this byte is the token's
  last or the LF of the first CRLF (`Trojan.StopsAtImpossibleExactly`). A web request is
  waited for up to the end of its first line (`Trojan.WholeRequestLineIsAwaited`). The
  token is found exactly if the stream starts with hash and CRLF and the hash contains no
  CRLF.
- The timestamp comparison is in int64. For timestamps of 2^63 and above the subtraction
  overflows and a whole family is let through (`SaltPool.InRangeExactly`).
- The replay defence reads the clock twice: the pool compares nanoseconds, and the window
  then compares truncated seconds of a later reading. Some header passes two accepted
  sessions of one salt exactly if their window readings are at most 60 truncated seconds
  apart (`SaltPool.TwoPassesExactly`). For its n-th repetition the first session must have
  stalled between its two readings for more than 60n - 61 seconds
  (`SaltPool.RepetitionsNeedStall`). So a header passes never three times unless that
  session stalls for more than 59 seconds, and never twice if the pool reads whole seconds
  and that session reads both times within one second (`SaltPool.NeverThreeTimes`,
  `SaltPool.WholeSecondsPassOnce`). These conditions are needed: with fractions of seconds,
  with a tick between the readings or with a stall of a minute there are runs that pass
  (`SaltPool.SubSecondDoublePass`, `TickDoublePass`, `StalledTriplePass`). The comment
  above the pool has the timestamp checked before the salt; the code checks the salt first.
- `weightedIntN(1 << 32)` overflows if and only if every weight is drawn at its maximum,
  and the random number generator then panics (`WeightedPicker.Pick`).
- The timeout of an unauthenticated SunnyQUIC connection may close one that has been
  authenticated when its time is up, because its select chooses freely among ready cases.
  In any run it can still close the connection exactly as long as its goroutine has
  neither stopped nor closed it (`SunnyQuic.MayTimeOutExactly`).
- Without a routing, which validation allows, fetching fresh rules' files dereferences a
  null pointer. A run crashes exactly then (`Router.Run`).
- An IPv6 rule whose prefix covers the mapped range without being mapped, such as `::/0`,
  never matches a mapped IPv4 query, since queries are unmapped first
  (`IpRules.RuleAnswersExactly`).
- The SOCKS reply that refuses a command is one byte shorter than section 6 of RFC 1928
  asks. Exactly the entitled clients that send another command than connect hear it
  (`SocksHandshake.ShortReplyExactly`).
- A truncated Shadowsocks stream may read as a clean end of file. Cut behind the first
  message, it does exactly between two chunks and right behind a length chunk
  (`ShadowsocksWire.CutUnnoticedExactly`). Cut inside the first message, a request never
  does (`ShadowsocksCuts.RequestCutExactly`), and a response does exactly right behind its
  salt and fixed-length header (`ShadowsocksCuts.ResponseCutExactly`). A response shorter
  than that does if the end of the stream comes along with all that arrived
  (`ShadowsocksSession.ResponseRun`).
- A Shadowsocks connection whose first message failed may lack a cipher. Writing then
  crashes exactly if there is a byte to write, reading exactly if a whole length chunk has
  come; and a first write crashes exactly for an address too long for a chunk
  (`ShadowsocksConn.Conn.ReadFrom`, `ShadowsocksConn.Conn.Read`).
- Writing a fresh chunk to a failing sink loses exactly what the sink did not take of it;
  writing out the leftover buffer loses nothing (`ShadowsocksConn.Conn.NextBytes`).
- The two bytes behind a Trojan address are skipped without being compared with CRLF: what
  is served is the documented header exactly if they are CRLF (`Trojan.HeaderUpToTwoBytes`).

## Model

| member | source | states |
|---|---|---|
| Bytes.BigEndianPair | transport/socks/util.go:61-62 | a 16-bit field has its high byte first, read and written |
| SocksAddress.DecodeEncode | transport/socks/util.go:37-64 | decoding gives back the address and leaves what follows untouched if and only if the address has no IPv6 zone and no domain above 255 bytes |
| SocksAddress.EncodeDecode | transport/socket_addr.go:61-100 | every byte string that parses is the encoding of what it parses to, followed by the rest |
| SocksAddress.PrefixFree | transport/socks/util.go:37-64 | no encoding is a prefix of another |
| SocksAddress.WireIPv4 | transport/socks/util.go:37-64 | an IPv4 address is the byte 1, four bytes and the port, high byte first, and is read from exactly these |
| SocksAddress.WireIPv6 | transport/socks/util.go:37-64 | an IPv6 address is the byte 4, sixteen bytes and the port |
| SocksAddress.WireDomain | transport/socks/util.go:37-64 | a domain is the byte 3, its length modulo 256, the name and the port, and is read from these up to 255 bytes |
| SocksAddress.EncodedSize | transport/socks/util.go:20-35 | the computed size is the written size, at most 259 bytes for representable addresses |
| SocksAddress.ReadAddress | transport/socket_addr.go:61-100 | over any fragmentation the reader consumes exactly the address and fails exactly on malformed or short input |
| Streams.Reader.ReadOnceExpectFull | util/ioutil/util.go:38-45 | succeeds exactly if the next single read call brings every byte and no error, and reports the end of the stream exactly if that call brings it instead; nothing is lost either way |
| ShadowsocksWire.IncNonce | transport/ss_carrier/conn.go:563-570 | in place, the nonce becomes its little-endian successor |
| ShadowsocksWire.NonceDigit | transport/ss_carrier/conn.go:535-570 | the byte at place i of the n-th nonce is the digit of 256^i in n |
| ShadowsocksWire.SuccessorCounts | transport/ss_carrier/conn.go:563-570 | the successor adds one modulo 256^n, for every length n |
| ShadowsocksWire.SuccessorOfPutLE | transport/ss_carrier/conn.go:563-570 | the nonce that encodes k is followed by the one that encodes k + 1 |
| ShadowsocksWire.NoncesRepeatExactly | transport/ss_carrier/conn.go:535-570 | two operations share a nonce if and only if their numbers agree modulo 256^12 |
| ShadowsocksWire.NoncesAreFresh | transport/ss_carrier/conn.go:535-570 | no nonce repeats among the first 256^12 operations under one subkey |
| ShadowsocksWire.ChunkLayout | transport/ss_carrier/conn.go:495-512 | a chunk is its length, high byte first, sealed under one nonce, and its payload, sealed under the next |
| ShadowsocksWire.ChunkOpens | transport/ss_carrier/conn.go:257-274 | a sealed chunk is 34 bytes longer than its payload and opens, with anything behind it, to its length, its payload and that rest |
| ShadowsocksWire.RecoverChunks | transport/ss_carrier/conn.go:257-274 | from chunks whose wire is cut anywhere exactly the payload of the whole ones is recovered |
| ShadowsocksWire.WholeChunksExactly | transport/ss_carrier/conn.go:257-274 | the whole chunks of a cut wire are as many as their sizes leave room for, and no more |
| ShadowsocksWire.NothingCut | transport/ss_carrier/conn.go:495-512 | an uncut wire holds every chunk whole and ends on a seam |
| ShadowsocksWire.CutChunkIsNotRecovered | transport/ss_carrier/conn.go:387-402 | a chunk cut at any byte yields nothing |
| ShadowsocksWire.CutUnnoticedExactly | transport/ss_carrier/conn.go:257-274 | behind a first message, a cut list of chunks reads as a clean end if and only if it is cut between two chunks or right behind a length chunk |
| ShadowsocksWire.AtSeamExactly | transport/ss_carrier/conn.go:257-274 | these places are the end of some first chunks and 18 bytes behind it where another chunk follows |
| ShadowsocksWire.LawfulAeadExists | transport/ss_carrier/conn.go:545-561 | the cipher laws assumed of Seal and Open can be met |
| ShadowsocksHeaders.U64Bytes | transport/ss_carrier/conn.go:137 | a timestamp is eight bytes, the highest first |
| ShadowsocksHeaders.RequestLayout | transport/ss_carrier/conn.go:107-178 | a request is the salt; type 0, time and length, sealed under nonce 0 and the subkey of that salt; and address, padding length, padding and payload, sealed under nonce 1, in these bytes |
| ShadowsocksHeaders.ResponseLayout | transport/ss_carrier/conn.go:188-230 | a response is its salt; type 1, time, the request salt and length; and the payload, sealed likewise |
| ShadowsocksHeaders.HeaderLengthExactly | transport/ss_carrier/conn.go:430-459 | a fixed-length header yields its length field exactly when type, echoed salt and timestamp are the expected ones |
| ShadowsocksHeaders.BodyRoundTrip | transport/ss_carrier/conn.go:358-384 | the variable-length header is read back if and only if the address is representable and padding or payload is present |
| ShadowsocksHeaders.ParsedBodyIsRequest | transport/ss_carrier/conn.go:358-384 | every variable-length header that is accepted is such an address, padding and payload, not both of these empty |
| ShadowsocksHeaders.FirstWhole | transport/ss_carrier/conn.go:107-178 | a whole first message opens to what was sealed under the salt's subkey, if and only if its timestamp is in range |
| ShadowsocksHeaders.FirstCut | transport/ss_carrier/conn.go:303-356 | a first message cut at any byte opens to nothing |
| ShadowsocksHeaders.RequestEndToEnd | transport/ss_carrier/conn.go:303-385 | from a request stream cut behind its first message the server recovers the address, the first payload and the payload of every whole chunk, and takes the cut for a clean end exactly at a seam |
| ShadowsocksHeaders.RequestCutInHead | transport/ss_carrier/conn.go:303-385 | a request cut inside its first message yields neither address nor payload |
| ShadowsocksHeaders.ResponseEndToEnd | transport/ss_carrier/conn.go:276-301 | the same for the response direction, for the client whose salt is echoed |
| ShadowsocksHeaders.ResponseCutInHead | transport/ss_carrier/conn.go:276-301 | a response cut inside its first message yields nothing |
| ShadowsocksCuts.RequestCutExactly | transport/ss_carrier/conn.go:303-413 | a whole request wire cut at any byte: the server recovers nothing, or the address, the first payload and exactly the chunks that arrived; it takes the cut for a clean end if and only if it is a seam behind the first message |
| ShadowsocksCuts.HeadCutExactly | transport/ss_carrier/conn.go:387-402 | a response cut inside its first message reads as a clean end if and only if it is cut right behind the sealed fixed-length header |
| ShadowsocksCuts.ResponseCutExactly | transport/ss_carrier/conn.go:276-301 | a whole response wire cut at any byte: what the client recovers, and a clean end if and only if the cut is right behind the fixed-length header or a seam behind the first message |
| ShadowsocksConn.Conn.Client | transport/ss_carrier/conn.go:47-52 | a client connection starts with its address and salt, no cipher and empty leftover |
| ShadowsocksConn.Conn.Server | transport/ss_carrier/conn.go:54-58 | a server connection starts without address, cipher or leftover |
| ShadowsocksConn.Conn.EncryptInPlace | transport/ss_carrier/conn.go:545-552 | seals the given range where it lies with the current nonce, advances the nonce and touches nothing but range and tag |
| ShadowsocksConn.Conn.EncryptPairInPlace | transport/ss_carrier/conn.go:495-512 | sealing two ranges one tag apart never overwrites plaintext still to be sealed; the nonces are consecutive |
| ShadowsocksConn.Conn.DecryptInPlace | transport/ss_carrier/conn.go:554-561 | opens in place exactly what the nonce opens; the nonce advances only on success |
| ShadowsocksConn.Conn.FillRequest | transport/ss_carrier/conn.go:122-165 | the plaintext layout of the first request in a buffer of arbitrary old contents, for every address and its length taken modulo 2^16; its padding is what the generator gives next |
| ShadowsocksConn.Conn.WriteClientFirstPayload | transport/ss_carrier/conn.go:107-178 | what leaves is the sealed request, every byte freshly written, padded exactly without payload, by 1 to 900 bytes: number and bytes are the next ones drawn; it fails only if the connection does |
| ShadowsocksConn.Conn.WriteServerFirstPayload | transport/ss_carrier/conn.go:188-230 | what leaves is the sealed response, echoing the client's salt, under a salt of its own that is exactly the next bytes drawn |
| ShadowsocksConn.Conn.SealAndSendChunk | transport/ss_carrier/conn.go:501-512 | one length-and-payload chunk leaves the recycled buffer, sealed with the next two nonces |
| ShadowsocksConn.Conn.SendChunks | transport/ss_carrier/conn.go:495-520 | what leaves is the chunk encoding of some split of the source into non-empty pieces, all of it unless reading or sending fails |
| ShadowsocksConn.Conn.SendFirst | transport/ss_carrier/conn.go:467-493 | one read of the source fills the first message with as much as it has at hand and a 16-bit length leaves room for; salt and padding are what was drawn |
| ShadowsocksConn.Conn.ReadFrom | transport/ss_carrier/conn.go:461-520 | the stream that leaves is the first message, if still due, with salt and padding as drawn, and then chunks; together they carry the source in order, and fail only if source or connection does; it crashes exactly as WriteCrashesExactly says |
| ShadowsocksConn.Conn.WriteCrashesExactly | transport/ss_carrier/conn.go:467-501 | writing crashes if and only if there are bytes and no cipher, or address and padding length of a first message exceed 65535 bytes |
| ShadowsocksConn.Conn.ReadFromWithoutCipher | transport/ss_carrier/conn.go:495-520 | without a cipher, the first byte read from the source crashes, and an empty source ends as it does |
| ShadowsocksConn.Conn.Write | transport/ss_carrier/conn.go:102-105 | a write carries exactly its bytes, in first payload and chunks, and crashes under the same condition |
| ShadowsocksConn.Conn.CopyReadPayload | transport/ss_carrier/conn.go:404-413 | what does not fit the caller's buffer becomes the leftover, which must be empty before |
| ShadowsocksConn.Conn.FromLeftover | transport/ss_carrier/conn.go:246-255 | leftover bytes are delivered in order and kept until a sink has taken them |
| ShadowsocksConn.Conn.OpenNext | transport/ss_carrier/conn.go:257-274 | opens the next chunk exactly if it is whole and opens; otherwise nothing is recoverable any more, and a plain end of file is reported exactly on an empty wire or a lone length chunk |
| ShadowsocksConn.Conn.HandOn | transport/ss_carrier/conn.go:387-413 | delivered, lost and pending bytes are the opened payload and what follows it; a failing sink loses exactly what it did not take |
| ShadowsocksConn.Conn.FromWire | transport/ss_carrier/conn.go:257-274 | succeeds exactly if a whole chunk opens; its bytes are delivered, left over or, by a failing sink only, lost, and reading can go on behind them |
| ShadowsocksConn.Conn.NextBytes | transport/ss_carrier/conn.go:240-274 | on either read path delivered, lost and pending bytes add up to what was pending before; bytes are lost only out of a fresh chunk, and exactly those the failing sink did not take; every successful read makes progress |
| ShadowsocksConn.Conn.ReadServerFirstPayload | transport/ss_carrier/conn.go:276-301 | the client accepts a response exactly if its header comes in the next single read and it opens; then it delivers from its stream and stands behind it; otherwise the error is a plain end of file exactly if that read brings the end, or the wire stops right behind a fine fixed-length header |
| ShadowsocksConn.Conn.AdmitClient | transport/ss_carrier/conn.go:303-346 | a client is let in exactly if salt and header come in the next single read and the pool accepts the salt, which it then holds |
| ShadowsocksConn.Conn.ReadClientFirstPayload | transport/ss_carrier/conn.go:303-385 | with its two readings of the clock, the server accepts a request exactly if its header comes in the next single read, its salt is new at the first and it opens at the second; its address is kept and its payload left over |
| ShadowsocksConn.Conn.ReadOrWriteTo | transport/ss_carrier/conn.go:240-274 | one step of either path takes its bytes off the front of the stream this end can deliver and leaves the rest to be read, even behind a failed sink; otherwise nothing is left, and the error is a plain end of file exactly if the stream, or the first response, ends that way |
| ShadowsocksConn.Conn.ReadWithoutCipher | transport/ss_carrier/conn.go:257-274 | without a cipher, a read crashes exactly once 18 bytes have come, and before reports a plain end of file exactly if nothing has |
| ShadowsocksConn.Conn.Read | transport/ss_carrier/conn.go:232-238 | with any buffer size, takes bytes off the front of the stream and makes progress; an error means that nothing is left, and it is a plain end of file exactly if the stream, or a first response that does not come or open, ends that way; it crashes if and only if there is no cipher and a whole length chunk to open |
| ShadowsocksConn.Conn.WriteTo | transport/ss_carrier/conn.go:522-533 | the sink gets the whole stream and the end is reported for what it is, also for a first response that does not come or open; or the sink fails and the stream can be read on behind what it got and lost; it crashes under the same condition as reading |
| ShadowsocksSession.WriteAll | transport/ss_carrier/conn.go:461-520 | any list of writes leaves as one first message and chunks with consecutive nonces that carry them in order |
| ShadowsocksSession.ReadAll | transport/ss_carrier/conn.go:232-274 | any mix of reads and write-outs, going on behind a failed sink: what came through is a prefix of the stream and leaves exactly the rest; nothing is lost unless the sink failed, and a run stops early only at the end, which it reports for what it is |
| ShadowsocksSession.ReadToEnd | transport/ss_carrier/conn.go:232-238 | reading with any non-empty buffer ends, with everything delivered and a plain end of file exactly for a stream, or a first response, that ends that way |
| ShadowsocksSession.ReadEverything | transport/ss_carrier/conn.go:232-274 | any moves and then reading to the end let the whole stream through, to the same ending |
| ShadowsocksSession.Serve | transport/ss_carrier/server.go:48-57 | over two readings of the clock, a connection is served exactly if its header comes in the next single read, its salt is new and it opens; then all its payload comes through, and the ending is plain exactly if the wire ends cleanly |
| ShadowsocksSession.SendRequest | transport/ss_carrier/conn.go:102-178 | any writes leave as a request wire, which arrives cut at any byte; what the server can get out of it and where its end looks clean is stated for each cut; sending fails only if the connection does |
| ShadowsocksSession.RequestRun | transport/ss_carrier/conn.go:102-533 | whole request runs, cut at any byte: served if and only if the first message arrives whole, its header in one read, with a new salt; then the address is right, exactly the payload that arrived whole comes through, and the end is plain exactly at a seam; of an uncut wire everything comes through |
| ShadowsocksSession.ReadResponse | transport/ss_carrier/conn.go:232-301 | a client that reads a response wire, cut anywhere and arriving in any pieces, gets exactly that outcome |
| ShadowsocksSession.ResponseRun | transport/ss_carrier/conn.go:188-301 | whole response runs, cut at any byte: exactly the payload that arrived whole comes through, everything if nothing is cut, and the ending is stated for every cut, including the plain one right behind the fixed-length header |
| ShadowsocksSession.TwoWayRun | transport/ss_carrier/conn.go:102-533 | a request and its response over the same two connections: served under the condition of a request run; the server gets a prefix of what was asked and the client of what was answered, and all of it if nothing is cut or fails; the two directions are sealed under the subkeys of the client's salt and of bytes drawn for the answer |
| ShadowsocksClient.NewSalt | transport/ss_carrier/client.go:34-59 | apart from six printable bytes or one of the six patterns at its front, a client's salt is exactly the next sixteen bytes drawn |
| ShadowsocksClient.SaltsDiffer | transport/ss_carrier/client.go:45-59 | salts drawn differently behind the sixth byte differ, whatever was put in front |
| NaivePadding.FrameLayout | transport/np_carrier/padding_reader_writer.go:119-123 | a frame is its size, high byte first, its padding size, payload and zeros |
| NaivePadding.PaddingReader.Read | transport/np_carrier/padding_reader_writer.go:33-85 | in any fragmentation and with any buffer, each read takes its bytes off the front of the decoded stream and makes progress; the first error is that stream's own, behind its last byte |
| NaivePadding.PaddingReader.ReadHeader | transport/np_carrier/padding_reader_writer.go:41-64 | an empty frame is skipped with its padding; the stream stays the same |
| NaivePadding.PaddingReader.DiscardPadding | transport/np_carrier/padding_reader_writer.go:87-100 | skips exactly the padding and goes to the next frame; an end inside it is unexpected |
| NaivePadding.FillFrame | transport/np_carrier/padding_reader_writer.go:119-123 | size, padding size, payload and zeros fill the whole recycled buffer |
| NaivePadding.PaddingWriter.Write | transport/np_carrier/padding_reader_writer.go:107-139 | the payload sent grows by exactly the given bytes, in as few frames of 65535 bytes as hold them up to the eighth, each padded by the next number drawn, and then raw, unless the sink fails |
| NaivePadding.RoundTrip | transport/np_carrier/padding_reader_writer.go:33-139 | decoding what a writer sent gives its payload and a clean end; both sides leave padding mode behind the same frame |
| NaivePadding.DecodeFrame | transport/np_carrier/padding_reader_writer.go:41-85 | a frame decodes to its payload and the decoding of what follows, with empty frames counted |
| NaivePadding.DecodePiece | transport/np_carrier/padding_reader_writer.go:66-84 | a read may stop anywhere inside a payload without changing what the stream decodes to |
| NaivePadding.Overhead | transport/np_carrier/padding_reader_writer.go:107-139 | at most 8 * (3 + 255) bytes more than the payload are sent |
| NaivePadding.CutFrame | transport/np_carrier/padding_reader_writer.go:41-100 | a frame cut at any inner byte ends with an unexpected end of file behind the payload bytes that arrived |
| NaivePadding.Truncation | transport/np_carrier/padding_reader_writer.go:41-100 | a wire cut within the first eight frames ends with an unexpected end of file unless it is cut exactly between two frames, and then cleanly |
| NaivePadding.OnBoundaryExactly | transport/np_carrier/padding_reader_writer.go:41-100 | the boundaries are the ends of some first frames |
| NaivePadding.PayloadWithinAt | transport/np_carrier/padding_reader_writer.go:66-84 | what arrived of a wire cut inside a frame is the payload of the frames before it and what stands behind its three header bytes |
| NaivePadding.PayloadWithinIsPrefix | transport/np_carrier/padding_reader_writer.go:66-84 | what a cut wire delivers is a prefix of the payload |
| NaivePadding.BreaksFails | transport/np_carrier/padding_reader_writer.go:66-84 | an error of the source is never turned into a clean end |
| NaivePadding.ReadToEnd | transport/np_carrier/padding_reader_writer.go:33-85 | reading with any non-empty buffer ends, with the whole decoded stream delivered and its own ending, which is an error if the source has one |
| NaivePadding.PaddedRun | transport/np_carrier/padding_reader_writer.go:33-139 | any writes, generator, fragmentation and buffers: exactly what was written is read, then a clean end; on the wire are at most eight frames, none empty, padded as drawn, and raw bytes behind the eighth only |
| NaivePadding.CutRun | transport/np_carrier/padding_reader_writer.go:33-100 | a reader of cut frames delivers exactly the payload that arrived and reports an unexpected end of file exactly if the cut is not between frames |
| DomainNames.RootDotDropped | conf/rule/domain_full_suffix_matcher.go:94-98 | one trailing dot is dropped and nothing else |
| DomainNames.JoinSplit | conf/rule/domain_full_suffix_matcher.go:35-37 | splitting at dots loses nothing |
| DomainNames.LabelSuffixIsDottedSuffix | conf/rule/domain_full_suffix_matcher.go:72-92 | a rule's labels end a query's labels if and only if the query is the rule or ends with a dot and the rule |
| DomainTrie.AddedFinds | conf/rule/domain_full_suffix_matcher.go:35-70 | adding a rule makes exactly the queries it covers match and loses none, even when an early exit skips it or it shadows a subtree |
| DomainTrie.AgreesWithRules | conf/rule/domain_full_suffix_matcher.go:72-92 | after any insertions, with duplicates, a query is found if and only if some rule covers it |
| DomainTrie.OrderDoesNotMatter | conf/rule/domain_full_suffix_matcher.go:35-92 | lists with the same rules in any order and number answer alike |
| DomainTrie.Trie.Walk | conf/rule/domain_full_suffix_matcher.go:38-57 | the walk makes missing nodes and stops exactly at a suffix mark that shadows the rule |
| DomainTrie.Trie.Finish | conf/rule/domain_full_suffix_matcher.go:59-69 | the last node is marked unless it is a suffix already; no other mark changes |
| DomainTrie.Trie.Add | conf/rule/domain_full_suffix_matcher.go:35-70 | in the heap, the marks become those of the abstract insertion |
| DomainTrie.Trie.Matches | conf/rule/domain_full_suffix_matcher.go:72-92 | the lookup loop finds exactly what the marks promise, and its panic for an empty domain is unreachable |
| DomainMatcher.PromisesExactly | conf/rule/domain_full_suffix_matcher.go:27-37 | root dot apart, a rule promises its own domain and a suffix rule any front, a dot and its domain |
| DomainMatcher.CoversIsPromises | conf/rule/domain_full_suffix_matcher.go:27-33 | a rule of the trie covers exactly the strings that the rule as written promises, case-folded and without its root dot |
| DomainMatcher.TrieAnswersForList | conf/rule/domain_full_suffix_matcher.go:35-92 | looking a query up answers whether some rule of the written list promises it |
| DomainMatcher.Matcher.AddDomainRule | conf/rule/domain_full_suffix_matcher.go:27-37 | the rule joins the list that the trie stands for |
| DomainMatcher.Matcher.MatchDomain | conf/rule/matcher.go:134-145 | true if and only if a written rule promises, or a regular expression matches, the query without its root dot; with or without the dot the answer is the same |
| SaltPool.Pool.CheckAndAdd | transport/ss_carrier/salt_pool.go:35-53 | refuses exactly a salt that survives the lazy cleaning, and records every other |
| SaltPool.RunRemembers | transport/ss_carrier/salt_pool.go:35-53 | over every run the pool holds exactly acceptances, and every acceptance not outdated at the last cleaning |
| SaltPool.AcceptancesAreFarApart | transport/ss_carrier/salt_pool.go:25-53 | two acceptances of one salt are more than 60 seconds apart |
| SaltPool.AcceptedExactly | transport/ss_carrier/salt_pool.go:35-53 | a call is accepted if and only if every acceptance of its salt before it has been forgotten, by a call more than 60 seconds behind it and behind the cleaning before: the lazy cleaning, told from the times alone |
| SaltPool.EntriesAreYoung | transport/ss_carrier/salt_pool.go:35-53 | after any call no entry is older than 120 seconds |
| SaltPool.RefusalsAreJustified | transport/ss_carrier/salt_pool.go:35-53 | a refused salt was accepted at most 120 seconds before |
| SaltPool.InRangeExactly | transport/ss_carrier/util.go:78-89 | the window is 30 seconds either way for timestamps below 2^63, and exactly which larger ones get through |
| SaltPool.TwoPassesExactly | transport/ss_carrier/conn.go:326-346 | with two readings of the clock per session, some header passes two sessions of a run if and only if both are accepted and their readings for the window are at most 60 truncated seconds apart |
| SaltPool.RepetitionsNeedStall | transport/ss_carrier/conn.go:326-346 | for the n-th repetition of a header that passes, the first session must have stalled between its two readings for more than 60n - 61 seconds |
| SaltPool.DoublePassExactly | transport/ss_carrier/conn.go:326-346 | if each session had one reading of the clock, two of them would pass one timestamp if and only if both are accepted, their truncated seconds are exactly 60 apart and the timestamp lies midway |
| SaltPool.DoublePassGap | transport/ss_carrier/conn.go:326-346 | which would need readings more than 60 and less than 61 seconds apart |
| SaltPool.WholeSecondsPassOnce | transport/ss_carrier/conn.go:326-346 | no header passes twice if the pool reads whole seconds and the first session reads the clock twice within one second, whenever the second one does |
| SaltPool.NeverThreeTimes | transport/ss_carrier/conn.go:326-346 | no header passes three times whose first session stalls for at most 59 seconds between its two readings |
| SaltPool.SubSecondDoublePass | transport/ss_carrier/util.go:78-89 | a concrete run with one reading per session in which fractions of seconds let one header pass twice |
| SaltPool.TickDoublePass | transport/ss_carrier/util.go:78-89 | a concrete run in whole seconds in which a tick between the two readings lets one header pass twice |
| SaltPool.StalledTriplePass | transport/ss_carrier/util.go:78-89 | a concrete run in which a session that stalls for a minute lets one header pass three times |
| SunnyQuic.StepKeepsSafe | transport/sq_carrier/server_quic_conn.go:62-131 | every step of any goroutine keeps the invariant that ties stream positions, the once and the closed channel together |
| SunnyQuic.RunIsSafe | transport/sq_carrier/server_quic_conn.go:33-131 | the invariant holds after every run |
| SunnyQuic.HandlerNeedsAuth | transport/sq_carrier/server_quic_conn.go:86-126 | no stream reaches the TCP connect handler before some stream presented the right hash and the handshake completed |
| SunnyQuic.DialsExactly | transport/server.go:15-28 | a stream dials if and only if nothing cancelled the context before its check, whatever its selects chose |
| SunnyQuic.MayDialExactly | transport/sq_carrier/server_quic_conn.go:42-131 | after any run, a continuation in which a given stream dials exists if and only if the context is alive and, where the stream stands, what it still waits for can come: an open connection, the handshake, an authentication by another stream |
| SunnyQuic.AnyoneMayDial | transport/sq_carrier/server_quic_conn.go:42-131 | so every stream may be served |
| SunnyQuic.StuckExactly | transport/sq_carrier/server_quic_conn.go:62-131 | an accepted stream has no step to take if and only if it has ended or dialled, waits for an authentication with the context alive, for the handshake with the connection open, or for another stream inside the once |
| SunnyQuic.StepsEnd | transport/sq_carrier/server_quic_conn.go:62-131 | each step brings a stream nearer to its end, which is at most six steps away |
| SunnyQuic.FlagsRecordHistory | transport/sq_carrier/server_quic_conn.go:33-60 | the context is done exactly if a stream, the timeout or the parent cancelled it, the connection exactly if a stream, the timeout or the peer closed it, and the handshake channel is closed exactly if the handshake completed |
| SunnyQuic.AuthDoneClosedOnce | transport/sq_carrier/server_quic_conn.go:86-102 | the channel is closed at most once in any run, so closing it never panics |
| SunnyQuic.CancelHasCause | transport/sq_carrier/server_quic_conn.go:62-102 | a stream cancels the context only after presenting a wrong hash or one cut short |
| SunnyQuic.FailureCloses | transport/sq_carrier/server_quic_conn.go:62-131 | a stream that presented a wrong hash, or one cut short, does not end before it has cancelled the context and closed the connection |
| SunnyQuic.TimerRecordsHistory | transport/sq_carrier/server_quic_conn.go:33-40 | in every run the timeout closes only after cancelling, cancels only after firing, fires only once its time is up, and never both fires and stops |
| SunnyQuic.FiringIsARace | transport/sq_carrier/server_quic_conn.go:33-40 | whenever the timeout fires, another case of its select was ready exactly if the connection was authenticated or cancelled |
| SunnyQuic.MayTimeOutExactly | transport/sq_carrier/server_quic_conn.go:33-40 | after any run, a continuation in which the timeout closes the connection exists if and only if its goroutine has neither stopped nor closed it yet |
| SunnyQuic.TimeoutMayCloseAuthenticated | transport/sq_carrier/server_quic_conn.go:33-40 | a run in which both cases of the select are ready on an authenticated connection, the timeout is taken, and the connection is closed |
| SunnyQuicClient.Authenticate | transport/sq_carrier/client.go:91-121 | when it succeeds, a command was written after the handshake, or as early data that the server accepts; at most two are written, and it fails only if the connection does |
| SunnyQuicClient.EarlyConn.Send | transport/sq_carrier/client.go:123-140 | one command is written, early exactly when the handshake was not complete before |
| PreloadConn.Conn.Read | util/ioutil/bytes_read_preload_conn.go:25-52 | a read takes its bytes off the front of put-back bytes and connection together |
| PreloadConn.Conn.ReadFull | util/ioutil/util.go:47-49 | reading in full over a connection with put-back bytes is reading in full over the whole stream |
| PreloadConn.Conn.WriteTo | util/ioutil/bytes_read_preload_conn.go:58-68 | the sink gets a prefix of the stream, and all of it unless the connection or the sink fails |
| Trojan.Client.WriteClientFirstPayload | transport/tr_carrier/client_conn.go:48-63 | header and payload leave in one write; the count tells payload bytes only |
| Trojan.Client.Write | transport/tr_carrier/client_conn.go:31-46 | the header leaves once, before the first payload, and fails only with the connection |
| Trojan.Client.ReadFrom | transport/tr_carrier/client_conn.go:65-89 | header, if due, and then the whole source, unless source or connection fails |
| Trojan.HeaderLayout | transport/tr_carrier/client_conn.go:48-63 | the header is the hash, CRLF, the byte 1, the address and CRLF |
| Trojan.RequestRoundTrip | transport/tr_carrier/server.go:127-156 | the server reads the address and the payload out of the header if and only if the address is representable |
| Trojan.ParsesExactly | transport/tr_carrier/server.go:127-156 | what is served is exactly the byte 1, an address, any two bytes and the payload |
| Trojan.HasPasswordHash | transport/tr_carrier/server.go:91-123 | for every hash: finds the token if and only if the stream starts with it and the hash has no CRLF; it waits for exactly the bytes up to the token's length, the end of the stream or the first CRLF, whichever is first |
| Trojan.StopsAtImpossibleExactly | transport/tr_carrier/server.go:84-123 | it stops at the first byte that cannot occur in the token if and only if that byte is the token's last or the LF of the first CRLF |
| Trojan.WholeRequestLineIsAwaited | transport/tr_carrier/server.go:84-123 | so it waits for the whole first line of a web request, whose first byte is already impossible |
| Trojan.TokenAt | transport/tr_carrier/server.go:110-121 | the final comparison is the token test exactly under the loop's early exit |
| Trojan.ServeAuthenticated | transport/tr_carrier/server.go:127-156 | forwards exactly the address and bytes behind the header, and refuses exactly what does not parse |
| Trojan.HeaderUpToTwoBytes | transport/tr_carrier/server.go:144-148 | what is served is the header with any two bytes in the place of its last CRLF, and the header itself exactly if they are CRLF |
| Trojan.Serve | transport/tr_carrier/server.go:62-82 | a stream without the token reaches the fallback unchanged from byte 0; one with it yields its address and payload |
| Trojan.TrojanRun | transport/tr_carrier/client_conn.go:31-63 | any list of writes: the server forwards to the client's address exactly the bytes written |
| SocksHandshake.SaysInBytes | transport/socks/server.go:75-229 | what makes a client entitled, and what it says, byte for byte |
| SocksHandshake.NegotiationPasses | transport/socks/server.go:75-174 | a client that offers the configured method and knows the credentials gets to its request and hears the whole greeting |
| SocksHandshake.NegotiatedWords | transport/socks/server.go:75-174 | whoever hears the whole greeting said, byte for byte, such a client's words |
| SocksHandshake.EntitledIsForwarded | transport/socks/server.go:75-229 | an entitled client is forwarded with exactly the bytes behind its request, and hears the greeting, 5 0 or 5 2 1 0, and of its success |
| SocksHandshake.ForwardedIsEntitled | transport/socks/server.go:75-229 | whatever is forwarded came, byte for byte, from such a client |
| SocksHandshake.ConnectForwards | transport/socks/server.go:207-229 | a connect request yields its address and leaves what follows |
| SocksHandshake.CredentialsPass | transport/socks/server.go:144-174 | right credentials lead on to the request behind them |
| SocksHandshake.OnlySuccessReplyIsComplete | transport/socks/server.go:194-205 | the two replies byte for byte: that of success holds a complete address, the refusing one does not |
| SocksHandshake.ShortReplyExactly | transport/socks/server.go:207-218 | the incomplete reply is sent to exactly the entitled clients that send another command than connect |
| SocksHandshake.NoMethodExactly | transport/socks/server.go:93-118 | the refusal of every method, 5 255, is sent to exactly the clients that do not offer the configured one |
| SocksHandshake.WrongCredentialsExactly | transport/socks/server.go:144-154 | the failure of credentials, 1 1, is sent to exactly the clients that state wrong ones |
| SocksHandshake.OnlyTheseReplies | transport/socks/server.go:75-229 | whatever a client sends, it hears one of seven byte strings |
| SocksHandshake.ReadField | util/ioutil/util.go:51-60 | reads a length-prefixed field, or fails exactly when it is short |
| SocksHandshake.HandleConnection | transport/socks/server.go:207-229 | verdict and reply are exactly those the request deserves: success, the incomplete refusal of another command, or silence; a failing connection cuts the reply short and refuses |
| SocksHandshake.HandleCredentials | transport/socks/server.go:144-174 | passes exactly matching credentials and answers exactly success, failure or nothing |
| SocksHandshake.Negotiate | transport/socks/server.go:75-142 | goes on exactly if the configured method was offered and, if set, the credentials match; every reply on the way is stated |
| SocksHandshake.Serve | transport/socks/server.go:75-142 | verdict and replies are exactly those the client's words deserve, over the connection as it is; a failing connection cuts the replies short and refuses |
| SocksHandshake.Dispatch | transport/http_socks/server.go:100-115 | the byte read to tell the protocols apart is back in front of the stream |
| SocksHandshake.DispatchAndServe | transport/http_socks/server.go:100-115 | the handshake runs on the put-back connection itself: dialled only for an entitled client, at its address, and the connection then holds exactly the bytes behind the request; always for such a client unless a reply fails |
| Router.FirstMatch | transport/router/client.go:62-98 | the rule chosen is the first that matches, or none does |
| Router.ExplainedOneWay | transport/router/client.go:62-119 | one snapshot explains only one outcome of a dial, apart from a client that cannot be built |
| Router.Choose | transport/router/client.go:62-98 | first match over one snapshot; a domain no rule matches that is an IP literal is tried once more as that IP; final for no match |
| Router.IPDecides | transport/router/client.go:62-119 | the dial of an IP follows the policy of the first rule whose matcher matches it: directly, not at all, or through that very outbound; final for no rule, and for a rule that says so or nothing |
| Router.DomainDecides | transport/router/client.go:62-119 | so does that of a domain that a rule matches or that is no IP literal |
| Router.LiteralDecides | transport/router/client.go:62-119 | an IP literal that no rule matches as a domain follows the first rule that matches it as an IP, and is dialled as one |
| Router.PolicyIsDefined | conf/parser.go:126-226 | under a validated configuration every policy is direct, reject or a defined outbound |
| Router.CopyWithNewRulesData | conf/conf.go:157-188 | every rule keeps its policy and gets the matcher that the database gives for its own texts; fails if and only if the rule database does not open or a matcher cannot be loaded |
| Router.ReloadKeepsValidated | conf/conf.go:173-188 | reloading never invalidates a configuration |
| Router.CarrierNames | conf/conf.go:196-203 | each transport goes by its name and its alias and by nothing else |
| Router.Client.NewCarrierClient | transport/router/client.go:141-154 | built for the outbound's own node and the configured transport; never for an unknown transport, and never failing for Shadowsocks |
| Router.Client.GetCarrierClient | transport/router/client.go:125-139 | a cached client is returned as it is, a new one is cached, and no entry changes |
| Router.Client.DialTCP | transport/router/client.go:62-119 | the dial is explained by the first matching rule, goes to a defined outbound and through its cached client |
| Router.Client.UpdateRouting | transport/router/client.go:156-179 | with fresh files all matchers are replaced, or none if the database does not open or one cannot be loaded; it crashes exactly on fresh files without a routing |
| Router.RoutingAfterNext | transport/router/client.go:156-179 | one step more leaves the routing as it was, unless it is a reload that succeeds: then every rule keeps its policy and has the matcher the database gives for its texts |
| Router.DialSees | transport/router/client.go:62-179 | each dial of a run sees the routing that the steps before it have left |
| Router.Run | transport/router/client.go:62-179 | any run of dials and reloads: each dial uses the one snapshot left by the reloads before it and is explained by it; the run crashes if and only if there is no routing and some reload gets fresh files |
| Router.LogExplains | transport/router/client.go:62-119 | of the log of such a run: without a routing every dial went directly, and with one its first matching rule explains it |
| Router.OneClientPerOutbound | transport/router/client.go:125-139 | two dials of a run through one outbound share one client |
| IpRules.MatchesExactly | conf/rule/matcher.go:147-149 | a query matches if and only if it shares, bit for bit, the leading bits of some rule of its family; a mapped one by its last 32 bits |
| IpRules.SameLeadingMapped | conf/rule/matcher.go:164-169 | with at most 32 free bits, mapping shifts both sides of a prefix comparison alike |
| IpRules.OnlyMappedShareLeading | conf/rule/matcher.go:164-169 | no unmapped IPv6 address lies in a mapped prefix of length 96 or more |
| IpRules.MappedRuleLengths | conf/rule/matcher.go:164-169 | a mapped rule is accepted exactly for lengths 96 to 128, and is then one over the IPv4 address |
| IpRules.RuleAnswersExactly | conf/rule/matcher.go:147-169 | an accepted IPv6 rule answers like the plain 128-bit prefix, except that it misses mapped queries unless it is mapped itself |
| IpRules.WidestRuleMissesMapped | conf/rule/matcher.go:147-149 | the rule ::/0 misses every mapped query |
| IpRules.FormDoesNotMatter | conf/rule/matcher.go:147-149 | mapped and plain forms of a query get the same answer from any rules |
| WeightedPicker.Build | transport/ss_carrier/util.go:63-76 | the stored sums are the exact ones modulo 2^64 |
| WeightedPicker.OverflowExactly | transport/ss_carrier/util.go:63-76 | up to 2^32 weights overflow if and only if there are 2^32 of them, all drawn at the maximum |
| WeightedPicker.Search | transport/ss_carrier/util.go:63-76 | binary search returns the boundary between sums at most r and sums above r |
| WeightedPicker.Pick | transport/ss_carrier/util.go:63-76 | for up to 2^32 weights the index is in range and its interval holds the number, except for the one drawing on which the generator panics |
| WeightedPicker.SelectionIsUnique | transport/ss_carrier/util.go:63-76 | no number selects two indices |
| WeightedPicker.WeightCountsNumbers | transport/ss_carrier/util.go:63-76 | exactly as many numbers select an index as its weight says |
| WeightedPicker.ChoosePrefix | transport/ss_carrier/client.go:45-59 | the two-way choice follows the first weight, and its panic is unreachable |

## Left out

- AES-GCM, BLAKE3 and HKDF: the cipher is three uninterpreted functions with a length and a round-trip law. Authenticity is not assumed, so what a peer recovers from forged bytes is whatever opens.
- TCP, TLS, QUIC, HTTP/2 and bufio: byte streams with free fragmentation, or steps of a transition system.
- Read errors that go away on a retry: a stream ends for good with the error it ends with. This keeps `paddingRemaining` after an error unobserved.
- ShadowsocksConn.Conn.ReadClientFirstPayload: the socket option set before a failing connection is closed is not modelled.
- ShadowsocksSession.RequestRun: the timestamps, the client's salt and the address are parameters; the client's timestamp is the same for all its writes, which only the first one uses.
- Random numbers: what the generators give is a parameter; how they turn it into a number below a bound is taken to be the remainder.
- SaltPool.WholeSecondsPassOnce: requires whole seconds from the pool, a first session that reads the clock twice within one second, and timestamps below 2^63. Without the first condition it is false by `SubSecondDoublePass`, without the second by `TickDoublePass`, and above 2^63 the window lets through what `InRangeExactly` says. What holds without them is `TwoPassesExactly` and `RepetitionsNeedStall`.
- SaltPool.NeverThreeTimes: requires that the first session stalls for at most 59 seconds; `StalledTriplePass` is a run with a stall of 62 seconds.
- Trojan.Serve: requires that the hash contains no CRLF, which holds for the hexadecimal text the source uses. `HasPasswordHash` is stated for every hash.
- DomainMatcher.Matcher.MatchDomain: case folding is any function on strings and regular expressions are any predicates. Loading rule texts and domain tags (`SetupRulesData`) is not part of this model.
- Router.Client.UpdateRouting: whether fresh files were fetched is a parameter, and so is the rule database, whose loader keeps the texts a matcher was made from. Locks are modelled by taking each dial and each reload as one step.
- Router.Client.NewCarrierClient: why building a TLS or QUIC client fails is not modelled; that it may fail is.
- SunnyQuic.MayTimeOutExactly: a select that is already waiting may, in the model, be overtaken by a later ready case, as the language allows; schedulers that wake it at the first ready case have fewer runs.
- SunnyQuic.DialsExactly: the forwarding that follows a dial and the stream's own deadline are not modelled.
- `netip` parsing and `bart` prefix tables: a parser is any function, and a table is a list of prefixes.
- The host, port, name and password checks of `validate`, and `isDottedDecimalIPv4`: single-field checks that routing does not depend on.
- `ConnListener` in util/netutil/listener.go: a rendezvous channel whose laws are those of the channel itself.
- HTTP proxying and HTTP fallback, updater, command line, system proxy settings, ACME, TLS configuration caches: input and output around the components above.
