# A verified model of libtirpc's protocol code

The repository vendors libtirpc, an implementation of ONC remote procedure calls, and adds a small codec of its own
(flexrpc and cornflakes). This project models the parts with the most state and the most arithmetic, in the form the
C code has them - cursors into fixed buffers, rings and chains over shared nodes, loops that consume what arrives -
and proves them against small reference definitions. `dafny verify dfyconfig.toml` checks all of it.

| file | models |
|---|---|
| `Bytes.dfy` | octets, words, and the laws of their XDR encoding |
| `RecordMarking.dfy` | record marking (section 11 of RFC 5531) without buffers: fragments, records, and the reference reading |
| `RecordWriter.dfy`, `RecordReader.dfy` | the two halves of a record stream, each over one fixed buffer |
| `RecordCursors.dfy` | where the writer's cursors go, computed from the lengths of the puts |
| `RecordTransfer.dfy` | records sent through the one and read by the other |
| `NonblockReader.dfy` | the assembler of non-blocking connections |
| `DesBits.dfy`, `DesTextbook.dfy`, `DesModes.dfy` | the block operation and the modes as the standards state them, and the code against them |
| `Des.dfy`, `DesWide.dfy`, `DesCrypt.dfy` | the DES block operation, the same on 64-bit longs, and ECB and CBC over a buffer in place |
| `DupCache.dfy` | the datagram transport's duplicate-request cache, with receiving and replying |
| `XdrMem.dfy`, `CallMsg.dfy` | memory streams, and call messages by the inline and by the field-by-field path |
| `Negotiation.dfy` | the client's version negotiation against the server's dispatch |
| `GssWindow.dfy`, `GssCache.dfy` | the RPCSEC_GSS sequence window and the list of contexts |
| `AuthDes.dfy` | the AUTH_DES conversations and the order they were last used in |
| `DatagramCall.dfy` | one datagram call: retransmission, refreshes, and the match of a reply |
| `Netconfig.dfy` | sessions on the shared, lazily read transport database |
| `FdLockList.dfy`, `FdLocks.dfy` | the list of per-descriptor locks, and the clients' use of them by any number of threads |
| `RpcbCodec.dfy`, `RpcbList.dfy` | rpcbind lists: the recursive format, and the loop that encodes, decodes and frees |
| `Cornflake.dfy` | the repository's own calls and replies |

What the model does not decide - how many octets a read delivers, which packet arrives when, whether a connection
breaks, which thread runs next - is either left open or a parameter, and every claim holds for all of it.

## What the code does where its documentation says otherwise

Each of these is proved: the exact condition where there is one, and a run or an input that shows the difference.

- The comments of `xdrrec_endofrecord` promise batching of any records. A word put behind octets that are no whole
  number of words can push out a fragment header of value 0, which the reader refuses (`OctetsCanLoseARecord`). Records
  arrive if and only if none is emitted, which the lengths of the puts decide (`Transfer`, `EmitsEmpty`); octets alone
  and whole words emit none.
- `__xdrrec_getrec` is described as filling the buffer with a record. It delivers each fragment as one
  (`FragmentsAreRecords`).
- Decrypting nothing in CBC mode replaces the vector by zeroes, so that a later part is not chained to an earlier one
  (`DecryptSplit`).
- `clnt_create_vers` asks for a version in a range, but tries the upper end first even when the range is empty
  (`CreateVers`).
- Section 5.3.3.1 of RFC 2203 allows sequence numbers below MAXSEQ. The code also accepts MAXSEQ itself, which does
  no harm until number 0 follows: only then is the window left, and numbers can pass twice (`CheckSeq`, `Run`,
  `ReplayAfterMaxSeq`).
- `laststamp` is kept to detect replays of AUTH_DES credentials. A conversation that has been pushed out of the table is
  accepted again with an earlier timestamp (`EarlierAccepted`), but in no run before every one of the slots has been
  used since (`AuthDes.Run`).
- A datagram call with a retry interval below a millisecond resends without a bound (`BoundedExactly`), and the length
  test of a reply takes a failed receive for a long packet (`StaleReplyDecoded`).
- `getnetconfig` is to return the entries in the order of the file. A session whose first call meets a line that does
  not parse goes on where other sessions are, in every such file with two entries (`Next`, `EntryMissed`).
- `clnt_vc_destroy` waits for a call in progress, but that call still uses its handle once it has released the lock
  (`CareNeeded`).
- A `clnt_vc_create` that fails to connect keeps the reference to its lock item, which nobody gives back (`HandlesOfRun`).
- `cornflake_serialize` reports success for a message that found no room (`SerializeCall`), and
  `cornflake_deserialize` ignores that a call header was refused (`Deserialize`).

## Model

| member | source | states |
|---|---|---|
| `Bytes.Be32IsNumber` | lib/libtirpc/src/xdr_mem.c:128-167 | a word goes out as the octets that write it as a number, the first one counting most |
| `Bytes.FromBe32IsNumber` | lib/libtirpc/src/xdr_mem.c:114-152 | and what is read is the number that its octets write |
| `Bytes.Be32Order` | lib/libtirpc/src/xdr_mem.c:128-167 | words are in the order of their octets, as in a dictionary |
| `RecordMarking.HeaderOnWire` | lib/libtirpc/src/xdr_rec.c:636-644 | the first octet put on the wire for a fragment is at least 128 exactly when it is the last one; the other 31 bits write its length |
| `RecordMarking.HeaderOffWire` | lib/libtirpc/src/xdr_rec.c:710-734 | four octets read are refused exactly when all are 0; otherwise the first bit says whether the fragment is the last and the others its length |
| `RecordMarking.NextFragmentOfEncoding` | lib/libtirpc/src/xdr_rec.c:710-734 | a fragment's header is read back as its length and whether it is the last, with its octets next; it is refused exactly when it is 0 |
| `RecordMarking.FirstRecord` | lib/libtirpc/src/xdr_rec.c:441-470 | reading a record out of encoded fragments succeeds if and only if none of them is an empty middle fragment; it then delivers that record and leaves exactly the rest |
| `RecordMarking.StreamRoundTrip` | lib/libtirpc/src/xdr_rec.c:246-322 | for any sequence of fragments that ends with a record: its encoding is read back as the records it was cut from, if and only if no fragment is empty in the middle of a record |
| `RecordMarking.EmptyFragmentStopsReader` | lib/libtirpc/src/xdr_rec.c:722-731 | the reader refuses a header that is neither last nor carries data, so that record cannot be read |
| `RecordMarking.ReadWithinRecord` | lib/libtirpc/src/xdr_rec.c:270-296 | reading n octets of an intact record delivers its next n octets in order; past its end it fails, with the record used up and the next one untouched |
| `RecordMarking.ReadSplit` | lib/libtirpc/src/xdr_rec.c:270-296 | reading a octets and then b is reading a + b, whatever fragments they come from |
| `RecordMarking.ReadLength` | lib/libtirpc/src/xdr_rec.c:270-296 | a read that succeeds delivers as many octets as were asked for, and no read delivers octets twice |
| `RecordWriter.FixBufSize` | lib/libtirpc/src/xdr_rec.c:758-766 | buffer sizes are whole words of at least 100 octets and less than a word above the size asked for |
| `RecordWriter.Writer.constructor` | lib/libtirpc/src/xdr_rec.c:154-205 | an empty stream with room for one fragment header in front |
| `RecordWriter.Writer.WriteIt` | lib/libtirpc/src/xdr_rec.c:644-648 | the connection takes all that is offered until its limit is reached, and then breaks |
| `RecordWriter.Writer.FillHeader` | lib/libtirpc/src/xdr_rec.c:639-643 | with its header filled in, the buffer holds one more encoded fragment |
| `RecordWriter.Writer.FlushOut` | lib/libtirpc/src/xdr_rec.c:634-652 | what was buffered is on the wire as encoded fragments and the buffer is empty; it fails only when the connection breaks |
| `RecordWriter.Writer.SendPartial` | lib/libtirpc/src/xdr_rec.c:254-263 | cutting a record keeps the records ended and the octets of the open one, puts all closed fragments on the wire, and adds an empty fragment exactly when nothing had been put into it |
| `RecordWriter.Writer.PutLong` | lib/libtirpc/src/xdr_rec.c:246-268 | the word is appended to the open record, most significant octet first (Be32IsNumber); a header of value 0 is emitted exactly when it does not fit a fragment that is still empty; the cursors move as PutWordAt says |
| `RecordWriter.Writer.PutBytes` | lib/libtirpc/src/xdr_rec.c:298-322 | the octets are appended to the open record for any length and any fill of the buffer, no empty fragment is emitted, and the cursors move as PutOctetsAt says of the length alone |
| `RecordWriter.Writer.EndOfRecord` | lib/libtirpc/src/xdr_rec.c:501-521 | ends exactly the open record, flushed or batched behind the next; flushed, the wire is the encoding of all fragments; batched, nothing leaves |
| `RecordReader.Reader.constructor` | lib/libtirpc/src/xdr_rec.c:182-213 | a reader in front of the first record, whatever the buffer size |
| `RecordReader.Reader.ReadIt` | lib/libtirpc/src/xdr_rec.c:669-669 | a read delivers any positive number of the octets that are there, and -1 at the end |
| `RecordReader.Reader.FillInputBuf` | lib/libtirpc/src/xdr_rec.c:654-675 | refilling loses and invents nothing and keeps the buffer position congruent, mod 4, to the octets consumed |
| `RecordReader.Reader.GetInputBytes` | lib/libtirpc/src/xdr_rec.c:677-708 | for any chunks: exactly the next octets of the stream, or failure at its end |
| `RecordReader.Reader.SkipInputBytes` | lib/libtirpc/src/xdr_rec.c:736-756 | for any chunks: exactly that many octets are passed over, or failure at the end |
| `RecordReader.Reader.SetInputFragment` | lib/libtirpc/src/xdr_rec.c:710-734 | takes the next fragment of the stream, or refuses it, exactly as the reference reading does |
| `RecordReader.Reader.GetBytes` | lib/libtirpc/src/xdr_rec.c:270-296 | refines the reference reading: same result, same octets, same position, whatever the buffer holds |
| `RecordReader.Reader.GetLong` | lib/libtirpc/src/xdr_rec.c:222-244 | the number that the next four octets write; the word taken in place out of the buffer is the one the octet path would read, and its address is aligned whenever whole words were consumed |
| `RecordReader.Reader.SkipRest` | lib/libtirpc/src/xdr_rec.c:461-467 | consumes exactly the rest of the current record, and fails exactly when it is cut short or has a refused header |
| `RecordReader.Reader.SkipRecord` | lib/libtirpc/src/xdr_rec.c:441-470 | stands in front of the next record, whatever was left unread of the last one |
| `RecordReader.Reader.Eof` | lib/libtirpc/src/xdr_rec.c:477-493 | FALSE promises more input behind the record; TRUE says only that nothing beyond it is buffered, or that it is cut short |
| `RecordCursors.OctetsPut` | lib/libtirpc/src/xdr_rec.c:298-322 | from the cursors alone: octets never emit an empty fragment, and leave room behind them |
| `RecordCursors.RunCounts` | lib/libtirpc/src/xdr_rec.c:501-521 | in a run of records each is counted when it ends, and all are on the wire when the last is sent at once |
| `RecordCursors.OctetsEmitNone` | lib/libtirpc/src/xdr_rec.c:298-322 | runs of octets of any lengths emit no header of value 0 |
| `RecordCursors.WholeWordsEmitNone` | lib/libtirpc/src/xdr_rec.c:246-268 | nor do runs whose puts are whole words, as XDR makes them, over any buffer |
| `RecordTransfer.SendRecord` | lib/libtirpc/src/xdr_rec.c:501-521 | a record put word by word and octet by octet and then ended is one more record, and leaves the cursors where the lengths of its puts say |
| `RecordTransfer.RestWhileReading` | lib/libtirpc/src/xdr_rec.c:270-296 | a read that fails stands at the end of its record exactly when the record could be read; one that succeeds leaves a readable rest exactly then |
| `RecordTransfer.ReceiveRecord` | lib/libtirpc/src/xdr_rec.c:441-470 | skiprecord followed by reads yields exactly the next record and then its end, and says so exactly when there is such a record |
| `RecordTransfer.ReceiveAll` | lib/libtirpc/src/xdr_rec.c:441-470 | record after record, for any chunks: succeeds exactly when the reference reading does, and then with the same records |
| `RecordTransfer.Transfer` | lib/libtirpc/src/xdr_rec.c:246-322 | end to end, for any puts, batching choices, buffer sizes and chunks: the records that left the writer arrive, each as it was sent, if and only if the cursor arithmetic of the put lengths emits no header of value 0; with the last record sent at once these are all of them; a connection that does not break takes everything |
| `RecordTransfer.OctetsCanLoseARecord` | lib/libtirpc/src/xdr_rec.c:246-268 | an input that does emit one: two records are sent and the second cannot be read |
| `NonblockReader.Assembler.constructor` | lib/libtirpc/src/xdr_rec.c:617-629 | a reader that has assembled nothing, with the record limit it was given or the size of its buffer |
| `NonblockReader.FragLenIs` | lib/libtirpc/src/xdr_rec.c:560-561 | the length in a header is the number its octets write, apart from the highest bit |
| `NonblockReader.Assembler.ReallocStream` | lib/libtirpc/src/xdr_rec.c:771-792 | the buffer grows to the record and keeps what was received |
| `NonblockReader.Assembler.GetHeader` | lib/libtirpc/src/xdr_rec.c:537-575 | the header is assembled over any partial reads; once complete it counts exactly when it announces from 1 to the limit of octets, and otherwise ends the connection |
| `NonblockReader.Assembler.GetPayload` | lib/libtirpc/src/xdr_rec.c:577-614 | TRUE exactly when the read completes the fragment, with the payload at the start of the buffer |
| `NonblockReader.Assembler.GetRec` | lib/libtirpc/src/xdr_rec.c:527-615 | for any splitting into partial or empty reads: each completed fragment is delivered once with exactly its payload, nothing of the next one is read, and a call makes progress exactly when something has arrived |
| `NonblockReader.Assembler.GetBytes` | lib/libtirpc/src/xdr_rec.c:685-691 | reads of a delivered record come out of the buffer and fail past its end |
| `NonblockReader.BoundariesUnique` | lib/libtirpc/src/xdr_rec.c:527-615 | an octet sequence has one division into fragments: a prefix read so far is a prefix of the fragments sent |
| `NonblockReader.DeliversEachFragmentOnce` | lib/libtirpc/src/xdr_rec.c:527-615 | in every state the fragments delivered are the first ones sent, each once, and all of them once the input is used up |
| `NonblockReader.RefusedHeaderIsForeign` | lib/libtirpc/src/xdr_rec.c:561-566 | a stream of fragments within the limit never makes the reader give up |
| `NonblockReader.FragmentsAreRecords` | lib/libtirpc/src/xdr_rec.c:570-573 | what is delivered are the records if and only if every record is a single fragment, since last_frag is never cleared |
| `Des.PermTwice` | lib/libtirpc/src/des_impl.c:348-350 | every PERM_OP of the initial and final permutation undoes itself |
| `Des.PermutationsInverse` | lib/libtirpc/src/des_impl.c:450-455 | the initial and the final permutation are inverse to each other |
| `Des.LeaveUndoesEnter` | lib/libtirpc/src/des_impl.c:465-471 | the rotations after the rounds undo those before them, up to the exchange of the halves |
| `Des.DEncryptTwice` | lib/libtirpc/src/des_impl.c:356-367 | one Feistel round undoes itself, for any tables and any schedule |
| `Des.RoundsUndo` | lib/libtirpc/src/des_impl.c:476-491 | after n passes of the decrypting loop the last n passes of the encrypting one are undone, and conversely |
| `Des.CipherInverse` | lib/libtirpc/src/des_impl.c:440-513 | for any tables, schedule and block: decryption undoes encryption and encryption undoes decryption |
| `DesWide.WidePermutations` | lib/libtirpc/src/des_impl.c:450-455 | on longs of 64 bits the initial and the final permutation come to those on words |
| `DesWide.WideRoundWord` | lib/libtirpc/src/des_impl.c:356-367 | so does the word a round looks up, although the shifts before the look-ups leave bits above the 32nd |
| `DesWide.WideCipher` | lib/libtirpc/src/des_impl.c:440-513 | on longs of 64 bits the whole operation is the one on 32-bit words, for any tables, schedule, block and direction |
| `Des.DesEncrypt` | lib/libtirpc/src/des_impl.c:440-513 | the statements of des_encrypt, in place, compute the block operation |
| `DesTextbook.SelectsIP` | lib/libtirpc/src/des_impl.c:450-455 | the exchanges of the initial permutation put each bit where table IP of FIPS 46-3 has it |
| `DesTextbook.SelectsFP` | lib/libtirpc/src/des_impl.c:503-507 | and those of the final one where its inverse has it |
| `DesTextbook.BoxesOfRound` | lib/libtirpc/src/des_impl.c:356-367 | a round looks up, for each of the eight S-boxes, the six bits of table E added to the six bits of the key |
| `DesTextbook.FeistelOfRound` | lib/libtirpc/src/des_impl.c:356-367 | so what a round adds to a half is f (R, K) of the standard |
| `DesTextbook.EncryptingIsSingle` | lib/libtirpc/src/des_impl.c:476-483 | the encrypting loop is sixteen single rounds with keys 0 to 15 |
| `DesTextbook.DecryptingIsSingle` | lib/libtirpc/src/des_impl.c:484-491 | the decrypting loop is sixteen single rounds with keys 15 to 0 |
| `DesTextbook.CipherIsTextbook` | lib/libtirpc/src/des_impl.c:440-513 | des_encrypt, in either direction, is the block operation of FIPS 46-3 bit by bit, up to the contents of the S-box tables and the keys |
| `DesCrypt.LoadStore` | lib/libtirpc/src/des_impl.c:542-558 | a block stored as octets loads as the same block |
| `DesCrypt.StoreLoad` | lib/libtirpc/src/des_impl.c:542-558 | eight octets loaded as a block are stored as the same octets |
| `DesCrypt.BlocksInjective` | lib/libtirpc/src/des_impl.c:542-558 | a buffer is determined by its blocks |
| `DesCrypt.DecryptEncrypted` | lib/libtirpc/src/des_impl.c:536-588 | for any number of blocks, in ECB and CBC: decrypting what was encrypted under the same initial vector restores it |
| `DesCrypt.EncryptDecrypted` | lib/libtirpc/src/des_impl.c:536-588 | and encrypting what was decrypted restores that |
| `DesCrypt.EncryptSplit` | lib/libtirpc/src/des_impl.c:536-559 | encrypting two parts, the second with the vector the first left, is encrypting the whole, vector included |
| `DesCrypt.DecryptSplit` | lib/libtirpc/src/des_impl.c:560-588 | decrypting two parts is decrypting the whole if and only if CBC does not have to chain across an empty first part, which zeroes the vector |
| `DesCrypt.EcbIgnoresVector` | lib/libtirpc/src/des_impl.c:544-582 | in ECB the vector has no influence |
| `DesCrypt.EncryptBuffer` | lib/libtirpc/src/des_impl.c:536-559 | the in-place loop encrypts exactly the first len octets and leaves the last ciphertext block as the vector |
| `DesCrypt.DecryptBuffer` | lib/libtirpc/src/des_impl.c:560-588 | the in-place loop decrypts exactly the first len octets and leaves the last ciphertext block, or zeroes, as the vector |
| `DesCrypt.DesCryptBuffer` | lib/libtirpc/src/des_impl.c:516-594 | both directions and modes, in place, with the vector they leave |
| `DesCrypt.CommonCrypt` | lib/libtirpc/src/des_crypt.c:120-146 | refuses exactly what is not whole blocks or too long, and then touches nothing; otherwise the buffer is en- or decrypted |
| `DesCrypt.CbcCrypt` | lib/libtirpc/src/des_crypt.c:70-91 | CBC on the caller's buffer and vector |
| `DesCrypt.EcbCrypt` | lib/libtirpc/src/des_crypt.c:97-113 | ECB on the caller's buffer |
| `DesCrypt.CbcRoundTrip` | lib/libtirpc/src/des_crypt.c:70-91 | for every length, accepted or not: en- and then decrypting (or the reverse) under the same vector leaves the buffer as it was |
| `DesModes.BitsOfLoad` | lib/libtirpc/src/des_impl.c:299-307 | eight octets are the 64 bits of a block in the order of the wire |
| `DesModes.EncryptedIs` | lib/libtirpc/src/des_impl.c:530-559 | encrypting a buffer, in ECB and CBC mode: each block of octets comes out as the standard encrypts it after the block before it, or the vector, is added |
| `DesModes.DecryptedIs` | lib/libtirpc/src/des_impl.c:560-590 | decrypting: each block comes out as the standard decrypts it, with the block that came before it, or the vector, added |
| `DupCache.Transport.constructor` | lib/libtirpc/src/svc_dg.c:448-490 | an empty cache of the size given |
| `DupCache.Transport.Unlink` | lib/libtirpc/src/svc_dg.c:526-536 | the oldest reply's node is always found in its chain ("victim not found" cannot happen) and taken out of it |
| `DupCache.Transport.Take` | lib/libtirpc/src/svc_dg.c:520-552 | the node and the buffer for the next reply are those of the oldest reply once the ring is full, and new before that |
| `DupCache.Transport.Place` | lib/libtirpc/src/svc_dg.c:568-583 | the reply moves, buffer and all, into the node, and the node to the front of its chain |
| `DupCache.Transport.CacheSet` | lib/libtirpc/src/svc_dg.c:505-587 | the reply is cached as the newest one; all buffers stay pairwise distinct and different from the transport's own |
| `DupCache.Transport.Find` | lib/libtirpc/src/svc_dg.c:608-616 | the search along one chain finds the newest cached reply to the request |
| `DupCache.Transport.CacheGet` | lib/libtirpc/src/svc_dg.c:593-645 | refines a lookup in the log of replies: a hit if and only if one of the last `size` replies was to this request, and then the newest of them, unchanged |
| `DupCache.KeysTellApart` | lib/libtirpc/src/svc_dg.c:607-613 | two requests count as one exactly when transaction id, procedure, version, program and address agree |
| `DupCache.NotAnswered` | lib/libtirpc/src/svc_dg.c:606-645 | nothing is found for a request exactly when none of the last `size` replies cached was to one with the same five fields |
| `DupCache.AnsweredByLast` | lib/libtirpc/src/svc_dg.c:606-645 | and what is found is the last reply to it |
| `DupCache.Transport.Admit` | lib/libtirpc/src/svc_dg.c:221-230 | in the fields of the call: a request is dispatched exactly when none of the last `size` replies cached is to it; otherwise the last reply to it is sent again |
| `DupCache.Transport.ReceiveInto` | lib/libtirpc/src/svc_dg.c:190-201 | a datagram received overwrites the transport's buffer and no cached reply |
| `DupCache.Transport.Recv` | lib/libtirpc/src/svc_dg.c:175-231 | every alternation of requests and replies keeps the cache coherent; a call, given by its five fields, is answered only with a reply cached for the same five, and otherwise dispatched; none is dispatched while a reply to it is among the last `size` cached |
| `DupCache.Transport.Reply` | lib/libtirpc/src/svc_dg.c:233-283 | what was sent in full is what is cached, under the request being answered |
| `DupCache.ChainSearch` | lib/libtirpc/src/svc_dg.c:608-616 | for any replies: the first match in the chain of the request's xid is the newest match of all |
| `DupCache.LookupFinds` | lib/libtirpc/src/svc_dg.c:593-645 | the lookup misses if and only if no reply considered has that key |
| `DupCache.NewestIsLookup` | lib/libtirpc/src/svc_dg.c:593-645 | the newest slot with a key holds the reply the log has newest |
| `DupCache.OldestUnlinked` | lib/libtirpc/src/svc_dg.c:526-536 | taking the oldest slot out of its chain leaves every chain of the table as it should be |
| `DupCache.NewestLinked` | lib/libtirpc/src/svc_dg.c:581-583 | putting a new slot in front of its chain leaves every chain of the table as it should be |
| `DupCache.RingAdvances` | lib/libtirpc/src/svc_dg.c:584-585 | overwriting the ring at its next victim keeps it in order of age |
| `DupCache.RingVictim` | lib/libtirpc/src/svc_dg.c:524-525 | the next victim is empty exactly while the ring is not full, and otherwise the oldest node |
| `DupCache.MissMeansOld` | lib/libtirpc/src/svc_dg.c:593-645 | a request that misses had every earlier reply to it followed by at least `size` others |
| `DupCache.RingNodes` | lib/libtirpc/src/svc_dg.c:584-585 | the ring has exactly the nodes of the cached replies |
| `DupCache.EachNodeInOneChain` | lib/libtirpc/src/svc_dg.c:505-587 | in every reachable state a node is in the ring exactly when it is in the chain its xid hashes to, once, and no chain has another node |
| `XdrMem.MemStream.constructor` | lib/libtirpc/src/xdr_mem.c:90-103 | a stream over that many octets, aligned or not |
| `XdrMem.MemStream.Inline` | lib/libtirpc/src/xdr_mem.c:227-250 | succeeds exactly on an aligned stream with that many octets left |
| `XdrMem.MemStream.GetLong` | lib/libtirpc/src/xdr_mem.c:113-155 | the number that the next four octets write, exactly when that many are left |
| `XdrMem.MemStream.PutLong` | lib/libtirpc/src/xdr_mem.c:127-171 | the word stands at the position, written as the number it is, exactly when four octets are left; what was written before stays |
| `XdrMem.MemStream.GetBytes` | lib/libtirpc/src/xdr_mem.c:173-186 | the next octets, exactly when that many are left |
| `XdrMem.MemStream.PutBytes` | lib/libtirpc/src/xdr_mem.c:188-201 | the octets stand at the position, exactly when there is room; what was written before stays |
| `XdrMem.MemStream.SetPos` | lib/libtirpc/src/xdr_mem.c:212-225 | a position is accepted up to the end of the buffer, which stays where it is |
| `XdrMem.MemStream.DecodeOpaque` | lib/libtirpc/src/xdr.c:573-617 | the octets, with their padding passed over, exactly when all of it is there |
| `XdrMem.MemStream.EncodeOpaque` | lib/libtirpc/src/xdr.c:573-617 | the octets and zeroes up to a whole word, exactly when there is room |
| `XdrMem.MemStream.DecodeBytes` | lib/libtirpc/src/xdr.c:625-684 | a counted sequence, refused exactly when it is too long or cut short |
| `XdrMem.MemStream.EncodeBytes` | lib/libtirpc/src/xdr.c:625-684 | length, octets and padding, refused exactly when too long or without room |
| `CallMsg.WireLayout` | lib/libtirpc/src/rpc_callmsg.c:48-101 | the octets of a call, field by field: transaction id, 0, 2, program, version, procedure, and twice flavor, length, octets and padding; at most 400 octets of credentials |
| `CallMsg.ParseOfWire` | lib/libtirpc/src/rpc_callmsg.c:184-195 | whatever the padding holds, a message on the wire is read back as itself, and what follows it is left |
| `CallMsg.WireOfParse` | lib/libtirpc/src/rpc_callmsg.c:184-195 | whatever is accepted is a message of the format, of the size used |
| `CallMsg.DecodeAuth` | lib/libtirpc/src/rpc_prot.c:59-72 | credentials of at most MAX_AUTH_BYTES octets, exactly as in the format |
| `CallMsg.DecodeFields` | lib/libtirpc/src/rpc_callmsg.c:184-195 | the field-by-field path accepts exactly the messages of the format |
| `CallMsg.FastMessage` | lib/libtirpc/src/rpc_callmsg.c:102-182 | the inline path accepts exactly the messages of the format and ends at the same position |
| `CallMsg.Decode` | lib/libtirpc/src/rpc_callmsg.c:102-195 | fast path and slow path refine the same reading: same inputs accepted, same message, same final position |
| `CallMsg.EncodeAuth` | lib/libtirpc/src/rpc_prot.c:59-72 | credentials as the format has them, padded with zeroes |
| `CallMsg.EncodeFields` | lib/libtirpc/src/rpc_callmsg.c:184-195 | the field-by-field path sends exactly the sendable messages that fit, with zeroes for padding |
| `CallMsg.FastAuth` | lib/libtirpc/src/rpc_callmsg.c:83-98 | credentials inline, with the padding as the buffer had it |
| `CallMsg.Encode` | lib/libtirpc/src/rpc_callmsg.c:59-101 | both paths send the same messages in the same form outside the padding |
| `CallMsg.RoundTrip` | lib/libtirpc/src/rpc_callmsg.c:48-196 | for each of the four pairings of paths: what is sent is received |
| `Negotiation.RegisteredIs` | lib/libtirpc/src/svc.c:707-734 | the versions of a program are those it has an entry with |
| `Negotiation.Dispatch` | lib/libtirpc/src/svc.c:707-734 | the bounds reported are the least and the greatest registered version of the program, or that there is none |
| `Negotiation.CreateVers` | lib/libtirpc/src/clnt_generic.c:79-132 | for any registered versions: the greatest one in the range, or none, if and only if the range is not empty or its upper end is not registered; the first call is made without comparing the bounds |
| `GssWindow.SmallDifference` | lib/libtirpc/src/svc_auth_gss.c:656-656 | up to 2^31 the int difference of two sequence numbers is their difference, except for 2^31 and 0 |
| `GssWindow.RuleIs` | lib/libtirpc/src/svc_auth_gss.c:649-663 | the window is the 32 numbers that the mask has a bit for |
| `GssWindow.Context.CheckSeq` | lib/libtirpc/src/svc_auth_gss.c:649-669 | for every word: the verdict follows the window rule (newer than all, or within the window and not passed before, section 5.3.3.1 of RFC 2203) if and only if it is not number 0 with seqlast at MAXSEQ; otherwise the mask goes on recording exactly what has passed |
| `GssWindow.NoneTwice` | lib/libtirpc/src/svc_auth_gss.c:649-669 | by the rule no number of any run passes twice |
| `GssWindow.NewestPasses` | lib/libtirpc/src/svc_auth_gss.c:649-669 | and every new maximum up to MAXSEQ passes |
| `GssWindow.Run` | lib/libtirpc/src/svc_auth_gss.c:649-669 | over any run of numbers the verdicts are those of the rule if and only if no 0 comes after MAXSEQ; numbers above MAXSEQ are refused; without such a 0 none passes twice and every new maximum passes |
| `GssWindow.ReplayAfterMaxSeq` | lib/libtirpc/src/svc_auth_gss.c:656-660 | counterexample: after MAXSEQ and then 0, whose difference wraps around, a number that was the newest before passes a second time |
| `GssCache.Cache.Lookup` | lib/libtirpc/src/svc_auth_gss.c:516-532 | the pointer that leads to the transport's entry, or to the end of the list |
| `GssCache.Cache.Use` | lib/libtirpc/src/svc_auth_gss.c:535-549 | the entry is renewed and moved to the front, the others keep order and time |
| `GssCache.Cache.DestroyCold` | lib/libtirpc/src/svc_auth_gss.c:552-568 | frees from the first cold entry on, each entry once |
| `GssCache.Cache.CutAt` | lib/libtirpc/src/svc_auth_gss.c:562-567 | the loop that frees through the pointer to the pointer cuts the list there |
| `GssCache.Cache.FindOrMake` | lib/libtirpc/src/svc_auth_gss.c:591-611 | the transport's entry, or a new one at the end of the list |
| `GssCache.Cache.Renew` | lib/libtirpc/src/svc_auth_gss.c:591-612 | finding, making and renewing keeps the list in descending order with distinct transports |
| `GssCache.Cache.DropCold` | lib/libtirpc/src/svc_auth_gss.c:552-568 | on a list in that order, cutting at the first cold entry drops exactly the cold ones |
| `GssCache.Cache.Touch` | lib/libtirpc/src/svc_auth_gss.c:589-614 | for a clock that does not go back: exactly the expired entries are freed, never the one in use, and the order is kept |
| `GssCache.Cache.Destroy` | lib/libtirpc/src/svc_auth_gss.c:808-832 | takes exactly the entry of that context out of the list, if it is still there |
| `GssCache.FirstCold` | lib/libtirpc/src/svc_auth_gss.c:557-560 | in descending order of times the cold entries are the last ones |
| `GssCache.StillOrdered` | lib/libtirpc/src/svc_auth_gss.c:535-549 | moving the latest entry to the front keeps the descending order |
| `GssCache.ColdElements` | lib/libtirpc/src/svc_auth_gss.c:562-567 | the entries cut off are exactly the cold ones of the list |
| `AuthDes.FrontIsPermutation` | lib/libtirpc/src/svc_auth_des.c:384-399 | moving a slot to the front keeps the order a permutation of the slots |
| `AuthDes.FrontIsByLastUse` | lib/libtirpc/src/svc_auth_des.c:384-399 | and keeps it the order of last use |
| `AuthDes.ShortIs` | lib/libtirpc/src/svc_auth_des.c:191-196 | a nickname means the slot that its lowest 16 bits write, and none if they write 64 or more |
| `AuthDes.BeforeIs` | lib/libtirpc/src/svc_auth_des.c:72-72 | well-formed times are compared as microseconds |
| `AuthDes.TimelyIs` | lib/libtirpc/src/svc_auth_des.c:254-273 | a timestamp is fresh exactly when less than the window, in microseconds, has passed since |
| `AuthDes.Cache.constructor` | lib/libtirpc/src/svc_auth_des.c:352-369 | an empty table and some order of the slots |
| `AuthDes.Cache.Victim` | lib/libtirpc/src/svc_auth_des.c:375-379 | the slot whose last use is the longest ago |
| `AuthDes.Cache.Shift` | lib/libtirpc/src/svc_auth_des.c:392-398 | the shifting loop ends within bounds and moves exactly that slot to the front |
| `AuthDes.Cache.Ref` | lib/libtirpc/src/svc_auth_des.c:384-399 | the order stays a permutation sorted by last use, with the slot in front and its use noted |
| `AuthDes.Cache.Spot` | lib/libtirpc/src/svc_auth_des.c:407-433 | -1 exactly for a replay; else the conversation's slot, or the least recently used one when there is none |
| `AuthDes.Cache.Check` | lib/libtirpc/src/svc_auth_des.c:234-275 | accepts exactly credentials with a matching window verifier, a fresh well-formed timestamp and no later one on record, and gives each other one the status it is refused with |
| `AuthDes.StillRecalled` | lib/libtirpc/src/svc_auth_des.c:317-344 | whatever slot a call uses: since an accepted call, every slot has been used, or some slot still holds its conversation with no earlier timestamp |
| `AuthDes.EarlierIsForgotten` | lib/libtirpc/src/svc_auth_des.c:407-433 | a timestamp before that of an accepted call passes the table only when every slot has been used since |
| `AuthDes.ManyBetween` | lib/libtirpc/src/svc_auth_des.c:375-399 | slots used between two calls were used by as many accepted calls |
| `AuthDes.Cache.Commit` | lib/libtirpc/src/svc_auth_des.c:317-333 | exactly the slot is written, its use and the call are noted, and the log stays guarded |
| `AuthDes.Cache.Authenticate` | lib/libtirpc/src/svc_auth_des.c:239-344 | at most one slot holds a key and name; a call is accepted exactly when acceptable; a refused call changes nothing; in every run an earlier timestamp was accepted for a conversation only after every slot had been used |
| `AuthDes.Cache.EarlierRefused` | lib/libtirpc/src/svc_auth_des.c:256-266 | until every slot has been used since an accepted call, an earlier timestamp for its conversation is refused, under the full name and under the nickname |
| `AuthDes.Run` | lib/libtirpc/src/svc_auth_des.c:239-344 | over any run of calls by full names and nicknames: between two accepted for one conversation, of which the later has the earlier timestamp, every slot is used, by at least as many accepted calls as there are slots |
| `AuthDes.EarlierAccepted` | lib/libtirpc/src/svc_auth_des.c:375-379 | and then it can happen: once a new conversation has taken the slot of the one unused longest, a timestamp before the last one of that is accepted |
| `DatagramCall.Client.Wait` | lib/libtirpc/src/clnt_dg.c:403-417 | interrupted polls change nothing |
| `DatagramCall.Client.Receive` | lib/libtirpc/src/clnt_dg.c:470-492 | a packet overlays the buffer and is looked at exactly when it has four octets and the transaction id of the call; EWOULDBLOCK counts as a long packet |
| `DatagramCall.Client.Turn` | lib/libtirpc/src/clnt_dg.c:403-534 | one wait for a reply and where the call goes from there |
| `DatagramCall.Client.Attempt` | lib/libtirpc/src/clnt_dg.c:377-534 | the loop at send_again refines the steps of the call |
| `DatagramCall.Client.Marshal` | lib/libtirpc/src/clnt_dg.c:346-375 | every marshalling takes the next transaction id; a zero timeout sends nothing |
| `DatagramCall.Client.Call` | lib/libtirpc/src/clnt_dg.c:280-544 | the goto loops refine the steps: same outcome, same packets, same buffer for any sequence of arrivals |
| `DatagramCall.Ceil` | lib/libtirpc/src/clnt_dg.c:403-408 | the number of intervals begun in the time of a call |
| `DatagramCall.StepPaced` | lib/libtirpc/src/clnt_dg.c:377-534 | every step spends one interval, one refresh or nothing for one packet or nothing |
| `DatagramCall.SendBound` | lib/libtirpc/src/clnt_dg.c:346-534 | in every run a call sends at most one packet for each interval begun and one for each refresh, and none without time |
| `DatagramCall.Terminates` | lib/libtirpc/src/clnt_dg.c:346-534 | with a retry interval of at least a millisecond, every call ends after as many uninterrupted waits as there are intervals begun and refreshes |
| `DatagramCall.SilentRun` | lib/libtirpc/src/clnt_dg.c:403-408 | without any answer a call sends exactly one packet for each interval begun and then times out, so the bound is reached |
| `DatagramCall.BoundedExactly` | lib/libtirpc/src/clnt_dg.c:377-408 | the number of packets is bounded if and only if the retry interval is at least a millisecond or there is no time |
| `DatagramCall.MillisOf` | lib/libtirpc/src/clnt_dg.c:320-321 | times are cut to whole milliseconds |
| `DatagramCall.BeginWaits` | lib/libtirpc/src/clnt_dg.c:346-402 | what a call comes to before it first waits |
| `DatagramCall.IdleRun` | lib/libtirpc/src/clnt_dg.c:403-534 | with no answer or failure among the arrivals - silence, interruptions, packets of other calls - a call goes on with one packet an interval until its time has gone, and then times out |
| `DatagramCall.ReplyEnds` | lib/libtirpc/src/clnt_dg.c:470-499 | the first packet in time that starts with the id of the last packet sent ends the call with that packet and its length |
| `DatagramCall.RefreshGoesOn` | lib/libtirpc/src/clnt_dg.c:499-534 | an authentication error whose refresh succeeds, with refreshes left, is followed by a packet with the next id, for which the call waits with the time it has left |
| `DatagramCall.FailureEnds` | lib/libtirpc/src/clnt_dg.c:418-478 | a failing poll, an error report or a failing receive ends the call |
| `DatagramCall.CallAnswered` | lib/libtirpc/src/clnt_dg.c:280-544 | from the beginning: a reply that comes in fewer uninterrupted turns than there are intervals begun is what the call ends with |
| `DatagramCall.DecodesOwnReply` | lib/libtirpc/src/clnt_dg.c:357-492 | in every run the reply decoded starts with the id of the last packet sent, and ids go up by one with each marshalling |
| `DatagramCall.DecodesWhatArrived` | lib/libtirpc/src/clnt_dg.c:470-499 | what is decoded is the packet just received, unless recvfrom failed with EWOULDBLOCK |
| `DatagramCall.StaleReplyDecoded` | lib/libtirpc/src/clnt_dg.c:474-499 | exactly when old bytes in the buffer carry the id, EWOULDBLOCK lets a call end with them |
| `Netconfig.EntriesInOrder` | lib/libtirpc/src/getnetconfig.c:295-341 | the entries of a file stand in the order of their lines; comments and lines that do not parse have none |
| `Netconfig.SpoiltIs` | lib/libtirpc/src/getnetconfig.c:295-330 | a file starts badly when a line that does not parse has only comments before it |
| `Netconfig.AfterTakesOne` | lib/libtirpc/src/getnetconfig.c:295-302 | one line is read, comments aside: the next entry, or a line that does not parse |
| `Netconfig.ReadOne` | lib/libtirpc/src/getnetconfig.c:295-341 | list and rest of the file together stay the file, whatever the next line is |
| `Netconfig.ReadPrefix` | lib/libtirpc/src/getnetconfig.c:250-271 | the list is a prefix of the file's entries, and all of them at its end |
| `Netconfig.Database.Open` | lib/libtirpc/src/getnetconfig.c:181-208 | a session more, on the open file or on what fopen finds; ref is the number of live sessions |
| `Netconfig.Database.ReadLine` | lib/libtirpc/src/getnetconfig.c:295-302 | the next line that is no comment, or none at the end |
| `Netconfig.Database.Append` | lib/libtirpc/src/getnetconfig.c:335-341 | one more node at the end of the list |
| `Netconfig.Database.ReadEntry` | lib/libtirpc/src/getnetconfig.c:279-345 | the next entry of the file is appended and is where this session stands; the others stay |
| `Netconfig.Database.Advance` | lib/libtirpc/src/getnetconfig.c:250-262 | a session moves to the next node of the list, if there is one |
| `Netconfig.Database.Next` | lib/libtirpc/src/getnetconfig.c:220-345 | under any interleaving a session gets the entries of the file, each from its own place on; the one it gets is the next for it if and only if it is not a session that had none since its first call met a line that does not parse, with other entries already in the list; an entry is missed only in a file that starts so and has two entries |
| `Netconfig.GetEntry` | lib/libtirpc/src/getnetconfig.c:250-345 | calls until there is an entry yield the first one that is not in the list |
| `Netconfig.Database.FreeList` | lib/libtirpc/src/getnetconfig.c:394-401 | each node freed once, from the front, and none read after that |
| `Netconfig.Database.Reset` | lib/libtirpc/src/getnetconfig.c:390-406 | list, flags and file back to where they started |
| `Netconfig.Database.End` | lib/libtirpc/src/getnetconfig.c:356-409 | nodes are freed exactly when the last session ends |
| `Netconfig.EntryMissed` | lib/libtirpc/src/getnetconfig.c:250-327 | in every file with at least two entries whose first line does not parse, a session can miss an entry: it gets the second one first |
| `FdLockList.LockList.Find` | lib/libtirpc/src/clnt_fd_locks.h:170-172 | the item of the descriptor, or none |
| `FdLockList.LockList.Create` | lib/libtirpc/src/clnt_fd_locks.h:160-189 | the list with one reference more to the descriptor's item, which is made if there is none |
| `FdLockList.LockList.Remove` | lib/libtirpc/src/clnt_fd_locks.h:201-201 | the item, and no other, leaves the list |
| `FdLockList.LockList.Destroy` | lib/libtirpc/src/clnt_fd_locks.h:192-205 | one reference less, and the item gone exactly with its last one |
| `FdLocks.AcquireCounts` | lib/libtirpc/src/clnt_fd_locks.h:160-189 | references stay the number of handles on the descriptor when one is made |
| `FdLocks.ReleaseCounts` | lib/libtirpc/src/clnt_fd_locks.h:192-205 | and when one is destroyed; the item goes exactly with the last handle |
| `FdLocks.MutexedKept` | lib/libtirpc/src/clnt_vc.c:355-359 | every step keeps: the mutex is held by exactly the thread whose program says so |
| `FdLocks.CountedKept` | lib/libtirpc/src/clnt_vc.c:215-236 | every step keeps: each handle points to an item in the list, and references count the handles |
| `FdLocks.HeldKept` | lib/libtirpc/src/clnt_vc.c:640-672 | every step of any thread, whatever the callers do, keeps: who makes a handle, holds the mutex for it or is in a call on it has the handle |
| `FdLocks.ReferringKept` | lib/libtirpc/src/clnt_vc.c:640-672 | every step that is careful keeps: no thread refers to a handle that is gone |
| `FdLocks.BaseKept` | lib/libtirpc/src/clnt_vc.c:333-672 | every step of any thread, careful or not, keeps mutex, references, flags and exclusion together |
| `FdLocks.FlaggedKept` | lib/libtirpc/src/clnt_vc.c:153-159 | every step keeps: an item is active exactly while some thread is in a call on its descriptor |
| `FdLocks.OneCallKept` | lib/libtirpc/src/clnt_vc.c:355-359 | every step keeps: at most one call on a descriptor |
| `FdLocks.QuietKept` | lib/libtirpc/src/clnt_vc.c:493-500 | every step keeps: no call is in progress beside freeres or destroy |
| `FdLocks.StepKeeps` | lib/libtirpc/src/clnt_vc.c:333-672 | every careful step keeps that and that nobody refers to a handle that is gone |
| `FdLocks.Exclusion` | lib/libtirpc/src/clnt_vc.c:355-359 | two threads are never both inside a descriptor's critical section |
| `FdLocks.Safe` | lib/libtirpc/src/clnt_vc.c:177-672 | any number of threads, handles and shared descriptors, any callers, any interleaving: no lock item is freed while a handle points to it, references are the handles made and not given back, and critical sections of a descriptor never overlap |
| `FdLocks.CarelessDooms` | lib/libtirpc/src/clnt_vc.c:153-159 | in any run, destroying a handle that another thread uses, or using one that is to be destroyed, lets threads that only go on be left with a handle that is gone |
| `FdLocks.CareNeeded` | lib/libtirpc/src/clnt_vc.c:640-672 | a run is one of careful callers if and only if none of its states lets a thread be left with a handle that is gone; a careful run never leaves one |
| `FdLocks.StoryOfRun` | lib/libtirpc/src/clnt_vc.c:177-330 | in any run, threads, handles and descriptors are where its actions alone say |
| `FdLocks.HandlesOfRun` | lib/libtirpc/src/clnt_vc.c:232-330 | in any run, by any callers: a handle is live exactly when its connect went on and it was not destroyed; one whose connect failed keeps its reference, and nothing is ever begun on it |
| `FdLocks.TwoSteps` | lib/libtirpc/src/clnt_vc.c:355-359 | with the mutex free and no call on the descriptor, a thread that wants to call, free results or destroy is inside after two steps of its own |
| `FdLocks.CallEnds` | lib/libtirpc/src/clnt_vc.c:153-159 | when a call ends, no call is on the descriptor and the mutex is free |
| `FdLocks.NobodyShutOut` | lib/libtirpc/src/clnt_vc.c:355-359 | in every state of a careful run, every waiting thread can still get in, though nobody does more than what has begun |
| `FdLocks.BeginnerGetsIn` | lib/libtirpc/src/clnt_vc.c:333-672 | in particular who begins an operation on a handle can get in for that operation on that handle |
| `RpcbCodec.StringLayout` | lib/libtirpc/src/xdr.c:759-835 | a string is its length, its octets and zeroes up to a multiple of four; at most 9000 octets |
| `RpcbCodec.StringRoundTrip` | lib/libtirpc/src/xdr.c:759-835 | a string of at most RPC_MAXDATASIZE octets is read back, whatever follows |
| `RpcbCodec.ListLayout` | lib/libtirpc/src/rpcb_prot.c:46-140 | a list is, for each element, 1 and its fields in order, and 0 at the end |
| `RpcbCodec.RpcbRoundTrip` | lib/libtirpc/src/rpcb_prot.c:46-68 | an element is read back |
| `RpcbCodec.ListRoundTrip` | lib/libtirpc/src/rpcb_prot.c:92-140 | a list of any length in the recursive optional-data form is read back, and what follows is left (section 4.19 of RFC 4506) |
| `RpcbCodec.AcceptedSize` | lib/libtirpc/src/rpcb_prot.c:92-140 | whatever is accepted has the size of its encoding |
| `RpcbList.GetFields` | lib/libtirpc/src/rpcb_prot.c:46-68 | the fields in order, up to the first that fails |
| `RpcbList.DecodeElement` | lib/libtirpc/src/xdr_reference.c:60-96 | a new node in the slot, filled as far as the input goes; the list stays linked |
| `RpcbList.Decode` | lib/libtirpc/src/rpcb_prot.c:92-140 | the loop accepts exactly what the recursive definition accepts and builds that list; all it allocates is in the list, also when it fails |
| `RpcbList.FreeRpcb` | lib/libtirpc/src/rpcb_prot.c:46-68 | all strings of the element are freed exactly when none is too long |
| `RpcbList.Free` | lib/libtirpc/src/rpcb_prot.c:92-140 | each node is freed once and none is touched after; the pass reaches the end exactly when no string is too long |
| `RpcbList.Discard` | lib/libtirpc/src/rpcb_prot.c:92-140 | for any input, decodable or not: freeing what was decoded leaves memory as it was |
| `RpcbList.EmitsTheList` | lib/libtirpc/src/rpcb_prot.c:92-140 | the bytes of a list in memory are those of the recursive definition |
| `RpcbList.Restored` | lib/libtirpc/src/rpcb_prot.c:92-140 | encoding and decoding restores a list if and only if no string contains a zero octet |
| `RpcbList.Encode` | lib/libtirpc/src/rpcb_prot.c:92-140 | the loop writes exactly those bytes, and fails exactly when a string is null or too long or there is no room |
| `Cornflake.Registry.Register` | src/cornflakes/cornflake.c:5-37 | the first registration with a version other than 0 is kept; later ones change nothing |
| `Cornflake.RegisterAll` | src/cornflakes/cornflake.c:40-65 | after any sequence of registrations a lookup finds exactly the first one with a version other than 0, by its program, version and procedure and by direction |
| `Cornflake.ReplyLayout` | src/flexrpc/flexrpc_prot.c:7-70 | the octets of each kind of reply |
| `Cornflake.ReplyRoundTrip` | src/flexrpc/flexrpc_prot.c:7-70 | every reply that can be sent, accepted with any status or refused for its version, is read back |
| `Cornflake.CallLayout` | src/flexrpc/flexrpc_prot.c:75-87 | the octets of a call, field by field: transaction id, 0, 8, program, version, procedure, arguments |
| `Cornflake.CallRoundTrip` | src/cornflakes/cornflake.c:67-93 | a call is read as the fields it was written with |
| `Cornflake.HeaderSize` | src/flexrpc/flexrpc_prot.c:75-87 | a call header can be written exactly when its fields fit 32 bits |
| `Cornflake.PutCallHeader` | src/flexrpc/flexrpc_prot.c:75-87 | version, direction and fields of a call header |
| `Cornflake.PutReply` | src/flexrpc/flexrpc_prot.c:7-70 | the bytes of a reply; authentication errors and unknown kinds are refused |
| `Cornflake.SerializeCall` | src/cornflakes/cornflake.c:67-93 | TRUE exactly when the header was written; complete exactly when there was room for all of it |
| `Cornflake.SerializeReply` | src/cornflakes/cornflake.c:99-107 | the reply with its header, which is left out without failure when the transaction id does not fit |
| `Cornflake.GetCall` | src/flexrpc/flexrpc_cmsg.c:32-69 | for every input, short ones included: the fields afterwards and what is left are those of the reading by value; it succeeds exactly with 16 octets of the known version |
| `Cornflake.GetReply` | src/flexrpc/flexrpc_prot.c:7-70 | accepts exactly the replies of the format |
| `Cornflake.Deserialize` | src/cornflakes/cornflake.c:124-150 | for every input: fields, arguments, reply, outcome and what is left; the failure of a call header is ignored, one cut short is read again from the transaction id, and an unregistered program means a call of the null routine |
| `Cornflake.CallArrives` | src/cornflakes/cornflake.c:67-150 | a call to the registered program arrives with every field and its arguments, exactly when the procedure number fits 32 bits |
| `Cornflake.ReplyArrives` | src/cornflakes/cornflake.c:99-150 | a reply arrives as it was sent, for any results routine that round-trips |

## Left out

- Allocation failures, and everything done after one.
- Record streams: `xdrrec_getpos`, `xdrrec_setpos` and `xdrrec_inline`; what is sent after a write has failed; a blocking
  read that returns 0; skipping records on a non-blocking stream.
- WriteIt: a connection that breaks takes all it can before that; what it takes of the last write makes no difference to
  any other claim.
- GetRec: records of several fragments are not put together, because the code does not.
- DES: the contents of the S-box tables and the key schedule are parameters, so conformance is proved up to them; nothing
  is said about strength. Builds with `BROKEN_DES` exchange the two modes.
- EcbCrypt: the vector of an ECB call is uninitialised in C and zero here; it has no influence.
- Duplicate cache: enabling it with size 0 (the modulus would be 0), packet-info control messages, debug output, and the
  buffer for the caller's address, which is a value here.
- Decode: a refused call message may have filled part of the message; nothing is said of those fields.
- Encode: credentials are shorter than 2^32 octets, as their length field is; a length field that differs from the
  credentials is not modelled.
- CreateVers: creating the handle succeeds, the null procedure succeeds for a registered version, and services do not
  change during the negotiation.
- CheckSeq: shifts by 32 bits or more, which C leaves undefined, are read as leaving no bits. For number 0 with seqlast
  at MAXSEQ `offset = 0 - offset` (lines 656-659) overflows an int, which C leaves undefined too; it is read as 2^31.
- The rest of `_svcauth_gss` and `_svcauth_des`: credentials, checksums, keys, statistics and cached local credentials.
- Authenticate: the caller's credential is not rewritten, and a stored name is never lost to a failed allocation.
- Client.Call: the asynchronous mode; times whose milliseconds exceed an int; negative time values; `recvfrom` repeated
  after EINTR, which changes nothing; the credentials themselves.
- getnetconfigent, getnetpath handles, handles that are null or already ended, and how a line is parsed. Lines longer
  than the buffer count as several, as fgets returns them.
- FdLocks: liveness, since one waiter at a time is woken; preallocated locks; the mutex that a failed allocation leaves
  locked; more than 2^32 - 1 handles on a descriptor. The datagram client uses the locks the same way, except that its
  freeres leaves the lock active.
- Safe: runs are followed up to the first use of a handle that is gone: a thread whose handle is gone takes no further
  step, and no operation begins on such a handle.
- AuthDes.Run: a slot without a name, which a nickname can reach before any full name has, holds no conversation.
- RpcbList: memory is a map from addresses to nodes, and an address is never given out again; strings are values with or
  without a null pointer. Decoding starts from a null pointer.
- Cornflake: coding routines are pure functions that write all of a value or nothing; a reply's results routine is a
  parameter, as the caller has put it into the message; arguments and results are values of one type; debug output.
- Cornflake.SerializeCall: the program is registered; otherwise the code calls the null routine.
- `src/flexrpc/flexxdr_rec.c`, which is unfinished, and second registrations, which the code never links.
- Sockets, signals, thread-specific data, GSS-API, keyserver, NIS and passwd lookups, rpcbind's start-up and access
  checks, printing of errors, VAX floats, and generated code.
