# Verified models of pval and its tcpdump

pval is a Linux kernel module that records packets in per-CPU rings with hardware timestamps and marks outgoing
IPv4 packets with an IP option carrying a sequence number; the repository also carries the tcpdump that prints what
was recorded. This project models the parts of both that carry the hard logic and proves what they promise:

- **Checksums.** tcpdump's `in_cksum` over scattered chunks at any alignment, the module's own sender-side checksum,
  CRC-10 by table, and the OSI Fletcher generator, each against its defining arithmetic.
- **Option insertion.** The overlapping in-place moves of `pval_xmit`, up to what a receiver then reads and verifies.
- **The ring.** The slot ring as a bounded FIFO over every run, and under every interleaving of its producer and reader.
- **Clones.** The transmit clones and the timestamp workers that outlive the transmission, under every interleaving.
- **Addresses.** IPv4 and IPv6 text against a reference parser, and the chained hash tables that cache names.
- **Decoders.** Radiotap fields, 802.11 elements, Babel prefix compression, and two BGP format guesses, each against
  an encoder or a plain grammar.

The model follows the form of the C code: buffers are arrays, structures updated in place are classes, loops are
loops with invariants, and each method is proved against a specification function or predicate. Integers are
unbounded in Dafny, so widths, wrap-around and truncating division are written out where the code depends on them.
`dafny verify dfyconfig.toml` checks everything.

## Files

| file | subject |
|---|---|
| `Bytes.dfy` | octets, words in either byte order, integers as octets |
| `OnesComplement.dfy` | the one's complement sum of RFC 1071 and its arithmetic |
| `InCksum.dfy`, `PvalChecksum.dfy` | the two checksum implementations |
| `PvalXmit.dfy` | the IP option inserted in place, and its receiver |
| `Ring.dfy`, `RingDevice.dfy`, `RingProtocol.dfy` | the ring, the device around it, and its concurrent protocol |
| `TxClone.dfy` | clones and timestamp workers |
| `Crc10.dfy`, `Fletcher.dfy` | CRC-10 and the Fletcher generator |
| `AddrText.dfy`, `Addrtostr.dfy` | address text, its reference parser, and the formatting code |
| `NameCache.dfy` | the name caches |
| `Cpack.dfy`, `Radiotap.dfy` | aligned field unpacking and the radiotap presence loop |
| `Elements.dfy` | 802.11 information elements |
| `Babel.dfy` | Babel TLVs and prefix decompression |
| `Bgp.dfy`, `BgpAsPath.dfy` | add-path and AS-path guesses |

## Model

| member | source | states |
|---|---|---|
| `OnesComplement.OnesSumIsByteSum` | tcpdump/in_cksum.c:56-148 | the RFC 1071 end-around-carry sum of any octets is congruent to their positional sum, and zero exactly when that is |
| `OnesComplement.ByteSumOdd` | tcpdump/in_cksum.c:77-91 | a piece that starts at an odd offset contributes its sum in the other byte order, whatever precedes it |
| `OnesComplement.VerifiesInEitherOrder` | tcpdump/in_cksum.c:139-147 | octets that sum to all ones in one byte order do so in the other (section 2 of RFC 1071) |
| `OnesComplement.CancellingFieldVerifies` | tcpdump/in_cksum.c:156-200 | a field value that cancels the rest of a packet modulo 65535 makes the packet verify |
| `OnesComplement.VerifiesWithMore` | tcpdump/in_cksum.c:56-148 | data that verifies still does with more behind it if and only if the addition sums to one of the two zeros |
| `InCksum.ReduceSame` | tcpdump/in_cksum.c:53-54 | folding a 32-bit accumulator keeps its residue, fits 16 bits, and keeps zero apart from 65535 |
| `InCksum.AddUnrolled` | tcpdump/in_cksum.c:107-119 | the two unrolled loops add exactly the words of the longest multiple of 8 octets |
| `InCksum.AddSingly` | tcpdump/in_cksum.c:122-125 | the last loop adds the remaining whole words |
| `InCksum.EndShifted` | tcpdump/in_cksum.c:126-135 | ending a byte-swapped chunk restores the running sum's meaning, with or without an octet left over |
| `InCksum.JoinHalf` | tcpdump/in_cksum.c:77-89 | the octet saved from the last chunk and the first of this one make one word of the concatenation |
| `InCksum.AddChunk` | tcpdump/in_cksum.c:73-138 | after any chunk, empty or odd or misaligned, the running state stands for the concatenation read so far, and it is exactly the state the loops compute |
| `InCksum.InCksum` | tcpdump/in_cksum.c:56-148 | the result is the complement of the RFC 1071 sum of the concatenated octets, for every split, length and address parity, with every addition and shift of the accumulator checked to stay below the limit given |
| `InCksum.LimitsFit` | tcpdump/in_cksum.c:60 | the bound that `InCksum` needs holds for the limit of a C `int` up to 65027 octets, and for its 32-bit pattern up to 130564 |
| `InCksum.OverflowAt65028` | tcpdump/in_cksum.c:95-135 | and no further for the `int`: a vector of 65028 octets, four of them at an odd address, after which the accumulator is past 2^31 |
| `InCksum.InCksumShouldbe` | tcpdump/in_cksum.c:156-200 | the proposed field is the one's complement sum of the field and the computed value |
| `InCksum.ProposedVerifies` | tcpdump/in_cksum.c:156-200 | a packet whose field is replaced by the proposed value verifies, and a packet that already verifies keeps its field |
| `InCksum.ProposedIsComplementIff` | tcpdump/in_cksum.c:156-200 | the proposal is the complement of the sum of the rest, except exactly when the rest sums to 65535 and the field was not zero, where it is 65535 and not 0 |
| `InCksum.ProposedNotComplement` | tcpdump/in_cksum.c:195-199 | a packet in that case |
| `InCksum.Repair` | tcpdump/in_cksum.c:56-200 | `in_cksum` is 0 for any packet of up to 65027 octets, at any address, once its field holds what `in_cksum_shouldbe` makes of the first sum; nothing else changes, and a packet that verified stays as it was |
| `PvalChecksum.Checksum` | kmod/pval_main.c:450-475 | from 0 the result is the network-order RFC 1071 sum of the first `len` octets; from any other 32-bit sum it stands for the total, less one possible wrap of the first addition, exactly as long as one carry a word can fold it, and is otherwise its low 16 bits |
| `PvalChecksum.SealedVerifies` | kmod/pval_main.c:477-482 | a header whose cleared field gets the wrapped complement of its sum verifies |
| `PvalXmit.Memmove` | kmod/pval_main.c:701-702 | the octets at `dst` become the old octets at `src` for any overlap, the rest stay |
| `PvalXmit.SkBuff.OpenGap` | kmod/pval_main.c:694-702 | the push and the two overlapping moves leave the headers 12 octets earlier |
| `PvalXmit.SkBuff.GrowHeader` | kmod/pval_main.c:705-715 | option and lengths written in place equal one replacement of the header |
| `PvalXmit.SkBuff.SealHeader` | kmod/pval_main.c:716-719 | the stored checksum is the one of the 32 header octets |
| `PvalXmit.SkBuff.InsertOption` | kmod/pval_main.c:684-719 | IPv4 frames with the option on become the frame with the option; every other frame, however short, passes unchanged; only the former use a sequence number |
| `PvalXmit.GappedParts` | kmod/pval_main.c:694-702 | after the moves the MAC and IP headers are the old ones and the payload was not touched |
| `PvalXmit.InsertedInPlace` | kmod/pval_main.c:694-719 | moves and rewrites in one buffer give the same frame as building it anew |
| `PvalXmit.OptionInserted` | kmod/pval_main.c:694-719 | MAC header and payload are kept, the option stands after the header; header length grows by 3 and total length by 12 exactly when the old values leave room |
| `PvalXmit.LongHeaderBreaks` | kmod/pval_main.c:712 | a header of 13 to 15 words comes out claiming fewer than 5 |
| `PvalXmit.RemoveUndoesInsert` | kmod/pval_main.c:694-719 | taking the option out restores every octet except the checksum |
| `PvalXmit.HeaderVerifies` | kmod/pval_main.c:712-719 | the header over the length it now claims verifies if and only if the options it had before sum to zero, since only 32 octets are summed |
| `PvalXmit.PlainAndRouterAlert` | kmod/pval_main.c:712-719 | a header without options always verifies, one with a router alert option never does |
| `PvalXmit.ReceiverReadsOption` | tcpdump/print-ip.c:269-349 | walking the option area finds the pval option with the sender's CPU and sequence number, then the options there were before |
| `PvalXmit.ReceiverChecks` | tcpdump/in_cksum.c:56-148 | tcpdump's `in_cksum` of the sender's header is 0 if and only if the options it had before sum to zero, for any byte orders of sender and receiver and any buffer address |
| `Ring.PushExtends` | kmod/pval_main.c:137-140 | storing at `head` and advancing it appends one element to the occupied part |
| `Ring.PopDrops` | kmod/pval_main.c:142-145 | advancing `tail` removes exactly the oldest element |
| `Ring.PvalRing.constructor` | kmod/pval_main.c:377-391 | a new ring is valid and empty |
| `Ring.PvalRing.Zero` | kmod/pval_main.c:165-169 | the ring is empty |
| `Ring.PvalRing.TestsAreExact` | kmod/pval_main.c:127-154 | the empty and full tests hold exactly at queue lengths 0 and 1023, and `ring_read_avail` is the queue length |
| `Ring.PvalRing.Write` | kmod/pval_main.c:171-189 | when full nothing changes; otherwise one entry with the true length, the timestamp and at most 256 octets is appended, the others kept |
| `Ring.PvalRing.ReadIter` | kmod/pval_main.c:322-355 | the min(available, count) oldest slots are copied in order, each cut to its buffer, and removed |
| `RingDevice.DecodeSlot` | include/pval.h:51-59 | a reader that honours `len` decodes the entry and none of the stale octets behind it |
| `RingDevice.PvalMdev.Open` | kmod/pval_main.c:298-309 | refines the FIFO's open: busy when open, otherwise flushed |
| `RingDevice.PvalMdev.Release` | kmod/pval_main.c:311-320 | refines the FIFO's release |
| `RingDevice.PvalMdev.HandleFrame` | kmod/pval_main.c:585-602 | refines the FIFO's frame step: kept only when copying is on, the device open and the queue not full |
| `RingDevice.PvalMdev.ReadV` | kmod/pval_main.c:322-355 | refines the FIFO's read |
| `RingDevice.PvalMdev.Drive` | kmod/pval_main.c:298-355 | every run of opens, frames, reads and releases, with the copy switch changing at will, is observed exactly as the FIFO of capacity 1023 |
| `RingDevice.Conservation` | kmod/pval_main.c:171-189 | over every run, entries accepted in a session are those delivered followed by those queued |
| `RingProtocol.StoreKeeps` | kmod/pval_main.c:180-185 | a field stored by the producer changes no unread slot, at any point of the reader |
| `RingProtocol.PublishHeadKeeps` | kmod/pval_main.c:137-140 | publishing `head` makes the complete packet the newest unread one |
| `RingProtocol.PublishTailKeeps` | kmod/pval_main.c:142-145 | publishing `tail` releases exactly the slot the reader's buffer equals |
| `RingProtocol.StepKeeps` | kmod/pval_main.c:171-189 | every step of either side keeps the invariant and leaves, extends or shortens the unread slots |
| `RingProtocol.DeliveredIsPrefix` | kmod/pval_main.c:322-355 | under every interleaving the delivered packets are a prefix of the accepted ones, and the rest are the unread slots in order |
| `RingProtocol.SoloWrite` | kmod/pval_main.c:171-189 | the producer's steps with nobody between them are the sequential write: nothing when full, otherwise the packet is the newest unread entry |
| `RingProtocol.SoloRead` | kmod/pval_main.c:344-351 | the reader's steps with nobody between them deliver the oldest unread packet |
| `TxClone.ScheduleKeeps` | kmod/pval_main.c:753-764 | handing a clone to a new worker keeps every clone with one holder |
| `TxClone.StepKeeps` | kmod/pval_main.c:223-247 | every step of a transmission or worker keeps the ownership invariant |
| `TxClone.RunIsSafe` | kmod/pval_main.c:730-774 | in every run, with the switches changing at will, nothing happens to a clone after it is freed and none is written to the ring twice |
| `TxClone.ClonesAccounted` | kmod/pval_main.c:730-774 | in every run a clone is freed exactly when no task holds it, and at most one task does |
| `TxClone.RetiredForever` | kmod/pval_main.c:231-246 | a pending worker that runs past its deadline is never queued again, whatever it finds and in any continuation |
| `TxClone.WorkerOutcome` | kmod/pval_main.c:234-243 | a worker that finds a stamp or is late frees its clone; it writes it first, and frees itself after, exactly if it was stamped |
| `TxClone.WorkerWaits` | kmod/pval_main.c:243-246 | a worker in time without a stamp has only looked, and waits with the same deadline |
| `TxClone.CopyOutcome` | kmod/pval_main.c:766-771 | without timestamping the clone is freed by the transmission, and written first exactly if the device is open |
| `TxClone.LeakedForever` | kmod/pval_main.c:744-766 | a clone that was lost is never freed |
| `TxClone.NeverFreedIff` | kmod/pval_main.c:733-771 | over every run, no continuation frees a clone if and only if some step lost it: the packet was refused, no worker could be allocated, or both switches were off when read again |
| `TxClone.RefusedLoses` | kmod/pval_main.c:744-747 | a run that loses a clone by a refused packet |
| `TxClone.SwitchedOffLoses` | kmod/pval_main.c:753-766 | a run that loses a clone by a switch turned off between the two reads |
| `TxClone.FaultIff` | kmod/pval_main.c:733-769 | while the switches stay, a clone that was not made can come to be used if and only if some task without one is bound for it under those switches |
| `TxClone.SteadySwitchesNoFault` | kmod/pval_main.c:733-769 | with switches that never change, no run uses a clone that was not made |
| `TxClone.LateSwitchFaults` | kmod/pval_main.c:733-769 | a run in which a switch turned on late leads to such a use |
| `TxClone.WorkersAreSafe` | kmod/pval_main.c:223-247 | in every run no worker structure is freed twice or used after it is freed |
| `TxClone.WorkerNeverFreedIff` | kmod/pval_main.c:229-246 | over every run, no continuation frees a worker if and only if some step lost it: it was found late and unstamped, or was made without a clone |
| `TxClone.LateWorkerIsLost` | kmod/pval_main.c:241-242 | a run for every timeout that frees a clone and loses its worker |
| `Crc10.TableIsDivision` | tcpdump/checksum.c:53-87 | each of the 256 constants is the remainder of its index |
| `Crc10.InitCrc10Table` | tcpdump/checksum.c:89-110 | the computed table is the constant one, so the assertion holds |
| `Crc10.ComputeEntry` | tcpdump/checksum.c:99-104 | eight shifts of an index are its division |
| `Crc10.AdvanceIsShiftByte` | tcpdump/checksum.c:119-121 | one table step equals eight single-bit steps of the register |
| `Crc10.VerifyCrc10` | tcpdump/checksum.c:112-124 | the table loop equals bit-by-bit division, for every message and every accumulator |
| `Crc10.RegisterIsLongDivision` | tcpdump/checksum.c:92 | the shift register computes the remainder of schoolbook long division by x^10+x^9+x^5+x^4+x+1 |
| `Crc10.DivideConcat` | tcpdump/checksum.c:117-122 | the remainder of a concatenation continues from the remainder of its first part |
| `Crc10.DivideXor` | tcpdump/checksum.c:117-122 | the remainder is linear over exclusive or |
| `Crc10.SealedDividesExactly` | tcpdump/checksum.c:112-124 | a message whose cleared last ten bits are replaced by its remainder has remainder 0 |
| `Fletcher.SumsFit32` | tcpdump/checksum.c:153-165 | up to 5803 octets the 32-bit second sum does not wrap |
| `Fletcher.CreateOsiCksum` | tcpdump/checksum.c:138-189 | the two octets returned for any offset, and, for a field inside the PDU, exactly when they complete it |
| `Fletcher.SumsReplace` | tcpdump/checksum.c:170-173 | how two octets at the checksum field change both sums |
| `Fletcher.CompletedVerifiesIff` | tcpdump/checksum.c:170-188 | the completed PDU has both Fletcher sums 0 modulo 255 if and only if neither `mul-c0-c1` nor `c1-mul` is negative and congruent to 1 modulo 255, and the 32-bit second sum wrapped a multiple of 255 times |
| `Fletcher.ClampedCounterexample` | tcpdump/checksum.c:182-183 | a four-octet PDU for which the generated octets do not verify |
| `Fletcher.WrappedCounterexample` | tcpdump/checksum.c:153-168 | a PDU of 5902 octets whose second sum wraps once, so that the generated octets do not verify |
| `AddrText.HexRoundTrip` | tcpdump/addrtostr.c:194 | the hexadecimal text of a word reads back and has no leading zero |
| `AddrText.DecRoundTrip` | tcpdump/addrtostr.c:74-87 | the decimal text of an octet reads back and has no leading zero |
| `AddrText.DottedRoundTrip` | tcpdump/addrtostr.c:61-93 | the dotted form is parsed back to the four octets |
| `Addrtostr.Addrtostr` | tcpdump/addrtostr.c:61-93 | fails exactly below 16 characters, otherwise the dotted form and its terminator stand in the buffer |
| `Addrtostr.FindBestRun` | tcpdump/addrtostr.c:126-148 | the run found is the first of the longest runs of at least two zero words, or there is none |
| `Addrtostr.CloseRun` | tcpdump/addrtostr.c:138-143 | a maximal run compared with the best so far keeps the best the first longest |
| `Addrtostr.PlainText` | tcpdump/addrtostr.c:163-210 | the characters appended one after another are the joined fields around the double colon |
| `Addrtostr.EmbeddedText` | tcpdump/addrtostr.c:181-193 | the same for the embedded IPv4 forms |
| `Addrtostr.Addrtostr6` | tcpdump/addrtostr.c:98-213 | succeeds exactly when the buffer holds what the text needs, always with 46; the text parses back to all 16 octets and elides the first longest run |
| `Addrtostr.Text6RoundTrip` | tcpdump/addrtostr.c:163-210 | the text of any address with any zero run elided is undone by the RFC 4291 parser |
| `Addrtostr.NeededBound` | tcpdump/addrtostr.c:154-162 | 46 characters are always enough |
| `Addrtostr.Intoa` | tcpdump/addrtoname.c:230-258 | the text written backwards is the dotted form |
| `NameCache.MatchesIsEquality` | tcpdump/addrtoname.c:411-563 | the words compared at a node decide the address, for every table |
| `NameCache.ChainsAreDisjoint` | tcpdump/addrtoname.c:131-139 | no node occurs twice in a chain or in two chains, and no spare node in any |
| `NameCache.GrownIsSound` | tcpdump/addrtoname.c:298-299 | filling the empty node of one chain keeps all chains sound, appends to that one and changes no other |
| `NameCache.RenamedIsSound` | tcpdump/addrtoname.c:605 | naming a node keeps all chains sound and changes that entry only |
| `NameCache.NameTables.constructor` | tcpdump/addrtoname.c:131-146 | zeroed tables are sound and hold nothing |
| `NameCache.NameTables.NewSmallNode` | tcpdump/addrtoname.c:1263-1280 | the node handed out is in no chain and not in the pool any more |
| `NameCache.NameTables.Walk` | tcpdump/addrtoname.c:293-297 | the walk stops at the first entry of the key, or at the chain's empty node when there is none |
| `NameCache.NameTables.WalkToUnnamed` | tcpdump/addrtoname.c:803-804 | looking for a node without a name stops at the same empty node |
| `NameCache.NameTables.LookupNode` | tcpdump/addrtoname.c:411-563 | the node of the first entry of the key, made at the end of its bucket if there was none; chains only grow |
| `NameCache.NameTables.NodeString` | tcpdump/addrtoname.c:574-576 | the name the key has, or else the given text, which is stored |
| `NameCache.NameTables.ReplaceString` | tcpdump/addrtoname.c:895-896 | the name stored over any the key had |
| `NameCache.NameTables.EtheraddrString` | tcpdump/addrtoname.c:565-610 | the name first stored for the address: from the name service, or its octets in pairs |
| `NameCache.NameTables.Le64addrString` | tcpdump/addrtoname.c:612-641 | the same for eight octets shown backwards |
| `NameCache.NameTables.LinkaddrString` | tcpdump/addrtoname.c:643-677 | the same for an address of any length, Ethernet ones through their own table |
| `NameCache.NameTables.IsonsapString` | tcpdump/addrtoname.c:680-710 | the same for an NSAP of 1 to 20 octets; other lengths leave the tables alone |
| `NameCache.NameTables.Query` | tcpdump/addrtoname.c:712-732 | the name first stored for the key, the given one if there was none |
| `NameCache.NameTables.TcpportString` | tcpdump/addrtoname.c:712-732 | the same for a port, whose decimal text is stored |
| `NameCache.NameTables.AddService` | tcpdump/addrtoname.c:803-815 | a new entry at the end of the bucket, even for a port that has one |
| `NameCache.NameTables.InitServarray` | tcpdump/addrtoname.c:785-818 | the tables with one entry for each tcp or udp service, in order |
| `NameCache.NameTables.IpaddrString` | tcpdump/addrtoname.c:285-338 | the name first stored; with `-n` always the dotted form |
| `NameCache.NameTables.Drive` | tcpdump/addrtoname.c:285-338 | every run of lookups, services and replacements in memory leaves the tables, and gives the answers, of the abstract run |
| `NameCache.RepeatedLookup` | tcpdump/addrtoname.c:574-605 | in every table, a repeated lookup answers with the name first stored, whatever was looked up or inserted in between, or with the last replacement if there was one |
| `NameCache.RunKeepsFirst` | tcpdump/addrtoname.c:293-299 | over every run an entry stays the first of its key and keeps its name until it is replaced |
| `NameCache.SameNode` | tcpdump/addrtoname.c:422-436 | a key is found in the same node after every run |
| `NameCache.SharedByteStrings` | tcpdump/addrtoname.c:612-677 | `le64addr_string` and `linkaddr_string` share a table: after the first, the second shows its own text if and only if the octets read the same both ways |
| `NameCache.PairsDecide` | tcpdump/addrtoname.c:592-598 | the text of an address tells its octets apart |
| `NameCache.NsapDecides` | tcpdump/addrtoname.c:700-708 | the text of an NSAP tells its octets apart |
| `NameCache.PortTextIsDecimal` | tcpdump/addrtoname.c:726-727 | the text of a port is its decimal numeral, without a leading zero |
| `NameCache.RunKeepsOnce` | tcpdump/addrtoname.c:293-299 | over every run each key sits in its own bucket, and a key that no service has appears once |
| `NameCache.NumericRun` | tcpdump/addrtoname.c:308-337 | over every run with `-n` each host answers its dotted form |
| `NameCache.DuplicateService` | tcpdump/addrtoname.c:803-815 | two services of one port make two entries, and the first is the one looked up |
| `Cpack.DecodeEncode` | tcpdump/cpack.c:96-220 | every value of every width and sign reads back from its little-endian octets |
| `Cpack.BoundaryIsFirst` | tcpdump/cpack.c:43-52 | the boundary found is the first aligned offset not before the cursor |
| `Cpack.CpackState.constructor` | tcpdump/cpack.c:84-94 | the cursor starts at the buffer |
| `Cpack.CpackState.AlignAndReserve` | tcpdump/cpack.c:58-71 | the aligned offset with room for the word, or none exactly when no aligned offset has room |
| `Cpack.CpackState.Advance` | tcpdump/cpack.c:74-82 | moves by the amount, or fails and does not move |
| `Cpack.CpackState.Unpack` | tcpdump/cpack.c:96-220 | reads the field at the next boundary and stops behind it, or fails and does not move |
| `Cpack.ReadBack` | tcpdump/cpack.c:96-220 | fields laid out at natural alignment are read back in order, the cursor ending behind the last |
| `Cpack.WriteThenRead` | tcpdump/cpack.c:96-220 | writing any fields and unpacking them gives the values |
| `Radiotap.ClearRemovesHead` | tcpdump/print-802_11.c:3032 | `x & (x - 1)` removes exactly the lowest set bit from the list of set bits |
| `Radiotap.BitnoIsLowest` | tcpdump/print-802_11.c:3018-3039 | `BITNO_32` of the isolated bit is the index of the lowest set bit |
| `Radiotap.PrintField` | tcpdump/print-802_11.c:2543-3010 | the field of a bit is unpacked by its widths, with the failure cases |
| `Radiotap.PrintInNamespace` | tcpdump/print-802_11.c:3013-3059 | the fields shown are those of the set bits below 29 in order, up to the first failure |
| `Radiotap.SetBitsExact` | tcpdump/print-802_11.c:3028-3039 | the list holds exactly the set bits |
| `Radiotap.SetBitsAscend` | tcpdump/print-802_11.c:3028-3039 | in strictly ascending order |
| `Radiotap.VisitedExactly` | tcpdump/print-802_11.c:3028-3046 | the bits visited are exactly the set bits below 29 |
| `Radiotap.HeaderReadBack` | tcpdump/print-802_11.c:3013-3059 | a header laid out for its presence bits is shown with all its values |
| `Elements.MgmtBody.Store` | tcpdump/print-802_11.c:1034-1203 | an element is refused when too long, otherwise stored when it is the first acceptable one of its kind |
| `Elements.MgmtBody.ParseElements` | tcpdump/print-802_11.c:997-1208 | each field holds the first acceptable element of its kind among those seen, also on failure; the end of the region never moves |
| `Elements.ParseIsView` | tcpdump/print-802_11.c:1020-1032 | the parse succeeds exactly on captured regions that are encodings of elements none of which is too long, and sees those elements |
| `Elements.FirstIsFirst` | tcpdump/print-802_11.c:1047-1057 | what is stored is acceptable and no earlier element of its kind is |
| `Babel.NetworkPrefix` | tcpdump/print-babel.c:173-236 | the prefix made of default, sent octets and zeros with the octets consumed, or -1 and an untouched buffer |
| `Babel.UpdateTlv` | tcpdump/print-babel.c:503-537 | the Update read, and the default of its family replaced exactly when flagged |
| `Babel.CheckTlv` | tcpdump/print-babel.c:383-725 | a TLV of another kind passes exactly when its body has room for its fixed part and for the prefixes its own length fields announce |
| `Babel.PrefixTakes` | tcpdump/print-babel.c:173-236 | `network_prefix` fails exactly for prefixes their family does not allow or that do not fit, and otherwise consumes what they take |
| `Babel.SufficientGrows` | tcpdump/print-babel.c:383-725 | octets behind an accepted body, such as sub-TLVs, leave it accepted |
| `Babel.NextTlv` | tcpdump/print-babel.c:363-727 | one round: the item and where the next one starts, or how the loop ends |
| `Babel.BabelPrint` | tcpdump/print-babel.c:47-77 | the items shown and the verdict are those of the packet grammar |
| `Babel.DecodeKeepsMapped` | tcpdump/print-babel.c:492-532 | for every packet, each AE 1 prefix shown and the IPv4 default left are IPv4-mapped |
| `Babel.PrefixReadBack` | tcpdump/print-babel.c:173-236 | an Update is recovered, consuming exactly what was sent, if and only if the octets it omits are those of the default |
| `Babel.EntriesReadBack` | tcpdump/print-babel.c:363-727 | legal entries of every kind, anywhere in a packet and whatever was captured behind them, come back in order with the defaults they leave |
| `Babel.DefaultsAreLast` | tcpdump/print-babel.c:527-532 | the defaults left are the prefixes of the last Updates of each family that carried flag 0x80 |
| `Babel.PacketReadBack` | tcpdump/print-babel.c:342-728 | every packet of legal Updates, other TLVs and padding is shown with all prefixes whole, ending at the last octet of its body whatever follows (section 4.4.9 of RFC 6126) |
| `Bgp.ScanAddPath` | tcpdump/print-bgp.c:1412-1432 | the first scan steps through add-path entries to the end |
| `Bgp.ScanPlain` | tcpdump/print-bgp.c:1435-1453 | the second scan steps through plain entries to the end |
| `Bgp.CheckAddPath` | tcpdump/print-bgp.c:1398-1457 | add-path exactly when the octets are an add-path list and no plain list, with the one exception at the end of the capture |
| `Bgp.StepsIsList` | tcpdump/print-bgp.c:1412-1453 | a scan succeeds exactly on encoded lists, or, with identifiers, on such a list and four octets that end the capture |
| `Bgp.GuessIsRight` | tcpdump/print-bgp.c:1398-1457 | plain lists are never labelled add-path, add-path lists always unless they also read as plain, whatever was captured behind the list |
| `Bgp.BothReadings` | tcpdump/print-bgp.c:1434-1456 | octets that are both kinds of list |
| `Bgp.DanglingIdentifier` | tcpdump/print-bgp.c:1413-1417 | an entry followed by a bare identifier is labelled add-path though it is no list |
| `BgpAsPath.GetAsSize` | tcpdump/print-bgp.c:1341-1390 | 2 exactly for paths other than AS4_PATH whose captured octets tile into 2-octet segments |
| `BgpAsPath.PrintSegment` | tcpdump/print-bgp.c:1522-1529 | the numbers of a segment, or failure exactly when they are not all captured |
| `BgpAsPath.PrintAsPath` | tcpdump/print-bgp.c:1496-1535 | the path shown, or odd, empty or truncated |
| `BgpAsPath.TilesAreEncoded` | tcpdump/print-bgp.c:1360-1378 | octets that tile are an encoded 2-octet path, which the loop prints, ending exactly at the attribute's end, whatever was captured behind it |
| `BgpAsPath.TilesWithin` | tcpdump/print-bgp.c:1360-1378 | the guess depends on the octets of the attribute only |
| `BgpAsPath.PathReadBack` | tcpdump/print-bgp.c:1517-1535 | an encoded path anywhere in the capture is printed whole, ending exactly behind it |
| `BgpAsPath.NarrowPathShown` | tcpdump/print-bgp.c:1341-1390 | every 2-octet path is shown as it is |
| `BgpAsPath.As4PathShown` | tcpdump/print-bgp.c:1351-1353 | every 4-octet path in AS4_PATH is shown as it is |
| `BgpAsPath.WidePathShown` | tcpdump/print-bgp.c:1341-1390 | a 4-octet path in AS_PATH is shown as it is if and only if it does not tile as a 2-octet path or has no numbers |
| `BgpAsPath.WideAsNarrow` | tcpdump/print-bgp.c:1360-1378 | AS 65792 alone is shown as the number 1 |
| `BgpAsPath.ShortCaptureTruncated` | tcpdump/print-bgp.c:1517-1535 | an attribute that was not captured whole is always reported as truncated |

## Results that differ from the surrounding comments

- `create_osi_cksum` does not always produce a valid checksum: the sign handling before the remainder makes one
  congruence class come out one too small, and a second sum past 32 bits loses one for each wrap.
  `Fletcher.CompletedVerifiesIff` gives the exact condition.
- A header that already has options usually leaves with a checksum that does not verify: `PvalXmit.HeaderVerifies`.
- `in_cksum_shouldbe` can propose 65535 where the plain complement is 0; both are zero in one's complement, and
  `InCksum.ProposedIsComplementIff` says exactly when.
- `check_add_path` accepts four left-over octets when the capture ends with the attribute
  (`Bgp.DanglingIdentifier`), and neither guess can tell octets that fit both formats.
- A transmit clone can be lost in three ways, and `TxClone.NeverFreedIff` says that these are all.
- A worker structure is lost when it finds itself late without a stamp, or when it was made without a clone, and never
  otherwise: `TxClone.WorkerNeverFreedIff`, with a run in `TxClone.LateWorkerIsLost`.
- The accumulator of `in_cksum` fits an `int` for every vector of up to 65027 octets and overflows for one of 65028:
  `InCksum.LimitsFit`, `InCksum.OverflowAt65028`.
- The switches are read twice during a transmission. Turned on in between, they lead to the use of a clone that was
  not made: `TxClone.FaultIff`.
- An eight-octet address may be shown backwards by `linkaddr_string`: `NameCache.SharedByteStrings`.

## Left out

- InCksum.InCksum: totals are limited to 130564 octets, beyond which even the 32-bit pattern of the accumulator might wrap; above 65027 the C `int` may overflow.
- PvalXmit.HeaderVerifies: for IPv4 headers of 5 to 12 words that lie whole in the frame; longer ones have no room for the option, as PvalXmit.LongHeaderBreaks says.
- PvalXmit.ReceiverChecks: for the same headers.
- PvalXmit.ReceiverReadsOption: for the same headers; only the fields are modelled, not the text printed.
- RingProtocol.DeliveredIsPrefix: steps interleave in program order with one producer and one reader in one open session; weaker memory orders, several producers, and a flush during a write are not modelled.
- RingDevice.DecodeSlot: the packed `struct pval_slot` of a little-endian host.
- TxClone.RunIsSafe: jiffies do not wrap; a packet handed over while the lower device is down makes no clone and is not followed.
- Fletcher.CreateOsiCksum: PDUs and offsets of up to 8000000 octets, below which no other 32-bit value can overflow.
- NameCache.NameTables.IpaddrString: DNS answers and the `-f` comparison are parameters; allocation does not fail; little-endian host.
- NameCache.NameTables.LinkaddrString: Frame Relay addresses, which are not cached.
- NameCache.NameTables.IsonsapString: the buffer is a string, so its size is not modelled; the same holds for the other cached addresses.
- NameCache.NameTables.Drive: the start-up tables of names themselves.
- The IPv6, DECnet, IPX and EtherType caches, which work like those modelled.
- Babel.CheckTlv: verbose mode; sub-TLVs and the text of TLVs other than Updates do not affect the loop and are not modelled.
- Radiotap.PrintField: which fields are read and whether they fail, not the text printed; the loop over several presence words is not modelled.
- Elements.MgmtBody.Store: the terminating NUL octets behind SSID and challenge texts are not modelled.
- BgpAsPath.PrintAsPath: partial output before a truncation is not modelled.
- `decode_prefix4` and the other attribute printers of print-bgp.c.
- Netlink, device registration, promiscuity, timestamping ioctls and `skb_scrub_packet` of the module.
- `pval_txtstamp_work`, which no other code schedules, and `ring_write_avail`, which nothing calls.
- All other protocol printers, options, capture and output of tcpdump.
