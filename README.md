# RelayNode client core in Dafny

This project models two clients of the Bitcoin relay network and proves properties of the models.

The first is the C++ `RPCClient` of `c++/rpcclient.cpp`. It asks bitcoind for its mempool (`getrawmempool`) over HTTP with Basic authentication. It then:

- reads the response header line by line;
- checks the body's framing;
- scans the JSON with its own minimal parser;
- builds the dependency graph between mempool transactions;
- selects, highest fee rate first, the transactions whose parents are already selected;
- hands the selection to `txn_for_block_func`.

The second is the Python `RelayNetworkClient` of `RelayNetworkClient.py`, which speaks the relay protocol:

- 12-byte big-endian message headers (magic, type, length);
- the VERSION, BLOCK, TRANSACTION, END_BLOCK and MAX_VERSION messages;
- BLOCK messages that replace each transaction the peer already has by its 2-byte index in a `FlaggedArraySet` cache of 1000 entries, and escape every other one as `0xffff`, a 3-byte length and the bytes.

## How the model is organised

| file | module | models |
|---|---|---|
| common.dfy | Common | `Option`, `Result`, bytes, powers of two |
| disconnects.dfy | Disconnects | every reason `net_process` passes to `disconnect` |
| c_numbers.dfy | CNumbers | `std::stoi`, `std::stol`, and `os << n` for the request's Content-Length |
| http_framer.dfy | HttpFramer | the header-line loop, the header rules, the body read (rpcclient.cpp:38-101) |
| mempool_graph.dfy | MempoolGraph | `CTxMemPoolEntry` and the graph built when a transaction object closes |
| mempool_scanner.dfy | MempoolScanner | the character-by-character JSON scan (rpcclient.cpp:112-253) |
| mempool_render.dfy | MempoolRender | the verbose getrawmempool body bitcoind writes, and the graph the scan builds from it |
| tx_selector.dfy | TxSelector | the heap selection loop (rpcclient.cpp:255-284) |
| base64.dfy | Base64 | `EncodeBase64` |
| rpc_client.dfy | RpcClient | the `RPCClient` object: `on_disconnect`, `maybe_get_txn_for_block`, `net_process` |
| relay_wire.dfy | RelayWire | `struct` packing, `decode_varint`, CompactSize |
| flagged_array_set.dfy | FlaggedArraySets | the `FlaggedArraySet` class |
| relay_codec.dfy | RelayCodec | the messages: `provide_block`'s encoding and `connect`'s handling of each message |
| relay_round_trip.dfy | RelayRoundTrip | what `provide_block` sends, `connect` rebuilds |
| relay_session.dfy | RelaySession | the checks, the cache bounds, `provide_transaction`, the version handshake |
| relay_client.dfy | RelayClient | the `RelayNetworkClient` object and its loops |

### Form

Code that changes state in the source is imperative here:

- `RPCClient`, `FlaggedArraySet` and `RelayNetworkClient` are classes whose methods modify their fields.
- Every loop of the source is a `method` with a `while` loop and its invariants. This covers:
  - the header-line loop and the JSON scan;
  - the dependency loops and the selection loop;
  - `EncodeBase64`;
  - `provide_block`'s walk and `connect`'s receive loop;
  - `FlaggedArraySet`'s eviction and index shifting.
- Each method is proved against a function of its inputs. The properties are proved as lemmas about those functions:
  - `Encode` for `EncodeBase64`;
  - `Headers` for `ReadHeaders`;
  - `Added` for `AddEntry`;
  - `EncodeBlock` and `DecodeTxs` for the relay loops;
  - `AfterAdd` and `Without` for `FlaggedArraySet`.

### State and I/O

- Sockets are replaced by what they carry. An incoming stream is a `string` or byte sequence with a read position, and `recv`/`read_all` return fewer bytes only where the stream ends. Outgoing bytes are returned, or recorded in a field.
- The C++ `std::list` of entries and the pointers into it are a sequence of entries and indexes into it.
- `hashToEntry` is a map.
- `txnWaitingOnDeps` is a map from a hash to a set of entry indexes.
- The heap is a sequence of entry indexes. `std::pop_heap` takes the element the comparator ranks above all others. Hashes are unique, so the comparator is a strict total order and the element popped does not depend on the heap's layout.

### Relay protocol notes

- The BLOCK receiver rebuilds the block's transaction count with the prefix RelayNetworkClient.py:164-171 writes. It agrees with Bitcoin's canonical CompactSize on every count the receiver accepts (at most 10000).
- The model uses the canonical form. `RelayWire.CountPrefixAsWrittenAgrees` and `RelayWire.CountPrefixAsWrittenRoundTrip` relate the two.

## Model

| member | source | states |
|---|---|---|
| `Base64.EncodeBase64` | c++/rpcclient.cpp:308-353 | the byte-at-a-time loop with its `mode` and carried bits `left` produces exactly `Encode(str)`, the group-by-group base64 text |
| `Base64.EncodeByte` | c++/rpcclient.cpp:321-341 | one pass of the loop: the output stays what the group-wise definition has emitted for the bytes read, and `left` the bits carried into the next character |
| `Base64.Finish` | c++/rpcclient.cpp:344-350 | after the last byte, the carried bits and two '=' (one byte left over) or one '=' (two bytes) complete the encoding |
| `Base64.EncodedLength` | c++/rpcclient.cpp:313 | the text is (n + 2) / 3 * 4 characters long, the size the source reserves |
| `Base64.EncodedShape` | c++/rpcclient.cpp:344-350 | every character comes from the table except the last PadLength(n), which are '=': two when n mod 3 is 1, one when it is 2, none otherwise |
| `Base64.DigitTable` | c++/rpcclient.cpp:310 | the 64 table characters are distinct: each reads back as its own six-bit value |
| `Base64.DecodeEncode` | c++/rpcclient.cpp:308-353 | decoding the encoder's text gives back its input, so the encoding loses nothing |
| `CNumbers.ParseInteger` | c++/rpcclient.cpp:73 | a successful strtol-style parse lies within the type's range and ends just past a digit that no digit follows |
| `CNumbers.ParseLayout` | c++/rpcclient.cpp:73-74 | for blanks, an optional sign, digits and a rest not starting with a digit: the parse succeeds exactly when the signed value fits, and then returns that value and the index just past the digits |
| `CNumbers.Stoi` | c++/rpcclient.cpp:73 | std::stoi yields an int in [-2^31, 2^31) and an index within the text, or throws (None) |
| `CNumbers.Stol` | c++/rpcclient.cpp:152 | std::stol yields a long in [-2^63, 2^63), or throws (None) |
| `CNumbers.DecimalString` | c++/rpcclient.cpp:371 | `os << n` writes at least one digit, only digits, and no leading zero |
| `CNumbers.DecimalStringValue` | c++/rpcclient.cpp:371 | the digits written for n have the value n |
| `CNumbers.ParseDecimalString` | c++/rpcclient.cpp:371 | stoi/stol read the decimal text of n back as n and consume all of it |
| `HttpFramer.ReadLine` | c++/rpcclient.cpp:38-55 | reading two bytes at a time until a '\r', then one at a time, succeeds exactly when LineOutcome does; a success yields the text before the first CRLF, at most 16384 characters with its CRLF, and leaves nothing buffered; every failure is LineOutcome's reason (read failure or header too long) |
| `HttpFramer.LineOutcome` | c++/rpcclient.cpp:40-55 | a line is accepted exactly when a CRLF comes early enough for the line and its CRLF to fit in 16384 characters, and its length is then the position of the first CRLF; a refusal is either a header line too long or a read failure |
| `HttpFramer.LineOutcomeOfLine` | c++/rpcclient.cpp:40-55 | a line without CRLF, not ending in '\r' and short enough, followed by CRLF, is read back whole |
| `HttpFramer.OnHeaderLine` | c++/rpcclient.cpp:57-83 | the first line is accepted exactly when it is "HTTP/1.1 200 OK"; the empty line ends the header exactly when a Content-Length was read; a Content-Length is never negative once read |
| `HttpFramer.ContentLengthRoundTrip` | c++/rpcclient.cpp:70-78 | a Content-Length header carrying decimal n (n at most INT_MAX) sets the content length to n |
| `HttpFramer.ConnectionHeaders` | c++/rpcclient.cpp:65-69 | "Connection: close" asks to close after the body; "Connection: keep-alive" changes nothing |
| `HttpFramer.ReadHeaders` | c++/rpcclient.cpp:38-84 | the header loop's result is Headers, the header read line by line: the final Content-Length and connection flag and where the body starts, or the reason for disconnecting |
| `HttpFramer.Headers` | c++/rpcclient.cpp:38-84 | a header that is accepted has a Content-Length that is not negative, and its body starts after at least one CRLF, within the input |
| `HttpFramer.HeadersOfResponseHead` | c++/rpcclient.cpp:38-84 | a status line, a Content-Length n and the empty line give content length n and a body starting right after them, whatever follows |
| `HttpFramer.ReadBody` | c++/rpcclient.cpp:86-101 | the body is accepted exactly when its length is at most 100 MiB and at least 11, it is all there, and it starts with `{"result":{`; the result is the rest of the body; each refusal carries its own reason (too large, short read, not an object, shorter than the prefix) |
| `MempoolGraph.FeePerKb` | c++/rpcclient.cpp:22 | feeIn * 1000 / sizeIn with the product wrapped to 64 bits: defined exactly when the size is not 0, and below 2^64 |
| `MempoolGraph.FeePerKbRate` | c++/rpcclient.cpp:22 | without wrap-around, feePerKb is the fee per 1000 bytes rounded down: feePerKb * size <= fee * 1000 < (feePerKb + 1) * size |
| `MempoolGraph.MissingFeeRate` | c++/rpcclient.cpp:213-218 | an object without a "fee" keeps tx_fee at uint64(-1), which `tx_fee < 0` never catches, and gets the feePerKb (2^64 - 1000) / size |
| `MempoolGraph.LinkDependencies` | c++/rpcclient.cpp:225-231 | after the loop over txDeps, each dependency already indexed lists the new entry as a dependent and every other one has the entry waiting for it (Linked and Waited over all dependencies) |
| `MempoolGraph.AdoptWaiting` | c++/rpcclient.cpp:234-236 | the entries waiting for the new entry's hash become its dependents, and nothing else changes |
| `MempoolGraph.AddEntry` | c++/rpcclient.cpp:218-237 | a zero size is refused; a hash already indexed is a duplicate; otherwise the graph is Added with reqCount the number of distinct dependencies |
| `MempoolGraph.EmptyGraphInv` | c++/rpcclient.cpp:105-109 | the empty structures satisfy the graph invariant |
| `MempoolGraph.AddedKeepsInv` | c++/rpcclient.cpp:218-237 | adding an entry keeps the invariant: each entry is indexed by its hash, lists as dependents exactly the entries naming its hash, the multimap holds exactly the dependencies not read yet, the roots are the entries without dependencies, and reqCount counts distinct dependencies |
| `MempoolGraph.ResolvedIsReady` | c++/rpcclient.cpp:252-253 | once nothing waits, each entry's reqCount is the number of entries that will unlock it, and the roots are exactly the entries with reqCount 0, each once |
| `MempoolScanner.TransitionsKeepParserOk` | c++/rpcclient.cpp:122-192 | '"', ':', ',' and '{' keep the parser consistent: strings and values start before the cursor, and inside an object it is in a field name or a field value, never both |
| `MempoolScanner.PiecesJoin` | c++/rpcclient.cpp:170-179 | splitting an array's text at its quotes loses nothing: joining the pieces gives the text back |
| `MempoolScanner.QuotedListRoundTrip` | c++/rpcclient.cpp:166-183 | for a "depends" array as bitcoind writes it, the array loop's quotes balance and it collects exactly the listed hashes |
| `MempoolScanner.ScanDeps` | c++/rpcclient.cpp:166-183 | a '[' as the last character reads past the end; otherwise the array ends at the first ']' with its quotes balanced and its quoted strings added to the dependencies, or no ']' ends a balanced array and the scan fails with the missing-']' reason |
| `MempoolScanner.SkipBlanks` | c++/rpcclient.cpp:120 | skips exactly the spaces before the next other character, stopping at the last character at the latest |
| `MempoolScanner.Skip` | c++/rpcclient.cpp:120 | the next character that is not a space, at or after the cursor, with only spaces skipped |
| `MempoolScanner.Step` | c++/rpcclient.cpp:121-247 | one character of the switch, on values: a success leaves the cursor inside the response, not behind it, with the parser consistent |
| `MempoolScanner.Close` | c++/rpcclient.cpp:193-245 | the '}' case on values: a success leaves the parser consistent and outside any transaction object |
| `MempoolScanner.CloseTx` | c++/rpcclient.cpp:193-245 | a '}' outside an object, or not ending a field value, is refused; a field value that does not convert is refused with its conversion's reason, and an object without a size with NoSize; a successful close adds to the graph exactly the entry of the transaction's hash, its fee rate, its size truncated to 32 bits and its dependencies, resets size, fee and dependencies, and keeps the graph invariant; a failure leaves the graph as it was; the method computes Close |
| `MempoolScanner.Emplace` | c++/rpcclient.cpp:218-237 | the entry joins the graph, keeping the invariant, or the scan fails for a zero size or a duplicate hash with the graph unchanged |
| `MempoolScanner.ScanChar` | c++/rpcclient.cpp:121-247 | one character of the switch keeps the graph invariant and the parser consistent, and never reports a missing dependency |
| `MempoolScanner.ScanMempool` | c++/rpcclient.cpp:112-253 | the loop computes Scan; the graph always keeps its invariant; a response that scans ends with the expected 23 characters, names only hashes it lists, and leaves the graph ready for the selection; a missing dependency is reported only for a framed response that names a hash it does not list |
| `MempoolScanner.Turn` | c++/rpcclient.cpp:120-247 | one turn of the loop moves the cursor forward and leaves the result of the scan unchanged: scanning on from the new state gives what scanning from the old one gives |
| `MempoolScanner.ScanTurn` | c++/rpcclient.cpp:120-247 | a successful character step continues the scan from the state it leaves |
| `MempoolScanner.ScanEnd` | c++/rpcclient.cpp:248-253 | at the end of the response the scan is decided by the framing and the waiting dependencies alone |
| `MempoolScanner.Unresolved` | c++/rpcclient.cpp:252-253 | an entry still waiting means some transaction named a hash that was never read |
| `MempoolScanner.Resolved` | c++/rpcclient.cpp:252-253 | with nothing waiting, every hash a transaction named was read |
| `MempoolRender.ScanRendered` | c++/rpcclient.cpp:112-253 | the body bitcoind writes for a consistent mempool (plain values, distinct hashes, every dependency listed, sizes nonzero and 32-bit, fees the conversion accepts) scans without error to exactly the graph built from its objects in order |
| `MempoolRender.BuildRendered` | c++/rpcclient.cpp:193-253 | that graph holds one entry per object, in order, with the object's hash, size, fee rate and number of distinct dependencies; an entry depends on another exactly when the other lists its hash; nothing is left waiting; the entries ready for selection are exactly the objects with no dependencies |
| `MempoolRender.ObjectsAt` | c++/rpcclient.cpp:112-253 | scanning a run of objects followed by the expected end adds their entries in order and then checks for dependencies never read |
| `MempoolRender.ObjectAt` | c++/rpcclient.cpp:121-245 | scanning one object adds exactly its entry and leaves the parser between objects |
| `MempoolRender.FieldAt` | c++/rpcclient.cpp:122-165 | a field's value is read with std::stol for "size", with the fee conversion for "fee", and leaves the transaction as it was for any other field |
| `MempoolRender.DependsAt` | c++/rpcclient.cpp:166-183 | the "depends" array reads exactly the listed hashes as the transaction's dependencies, up to the '}' that closes the object |
| `MempoolRender.CloseAt` | c++/rpcclient.cpp:193-245 | the '}' after the "depends" array adds the transaction's entry and leaves the parser between objects |
| `TxSelector.LexLessMeaning` | c++/rpcclient.cpp:257 | std::string's `<`: a is a proper prefix of b, or is smaller at the first position where they differ |
| `TxSelector.LexLessTotal` | c++/rpcclient.cpp:257 | two different strings are ordered one way or the other, never both |
| `TxSelector.LessStrictTotal` | c++/rpcclient.cpp:256-258 | the comparator is irreflexive, asymmetric and total on entries with distinct hashes |
| `TxSelector.MaxAtIsMax` | c++/rpcclient.cpp:264-266 | the entry popped ranks below no entry on the heap |
| `TxSelector.Unlock` | c++/rpcclient.cpp:268-272 | after the loop over the kept entry's dependents, each count is the number of that entry's parents not selected yet, and the heap holds exactly the unlocked entries not popped yet |
| `TxSelector.Round` | c++/rpcclient.cpp:263-283 | a round pops an entry not popped before; it is kept exactly when it is not oversized, and the loop's state (counts, heap, order of kept entries) stays consistent |
| `TxSelector.SelectTransactions` | c++/rpcclient.cpp:255-284 | the selection is no longer than 9 * (MAX_TXN_IN_FAS - MAX_EXTRA_OVERSIZE_TRANSACTIONS) / 10, has no repeats and no oversized entry, puts every entry after its parents, and never keeps an entry ahead of a higher-ranked unlocked one; the pairs are the decoded hashes and sizes; stopping short of the bound means nothing else could be selected; a bad hash ends it |
| `TxSelector.DroppedBlocksDependents` | c++/rpcclient.cpp:267-272 | an oversized entry is never kept, so none of its dependents is |
| `RpcClient.RequestAnnouncesBody` | c++/rpcclient.cpp:359-376 | the request's Content-Length header, read with the rules applied to responses, gives the length of the body that follows the header |
| `RpcClient.RequestHead` | c++/rpcclient.cpp:359-376 | the request's header ends with the empty line "\r\n\r\n" that separates it from the JSON body |
| `RpcClient.AuthorizationRoundTrip` | c++/rpcclient.cpp:374 | the Authorization header carries RPC_USER:RPC_PASS, which base64 decoding recovers |
| `RpcClient.SelectionIsGoodBatch` | c++/rpcclient.cpp:255-299 | a selection from a scanned mempool is a good batch: within the bound, no more than the mempool held, 32-byte hashes, sizes positive, 32-bit and not oversized |
| `RpcClient.ResponseAt` | c++/rpcclient.cpp:38-101 | a response read at a position ends after that position and within the input |
| `RpcClient.BodyAfter` | c++/rpcclient.cpp:86-101 | the body a header announces lies within the input, after the header |
| `RpcClient.ResponseDelivers` | c++/rpcclient.cpp:86-299 | a response whose body scans to a mempool delivers the selection from that mempool, which is a good batch |
| `RpcClient.ChainAppend` | c++/rpcclient.cpp:27-305 | a response read where the chain of earlier responses ends extends that chain by its start and its batch |
| `RpcClient.ProcessResponse` | c++/rpcclient.cpp:32-303 | a response that gets through has a header as Headers reads it, ends where ResponseAt says, and delivers (Delivers) the selection made from the mempool its body scans to, with its "Connection: close" flag; it extends the chain of responses read before it; a header that fails fails with Headers' reason |
| `RpcClient.RPCClient.OnDisconnect` | c++/rpcclient.cpp:11-14 | nothing is connected or awaited afterwards |
| `RpcClient.RPCClient.MaybeGetTxnForBlock` | c++/rpcclient.cpp:355-379 | when connected and not awaiting, sends exactly one getrawmempool request with the base64 credentials and awaits the response (test-and-set); otherwise changes nothing |
| `RpcClient.RPCClient.NetProcess` | c++/rpcclient.cpp:27-305 | marks the connection up, sends nothing, and appends to what was delivered exactly the batches of the responses read one after another from the start of the input (Chain): each is the selection from the mempool its body scans to, and good; a delivery clears awaitingResponse |
| `RelayWire.LittleEndianRoundTrip` | RelayNetworkClient.py:96-104 | a w-byte little-endian value reads back wherever it sits in a buffer |
| `RelayWire.BigEndianRoundTrip` | RelayNetworkClient.py:134-140 | a w-byte big-endian value reads back wherever it sits in a buffer |
| `RelayWire.DecodeVarint` | RelayNetworkClient.py:96-104 | decodes exactly when the buffer holds the 1, 3, 5 or 9 bytes the first byte calls for, and returns the offset just past them, a value below 2^64, and the byte itself below 0xfd |
| `RelayWire.CompactSizeRoundTrip` | RelayNetworkClient.py:96-104 | every canonical CompactSize decodes back to its value and its length, whatever surrounds it |
| `RelayWire.CompactSize` | RelayNetworkClient.py:96-104 | the canonical CompactSize has 1 to 9 bytes, as many as its first byte announces to decode_varint |
| `RelayWire.CountPrefix` | RelayNetworkClient.py:164-171 | the block's count prefix, for a count below 2^32, is the canonical CompactSize |
| `RelayWire.CountPrefixAsWrittenAgrees` | RelayNetworkClient.py:164-171 | below 0xffff the receiver's count prefix is the canonical CompactSize |
| `RelayWire.CountPrefixAsWrittenNonCanonical` | RelayNetworkClient.py:164-171 | at 0xffff it picks the 5-byte form, which is not canonical, and at 0xffffffff it raises |
| `RelayWire.CountPrefixAsWrittenRoundTrip` | RelayNetworkClient.py:164-171 | for every count below 0xffffffff the prefix is defined and decode_varint reads it back |
| `RelayWire.PackLength24` | RelayNetworkClient.py:297 | the 3-byte length packs exactly when the length is below 2^24 |
| `RelayWire.UnpackLength24` | RelayNetworkClient.py:177-179 | the escaped length read from '>HB' is below 2^24 |
| `RelayWire.Length24RoundTrip` | RelayNetworkClient.py:177-179 | a packed 3-byte length reads back as the length |
| `FlaggedArraySets.IndexOf` | RelayNetworkClient.py:82-88 | the relative index of an element is the first position holding it under either flag, and None exactly when no position does |
| `FlaggedArraySets.IndexOfPosition` | RelayNetworkClient.py:82-94 | with no element cached twice, get_index(get_by_index(i)) == i |
| `FlaggedArraySets.AfterAdd` | RelayNetworkClient.py:59-70 | after add the element is cached; adding one already cached changes nothing; a new one ends up last, with its flag, and the cache within max_size |
| `FlaggedArraySets.Without` | RelayNetworkClient.py:72-80 | removing an element that is not cached changes nothing; removing one that is drops exactly one entry and keeps only entries that were there |
| `FlaggedArraySets.AddPresentIsNoOp` | RelayNetworkClient.py:59-61 | adding an element already present under either flag changes nothing |
| `FlaggedArraySets.AddProperties` | RelayNetworkClient.py:59-70 | add keeps the size bound and distinct elements, puts the new element last at the last relative index, and counts its flag when nothing was evicted |
| `FlaggedArraySets.AddAsWrittenLosesFlag` | RelayNetworkClient.py:66-70 | the source's add of a new flagged element stores it and then raises, leaving flag_count one short of the flagged keys |
| `FlaggedArraySets.RemoveDeletes` | RelayNetworkClient.py:72-80 | remove of a present element deletes its one key, keeps the rest distinct, and leaves it absent |
| `FlaggedArraySets.RemoveShiftsNewer` | RelayNetworkClient.py:46-57 | after remove, an older element keeps its relative index, a newer one moves down by one, and an absent one stays absent |
| `FlaggedArraySets.RemoveKeepsBounds` | RelayNetworkClient.py:72-80 | remove adds no key and no flag |
| `FlaggedArraySets.RemoveUncountsFlag` | RelayNetworkClient.py:46-50 | the flag count drops by one exactly when the removed key was flagged |
| `FlaggedArraySets.KeyIndexElement` | RelayNetworkClient.py:73-86 | an element is present exactly when one of its two keys is, and both lookups agree on its position |
| `FlaggedArraySets.FlaggedArraySet.constructor` | RelayNetworkClient.py:28-35 | a new set is empty, with its bound |
| `FlaggedArraySets.FlaggedArraySet.Len` | RelayNetworkClient.py:37-38 | the number of cached elements |
| `FlaggedArraySets.FlaggedArraySet.GetFlagCount` | RelayNetworkClient.py:40-41 | the number of flagged cached elements |
| `FlaggedArraySets.FlaggedArraySet.Contains` | RelayNetworkClient.py:43-44 | true exactly when the element is cached under either flag |
| `FlaggedArraySets.FlaggedArraySet.GetIndex` | RelayNetworkClient.py:82-88 | the element's relative index, None exactly when it is absent |
| `FlaggedArraySets.FlaggedArraySet.GetByIndex` | RelayNetworkClient.py:90-94 | the element at a relative index in range, None for any other index |
| `FlaggedArraySets.FlaggedArraySet.RemovedFromBackingDict` | RelayNetworkClient.py:46-57 | once a key is deleted, shifting the older keys' dict values and reverse entries up by one and bumping offset makes the relative indexes dense again |
| `FlaggedArraySets.FlaggedArraySet.MakeRoom` | RelayNetworkClient.py:63-64 | the eviction loop drops the oldest keys until fewer than max_size remain |
| `FlaggedArraySets.FlaggedArraySet.Add` | RelayNetworkClient.py:59-70 | the contents become AfterAdd of the old contents: unchanged if present, otherwise the oldest evicted and (e, flag) appended, with the dicts, offset, total and flag count kept consistent |
| `FlaggedArraySets.FlaggedArraySet.Remove` | RelayNetworkClient.py:72-80 | the contents become Without(old contents, e), the dicts, offset and flag count kept consistent |
| `RelayCodec.MessageHeader` | RelayNetworkClient.py:134 | pack('>3I', magic, type, length) is 12 bytes |
| `RelayCodec.ReadHeader` | RelayNetworkClient.py:140 | unpack('>3I') of 12 bytes gives three values below 2^32 |
| `RelayCodec.HeaderRoundTrip` | RelayNetworkClient.py:134-140 | a packed message header reads back as (magic, type, length) wherever it sits |
| `RelayCodec.Recv` | RelayNetworkClient.py:157 | recv with MSG_WAITALL returns the next n bytes, fewer only where the stream ends |
| `RelayCodec.Slice` | RelayNetworkClient.py:294 | a slice within the block is the block's bytes there, and any slice is no longer than its bounds allow |
| `RelayCodec.OversizeFlag` | RelayNetworkClient.py:213 | the corrected flag: set exactly for transactions over 10000 bytes, the ones the 20-transaction cap counts |
| `RelayCodec.OversizeFlagAsWritten` | RelayNetworkClient.py:213 | the flag as written: set exactly for transactions over 250000 bytes |
| `RelayCodec.SkipInputs` | RelayNetworkClient.py:280-284 | skipping n inputs moves at least 41 bytes per input (outpoint, script length, sequence) |
| `RelayCodec.SkipOutputs` | RelayNetworkClient.py:286-290 | skipping n outputs moves at least 9 bytes per output (value, script length) |
| `RelayCodec.TxEnd` | RelayNetworkClient.py:277-292 | a transaction the walk can cross ends at least 10 bytes after its start |
| `RelayCodec.Walk` | RelayNetworkClient.py:276-294 | a walk over n transactions that succeeds slices out exactly n of them and moves at least 10 bytes per transaction |
| `RelayCodec.EncodeBlock` | RelayNetworkClient.py:269-305 | a BLOCK message it builds has room for the 12-byte message header, carries the block's 80-byte header right after it, and ends with the 12-byte END_BLOCK header |
| `RelayCodec.DecodeTxs` | RelayNetworkClient.py:173-195 | rebuilding the records of a BLOCK message stops inside the stream |
| `RelayCodec.ReceiveTransaction` | RelayNetworkClient.py:209-221 | the TRANSACTION branch stops inside the stream |
| `RelayCodec.ReceiveBlock` | RelayNetworkClient.py:151-207 | a BLOCK branch that succeeds stops after at least the 12-byte END_BLOCK header, inside the stream |
| `RelayCodec.BlockEnd` | RelayNetworkClient.py:197-207 | it succeeds only when every record was rebuilt, and then stops exactly 12 bytes after the records |
| `RelayCodec.Receive` | RelayNetworkClient.py:139-228 | a message that is handled ends at least one header further on, inside the stream |
| `RelayRoundTrip.EncodeTxsIsEncodeList` | RelayNetworkClient.py:276-302 | where the walk over the block succeeds, provide_block's records are the encoding of the transactions the walk found |
| `RelayRoundTrip.WalkCovers` | RelayNetworkClient.py:276-294 | the transactions the walk slices out cover the block from the first to the end without gap or overlap |
| `RelayRoundTrip.ListRoundTrip` | RelayNetworkClient.py:173-195 | the records provide_block writes against a send cache are rebuilt by connect, against a receive cache equal to it, into the transactions' bytes, ending where the records end, with both caches ending equal |
| `RelayRoundTrip.BlockMessage` | RelayNetworkClient.py:271-304 | once the walk succeeds, the message is the BLOCK header with the count, the 80-byte block header, the records and the END_BLOCK message |
| `RelayRoundTrip.ReceiveBlockAt` | RelayNetworkClient.py:151-207 | a well-formed BLOCK message on the stream delivers its header and the rebuilt block, and stops after its END_BLOCK |
| `RelayRoundTrip.BlockRoundTrip` | RelayNetworkClient.py:269-305 | a block provide_block sends is received by connect, against an equal cache, as its own header and its own bytes, ending after the message, with both caches ending equal |
| `RelaySession.ReceiveChecks` | RelayNetworkClient.py:140-153 | bad magic, a length over 1000000, a BLOCK of more than 10000 transactions and an unknown type each end the connection with the cache untouched; every message handled passed all of these checks |
| `RelaySession.DecodeTxsChecks` | RelayNetworkClient.py:173-193 | an escaped transaction over 1000000 bytes, or an index naming no cached transaction, ends the connection |
| `RelaySession.OverlongEscapeAsWritten` | RelayNetworkClient.py:180-181 | as written, the over-long check raises exactly for lengths over 1000000, and raises NameError |
| `RelaySession.OverlongEscape` | RelayNetworkClient.py:180-181 | as intended, the over-long check raises exactly for lengths over 1000000, and raises the ProtocolError |
| `RelaySession.OverlongEscapeRaises` | RelayNetworkClient.py:180-181 | on an over-long escaped record the source raises NameError, and the model fails with the intended ProtocolError |
| `RelaySession.ReceiveBlockEndChecked` | RelayNetworkClient.py:206-207 | a BLOCK accepted has at most 10000 transactions, all rebuilt, followed by exactly an END_BLOCK header |
| `RelaySession.AddFlagBound` | RelayNetworkClient.py:59-70 | add keeps the size bound and adds at most the flag it is given to the count |
| `RelaySession.DecodeKeepsBounds` | RelayNetworkClient.py:173-195 | rebuilding a block only removes from the receive cache: no more entries and no more flagged ones |
| `RelaySession.ReceiveKeepsCache` | RelayNetworkClient.py:139-228 | every message keeps the receive cache within 1000 entries and 20 flagged ones |
| `RelaySession.OfferTransaction` | RelayNetworkClient.py:240-264 | a message sent is the 12-byte TRANSACTION header followed by the transaction, which is then in the send cache; a send cache within 1000 entries stays within them |
| `RelaySession.OfferTransactionSent` | RelayNetworkClient.py:240-264 | a transaction is sent exactly when it is new and passes the receiver's size check; otherwise the send cache is untouched; sending counts at most one more flag |
| `RelaySession.TransactionRoundTrip` | RelayNetworkClient.py:250-253 | the message provide_transaction sends is received by connect, against an equal cache, as that transaction, and both caches end equal |
| `RelaySession.OfferAsWrittenRaises` | RelayNetworkClient.py:246 | as written, every new transaction of 10001 to 250000 bytes raises NameError, although the receiver would accept it while fewer than 20 flagged transactions are cached |
| `RelaySession.OversizeFlagAsWrittenNeverSet` | RelayNetworkClient.py:209-213 | as written, no transaction the size check admits is flagged, so the flag count stays 0 and the 20-transaction cap never engages |
| `RelaySession.OversizeFlagCounted` | RelayNetworkClient.py:213 | with the corrected flag, an accepted transaction over 10000 bytes is counted |
| `RelaySession.VersionMessage` | RelayNetworkClient.py:134-135 | the version message is a 12-byte header followed by the version string |
| `RelaySession.VersionRoundTrip` | RelayNetworkClient.py:146-150 | a peer's version message with the same version string is accepted silently, the cache untouched, and the stream continues right after it |
| `RelayClient.WalkInputs` | RelayNetworkClient.py:280-284 | the inputs loop ends where SkipInputs says, or fails where the block is too short |
| `RelayClient.WalkOutputs` | RelayNetworkClient.py:286-290 | the outputs loop ends where SkipOutputs says, or fails where the block is too short |
| `RelayClient.TransactionEnd` | RelayNetworkClient.py:277-292 | the walk over one transaction ends at TxEnd |
| `RelayClient.FinishBlock` | RelayNetworkClient.py:197-207 | delivers the header and the rebuilt block, then checks the END_BLOCK message, as BlockEnd states |
| `RelayClient.TransactionAccepted` | RelayNetworkClient.py:209-215 | an accepted transaction is delivered whole and joins the receive cache, which keeps at most 20 flagged entries |
| `RelayClient.DecodeTxsFails` | RelayNetworkClient.py:173-193 | the records that fail at their first bytes: a short read, an over-long escape, an unknown index |
| `RelayClient.SessionStep` | RelayNetworkClient.py:139-228 | one pass of connect's loop: a failure ends the session with the events so far, and a success goes on from the next message with the new cache |
| `RelayClient.RelayNetworkClient.constructor` | RelayNetworkClient.py:125-128 | two distinct empty caches of 1000 entries |
| `RelayClient.RelayNetworkClient.ProvideBlock` | RelayNetworkClient.py:269-315 | returns EncodeBlock's bytes or error, and leaves the send cache as EncodeBlock does |
| `RelayClient.RelayNetworkClient.EncodeTransactions` | RelayNetworkClient.py:276-302 | the loop's bytes and the send cache after it are EncodeTxs over the block |
| `RelayClient.RelayNetworkClient.EncodeRecord` | RelayNetworkClient.py:277-302 | one transaction's record and the position after it, the rest of the encoding going on from there with the cache it leaves |
| `RelayClient.RelayNetworkClient.ProvideTransaction` | RelayNetworkClient.py:240-264 | returns the message sent, if any, and leaves the send cache as OfferTransaction does |
| `RelayClient.RelayNetworkClient.DecodeRecord` | RelayNetworkClient.py:173-195 | one record rebuilt and the position after it, the rest of the rebuilding going on from there with the cache it leaves |
| `RelayClient.RelayNetworkClient.DecodeCachedRecord` | RelayNetworkClient.py:190-195 | a record naming a cached transaction yields it and removes it from the receive cache |
| `RelayClient.RelayNetworkClient.DecodeTransactions` | RelayNetworkClient.py:173-195 | the records' loop yields DecodeTxs's result and receive cache |
| `RelayClient.RelayNetworkClient.ReceiveBlockMessage` | RelayNetworkClient.py:151-207 | the BLOCK branch's calls, result and receive cache are ReceiveBlock's |
| `RelayClient.RelayNetworkClient.ReceiveTransactionMessage` | RelayNetworkClient.py:209-221 | the TRANSACTION branch's calls, result and receive cache are ReceiveTransaction's |
| `RelayClient.RelayNetworkClient.AcceptTransaction` | RelayNetworkClient.py:211-215 | an admitted transaction's delivery and the receive cache after it are ReceiveTransaction's |
| `RelayClient.RelayNetworkClient.ReceiveMessage` | RelayNetworkClient.py:139-228 | one message's calls, result and receive cache are Receive's |
| `RelayClient.RelayNetworkClient.ServeOne` | RelayNetworkClient.py:139-228 | one pass of the loop, stated as the session sees it |
| `RelayClient.RelayNetworkClient.Serve` | RelayNetworkClient.py:139-228 | the loop's calls and the failure that ends it are Session's |
| `RelayClient.RelayNetworkClient.Connect` | RelayNetworkClient.py:125-238 | fresh caches, the version message sent, then the calls and the failure of Session over the whole stream |

## Left out

- RelayCodec.ReceiveTransaction: flags a received transaction when it is over 10000 bytes. RelayNetworkClient.py:213 compares with 250000, which the check at :210 has already excluded, so the source never flags one (see Findings).
- RelayCodec.Receive: its TRANSACTION branch is ReceiveTransaction, with the corrected flag.
- RelayCodec.Session: every TRANSACTION message it handles uses the corrected flag.
- RelayClient.RelayNetworkClient.ReceiveTransactionMessage: uses the corrected flag of ReceiveTransaction.
- RelayClient.RelayNetworkClient.AcceptTransaction: uses the corrected flag of ReceiveTransaction.
- RelayClient.RelayNetworkClient.ReceiveMessage: uses the corrected flag of ReceiveTransaction.
- RelayClient.RelayNetworkClient.ServeOne: uses the corrected flag of ReceiveTransaction.
- RelayClient.RelayNetworkClient.Serve: uses the corrected flag of ReceiveTransaction.
- RelayClient.RelayNetworkClient.Connect: uses the corrected flag of ReceiveTransaction.
- RelaySession.ReceiveKeepsCache: the bound of 20 flagged entries holds for the corrected flag. That no element is cached twice is kept by FlaggedArraySet's own invariant, not restated here.
- RelaySession.OfferTransaction: models the corrected provide_transaction. It reads the class's oversize cap where RelayNetworkClient.py:246 names an undefined global. It flags over 10000 bytes where :254 compares with 250000 (see Findings).
- RelayClient.RelayNetworkClient.ProvideTransaction: follows RelaySession.OfferTransaction. It sends transactions of 10001 to 250000 bytes where the source raises NameError with send_lock still held.
- RelaySession.TransactionRoundTrip: stated for the corrected provide_transaction and receiver.
- FlaggedArraySets.FlaggedArraySet.Add: increments the flag count for a flagged element. RelayNetworkClient.py:70 raises AttributeError (`flalg_count`) after storing the element (see Findings).
- RelayCodec.DecodeTxs: fails with TransactionTooLarge on an escaped record over 1000000 bytes, where RelayNetworkClient.py:181 raises NameError (`dat_length`). The connection ends either way.
- RpcClient.RPCClient.NetProcess: states which responses were read and what each delivered (the ghost results `starts`, `batches` and `next` name them), but not which reason ends the loop; the reasons of a failing header are stated for one response by ProcessResponse.
- MempoolRender.ScanRendered: covers objects written with "size" first, "fee" second and "depends" last, whose other fields have plain values (numbers, words, hex) without spaces. Quoted strings, nested objects and arrays in other fields, and blanks between tokens, are not covered by the lemma; the scan itself handles them as the source does. The unscaled '}' fee conversion does not arise there.
- The tail loop of net_process (rpcclient.cpp:286-297) only counts skipped entries of equal fee for a warning printed every 256th response. The printf, the counters and the `uint8_t count` are not modelled.
- asciifyString (rpcclient.cpp:59-77) only escapes a header line for the disconnect message. The reasons carry the line itself.
- The ten-second read timeout, the socket itself, reconnecting and the `Timer` thread are not modelled. A stream is the text or bytes it delivers.
- The atomics `connected` and `awaiting_response` are plain fields, and `send_lock` is not modelled. Concurrency between `net_process`, `maybe_get_txn_for_block`, `connect`, `provide_block` and `provide_transaction` is left out.
- The std::stod conversions (rpcclient.cpp:158 and 205) are two function parameters: the scaled ',' conversion and the unscaled '}' conversion. Floating point is not modelled.
- hex_str_to_reverse_vector (utils.h) is a function parameter. utils.h and rpcclient.h are not part of this model.
- MAX_TXN_IN_FAS, MAX_EXTRA_OVERSIZE_TRANSACTIONS and MAX_RELAY_OVERSIZE_TRANSACTION_BYTES on the C++ side come from a header that is not part of this model. They are parameters.
- The environment variables RPC_USER and RPC_PASS, and the server host, are parameters.
- The C++ behaviours that are undefined are ends of the connection in the model, each with its own reason:
  - a zero transaction size (division by zero at rpcclient.cpp:22) is ZeroSize;
  - a Content-Length below 11 (an unsigned wrap-around at :99-100) is BodyShorterThanPrefix;
  - a '[' as the body's last character (a read past the buffer at :168-170) is ReadPastEnd.
- The std::list, its pointers and the heap's layout are not modelled. Entries are a sequence, pointers are indexes, and the heap is a sequence from which the comparator's greatest element is taken.
- BitcoinP2PRelayer, RelayNetworkManager and the data recipient's own behaviour (RelayNetworkClient.py:317 onwards) are not part of the core. The recipient's calls are recorded as events.
- Deserialising blocks and transactions for the log lines (`deserialize_utils`) and every print are left out.
- A session over a stream is bounded by the stream's length.

## Findings

| source | as written | input that shows it | evidently intended | confidence | as-written member | corrected member |
|---|---|---|---|---|---|---|
| RelayNetworkClient.py:213 | the received transaction is flagged when longer than MAX_RELAY_OVERSIZE_TRANSACTION_BYTES (250000). The check at :210 has already refused those, so no transaction is flagged, flag_count stays 0, and the cap of MAX_EXTRA_OVERSIZE_TRANSACTIONS never engages (the same at :254 on the send side) | 21 distinct TRANSACTION messages of 10001 bytes each: all 21 are accepted | flag transactions longer than MAX_RELAY_TRANSACTION_BYTES (10000), so at most 20 oversize ones are cached | high, not executed | `RelayCodec.OversizeFlagAsWritten`, `RelaySession.OversizeFlagAsWrittenNeverSet` | `RelayCodec.OversizeFlag`, `RelaySession.OversizeFlagCounted` |
| RelayNetworkClient.py:70 | `self.flalg_count += 1` raises AttributeError after the key, its reverse entry and total are stored, so flag_count misses the flag | add(e, True) for an element not cached | increment flag_count | high, not executed | `FlaggedArraySets.AddAsWritten`, `FlaggedArraySets.AddAsWrittenLosesFlag` | `FlaggedArraySets.FlaggedArraySet.Add`, `FlaggedArraySets.AddProperties` |
| RelayNetworkClient.py:246 | the bare name MAX_EXTRA_OVERSIZE_TRANSACTIONS raises NameError outside the try, with send_lock held | provide_transaction of a new 10001-byte transaction | read the class constant, send the transaction while fewer than 20 oversize ones are cached, release the lock | high, not executed | `RelaySession.OfferTransactionAsWritten`, `RelaySession.OfferAsWrittenRaises` | `RelaySession.OfferTransaction`, `RelaySession.OfferTransactionSent` |
| RelayNetworkClient.py:180-181 | the error message names `dat_length`, which is undefined, so a NameError replaces the ProtocolError | a BLOCK message whose escaped record announces 1000001 bytes | raise ProtocolError("Got in-block transaction of size > MAX_BLOCK_SIZE") | high, not executed | `RelaySession.OverlongEscapeAsWritten`, `RelaySession.OverlongEscapeRaises` | `RelaySession.OverlongEscape`, `RelaySession.DecodeTxsChecks` |
