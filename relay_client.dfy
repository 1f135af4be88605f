/** RelayNetworkClient (RelayNetworkClient.py) as the state it keeps: its two
    transaction caches, and the loops that walk a block to send it
    (provide_block), send a free transaction (provide_transaction) and handle the
    messages of one connection (connect). The socket is replaced by the bytes it
    delivers, and sendall by the bytes a method returns. */
module RelayClient {
  import opened Common
  import opened RelayWire
  import opened FlaggedArraySets
  import opened RelayCodec
  import opened RelayRoundTrip
  import opened RelaySession

  // ---------------------------------------------------------------------------
  // Steps of the specification functions that the loops take one at a time

  lemma SkipInputsStep(b: seq<byte>, pos: nat, n: nat)
    requires n > 0
    ensures DecodeVarint(b, pos + 36).None? ==> SkipInputs(b, pos, n) == None
    ensures DecodeVarint(b, pos + 36).Some? ==>
      SkipInputs(b, pos, n) == SkipInputs(b, DecodeVarint(b, pos + 36).value.1 + DecodeVarint(b, pos + 36).value.0 + 4, n - 1)
  {
  }

  lemma SkipOutputsStep(b: seq<byte>, pos: nat, n: nat)
    requires n > 0
    ensures DecodeVarint(b, pos + 8).None? ==> SkipOutputs(b, pos, n) == None
    ensures DecodeVarint(b, pos + 8).Some? ==>
      SkipOutputs(b, pos, n) == SkipOutputs(b, DecodeVarint(b, pos + 8).value.1 + DecodeVarint(b, pos + 8).value.0, n - 1)
  {
  }

  lemma EncodeTxsTruncated(b: seq<byte>, pos: nat, n: nat, c: seq<Key>)
    requires n > 0 && TxEnd(b, pos).None?
    ensures EncodeTxs(b, pos, n, c) == Cached(Err(Truncated), c)
  {
  }

  /** Helper: the walks agree on equal counts; stated once so that the loops below
      need not leave the step from one count to the next to arithmetic. */
  lemma EncodeTxsCount(b: seq<byte>, pos: nat, n: nat, m: nat, c: seq<Key>)
    requires n == m
    ensures EncodeTxs(b, pos, n, c) == EncodeTxs(b, pos, m, c)
  {
  }

  /** Helper: as EncodeTxsCount, for the receiving walk. */
  lemma DecodeTxsCount(s: seq<byte>, pos: nat, n: nat, m: nat, c: seq<Key>)
    requires pos <= |s| && n == m
    ensures DecodeTxs(s, pos, n, c) == DecodeTxs(s, pos, m, c)
  {
  }

  /** One pass of connect's loop, as the session sees it. */
  lemma SessionStep(s: seq<byte>, pos: nat, c: seq<Key>, m: Received)
    requires pos <= |s| && m == Receive(s, pos, c)
    ensures m.next.Err? ==> Session(s, pos, c) == (m.events, m.next.error)
    ensures m.next.Ok? ==> Session(s, pos, c) == (m.events + Session(s, m.next.value, m.cache).0, Session(s, m.next.value, m.cache).1)
  {
  }

  lemma PrependBytesErr(x: seq<byte>, e: RelayError, c: seq<Key>)
    ensures PrependBytes(x, Cached(Err(e), c)) == Cached(Err(e), c)
  {
  }

  lemma PrependTxTwice(x: seq<byte>, y: seq<byte>, r: Cached<(seq<byte>, nat)>)
    ensures PrependTx(x, PrependTx(y, r)) == PrependTx(x + y, r)
  {
    if r.result.Ok? {
      assert x + (y + r.result.value.0) == x + y + r.result.value.0;
    }
  }

  lemma PrependNothing(r: Cached<seq<byte>>, d: Cached<(seq<byte>, nat)>)
    ensures PrependBytes([], r) == r && PrependTx([], d) == d
  {
    if r.result.Ok? {
      assert [] + r.result.value == r.result.value;
    }
    if d.result.Ok? {
      assert [] + d.result.value.0 == d.result.value.0;
    }
  }

  lemma PrependTxErr(x: seq<byte>, e: RelayError, c: seq<Key>)
    ensures PrependTx(x, Cached(Err(e), c)) == Cached(Err(e), c)
  {
  }

  /** The records of a BLOCK message that stop rebuilding at their first bytes. */
  lemma DecodeTxsFails(s: seq<byte>, q: nat, n: nat, c: seq<Key>)
    requires q <= |s| && n > 0
    ensures q + 2 > |s| ==> DecodeTxs(s, q, n, c) == Cached(Err(ShortRead), c)
    ensures q + 2 <= |s| && ReadBigEndian(s, q, 2) == EscapeIndex && q + 5 > |s| ==>
      DecodeTxs(s, q, n, c) == Cached(Err(ShortRead), c)
    ensures q + 5 <= |s| && ReadBigEndian(s, q, 2) == EscapeIndex && UnpackLength24(s, q + 2) > MaxTransactionLength ==>
      DecodeTxs(s, q, n, c) == Cached(Err(TransactionTooLarge), c)
    ensures q + 2 <= |s| && ReadBigEndian(s, q, 2) != EscapeIndex && ReadBigEndian(s, q, 2) >= |c| ==>
      DecodeTxs(s, q, n, c) == Cached(Err(UnknownIndex), c)
  {
  }

  /** The end of a block walk: what provide_block hands to sendall, given
      what the walk over its transactions produced. */
  lemma EncodeBlockOk(b: seq<byte>, c0: seq<Key>, count: nat, first: nat, prefix: seq<byte>,
                      body: seq<byte>, c: seq<Key>, end: seq<byte>)
    requires DecodeVarint(b, 80) == Some((count, first)) && count < TwoTo32
    requires prefix == MessageHeader(BlockType, count) + b[..80] && end == MessageHeader(EndBlockType, 0)
    requires EncodeTxs(b, first, count, c0) == Cached(Ok(body), c)
    ensures EncodeBlock(b, c0) == Cached(Ok(prefix + body + end), c)
  {
    assert prefix + (body + end) == prefix + body + end;
  }

  /** A finished loop over the transactions of a block. */
  lemma PrependBytesDone(body: seq<byte>, r: Cached<seq<byte>>)
    requires r.result == Ok([])
    ensures PrependBytes(body, r) == Cached(Ok(body), r.cache)
  {
    assert body + [] == body;
  }

  lemma PrependTxDone(txs: seq<byte>, r: Cached<(seq<byte>, nat)>)
    requires r.result.Ok? && r.result.value.0 == []
    ensures PrependTx(txs, r) == Cached(Ok((txs, r.result.value.1)), r.cache)
  {
    assert txs + [] == txs;
  }

  lemma EncodeBlockErr(b: seq<byte>, c0: seq<Key>, count: nat, first: nat, e: RelayError, c: seq<Key>)
    requires DecodeVarint(b, 80) == Some((count, first)) && count < TwoTo32
    requires EncodeTxs(b, first, count, c0) == Cached(Err(e), c)
    ensures EncodeBlock(b, c0) == Cached(Err(e), c)
  {
  }

  /** The inputs loop of provide_block's transaction walk. */
  method WalkInputs(b: seq<byte>, pos: nat, n: nat) returns (r: Option<nat>)
    ensures r == SkipInputs(b, pos, n)
  {
    var readPos := pos;
    var j: nat := 0;
    while j < n
      invariant j <= n
      invariant SkipInputs(b, readPos, n - j) == SkipInputs(b, pos, n)
      decreases n - j
    {
      SkipInputsStep(b, readPos, n - j);
      var scriptLen := DecodeVarint(b, readPos + 36);
      if scriptLen.None? {
        return None;
      }
      readPos := scriptLen.value.1 + scriptLen.value.0 + 4;
      j := j + 1;
    }
    r := Some(readPos);
  }

  /** The outputs loop of provide_block's transaction walk. */
  method WalkOutputs(b: seq<byte>, pos: nat, n: nat) returns (r: Option<nat>)
    ensures r == SkipOutputs(b, pos, n)
  {
    var readPos := pos;
    var j: nat := 0;
    while j < n
      invariant j <= n
      invariant SkipOutputs(b, readPos, n - j) == SkipOutputs(b, pos, n)
      decreases n - j
    {
      SkipOutputsStep(b, readPos, n - j);
      var scriptLen := DecodeVarint(b, readPos + 8);
      if scriptLen.None? {
        return None;
      }
      readPos := scriptLen.value.1 + scriptLen.value.0;
      j := j + 1;
    }
    r := Some(readPos);
  }

  /** The walk over one transaction in provide_block: the 4-byte version, the
      inputs, the outputs and the 4-byte lock time. None where decode_varint
      would raise, past the end of the block. */
  method TransactionEnd(b: seq<byte>, start: nat) returns (r: Option<nat>)
    ensures r == TxEnd(b, start)
  {
    var inCount := DecodeVarint(b, start + 4);
    if inCount.None? {
      return None;
    }
    var outputsAt := WalkInputs(b, inCount.value.1, inCount.value.0);
    if outputsAt.None? {
      return None;
    }
    var outCount := DecodeVarint(b, outputsAt.value);
    if outCount.None? {
      return None;
    }
    var endAt := WalkOutputs(b, outCount.value.1, outCount.value.0);
    if endAt.None? {
      return None;
    }
    r := Some(endAt.value + 4);
  }

  /** The end of the BLOCK branch once the records are rebuilt: the header and
      the block go to the recipient, then the END_BLOCK message is checked. */
  method FinishBlock(s: seq<byte>, header: seq<byte>, count: nat, txs: Result<(seq<byte>, nat), RelayError>, ghost c: seq<Key>)
    returns (events: seq<Event>, next: Result<nat, RelayError>)
    requires count <= MaxBlockTransactions && (txs.Ok? ==> txs.value.1 <= |s|)
    ensures Received(events, next, c) == BlockEnd(s, header, count, Cached(txs, c))
  {
    events := [HeaderProvided(header)];
    if txs.Err? {
      return events, Err(txs.error);
    }
    CountPrefixAsWrittenAgrees(count);
    var blockData := header + CountPrefixAsWritten(count).value + txs.value.0;
    events := events + [BlockProvided(blockData)];
    var readPos := txs.value.1;
    if readPos + 12 > |s| {
      return events, Err(ShortRead);
    }
    if ReadHeader(s, readPos) != (Magic, EndBlockType, 0) {
      return events, Err(BadEndBlock);
    }
    next := Ok(readPos + 12);
  }

  /** An accepted transaction is delivered and joins the receive cache, which
      keeps its bound on flagged entries. */
  lemma TransactionAccepted(s: seq<byte>, pos: nat, len: nat, c0: seq<Key>, c1: seq<Key>)
    requires pos <= |s| && CacheInvariant(c0) && FreeTransactionAllowed(len, FlaggedCount(c0))
    requires c1 == AfterAdd(c0, CacheSize, Recv(s, pos, len), OversizeFlag(len))
    ensures ReceiveTransaction(s, pos, len, c0) == Received([TransactionProvided(Recv(s, pos, len))], Ok(pos + |Recv(s, pos, len)|), c1)
    ensures FlaggedCount(c1) <= MaxExtraOversizeTransactions
  {
    AddFlagBound(c0, CacheSize, Recv(s, pos, len), OversizeFlag(len));
  }

  class RelayNetworkClient {
    /** recv_transaction_cache and send_transaction_cache, both FlaggedArraySet(1000). */
    var recvCache: FlaggedArraySet
    var sendCache: FlaggedArraySet

    /** Two distinct caches of the protocol's size; the receive cache holds at
        most MaxExtraOversizeTransactions flagged transactions. */
    ghost predicate Valid()
      reads this, recvCache, sendCache
    {
      && recvCache != sendCache
      && recvCache.Valid() && sendCache.Valid()
      && recvCache.maxSize == CacheSize && sendCache.maxSize == CacheSize
      && FlaggedCount(recvCache.Contents()) <= MaxExtraOversizeTransactions
    }

    /** connect's setup: fresh caches and the version message. */
    constructor ()
      ensures Valid() && recvCache.Contents() == [] && sendCache.Contents() == []
    {
      recvCache := new FlaggedArraySet(CacheSize);
      sendCache := new FlaggedArraySet(CacheSize);
    }

    /** provide_block: walks block b transaction by transaction, replacing each
        one found in the send cache by its index (and removing it there) and
        escaping any other; the result is the bytes handed to sendall, or the
        error raised before anything is sent. */
    method ProvideBlock(b: seq<byte>) returns (r: Result<seq<byte>, RelayError>)
      requires Valid()
      modifies sendCache
      ensures Valid()
      ensures r == EncodeBlock(b, old(sendCache.Contents())).result
      ensures sendCache.Contents() == EncodeBlock(b, old(sendCache.Contents())).cache
    {
      ghost var c0 := sendCache.Contents();
      var countAt := DecodeVarint(b, 80);
      if countAt.None? {
        return Err(Truncated);
      }
      var count := countAt.value.0;
      if count >= TwoTo32 {
        return Err(CountTooLarge);
      }
      var body := EncodeTransactions(b, countAt.value.1, count);
      if body.Err? {
        EncodeBlockErr(b, c0, count, countAt.value.1, body.error, sendCache.Contents());
        return Err(body.error);
      }
      var prefix := MessageHeader(BlockType, count) + b[..80];
      var end := MessageHeader(EndBlockType, 0);
      EncodeBlockOk(b, c0, count, countAt.value.1, prefix, body.value, sendCache.Contents(), end);
      r := Ok(prefix + body.value + end);
    }

    /** provide_block's loop over the count transactions from pos: the bytes
        it appends to relay_data, or the error it raises. */
    method EncodeTransactions(b: seq<byte>, pos: nat, count: nat) returns (r: Result<seq<byte>, RelayError>)
      requires sendCache.Valid() && sendCache.maxSize == CacheSize
      modifies sendCache
      ensures sendCache.Valid() && sendCache.maxSize == CacheSize
      ensures Cached(r, sendCache.Contents()) == EncodeTxs(b, pos, count, old(sendCache.Contents()))
    {
      ghost var c0 := sendCache.Contents();
      var body: seq<byte> := [];
      var readPos: nat := pos;
      var i := 0;
      ghost var left: nat := count;
      PrependNothing(EncodeTxs(b, pos, count, c0), Cached(Ok(([], 0)), []));
      while i < count
        invariant i <= count && left == count - i
        invariant sendCache.Valid() && sendCache.maxSize == CacheSize
        invariant EncodeTxs(b, pos, count, c0) == PrependBytes(body, EncodeTxs(b, readPos, left, sendCache.Contents()))
        decreases count - i
      {
        var record := EncodeRecord(b, readPos, left);
        if record.Err? {
          PrependBytesErr(body, record.error, sendCache.Contents());
          return Err(record.error);
        }
        PrependBytesTwice(body, record.value.0, EncodeTxs(b, record.value.1, left - 1, sendCache.Contents()));
        ghost var before := left;
        body := body + record.value.0;
        readPos := record.value.1;
        i := i + 1;
        left := left - 1;
        EncodeTxsCount(b, readPos, before - 1, left, sendCache.Contents());
      }
      EncodeTxsCount(b, readPos, left, 0, sendCache.Contents());
      PrependBytesDone(body, EncodeTxs(b, readPos, 0, sendCache.Contents()));
      r := Ok(body);
    }

    /** One transaction of provide_block's loop: the walk over it, then its
        2-byte index (and its removal from the send cache) if the cache holds
        it, or the escape, its 3-byte length and its bytes; the result is the
        bytes emitted and where the next transaction starts. */
    method EncodeRecord(b: seq<byte>, pos: nat, ghost n: nat) returns (r: Result<(seq<byte>, nat), RelayError>)
      requires sendCache.Valid() && sendCache.maxSize == CacheSize && n > 0
      modifies sendCache
      ensures sendCache.Valid() && sendCache.maxSize == CacheSize
      ensures r.Err? ==> EncodeTxs(b, pos, n, old(sendCache.Contents())) == Cached(Err(r.error), sendCache.Contents())
      ensures r.Ok? ==> EncodeTxs(b, pos, n, old(sendCache.Contents()))
                        == PrependBytes(r.value.0, EncodeTxs(b, r.value.1, n - 1, sendCache.Contents()))
    {
      var end := TransactionEnd(b, pos);
      if end.None? {
        EncodeTxsTruncated(b, pos, n, sendCache.Contents());
        return Err(Truncated);
      }
      var tx := Slice(b, pos, end.value);
      var index := sendCache.GetIndex(tx);
      if index.None? {
        var len := PackLength24(|tx|);
        if len.None? {
          EncodeTxsTooLong(b, pos, n, sendCache.Contents(), end.value, tx);
          return Err(LengthTooLarge);
        }
        EncodeTxsEscapedStep(b, pos, n, sendCache.Contents(), end.value, tx, len.value);
        r := Ok((BigEndian(EscapeIndex, 2) + len.value + tx, end.value));
      } else {
        var at: nat := index.value;
        EncodeTxsCachedStep(b, pos, n, sendCache.Contents(), end.value, tx, at);
        sendCache.Remove(tx);
        r := Ok((BigEndian(at, 2), end.value));
      }
    }

    /** provide_transaction: sends tx unless the send cache already holds it or
        it is too large to relay freely, and then caches it, flagged when it is
        oversize. */
    method ProvideTransaction(tx: Tx) returns (sent: Option<seq<byte>>)
      requires Valid()
      modifies sendCache
      ensures Valid()
      ensures Offer(sent, sendCache.Contents()) == OfferTransaction(old(sendCache.Contents()), tx)
    {
      var present := sendCache.Contains(tx);
      if present {
        return None;
      }
      var flagCount := sendCache.GetFlagCount();
      if |tx| > MaxRelayTransactionBytes && (|tx| > MaxRelayOversizeTransactionBytes || flagCount >= MaxExtraOversizeTransactions) {
        return None;
      }
      sent := Some(MessageHeader(TransactionType, |tx|) + tx);
      sendCache.Add(tx, OversizeFlag(|tx|));
    }

    /** One record of a BLOCK message: a 2-byte index naming a cached
        transaction, which leaves the receive cache, or the escape, a 3-byte
        length and the transaction itself; the result is the transaction and
        where the next record starts. */
    method DecodeRecord(s: seq<byte>, pos: nat, ghost n: nat) returns (r: Result<(seq<byte>, nat), RelayError>)
      requires recvCache.Valid() && recvCache.maxSize == CacheSize && pos <= |s| && n > 0
      modifies recvCache
      ensures recvCache.Valid() && recvCache.maxSize == CacheSize
      ensures r.Err? ==> DecodeTxs(s, pos, n, old(recvCache.Contents())) == Cached(Err(r.error), recvCache.Contents())
      ensures r.Ok? ==> r.value.1 <= |s| && DecodeTxs(s, pos, n, old(recvCache.Contents()))
                        == PrependTx(r.value.0, DecodeTxs(s, r.value.1, n - 1, recvCache.Contents()))
    {
      ghost var c := recvCache.Contents();
      if pos + 2 > |s| {
        DecodeTxsFails(s, pos, n, c);
        return Err(ShortRead);
      }
      var index := ReadBigEndian(s, pos, 2);
      if index == EscapeIndex {
        if pos + 5 > |s| {
          DecodeTxsFails(s, pos, n, c);
          return Err(ShortRead);
        }
        var len := UnpackLength24(s, pos + 2);
        if len > MaxTransactionLength {
          DecodeTxsFails(s, pos, n, c);
          return Err(TransactionTooLarge);
        }
        var tx := Recv(s, pos + 5, len);
        var next := pos + 5 + |tx|;
        DecodeEscapedRecord(s, pos, n, c, tx, next, n - 1);
        r := Ok((tx, next));
      } else {
        r := DecodeCachedRecord(s, pos, n, index);
      }
    }

    /** A record that names the transaction at relative index `index` of the
        receive cache, which then leaves the cache. */
    method DecodeCachedRecord(s: seq<byte>, pos: nat, ghost n: nat, index: nat) returns (r: Result<(seq<byte>, nat), RelayError>)
      requires recvCache.Valid() && recvCache.maxSize == CacheSize && n > 0
      requires pos + 2 <= |s| && ReadBigEndian(s, pos, 2) == index && index != EscapeIndex
      modifies recvCache
      ensures recvCache.Valid() && recvCache.maxSize == CacheSize
      ensures r.Err? ==> DecodeTxs(s, pos, n, old(recvCache.Contents())) == Cached(Err(r.error), recvCache.Contents())
      ensures r.Ok? ==> r.value.1 <= |s| && DecodeTxs(s, pos, n, old(recvCache.Contents()))
                        == PrependTx(r.value.0, DecodeTxs(s, r.value.1, n - 1, recvCache.Contents()))
    {
      ghost var c := recvCache.Contents();
      var cached := recvCache.GetByIndex(index);
      if cached.None? {
        DecodeTxsFails(s, pos, n, c);
        return Err(UnknownIndex);
      }
      var next := pos + 2;
      DecodeCachedAt(s, pos, n, c, index, next, n - 1);
      recvCache.Remove(cached.value);
      r := Ok((cached.value, next));
    }

    /** The BLOCK branch of connect once the message header is read: the block
        header, then count records rebuilt against the receive cache, then the
        END_BLOCK message. */
    method ReceiveBlockMessage(s: seq<byte>, pos: nat, count: nat) returns (events: seq<Event>, next: Result<nat, RelayError>)
      requires Valid() && pos <= |s| && count < TwoTo32
      modifies recvCache
      ensures Valid()
      ensures Received(events, next, recvCache.Contents()) == ReceiveBlock(s, pos, count, old(recvCache.Contents()))
    {
      ghost var c0 := recvCache.Contents();
      assert CacheInvariant(c0);
      if count > MaxBlockTransactions {
        return [], Err(TooManyTransactions);
      }
      var header := Recv(s, pos, 80);
      var txs := DecodeTransactions(s, pos + |header|, count);
      DecodeKeepsBounds(s, pos + |header|, count, c0);
      events, next := FinishBlock(s, header, count, txs, recvCache.Contents());
    }

    /** The loop of the BLOCK branch over the count records from pos: the
        transactions it appends to block_data and where the records end, or the
        error that ends the connection. */
    method DecodeTransactions(s: seq<byte>, pos: nat, count: nat) returns (r: Result<(seq<byte>, nat), RelayError>)
      requires recvCache.Valid() && recvCache.maxSize == CacheSize && pos <= |s|
      modifies recvCache
      ensures recvCache.Valid() && recvCache.maxSize == CacheSize
      ensures Cached(r, recvCache.Contents()) == DecodeTxs(s, pos, count, old(recvCache.Contents()))
    {
      ghost var c0 := recvCache.Contents();
      var txs: seq<byte> := [];
      var readPos: nat := pos;
      var i := 0;
      ghost var left: nat := count;
      PrependNothing(Cached(Ok([]), []), DecodeTxs(s, pos, count, c0));
      while i < count
        invariant i <= count && left == count - i && readPos <= |s|
        invariant recvCache.Valid() && recvCache.maxSize == CacheSize
        invariant DecodeTxs(s, pos, count, c0) == PrependTx(txs, DecodeTxs(s, readPos, left, recvCache.Contents()))
        decreases count - i
      {
        var record := DecodeRecord(s, readPos, left);
        if record.Err? {
          PrependTxErr(txs, record.error, recvCache.Contents());
          return Err(record.error);
        }
        PrependTxTwice(txs, record.value.0, DecodeTxs(s, record.value.1, left - 1, recvCache.Contents()));
        ghost var before := left;
        txs := txs + record.value.0;
        readPos := record.value.1;
        i := i + 1;
        left := left - 1;
        DecodeTxsCount(s, readPos, before - 1, left, recvCache.Contents());
      }
      DecodeTxsCount(s, readPos, left, 0, recvCache.Contents());
      PrependTxDone(txs, DecodeTxs(s, readPos, 0, recvCache.Contents()));
      r := Ok((txs, readPos));
    }

    /** One pass of connect's receive loop: the message at pos is checked and
        handled by type; the result is the recipient calls made and the position
        after the message or the error that ends the connection. */
    method ReceiveMessage(s: seq<byte>, pos: nat) returns (events: seq<Event>, next: Result<nat, RelayError>)
      requires Valid() && pos <= |s|
      modifies recvCache
      ensures Valid()
      ensures Received(events, next, recvCache.Contents()) == Receive(s, pos, old(recvCache.Contents()))
    {
      if pos + 12 > |s| {
        return [], Err(ShortRead);
      }
      var header := ReadHeader(s, pos);
      var p := pos + 12;
      if header.0 != Magic {
        return [], Err(BadMagic);
      }
      if header.2 > MaxMessageLength {
        return [], Err(MessageTooLarge);
      }
      if header.1 == VersionType {
        var version := Recv(s, p, header.2);
        if version != VersionString {
          return [], Err(UnknownVersion);
        }
        return [], Ok(p + |version|);
      } else if header.1 == BlockType {
        events, next := ReceiveBlockMessage(s, p, header.2);
      } else if header.1 == TransactionType {
        events, next := ReceiveTransactionMessage(s, p, header.2);
      } else if header.1 == MaxVersionType {
        var version := Recv(s, p, header.2);
        return [], Ok(p + |version|);
      } else {
        return [], Err(UnknownMessageType);
      }
    }

    /** The TRANSACTION branch of connect once the message header is read. */
    method ReceiveTransactionMessage(s: seq<byte>, pos: nat, len: nat) returns (events: seq<Event>, next: Result<nat, RelayError>)
      requires Valid() && pos <= |s|
      modifies recvCache
      ensures Valid()
      ensures Received(events, next, recvCache.Contents()) == ReceiveTransaction(s, pos, len, old(recvCache.Contents()))
    {
      var flagCount := recvCache.GetFlagCount();
      if len > MaxRelayTransactionBytes
         && (flagCount >= MaxExtraOversizeTransactions || len > MaxRelayOversizeTransactionBytes) {
        return [], Err(FreeTransactionTooLarge);
      }
      events, next := AcceptTransaction(s, pos, len);
    }

    /** A transaction the flag count lets through: delivered, and added to the
        receive cache, flagged when it is oversize. */
    method AcceptTransaction(s: seq<byte>, pos: nat, len: nat) returns (events: seq<Event>, next: Result<nat, RelayError>)
      requires Valid() && pos <= |s| && FreeTransactionAllowed(len, FlaggedCount(recvCache.Contents()))
      modifies recvCache
      ensures Valid()
      ensures Received(events, next, recvCache.Contents()) == ReceiveTransaction(s, pos, len, old(recvCache.Contents()))
    {
      ghost var c0 := recvCache.Contents();
      assert CacheInvariant(c0);
      var tx := Recv(s, pos, len);
      recvCache.Add(tx, OversizeFlag(len));
      TransactionAccepted(s, pos, len, c0, recvCache.Contents());
      events, next := [TransactionProvided(tx)], Ok(pos + |tx|);
    }

    /** connect: fresh caches, the version message sent, then messages handled
        until one fails, which ends the connection. */
    method Connect(s: seq<byte>) returns (sent: seq<byte>, events: seq<Event>, failure: RelayError)
      modifies this
      ensures Valid() && fresh(recvCache) && fresh(sendCache) && sendCache.Contents() == []
      ensures sent == VersionMessage()
      ensures (events, failure) == Session(s, 0, [])
    {
      recvCache := new FlaggedArraySet(CacheSize);
      sendCache := new FlaggedArraySet(CacheSize);
      sent := VersionMessage();
      events, failure := Serve(s, 0);
    }

    /** One pass of connect's receive loop, stated as the session sees it. */
    method ServeOne(s: seq<byte>, pos: nat) returns (more: seq<Event>, next: Result<nat, RelayError>)
      requires Valid() && pos <= |s|
      modifies recvCache
      ensures Valid()
      ensures next.Err? ==> Session(s, pos, old(recvCache.Contents())) == (more, next.error)
      ensures next.Ok? ==> pos < next.value <= |s| && Session(s, pos, old(recvCache.Contents()))
                           == (more + Session(s, next.value, recvCache.Contents()).0, Session(s, next.value, recvCache.Contents()).1)
    {
      ghost var c := recvCache.Contents();
      more, next := ReceiveMessage(s, pos);
      SessionStep(s, pos, c, Received(more, next, recvCache.Contents()));
    }

    /** connect's receive loop from position start onwards: every recipient
        call made, and the failure that ends the connection. */
    method Serve(s: seq<byte>, start: nat) returns (events: seq<Event>, failure: RelayError)
      requires Valid() && start <= |s|
      modifies recvCache
      ensures Valid()
      ensures (events, failure) == Session(s, start, old(recvCache.Contents()))
    {
      ghost var c0 := recvCache.Contents();
      events := [];
      var pos := start;
      assert [] + Session(s, start, c0).0 == Session(s, start, c0).0;
      while true
        invariant Valid() && pos <= |s|
        invariant Session(s, start, c0) == (events + Session(s, pos, recvCache.Contents()).0, Session(s, pos, recvCache.Contents()).1)
        decreases |s| - pos
      {
        var more, next := ServeOne(s, pos);
        if next.Err? {
          return events + more, next.error;
        }
        ghost var rest := Session(s, next.value, recvCache.Contents());
        assert events + (more + rest.0) == events + more + rest.0;
        events := events + more;
        pos := next.value;
      }
    }
  }
}
