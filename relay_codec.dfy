/** The relay protocol's messages (RelayNetworkClient.py): the 12-byte message
    header, the walk over a serialized block's legacy transaction layout that finds
    each transaction's boundaries, the compressed block the sender emits
    (provide_block) and the checks and rebuilding the receiver performs (connect). */
module RelayCodec {
  import opened Common
  import opened RelayWire
  import opened FlaggedArraySets

  const Magic: nat := 0xF2BEEF42
  const VersionType: nat := 0
  const BlockType: nat := 1
  const TransactionType: nat := 2
  const EndBlockType: nat := 3
  const MaxVersionType: nat := 4
  /** The protocol version both ends announce: "prioritized panther". */
  const VersionString: seq<byte> :=
    [0x70, 0x72, 0x69, 0x6f, 0x72, 0x69, 0x74, 0x69, 0x7a, 0x65, 0x64, 0x20, 0x70, 0x61, 0x6e, 0x74, 0x68, 0x65, 0x72]
  const MaxRelayTransactionBytes: nat := 10000
  const MaxRelayOversizeTransactionBytes: nat := 250000
  const MaxExtraOversizeTransactions: nat := 20
  /** Both transaction caches are FlaggedArraySet(1000). */
  const CacheSize: nat := 1000
  /** Largest length field any message may carry. */
  const MaxMessageLength: nat := 1000000
  /** Largest transaction count of a BLOCK message. */
  const MaxBlockTransactions: nat := 10000
  /** Largest escaped in-block transaction (MAX_BLOCK_SIZE). */
  const MaxTransactionLength: nat := 1000000
  /** The 2-byte index that announces an escaped (uncached) transaction. */
  const EscapeIndex: nat := 0xffff

  /** Why a step fails. On the receiving side every failure ends the connection
      (the caller reconnects); on the sending side it is the exception that
      provide_block raises. */
  datatype RelayError =
    | ShortRead               // unpack of fewer bytes than it needs: the stream ended
    | BadMagic
    | MessageTooLarge
    | UnknownVersion
    | TooManyTransactions
    | TransactionTooLarge
    | UnknownIndex
    | BadEndBlock
    | FreeTransactionTooLarge
    | UnknownMessageType
    | Truncated               // sender: decode_varint past the end of the block
    | CountTooLarge           // sender: a transaction count that '>I' cannot pack
    | LengthTooLarge          // sender: a transaction length that '>HB' cannot pack

  /** A call into the data recipient. */
  datatype Event =
    | HeaderProvided(header: seq<byte>)
    | BlockProvided(block: seq<byte>)
    | TransactionProvided(tx: seq<byte>)

  /** A result together with the cache contents after the step that produced it;
      after an error the cache keeps whatever the step had already removed. */
  datatype Cached<T> = Cached(result: Result<T, RelayError>, cache: seq<Key>)

  /** The effect of receiving one message: the recipient calls made, the stream
      position after the message or the error that ends the connection, and the
      receive cache afterwards. */
  datatype Received = Received(events: seq<Event>, next: Result<nat, RelayError>, cache: seq<Key>)

  // ---------------------------------------------------------------------------
  // Framing

  lemma Pow256Values()
    ensures Pow256(2) == 0x1_0000 && Pow256(3) == 0x100_0000 && Pow256(4) == TwoTo32
  {
    assert Pow256(1) == 256;
  }

  /** pack('>3I', Magic, msgType, len). */
  function MessageHeader(msgType: nat, len: nat): (r: seq<byte>)
    ensures |r| == 12
  {
    BigEndian(Magic, 4) + BigEndian(msgType, 4) + BigEndian(len, 4)
  }

  /** The three 32-bit fields unpack('>3I') reads at s[pos..pos + 12]. */
  function ReadHeader(s: seq<byte>, pos: nat): (r: (nat, nat, nat))
    requires pos + 12 <= |s|
    ensures r.0 < TwoTo32 && r.1 < TwoTo32 && r.2 < TwoTo32
  {
    Pow256Values();
    (ReadBigEndian(s, pos, 4), ReadBigEndian(s, pos + 4, 4), ReadBigEndian(s, pos + 8, 4))
  }

  lemma HeaderRoundTrip(msgType: nat, len: nat, pre: seq<byte>, post: seq<byte>)
    requires msgType < TwoTo32 && len < TwoTo32
    ensures ReadHeader(pre + MessageHeader(msgType, len) + post, |pre|) == (Magic, msgType, len)
  {
    Pow256Values();
    var m, t, l := BigEndian(Magic, 4), BigEndian(msgType, 4), BigEndian(len, 4);
    var all := pre + MessageHeader(msgType, len) + post;
    assert all == pre + m + (t + l + post);
    BigEndianRoundTrip(Magic, 4, pre, t + l + post);
    assert all == (pre + m) + t + (l + post);
    BigEndianRoundTrip(msgType, 4, pre + m, l + post);
    assert all == (pre + m + t) + l + post;
    BigEndianRoundTrip(len, 4, pre + m + t, post);
  }

  /** recv(n, MSG_WAITALL) at s[pos..]: n bytes, or fewer only where the stream
      ends. */
  function Recv(s: seq<byte>, pos: nat, n: nat): (r: seq<byte>)
    requires pos <= |s|
    ensures |r| <= n && pos + |r| <= |s| && r == s[pos..pos + |r|]
    ensures |r| < n ==> pos + |r| == |s|
  {
    if pos + n <= |s| then s[pos..pos + n] else s[pos..]
  }

  // ---------------------------------------------------------------------------
  // The sender's walk over a serialized block

  /** block_data[from:to] with Python's clamping of slice bounds to the block. */
  function Slice(b: seq<byte>, from: nat, to: nat): (r: seq<byte>)
    requires from <= to
    ensures to <= |b| ==> r == b[from..to]
    ensures |r| <= to - from
  {
    if to <= |b| then b[from..to] else if from <= |b| then b[from..] else []
  }

  /** Skips n inputs from pos: each is a 36-byte outpoint, a CompactSize script
      length, the script and a 4-byte sequence number. None where a length runs
      past the end of the block. */
  function SkipInputs(b: seq<byte>, pos: nat, n: nat): (r: Option<nat>)
    ensures r.Some? ==> r.value >= pos + 41 * n
    decreases n
  {
    if n == 0 then Some(pos)
    else match DecodeVarint(b, pos + 36)
      case None => None
      case Some((len, p)) => SkipInputs(b, p + len + 4, n - 1)
  }

  /** Skips n outputs from pos: each is an 8-byte value, a CompactSize script
      length and the script. */
  function SkipOutputs(b: seq<byte>, pos: nat, n: nat): (r: Option<nat>)
    ensures r.Some? ==> r.value >= pos + 9 * n
    decreases n
  {
    if n == 0 then Some(pos)
    else match DecodeVarint(b, pos + 8)
      case None => None
      case Some((len, p)) => SkipOutputs(b, p + len, n - 1)
  }

  /** Where the legacy-layout transaction starting at `start` ends: 4-byte version,
      input count and inputs, output count and outputs, 4-byte lock time. */
  function TxEnd(b: seq<byte>, start: nat): (r: Option<nat>)
    ensures r.Some? ==> r.value >= start + 10
  {
    match DecodeVarint(b, start + 4)
    case None => None
    case Some((inCount, p)) =>
      match SkipInputs(b, p, inCount)
      case None => None
      case Some(q) =>
        match DecodeVarint(b, q)
        case None => None
        case Some((outCount, o)) =>
          match SkipOutputs(b, o, outCount)
          case None => None
          case Some(e) => Some(e + 4)
  }

  /** The n transactions the walk finds from pos, as provide_block slices them out
      of the block, and the position after the last. */
  function Walk(b: seq<byte>, pos: nat, n: nat): (r: Option<(seq<Tx>, nat)>)
    ensures r.Some? ==> |r.value.0| == n && r.value.1 >= pos + 10 * n
    decreases n
  {
    if n == 0 then Some(([], pos))
    else match TxEnd(b, pos)
      case None => None
      case Some(end) =>
        match Walk(b, end, n - 1)
        case None => None
        case Some((rest, e)) => Some(([Slice(b, pos, end)] + rest, e))
  }

  /** The transactions laid end to end. */
  function Concat(txs: seq<Tx>): seq<byte>
  {
    if txs == [] then [] else txs[0] + Concat(txs[1..])
  }

  /** Prefixes the bytes emitted so far to the result of the rest of a walk. */
  function PrependBytes(x: seq<byte>, r: Cached<seq<byte>>): (p: Cached<seq<byte>>)
    ensures p.cache == r.cache && p.result.Ok? == r.result.Ok?
    ensures r.result.Ok? ==> p.result.value == x + r.result.value
    ensures r.result.Err? ==> p.result == r.result
  {
    match r.result
    case Ok(t) => Cached(Ok(x + t), r.cache)
    case Err(e) => Cached(Err(e), r.cache)
  }

  lemma PrependBytesTwice(x: seq<byte>, y: seq<byte>, r: Cached<seq<byte>>)
    ensures PrependBytes(x, PrependBytes(y, r)) == PrependBytes(x + y, r)
  {
    if r.result.Ok? {
      assert x + (y + r.result.value) == x + y + r.result.value;
    }
  }

  /** The encoding of n transactions from pos onwards against send cache c: a
      cached transaction becomes its 2-byte relative index and leaves the cache;
      any other becomes 0xffff, its 3-byte length and its bytes. (The index is
      below the cache's size, 1000, so it always fits two bytes.) */
  function EncodeTxs(b: seq<byte>, pos: nat, n: nat, c: seq<Key>): Cached<seq<byte>>
    decreases n
  {
    if n == 0 then Cached(Ok([]), c)
    else match TxEnd(b, pos)
      case None => Cached(Err(Truncated), c)
      case Some(end) =>
        var tx := Slice(b, pos, end);
        match IndexOf(c, tx)
        case Some(i) => PrependBytes(BigEndian(i, 2), EncodeTxs(b, end, n - 1, Without(c, tx)))
        case None =>
          match PackLength24(|tx|)
          case None => Cached(Err(LengthTooLarge), c)
          case Some(len) => PrependBytes(BigEndian(EscapeIndex, 2) + len + tx, EncodeTxs(b, end, n - 1, c))
  }

  /** provide_block: the BLOCK message for block b (header carrying the
      transaction count, the 80-byte block header, the transactions, the
      END_BLOCK message) and the send cache afterwards. */
  function EncodeBlock(b: seq<byte>, c: seq<Key>): (r: Cached<seq<byte>>)
    ensures r.result.Ok? ==> |b| >= 80 && |r.result.value| >= 12 + 80 + 12
    ensures r.result.Ok? ==> r.result.value[12..92] == b[..80]
    ensures r.result.Ok? ==> r.result.value[|r.result.value| - 12..] == MessageHeader(EndBlockType, 0)
  {
    match DecodeVarint(b, 80)
    case None => Cached(Err(Truncated), c)
    case Some((count, p)) =>
      if count >= TwoTo32 then Cached(Err(CountTooLarge), c)
      else PrependBytes(MessageHeader(BlockType, count) + b[..80],
                   AppendBytes(EncodeTxs(b, p, count, c), MessageHeader(EndBlockType, 0)))
  }

  /** Appends the END_BLOCK message to a successful walk. */
  function AppendBytes(r: Cached<seq<byte>>, y: seq<byte>): (p: Cached<seq<byte>>)
    ensures p.cache == r.cache && p.result.Ok? == r.result.Ok?
    ensures r.result.Ok? ==> p.result.value == r.result.value + y
    ensures r.result.Err? ==> p.result == r.result
  {
    match r.result
    case Ok(t) => Cached(Ok(t + y), r.cache)
    case Err(e) => Cached(Err(e), r.cache)
  }

  // ---------------------------------------------------------------------------
  // The receiver

  /** Prefixes a rebuilt transaction to the result of decoding the rest. */
  function PrependTx(tx: seq<byte>, r: Cached<(seq<byte>, nat)>): (p: Cached<(seq<byte>, nat)>)
    ensures p.cache == r.cache && p.result.Ok? == r.result.Ok?
    ensures r.result.Ok? ==> p.result.value == (tx + r.result.value.0, r.result.value.1)
    ensures r.result.Err? ==> p.result == r.result
  {
    match r.result
    case Ok((t, pos)) => Cached(Ok((tx + t, pos)), r.cache)
    case Err(e) => Cached(Err(e), r.cache)
  }

  /** Rebuilds n transactions from the stream at pos against receive cache c: an
      index names the cached transaction at that relative index, which leaves the
      cache; 0xffff is followed by a 3-byte length and the transaction itself. The
      result is the transactions' bytes and the stream position after them. */
  function DecodeTxs(s: seq<byte>, pos: nat, n: nat, c: seq<Key>): (r: Cached<(seq<byte>, nat)>)
    requires pos <= |s|
    ensures r.result.Ok? ==> pos <= r.result.value.1 <= |s|
    decreases n
  {
    if n == 0 then Cached(Ok(([], pos)), c)
    else if pos + 2 > |s| then Cached(Err(ShortRead), c)
    else
      var index := ReadBigEndian(s, pos, 2);
      if index == EscapeIndex then
        if pos + 5 > |s| then Cached(Err(ShortRead), c)
        else
          var len := UnpackLength24(s, pos + 2);
          if len > MaxTransactionLength then Cached(Err(TransactionTooLarge), c)
          else
            var tx := Recv(s, pos + 5, len);
            PrependTx(tx, DecodeTxs(s, pos + 5 + |tx|, n - 1, c))
      else if index < |c| then
        var tx := c[index].0;
        PrependTx(tx, DecodeTxs(s, pos + 2, n - 1, Without(c, tx)))
      else Cached(Err(UnknownIndex), c)
  }

  /** The flag add() is given for a received or sent free transaction: it marks
      the transactions over MaxRelayTransactionBytes, which are the ones the
      MaxExtraOversizeTransactions cap counts. */
  function OversizeFlag(len: nat): (flag: bool)
    ensures flag <==> len > MaxRelayTransactionBytes
  {
    len > MaxRelayTransactionBytes
  }

  /** The flag exactly as RelayNetworkClient.py computes it, against the larger bound. */
  function OversizeFlagAsWritten(len: nat): (flag: bool)
    ensures flag <==> len > MaxRelayOversizeTransactionBytes
  {
    len > MaxRelayOversizeTransactionBytes
  }

  /** A free transaction of len bytes passes the size check when it is small, or
      oversize but within the oversize bound while fewer than
      MaxExtraOversizeTransactions flagged transactions are cached. */
  predicate FreeTransactionAllowed(len: nat, flagCount: nat)
  {
    !(len > MaxRelayTransactionBytes && (flagCount >= MaxExtraOversizeTransactions || len > MaxRelayOversizeTransactionBytes))
  }

  /** The BLOCK branch once its header has been read: count transactions, header
      and count prefix first, then the END_BLOCK message. */
  function ReceiveBlock(s: seq<byte>, pos: nat, count: nat, c: seq<Key>): (r: Received)
    requires pos <= |s| && count < TwoTo32
    ensures r.next.Ok? ==> pos + 12 <= r.next.value <= |s|
  {
    if count > MaxBlockTransactions then Received([], Err(TooManyTransactions), c)
    else
      var header := Recv(s, pos, 80);
      BlockEnd(s, header, count, DecodeTxs(s, pos + |header|, count, c))
  }

  /** The rest of the BLOCK branch once its records are rebuilt (or have
      failed): the recipient calls made and the END_BLOCK message. */
  function BlockEnd(s: seq<byte>, header: seq<byte>, count: nat, txs: Cached<(seq<byte>, nat)>): (r: Received)
    requires count < TwoTo32 && (txs.result.Ok? ==> txs.result.value.1 <= |s|)
    ensures r.next.Ok? ==> txs.result.Ok? && r.next.value == txs.result.value.1 + 12 <= |s|
  {
    match txs.result
    case Err(e) => Received([HeaderProvided(header)], Err(e), txs.cache)
    case Ok((t, q)) =>
      var events := [HeaderProvided(header), BlockProvided(header + CountPrefix(count) + t)];
      if q + 12 > |s| then Received(events, Err(ShortRead), txs.cache)
      else if ReadHeader(s, q) != (Magic, EndBlockType, 0) then Received(events, Err(BadEndBlock), txs.cache)
      else Received(events, Ok(q + 12), txs.cache)
  }

  /** The TRANSACTION branch of connect once the message header is read: a
      transaction too large to relay freely ends the connection; any other is
      delivered and joins the receive cache, flagged when it is oversize. */
  function ReceiveTransaction(s: seq<byte>, pos: nat, len: nat, c: seq<Key>): (r: Received)
    requires pos <= |s|
    ensures r.next.Ok? ==> pos <= r.next.value <= |s|
  {
    if !FreeTransactionAllowed(len, FlaggedCount(c)) then Received([], Err(FreeTransactionTooLarge), c)
    else
      var tx := Recv(s, pos, len);
      Received([TransactionProvided(tx)], Ok(pos + |tx|), AfterAdd(c, CacheSize, tx, OversizeFlag(len)))
  }

  /** One pass of connect's receive loop: read a message header at pos, check it,
      and handle the message by type. */
  function Receive(s: seq<byte>, pos: nat, c: seq<Key>): (r: Received)
    requires pos <= |s|
    ensures r.next.Ok? ==> pos + 12 <= r.next.value <= |s|
  {
    if pos + 12 > |s| then Received([], Err(ShortRead), c)
    else
      var (magic, msgType, len) := ReadHeader(s, pos);
      var p := pos + 12;
      if magic != Magic then Received([], Err(BadMagic), c)
      else if len > MaxMessageLength then Received([], Err(MessageTooLarge), c)
      else if msgType == VersionType then
        var version := Recv(s, p, len);
        if version != VersionString then Received([], Err(UnknownVersion), c)
        else Received([], Ok(p + |version|), c)
      else if msgType == BlockType then ReceiveBlock(s, p, len, c)
      else if msgType == TransactionType then ReceiveTransaction(s, p, len, c)
      else if msgType == MaxVersionType then Received([], Ok(p + |Recv(s, p, len)|), c)
      else Received([], Err(UnknownMessageType), c)
  }

  /** connect's loop: messages are handled until one fails, which ends the
      connection. The result is every recipient call made and that failure. */
  function Session(s: seq<byte>, pos: nat, c: seq<Key>): (r: (seq<Event>, RelayError))
    requires pos <= |s|
    decreases |s| - pos
  {
    var m := Receive(s, pos, c);
    match m.next
    case Err(e) => (m.events, e)
    case Ok(q) =>
      var rest := Session(s, q, m.cache);
      (m.events + rest.0, rest.1)
  }
}
