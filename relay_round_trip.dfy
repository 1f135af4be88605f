/** The sender and the receiver of the relay protocol agree: a block that
    provide_block encodes against its send cache is rebuilt byte for byte by
    connect's BLOCK branch against a receive cache with the same contents, and both
    caches end in the same state. */
module RelayRoundTrip {
  import opened Common
  import opened RelayWire
  import opened FlaggedArraySets
  import opened RelayCodec

  /** The encoding of a list of transactions against send cache c, one at a time
      as provide_block emits them. */
  function EncodeList(txs: seq<Tx>, c: seq<Key>): Cached<seq<byte>>
  {
    if txs == [] then Cached(Ok([]), c)
    else match IndexOf(c, txs[0])
      case Some(i) => PrependBytes(BigEndian(i, 2), EncodeList(txs[1..], Without(c, txs[0])))
      case None =>
        match PackLength24(|txs[0]|)
        case None => Cached(Err(LengthTooLarge), c)
        case Some(len) => PrependBytes(BigEndian(EscapeIndex, 2) + len + txs[0], EncodeList(txs[1..], c))
  }

  /** A successful walk over n > 0 transactions is the first transaction's slice
      followed by the walk from where it ends. */
  lemma WalkFirst(b: seq<byte>, pos: nat, n: nat)
    requires n > 0 && Walk(b, pos, n).Some?
    ensures TxEnd(b, pos).Some?
  {
  }

  lemma WalkStep(b: seq<byte>, pos: nat, n: nat, end: nat, m: nat)
    requires n > 0 && Walk(b, pos, n).Some? && TxEnd(b, pos) == Some(end) && m == n - 1
    ensures Walk(b, end, m).Some?
    ensures Walk(b, pos, n).value.0 == [Slice(b, pos, end)] + Walk(b, end, m).value.0
    ensures Walk(b, pos, n).value.1 == Walk(b, end, m).value.1
  {
  }

  lemma SliceSplit(b: seq<byte>, i: nat, j: nat, k: nat)
    requires i <= j <= k <= |b|
    ensures b[i..k] == b[i..j] + b[j..k]
  {
  }

  lemma EncodeTxsCachedStep(b: seq<byte>, pos: nat, n: nat, c: seq<Key>, end: nat, tx: seq<byte>, i: nat)
    requires n > 0 && TxEnd(b, pos) == Some(end) && tx == Slice(b, pos, end) && IndexOf(c, tx) == Some(i)
    ensures EncodeTxs(b, pos, n, c) == PrependBytes(BigEndian(i, 2), EncodeTxs(b, end, n - 1, Without(c, tx)))
  {
  }

  lemma EncodeTxsEscapedStep(b: seq<byte>, pos: nat, n: nat, c: seq<Key>, end: nat, tx: seq<byte>, len: seq<byte>)
    requires n > 0 && TxEnd(b, pos) == Some(end) && tx == Slice(b, pos, end)
    requires IndexOf(c, tx).None? && PackLength24(|tx|) == Some(len)
    ensures EncodeTxs(b, pos, n, c) == PrependBytes(BigEndian(EscapeIndex, 2) + len + tx, EncodeTxs(b, end, n - 1, c))
  {
  }

  lemma EncodeTxsTooLong(b: seq<byte>, pos: nat, n: nat, c: seq<Key>, end: nat, tx: seq<byte>)
    requires n > 0 && TxEnd(b, pos) == Some(end) && tx == Slice(b, pos, end)
    requires IndexOf(c, tx).None? && PackLength24(|tx|).None?
    ensures EncodeTxs(b, pos, n, c) == Cached(Err(LengthTooLarge), c)
  {
  }

  /** One transaction of the walk: both encodings treat it alike, given that
      they agree on the rest against either cache it may leave behind. */
  lemma EncodeAgreeStep(b: seq<byte>, pos: nat, n: nat, c: seq<Key>, end: nat, rest: seq<Tx>)
    requires n > 0 && TxEnd(b, pos) == Some(end)
    requires EncodeTxs(b, end, n - 1, Without(c, Slice(b, pos, end))) == EncodeList(rest, Without(c, Slice(b, pos, end)))
    requires EncodeTxs(b, end, n - 1, c) == EncodeList(rest, c)
    ensures EncodeTxs(b, pos, n, c) == EncodeList([Slice(b, pos, end)] + rest, c)
  {
    var tx := Slice(b, pos, end);
    var txs := [tx] + rest;
    assert txs[0] == tx && txs[1..] == rest;
    match IndexOf(c, tx)
    case Some(i) =>
      EncodeTxsCachedStep(b, pos, n, c, end, tx, i);
      EncodeCachedStep(txs, c, i);
    case None =>
      match PackLength24(|tx|)
      case None =>
        EncodeTxsTooLong(b, pos, n, c, end, tx);
        EncodeTooLongStep(txs, c);
      case Some(len) =>
        EncodeTxsEscapedStep(b, pos, n, c, end, tx, len);
        EncodeEscapedStep(txs, c, len);
  }

  /** Where the walk succeeds, provide_block's encoding is that of the
      transactions it found. */
  lemma {:induction false} EncodeTxsIsEncodeList(b: seq<byte>, pos: nat, n: nat, c: seq<Key>)
    requires Walk(b, pos, n).Some?
    ensures EncodeTxs(b, pos, n, c) == EncodeList(Walk(b, pos, n).value.0, c)
    decreases n
  {
    if n > 0 {
      WalkFirst(b, pos, n);
      var end := TxEnd(b, pos).value;
      var m: nat := n - 1;
      WalkStep(b, pos, n, end, m);
      EncodeTxsIsEncodeList(b, end, m, Without(c, Slice(b, pos, end)));
      EncodeTxsIsEncodeList(b, end, m, c);
      EncodeAgreeStep(b, pos, n, c, end, Walk(b, end, m).value.0);
    }
  }

  /** A walk that stays inside the block covers it without gap or overlap. */
  lemma {:induction false} WalkCovers(b: seq<byte>, pos: nat, n: nat)
    requires Walk(b, pos, n).Some? && Walk(b, pos, n).value.1 <= |b|
    ensures Concat(Walk(b, pos, n).value.0) == b[pos..Walk(b, pos, n).value.1]
    decreases n
  {
    var e := Walk(b, pos, n).value.1;
    if n == 0 {
      assert b[pos..e] == [];
    } else {
      WalkFirst(b, pos, n);
      var end := TxEnd(b, pos).value;
      var m: nat := n - 1;
      WalkStep(b, pos, n, end, m);
      var txs := Walk(b, pos, n).value.0;
      WalkCovers(b, end, m);
      assert txs[0] == b[pos..end] && txs[1..] == Walk(b, end, m).value.0;
      SliceSplit(b, pos, end, e);
    }
  }

  /** The receiver rebuilt txs, stopped at position next and left its cache as
      cache. */
  predicate Rebuilt(r: Cached<(seq<byte>, nat)>, txs: seq<byte>, next: nat, cache: seq<Key>)
  {
    r.result.Ok? && r.result.value.0 == txs && r.result.value.1 == next && r.cache == cache
  }

  lemma EncodeCachedStep(txs: seq<Tx>, c: seq<Key>, i: nat)
    requires txs != [] && IndexOf(c, txs[0]) == Some(i)
    ensures EncodeList(txs, c) == PrependBytes(BigEndian(i, 2), EncodeList(txs[1..], Without(c, txs[0])))
  {
  }

  lemma EncodeEscapedStep(txs: seq<Tx>, c: seq<Key>, len: seq<byte>)
    requires txs != [] && IndexOf(c, txs[0]).None? && PackLength24(|txs[0]|) == Some(len)
    ensures EncodeList(txs, c) == PrependBytes(BigEndian(EscapeIndex, 2) + len + txs[0], EncodeList(txs[1..], c))
  {
  }

  lemma EncodeTooLongStep(txs: seq<Tx>, c: seq<Key>)
    requires txs != [] && IndexOf(c, txs[0]).None? && PackLength24(|txs[0]|).None?
    ensures EncodeList(txs, c) == Cached(Err(LengthTooLarge), c)
  {
  }

  lemma DecodeCachedAt(s: seq<byte>, q: nat, n: nat, c: seq<Key>, i: nat, q': nat, n': nat)
    requires n > 0 && q + 2 <= |s| && ReadBigEndian(s, q, 2) == i && i < |c| && i != EscapeIndex
    requires q' == q + 2 && n' == n - 1
    ensures DecodeTxs(s, q, n, c) == PrependTx(c[i].0, DecodeTxs(s, q', n', Without(c, c[i].0)))
  {
    var tx := c[i].0;
    var rest := DecodeTxs(s, q', n', Without(c, tx));
    assert DecodeTxs(s, q, n, c) == PrependTx(tx, rest);
  }

  /** An escaped record, whose bytes may end early where the stream does. */
  lemma DecodeEscapedRecord(s: seq<byte>, q: nat, n: nat, c: seq<Key>, tx: seq<byte>, q': nat, n': nat)
    requires n > 0 && q + 5 <= |s| && ReadBigEndian(s, q, 2) == EscapeIndex
    requires UnpackLength24(s, q + 2) <= MaxTransactionLength && tx == Recv(s, q + 5, UnpackLength24(s, q + 2))
    requires q' == q + 5 + |tx| && n' == n - 1
    ensures DecodeTxs(s, q, n, c) == PrependTx(tx, DecodeTxs(s, q', n', c))
  {
    var rest := DecodeTxs(s, q', n', c);
    assert DecodeTxs(s, q, n, c) == PrependTx(tx, rest);
  }

  lemma DecodeEscapedStep(s: seq<byte>, q: nat, n: nat, c: seq<Key>, len: nat)
    requires n > 0 && q + 5 + len <= |s| && ReadBigEndian(s, q, 2) == EscapeIndex
    requires UnpackLength24(s, q + 2) == len <= MaxTransactionLength
    ensures DecodeTxs(s, q, n, c) == PrependTx(Recv(s, q + 5, len), DecodeTxs(s, q + 5 + len, n - 1, c))
  {
    var tx := Recv(s, q + 5, len);
    assert |tx| == len;
    var rest := DecodeTxs(s, q + 5 + len, n - 1, c);
    assert DecodeTxs(s, q, n, c) == PrependTx(tx, rest);
  }

  /** DecodeEscapedStep with the transaction, the next position and the count
      named by the caller. */
  lemma DecodeEscapedAt(s: seq<byte>, q: nat, n: nat, c: seq<Key>, tx: seq<byte>, q': nat, n': nat)
    requires n > 0 && q + 5 + |tx| <= |s| && ReadBigEndian(s, q, 2) == EscapeIndex
    requires UnpackLength24(s, q + 2) == |tx| <= MaxTransactionLength && Recv(s, q + 5, |tx|) == tx
    requires q' == q + 5 + |tx| && n' == n - 1
    ensures DecodeTxs(s, q, n, c) == PrependTx(tx, DecodeTxs(s, q', n', c))
  {
    DecodeEscapedStep(s, q, n, c, |tx|);
  }

  /** Rebuilding carries over to a transaction put in front. */
  lemma RebuiltPrepend(d: Cached<(seq<byte>, nat)>, tx: seq<byte>, r: Cached<(seq<byte>, nat)>,
                       more: seq<byte>, next: nat, cache: seq<Key>)
    requires d == PrependTx(tx, r) && Rebuilt(r, more, next, cache)
    ensures Rebuilt(d, tx + more, next, cache)
  {
  }

  /** Helper: a regrouping of concatenations. */
  lemma Regroup(pre: seq<byte>, chunk: seq<byte>, body: seq<byte>, post: seq<byte>)
    ensures pre + (chunk + body) + post == pre + chunk + body + post
  {
  }

  /** A cached-transaction record read back from the stream. */
  lemma CachedRecordAt(i: nat, chunk: seq<byte>, pre: seq<byte>, body: seq<byte>, post: seq<byte>, s: seq<byte>)
    requires i < Pow256(2) && chunk == BigEndian(i, 2) && s == pre + chunk + body + post
    ensures |pre + chunk| == |pre| + 2 <= |s| && ReadBigEndian(s, |pre|, 2) == i
  {
    assert s == pre + chunk + (body + post);
    BigEndianRoundTrip(i, 2, pre, body + post);
  }

  /** Helper: the regroupings a record needs when read back. */
  lemma RegroupRecord(pre: seq<byte>, a: seq<byte>, b: seq<byte>, c: seq<byte>, body: seq<byte>, post: seq<byte>)
    ensures pre + (a + b + c) + body + post == pre + a + (b + c + body + post)
    ensures pre + (a + b + c) + body + post == (pre + a) + b + (c + body + post)
    ensures pre + (a + b + c) + body + post == (pre + a + b) + c + (body + post)
  {
  }

  /** The two-byte index that opens a record carrying more bytes after it. */
  lemma MarkerAt(i: nat, chunk: seq<byte>, len: seq<byte>, tx: seq<byte>, pre: seq<byte>, body: seq<byte>, post: seq<byte>, s: seq<byte>)
    requires i < Pow256(2) && chunk == BigEndian(i, 2) + len + tx && s == pre + chunk + body + post
    ensures |pre| + 2 <= |s| && ReadBigEndian(s, |pre|, 2) == i
  {
    RegroupRecord(pre, BigEndian(i, 2), len, tx, body, post);
    BigEndianRoundTrip(i, 2, pre, len + tx + body + post);
  }

  /** The 24-bit length of an escaped record. */
  lemma EscapeLengthAt(chunk: seq<byte>, len: seq<byte>, tx: seq<byte>, pre: seq<byte>, body: seq<byte>, post: seq<byte>, s: seq<byte>)
    requires PackLength24(|tx|) == Some(len)
    requires chunk == BigEndian(EscapeIndex, 2) + len + tx && s == pre + chunk + body + post
    ensures |pre| + 5 <= |s| && UnpackLength24(s, |pre| + 2) == |tx|
  {
    var esc := BigEndian(EscapeIndex, 2);
    RegroupRecord(pre, esc, len, tx, body, post);
    Length24RoundTrip(|tx|, pre + esc, tx + body + post);
  }

  /** The transaction bytes of an escaped record. */
  lemma EscapeBodyAt(chunk: seq<byte>, len: seq<byte>, tx: seq<byte>, pre: seq<byte>, body: seq<byte>, post: seq<byte>, s: seq<byte>)
    requires |len| == 3 && chunk == BigEndian(EscapeIndex, 2) + len + tx && s == pre + chunk + body + post
    ensures |pre + chunk| == |pre| + 5 + |tx| <= |s| && Recv(s, |pre| + 5, |tx|) == tx
  {
    RegroupRecord(pre, BigEndian(EscapeIndex, 2), len, tx, body, post);
    assert s[|pre| + 5..|pre| + 5 + |tx|] == tx;
  }

  /** One cached transaction in front of a list that already round-trips. */
  lemma CachedRoundTrip(txs: seq<Tx>, c: seq<Key>, i: nat, chunk: seq<byte>, pre: seq<byte>, post: seq<byte>)
    requires txs != [] && IndexOf(c, txs[0]) == Some(i) && |c| <= CacheSize && chunk == BigEndian(i, 2)
    requires EncodeList(txs[1..], Without(c, txs[0])).result.Ok?
    requires Rebuilt(DecodeTxs(pre + chunk + EncodeList(txs[1..], Without(c, txs[0])).result.value + post,
                               |pre + chunk|, |txs[1..]|, Without(c, txs[0])),
                     Concat(txs[1..]), |pre + chunk| + |EncodeList(txs[1..], Without(c, txs[0])).result.value|,
                     EncodeList(txs[1..], Without(c, txs[0])).cache)
    ensures EncodeList(txs, c).result.Ok?
    ensures Rebuilt(DecodeTxs(pre + EncodeList(txs, c).result.value + post, |pre|, |txs|, c),
                    Concat(txs), |pre| + |EncodeList(txs, c).result.value|, EncodeList(txs, c).cache)
  {
    var tail := EncodeList(txs[1..], Without(c, txs[0]));
    var body := tail.result.value;
    var s := pre + chunk + body + post;
    assert EncodeList(txs, c).result == Ok(chunk + body) && EncodeList(txs, c).cache == tail.cache by {
      EncodeCachedStep(txs, c, i);
    }
    assert s == pre + EncodeList(txs, c).result.value + post by {
      Regroup(pre, chunk, body, post);
    }
    assert DecodeTxs(s, |pre|, |txs|, c) == PrependTx(txs[0], DecodeTxs(s, |pre + chunk|, |txs[1..]|, Without(c, txs[0]))) by {
      Pow256Values();
      CachedRecordAt(i, chunk, pre, body, post, s);
      DecodeCachedAt(s, |pre|, |txs|, c, i, |pre + chunk|, |txs[1..]|);
    }
    assert Concat(txs) == txs[0] + Concat(txs[1..]);
    RebuiltPrepend(DecodeTxs(s, |pre|, |txs|, c), txs[0], DecodeTxs(s, |pre + chunk|, |txs[1..]|, Without(c, txs[0])),
                   Concat(txs[1..]), |pre + chunk| + |body|, tail.cache);
  }

  /** An escaped record read back from the stream. */
  lemma EscapedRecordRead(s: seq<byte>, len: seq<byte>, tx: seq<byte>, chunk: seq<byte>,
                          pre: seq<byte>, body: seq<byte>, post: seq<byte>)
    requires PackLength24(|tx|) == Some(len)
    requires chunk == BigEndian(EscapeIndex, 2) + len + tx && s == pre + chunk + body + post
    ensures |pre + chunk| == |pre| + 5 + |tx| <= |s| && ReadBigEndian(s, |pre|, 2) == EscapeIndex
    ensures UnpackLength24(s, |pre| + 2) == |tx| && Recv(s, |pre| + 5, |tx|) == tx
  {
    Pow256Values();
    MarkerAt(EscapeIndex, chunk, len, tx, pre, body, post, s);
    EscapeLengthAt(chunk, len, tx, pre, body, post, s);
    EscapeBodyAt(chunk, len, tx, pre, body, post, s);
  }

  /** One escaped transaction in front of a list that already round-trips. */
  lemma EscapedRoundTrip(txs: seq<Tx>, c: seq<Key>, len: seq<byte>, chunk: seq<byte>, pre: seq<byte>, post: seq<byte>)
    requires txs != [] && IndexOf(c, txs[0]).None? && |txs[0]| <= MaxTransactionLength
    requires PackLength24(|txs[0]|) == Some(len) && chunk == BigEndian(EscapeIndex, 2) + len + txs[0]
    requires EncodeList(txs[1..], c).result.Ok?
    requires Rebuilt(DecodeTxs(pre + chunk + EncodeList(txs[1..], c).result.value + post, |pre + chunk|, |txs[1..]|, c),
                     Concat(txs[1..]), |pre + chunk| + |EncodeList(txs[1..], c).result.value|, EncodeList(txs[1..], c).cache)
    ensures EncodeList(txs, c).result.Ok?
    ensures Rebuilt(DecodeTxs(pre + EncodeList(txs, c).result.value + post, |pre|, |txs|, c),
                    Concat(txs), |pre| + |EncodeList(txs, c).result.value|, EncodeList(txs, c).cache)
  {
    var tail := EncodeList(txs[1..], c);
    var body := tail.result.value;
    var s := pre + chunk + body + post;
    EscapedFront(txs, c, len, chunk, pre, body, post);
    assert Concat(txs) == txs[0] + Concat(txs[1..]);
    RebuiltPrepend(DecodeTxs(s, |pre|, |txs|, c), txs[0], DecodeTxs(s, |pre + chunk|, |txs[1..]|, c),
                   Concat(txs[1..]), |pre + chunk| + |body|, tail.cache);
  }

  /** The escaped record of txs[0] heads the encoding, and the receiver reads it
      back before going on with the rest. */
  lemma EscapedFront(txs: seq<Tx>, c: seq<Key>, len: seq<byte>, chunk: seq<byte>, pre: seq<byte>, body: seq<byte>, post: seq<byte>)
    requires txs != [] && IndexOf(c, txs[0]).None? && |txs[0]| <= MaxTransactionLength
    requires PackLength24(|txs[0]|) == Some(len) && chunk == BigEndian(EscapeIndex, 2) + len + txs[0]
    requires EncodeList(txs[1..], c).result == Ok(body)
    ensures EncodeList(txs, c).result == Ok(chunk + body) && EncodeList(txs, c).cache == EncodeList(txs[1..], c).cache
    ensures pre + chunk + body + post == pre + EncodeList(txs, c).result.value + post
    ensures DecodeTxs(pre + chunk + body + post, |pre|, |txs|, c)
         == PrependTx(txs[0], DecodeTxs(pre + chunk + body + post, |pre + chunk|, |txs[1..]|, c))
  {
    var s := pre + chunk + body + post;
    EncodeEscapedStep(txs, c, len);
    Regroup(pre, chunk, body, post);
    EscapedRecordRead(s, len, txs[0], chunk, pre, body, post);
    DecodeEscapedAt(s, |pre|, |txs|, c, txs[0], |pre + chunk|, |txs[1..]|);
  }

  /** Transactions of at most MaxTransactionLength bytes, encoded against a send
      cache c, are rebuilt byte for byte by a receiver whose cache holds the same
      contents, and both caches end in the same state. */
  lemma {:induction false} ListRoundTrip(txs: seq<Tx>, c: seq<Key>, pre: seq<byte>, post: seq<byte>)
    requires forall k :: 0 <= k < |txs| ==> |txs[k]| <= MaxTransactionLength
    requires |c| <= CacheSize
    ensures EncodeList(txs, c).result.Ok?
    ensures Rebuilt(DecodeTxs(pre + EncodeList(txs, c).result.value + post, |pre|, |txs|, c),
                    Concat(txs), |pre| + |EncodeList(txs, c).result.value|, EncodeList(txs, c).cache)
  {
    if txs == [] {
      assert pre + [] + post == pre + post;
    } else {
      var tx := txs[0];
      assert |tx| <= MaxTransactionLength;
      match IndexOf(c, tx)
      case Some(i) =>
        var chunk := BigEndian(i, 2);
        ListRoundTrip(txs[1..], Without(c, tx), pre + chunk, post);
        CachedRoundTrip(txs, c, i, chunk, pre, post);
      case None =>
        Pow256Values();
        Length24RoundTrip(|tx|, [], []);
        var len := PackLength24(|tx|).value;
        var chunk := BigEndian(EscapeIndex, 2) + len + tx;
        ListRoundTrip(txs[1..], c, pre + chunk, post);
        EscapedRoundTrip(txs, c, len, chunk, pre, post);
    }
  }

  /** connect made the recipient calls in events, stopped at position next and
      left its cache as cache. */
  predicate Delivered(r: Received, events: seq<Event>, next: nat, cache: seq<Key>)
  {
    r.events == events && r.next.Ok? && r.next.value == next && r.cache == cache
  }

  /** A message header read back as magic, type msgType and length len. */
  predicate HeaderIs(h: (nat, nat, nat), msgType: nat, len: nat)
  {
    h.0 == Magic && h.1 == msgType && h.2 == len
  }

  /** The BLOCK message provide_block emits once the walk succeeds: the header
      carrying the count, the block header, the transactions and END_BLOCK. */
  lemma BlockMessage(b: seq<byte>, c: seq<Key>, count: nat, p: nat)
    requires DecodeVarint(b, 80).Some? && DecodeVarint(b, 80).value.0 == count && DecodeVarint(b, 80).value.1 == p
    requires count < TwoTo32 && EncodeTxs(b, p, count, c).result.Ok?
    ensures EncodeBlock(b, c).result.Ok? && EncodeBlock(b, c).cache == EncodeTxs(b, p, count, c).cache
    ensures EncodeBlock(b, c).result.value
         == MessageHeader(BlockType, count) + b[..80] + EncodeTxs(b, p, count, c).result.value + MessageHeader(EndBlockType, 0)
  {
  }

  /** At pos the stream holds a BLOCK message announcing count transactions:
      the block header head, records that rebuild t against cache c, end at q and
      leave cache behind, and an END_BLOCK message at q. */
  predicate BlockOnWire(s: seq<byte>, pos: nat, count: nat, c: seq<Key>, head: seq<byte>, t: seq<byte>, q: nat, cache: seq<Key>)
  {
    && pos + 92 <= |s| && HeaderIs(ReadHeader(s, pos), BlockType, count) && count <= MaxBlockTransactions
    && Recv(s, pos + 12, 80) == head
    && Rebuilt(DecodeTxs(s, pos + 92, count, c), t, q, cache)
    && q + 12 <= |s| && HeaderIs(ReadHeader(s, q), EndBlockType, 0)
  }

  /** connect hands a message whose header announces a BLOCK to the BLOCK branch. */
  lemma ReceiveBlockMessage(s: seq<byte>, pos: nat, count: nat, c: seq<Key>, head: seq<byte>, t: seq<byte>, q: nat, cache: seq<Key>)
    requires BlockOnWire(s, pos, count, c, head, t, q, cache)
    ensures count < TwoTo32 && Receive(s, pos, c) == ReceiveBlock(s, pos + 12, count, c)
  {
  }

  /** The BLOCK branch delivers the header and the rebuilt block. */
  lemma ReceiveBlockOk(s: seq<byte>, pos: nat, count: nat, c: seq<Key>, head: seq<byte>, t: seq<byte>, q: nat, cache: seq<Key>)
    requires BlockOnWire(s, pos, count, c, head, t, q, cache)
    ensures Delivered(ReceiveBlock(s, pos + 12, count, c), [HeaderProvided(head), BlockProvided(head + CountPrefix(count) + t)], q + 12, cache)
  {
    ReceiveBlockUnfold(s, pos + 12, pos + 92, count, c);
    BlockEndOk(s, head, count, DecodeTxs(s, pos + 92, count, c), t, q, cache);
  }

  /** The BLOCK branch reads the 80-byte header and rebuilds the records after it. */
  lemma ReceiveBlockUnfold(s: seq<byte>, p: nat, p': nat, count: nat, c: seq<Key>)
    requires p' == p + 80 <= |s| && count <= MaxBlockTransactions
    ensures ReceiveBlock(s, p, count, c) == BlockEnd(s, Recv(s, p, 80), count, DecodeTxs(s, p', count, c))
  {
    assert |Recv(s, p, 80)| == 80;
  }

  /** Rebuilt records followed by an END_BLOCK message complete the BLOCK branch. */
  lemma BlockEndOk(s: seq<byte>, head: seq<byte>, count: nat, txs: Cached<(seq<byte>, nat)>, t: seq<byte>, q: nat, cache: seq<Key>)
    requires count < TwoTo32 && Rebuilt(txs, t, q, cache) && q + 12 <= |s| && HeaderIs(ReadHeader(s, q), EndBlockType, 0)
    ensures Delivered(BlockEnd(s, head, count, txs), [HeaderProvided(head), BlockProvided(head + CountPrefix(count) + t)], q + 12, cache)
  {
  }

  /** connect's receive loop on a stream holding such a BLOCK message at pos. */
  lemma ReceiveBlockAt(s: seq<byte>, pos: nat, count: nat, c: seq<Key>, head: seq<byte>, t: seq<byte>, q: nat, cache: seq<Key>)
    requires BlockOnWire(s, pos, count, c, head, t, q, cache)
    ensures Delivered(Receive(s, pos, c), [HeaderProvided(head), BlockProvided(head + CountPrefix(count) + t)], q + 12, cache)
  {
    ReceiveBlockMessage(s, pos, count, c, head, t, q, cache);
    ReceiveBlockOk(s, pos, count, c, head, t, q, cache);
  }

  /** Helper: the regroupings a BLOCK message needs when read back. */
  lemma RegroupBlock(pre: seq<byte>, hdr: seq<byte>, head: seq<byte>, list: seq<byte>, end: seq<byte>, post: seq<byte>)
    ensures pre + (hdr + head + list + end) + post == pre + hdr + (head + list + end + post)
    ensures pre + (hdr + head + list + end) + post == (pre + hdr + head) + list + (end + post)
    ensures pre + (hdr + head + list + end) + post == (pre + hdr + head + list) + end + post
  {
  }

  /** The block header read back right after the message header. */
  lemma HeadAt(pre: seq<byte>, hdr: seq<byte>, head: seq<byte>, list: seq<byte>, end: seq<byte>, post: seq<byte>, s: seq<byte>)
    requires |hdr| == 12 && |head| == 80 && s == pre + hdr + (head + list + end + post)
    ensures |pre| + 92 <= |s| && Recv(s, |pre| + 12, 80) == head
  {
    assert s[|pre| + 12..|pre| + 92] == head;
  }

  lemma BlockSplit(b: seq<byte>, p: nat, e: nat)
    requires 80 <= p <= e <= |b|
    ensures b[..e] == b[..80] + b[80..p] + b[p..e]
  {
    SliceSplit(b, 0, 80, e);
    SliceSplit(b, 80, p, e);
    assert b[..e] == b[0..e] && b[..80] == b[0..80];
  }

  /** The END_BLOCK message read back at position q. */
  lemma EndBlockAt(pre: seq<byte>, end: seq<byte>, post: seq<byte>, q: nat, endType: nat, endLen: nat)
    requires endType == EndBlockType && endLen == 0 && end == MessageHeader(endType, endLen) && q == |pre|
    ensures q + 12 <= |pre + end + post| && HeaderIs(ReadHeader(pre + end + post, q), EndBlockType, 0)
  {
    HeaderRoundTrip(endType, endLen, pre, post);
  }

  /** Helper: rebuilding depends on the stream's contents, not on how they were put together. */
  lemma RebuiltOn(s1: seq<byte>, s2: seq<byte>, pos1: nat, pos2: nat, n: nat, c: seq<Key>, t: seq<byte>, q: nat, cache: seq<Key>)
    requires s1 == s2 && pos1 == pos2 && pos1 <= |s1| && Rebuilt(DecodeTxs(s1, pos1, n, c), t, q, cache)
    ensures Rebuilt(DecodeTxs(s2, pos2, n, c), t, q, cache)
  {
  }

  /** provide_block's layout of a BLOCK message, whose records rebuild t, is a
      BLOCK message on the wire. */
  lemma BlockLayout(pre: seq<byte>, hdr: seq<byte>, head: seq<byte>, list: seq<byte>, end: seq<byte>, post: seq<byte>,
                    s: seq<byte>, count: nat, c: seq<Key>, t: seq<byte>, cache: seq<Key>, q: nat, endType: nat, endLen: nat)
    requires hdr == MessageHeader(BlockType, count) && count <= MaxBlockTransactions
    requires endType == EndBlockType && endLen == 0 && end == MessageHeader(endType, endLen)
    requires |head| == 80 && s == pre + (hdr + head + list + end) + post && q == |pre + hdr + head| + |list|
    requires Rebuilt(DecodeTxs(pre + hdr + head + list + (end + post), |pre + hdr + head|, count, c),
                     t, |pre + hdr + head| + |list|, cache)
    ensures BlockOnWire(s, |pre|, count, c, head, t, q, cache)
    ensures |pre| + |hdr + head + list + end| == q + 12
  {
    assert |pre| + 92 <= |s| && Recv(s, |pre| + 12, 80) == head by {
      RegroupBlock(pre, hdr, head, list, end, post);
      HeadAt(pre, hdr, head, list, end, post, s);
    }
    assert HeaderIs(ReadHeader(s, |pre|), BlockType, count) by {
      RegroupBlock(pre, hdr, head, list, end, post);
      HeaderRoundTrip(BlockType, count, pre, head + list + end + post);
    }
    assert Rebuilt(DecodeTxs(s, |pre| + 92, count, c), t, q, cache) by {
      RegroupBlock(pre, hdr, head, list, end, post);
      RebuiltOn(pre + hdr + head + list + (end + post), s, |pre + hdr + head|, |pre| + 92, count, c, t, q, cache);
    }
    assert q + 12 <= |s| && HeaderIs(ReadHeader(s, q), EndBlockType, 0) by {
      RegroupBlock(pre, hdr, head, list, end, post);
      EndBlockAt(pre + hdr + head + list, end, post, q, endType, endLen);
    }
  }

  /** A block b whose transaction count is written canonically, whose walk stays
      inside it and none of whose transactions is longer than MaxTransactionLength, sent by
      provide_block against send cache c, is delivered by connect's BLOCK branch
      against a receive cache with the same contents: the header, then the block
      up to the end of its last transaction; the stream position is just after
      the message, and both caches end in the same state. */
  lemma BlockRoundTrip(b: seq<byte>, c: seq<Key>, count: nat, p: nat, e: nat, pre: seq<byte>, post: seq<byte>)
    requires DecodeVarint(b, 80).Some? && DecodeVarint(b, 80).value.0 == count && DecodeVarint(b, 80).value.1 == p
    requires count <= MaxBlockTransactions && b[80..p] == CountPrefix(count)
    requires Walk(b, p, count).Some? && Walk(b, p, count).value.1 == e && e <= |b|
    requires forall k :: 0 <= k < count ==> |Walk(b, p, count).value.0[k]| <= MaxTransactionLength
    requires |c| <= CacheSize
    ensures EncodeBlock(b, c).result.Ok?
    ensures Delivered(Receive(pre + EncodeBlock(b, c).result.value + post, |pre|, c),
                      [HeaderProvided(b[..80]), BlockProvided(b[..e])],
                      |pre| + |EncodeBlock(b, c).result.value|, EncodeBlock(b, c).cache)
  {
    var txs := Walk(b, p, count).value.0;
    assert Concat(txs) == b[p..e] by {
      WalkCovers(b, p, count);
    }
    var hdr := MessageHeader(BlockType, count);
    var head := b[..80];
    var end := MessageHeader(EndBlockType, 0);
    var pre' := pre + hdr + head;
    assert EncodeList(txs, c).result.Ok?
        && Rebuilt(DecodeTxs(pre' + EncodeList(txs, c).result.value + (end + post), |pre'|, count, c),
                   Concat(txs), |pre'| + |EncodeList(txs, c).result.value|, EncodeList(txs, c).cache) by {
      ListRoundTrip(txs, c, pre', end + post);
    }
    var list := EncodeList(txs, c).result.value;
    assert EncodeBlock(b, c).result == Ok(hdr + head + list + end)
        && EncodeBlock(b, c).cache == EncodeList(txs, c).cache by {
      EncodeTxsIsEncodeList(b, p, count, c);
      BlockMessage(b, c, count, p);
    }
    var s := pre + EncodeBlock(b, c).result.value + post;
    BlockLayout(pre, hdr, head, list, end, post, s, count, c, Concat(txs), EncodeList(txs, c).cache, |pre'| + |list|, EndBlockType, 0);
    assert head + CountPrefix(count) + Concat(txs) == b[..e] by {
      BlockSplit(b, p, e);
    }
    ReceiveBlockAt(s, |pre|, count, c, head, Concat(txs), |pre'| + |list|, EncodeList(txs, c).cache);
  }
}
