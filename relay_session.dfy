/** What holds across messages of the relay protocol (RelayNetworkClient.py): the
    receiver's rejection rules, the bounds both transaction caches keep,
    provide_transaction's free-transaction message and its delivery, and the
    version handshake. */
module RelaySession {
  import opened Common
  import opened RelayWire
  import opened FlaggedArraySets
  import opened RelayCodec
  import opened RelayRoundTrip

  // ---------------------------------------------------------------------------
  // The receiver's rules

  /** connect ends the connection on a message header with a bad magic, a length
      over MaxMessageLength, a BLOCK of more than MaxBlockTransactions
      transactions or an unknown type, before making any recipient call; and a
      message it accepts has passed all of these checks. */
  lemma ReceiveChecks(s: seq<byte>, pos: nat, c: seq<Key>)
    requires pos + 12 <= |s|
    ensures var (magic, msgType, len) := ReadHeader(s, pos);
      && (magic != Magic ==> Receive(s, pos, c) == Received([], Err(BadMagic), c))
      && (magic == Magic && len > MaxMessageLength ==> Receive(s, pos, c) == Received([], Err(MessageTooLarge), c))
      && (magic == Magic && len <= MaxMessageLength && msgType == BlockType && len > MaxBlockTransactions ==>
            Receive(s, pos, c) == Received([], Err(TooManyTransactions), c))
      && (magic == Magic && len <= MaxMessageLength && msgType > MaxVersionType ==>
            Receive(s, pos, c) == Received([], Err(UnknownMessageType), c))
      && (Receive(s, pos, c).next.Ok? ==>
            magic == Magic && len <= MaxMessageLength && msgType != EndBlockType && msgType <= MaxVersionType)
  {
  }

  /** Inside a BLOCK message the receiver refuses an escaped transaction longer
      than MaxTransactionLength and an index naming no cached transaction. */
  lemma DecodeTxsChecks(s: seq<byte>, pos: nat, n: nat, c: seq<Key>)
    requires pos + 2 <= |s| && n > 0
    ensures var index := ReadBigEndian(s, pos, 2);
      && (index == EscapeIndex && pos + 5 <= |s| && UnpackLength24(s, pos + 2) > MaxTransactionLength ==>
            DecodeTxs(s, pos, n, c) == Cached(Err(TransactionTooLarge), c))
      && (index != EscapeIndex && index >= |c| ==> DecodeTxs(s, pos, n, c) == Cached(Err(UnknownIndex), c))
  {
  }

  /** The exception connect's handlers catch when a check fails. */
  datatype Raised = ProtocolErrorRaised(error: RelayError) | UndefinedName(name: string)

  /** The over-long escape check as written (RelayNetworkClient.py:180-181): the
      ProtocolError's message names `dat_length`, which does not exist, so
      building it raises NameError; the catch-all handler still reconnects. */
  function OverlongEscapeAsWritten(len: nat): (r: Option<Raised>)
    ensures r.Some? <==> len > MaxTransactionLength
    ensures r.Some? ==> r.value.UndefinedName?
  {
    if len > MaxTransactionLength then Some(UndefinedName("dat_length")) else None
  }

  /** The check as intended: a ProtocolError for a transaction over MAX_BLOCK_SIZE. */
  function OverlongEscape(len: nat): (r: Option<Raised>)
    ensures r.Some? <==> len > MaxTransactionLength
    ensures r.Some? ==> r.value == ProtocolErrorRaised(TransactionTooLarge)
  {
    if len > MaxTransactionLength then Some(ProtocolErrorRaised(TransactionTooLarge)) else None
  }

  /** On an over-long escaped record the source raises NameError, while the
      model's DecodeTxs fails with the intended ProtocolError. */
  lemma OverlongEscapeRaises(s: seq<byte>, pos: nat, n: nat, c: seq<Key>)
    requires pos + 5 <= |s| && n > 0 && ReadBigEndian(s, pos, 2) == EscapeIndex
    requires UnpackLength24(s, pos + 2) > MaxTransactionLength
    ensures OverlongEscapeAsWritten(UnpackLength24(s, pos + 2)) == Some(UndefinedName("dat_length"))
    ensures DecodeTxs(s, pos, n, c).result.Err?
    ensures OverlongEscape(UnpackLength24(s, pos + 2)) == Some(ProtocolErrorRaised(DecodeTxs(s, pos, n, c).result.error))
  {
    DecodeTxsChecks(s, pos, n, c);
  }

  /** The END_BLOCK message must follow the transactions exactly. */
  lemma ReceiveBlockEndChecked(s: seq<byte>, pos: nat, count: nat, c: seq<Key>)
    requires pos <= |s| && count < TwoTo32
    ensures ReceiveBlock(s, pos, count, c).next.Ok? ==>
      var d := DecodeTxs(s, pos + |Recv(s, pos, 80)|, count, c);
      && count <= MaxBlockTransactions
      && d.result.Ok?
      && ReceiveBlock(s, pos, count, c).next.value == d.result.value.1 + 12
      && ReadHeader(s, d.result.value.1) == (Magic, EndBlockType, 0)
  {
  }

  // ---------------------------------------------------------------------------
  // The caches' bounds

  /** The bounds each transaction cache keeps between messages: at most
      CacheSize entries, at most MaxExtraOversizeTransactions flagged (oversize)
      ones.  That no element is cached twice is FlaggedArraySet's own invariant. */
  ghost predicate CacheInvariant(c: seq<Key>)
  {
    |c| <= CacheSize && FlaggedCount(c) <= MaxExtraOversizeTransactions
  }

  lemma FlaggedCountSuffix(c: seq<Key>, from: nat)
    requires from <= |c|
    ensures FlaggedCount(c[from..]) <= FlaggedCount(c)
  {
    assert c == c[..from] + c[from..];
    FlaggedCountConcat(c[..from], c[from..]);
  }

  /** add keeps the size bound and counts at most the flag it is given. */
  lemma AddFlagBound(c: seq<Key>, maxSize: nat, e: Tx, flag: bool)
    requires maxSize >= 1
    ensures |c| <= maxSize ==> |AfterAdd(c, maxSize, e, flag)| <= maxSize
    ensures FlaggedCount(AfterAdd(c, maxSize, e, flag)) <= FlaggedCount(c) + (if flag then 1 else 0)
  {
    if IndexOf(c, e).None? {
      FlaggedCountSingle((e, flag));
      if |c| < maxSize {
        FlaggedCountConcat(c, [(e, flag)]);
      } else {
        var from := |c| - (maxSize - 1);
        assert AfterAdd(c, maxSize, e, flag) == c[from..] + [(e, flag)];
        FlaggedCountSuffix(c, from);
        FlaggedCountConcat(c[from..], [(e, flag)]);
      }
    }
  }

  /** Rebuilding a block's transactions only removes entries from the receive
      cache: no more entries and no more flagged ones than before. */
  lemma {:induction false} DecodeKeepsBounds(s: seq<byte>, pos: nat, n: nat, c: seq<Key>)
    requires pos <= |s|
    ensures |DecodeTxs(s, pos, n, c).cache| <= |c|
    ensures FlaggedCount(DecodeTxs(s, pos, n, c).cache) <= FlaggedCount(c)
    decreases n
  {
    if n > 0 && pos + 2 <= |s| {
      var index := ReadBigEndian(s, pos, 2);
      var m: nat := n - 1;
      if index == EscapeIndex {
        if pos + 5 <= |s| && UnpackLength24(s, pos + 2) <= MaxTransactionLength {
          var tx := Recv(s, pos + 5, UnpackLength24(s, pos + 2));
          var q := pos + 5 + |tx|;
          DecodeEscapedRecord(s, pos, n, c, tx, q, m);
          DecodeKeepsBounds(s, q, m, c);
        }
      } else if index < |c| {
        var d := Without(c, c[index].0);
        var q := pos + 2;
        DecodeCachedAt(s, pos, n, c, index, q, m);
        RemoveKeepsBounds(c, c[index].0);
        DecodeKeepsBounds(s, q, m, d);
      }
    }
  }

  /** Every message keeps the receive cache's bounds; in particular the size
      check admits an oversize free transaction only while fewer than
      MaxExtraOversizeTransactions flagged ones are cached, so at most that
      many ever are. */
  lemma ReceiveKeepsCache(s: seq<byte>, pos: nat, c: seq<Key>)
    requires pos <= |s| && CacheInvariant(c)
    ensures CacheInvariant(Receive(s, pos, c).cache)
  {
    if pos + 12 <= |s| && ReadHeader(s, pos).0 == Magic && ReadHeader(s, pos).2 <= MaxMessageLength
       && ReadHeader(s, pos).1 in {BlockType, TransactionType} {
      if ReadHeader(s, pos).1 == BlockType {
        ReceiveBlockKeepsCache(s, pos, ReadHeader(s, pos).2, c);
      } else {
        ReceiveTransactionKeepsCache(s, pos, ReadHeader(s, pos).2, c);
      }
    } else {
      ReceiveOtherKeepsCache(s, pos, c);
    }
  }

  lemma ReceiveBlockKeepsCache(s: seq<byte>, pos: nat, len: nat, c: seq<Key>)
    requires pos + 12 <= |s| && ReadHeader(s, pos) == (Magic, BlockType, len)
    requires len <= MaxMessageLength && CacheInvariant(c)
    ensures CacheInvariant(Receive(s, pos, c).cache)
  {
    ReceiveBlockUnfold(s, pos, len, c);
    BlockKeepsCache(s, pos + 12, len, c);
  }

  lemma ReceiveTransactionKeepsCache(s: seq<byte>, pos: nat, len: nat, c: seq<Key>)
    requires pos + 12 <= |s| && ReadHeader(s, pos) == (Magic, TransactionType, len)
    requires len <= MaxMessageLength && CacheInvariant(c)
    ensures CacheInvariant(Receive(s, pos, c).cache)
  {
    ReceiveTransactionUnfold(s, pos, len, c);
    TransactionKeepsCache(s, pos + 12, len, c);
  }

  /** Messages other than an admitted BLOCK or TRANSACTION leave the cache alone. */
  lemma ReceiveOtherKeepsCache(s: seq<byte>, pos: nat, c: seq<Key>)
    requires pos <= |s|
    requires !(pos + 12 <= |s| && ReadHeader(s, pos).0 == Magic && ReadHeader(s, pos).2 <= MaxMessageLength
               && ReadHeader(s, pos).1 in {BlockType, TransactionType})
    ensures Receive(s, pos, c).cache == c
  {
  }

  lemma ReceiveBlockUnfold(s: seq<byte>, pos: nat, len: nat, c: seq<Key>)
    requires pos + 12 <= |s| && ReadHeader(s, pos) == (Magic, BlockType, len)
    requires len <= MaxMessageLength
    ensures Receive(s, pos, c) == ReceiveBlock(s, pos + 12, len, c)
  {
  }

  /** A BLOCK message's records keep the cache's bounds. */
  lemma BlockKeepsCache(s: seq<byte>, p: nat, len: nat, c: seq<Key>)
    requires p <= |s| && len < TwoTo32 && CacheInvariant(c)
    ensures CacheInvariant(ReceiveBlock(s, p, len, c).cache)
  {
    if len <= MaxBlockTransactions {
      var header := Recv(s, p, 80);
      var q := p + |header|;
      var txs := DecodeTxs(s, q, len, c);
      assert ReceiveBlock(s, p, len, c) == BlockEnd(s, header, len, txs);
      BlockEndCache(s, header, len, txs);
      DecodeKeepsBounds(s, q, len, c);
    }
  }

  /** Whatever END_BLOCK holds, the cache is the one the records left. */
  lemma BlockEndCache(s: seq<byte>, header: seq<byte>, count: nat, txs: Cached<(seq<byte>, nat)>)
    requires count < TwoTo32 && (txs.result.Ok? ==> txs.result.value.1 <= |s|)
    ensures BlockEnd(s, header, count, txs).cache == txs.cache
  {
  }

  /** A TRANSACTION message keeps the cache's bounds. */
  lemma TransactionKeepsCache(s: seq<byte>, p: nat, len: nat, c: seq<Key>)
    requires p <= |s| && CacheInvariant(c)
    ensures CacheInvariant(ReceiveTransaction(s, p, len, c).cache)
  {
    if FreeTransactionAllowed(len, FlaggedCount(c)) {
      AddFlagBound(c, CacheSize, Recv(s, p, len), OversizeFlag(len));
    }
  }

  // ---------------------------------------------------------------------------
  // Free transactions

  /** What provide_transaction does for tx against send cache c: the message it
      sends, if any, and the send cache afterwards. */
  datatype Offer = Offer(sent: Option<seq<byte>>, cache: seq<Key>)

  /** provide_transaction: nothing when tx is already cached or too large to
      relay freely; otherwise a TRANSACTION message carrying tx, and tx joins
      the send cache, flagged when it is oversize. */
  function OfferTransaction(c: seq<Key>, tx: Tx): (r: Offer)
    ensures r.sent.Some? ==> |r.sent.value| == 12 + |tx| && r.sent.value[12..] == tx && IndexOf(r.cache, tx).Some?
    ensures |c| <= CacheSize ==> |r.cache| <= CacheSize
  {
    if IndexOf(c, tx).Some? || !FreeTransactionAllowed(|tx|, FlaggedCount(c)) then Offer(None, c)
    else Offer(Some(MessageHeader(TransactionType, |tx|) + tx), AfterAdd(c, CacheSize, tx, OversizeFlag(|tx|)))
  }

  /** provide_transaction sends a transaction exactly when it is new and passes
      the receiver's own size check; otherwise the send cache is untouched. */
  lemma OfferTransactionSent(c: seq<Key>, tx: Tx)
    ensures OfferTransaction(c, tx).sent.Some? <==> IndexOf(c, tx).None? && FreeTransactionAllowed(|tx|, FlaggedCount(c))
    ensures OfferTransaction(c, tx).sent.None? ==> OfferTransaction(c, tx).cache == c
    ensures OfferTransaction(c, tx).sent.Some? ==> FlaggedCount(OfferTransaction(c, tx).cache) <= FlaggedCount(c) + 1
  {
    if OfferTransaction(c, tx).sent.Some? {
      AddFlagBound(c, CacheSize, tx, OversizeFlag(|tx|));
    }
  }

  /** A sent transaction, wherever it sits in the stream, is delivered by a
      receiver whose cache is in the same state as the send cache, and the
      receiver's cache then ends up the same as the send cache. */
  lemma TransactionRoundTrip(c: seq<Key>, tx: Tx, s: seq<byte>, pos: nat)
    requires OfferTransaction(c, tx).sent.Some?
    requires pos + |OfferTransaction(c, tx).sent.value| <= |s|
    requires s[pos..pos + |OfferTransaction(c, tx).sent.value|] == OfferTransaction(c, tx).sent.value
    ensures Receive(s, pos, c)
         == Received([TransactionProvided(tx)], Ok(pos + |OfferTransaction(c, tx).sent.value|), OfferTransaction(c, tx).cache)
  {
    var msg := MessageHeader(TransactionType, |tx|) + tx;
    var cache := AfterAdd(c, CacheSize, tx, OversizeFlag(|tx|));
    assert OfferTransaction(c, tx) == Offer(Some(msg), cache);
    TransactionFramed(s, pos, tx);
    TransactionReceivedAt(s, pos, tx, c);
  }

  /** The header of a TRANSACTION message reads back, and the body after it is tx. */
  lemma TransactionFramed(s: seq<byte>, pos: nat, tx: Tx)
    requires |tx| < TwoTo32 && pos + 12 + |tx| <= |s| && s[pos..pos + 12 + |tx|] == MessageHeader(TransactionType, |tx|) + tx
    ensures ReadHeader(s, pos) == (Magic, TransactionType, |tx|)
    ensures Recv(s, pos + 12, |tx|) == tx
  {
    var pre, post := s[..pos], s[pos + 12 + |tx|..];
    assert s == pre + MessageHeader(TransactionType, |tx|) + (tx + post);
    HeaderRoundTrip(TransactionType, |tx|, pre, tx + post);
    assert s[pos + 12..pos + 12 + |tx|] == tx;
  }

  /** A TRANSACTION header the size check admits, followed by tx: delivered
      whole, and tx joins the receive cache. */
  lemma TransactionReceivedAt(s: seq<byte>, pos: nat, tx: Tx, c: seq<Key>)
    requires pos + 12 <= |s| && ReadHeader(s, pos) == (Magic, TransactionType, |tx|)
    requires Recv(s, pos + 12, |tx|) == tx && FreeTransactionAllowed(|tx|, FlaggedCount(c))
    ensures Receive(s, pos, c) == Received([TransactionProvided(tx)], Ok(pos + 12 + |tx|), AfterAdd(c, CacheSize, tx, OversizeFlag(|tx|)))
  {
    ReceiveTransactionUnfold(s, pos, |tx|, c);
  }

  /** A header announcing a TRANSACTION within the message limit hands the
      rest of the message to ReceiveTransaction. */
  lemma ReceiveTransactionUnfold(s: seq<byte>, pos: nat, len: nat, c: seq<Key>)
    requires pos + 12 <= |s| && ReadHeader(s, pos) == (Magic, TransactionType, len)
    requires len <= MaxMessageLength
    ensures Receive(s, pos, c) == ReceiveTransaction(s, pos + 12, len, c)
  {
  }

  /** What provide_transaction does as written, where the oversize cap is read
      from a global name that does not exist. */
  datatype OfferAsWritten = Skipped | SentAsWritten(msg: seq<byte>) | NameErrorRaised

  /** The size check short-circuits past the missing name only for small or
      over-large transactions; any other reaches it and raises NameError,
      leaving the send lock held. */
  function OfferTransactionAsWritten(c: seq<Key>, tx: Tx): (r: OfferAsWritten)
  {
    if IndexOf(c, tx).Some? then Skipped
    else if |tx| <= MaxRelayTransactionBytes then SentAsWritten(MessageHeader(TransactionType, |tx|) + tx)
    else if |tx| > MaxRelayOversizeTransactionBytes then Skipped
    else NameErrorRaised
  }

  /** Every new transaction of 10001 to 250000 bytes raises, although the
      receiver accepts it (as the corrected OfferTransaction sends it) while
      fewer than MaxExtraOversizeTransactions flagged ones are cached. */
  lemma OfferAsWrittenRaises(c: seq<Key>, tx: Tx)
    requires IndexOf(c, tx).None? && MaxRelayTransactionBytes < |tx| <= MaxRelayOversizeTransactionBytes
    ensures OfferTransactionAsWritten(c, tx) == NameErrorRaised
    ensures FlaggedCount(c) < MaxExtraOversizeTransactions ==> OfferTransaction(c, tx).sent.Some?
  {
  }

  /** As written the flag given to add() is len > MaxRelayOversizeTransactionBytes,
      which the size check has already refused, so no accepted free transaction
      is ever flagged and, from an unflagged cache, every later oversize one is
      accepted too: the MaxExtraOversizeTransactions cap never engages. */
  lemma OversizeFlagAsWrittenNeverSet(c: seq<Key>, tx: Tx)
    requires |c| <= CacheSize && FlaggedCount(c) == 0
    requires FreeTransactionAllowed(|tx|, FlaggedCount(c))
    ensures !OversizeFlagAsWritten(|tx|)
    ensures FlaggedCount(AfterAdd(c, CacheSize, tx, OversizeFlagAsWritten(|tx|))) == 0
  {
    AddFlagBound(c, CacheSize, tx, false);
  }

  /** With the corrected flag an accepted oversize transaction is counted. */
  lemma OversizeFlagCounted(c: seq<Key>, tx: Tx)
    requires Distinct(c) && |c| < CacheSize && IndexOf(c, tx).None?
    requires |tx| > MaxRelayTransactionBytes
    ensures FlaggedCount(AfterAdd(c, CacheSize, tx, OversizeFlag(|tx|))) == FlaggedCount(c) + 1
  {
    AddProperties(c, CacheSize, tx, OversizeFlag(|tx|));
  }

  // ---------------------------------------------------------------------------
  // The handshake

  /** The version message connect sends first. */
  function VersionMessage(): (m: seq<byte>)
    ensures |m| == 12 + |VersionString|
  {
    MessageHeader(VersionType, |VersionString|) + VersionString
  }

  /** A peer's version message carrying the same version string is accepted
      silently, the cache untouched; the stream continues right after it. */
  lemma VersionRoundTrip(c: seq<Key>, pre: seq<byte>, post: seq<byte>)
    ensures Receive(pre + VersionMessage() + post, |pre|, c) == Received([], Ok(|pre| + |VersionMessage()|), c)
  {
    Pow256Values();
    var s := pre + MessageHeader(VersionType, |VersionString|) + (VersionString + post);
    assert pre + VersionMessage() + post == s;
    HeaderRoundTrip(VersionType, |VersionString|, pre, VersionString + post);
    assert s[|pre| + 12..|pre| + 12 + |VersionString|] == VersionString;
  }
}
