/**
 * RPCClient of c++/rpcclient.cpp: the connection to bitcoind's JSON-RPC
 * port.  maybe_get_txn_for_block sends one getrawmempool request at a
 * time; net_process reads each response, parses the mempool, selects the
 * transactions to relay and hands them to txn_for_block_func.
 *
 * The socket's incoming side is the text `input`; the bytes handed to
 * maybe_do_send_bytes and the calls of txn_for_block_func are recorded in
 * `sent` and `delivered`.  The server's address, the RPC credentials read
 * from the environment, MAX_TXN_IN_FAS, MAX_EXTRA_OVERSIZE_TRANSACTIONS,
 * MAX_RELAY_OVERSIZE_TRANSACTION_BYTES and the library conversions are
 * parameters.
 */
module RpcClient {
  import opened Common
  import opened Disconnects
  import opened CNumbers
  import opened Base64
  import opened HttpFramer
  import opened MempoolGraph
  import opened MempoolScanner
  import opened TxSelector

  // ---------------------------------------------------------------------------
  // The request (rpcclient.cpp:355-379)
  // ---------------------------------------------------------------------------

  const RequestBody: string := "{\"method\": \"getrawmempool\",\"params\": [ true ],\"id\": 1}"

  /** RPC_USER ":" RPC_PASS, the text Basic authentication encodes. */
  function Credentials(user: seq<byte>, pass: seq<byte>): seq<byte> {
    user + [':' as int] + pass
  }

  /** The header of the request, up to and including the empty line. */
  function RequestHead(host: string, auth: string): (r: string)
    ensures |r| >= 4 && r[|r| - 4..] == "\r\n\r\n"
  {
    "POST / HTTP/1.1\r\n"
    + "User-Agent: RelayNetworkServer/42\r\n"
    + "Host: " + host + "\r\n"
    + "Content-Type: application/json\r\n"
    + ContentLengthPrefix + DecimalString(|RequestBody|) + "\r\n"
    + "Connection: keep-alive\r\n"
    + "Accept: application/json\r\n"
    + "Authorization: Basic " + auth + "\r\n\r\n"
  }

  function Request(host: string, auth: string): string {
    RequestHead(host, auth) + RequestBody
  }

  /**
   * The request's Content-Length header, read with the rules this client
   * applies to responses, gives the length of the body that follows its header.
   */
  lemma RequestAnnouncesBody(host: string, auth: string)
    ensures var q := Request(host, auth);
      |q| == |RequestHead(host, auth)| + |RequestBody| && q[|RequestHead(host, auth)|..] == RequestBody
    ensures OnHeaderLine(HeaderState(-1, false), ContentLengthPrefix + DecimalString(|RequestBody|))
         == Ok(Next(HeaderState(|RequestBody|, false)))
  {
    DropPrefix(RequestHead(host, auth), RequestBody);
    ContentLengthRoundTrip(HeaderState(-1, false), |RequestBody|);
  }

  /** The Authorization header carries the credentials, recoverable by Base64 decoding. */
  lemma AuthorizationRoundTrip(user: seq<byte>, pass: seq<byte>)
    ensures Decode(Encode(Credentials(user, pass))) == Some(Credentials(user, pass))
  {
    DecodeEncode(Credentials(user, pass));
  }

  // ---------------------------------------------------------------------------
  // One response (rpcclient.cpp:32-303)
  // ---------------------------------------------------------------------------

  /** The transactions handed to txn_for_block_func, with the size of the mempool read. */
  type Batch = (seq<(seq<byte>, nat)>, nat)

  /**
   * What txn_for_block_func is promised: at most the selection bound of
   * transactions, no more than the mempool held, each with a 32-byte hash and
   * a size that is positive, fits a uint32 and is not oversized.
   */
  ghost predicate GoodBatch(b: Batch, maxTxnInFas: nat, maxExtra: nat, maxOversize: nat)
    requires maxExtra <= maxTxnInFas
  {
    |b.0| <= SelectionBound(maxTxnInFas, maxExtra) && |b.0| <= b.1
    && forall k :: 0 <= k < |b.0| ==> |b.0[k].0| == 32 && 0 < b.0[k].1 <= maxOversize && b.0[k].1 < TwoTo32
  }

  lemma {:induction false} DistinctElems(s: seq<nat>)
    requires Distinct(s)
    ensures |Elems(s)| == |s|
    decreases |s|
  {
    if |s| > 0 {
      var front := s[..|s| - 1];
      DistinctElems(front);
      assert Elems(s) == Elems(front) + {s[|s| - 1]};
      assert s[|s| - 1] !in Elems(front);
    }
  }

  /** A selection from a parsed mempool is a good batch. */
  lemma SelectionIsGoodBatch(txn: seq<Entry>, order: seq<nat>, pairs: seq<(seq<byte>, nat)>,
                             decodeHex: string -> Option<seq<byte>>, maxTxnInFas: nat, maxExtra: nat, maxOversize: nat)
    requires maxExtra <= maxTxnInFas && Sized(txn)
    requires |order| <= SelectionBound(maxTxnInFas, maxExtra)
    requires Indices(order, |txn|) && Distinct(order) && Fits(txn, order, maxOversize)
    requires PairsOf(txn, decodeHex, order, pairs)
    ensures GoodBatch((pairs, |txn|), maxTxnInFas, maxExtra, maxOversize)
  {
    DistinctElems(order);
    BoundedCard(Elems(order), |txn|);
    forall k | 0 <= k < |pairs|
      ensures |pairs[k].0| == 32 && 0 < pairs[k].1 <= maxOversize && pairs[k].1 < TwoTo32
    {
      assert order[k] < |txn|;
    }
  }

  /**
   * The response at `pos` as the client reads it: the body after the
   * expected start, up to the announced length, and the position where the
   * next response begins; None when the header or the body is refused.
   */
  function ResponseAt(input: string, pos: nat): (r: Option<(string, nat)>)
    requires pos <= |input|
    ensures r.Some? ==> pos < r.value.1 <= |input|
  {
    var h := Headers(input, pos, InitialHeaders);
    if h.Err? then None else BodyAfter(input, h.value.0, h.value.1)
  }

  /**
   * The body of a response whose header ended at `start` in state st:
   * the text after the expected start, up to the announced length, and the
   * position after it; None when the length is too large, runs past the
   * input or the expected start is missing.
   */
  function BodyAfter(input: string, st: HeaderState, start: nat): (r: Option<(string, nat)>)
    requires st.contentLength >= 0 && start <= |input|
    ensures r.Some? ==> start < r.value.1 <= |input|
  {
    var len := st.contentLength;
    if len <= MaxContentLength && |ExpectedStart| <= len && start + len <= |input|
       && input[start..start + |ExpectedStart|] == ExpectedStart
    then Some((input[start + |ExpectedStart|..start + len], start + len))
    else None
  }

  /**
   * Batch b is what the response at `pos` hands to txn_for_block_func: the
   * response's body scans to a mempool of b.1 entries, and b's pairs are a
   * selection from them.
   */
  ghost predicate Delivers(input: string, pos: nat, b: Batch, maxTxnInFas: nat, maxExtra: nat, maxOversize: nat,
                           decodeHex: string -> Option<seq<byte>>,
                           feeTimes1e8: string -> Option<int>, feeAsIs: string -> Option<int>)
    requires pos <= |input| && maxExtra <= maxTxnInFas
  {
    ResponseAt(input, pos).Some?
    && var g := Scan(ResponseAt(input, pos).value.0, feeTimes1e8, feeAsIs);
    g.Ok? && b.1 == |g.value.txn|
    && exists order :: Selection(g.value.txn, maxTxnInFas, maxExtra, maxOversize, decodeHex, order, b.0)
  }

  /** Batches that are all good stay so with one more good batch. */
  lemma GoodAppend(batches: seq<Batch>, b: Batch, maxTxnInFas: nat, maxExtra: nat, maxOversize: nat)
    requires maxExtra <= maxTxnInFas
    requires forall i :: 0 <= i < |batches| ==> GoodBatch(batches[i], maxTxnInFas, maxExtra, maxOversize)
    requires GoodBatch(b, maxTxnInFas, maxExtra, maxOversize)
    ensures forall i :: 0 <= i < |batches + [b]| ==> GoodBatch((batches + [b])[i], maxTxnInFas, maxExtra, maxOversize)
  {
  }

  /** Appending to a concatenation appends to its second part. */
  lemma AppendOne<T>(a: seq<T>, b: seq<T>, x: T)
    ensures (a + b) + [x] == a + (b + [x])
  {
  }

  /** What follows a prefix of a slice is the rest of the slice. */
  lemma SliceAfterPrefix(s: string, a: nat, n: nat, prefix: string, rest: string)
    requires a + n <= |s| && prefix + rest == s[a..a + n]
    ensures |prefix| <= n && rest == s[a + |prefix|..a + n]
  {
    assert rest == (prefix + rest)[|prefix|..];
  }

  /** The body ReadBody returns is the body after the header. */
  lemma BodyAfterRead(input: string, st: HeaderState, start: nat, body: string)
    requires st.contentLength >= 0 && start <= |input|
    requires st.contentLength <= MaxContentLength && |ExpectedStart| <= st.contentLength
    requires start + st.contentLength <= |input|
    requires input[start..start + |ExpectedStart|] == ExpectedStart
    requires ExpectedStart + body == input[start..start + st.contentLength]
    ensures BodyAfter(input, st, start) == Some((body, start + st.contentLength))
  {
    SliceAfterPrefix(input, start, st.contentLength, ExpectedStart, body);
  }

  /** A response read as ProcessResponse reads it delivers the selection from its mempool. */
  lemma ResponseDelivers(input: string, pos: nat, st: HeaderState, start: nat, body: string, g: Graph,
                         order: seq<nat>, pairs: seq<(seq<byte>, nat)>,
                         maxTxnInFas: nat, maxExtra: nat, maxOversize: nat, decodeHex: string -> Option<seq<byte>>,
                         feeTimes1e8: string -> Option<int>, feeAsIs: string -> Option<int>)
    requires pos <= |input| && maxExtra <= maxTxnInFas
    requires Headers(input, pos, InitialHeaders) == Ok((st, start))
    requires BodyAfter(input, st, start) == Some((body, start + st.contentLength))
    requires Scan(body, feeTimes1e8, feeAsIs) == Ok(g)
    requires Selection(g.txn, maxTxnInFas, maxExtra, maxOversize, decodeHex, order, pairs)
    ensures ResponseAt(input, pos) == Some((body, start + st.contentLength))
    ensures Delivers(input, pos, (pairs, |g.txn|), maxTxnInFas, maxExtra, maxOversize, decodeHex, feeTimes1e8, feeAsIs)
  {
  }

  /**
   * The batches came from the responses at `starts`, one batch per
   * response, the first response at the start of the input and each
   * following one where the previous ended; `next` is where the last
   * one ended.
   */
  ghost predicate Chain(input: string, starts: seq<nat>, batches: seq<Batch>, next: nat,
                        maxTxnInFas: nat, maxExtra: nat, maxOversize: nat,
                        decodeHex: string -> Option<seq<byte>>,
                        feeTimes1e8: string -> Option<int>, feeAsIs: string -> Option<int>)
    requires maxExtra <= maxTxnInFas
    decreases |starts|
  {
    |starts| == |batches|
    && if |starts| == 0 then next == 0
       else
         var n := |starts| - 1;
         starts[n] <= |input|
         && Chain(input, starts[..n], batches[..n], starts[n], maxTxnInFas, maxExtra, maxOversize, decodeHex, feeTimes1e8, feeAsIs)
         && Delivers(input, starts[n], batches[n], maxTxnInFas, maxExtra, maxOversize, decodeHex, feeTimes1e8, feeAsIs)
         && next == ResponseAt(input, starts[n]).value.1
  }

  /** One more response, where the chain goes on, extends the chain. */
  lemma ChainAppend(input: string, starts: seq<nat>, batches: seq<Batch>, pos: nat, b: Batch, next: nat,
                    maxTxnInFas: nat, maxExtra: nat, maxOversize: nat, decodeHex: string -> Option<seq<byte>>,
                    feeTimes1e8: string -> Option<int>, feeAsIs: string -> Option<int>)
    requires maxExtra <= maxTxnInFas && pos <= |input|
    requires Chain(input, starts, batches, pos, maxTxnInFas, maxExtra, maxOversize, decodeHex, feeTimes1e8, feeAsIs)
    requires Delivers(input, pos, b, maxTxnInFas, maxExtra, maxOversize, decodeHex, feeTimes1e8, feeAsIs)
    requires next == ResponseAt(input, pos).value.1
    ensures Chain(input, starts + [pos], batches + [b], next, maxTxnInFas, maxExtra, maxOversize, decodeHex, feeTimes1e8, feeAsIs)
  {
    assert (starts + [pos])[..|starts|] == starts && (batches + [b])[..|batches|] == batches;
  }

  /**
   * One response at `pos`: its header, its body, the mempool in it and the
   * selection from it.  A response that gets this far has a header as
   * Headers reads it, a body that scans, and yields a good batch; when the
   * ghost `starts` and `batches` are the chain of responses read before
   * it, the response extends that chain.
   */
  method ProcessResponse(input: string, pos: nat, maxTxnInFas: nat, maxExtra: nat, maxOversize: nat,
                         decodeHex: string -> Option<seq<byte>>,
                         feeTimes1e8: string -> Option<int>, feeAsIs: string -> Option<int>,
                         ghost starts: seq<nat>, ghost batches: seq<Batch>)
    returns (r: Result<(Batch, bool), Reason>, pos': nat)
    requires pos <= |input| && maxExtra <= maxTxnInFas
    ensures pos' <= |input|
    ensures r.Ok? ==> pos < pos' && GoodBatch(r.value.0, maxTxnInFas, maxExtra, maxOversize)
    ensures r.Ok? ==> ResponseAt(input, pos).Some? && pos' == ResponseAt(input, pos).value.1
    ensures r.Ok? ==> Delivers(input, pos, r.value.0, maxTxnInFas, maxExtra, maxOversize, decodeHex, feeTimes1e8, feeAsIs)
    ensures r.Ok? ==>
      Headers(input, pos, InitialHeaders).Ok?
      && r.value.1 == Headers(input, pos, InitialHeaders).value.0.closeAfterRead
    ensures Headers(input, pos, InitialHeaders).Err? ==> r == Err(Headers(input, pos, InitialHeaders).error)
    ensures r.Ok? && Chain(input, starts, batches, pos, maxTxnInFas, maxExtra, maxOversize, decodeHex, feeTimes1e8, feeAsIs) ==>
      Chain(input, starts + [pos], batches + [r.value.0], pos', maxTxnInFas, maxExtra, maxOversize, decodeHex, feeTimes1e8, feeAsIs)
  {
    var head := ReadHeaders(input, pos);
    if head.Err? {
      return Err(head.error), pos;
    }
    var st, bodyStart := head.value.0, head.value.1;
    var body, bodyEnd := ReadBody(input, bodyStart, st.contentLength);
    if body.Err? {
      return Err(body.error), bodyStart;
    }
    var graph, g, depsOf := ScanMempool(body.value, feeTimes1e8, feeAsIs);
    if graph.Err? {
      return Err(graph.error), bodyEnd;
    }
    var selected, order := SelectTransactions(graph.value.txn, graph.value.vectorToSort, maxTxnInFas, maxExtra,
                                              maxOversize, decodeHex);
    if selected.Err? {
      return Err(selected.error), bodyEnd;
    }
    SelectionIsGoodBatch(g.txn, order, selected.value, decodeHex, maxTxnInFas, maxExtra, maxOversize);
    BodyAfterRead(input, st, bodyStart, body.value);
    ResponseDelivers(input, pos, st, bodyStart, body.value, graph.value, order, selected.value,
                     maxTxnInFas, maxExtra, maxOversize, decodeHex, feeTimes1e8, feeAsIs);
    r := Ok(((selected.value, |graph.value.txn|), st.closeAfterRead));
    pos' := bodyEnd;
    if Chain(input, starts, batches, pos, maxTxnInFas, maxExtra, maxOversize, decodeHex, feeTimes1e8, feeAsIs) {
      ChainAppend(input, starts, batches, pos, r.value.0, pos',
                  maxTxnInFas, maxExtra, maxOversize, decodeHex, feeTimes1e8, feeAsIs);
    }
  }

  // ---------------------------------------------------------------------------
  // The client
  // ---------------------------------------------------------------------------

  class RPCClient {
    var connected: bool
    var awaitingResponse: bool
    /** Every request handed to maybe_do_send_bytes, in order. */
    var sent: seq<string>
    /** Every call of txn_for_block_func, in order. */
    var delivered: seq<Batch>
    const serverHost: string

    constructor(host: string)
      ensures !connected && !awaitingResponse && sent == [] && delivered == [] && serverHost == host
    {
      connected, awaitingResponse := false, false;
      sent, delivered := [], [];
      serverHost := host;
    }

    /** on_disconnect (rpcclient.cpp:11-14): nothing is connected or awaited any more. */
    method OnDisconnect()
      modifies this
      ensures !connected && !awaitingResponse
      ensures sent == old(sent) && delivered == old(delivered)
    {
      connected := false;
      awaitingResponse := false;
    }

    /**
     * maybe_get_txn_for_block (rpcclient.cpp:355-379): while connected and
     * not awaiting a response, send one getrawmempool request and await its
     * response; otherwise do nothing.  The credentials are RPC_USER and
     * RPC_PASS as the environment holds them at the call.
     */
    method MaybeGetTxnForBlock(rpcUser: seq<byte>, rpcPass: seq<byte>)
      modifies this
      ensures connected == old(connected) && delivered == old(delivered)
      ensures old(connected) && !old(awaitingResponse) ==>
        awaitingResponse && sent == old(sent) + [Request(serverHost, Encode(Credentials(rpcUser, rpcPass)))]
      ensures !(old(connected) && !old(awaitingResponse)) ==>
        awaitingResponse == old(awaitingResponse) && sent == old(sent)
    {
      if !connected {
        return;
      }
      var wasAwaiting := awaitingResponse;
      awaitingResponse := true;
      if wasAwaiting {
        return;
      }
      var auth := EncodeBase64(Credentials(rpcUser, rpcPass));
      sent := sent + [RequestHead(serverHost, auth) + RequestBody];
    }

    /**
     * net_process (rpcclient.cpp:27-305): mark the connection up, then
     * handle responses one after another, handing each selection to
     * txn_for_block_func and clearing awaitingResponse, until a response
     * fails or asked for "Connection: close"; the result is the reason
     * passed to `disconnect`.  The batches handed on are those of the
     * responses at `starts`, read one after the other from the start of
     * the input; the last of them ends at `next`, where the response that
     * failed begins.
     */
    method NetProcess(input: string, maxTxnInFas: nat, maxExtra: nat, maxOversize: nat,
                      decodeHex: string -> Option<seq<byte>>,
                      feeTimes1e8: string -> Option<int>, feeAsIs: string -> Option<int>)
      returns (reason: Reason, ghost starts: seq<nat>, ghost batches: seq<Batch>, ghost next: nat)
      requires maxExtra <= maxTxnInFas
      modifies this
      ensures connected && sent == old(sent) && delivered == old(delivered) + batches
      ensures forall i :: 0 <= i < |batches| ==> GoodBatch(batches[i], maxTxnInFas, maxExtra, maxOversize)
      ensures Chain(input, starts, batches, next, maxTxnInFas, maxExtra, maxOversize, decodeHex, feeTimes1e8, feeAsIs)
      ensures |batches| > 0 ==> !awaitingResponse
      ensures |batches| == 0 ==> awaitingResponse == old(awaitingResponse)
    {
      connected := true;
      var pos: nat := 0;
      starts, batches, next := [], [], 0;
      while true
        invariant pos <= |input| && connected && sent == old(sent) && delivered == old(delivered) + batches
        invariant forall i :: 0 <= i < |batches| ==> GoodBatch(batches[i], maxTxnInFas, maxExtra, maxOversize)
        invariant next == pos
        invariant Chain(input, starts, batches, pos, maxTxnInFas, maxExtra, maxOversize, decodeHex, feeTimes1e8, feeAsIs)
        invariant |batches| > 0 ==> !awaitingResponse
        invariant |batches| == 0 ==> awaitingResponse == old(awaitingResponse)
        decreases |input| - pos
      {
        var r, pos' := ProcessResponse(input, pos, maxTxnInFas, maxExtra, maxOversize, decodeHex, feeTimes1e8, feeAsIs,
                                   starts, batches);
        if r.Err? {
          reason := r.error;
          break;
        }
        AppendOne(old(delivered), batches, r.value.0);
        GoodAppend(batches, r.value.0, maxTxnInFas, maxExtra, maxOversize);
        delivered := delivered + [r.value.0];
        starts, batches := starts + [pos], batches + [r.value.0];
        awaitingResponse := false;
        next := pos';
        if r.value.1 {
          reason := ConnectionClose;
          break;
        }
        pos, next := pos', pos';
      }
    }
  }
}
