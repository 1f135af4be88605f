/**
 * The "dumb JSON parser" of RPCClient::net_process (c++/rpcclient.cpp:
 * 111-253): one pass over the body of the getrawmempool response, after
 * the 11 characters `{"result":{` the header reader has already matched.
 * Strings outside a transaction object are its hash; inside one they are
 * field names; a field value runs from the ':' to the next ',' or '}';
 * the "size" and "fee" values are converted with std::stol and std::stod;
 * an array collects the quoted strings in it as the transaction's
 * dependencies; and each '}' that closes a transaction object adds an
 * entry to the dependency graph of MempoolGraph.
 *
 * std::stod is not modelled: the caller supplies the two conversions the
 * source applies to a fee, as functions from the field text to the uint64
 * the source stores (None where stod throws); a value outside the range of
 * uint64, where the source's conversion is undefined, is taken modulo 2^64.
 */
module MempoolScanner {
  import opened Common
  import opened Disconnects
  import opened CNumbers
  import opened MempoolGraph

  /** The 23 characters that must end the response (rpcclient.cpp:118). */
  const ExpectedEnd: string := "},\"error\":null,\"id\":1}\n"

  /** The parser's own state: the locals of rpcclient.cpp:112-116. */
  datatype Parser = Parser(stringStart: int, fieldValueStart: int, txHash: string, fieldString: string,
                           txSize: int, txFee: nat, inTx: bool, inFieldString: bool, inFieldValue: bool,
                           txDeps: set<string>)

  /** tx_size is -1 and tx_fee is uint64_t(-1) before a transaction's fields are read. */
  const Initial: Parser := Parser(-1, -1, "", "", -1, TwoTo64 - 1, false, false, false, {})

  /**
   * What holds of the parser before the character at it: open strings and
   * field values started at or before it, the size fits a long and the fee
   * a uint64, and inside a transaction object the parser is either in a
   * field name or in a field value, outside one in neither.
   */
  predicate ParserOk(p: Parser, it: int) {
    -1 <= p.stringStart <= it
    && (p.inFieldValue ==> 0 <= p.fieldValueStart <= it)
    && LongMin <= p.txSize <= LongMax && p.txFee < TwoTo64
    && (p.inTx ==> p.inFieldString != p.inFieldValue)
    && (!p.inTx ==> !p.inFieldString && !p.inFieldValue)
  }

  /** Every entry has a size that fits a uint32 and is not zero, and a feePerKb that fits a uint64. */
  ghost predicate Sized(txn: seq<Entry>) {
    forall j :: 0 <= j < |txn| ==> 0 < txn[j].size < TwoTo32 && txn[j].feePerKb < TwoTo64
  }

  /** The response ends with ExpectedEnd. */
  predicate Framed(resp: string) {
    |resp| >= |ExpectedEnd| && resp[|resp| - |ExpectedEnd|..] == ExpectedEnd
  }

  // ---------------------------------------------------------------------------
  // The characters that change only the parser's own state
  // ---------------------------------------------------------------------------

  /** A '"' (rpcclient.cpp:122-133): closes a hash or a field name, or opens a string. */
  function Quote(p: Parser, resp: string, it: nat): Result<Parser, Reason>
    requires ParserOk(p, it) && it < |resp|
  {
    if p.stringStart != -1 then
      if !p.inTx then Ok(p.(txHash := resp[p.stringStart..it], stringStart := -1))
      else if p.inFieldString then Ok(p.(fieldString := resp[p.stringStart..it], stringStart := -1))
      else if p.inFieldValue then Err(StringAsFieldValue)
      else Ok(p.(stringStart := -1))
    else Ok(p.(stringStart := it + 1))
  }

  /** A ':' (rpcclient.cpp:134-143): a field name gives way to its value. */
  function Colon(p: Parser, it: nat): Result<Parser, Reason> {
    if p.stringStart != -1 then Err(ColonInString)
    else if p.inFieldString then Ok(p.(inFieldValue := true, inFieldString := false, fieldValueStart := it + 1))
    else if p.inFieldValue then Err(UnexpectedColon)
    else Ok(p)
  }

  /**
   * The end of a field value: a "size" is converted with std::stol, a
   * "fee" with the conversion fee; other fields are ignored
   * (rpcclient.cpp:150-162 and 197-209).
   */
  function FieldValue(p: Parser, value: string, fee: string -> Option<int>): (r: Result<Parser, Reason>)
    requires p.txFee < TwoTo64
    ensures r.Ok? ==> r.value.txFee < TwoTo64
    ensures r.Ok? ==> r.value == p.(txSize := r.value.txSize, txFee := r.value.txFee)
    ensures r.Ok? && p.fieldString != "size" ==> r.value.txSize == p.txSize
  {
    if p.fieldString == "size" then
      match Stol(value)
      case None => Err(BadSize)
      case Some(v) => Ok(p.(txSize := v))
    else if p.fieldString == "fee" then
      match fee(value)
      case None => Err(BadFee)
      case Some(v) => Ok(p.(txFee := v % TwoTo64))
    else Ok(p)
  }

  /** A ',' (rpcclient.cpp:144-165): a field value ends and the next field name starts. */
  function Comma(p: Parser, resp: string, it: nat, feeTimes1e8: string -> Option<int>): Result<Parser, Reason>
    requires ParserOk(p, it) && it < |resp|
  {
    if p.stringStart != -1 then Err(CommaInString)
    else if p.inFieldValue then
      FieldValue(p.(inFieldValue := false, inFieldString := true), resp[p.fieldValueStart..it], feeTimes1e8)
    else if p.inTx then Err(UnexpectedComma)
    else Ok(p)
  }

  /** A '{' (rpcclient.cpp:184-192): a transaction object starts with a field name. */
  function OpenBrace(p: Parser): Result<Parser, Reason> {
    if p.stringStart != -1 then Err(BraceInString)
    else if !p.inTx then Ok(p.(inTx := true, inFieldString := true))
    else Err(UnexpectedObject)
  }

  /** The characters other than '[' and '}': each changes only the parser's state; any character without a case leaves it as it is. */
  function Transition(p: Parser, resp: string, it: nat, feeTimes1e8: string -> Option<int>): (r: Result<Parser, Reason>)
    requires ParserOk(p, it) && it < |resp|
    ensures r.Ok? ==> ParserOk(r.value, it + 1)
  {
    TransitionsKeepParserOk(p, resp, it, feeTimes1e8);
    var c := resp[it];
    if c == '"' then Quote(p, resp, it)
    else if c == ':' then Colon(p, it)
    else if c == ',' then Comma(p, resp, it, feeTimes1e8)
    else if c == '{' then OpenBrace(p)
    else Ok(p)
  }

  /** Quote, Colon, Comma and OpenBrace keep ParserOk, one character on. */
  lemma TransitionsKeepParserOk(p: Parser, resp: string, it: nat, feeTimes1e8: string -> Option<int>)
    requires ParserOk(p, it) && it < |resp|
    ensures Quote(p, resp, it).Ok? ==> ParserOk(Quote(p, resp, it).value, it + 1)
    ensures Colon(p, it).Ok? ==> ParserOk(Colon(p, it).value, it + 1)
    ensures Comma(p, resp, it, feeTimes1e8).Ok? ==> ParserOk(Comma(p, resp, it, feeTimes1e8).value, it + 1)
    ensures OpenBrace(p).Ok? ==> ParserOk(OpenBrace(p).value, it + 1)
  {
    if p.stringStart == -1 && p.inFieldValue {
      var q := p.(inFieldValue := false, inFieldString := true);
      assert ParserOk(q, it + 1);
    }
  }

  // ---------------------------------------------------------------------------
  // Arrays: the dependencies of a transaction
  // ---------------------------------------------------------------------------

  /** The pieces after one more character: a quote starts a new piece, any other character grows the last. */
  function NextPieces(r: seq<string>, c: char): (r': seq<string>)
    requires |r| >= 1
    ensures |r'| >= 1
  {
    if c == '"' then r + [""] else r[..|r| - 1] + [r[|r| - 1] + [c]]
  }

  /** s split at each '"': the texts before, between and after the quotes, in order. */
  function Pieces(s: string): (r: seq<string>)
    ensures |r| >= 1
    decreases |s|
  {
    if |s| == 0 then [""] else NextPieces(Pieces(s[..|s| - 1]), s[|s| - 1])
  }

  /** Pieces, one character at a time. */
  lemma PiecesNext(s: string, c: char)
    ensures Pieces(s + [c]) == NextPieces(Pieces(s), c)
  {
    assert (s + [c])[..|s|] == s;
  }

  /** Pieces of a slice that grows by one character. */
  lemma PiecesExtend(s: string, from: nat, i: nat)
    requires from <= i < |s|
    ensures Pieces(s[from..i + 1]) == NextPieces(Pieces(s[from..i]), s[i])
  {
    assert s[from..i + 1] == s[from..i] + [s[i]];
    PiecesNext(s[from..i], s[i]);
  }

  /** The pieces joined again with a '"' between each two. */
  function JoinQuoted(r: seq<string>): string
    requires |r| >= 1
    decreases |r|
  {
    if |r| == 1 then r[0] else JoinQuoted(r[..|r| - 1]) + ['"'] + r[|r| - 1]
  }

  /** Splitting at the quotes loses nothing: joining the pieces gives the text back. */
  lemma {:induction false} PiecesJoin(s: string)
    ensures JoinQuoted(Pieces(s)) == s
    decreases |s|
  {
    if |s| > 0 {
      var front := s[..|s| - 1];
      PiecesJoin(front);
      var p := Pieces(front);
      var q := NextPieces(p, s[|s| - 1]);
      if s[|s| - 1] != '"' && |p| > 1 {
        assert q[..|q| - 1] == p[..|p| - 1];
        assert JoinQuoted(p) == JoinQuoted(p[..|p| - 1]) + ['"'] + p[|p| - 1];
      } else if s[|s| - 1] == '"' {
        assert q[..|q| - 1] == p;
      }
    }
  }

  /** No piece contains a quote. */
  lemma {:induction false} PiecesHaveNoQuote(s: string)
    ensures forall k, c :: 0 <= k < |Pieces(s)| && 0 <= c < |Pieces(s)[k]| ==> Pieces(s)[k][c] != '"'
    decreases |s|
  {
    if |s| > 0 {
      PiecesHaveNoQuote(s[..|s| - 1]);
    }
  }

  /** The strings between an opening and a closing quote: every other piece, when closed. */
  function Closed(r: seq<string>): set<string> {
    set k | 0 <= k < |r| - 1 && k % 2 == 1 :: r[k]
  }

  /** An array whose quotes are balanced ends with an even number of them. */
  predicate Balanced(s: string) {
    |Pieces(s)| % 2 == 1
  }

  /** A quote closes the open piece into the closed strings; any other character changes none of them. */
  lemma ClosedNext(r: seq<string>, c: char)
    requires |r| >= 1
    ensures Closed(NextPieces(r, c)) == Closed(r) + (if c == '"' && |r| % 2 == 0 then {r[|r| - 1]} else {})
  {
    var r' := NextPieces(r, c);
    assert forall k :: 0 <= k < |r| - 1 ==> r'[k] == r[k];
    if c == '"' {
      assert r'[|r| - 1] == r[|r| - 1];
    }
  }

  /** A text without quotes only grows the last piece. */
  lemma {:induction false} PiecesAppendUnquoted(s: string, t: string)
    requires forall k :: 0 <= k < |t| ==> t[k] != '"'
    ensures var r := Pieces(s); Pieces(s + t) == r[..|r| - 1] + [r[|r| - 1] + t]
    decreases |t|
  {
    var r := Pieces(s);
    if |t| == 0 {
      assert s + t == s;
      assert r[|r| - 1] + t == r[|r| - 1];
      assert r[..|r| - 1] + [r[|r| - 1]] == r;
    } else {
      var t' := t[..|t| - 1];
      PiecesAppendUnquoted(s, t');
      assert s + t == (s + t') + [t[|t| - 1]];
      PiecesNext(s + t', t[|t| - 1]);
      assert r[|r| - 1] + t == (r[|r| - 1] + t') + [t[|t| - 1]];
    }
  }

  /** No quote in a string. */
  predicate Unquoted(x: string) {
    forall k :: 0 <= k < |x| ==> x[k] != '"'
  }

  /** The strings of a list, as a set. */
  function Listed(xs: seq<string>): set<string> {
    set k | 0 <= k < |xs| :: xs[k]
  }

  /** An array's contents as bitcoind writes "depends": each hash quoted, separated by commas. */
  function QuotedList(xs: seq<string>): string
    decreases |xs|
  {
    if |xs| == 0 then ""
    else QuotedList(xs[..|xs| - 1]) + (if |xs| > 1 then "," else "") + ['"'] + xs[|xs| - 1] + ['"']
  }

  /** Appending a separator and one quoted string to a text that ends outside quotes. */
  lemma PiecesQuotedItem(s: string, sep: string, x: string)
    requires Unquoted(sep) && Unquoted(x) && Pieces(s)[|Pieces(s)| - 1] == ""
    ensures var r := Pieces(s); Pieces(s + sep + ['"'] + x + ['"']) == r[..|r| - 1] + [sep, x, ""]
  {
    var r0 := Pieces(s);
    var s1 := s + sep;
    var s2 := s1 + ['"'];
    var s3 := s2 + x;
    var r1 := r0[..|r0| - 1] + [sep];
    assert Pieces(s1) == r1 by {
      PiecesAppendUnquoted(s, sep);
      assert r0[|r0| - 1] + sep == sep;
    }
    assert Pieces(s2) == r1 + [""] by {
      PiecesNext(s1, '"');
    }
    assert Pieces(s3) == r1 + [x] by {
      PiecesAppendUnquoted(s2, x);
      var r2 := r1 + [""];
      assert r2[..|r2| - 1] == r1 && r2[|r2| - 1] + x == x;
    }
    assert Pieces(s3 + ['"']) == r1 + [x] + [""] by {
      PiecesNext(s3, '"');
    }
    assert r1 + [x] + [""] == r0[..|r0| - 1] + [sep, x, ""];
  }

  /** r holds xs at its odd positions and ends outside quotes. */
  predicate OddPositions(r: seq<string>, xs: seq<string>) {
    |r| == 2 * |xs| + 1 && r[|r| - 1] == "" && forall k :: 0 <= k < |xs| ==> r[2 * k + 1] == xs[k]
  }

  /** OddPositions, extended by one quoted item. */
  lemma OddPositionsExtend(r0: seq<string>, front: seq<string>, sep: string, x: string)
    requires OddPositions(r0, front)
    ensures OddPositions(r0[..|r0| - 1] + [sep, x, ""], front + [x])
  {
    var r := r0[..|r0| - 1] + [sep, x, ""];
    var xs := front + [x];
    forall k | 0 <= k < |xs|
      ensures r[2 * k + 1] == xs[k]
    {
      if k < |front| {
        assert r[2 * k + 1] == r0[2 * k + 1];
      }
    }
  }

  /** The pieces of a quoted list: the hashes sit at the odd positions, and the last piece is empty. */
  lemma {:induction false} QuotedListPieces(xs: seq<string>)
    requires forall k :: 0 <= k < |xs| ==> Unquoted(xs[k])
    ensures OddPositions(Pieces(QuotedList(xs)), xs)
    decreases |xs|
  {
    if |xs| > 0 {
      var front, x := xs[..|xs| - 1], xs[|xs| - 1];
      QuotedListPieces(front);
      var sep := if |xs| > 1 then "," else "";
      var s0 := QuotedList(front);
      var r0 := Pieces(s0);
      var r := r0[..|r0| - 1] + [sep, x, ""];
      assert Pieces(QuotedList(xs)) == r by {
        PiecesQuotedItem(s0, sep, x);
        assert QuotedList(xs) == s0 + sep + ['"'] + x + ['"'];
      }
      assert OddPositions(r, xs) by {
        OddPositionsExtend(r0, front, sep, x);
        assert front + [x] == xs;
      }
    }
  }

  /** Pieces that hold xs at their odd positions close exactly the elements of xs. */
  lemma ClosedOfOdd(r: seq<string>, xs: seq<string>)
    requires OddPositions(r, xs)
    ensures Closed(r) == Listed(xs)
  {
    forall k | 0 <= k < |r| - 1 && k % 2 == 1
      ensures r[k] in Listed(xs)
    {
      var j := k / 2;
      assert k == 2 * j + 1 && 0 <= j < |xs|;
      assert r[2 * j + 1] == xs[j];
    }
    forall k | 0 <= k < |xs|
      ensures xs[k] in Closed(r)
    {
      assert r[2 * k + 1] == xs[k];
      assert (2 * k + 1) % 2 == 1;
    }
  }

  lemma OddLength(m: nat, n: nat)
    requires m == 2 * n + 1
    ensures m % 2 == 1
  {
  }

  /** The array loop reads back exactly the hashes of a quoted list, and its quotes balance. */
  lemma QuotedListRoundTrip(xs: seq<string>)
    requires forall k :: 0 <= k < |xs| ==> Unquoted(xs[k])
    ensures Balanced(QuotedList(xs))
    ensures Closed(Pieces(QuotedList(xs))) == Listed(xs)
  {
    QuotedListPieces(xs);
    var r := Pieces(QuotedList(xs));
    OddLength(|r|, |xs|);
    ClosedOfOdd(r, xs);
  }

  /** The ']' that ends the array opened at it0 is the first one after it. */
  predicate ArrayEnd(resp: string, it0: int, q: int) {
    0 <= it0 < q < |resp| && resp[q] == ']' && forall k :: it0 < k < q ==> resp[k] != ']'
  }

  /**
   * The array loop's state at i, given the pieces r of the characters read:
   * the closed strings have joined deps0, and an open string, if any,
   * started at depStringStart and is the last piece.
   */
  ghost predicate DepState(resp: string, it0: nat, i: nat, depStringStart: int, deps0: set<string>, deps: set<string>, r: seq<string>)
    requires i <= |resp| && |r| >= 1
  {
    deps == deps0 + Closed(r)
    && (depStringStart == -1 <==> |r| % 2 == 1)
    && (depStringStart != -1 ==> it0 < depStringStart <= i && resp[depStringStart..i] == r[|r| - 1])
  }

  /** One character of the array loop (rpcclient.cpp:170-179): a quote closes the open string into the dependencies, or opens one. */
  function DepNext(resp: string, i: nat, depStringStart: int, deps: set<string>): (int, set<string>)
    requires i < |resp| && -1 <= depStringStart <= i
  {
    if resp[i] != '"' then (depStringStart, deps)
    else if depStringStart != -1 then (-1, deps + {resp[depStringStart..i]})
    else (i + 1, deps)
  }

  /** DepNext keeps the array loop's state, with the pieces one character on. */
  lemma DepNextKeepsState(resp: string, it0: nat, i: nat, depStringStart: int, deps0: set<string>, deps: set<string>, r: seq<string>)
    requires it0 < i < |resp| && |r| >= 1 && DepState(resp, it0, i, depStringStart, deps0, deps, r)
    ensures var next := DepNext(resp, i, depStringStart, deps);
      DepState(resp, it0, i + 1, next.0, deps0, next.1, NextPieces(r, resp[i]))
  {
    var c := resp[i];
    ClosedNext(r, c);
    if c != '"' {
      assert NextPieces(r, c)[|r| - 1] == r[|r| - 1] + [c];
      if depStringStart != -1 {
        assert resp[depStringStart..i + 1] == resp[depStringStart..i] + [c];
      }
    }
  }

  /**
   * The array loop from i on (rpcclient.cpp:168-182): the error, the
   * position where the loop stopped, and the dependencies.  The loop stops
   * at the first ']' or at the last character; it fails unless it stopped
   * at a ']' with no string open.
   */
  function ArrayScan(resp: string, i: nat, depStringStart: int, deps: set<string>): (r: (Option<Reason>, nat, set<string>))
    requires i < |resp| && -1 <= depStringStart <= i
    ensures i <= r.1 < |resp|
    decreases |resp| - i
  {
    if resp[i] != ']' && i < |resp| - 1 then
      var next := DepNext(resp, i, depStringStart, deps);
      ArrayScan(resp, i + 1, next.0, next.1)
    else if resp[i] != ']' || depStringStart != -1 then (Some(MissingArrayEnd), i, deps)
    else (None, i, deps)
  }

  /** A '[' at it0 (rpcclient.cpp:166-183): the array loop from the next character, which must exist. */
  function Deps(resp: string, it0: nat, deps0: set<string>): (r: (Option<Reason>, nat, set<string>))
    requires it0 < |resp|
    ensures it0 <= r.1 < |resp|
  {
    if it0 == |resp| - 1 then (Some(ReadPastEnd), it0, deps0) else ArrayScan(resp, it0 + 1, -1, deps0)
  }

  /**
   * What an array loop that ran from it0 + 1 promises: it stopped at the
   * array's ']' with its quotes balanced and its quoted strings added to
   * deps0, or it fails and no ']' ends a balanced array.
   */
  ghost predicate ArrayOutcome(resp: string, it0: nat, deps0: set<string>, a: (Option<Reason>, nat, set<string>)) {
    (a.0 == None || a.0 == Some(MissingArrayEnd))
    && (a.0.None? ==>
          ArrayEnd(resp, it0, a.1) && Balanced(resp[it0 + 1..a.1]) && a.2 == deps0 + Closed(Pieces(resp[it0 + 1..a.1])))
    && (a.0 == Some(MissingArrayEnd) ==> NoBalancedEnd(resp, it0))
  }

  /** The array loop at i: no ']' read yet, and the state describes the pieces of the characters read. */
  ghost predicate ArrayLoop(resp: string, it0: nat, i: nat, depStringStart: int, deps0: set<string>, deps: set<string>, r: seq<string>) {
    it0 < i < |resp| && (forall k :: it0 < k < i ==> resp[k] != ']')
    && r == Pieces(resp[it0 + 1..i]) && DepState(resp, it0, i, depStringStart, deps0, deps, r)
  }

  /** From a state of the array loop, ArrayScan keeps the array loop's promise. */
  lemma {:induction false} ArrayScanFacts(resp: string, it0: nat, i: nat, depStringStart: int, deps0: set<string>, deps: set<string>, r: seq<string>)
    requires ArrayLoop(resp, it0, i, depStringStart, deps0, deps, r)
    ensures -1 <= depStringStart <= i
    ensures ArrayOutcome(resp, it0, deps0, ArrayScan(resp, i, depStringStart, deps))
    decreases |resp| - i
  {
    if resp[i] != ']' && i < |resp| - 1 {
      var next := DepNext(resp, i, depStringStart, deps);
      ArrayLoopStep(resp, it0, i, depStringStart, deps0, deps, r);
      ArrayScanFacts(resp, it0, i + 1, next.0, deps0, next.1, NextPieces(r, resp[i]));
      assert ArrayScan(resp, i, depStringStart, deps) == ArrayScan(resp, i + 1, next.0, next.1);
    } else {
      ArrayStops(resp, it0, i, depStringStart, deps0, deps, r);
    }
  }

  /** One character on, the array loop's state still describes the characters read. */
  lemma ArrayLoopStep(resp: string, it0: nat, i: nat, depStringStart: int, deps0: set<string>, deps: set<string>, r: seq<string>)
    requires ArrayLoop(resp, it0, i, depStringStart, deps0, deps, r) && resp[i] != ']' && i < |resp| - 1
    ensures -1 <= depStringStart <= i
    ensures var next := DepNext(resp, i, depStringStart, deps);
      ArrayLoop(resp, it0, i + 1, next.0, deps0, next.1, NextPieces(r, resp[i]))
  {
    DepNextKeepsState(resp, it0, i, depStringStart, deps0, deps, r);
    PiecesExtend(resp, it0 + 1, i);
  }

  /** Where the array loop stops, ArrayScan keeps the array loop's promise. */
  lemma ArrayStops(resp: string, it0: nat, i: nat, depStringStart: int, deps0: set<string>, deps: set<string>, r: seq<string>)
    requires it0 < i < |resp| && (resp[i] == ']' || i == |resp| - 1)
    requires forall k :: it0 < k < i ==> resp[k] != ']'
    requires r == Pieces(resp[it0 + 1..i]) && DepState(resp, it0, i, depStringStart, deps0, deps, r)
    ensures -1 <= depStringStart <= i
    ensures ArrayOutcome(resp, it0, deps0, ArrayScan(resp, i, depStringStart, deps))
  {
    ArrayExit(resp, it0, i, depStringStart, deps0, deps, r);
    if resp[i] != ']' || depStringStart != -1 {
      assert ArrayScan(resp, i, depStringStart, deps) == (Some(MissingArrayEnd), i, deps);
    } else {
      assert ArrayScan(resp, i, depStringStart, deps) == (None, i, deps);
    }
  }

  /**
   * What the array loop promises: a '[' as the last character reads past
   * the end; otherwise the array ends at the first ']' with its quotes
   * balanced and its quoted strings added to the dependencies, or no ']'
   * ends a balanced array.
   */
  lemma DepsFacts(resp: string, it0: nat, deps0: set<string>)
    requires it0 < |resp|
    ensures var d := Deps(resp, it0, deps0);
      (d.0 == None || d.0 == Some(ReadPastEnd) || d.0 == Some(MissingArrayEnd))
      && (d.0 == Some(ReadPastEnd) <==> it0 == |resp| - 1)
      && (d.0.None? ==> ArrayEnd(resp, it0, d.1) && Balanced(resp[it0 + 1..d.1]) && d.2 == deps0 + Closed(Pieces(resp[it0 + 1..d.1])))
      && (d.0 == Some(MissingArrayEnd) ==> it0 < |resp| - 1 && NoBalancedEnd(resp, it0))
  {
    if it0 < |resp| - 1 {
      ArrayEntry(resp, it0, deps0);
      assert ArrayLoop(resp, it0, it0 + 1, -1, deps0, deps0, [""]);
      ArrayScanFacts(resp, it0, it0 + 1, -1, deps0, deps0, [""]);
    }
  }

  /** The array at it0 of a "depends" field as bitcoind writes it: the loop stops at its ']' with exactly the listed hashes. */
  lemma DepsOfQuotedList(resp: string, it0: nat, xs: seq<string>)
    requires forall k :: 0 <= k < |xs| ==> Unquoted(xs[k]) && forall c :: 0 <= c < |xs[k]| ==> xs[k][c] != ']'
    requires it0 + |QuotedList(xs)| + 1 < |resp| && resp[it0 + 1..it0 + 1 + |QuotedList(xs)|] == QuotedList(xs)
    requires resp[it0 + 1 + |QuotedList(xs)|] == ']'
    ensures Deps(resp, it0, {}) == (None, it0 + 1 + |QuotedList(xs)|, Listed(xs))
  {
    var q := it0 + 1 + |QuotedList(xs)|;
    QuotedListRoundTrip(xs);
    QuotedListHasNoBracket(xs);
    assert ArrayEnd(resp, it0, q) by {
      forall k | it0 < k < q
        ensures resp[k] != ']'
      {
        assert resp[k] == QuotedList(xs)[k - it0 - 1];
      }
    }
    DepsFacts(resp, it0, {});
    var d := Deps(resp, it0, {});
    assert resp[it0 + 1..q] == QuotedList(xs);
    assert Balanced(resp[it0 + 1..q]);
    assert d.0.None?;
    assert d.1 == q;
    assert d.2 == Closed(Pieces(QuotedList(xs)));
  }

  /** A quoted list of strings without ']' has no ']'. */
  lemma {:induction false} QuotedListHasNoBracket(xs: seq<string>)
    requires forall k :: 0 <= k < |xs| ==> forall c :: 0 <= c < |xs[k]| ==> xs[k][c] != ']'
    ensures forall c :: 0 <= c < |QuotedList(xs)| ==> QuotedList(xs)[c] != ']'
    decreases |xs|
  {
    if |xs| > 0 {
      QuotedListHasNoBracket(xs[..|xs| - 1]);
    }
  }

  /**
   * A '[' at it0 (rpcclient.cpp:166-183): the quoted strings up to the
   * first ']' join the dependencies.  The array must end at that ']' with
   * no string open; a ']' inside a string still ends the scan.  A '[' as the
   * last character makes the source read past the end of the buffer.
   */
  method ScanDeps(resp: string, it0: nat, deps0: set<string>) returns (err: Option<Reason>, last: nat, deps: set<string>)
    requires it0 < |resp|
    ensures (err, last, deps) == Deps(resp, it0, deps0)
    ensures err == None || err == Some(ReadPastEnd) || err == Some(MissingArrayEnd)
    ensures err == Some(ReadPastEnd) <==> it0 == |resp| - 1
    ensures err.None? ==>
      ArrayEnd(resp, it0, last) && Balanced(resp[it0 + 1..last]) && deps == deps0 + Closed(Pieces(resp[it0 + 1..last]))
    ensures err == Some(MissingArrayEnd) ==> it0 < |resp| - 1 && NoBalancedEnd(resp, it0)
  {
    DepsFacts(resp, it0, deps0);
    var n := |resp|;
    var i := it0 + 1;
    if i == n {
      return Some(ReadPastEnd), it0, deps0;
    }
    var depStringStart := -1;
    deps := deps0;
    while resp[i] != ']' && i < n - 1
      invariant it0 < i < n && -1 <= depStringStart <= i
      invariant ArrayScan(resp, i, depStringStart, deps) == Deps(resp, it0, deps0)
      decreases n - i
    {
      if resp[i] == '"' {
        if depStringStart != -1 {
          deps := deps + {resp[depStringStart..i]};
          depStringStart := -1;
        } else {
          depStringStart := i + 1;
        }
      }
      i := i + 1;
    }
    last := i;
    if resp[i] != ']' || depStringStart != -1 {
      return Some(MissingArrayEnd), last, deps;
    }
    return None, last, deps;
  }

  /** No ']' after it0 ends an array whose strings are all closed. */
  ghost predicate NoBalancedEnd(resp: string, it0: nat) {
    forall q :: ArrayEnd(resp, it0, q) ==> !Balanced(resp[it0 + 1..q])
  }

  /** The array loop's state before its first character. */
  lemma ArrayEntry(resp: string, it0: nat, deps0: set<string>)
    requires it0 + 1 < |resp|
    ensures [""] == Pieces(resp[it0 + 1..it0 + 1]) && DepState(resp, it0, it0 + 1, -1, deps0, deps0, [""])
  {
    assert resp[it0 + 1..it0 + 1] == "";
  }

  /** Where the array loop stops: at its ']' with no string open the array is
      balanced and its strings have joined deps; otherwise no ']' ends a
      balanced array. */
  lemma ArrayExit(resp: string, it0: nat, i: nat, depStringStart: int, deps0: set<string>, deps: set<string>, r: seq<string>)
    requires it0 < i < |resp| && (resp[i] == ']' || i == |resp| - 1)
    requires forall k :: it0 < k < i ==> resp[k] != ']'
    requires r == Pieces(resp[it0 + 1..i]) && DepState(resp, it0, i, depStringStart, deps0, deps, r)
    ensures resp[i] == ']' && depStringStart == -1 ==>
      ArrayEnd(resp, it0, i) && Balanced(resp[it0 + 1..i]) && deps == deps0 + Closed(Pieces(resp[it0 + 1..i]))
    ensures resp[i] != ']' || depStringStart != -1 ==> NoBalancedEnd(resp, it0)
  {
    forall q | ArrayEnd(resp, it0, q) && (resp[i] != ']' || depStringStart != -1)
      ensures !Balanced(resp[it0 + 1..q])
    {
      assert q == i;
    }
  }

  // ---------------------------------------------------------------------------
  // The end of a transaction object
  // ---------------------------------------------------------------------------

  /** The graph after one more entry, read with these fields, was added. */
  ghost predicate AddedAs(graph: Graph, graph': Graph, fee: nat, size: nat, hash: string, deps: set<string>) {
    0 < size && hash !in graph.hashToEntry && fee < TwoTo64 && size < TwoTo32
    && graph' == Added(graph, Entry(FeePerKb(fee, size).value, size, |deps|, hash, {}), deps)
  }

  /** An added entry with a size and a fee that fit keeps Sized. */
  lemma AddedKeepsSized(g: Graph, e: Entry, deps: set<string>)
    requires Sized(g.txn) && e.setDeps == {} && 0 < e.size < TwoTo32 && e.feePerKb < TwoTo64
    ensures Sized(Added(g, e, deps).txn)
  {
    AddedFacts(g, e, deps);
  }

  /** The parser once a '}' has converted the field value it ends (rpcclient.cpp:196-209). */
  function Closing(p: Parser, resp: string, it: nat, feeAsIs: string -> Option<int>): Result<Parser, Reason>
    requires ParserOk(p, it) && it < |resp| && p.inFieldValue
  {
    FieldValue(p.(inFieldValue := false), resp[p.fieldValueStart..it], feeAsIs)
  }

  /**
   * What a '}' does (rpcclient.cpp:193-245): the parser after it and the
   * graph with the transaction's entry, or the reason the scan stops.
   */
  function Close(p: Parser, resp: string, it: nat, graph: Graph, feeAsIs: string -> Option<int>): (r: Result<(Parser, Graph), Reason>)
    requires ParserOk(p, it) && it < |resp|
    ensures r.Ok? ==> ParserOk(r.value.0, it + 1) && !r.value.0.inTx && r.value.0.stringStart == p.stringStart
  {
    if !p.inTx then Err(ClosedBeforeEnd)
    else if !p.inFieldValue then Err(UnexpectedClose)
    else match Closing(p, resp, it, feeAsIs)
      case Err(e) => Err(e)
      case Ok(f) =>
        var size := f.txSize % TwoTo32;
        if f.txSize < 0 then Err(NoSize)
        else if size == 0 then Err(ZeroSize)
        else if p.txHash in graph.hashToEntry then Err(DuplicateTransaction)
        else Ok((f.(inTx := false, txSize := -1, txFee := TwoTo64 - 1, txDeps := {}),
                 Added(graph, Entry(FeePerKb(f.txFee, size).value, size, |p.txDeps|, p.txHash, {}), p.txDeps)))
  }

  /**
   * A '}' (rpcclient.cpp:193-245).  Outside a transaction object it closes
   * the result object too early; inside one it must end a field value,
   * which is converted, and the transaction must have a size.  The size is
   * truncated to the uint32 of CTxMemPoolEntry; a zero size, where the
   * source divides by zero, and a hash already read end the scan; otherwise
   * the entry is added to the graph, and the parser leaves the object with
   * tx_size, tx_fee and txDeps reset.  The check `tx_fee < 0` on a uint64
   * never holds and is left out.
   */
  method CloseTx(p: Parser, resp: string, it: nat, graph: Graph, ghost depsOf: seq<set<string>>, feeAsIs: string -> Option<int>)
    returns (err: Option<Reason>, p': Parser, graph': Graph, ghost depsOf': seq<set<string>>)
    requires ParserOk(p, it) && it < |resp|
    requires GraphInv(graph, depsOf) && Sized(graph.txn)
    ensures GraphInv(graph', depsOf') && Sized(graph'.txn)
    ensures err != Some(MissingDependency)
    ensures !p.inTx ==> err == Some(ClosedBeforeEnd)
    ensures p.inTx && !p.inFieldValue ==> err == Some(UnexpectedClose)
    ensures err.None? ==>
      p.inTx && p.inFieldValue && ParserOk(p', it + 1) && !p'.inTx
      && p'.txSize == -1 && p'.txFee == TwoTo64 - 1 && p'.txDeps == {}
      && depsOf' == depsOf + [p.txDeps]
      && var f := Closing(p, resp, it, feeAsIs);
         f.Ok? && AddedAs(graph, graph', f.value.txFee, f.value.txSize % TwoTo32, p.txHash, p.txDeps)
    ensures p.inTx && p.inFieldValue && Closing(p, resp, it, feeAsIs).Err? ==>
      err == Some(Closing(p, resp, it, feeAsIs).error)
    ensures p.inTx && p.inFieldValue && Closing(p, resp, it, feeAsIs).Ok? && Closing(p, resp, it, feeAsIs).value.txSize < 0 ==>
      err == Some(NoSize)
    ensures p.inTx && p.inFieldValue && p.fieldString != "size" && p.txSize < 0 && Closing(p, resp, it, feeAsIs).Ok? ==>
      err == Some(NoSize)
    ensures err.Some? ==> graph' == graph && depsOf' == depsOf
    ensures Close(p, resp, it, graph, feeAsIs) == if err.Some? then Err(err.value) else Ok((p', graph'))
  {
    graph', depsOf', p' := graph, depsOf, p;
    if !p.inTx {
      return Some(ClosedBeforeEnd), p', graph', depsOf';
    }
    if !p.inFieldValue {
      return Some(UnexpectedClose), p', graph', depsOf';
    }
    var q := Closing(p, resp, it, feeAsIs);
    if q.Err? {
      assert Close(p, resp, it, graph, feeAsIs) == Err(q.error);
      return Some(q.error), p', graph', depsOf';
    }
    var f := q.value;
    if f.txSize < 0 {
      assert Close(p, resp, it, graph, feeAsIs) == Err(NoSize);
      return Some(NoSize), p', graph', depsOf';
    }
    var size := f.txSize % TwoTo32;
    err, graph', depsOf' := Emplace(graph, depsOf, f.txFee, size, p.txHash, p.txDeps);
    if err.None? {
      p' := f.(inTx := false, txSize := -1, txFee := TwoTo64 - 1, txDeps := {});
      assert Close(p, resp, it, graph, feeAsIs) == Ok((p', graph'));
    } else if size == 0 {
      assert Close(p, resp, it, graph, feeAsIs) == Err(ZeroSize);
    } else {
      assert p.txHash in graph.hashToEntry;
      assert Close(p, resp, it, graph, feeAsIs) == Err(DuplicateTransaction);
    }
  }

  /**
   * The entry for a transaction object joins the graph (rpcclient.cpp:
   * 218-237); the invariant is kept, with its dependencies appended to
   * depsOf.
   */
  method Emplace(graph: Graph, ghost depsOf: seq<set<string>>, fee: nat, size: nat, hash: string, deps: set<string>)
    returns (err: Option<Reason>, graph': Graph, ghost depsOf': seq<set<string>>)
    requires fee < TwoTo64 && size < TwoTo32
    requires GraphInv(graph, depsOf) && Sized(graph.txn)
    ensures GraphInv(graph', depsOf') && Sized(graph'.txn)
    ensures err.None? ==> AddedAs(graph, graph', fee, size, hash, deps) && depsOf' == depsOf + [deps]
    ensures err.Some? ==> graph' == graph && depsOf' == depsOf
    ensures err == None || err == Some(ZeroSize) || err == Some(DuplicateTransaction)
    ensures size == 0 ==> err == Some(ZeroSize)
    ensures size != 0 && hash in graph.hashToEntry ==> err == Some(DuplicateTransaction)
    ensures size != 0 && hash !in graph.hashToEntry ==> err.None?
  {
    var added := AddEntry(graph, fee, size, hash, deps);
    if added.Err? {
      return Some(added.error), graph, depsOf;
    }
    var e := Entry(FeePerKb(fee, size).value, size, |deps|, hash, {});
    AddedKeepsInv(graph, depsOf, e, deps);
    AddedKeepsSized(graph, e, deps);
    return None, added.value, depsOf + [deps];
  }

  // ---------------------------------------------------------------------------
  // The scan
  // ---------------------------------------------------------------------------

  /**
   * Where the skip over spaces before each character stops
   * (rpcclient.cpp:120): at the first other character, or at the last one.
   */
  function Skip(resp: string, it: nat): (r: nat)
    requires it < |resp|
    ensures it <= r < |resp|
    ensures forall k :: it <= k < r ==> resp[k] == ' '
    ensures resp[r] != ' ' || r == |resp| - 1
    decreases |resp| - it
  {
    if resp[it] == ' ' && it < |resp| - 1 then Skip(resp, it + 1) else it
  }

  /** The skip over spaces (rpcclient.cpp:120). */
  method SkipBlanks(resp: string, it0: nat) returns (it: nat)
    requires it0 < |resp|
    ensures it == Skip(resp, it0)
    ensures it0 <= it < |resp|
    ensures forall k :: it0 <= k < it ==> resp[k] == ' '
    ensures resp[it] != ' ' || it == |resp| - 1
  {
    it := it0;
    while resp[it] == ' ' && it < |resp| - 1
      invariant it0 <= it < |resp|
      invariant Skip(resp, it) == Skip(resp, it0)
      decreases |resp| - it
    {
      it := it + 1;
    }
  }

  /**
   * What the switch does with the character at it (rpcclient.cpp:121-247):
   * the position of the last character it consumed, the parser and the
   * graph after it, or the reason the scan stops.
   */
  function Step(resp: string, it: nat, p: Parser, graph: Graph,
                feeTimes1e8: string -> Option<int>, feeAsIs: string -> Option<int>): (r: Result<(nat, Parser, Graph), Reason>)
    requires it < |resp| && ParserOk(p, it)
    ensures r.Ok? ==> it <= r.value.0 < |resp| && ParserOk(r.value.1, r.value.0 + 1)
  {
    var c := resp[it];
    if c == '[' then
      var d := Deps(resp, it, p.txDeps);
      if d.0.Some? then Err(d.0.value) else Ok((d.1, p.(txDeps := d.2), graph))
    else if c == '}' then
      match Close(p, resp, it, graph, feeAsIs)
      case Err(e) => Err(e)
      case Ok(v) => Ok((it, v.0, v.1))
    else
      match Transition(p, resp, it, feeTimes1e8)
      case Err(e) => Err(e)
      case Ok(p') => Ok((it, p', graph))
  }

  /**
   * The scan from it on (rpcclient.cpp:119-253): a character at a time,
   * after the spaces before it, while more than the 23 characters of
   * ExpectedEnd are left; then the end must be exactly ExpectedEnd and no
   * entry may still wait for a dependency.
   */
  function ScanFrom(resp: string, it: nat, p: Parser, graph: Graph,
                    feeTimes1e8: string -> Option<int>, feeAsIs: string -> Option<int>): Result<Graph, Reason>
    requires it <= |resp| && ParserOk(p, it)
    decreases |resp| - it, 2
  {
    if it < |resp| - |ExpectedEnd| then ScanSkip(resp, it, p, graph, feeTimes1e8, feeAsIs)
    else if it != |resp| - |ExpectedEnd| || resp[it..] != ExpectedEnd then Err(NotClosedAtEnd)
    else if graph.waiting != map[] then Err(MissingDependency)
    else Ok(graph)
  }

  /** The scan from it on while characters are left: the spaces at it are skipped, and the scan goes on at the character after them. */
  function ScanSkip(resp: string, it: nat, p: Parser, graph: Graph,
                    feeTimes1e8: string -> Option<int>, feeAsIs: string -> Option<int>): Result<Graph, Reason>
    requires it < |resp| && ParserOk(p, it)
    decreases |resp| - it, 1
  {
    ScanAt(resp, Skip(resp, it), p, graph, feeTimes1e8, feeAsIs)
  }

  /** The scan from the character at it on: that character is handled, and the scan goes on after the last character it consumed. */
  function ScanAt(resp: string, it: nat, p: Parser, graph: Graph,
                  feeTimes1e8: string -> Option<int>, feeAsIs: string -> Option<int>): Result<Graph, Reason>
    requires it < |resp| && ParserOk(p, it)
    decreases |resp| - it, 0
  {
    var s := Step(resp, it, p, graph, feeTimes1e8, feeAsIs);
    if s.Err? then Err(s.error) else ScanFrom(resp, s.value.0 + 1, s.value.1, s.value.2, feeTimes1e8, feeAsIs)
  }

  /** The dependency graph a getrawmempool response body describes, or why it is refused. */
  function Scan(resp: string, feeTimes1e8: string -> Option<int>, feeAsIs: string -> Option<int>): Result<Graph, Reason> {
    ScanFrom(resp, 0, Initial, EmptyGraph, feeTimes1e8, feeAsIs)
  }

  /**
   * The switch on one character (rpcclient.cpp:121-247): last is the
   * position of the last character it consumed, the character itself or
   * the ']' of an array.
   */
  method ScanChar(resp: string, it: nat, p: Parser, graph: Graph, ghost depsOf: seq<set<string>>,
                  feeTimes1e8: string -> Option<int>, feeAsIs: string -> Option<int>)
    returns (err: Option<Reason>, last: nat, p': Parser, graph': Graph, ghost depsOf': seq<set<string>>)
    requires it < |resp| && ParserOk(p, it)
    requires GraphInv(graph, depsOf) && Sized(graph.txn)
    ensures GraphInv(graph', depsOf') && Sized(graph'.txn)
    ensures err.None? ==> it <= last < |resp| && ParserOk(p', last + 1)
    ensures err != Some(MissingDependency)
    ensures Step(resp, it, p, graph, feeTimes1e8, feeAsIs) == if err.Some? then Err(err.value) else Ok((last, p', graph'))
  {
    graph', depsOf', last := graph, depsOf, it;
    TransitionsKeepParserOk(p, resp, it, feeTimes1e8);
    var c := resp[it];
    var step: Result<Parser, Reason>;
    if c == '"' {
      step := Quote(p, resp, it);
    } else if c == ':' {
      step := Colon(p, it);
    } else if c == ',' {
      step := Comma(p, resp, it, feeTimes1e8);
    } else if c == '[' {
      var deps;
      err, last, deps := ScanDeps(resp, it, p.txDeps);
      p' := p.(txDeps := deps);
      return;
    } else if c == '{' {
      step := OpenBrace(p);
    } else if c == '}' {
      err, p', graph', depsOf' := CloseTx(p, resp, it, graph, depsOf, feeAsIs);
      return;
    } else {
      step := Ok(p);
    }
    if step.Err? {
      return Some(step.error), last, p, graph', depsOf';
    }
    return None, last, step.value, graph', depsOf';
  }

  /**
   * One turn of the scan's loop (rpcclient.cpp:120-247): the spaces are
   * skipped and the character after them handled; the scan goes on after
   * the last character consumed.
   */
  method Turn(resp: string, it: nat, p: Parser, graph: Graph, ghost depsOf: seq<set<string>>,
              feeTimes1e8: string -> Option<int>, feeAsIs: string -> Option<int>)
    returns (err: Option<Reason>, it': nat, p': Parser, graph': Graph, ghost depsOf': seq<set<string>>)
    requires it < |resp| - |ExpectedEnd| && ParserOk(p, it)
    requires GraphInv(graph, depsOf) && Sized(graph.txn)
    ensures GraphInv(graph', depsOf') && Sized(graph'.txn)
    ensures err.None? ==> it < it' <= |resp| && ParserOk(p', it')
    ensures err != Some(MissingDependency)
    ensures ScanFrom(resp, it, p, graph, feeTimes1e8, feeAsIs)
      == if err.Some? then Err(err.value) else ScanFrom(resp, it', p', graph', feeTimes1e8, feeAsIs)
  {
    var start := SkipBlanks(resp, it);
    var last;
    err, last, p', graph', depsOf' := ScanChar(resp, start, p, graph, depsOf, feeTimes1e8, feeAsIs);
    ScanTurn(resp, it, start, p, graph, err, last, p', graph', feeTimes1e8, feeAsIs);
    it' := last + 1;
  }

  /**
   * The scan of the response body (rpcclient.cpp:112-253), with the two fee
   * conversions of the ',' and the '}' cases.  The graph g and the
   * dependencies each of its entries named (depsOf) always keep GraphInv.
   * A response that scans is framed by ExpectedEnd, names only hashes it
   * also lists, and leaves the graph ready for the selection; one that
   * names a hash it does not list is refused with MissingDependency.
   */
  method ScanMempool(resp: string, feeTimes1e8: string -> Option<int>, feeAsIs: string -> Option<int>)
    returns (r: Result<Graph, Reason>, ghost g: Graph, ghost depsOf: seq<set<string>>)
    ensures r == Scan(resp, feeTimes1e8, feeAsIs)
    ensures GraphInv(g, depsOf) && Sized(g.txn)
    ensures r.Ok? ==> r.value == g && Framed(resp) && Ready(g.txn, g.vectorToSort)
    ensures r.Ok? ==> forall j, d :: Named(depsOf, j, d) ==> d in g.hashToEntry
    ensures r == Err(MissingDependency) ==>
      Framed(resp) && exists j, d :: Named(depsOf, j, d) && d !in g.hashToEntry
  {
    var n := |resp|;
    var it := 0;
    var p := Initial;
    var graph := EmptyGraph;
    depsOf := [];
    EmptyGraphInv();
    while it < n - |ExpectedEnd|
      invariant 0 <= it <= n && ParserOk(p, it)
      invariant GraphInv(graph, depsOf) && Sized(graph.txn)
      invariant ScanFrom(resp, it, p, graph, feeTimes1e8, feeAsIs) == Scan(resp, feeTimes1e8, feeAsIs)
      decreases n - it
    {
      var err, it', p', graph';
      err, it', p', graph', depsOf := Turn(resp, it, p, graph, depsOf, feeTimes1e8, feeAsIs);
      if err.Some? {
        return Err(err.value), graph', depsOf;
      }
      it, p, graph := it', p', graph';
    }
    g := graph;
    ScanEnd(resp, it, p, graph, feeTimes1e8, feeAsIs);
    if it != n - |ExpectedEnd| || resp[it..] != ExpectedEnd {
      return Err(NotClosedAtEnd), g, depsOf;
    }
    if graph.waiting != map[] {
      Unresolved(g, depsOf);
      return Err(MissingDependency), g, depsOf;
    }
    Resolved(g, depsOf);
    ResolvedIsReady(g, depsOf);
    r := Ok(graph);
  }

  /**
   * One turn of the scan: when the character after the spaces at it is
   * handled with this outcome, the scan goes on after the last character
   * it consumed.
   */
  lemma ScanTurn(resp: string, it: nat, start: nat, p: Parser, graph: Graph,
                 err: Option<Reason>, last: nat, p': Parser, graph': Graph,
                 feeTimes1e8: string -> Option<int>, feeAsIs: string -> Option<int>)
    requires it < |resp| - |ExpectedEnd| && ParserOk(p, it) && start == Skip(resp, it)
    requires err.None? ==> start <= last < |resp| && ParserOk(p', last + 1)
    requires Step(resp, start, p, graph, feeTimes1e8, feeAsIs) == if err.Some? then Err(err.value) else Ok((last, p', graph'))
    ensures ScanFrom(resp, it, p, graph, feeTimes1e8, feeAsIs)
      == if err.Some? then Err(err.value) else ScanFrom(resp, last + 1, p', graph', feeTimes1e8, feeAsIs)
  {
    assert ScanFrom(resp, it, p, graph, feeTimes1e8, feeAsIs) == ScanAt(resp, start, p, graph, feeTimes1e8, feeAsIs);
  }

  /** Once no more than the 23 characters of ExpectedEnd are left, the scan checks the end and the waiting entries. */
  lemma ScanEnd(resp: string, it: nat, p: Parser, graph: Graph,
                feeTimes1e8: string -> Option<int>, feeAsIs: string -> Option<int>)
    requires |resp| - |ExpectedEnd| <= it <= |resp| && ParserOk(p, it)
    ensures ScanFrom(resp, it, p, graph, feeTimes1e8, feeAsIs)
      == if it != |resp| - |ExpectedEnd| || resp[it..] != ExpectedEnd then Err(NotClosedAtEnd)
         else if graph.waiting != map[] then Err(MissingDependency)
         else Ok(graph)
  {
  }

  /** An entry still waiting means some entry named a hash that was never read. */
  lemma Unresolved(g: Graph, depsOf: seq<set<string>>)
    requires GraphInv(g, depsOf) && g.waiting != map[]
    ensures exists j, d :: Named(depsOf, j, d) && d !in g.hashToEntry
  {
    var d :| d in g.waiting;
    var j :| j in g.waiting[d];
    assert j in Lookup(g.waiting, d);
  }

  /** With nothing waiting, every hash an entry named was read. */
  lemma Resolved(g: Graph, depsOf: seq<set<string>>)
    requires GraphInv(g, depsOf) && g.waiting == map[]
    ensures forall j, d :: Named(depsOf, j, d) ==> d in g.hashToEntry
  {
    forall j, d | Named(depsOf, j, d)
      ensures d in g.hashToEntry
    {
      assert Lookup(g.waiting, d) == {};
    }
  }
}
