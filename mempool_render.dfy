/**
 * The verbose getrawmempool result as bitcoind writes it (the request of
 * c++/rpcclient.cpp:359-376), and what the scan of rpcclient.cpp:112-253
 * makes of it: one entry per transaction object, in the order of the
 * objects, with the hash, size, fee and dependencies the object lists.
 */
module MempoolRender {
  import opened Common
  import opened Disconnects
  import opened CNumbers
  import opened MempoolGraph
  import opened MempoolScanner

  /** A field of a transaction object other than "size", "fee" and "depends", with its value as written. */
  datatype Field = Field(name: string, value: string)

  /** One transaction object: its hash, its size, its fee as written, its other fields and the hashes it depends on. */
  datatype MempoolTx = MempoolTx(hash: string, size: nat, fee: string, extra: seq<Field>, deps: seq<string>)

  /** The characters the scan treats specially, and the blank it skips. */
  const Special: string := " \":,[]{}"

  /** Text with none of the special characters: a hash, a number, a word. */
  predicate Plain(s: string) {
    forall k :: 0 <= k < |s| ==> s[k] !in Special
  }

  // ---------------------------------------------------------------------------
  // The text
  // ---------------------------------------------------------------------------

  function Quoted(s: string): string {
    "\"" + s + "\""
  }

  /** A field and the comma after it. */
  function FieldText(f: Field): string {
    Quoted(f.name) + ":" + f.value + ","
  }

  function FieldsText(fs: seq<Field>): string
    decreases |fs|
  {
    if |fs| == 0 then "" else FieldText(fs[0]) + FieldsText(fs[1..])
  }

  /** The object's key and the brace that opens it. */
  function HashText(hash: string): string {
    Quoted(hash) + ":" + "{"
  }

  function Bracketed(deps: seq<string>): string {
    "[" + QuotedList(deps) + "]"
  }

  /** The "depends" array, the last field, and the brace that closes the object. */
  function DependsText(deps: seq<string>): string {
    Quoted("depends") + ":" + Bracketed(deps) + "}"
  }

  function SizeField(t: MempoolTx): Field {
    Field("size", DecimalString(t.size))
  }

  function FeeField(t: MempoolTx): Field {
    Field("fee", t.fee)
  }

  function TxText(t: MempoolTx): string {
    HashText(t.hash) + FieldText(SizeField(t)) + FieldText(FeeField(t)) + FieldsText(t.extra) + DependsText(t.deps)
  }

  /** The transaction objects, separated by commas. */
  function TxsText(ts: seq<MempoolTx>): string
    decreases |ts|
  {
    if |ts| == 0 then "" else TxText(ts[0]) + (if |ts| == 1 then "" else ",") + TxsText(ts[1..])
  }

  /** The response body after its opening `{"result":{`. */
  function Response(ts: seq<MempoolTx>): string {
    TxsText(ts) + ExpectedEnd
  }

  // ---------------------------------------------------------------------------
  // The entries the objects describe
  // ---------------------------------------------------------------------------

  function DepSet(t: MempoolTx): set<string> {
    Listed(t.deps)
  }

  function DepSets(ts: seq<MempoolTx>): seq<set<string>> {
    seq(|ts|, i requires 0 <= i < |ts| => DepSet(ts[i]))
  }

  function Hashes(ts: seq<MempoolTx>): set<string> {
    set i | 0 <= i < |ts| :: ts[i].hash
  }

  /**
   * An object the scan reads without error: plain texts, a size that fits a
   * uint32 and is not zero, a fee the conversion accepts, and no other field
   * named "size" or "fee".
   */
  predicate WellFormed(t: MempoolTx, feeTimes1e8: string -> Option<int>) {
    Plain(t.hash) && 0 < t.size < TwoTo32 && Plain(t.fee) && feeTimes1e8(t.fee).Some?
    && (forall k :: 0 <= k < |t.extra| ==> ExtraOk(t.extra[k]))
    && (forall k :: 0 <= k < |t.deps| ==> Plain(t.deps[k]))
  }

  predicate ExtraOk(f: Field) {
    Plain(f.name) && Plain(f.value) && f.name != "size" && f.name != "fee"
  }

  /** Well-formed objects with distinct hashes, each dependency one of the hashes: a consistent mempool. */
  predicate Listing(ts: seq<MempoolTx>, feeTimes1e8: string -> Option<int>) {
    (forall i :: 0 <= i < |ts| ==> WellFormed(ts[i], feeTimes1e8))
    && (forall i, j :: 0 <= i < j < |ts| ==> ts[i].hash != ts[j].hash)
    && (forall i :: 0 <= i < |ts| ==> DepSet(ts[i]) <= Hashes(ts))
  }

  /** The entry the '}' of the object adds: its fee rate, size, number of distinct dependencies and hash. */
  function EntryOf(t: MempoolTx, feeTimes1e8: string -> Option<int>): Entry
    requires WellFormed(t, feeTimes1e8)
  {
    Entry(FeePerKb(feeTimes1e8(t.fee).value % TwoTo64, t.size).value, t.size, |DepSet(t)|, t.hash, {})
  }

  /** The graph after the objects, one after the other. */
  function BuildOn(g: Graph, ts: seq<MempoolTx>, feeTimes1e8: string -> Option<int>): Graph
    requires forall i :: 0 <= i < |ts| ==> WellFormed(ts[i], feeTimes1e8)
    decreases |ts|, 1
  {
    if |ts| == 0 then g else BuildNext(g, ts, feeTimes1e8)
  }

  /** The first object's entry added, then the others. */
  function BuildNext(g: Graph, ts: seq<MempoolTx>, feeTimes1e8: string -> Option<int>): Graph
    requires |ts| > 0 && forall i :: 0 <= i < |ts| ==> WellFormed(ts[i], feeTimes1e8)
    decreases |ts|, 0
  {
    BuildOn(Added(g, EntryOf(ts[0], feeTimes1e8), DepSet(ts[0])), ts[1..], feeTimes1e8)
  }

  /** The end checks of the scan. */
  function Finish(g: Graph): Result<Graph, Reason> {
    if g.waiting != map[] then Err(MissingDependency) else Ok(g)
  }

  // ---------------------------------------------------------------------------
  // Positions in the response
  // ---------------------------------------------------------------------------

  /** s is written in resp at position a. */
  predicate At(resp: string, a: nat, s: string) {
    a + |s| <= |resp| && resp[a..a + |s|] == s
  }

  lemma AtSplit(resp: string, a: nat, x: string, y: string)
    requires At(resp, a, x + y)
    ensures At(resp, a, x) && At(resp, a + |x|, y)
  {
    assert resp[a..a + |x|] == (x + y)[..|x|];
    assert resp[a + |x|..a + |x| + |y|] == (x + y)[|x|..];
  }

  lemma AtSplit3(resp: string, a: nat, x: string, y: string, z: string, j: nat, k: nat)
    requires At(resp, a, x + y + z) && j == a + |x| && k == j + |y|
    ensures At(resp, a, x) && At(resp, j, y) && At(resp, k, z) && k + |z| == a + |x + y + z|
  {
    AtSplit(resp, a, x + y, z);
    AtSplit(resp, a, x, y);
  }

  lemma AtSplit4(resp: string, a: nat, w: string, x: string, y: string, z: string, i: nat, j: nat, k: nat)
    requires At(resp, a, w + x + y + z) && i == a + |w| && j == i + |x| && k == j + |y|
    ensures At(resp, a, w) && At(resp, i, x) && At(resp, j, y) && At(resp, k, z) && k + |z| == a + |w + x + y + z|
  {
    AtSplit3(resp, a, w + x, y, z, j, k);
    AtSplit(resp, a, w, x);
  }

  lemma AtSplit5(resp: string, a: nat, v: string, w: string, x: string, y: string, z: string, i: nat, j: nat, k: nat, l: nat)
    requires At(resp, a, v + w + x + y + z) && i == a + |v| && j == i + |w| && k == j + |x| && l == k + |y|
    ensures At(resp, a, v) && At(resp, i, w) && At(resp, j, x) && At(resp, k, y) && At(resp, l, z)
    ensures l + |z| == a + |v + w + x + y + z|
  {
    AtSplit4(resp, a, v + w, x, y, z, j, k, l);
    AtSplit(resp, a, v, w);
  }

  lemma AtChar(resp: string, a: nat, c: string)
    requires At(resp, a, c) && |c| == 1
    ensures resp[a] == c[0]
  {
    assert resp[a] == resp[a..a + 1][0];
  }

  /** Plain text at a: none of its characters is special. */
  lemma PlainAt(resp: string, a: nat, s: string)
    requires At(resp, a, s) && Plain(s)
    ensures forall k :: a <= k < a + |s| ==> resp[k] !in Special
  {
    forall k | a <= k < a + |s|
      ensures resp[k] !in Special
    {
      assert resp[k] == resp[a..a + |s|][k - a];
    }
  }

  /** A quoted text at a: the quotes, and the plain text between them. */
  lemma QuotedLayout(resp: string, a: nat, s: string, e: nat)
    requires At(resp, a, Quoted(s)) && Plain(s) && e == a + 1 + |s|
    ensures resp[a] == '"' && resp[e] == '"' && resp[a + 1..e] == s
    ensures forall k :: a + 1 <= k < e ==> resp[k] !in Special
  {
    AtSplit3(resp, a, "\"", s, "\"", a + 1, e);
    AtChar(resp, a, "\"");
    AtChar(resp, e, "\"");
    PlainAt(resp, a + 1, s);
  }

  // ---------------------------------------------------------------------------
  // The scan, a token at a time
  // ---------------------------------------------------------------------------

  /** Between objects: no string open, no object open, nothing read. */
  predicate Top(p: Parser) {
    p.stringStart == -1 && !p.inTx && !p.inFieldString && !p.inFieldValue
    && p.txSize == -1 && p.txFee == TwoTo64 - 1 && p.txDeps == {}
  }

  /** Inside an object, before a field name. */
  predicate InName(q: Parser) {
    q.stringStart == -1 && q.inTx && q.inFieldString && !q.inFieldValue
    && LongMin <= q.txSize <= LongMax && q.txFee < TwoTo64
  }

  /** The parser after a quoted text: the hash outside an object, a field name inside one. */
  function Labelled(p: Parser, s: string): Parser {
    if !p.inTx then p.(txHash := s) else p.(fieldString := s)
  }

  /** A character other than '[', '}' and a blank moves the scan on by one, with the parser's transition. */
  lemma Advance(resp: string, i: nat, p: Parser, g: Graph,
                feeTimes1e8: string -> Option<int>, feeAsIs: string -> Option<int>, p': Parser)
    requires i < |resp| - |ExpectedEnd| && ParserOk(p, i)
    requires resp[i] != '[' && resp[i] != '}' && resp[i] != ' '
    requires Transition(p, resp, i, feeTimes1e8) == Ok(p')
    ensures ScanFrom(resp, i, p, g, feeTimes1e8, feeAsIs) == ScanFrom(resp, i + 1, p', g, feeTimes1e8, feeAsIs)
  {
    assert Step(resp, i, p, g, feeTimes1e8, feeAsIs) == Ok((i, p', g));
    ScanTurn(resp, i, i, p, g, None, i, p', g, feeTimes1e8, feeAsIs);
  }

  /** A '"' moves the scan on by one, through Quote. */
  lemma AdvanceQuote(resp: string, i: nat, p: Parser, g: Graph,
                     feeTimes1e8: string -> Option<int>, feeAsIs: string -> Option<int>, k: nat, p': Parser)
    requires i < |resp| - |ExpectedEnd| && ParserOk(p, i) && resp[i] == '"' && Quote(p, resp, i) == Ok(p') && k == i + 1
    ensures ParserOk(p', k)
    ensures ScanFrom(resp, i, p, g, feeTimes1e8, feeAsIs) == ScanFrom(resp, k, p', g, feeTimes1e8, feeAsIs)
  {
    Advance(resp, i, p, g, feeTimes1e8, feeAsIs, p');
  }

  /** A ':' moves the scan on by one, through Colon. */
  lemma AdvanceColon(resp: string, i: nat, p: Parser, g: Graph,
                     feeTimes1e8: string -> Option<int>, feeAsIs: string -> Option<int>, k: nat, p': Parser)
    requires i < |resp| - |ExpectedEnd| && ParserOk(p, i) && resp[i] == ':' && Colon(p, i) == Ok(p') && k == i + 1
    ensures ParserOk(p', k)
    ensures ScanFrom(resp, i, p, g, feeTimes1e8, feeAsIs) == ScanFrom(resp, k, p', g, feeTimes1e8, feeAsIs)
  {
    Advance(resp, i, p, g, feeTimes1e8, feeAsIs, p');
  }

  /** A ',' moves the scan on by one, through Comma. */
  lemma AdvanceComma(resp: string, i: nat, p: Parser, g: Graph,
                     feeTimes1e8: string -> Option<int>, feeAsIs: string -> Option<int>, k: nat, p': Parser)
    requires i < |resp| - |ExpectedEnd| && ParserOk(p, i) && resp[i] == ',' && Comma(p, resp, i, feeTimes1e8) == Ok(p') && k == i + 1
    ensures ParserOk(p', k)
    ensures ScanFrom(resp, i, p, g, feeTimes1e8, feeAsIs) == ScanFrom(resp, k, p', g, feeTimes1e8, feeAsIs)
  {
    Advance(resp, i, p, g, feeTimes1e8, feeAsIs, p');
  }

  /** A '{' moves the scan on by one, through OpenBrace. */
  lemma AdvanceBrace(resp: string, i: nat, p: Parser, g: Graph,
                     feeTimes1e8: string -> Option<int>, feeAsIs: string -> Option<int>, k: nat, p': Parser)
    requires i < |resp| - |ExpectedEnd| && ParserOk(p, i) && resp[i] == '{' && OpenBrace(p) == Ok(p') && k == i + 1
    ensures ParserOk(p', k)
    ensures ScanFrom(resp, i, p, g, feeTimes1e8, feeAsIs) == ScanFrom(resp, k, p', g, feeTimes1e8, feeAsIs)
  {
    Advance(resp, i, p, g, feeTimes1e8, feeAsIs, p');
  }

  /** Plain characters leave the parser as it is. */
  lemma {:induction false} PlainRun(resp: string, i: nat, j: nat, p: Parser, g: Graph,
                                    feeTimes1e8: string -> Option<int>, feeAsIs: string -> Option<int>)
    requires i <= j <= |resp| - |ExpectedEnd| && ParserOk(p, i)
    requires forall k :: i <= k < j ==> resp[k] !in Special
    ensures ScanFrom(resp, i, p, g, feeTimes1e8, feeAsIs) == ScanFrom(resp, j, p, g, feeTimes1e8, feeAsIs)
    decreases j - i
  {
    if i < j {
      Advance(resp, i, p, g, feeTimes1e8, feeAsIs, p);
      PlainRun(resp, i + 1, j, p, g, feeTimes1e8, feeAsIs);
    }
  }

  /** A quoted plain text outside a field value names the object or the field. */
  lemma QuotedAt(resp: string, i: nat, s: string, p: Parser, g: Graph,
                 feeTimes1e8: string -> Option<int>, feeAsIs: string -> Option<int>, j: nat, p': Parser)
    requires At(resp, i, Quoted(s)) && Plain(s) && i + |s| + 2 <= |resp| - |ExpectedEnd|
    requires ParserOk(p, i) && p.stringStart == -1 && (!p.inTx || p.inFieldString)
    requires j == i + |s| + 2 && p' == Labelled(p, s)
    ensures ScanFrom(resp, i, p, g, feeTimes1e8, feeAsIs) == ScanFrom(resp, j, p', g, feeTimes1e8, feeAsIs)
  {
    var e := i + 1 + |s|;
    QuotedLayout(resp, i, s, e);
    var p1 := p.(stringStart := i + 1);
    AdvanceQuote(resp, i, p, g, feeTimes1e8, feeAsIs, i + 1, p1);
    PlainRun(resp, i + 1, e, p1, g, feeTimes1e8, feeAsIs);
    AdvanceQuote(resp, e, p1, g, feeTimes1e8, feeAsIs, j, p');
  }

  /** The parts of a field at a: the name, the colon, the value and the comma. */
  lemma FieldLayout(resp: string, a: nat, f: Field, b: nat, c: nat, j: nat)
    requires At(resp, a, FieldText(f)) && Plain(f.value)
    requires b == a + |f.name| + 2 && c == b + 1 + |f.value| && j == a + |FieldText(f)|
    ensures At(resp, a, Quoted(f.name)) && resp[b] == ':' && resp[c] == ',' && j == c + 1
    ensures resp[c - |f.value|..c] == f.value
    ensures forall k :: b + 1 <= k < c ==> resp[k] !in Special
  {
    AtSplit4(resp, a, Quoted(f.name), ":", f.value, ",", b, b + 1, c);
    AtChar(resp, b, ":");
    AtChar(resp, c, ",");
    PlainAt(resp, b + 1, f.value);
  }

  /** The comma after a field value hands the value to FieldValue. */
  lemma CommaValue(resp: string, c: nat, q: Parser, name: string, value: string,
                   feeTimes1e8: string -> Option<int>, q2: Parser)
    requires |value| <= c < |resp| && resp[c - |value|..c] == value
    requires InName(q)
    requires q2 == q.(fieldString := name, inFieldValue := true, inFieldString := false, fieldValueStart := c - |value|)
    ensures ParserOk(q2, c)
    ensures Comma(q2, resp, c, feeTimes1e8) == FieldValue(q.(fieldString := name, fieldValueStart := c - |value|), value, feeTimes1e8)
  {
    assert q2.(inFieldValue := false, inFieldString := true) == q.(fieldString := name, fieldValueStart := c - |value|);
  }

  /** What FieldValue makes of a field value the conversions accept. */
  lemma FieldValueOk(q: Parser, name: string, value: string, feeTimes1e8: string -> Option<int>, v: int)
    requires InName(q)
    requires name == "size" ==> Stol(value).Some?
    requires name == "fee" ==> feeTimes1e8(value).Some?
    ensures var r := FieldValue(q.(fieldString := name, fieldValueStart := v), value, feeTimes1e8);
      r.Ok? && InName(r.value) && r.value.txHash == q.txHash && r.value.txDeps == q.txDeps
      && r.value.txSize == (if name == "size" then Stol(value).value else q.txSize)
      && r.value.txFee == (if name == "fee" then feeTimes1e8(value).value % TwoTo64 else q.txFee)
  {
  }

  /**
   * A field `"name":value,` inside an object: "size" is read with std::stol,
   * "fee" with the fee conversion, any other field leaves the transaction
   * as it is.
   */
  lemma FieldAt(resp: string, a: nat, f: Field, q: Parser, g: Graph,
                feeTimes1e8: string -> Option<int>, feeAsIs: string -> Option<int>, j: nat) returns (q': Parser)
    requires At(resp, a, FieldText(f)) && a + |FieldText(f)| <= |resp| - |ExpectedEnd|
    requires Plain(f.name) && Plain(f.value) && InName(q)
    requires f.name == "size" ==> Stol(f.value).Some?
    requires f.name == "fee" ==> feeTimes1e8(f.value).Some?
    requires j == a + |FieldText(f)|
    ensures InName(q') && q'.txHash == q.txHash && q'.txDeps == q.txDeps
    ensures q'.txSize == if f.name == "size" then Stol(f.value).value else q.txSize
    ensures q'.txFee == if f.name == "fee" then feeTimes1e8(f.value).value % TwoTo64 else q.txFee
    ensures ScanFrom(resp, a, q, g, feeTimes1e8, feeAsIs) == ScanFrom(resp, j, q', g, feeTimes1e8, feeAsIs)
  {
    var b := a + |f.name| + 2;
    var c := b + 1 + |f.value|;
    FieldLayout(resp, a, f, b, c, j);
    var q1 := q.(fieldString := f.name);
    var q2 := q.(fieldString := f.name, inFieldValue := true, inFieldString := false, fieldValueStart := b + 1);
    FieldValueOk(q, f.name, f.value, feeTimes1e8, b + 1);
    q' := FieldValue(q.(fieldString := f.name, fieldValueStart := b + 1), f.value, feeTimes1e8).value;
    assert ScanFrom(resp, a, q, g, feeTimes1e8, feeAsIs) == ScanFrom(resp, b, q1, g, feeTimes1e8, feeAsIs) by {
      QuotedAt(resp, a, f.name, q, g, feeTimes1e8, feeAsIs, b, q1);
    }
    assert ScanFrom(resp, b, q1, g, feeTimes1e8, feeAsIs) == ScanFrom(resp, b + 1, q2, g, feeTimes1e8, feeAsIs) by {
      AdvanceColon(resp, b, q1, g, feeTimes1e8, feeAsIs, b + 1, q2);
    }
    assert ScanFrom(resp, b + 1, q2, g, feeTimes1e8, feeAsIs) == ScanFrom(resp, c, q2, g, feeTimes1e8, feeAsIs) by {
      PlainRun(resp, b + 1, c, q2, g, feeTimes1e8, feeAsIs);
    }
    assert ScanFrom(resp, c, q2, g, feeTimes1e8, feeAsIs) == ScanFrom(resp, j, q', g, feeTimes1e8, feeAsIs) by {
      CommaValue(resp, c, q, f.name, f.value, feeTimes1e8, q2);
      AdvanceComma(resp, c, q2, g, feeTimes1e8, feeAsIs, j, q');
    }
  }

  /** Fields other than "size" and "fee" leave the transaction as it is. */
  lemma {:induction false} ExtrasAt(resp: string, a: nat, fs: seq<Field>, q: Parser, g: Graph,
                                    feeTimes1e8: string -> Option<int>, feeAsIs: string -> Option<int>, j: nat) returns (q': Parser)
    requires At(resp, a, FieldsText(fs)) && a + |FieldsText(fs)| <= |resp| - |ExpectedEnd|
    requires forall k :: 0 <= k < |fs| ==> ExtraOk(fs[k])
    requires InName(q) && j == a + |FieldsText(fs)|
    ensures InName(q') && q'.txHash == q.txHash && q'.txDeps == q.txDeps
    ensures q'.txSize == q.txSize && q'.txFee == q.txFee
    ensures ScanFrom(resp, a, q, g, feeTimes1e8, feeAsIs) == ScanFrom(resp, j, q', g, feeTimes1e8, feeAsIs)
    decreases |fs|
  {
    if |fs| == 0 {
      q' := q;
    } else {
      var b := a + |FieldText(fs[0])|;
      AtSplit(resp, a, FieldText(fs[0]), FieldsText(fs[1..]));
      assert ExtraOk(fs[0]);
      var q1 := FieldAt(resp, a, fs[0], q, g, feeTimes1e8, feeAsIs, b);
      q' := ExtrasAt(resp, b, fs[1..], q1, g, feeTimes1e8, feeAsIs, j);
    }
  }

  /** The array at i: '[', the quoted hashes, and the ']' the array loop stops at. */
  lemma BracketDeps(resp: string, i: nat, deps: seq<string>, f: nat)
    requires At(resp, i, Bracketed(deps)) && i + |Bracketed(deps)| < |resp|
    requires forall k :: 0 <= k < |deps| ==> Plain(deps[k])
    requires f == i + 1 + |QuotedList(deps)|
    ensures resp[i] == '[' && f + 1 == i + |Bracketed(deps)|
    ensures Deps(resp, i, {}) == (None, f, Listed(deps))
  {
    AtSplit3(resp, i, "[", QuotedList(deps), "]", i + 1, f);
    AtChar(resp, i, "[");
    AtChar(resp, f, "]");
    forall k | 0 <= k < |deps|
      ensures Unquoted(deps[k]) && forall c :: 0 <= c < |deps[k]| ==> deps[k][c] != ']'
    {
      assert Plain(deps[k]);
    }
    DepsOfQuotedList(resp, i, deps);
  }

  /** The "depends" array: its hashes become the transaction's dependencies, and the scan goes on after the ']'. */
  lemma BracketAt(resp: string, i: nat, deps: seq<string>, q: Parser, g: Graph,
                  feeTimes1e8: string -> Option<int>, feeAsIs: string -> Option<int>, e: nat, q': Parser)
    requires At(resp, i, Bracketed(deps)) && i + |Bracketed(deps)| <= |resp| - |ExpectedEnd|
    requires forall k :: 0 <= k < |deps| ==> Plain(deps[k])
    requires ParserOk(q, i) && q.txDeps == {}
    requires e == i + |Bracketed(deps)| && q' == q.(txDeps := Listed(deps))
    ensures ScanFrom(resp, i, q, g, feeTimes1e8, feeAsIs) == ScanFrom(resp, e, q', g, feeTimes1e8, feeAsIs)
  {
    var f := i + 1 + |QuotedList(deps)|;
    BracketDeps(resp, i, deps, f);
    assert Step(resp, i, q, g, feeTimes1e8, feeAsIs) == Ok((f, q', g));
    ScanTurn(resp, i, i, q, g, None, f, q', g, feeTimes1e8, feeAsIs);
  }

  /** The "depends" value ends with the '}': the conversions leave the parser as it is. */
  lemma ClosingDepends(resp: string, i: nat, q: Parser, feeAsIs: string -> Option<int>)
    requires i < |resp| && ParserOk(q, i) && q.inFieldValue && q.fieldString == "depends"
    ensures Closing(q, resp, i, feeAsIs) == Ok(q.(inFieldValue := false))
  {
    assert q.fieldString != "size" && q.fieldString != "fee";
  }

  /** The '}' of an object with a size and a new hash adds its entry. */
  lemma CloseAdds(resp: string, i: nat, q: Parser, g: Graph, feeAsIs: string -> Option<int>, p': Parser,
                    e: Entry, d: set<string>, g': Graph)
    requires i < |resp| && ParserOk(q, i) && q.inTx && q.inFieldValue
    requires Closing(q, resp, i, feeAsIs) == Ok(q.(inFieldValue := false))
    requires 0 < q.txSize < TwoTo32 && q.txHash !in g.hashToEntry
    requires p' == q.(inFieldValue := false, inTx := false, txSize := -1, txFee := TwoTo64 - 1, txDeps := {})
    requires e == Entry(FeePerKb(q.txFee, q.txSize).value, q.txSize, |q.txDeps|, q.txHash, {}) && d == q.txDeps
    requires g' == Added(g, e, d)
    ensures Close(q, resp, i, g, feeAsIs) == Ok((p', g'))
  {
    SmallSize(q.txSize);
  }

  lemma SmallSize(x: int)
    requires 0 <= x < TwoTo32
    ensures x % TwoTo32 == x
  {
  }

  /** The '}' after the "depends" array: the transaction's entry is added and the parser is back between objects. */
  lemma CloseAt(resp: string, i: nat, q: Parser, g: Graph,
                feeTimes1e8: string -> Option<int>, feeAsIs: string -> Option<int>, j: nat,
                e: Entry, d: set<string>, g': Graph) returns (p': Parser)
    requires i < |resp| - |ExpectedEnd| && resp[i] == '}' && ParserOk(q, i) && j == i + 1
    requires q.stringStart == -1 && q.inTx && q.inFieldValue && q.fieldString == "depends"
    requires 0 < q.txSize < TwoTo32 && q.txHash !in g.hashToEntry
    requires e == Entry(FeePerKb(q.txFee, q.txSize).value, q.txSize, |q.txDeps|, q.txHash, {}) && d == q.txDeps
    requires g' == Added(g, e, d)
    ensures Top(p')
    ensures ScanFrom(resp, i, q, g, feeTimes1e8, feeAsIs) == ScanFrom(resp, j, p', g', feeTimes1e8, feeAsIs)
  {
    p' := q.(inFieldValue := false, inTx := false, txSize := -1, txFee := TwoTo64 - 1, txDeps := {});
    ClosingDepends(resp, i, q, feeAsIs);
    CloseAdds(resp, i, q, g, feeAsIs, p', e, d, g');
    assert Step(resp, i, q, g, feeTimes1e8, feeAsIs) == Ok((i, p', g'));
    ScanTurn(resp, i, i, q, g, None, i, p', g', feeTimes1e8, feeAsIs);
  }

  /** Letters are plain. */
  lemma LettersPlain(s: string)
    requires forall k :: 0 <= k < |s| ==> 'a' <= s[k] <= 'z'
    ensures Plain(s)
  {
    forall k | 0 <= k < |s|
      ensures s[k] !in Special
    {
      assert s[k] !in Special by {
        assert 'a' <= s[k] <= 'z';
      }
    }
  }

  /** The names of the three fields the scan reads are plain, and differ. */
  lemma NamesPlain()
    ensures Plain("size") && Plain("fee") && Plain("depends")
    ensures "size" != "fee"
  {
    LettersPlain("size");
    LettersPlain("fee");
    LettersPlain("depends");
    assert |"size"| != |"fee"|;
  }

  /** The parts of the "depends" field at a: the name, the colon, the array and the closing brace. */
  lemma DependsLayout(resp: string, a: nat, deps: seq<string>, b: nat, e: nat)
    requires At(resp, a, DependsText(deps)) && b == a + 9 && e + 1 == a + |DependsText(deps)|
    ensures At(resp, a, Quoted("depends")) && resp[b] == ':' && At(resp, b + 1, Bracketed(deps))
    ensures resp[e] == '}' && e == b + 1 + |Bracketed(deps)|
  {
    var e' := b + 1 + |Bracketed(deps)|;
    assert |Quoted("depends")| == 9;
    AtSplit4(resp, a, Quoted("depends"), ":", Bracketed(deps), "}", b, b + 1, e');
    AtChar(resp, b, ":");
    AtChar(resp, e', "}");
  }

  /** The last field, "depends", up to the '}' that closes the object: the dependencies are read. */
  lemma DependsAt(resp: string, a: nat, deps: seq<string>, q: Parser, g: Graph,
                  feeTimes1e8: string -> Option<int>, feeAsIs: string -> Option<int>, e: nat) returns (q': Parser)
    requires At(resp, a, DependsText(deps)) && a + |DependsText(deps)| <= |resp| - |ExpectedEnd|
    requires forall k :: 0 <= k < |deps| ==> Plain(deps[k])
    requires InName(q) && q.txDeps == {} && e + 1 == a + |DependsText(deps)|
    ensures resp[e] == '}' && ParserOk(q', e) && q'.stringStart == -1 && q'.inTx && q'.inFieldValue
    ensures q'.fieldString == "depends" && q'.txDeps == Listed(deps)
    ensures q'.txHash == q.txHash && q'.txSize == q.txSize && q'.txFee == q.txFee
    ensures ScanFrom(resp, a, q, g, feeTimes1e8, feeAsIs) == ScanFrom(resp, e, q', g, feeTimes1e8, feeAsIs)
  {
    var b := a + 9;
    DependsLayout(resp, a, deps, b, e);
    var q1 := q.(fieldString := "depends");
    var q2 := q1.(inFieldValue := true, inFieldString := false, fieldValueStart := b + 1);
    q' := q2.(txDeps := Listed(deps));
    assert ScanFrom(resp, a, q, g, feeTimes1e8, feeAsIs) == ScanFrom(resp, b, q1, g, feeTimes1e8, feeAsIs) by {
      NamesPlain();
      QuotedAt(resp, a, "depends", q, g, feeTimes1e8, feeAsIs, b, q1);
    }
    assert ScanFrom(resp, b, q1, g, feeTimes1e8, feeAsIs) == ScanFrom(resp, b + 1, q2, g, feeTimes1e8, feeAsIs) by {
      AdvanceColon(resp, b, q1, g, feeTimes1e8, feeAsIs, b + 1, q2);
    }
    BracketAt(resp, b + 1, deps, q2, g, feeTimes1e8, feeAsIs, e, q');
  }

  // ---------------------------------------------------------------------------
  // Whole objects, and the whole response
  // ---------------------------------------------------------------------------

  /** Decimal digits are plain. */
  lemma DigitsPlain(s: string)
    requires AllDigits(s)
    ensures Plain(s)
  {
    forall k | 0 <= k < |s|
      ensures s[k] !in Special
    {
      assert IsDigit(s[k]);
    }
  }

  /** The parts of an object at a. */
  lemma TxLayout(resp: string, a: nat, t: MempoolTx, c0: nat, c1: nat, c2: nat, c3: nat, j: nat)
    requires At(resp, a, TxText(t))
    requires c0 == a + |HashText(t.hash)| && c1 == c0 + |FieldText(SizeField(t))|
    requires c2 == c1 + |FieldText(FeeField(t))| && c3 == c2 + |FieldsText(t.extra)|
    requires j == c3 + |DependsText(t.deps)|
    ensures At(resp, a, HashText(t.hash)) && At(resp, c0, FieldText(SizeField(t))) && At(resp, c1, FieldText(FeeField(t)))
    ensures At(resp, c2, FieldsText(t.extra)) && At(resp, c3, DependsText(t.deps)) && j == a + |TxText(t)|
  {
    AtSplit5(resp, a, HashText(t.hash), FieldText(SizeField(t)), FieldText(FeeField(t)), FieldsText(t.extra), DependsText(t.deps),
             c0, c1, c2, c3);
  }

  /** The object's key and its '{': the hash is read and the object opens. */
  lemma HeadAt(resp: string, a: nat, h: string, p: Parser, g: Graph,
               feeTimes1e8: string -> Option<int>, feeAsIs: string -> Option<int>, c0: nat, p2: Parser)
    requires At(resp, a, HashText(h)) && Plain(h) && a + |HashText(h)| <= |resp| - |ExpectedEnd| && Top(p)
    requires c0 == a + |HashText(h)| && p2 == p.(txHash := h, inTx := true, inFieldString := true)
    ensures ScanFrom(resp, a, p, g, feeTimes1e8, feeAsIs) == ScanFrom(resp, c0, p2, g, feeTimes1e8, feeAsIs)
  {
    var b := a + |h| + 2;
    AtSplit3(resp, a, Quoted(h), ":", "{", b, b + 1);
    AtChar(resp, b, ":");
    AtChar(resp, b + 1, "{");
    var p1 := p.(txHash := h);
    assert ScanFrom(resp, a, p, g, feeTimes1e8, feeAsIs) == ScanFrom(resp, b, p1, g, feeTimes1e8, feeAsIs) by {
      QuotedAt(resp, a, h, p, g, feeTimes1e8, feeAsIs, b, p1);
    }
    assert ScanFrom(resp, b, p1, g, feeTimes1e8, feeAsIs) == ScanFrom(resp, b + 1, p1, g, feeTimes1e8, feeAsIs) by {
      AdvanceColon(resp, b, p1, g, feeTimes1e8, feeAsIs, b + 1, p1);
    }
    AdvanceBrace(resp, b + 1, p1, g, feeTimes1e8, feeAsIs, c0, p2);
  }

  /** The size field is read back as the size. */
  lemma SizeFieldOk(t: MempoolTx)
    requires t.size < TwoTo32
    ensures Plain(SizeField(t).value) && Stol(SizeField(t).value) == Some(t.size)
  {
    DigitsPlain(DecimalString(t.size));
    ParseDecimalString(t.size, LongMin, LongMax);
  }

  /**
   * The fields of an object, up to its '}': the size, the fee and the
   * dependencies are read, and the parser holds what the '}' adds.
   */
  lemma BodyAt(resp: string, t: MempoolTx, q: Parser, g: Graph,
               feeTimes1e8: string -> Option<int>, feeAsIs: string -> Option<int>,
               c0: nat, c1: nat, c2: nat, c3: nat, j: nat) returns (q': Parser)
    requires At(resp, c0, FieldText(SizeField(t))) && At(resp, c1, FieldText(FeeField(t)))
    requires At(resp, c2, FieldsText(t.extra)) && At(resp, c3, DependsText(t.deps))
    requires c1 == c0 + |FieldText(SizeField(t))| && c2 == c1 + |FieldText(FeeField(t))| && c3 == c2 + |FieldsText(t.extra)|
    requires j == c3 + |DependsText(t.deps)| && j <= |resp| - |ExpectedEnd|
    requires WellFormed(t, feeTimes1e8) && InName(q) && q.txDeps == {}
    ensures resp[j - 1] == '}' && ParserOk(q', j - 1) && q'.stringStart == -1 && q'.inTx && q'.inFieldValue
    ensures q'.fieldString == "depends" && q'.txHash == q.txHash && q'.txDeps == DepSet(t)
    ensures q'.txSize == t.size && q'.txFee == feeTimes1e8(t.fee).value % TwoTo64
    ensures ScanFrom(resp, c0, q, g, feeTimes1e8, feeAsIs) == ScanFrom(resp, j - 1, q', g, feeTimes1e8, feeAsIs)
  {
    SizeFieldOk(t);
    NamesPlain();
    var q3 := FieldAt(resp, c0, SizeField(t), q, g, feeTimes1e8, feeAsIs, c1);
    var q4 := FieldAt(resp, c1, FeeField(t), q3, g, feeTimes1e8, feeAsIs, c2);
    var q5 := ExtrasAt(resp, c2, t.extra, q4, g, feeTimes1e8, feeAsIs, c3);
    q' := DependsAt(resp, c3, t.deps, q5, g, feeTimes1e8, feeAsIs, j - 1);
  }

  /** The parser that read an object's size, fee, hash and dependencies holds the entry the '}' adds. */
  lemma EntryRead(t: MempoolTx, feeTimes1e8: string -> Option<int>, q: Parser)
    requires WellFormed(t, feeTimes1e8)
    requires q.txSize == t.size && q.txFee == feeTimes1e8(t.fee).value % TwoTo64 && q.txHash == t.hash && q.txDeps == DepSet(t)
    ensures 0 < q.txSize < TwoTo32
    ensures EntryOf(t, feeTimes1e8) == Entry(FeePerKb(q.txFee, q.txSize).value, q.txSize, |q.txDeps|, q.txHash, {})
  {
  }

  /** A whole object between two others: its entry is added, and the parser is back between objects. */
  lemma ObjectAt(resp: string, a: nat, t: MempoolTx, p: Parser, g: Graph,
                 feeTimes1e8: string -> Option<int>, feeAsIs: string -> Option<int>,
                 c0: nat, c1: nat, c2: nat, c3: nat, j: nat,
                 e: Entry, d: set<string>, g': Graph) returns (p': Parser)
    requires At(resp, a, HashText(t.hash)) && At(resp, c0, FieldText(SizeField(t))) && At(resp, c1, FieldText(FeeField(t)))
    requires At(resp, c2, FieldsText(t.extra)) && At(resp, c3, DependsText(t.deps))
    requires c0 == a + |HashText(t.hash)| && c1 == c0 + |FieldText(SizeField(t))|
    requires c2 == c1 + |FieldText(FeeField(t))| && c3 == c2 + |FieldsText(t.extra)|
    requires j == c3 + |DependsText(t.deps)| && j <= |resp| - |ExpectedEnd|
    requires Top(p) && WellFormed(t, feeTimes1e8) && t.hash !in g.hashToEntry
    requires e == EntryOf(t, feeTimes1e8) && d == DepSet(t) && g' == Added(g, e, d)
    ensures Top(p')
    ensures ScanFrom(resp, a, p, g, feeTimes1e8, feeAsIs) == ScanFrom(resp, j, p', g', feeTimes1e8, feeAsIs)
  {
    var p2 := p.(txHash := t.hash, inTx := true, inFieldString := true);
    HeadAt(resp, a, t.hash, p, g, feeTimes1e8, feeAsIs, c0, p2);
    var q := BodyAt(resp, t, p2, g, feeTimes1e8, feeAsIs, c0, c1, c2, c3, j);
    EntryRead(t, feeTimes1e8, q);
    p' := CloseAt(resp, j - 1, q, g, feeTimes1e8, feeAsIs, j, e, d, g');
  }

  /** The objects still to be read: well formed, with distinct hashes none of which the graph has yet. */
  predicate Unseen(ts: seq<MempoolTx>, g: Graph, feeTimes1e8: string -> Option<int>) {
    (forall i :: 0 <= i < |ts| ==> WellFormed(ts[i], feeTimes1e8))
    && (forall i, j :: 0 <= i < j < |ts| ==> ts[i].hash != ts[j].hash)
    && (forall i :: 0 <= i < |ts| ==> ts[i].hash !in g.hashToEntry)
  }

  /** Once the first object is in the graph, the others are still unseen. */
  lemma UnseenTail(ts: seq<MempoolTx>, g: Graph, g1: Graph, feeTimes1e8: string -> Option<int>)
    requires |ts| > 0 && Unseen(ts, g, feeTimes1e8)
    requires g1.hashToEntry.Keys == g.hashToEntry.Keys + {ts[0].hash}
    ensures Unseen(ts[1..], g1, feeTimes1e8)
  {
    forall i | 0 <= i < |ts| - 1
      ensures ts[1..][i].hash !in g1.hashToEntry
    {
      assert ts[1..][i] == ts[i + 1];
      assert ts[0].hash != ts[i + 1].hash;
    }
  }

  /** The first of the objects: the scan and the graph move on past it. */
  lemma ObjectStep(resp: string, a: nat, ts: seq<MempoolTx>, p: Parser, g: Graph,
                   feeTimes1e8: string -> Option<int>, feeAsIs: string -> Option<int>, j: nat) returns (p1: Parser, g1: Graph)
    requires |ts| > 0 && At(resp, a, TxText(ts[0])) && a + |TxText(ts[0])| <= |resp| - |ExpectedEnd| && j == a + |TxText(ts[0])|
    requires Top(p) && Unseen(ts, g, feeTimes1e8)
    ensures Top(p1) && ScanFrom(resp, a, p, g, feeTimes1e8, feeAsIs) == ScanFrom(resp, j, p1, g1, feeTimes1e8, feeAsIs)
    ensures BuildOn(g, ts, feeTimes1e8) == BuildOn(g1, ts[1..], feeTimes1e8)
    ensures g1.hashToEntry.Keys == g.hashToEntry.Keys + {ts[0].hash}
  {
    var e, d := EntryOf(ts[0], feeTimes1e8), DepSet(ts[0]);
    g1 := Added(g, e, d);
    var t := ts[0];
    var c0 := a + |HashText(t.hash)|;
    var c1 := c0 + |FieldText(SizeField(t))|;
    var c2 := c1 + |FieldText(FeeField(t))|;
    var c3 := c2 + |FieldsText(t.extra)|;
    TxLayout(resp, a, t, c0, c1, c2, c3, j);
    p1 := ObjectAt(resp, a, t, p, g, feeTimes1e8, feeAsIs, c0, c1, c2, c3, j, e, d, g1);
    assert BuildOn(g, ts, feeTimes1e8) == BuildNext(g, ts, feeTimes1e8);
  }

  /** The first object, the separator after it and the others, one after the other at a. */
  lemma TxsSplit(resp: string, a: nat, ts: seq<MempoolTx>, sep: string, j: nat, k: nat)
    requires |ts| > 0 && At(resp, a, TxsText(ts))
    requires sep == (if |ts| == 1 then "" else ",") && j == a + |TxText(ts[0])| && k == j + |sep|
    ensures At(resp, a, TxText(ts[0])) && At(resp, j, sep) && At(resp, k, TxsText(ts[1..]))
    ensures k + |TxsText(ts[1..])| == a + |TxsText(ts)|
  {
    AtSplit3(resp, a, TxText(ts[0]), sep, TxsText(ts[1..]), j, k);
  }

  /** The ',' between two objects leaves the parser where it is. */
  lemma Separator(resp: string, j: nat, sep: string, p: Parser, g: Graph,
                  feeTimes1e8: string -> Option<int>, feeAsIs: string -> Option<int>, k: nat)
    requires sep == "" || sep == ","
    requires At(resp, j, sep) && j + |sep| <= |resp| - |ExpectedEnd| && k == j + |sep| && Top(p)
    ensures ScanFrom(resp, j, p, g, feeTimes1e8, feeAsIs) == ScanFrom(resp, k, p, g, feeTimes1e8, feeAsIs)
  {
    if sep == "," {
      AtChar(resp, j, ",");
      AdvanceComma(resp, j, p, g, feeTimes1e8, feeAsIs, k, p);
    }
  }

  /**
   * The objects from a on, up to ExpectedEnd: the scan adds their entries
   * in order and ends with the check for dependencies never read.
   */
  lemma {:induction false} ObjectsAt(resp: string, a: nat, ts: seq<MempoolTx>, p: Parser, g: Graph,
                                     feeTimes1e8: string -> Option<int>, feeAsIs: string -> Option<int>)
    requires At(resp, a, TxsText(ts)) && a + |TxsText(ts)| == |resp| - |ExpectedEnd|
    requires resp[|resp| - |ExpectedEnd|..] == ExpectedEnd && Top(p)
    requires Unseen(ts, g, feeTimes1e8)
    ensures ScanFrom(resp, a, p, g, feeTimes1e8, feeAsIs) == Finish(BuildOn(g, ts, feeTimes1e8))
    decreases |ts|
  {
    if |ts| == 0 {
      ScanEnd(resp, a, p, g, feeTimes1e8, feeAsIs);
    } else {
      var sep := if |ts| == 1 then "" else ",";
      var j := a + |TxText(ts[0])|;
      var k := j + |sep|;
      TxsSplit(resp, a, ts, sep, j, k);
      var p1, g1 := ObjectStep(resp, a, ts, p, g, feeTimes1e8, feeAsIs, j);
      Separator(resp, j, sep, p1, g1, feeTimes1e8, feeAsIs, k);
      UnseenTail(ts, g, g1, feeTimes1e8);
      ObjectsAt(resp, k, ts[1..], p1, g1, feeTimes1e8, feeAsIs);
    }
  }

  /** The entries of b from base on, stripped of their dependents, are those of the objects in order. */
  predicate EntriesFrom(b: Graph, base: nat, ts: seq<MempoolTx>, feeTimes1e8: string -> Option<int>)
    requires forall i :: 0 <= i < |ts| ==> WellFormed(ts[i], feeTimes1e8)
  {
    base + |ts| <= |b.txn|
    && forall i :: 0 <= i < |ts| ==> b.txn[base + i].(setDeps := {}) == EntryOf(ts[i], feeTimes1e8)
  }

  /** The entries of b below n, stripped of their dependents, are those of g. */
  predicate KeepsEntries(b: Graph, g: Graph, n: nat) {
    n <= |b.txn| && n <= |g.txn|
    && forall i :: 0 <= i < n ==> b.txn[i].(setDeps := {}) == g.txn[i].(setDeps := {})
  }

  /** An entry for the first object followed by entries for the others. */
  lemma EntriesCons(b: Graph, base: nat, ts: seq<MempoolTx>, feeTimes1e8: string -> Option<int>, next: nat)
    requires |ts| > 0 && forall i :: 0 <= i < |ts| ==> WellFormed(ts[i], feeTimes1e8)
    requires next == base + 1 && base < |b.txn|
    requires b.txn[base].(setDeps := {}) == EntryOf(ts[0], feeTimes1e8)
    requires EntriesFrom(b, next, ts[1..], feeTimes1e8)
    ensures EntriesFrom(b, base, ts, feeTimes1e8)
  {
    forall i | 0 <= i < |ts|
      ensures b.txn[base + i].(setDeps := {}) == EntryOf(ts[i], feeTimes1e8)
    {
      if i > 0 {
        assert ts[1..][i - 1] == ts[i];
        assert next + (i - 1) == base + i;
      }
    }
  }

  /** Keeping the entries below n is transitive, and covers the entry at n kept by the second step. */
  lemma KeepsTrans(b: Graph, g1: Graph, g: Graph, n: nat, next: nat)
    requires next == n + 1 && KeepsEntries(b, g1, next) && KeepsEntries(g1, g, n)
    ensures KeepsEntries(b, g, n)
    ensures b.txn[n].(setDeps := {}) == g1.txn[n].(setDeps := {})
  {
  }

  /** The dependencies of the first object followed by those of the others. */
  lemma DepSetsCons(depsOf: seq<set<string>>, ts: seq<MempoolTx>)
    requires |ts| > 0
    ensures (depsOf + [DepSet(ts[0])]) + DepSets(ts[1..]) == depsOf + DepSets(ts)
  {
    assert DepSets(ts) == [DepSet(ts[0])] + DepSets(ts[1..]);
  }

  /** The first object added to a graph that keeps the invariant: the invariant holds with its dependencies appended, and its entry comes last. */
  lemma AddStep(g: Graph, depsOf: seq<set<string>>, ts: seq<MempoolTx>, feeTimes1e8: string -> Option<int>) returns (g1: Graph)
    requires |ts| > 0 && GraphInv(g, depsOf) && Unseen(ts, g, feeTimes1e8)
    ensures BuildOn(g, ts, feeTimes1e8) == BuildOn(g1, ts[1..], feeTimes1e8)
    ensures GraphInv(g1, depsOf + [DepSet(ts[0])]) && |g1.txn| == |g.txn| + 1
    ensures KeepsEntries(g1, g, |g.txn|)
    ensures g1.txn[|g.txn|].(setDeps := {}) == EntryOf(ts[0], feeTimes1e8)
    ensures g1.hashToEntry.Keys == g.hashToEntry.Keys + {ts[0].hash}
  {
    var e, d := EntryOf(ts[0], feeTimes1e8), DepSet(ts[0]);
    g1 := Added(g, e, d);
    AddedKeepsInv(g, depsOf, e, d);
    AddedFacts(g, e, d);
    assert BuildOn(g, ts, feeTimes1e8) == BuildNext(g, ts, feeTimes1e8);
  }

  /** The objects added one after the other keep the graph's invariant, with their dependencies appended. */
  lemma {:induction false} BuildFacts(g: Graph, depsOf: seq<set<string>>, ts: seq<MempoolTx>, feeTimes1e8: string -> Option<int>,
                                      b: Graph, all: seq<set<string>>)
    requires GraphInv(g, depsOf) && Unseen(ts, g, feeTimes1e8)
    requires b == BuildOn(g, ts, feeTimes1e8) && all == depsOf + DepSets(ts)
    ensures GraphInv(b, all) && |b.txn| == |g.txn| + |ts|
    decreases |ts|
  {
    if |ts| == 0 {
      assert all == depsOf;
    } else {
      var g1 := AddStep(g, depsOf, ts, feeTimes1e8);
      UnseenTail(ts, g, g1, feeTimes1e8);
      DepSetsCons(depsOf, ts);
      BuildFacts(g1, depsOf + [DepSet(ts[0])], ts[1..], feeTimes1e8, b, all);
    }
  }

  /** Each object added after the others keeps the entries before it and adds its own entry at the end. */
  lemma {:induction false} BuildEntries(g: Graph, depsOf: seq<set<string>>, ts: seq<MempoolTx>, feeTimes1e8: string -> Option<int>, b: Graph)
    requires GraphInv(g, depsOf) && Unseen(ts, g, feeTimes1e8)
    requires b == BuildOn(g, ts, feeTimes1e8)
    ensures |b.txn| == |g.txn| + |ts|
    ensures KeepsEntries(b, g, |g.txn|)
    ensures EntriesFrom(b, |g.txn|, ts, feeTimes1e8)
    decreases |ts|
  {
    if |ts| > 0 {
      var k := |g.txn|;
      var g1 := AddStep(g, depsOf, ts, feeTimes1e8);
      UnseenTail(ts, g, g1, feeTimes1e8);
      BuildEntries(g1, depsOf + [DepSet(ts[0])], ts[1..], feeTimes1e8, b);
      KeepsTrans(b, g1, g, k, k + 1);
      EntriesCons(b, k, ts, feeTimes1e8, k + 1);
    }
  }

  /** The entries built from the objects carry their hashes, in order. */
  lemma BuiltHashes(g: Graph, ts: seq<MempoolTx>, feeTimes1e8: string -> Option<int>)
    requires forall i :: 0 <= i < |ts| ==> WellFormed(ts[i], feeTimes1e8)
    requires EntriesFrom(g, 0, ts, feeTimes1e8)
    ensures forall i :: 0 <= i < |ts| ==> g.txn[i].hexHash == ts[i].hash
  {
    forall i | 0 <= i < |ts|
      ensures g.txn[i].hexHash == ts[i].hash
    {
      assert g.txn[0 + i].(setDeps := {}).hexHash == EntryOf(ts[i], feeTimes1e8).hexHash;
    }
  }

  /** A hash waited for by an entry that lists only hashes of entries of the graph is itself in the graph's index. */
  lemma WaitedAreIndexed(g: Graph, depsOf: seq<set<string>>, ts: seq<MempoolTx>)
    requires |g.txn| == |ts| && HashIndex(g)
    requires forall i :: 0 <= i < |ts| ==> g.txn[i].hexHash == ts[i].hash
    requires forall j :: 0 <= j < |depsOf| ==> depsOf[j] <= Hashes(ts)
    requires forall d :: d in g.waiting ==> g.waiting[d] != {}
    requires forall d, j :: j in Lookup(g.waiting, d) ==> Named(depsOf, j, d)
    ensures forall d :: d in g.waiting ==> d in g.hashToEntry
  {
    forall d | d in g.waiting
      ensures d in g.hashToEntry
    {
      var j :| j in g.waiting[d];
      assert j in Lookup(g.waiting, d);
      assert d in Hashes(ts);
      var m :| 0 <= m < |ts| && ts[m].hash == d;
      assert g.txn[m].hexHash == d;
    }
  }

  /** When every dependency names an entry of the graph, nothing is left waiting. */
  lemma NoneWaiting(g: Graph, depsOf: seq<set<string>>, ts: seq<MempoolTx>)
    requires |g.txn| == |ts| == |depsOf| && HashIndex(g) && Pending(g, depsOf)
    requires forall i :: 0 <= i < |ts| ==> g.txn[i].hexHash == ts[i].hash
    requires forall j :: 0 <= j < |depsOf| ==> depsOf[j] <= Hashes(ts)
    ensures g.waiting == map[]
  {
    WaitedAreIndexed(g, depsOf, ts);
  }

  /** Entry i lists j as a dependent exactly when object j depends on object i's hash. */
  lemma DependentsOf(g: Graph, depsOf: seq<set<string>>, ts: seq<MempoolTx>)
    requires |g.txn| == |ts| && depsOf == DepSets(ts) && Edges(g.txn, depsOf)
    requires forall i :: 0 <= i < |ts| ==> g.txn[i].hexHash == ts[i].hash
    ensures forall i, j :: 0 <= i < |ts| ==> (j in g.txn[i].setDeps <==> 0 <= j < |ts| && ts[i].hash in DepSet(ts[j]))
  {
    forall i, j | 0 <= i < |ts|
      ensures j in g.txn[i].setDeps <==> 0 <= j < |ts| && ts[i].hash in DepSet(ts[j])
    {
      assert g.txn[i].hexHash == ts[i].hash;
      if 0 <= j < |ts| {
        assert depsOf[j] == DepSet(ts[j]);
      }
    }
  }

  /** The roots are exactly the objects without dependencies. */
  lemma RootsOf(g: Graph, depsOf: seq<set<string>>, ts: seq<MempoolTx>)
    requires |g.txn| == |ts| && depsOf == DepSets(ts) && Roots(g, depsOf)
    ensures forall x :: x in g.vectorToSort <==> 0 <= x < |ts| && DepSet(ts[x]) == {}
  {
    forall x
      ensures x in g.vectorToSort <==> 0 <= x < |ts| && DepSet(ts[x]) == {}
    {
      if 0 <= x < |ts| {
        assert depsOf[x] == DepSet(ts[x]);
      }
    }
  }

  /** The objects of a consistent mempool are all unseen before the first is added. */
  lemma ListingUnseen(ts: seq<MempoolTx>, feeTimes1e8: string -> Option<int>)
    requires Listing(ts, feeTimes1e8)
    ensures Unseen(ts, EmptyGraph, feeTimes1e8)
  {
  }

  /** The graph built from a consistent mempool keeps the invariant, with one entry per object. */
  lemma BuiltInv(ts: seq<MempoolTx>, feeTimes1e8: string -> Option<int>, g: Graph)
    requires Unseen(ts, EmptyGraph, feeTimes1e8) && g == BuildOn(EmptyGraph, ts, feeTimes1e8)
    ensures GraphInv(g, DepSets(ts)) && |g.txn| == |ts|
  {
    EmptyGraphInv();
    BuildFacts(EmptyGraph, [], ts, feeTimes1e8, g, DepSets(ts));
  }

  /** The graph built from a consistent mempool, given as g: one entry per object, carrying its hash. */
  lemma BuiltHashesOf(ts: seq<MempoolTx>, feeTimes1e8: string -> Option<int>, g: Graph)
    requires Listing(ts, feeTimes1e8) && g == BuildOn(EmptyGraph, ts, feeTimes1e8)
    ensures |g.txn| == |ts| && forall i :: 0 <= i < |ts| ==> g.txn[i].hexHash == ts[i].hash
  {
    EmptyGraphInv();
    BuildEntries(EmptyGraph, [], ts, feeTimes1e8, g);
    BuiltHashes(g, ts, feeTimes1e8);
  }

  /** The graph built from a consistent mempool, given as g: its entries are the objects', in order. */
  lemma BuiltEntries(ts: seq<MempoolTx>, feeTimes1e8: string -> Option<int>, g: Graph)
    requires Listing(ts, feeTimes1e8) && g == BuildOn(EmptyGraph, ts, feeTimes1e8)
    ensures |g.txn| == |ts|
    ensures forall i :: 0 <= i < |ts| ==> g.txn[i].(setDeps := {}) == EntryOf(ts[i], feeTimes1e8)
  {
    EmptyGraphInv();
    BuildEntries(EmptyGraph, [], ts, feeTimes1e8, g);
    forall i | 0 <= i < |ts|
      ensures g.txn[i].(setDeps := {}) == EntryOf(ts[i], feeTimes1e8)
    {
      assert g.txn[0 + i] == g.txn[i];
    }
  }

  /** The graph built from a consistent mempool, given as g: nothing is left waiting and it is ready for the selection. */
  lemma BuiltReady(ts: seq<MempoolTx>, feeTimes1e8: string -> Option<int>, g: Graph)
    requires Listing(ts, feeTimes1e8) && g == BuildOn(EmptyGraph, ts, feeTimes1e8)
    ensures g.waiting == map[] && Ready(g.txn, g.vectorToSort)
  {
    ListingUnseen(ts, feeTimes1e8);
    BuiltInv(ts, feeTimes1e8, g);
    BuiltHashesOf(ts, feeTimes1e8, g);
    NoneWaiting(g, DepSets(ts), ts);
    ResolvedIsReady(g, DepSets(ts));
  }

  /** The graph built from a consistent mempool, given as g: its dependents and roots are the objects'. */
  lemma BuiltLinks(ts: seq<MempoolTx>, feeTimes1e8: string -> Option<int>, g: Graph)
    requires Listing(ts, feeTimes1e8) && g == BuildOn(EmptyGraph, ts, feeTimes1e8)
    ensures |g.txn| == |ts|
    ensures forall i, j :: 0 <= i < |ts| ==> (j in g.txn[i].setDeps <==> 0 <= j < |ts| && ts[i].hash in DepSet(ts[j]))
    ensures forall x :: x in g.vectorToSort <==> 0 <= x < |ts| && DepSet(ts[x]) == {}
  {
    ListingUnseen(ts, feeTimes1e8);
    BuiltInv(ts, feeTimes1e8, g);
    BuiltHashesOf(ts, feeTimes1e8, g);
    DependentsOf(g, DepSets(ts), ts);
    RootsOf(g, DepSets(ts), ts);
  }

  /**
   * The graph a consistent mempool builds: one entry per object in order,
   * each with its object's hash, size, fee rate and number of distinct
   * dependencies; entry i lists j as a dependent exactly when object j
   * depends on object i's hash; the roots are the objects without
   * dependencies; nothing is left waiting, and the graph is ready for the
   * selection.
   */
  lemma BuildRendered(ts: seq<MempoolTx>, feeTimes1e8: string -> Option<int>)
    requires Listing(ts, feeTimes1e8)
    ensures var g := BuildOn(EmptyGraph, ts, feeTimes1e8);
      |g.txn| == |ts| && g.waiting == map[] && Ready(g.txn, g.vectorToSort)
      && (forall i :: 0 <= i < |ts| ==> g.txn[i].(setDeps := {}) == EntryOf(ts[i], feeTimes1e8))
      && (forall i, j :: 0 <= i < |ts| ==> (j in g.txn[i].setDeps <==> 0 <= j < |ts| && ts[i].hash in DepSet(ts[j])))
      && (forall x :: x in g.vectorToSort <==> 0 <= x < |ts| && DepSet(ts[x]) == {})
  {
    BuiltEntries(ts, feeTimes1e8, BuildOn(EmptyGraph, ts, feeTimes1e8));
    BuiltReady(ts, feeTimes1e8, BuildOn(EmptyGraph, ts, feeTimes1e8));
    BuiltLinks(ts, feeTimes1e8, BuildOn(EmptyGraph, ts, feeTimes1e8));
  }

  /**
   * The response body bitcoind writes for a consistent mempool scans to
   * the graph of BuildRendered: ScanMempool, which is Scan, returns exactly
   * these entries, in the order of the objects.
   */
  lemma ScanRendered(ts: seq<MempoolTx>, feeTimes1e8: string -> Option<int>, feeAsIs: string -> Option<int>)
    requires Listing(ts, feeTimes1e8)
    ensures Scan(Response(ts), feeTimes1e8, feeAsIs) == Ok(BuildOn(EmptyGraph, ts, feeTimes1e8))
  {
    var resp := Response(ts);
    assert At(resp, 0, TxsText(ts)) by {
      assert resp[0..|TxsText(ts)|] == TxsText(ts);
    }
    assert resp[|resp| - |ExpectedEnd|..] == ExpectedEnd;
    ObjectsAt(resp, 0, ts, Initial, EmptyGraph, feeTimes1e8, feeAsIs);
    BuildRendered(ts, feeTimes1e8);
  }
}
