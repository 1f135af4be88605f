/** Fixed-width integer packing used by the relay protocol (Python's struct.pack /
    struct.unpack_from) and Bitcoin's CompactSize integers. */
module RelayWire {
  import opened Common

  /** 256^w: the number of values a w-byte unsigned integer can hold. */
  function Pow256(w: nat): (p: nat)
    ensures p >= 1
  {
    if w == 0 then 1 else 256 * Pow256(w - 1)
  }

  /** The w-byte little-endian encoding of n (struct '<H', '<I', '<Q'). */
  function LittleEndian(n: nat, w: nat): (r: seq<byte>)
    ensures |r| == w
  {
    if w == 0 then [] else [n % 256] + LittleEndian(n / 256, w - 1)
  }

  /** The w-byte big-endian encoding of n (struct '>H', '>I'). */
  function BigEndian(n: nat, w: nat): (r: seq<byte>)
    ensures |r| == w
  {
    if w == 0 then [] else BigEndian(n / 256, w - 1) + [n % 256]
  }

  /** Reads a w-byte little-endian unsigned integer at data[off..off+w]. */
  function ReadLittleEndian(data: seq<byte>, off: nat, w: nat): (n: nat)
    requires off + w <= |data|
    ensures n < Pow256(w)
    decreases w
  {
    if w == 0 then 0 else data[off] + 256 * ReadLittleEndian(data, off + 1, w - 1)
  }

  /** Reads a w-byte big-endian unsigned integer at data[off..off+w]. */
  function ReadBigEndian(data: seq<byte>, off: nat, w: nat): (n: nat)
    requires off + w <= |data|
    ensures n < Pow256(w)
  {
    if w == 0 then 0 else 256 * ReadBigEndian(data, off, w - 1) + data[off + w - 1]
  }

  lemma {:induction false} LittleEndianRoundTrip(n: nat, w: nat, pre: seq<byte>, post: seq<byte>)
    requires n < Pow256(w)
    ensures ReadLittleEndian(pre + LittleEndian(n, w) + post, |pre|, w) == n
  {
    if w > 0 {
      var enc := LittleEndian(n, w);
      assert enc == [n % 256] + LittleEndian(n / 256, w - 1);
      var all := pre + enc + post;
      assert all == (pre + [n % 256]) + LittleEndian(n / 256, w - 1) + post;
      LittleEndianRoundTrip(n / 256, w - 1, pre + [n % 256], post);
      assert all[|pre|] == n % 256;
    }
  }

  lemma {:induction false} BigEndianRoundTrip(n: nat, w: nat, pre: seq<byte>, post: seq<byte>)
    requires n < Pow256(w)
    ensures ReadBigEndian(pre + BigEndian(n, w) + post, |pre|, w) == n
  {
    if w > 0 {
      var all := pre + BigEndian(n, w) + post;
      assert all == pre + BigEndian(n / 256, w - 1) + ([n % 256] + post);
      BigEndianRoundTrip(n / 256, w - 1, pre, [n % 256] + post);
      assert all[|pre| + w - 1] == n % 256;
    }
  }

  /** Bytes taken by a CompactSize integer whose first byte is b. */
  function VarintWidth(b: byte): (w: nat)
    ensures w in {1, 3, 5, 9}
  {
    if b < 0xfd then 1 else if b == 0xfd then 3 else if b == 0xfe then 5 else 9
  }

  /** decode_varint: the value and the offset just after it, or None where
      unpack_from (or data[offset]) would raise because the buffer is too short. */
  function DecodeVarint(data: seq<byte>, offset: nat): (r: Option<(nat, nat)>)
    ensures r.Some? <==> offset < |data| && offset + VarintWidth(data[offset]) <= |data|
    ensures r.Some? ==> r.value.1 == offset + VarintWidth(data[offset]) && r.value.0 < TwoTo64
    ensures r.Some? && data[offset] < 0xfd ==> r.value.0 == data[offset]
  {
    if offset >= |data| then None
    else if data[offset] < 0xfd then Some((data[offset], offset + 1))
    else if offset + VarintWidth(data[offset]) > |data| then None
    else if data[offset] == 0xfd then Some((ReadLittleEndian(data, offset + 1, 2), offset + 3))
    else if data[offset] == 0xfe then Some((ReadLittleEndian(data, offset + 1, 4), offset + 5))
    else Some((ReadLittleEndian(data, offset + 1, 8), offset + 9))
  }

  /** The block transaction count prefix exactly as the receiver builds it from the
      32-bit header field: None is the ProtocolError raised for 0xffffffff. */
  function CountPrefixAsWritten(n: nat): (r: Option<seq<byte>>)
    requires n < TwoTo32
  {
    if n < 0xfd then Some([n])
    else if n < 0xffff then Some([0xfd] + LittleEndian(n, 2))
    else if n < 0xffffffff then Some([0xfe] + LittleEndian(n, 4))
    else None
  }

  /** Bitcoin's canonical (shortest) CompactSize encoding. */
  function CompactSize(n: nat): (r: seq<byte>)
    requires n < TwoTo64
    ensures 1 <= |r| <= 9 && |r| == VarintWidth(r[0])
  {
    if n < 0xfd then [n]
    else if n <= 0xffff then [0xfd] + LittleEndian(n, 2)
    else if n <= 0xffffffff then [0xfe] + LittleEndian(n, 4)
    else [0xff] + LittleEndian(n, 8)
  }

  /** The transaction count prefix with the boundaries the CompactSize format calls
      for; it is total on 32-bit counts and is the encoding the rest of the model uses. */
  function CountPrefix(n: nat): (r: seq<byte>)
    requires n < TwoTo32
    ensures r == CompactSize(n)
  {
    if n < 0xfd then [n]
    else if n <= 0xffff then [0xfd] + LittleEndian(n, 2)
    else [0xfe] + LittleEndian(n, 4)
  }

  /** Every CompactSize encoding decodes back to its value, whatever follows it. */
  lemma CompactSizeRoundTrip(n: nat, pre: seq<byte>, post: seq<byte>)
    requires n < TwoTo64
    ensures DecodeVarint(pre + CompactSize(n) + post, |pre|) == Some((n, |pre| + |CompactSize(n)|))
  {
    var all := pre + CompactSize(n) + post;
    assert all[|pre|] == CompactSize(n)[0];
    if n >= 0xfd {
      var w := |CompactSize(n)| - 1;
      assert all == (pre + [CompactSize(n)[0]]) + LittleEndian(n, w) + post;
      LittleEndianRoundTrip(n, w, pre + [CompactSize(n)[0]], post);
    }
  }

  /** The as-written prefix agrees with the canonical one below 0xffff, which covers
      every count the receiver accepts (at most 10000). */
  lemma CountPrefixAsWrittenAgrees(n: nat)
    requires n < 0xffff
    ensures CountPrefixAsWritten(n) == Some(CountPrefix(n))
  {
  }

  /** At 0xffff the as-written prefix is the 5-byte form, which Bitcoin's
      non-canonical-size check rejects, and at 0xffffffff it raises. */
  lemma CountPrefixAsWrittenNonCanonical()
    ensures CountPrefixAsWritten(0xffff) == Some([0xfe, 0xff, 0xff, 0, 0])
    ensures CountPrefixAsWritten(0xffff) != Some(CompactSize(0xffff))
    ensures CountPrefixAsWritten(0xffffffff) == None
  {
    assert LittleEndian(0, 1) == [0];
    assert LittleEndian(0, 2) == [0, 0];
    assert LittleEndian(0xff, 3) == [0xff, 0, 0];
    assert LittleEndian(0xffff, 4) == [0xff, 0xff, 0, 0];
    var enc: seq<byte> := [0xfe] + LittleEndian(0xffff, 4);
    assert enc == [0xfe, 0xff, 0xff, 0, 0];
    assert CountPrefixAsWritten(0xffff) == Some(enc);
    assert CompactSize(0xffff) == [0xfd, 0xff, 0xff];
  }

  /** Wherever the as-written prefix is defined it decodes back to the count,
      including the 5-byte form it picks at 0xffff. */
  lemma CountPrefixAsWrittenRoundTrip(n: nat, pre: seq<byte>, post: seq<byte>)
    requires n < 0xffffffff
    ensures CountPrefixAsWritten(n).Some?
    ensures DecodeVarint(pre + CountPrefixAsWritten(n).value + post, |pre|)
         == Some((n, |pre| + |CountPrefixAsWritten(n).value|))
  {
    var enc := CountPrefixAsWritten(n).value;
    var all := pre + enc + post;
    assert all[|pre|] == enc[0];
    if n >= 0xfd {
      var w := |enc| - 1;
      assert enc == [enc[0]] + LittleEndian(n, w);
      assert all == (pre + [enc[0]]) + LittleEndian(n, w) + post;
      LittleEndianRoundTrip(n, w, pre + [enc[0]], post);
    }
  }

  /** pack('>HB', len >> 8, len & 0xff): the 3-byte length of an escaped transaction;
      None where struct.pack raises because len >> 8 does not fit 16 bits. */
  function PackLength24(len: nat): (r: Option<seq<byte>>)
    ensures r.Some? <==> len < Pow256(3)
    ensures r.Some? ==> |r.value| == 3
  {
    if len / 256 > 0xffff then None else Some(BigEndian(len / 256, 2) + [len % 256])
  }

  /** unpack('>HB', d) followed by hi << 8 | lo. */
  function UnpackLength24(d: seq<byte>, off: nat): (len: nat)
    requires off + 3 <= |d|
    ensures len < Pow256(3)
  {
    ReadBigEndian(d, off, 2) * 256 + d[off + 2]
  }

  lemma Length24RoundTrip(len: nat, pre: seq<byte>, post: seq<byte>)
    requires len < Pow256(3)
    ensures PackLength24(len).Some?
    ensures UnpackLength24(pre + PackLength24(len).value + post, |pre|) == len
  {
    var all := pre + PackLength24(len).value + post;
    assert all == pre + BigEndian(len / 256, 2) + ([len % 256] + post);
    BigEndianRoundTrip(len / 256, 2, pre, [len % 256] + post);
  }
}
