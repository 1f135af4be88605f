/**
 * EncodeBase64 of c++/rpcclient.cpp: the encoder used for the HTTP Basic
 * Authorization header of the mempool request.  It walks the input one byte
 * at a time with a three-state `mode` and the bits `left` over from the
 * previous byte, emitting one table character per six bits and padding the
 * last group with '='.
 *
 * Encode is the group-at-a-time reference definition, in two layers: the
 * six-bit values of each group (Sextets) and their characters (Render).
 * EncodeBase64 is the byte-at-a-time loop of the source, proved equal to
 * Encode.  Decode is an independent inverse used to show that the encoding
 * loses nothing.
 */
module Base64 {
  import opened Common

  /**
   * The table pbase64 as runs of consecutive characters: 26 from 'A', 26
   * from 'a', 10 from '0', then '+' and '/'.
   */
  const Runs: seq<(nat, char)> := [(26, 'A'), (26, 'a'), (10, '0'), (1, '+'), (1, '/')]

  /** Entry i of the table made of the runs rs ('=' past its end). */
  function RunChar(rs: seq<(nat, char)>, i: nat): char
    decreases |rs|
  {
    if |rs| == 0 then '='
    else if i >= rs[0].0 then RunChar(rs[1..], i - rs[0].0)
    else if rs[0].1 as int + i < 0xD800 then (rs[0].1 as int + i) as char
    else '='
  }

  /** pbase64[i]: the character for the six-bit value i. */
  function Digit(i: int): char
    requires 0 <= i < 64
  {
    RunChar(Runs, i)
  }

  /** The 64 characters of the table. */
  predicate IsDigit(c: char) {
    'A' <= c <= 'Z' || 'a' <= c <= 'z' || '0' <= c <= '9' || c == '+' || c == '/'
  }

  /** The six-bit value of a table character; None for any other character. */
  function DigitValue(c: char): (v: Option<nat>)
    ensures v.Some? ==> v.value < 64
  {
    if 'A' <= c <= 'Z' then Some(c as int - 'A' as int)
    else if 'a' <= c <= 'z' then Some(c as int - 'a' as int + 26)
    else if '0' <= c <= '9' then Some(c as int - '0' as int + 52)
    else if c == '+' then Some(62)
    else if c == '/' then Some(63)
    else None
  }

  /** The table holds 64 distinct characters: DigitValue reads each one back. */
  lemma DigitTable(i: int)
    requires 0 <= i < 64
    ensures IsDigit(Digit(i)) && DigitValue(Digit(i)) == Some(i)
  {
    var r1 := Runs[1..];
    var r2 := r1[1..];
    var r3 := r2[1..];
    var r4 := r3[1..];
    if i >= 26 {
      assert Digit(i) == RunChar(r1, i - 26);
      if i >= 52 {
        assert RunChar(r1, i - 26) == RunChar(r2, i - 52);
        if i >= 62 {
          assert RunChar(r2, i - 52) == RunChar(r3, i - 62);
          if i == 63 {
            assert RunChar(r3, 1) == RunChar(r4, 0);
          }
        }
      }
    }
  }

  /** The value that stands for a padding '=' among the six-bit values. */
  const Pad: int := 64

  /** The character for a six-bit value, or '=' for Pad. */
  function Symbol(x: int): char {
    if 0 <= x < 64 then Digit(x) else '='
  }

  /** The characters of a sequence of six-bit values. */
  function Render(v: seq<int>): (r: string)
    ensures |r| == |v|
  {
    seq(|v|, j requires 0 <= j < |v| => Symbol(v[j]))
  }

  /**
   * The six-bit values of the encoding of s, group by group: three bytes
   * give four values; a last group of one or two bytes is padded.
   */
  function Sextets(s: seq<byte>): seq<int>
    decreases |s|
  {
    if |s| == 0 then []
    else if |s| == 1 then [s[0] / 4, s[0] % 4 * 16, Pad, Pad]
    else if |s| == 2 then [s[0] / 4, s[0] % 4 * 16 + s[1] / 16, s[1] % 16 * 4, Pad]
    else [s[0] / 4, s[0] % 4 * 16 + s[1] / 16, s[1] % 16 * 4 + s[2] / 64, s[2] % 64] + Sextets(s[3..])
  }

  /** The base64 text of s. */
  function Encode(s: seq<byte>): string {
    Render(Sextets(s))
  }

  /** Number of '=' characters that end the encoding of n bytes. */
  function PadLength(n: nat): (p: nat)
    ensures p < 3
  {
    if n % 3 == 1 then 2 else if n % 3 == 2 then 1 else 0
  }

  /** The encoding's length, the figure the source reserves: (n + 2) / 3 * 4. */
  lemma {:induction false} EncodedLength(s: seq<byte>)
    ensures |Encode(s)| == (|s| + 2) / 3 * 4
    decreases |s|
  {
    if |s| >= 3 {
      EncodedLength(s[3..]);
    }
  }

  /** Which six-bit values are Pad: exactly the last PadLength(|s|). */
  lemma {:induction false} SextetsShape(s: seq<byte>)
    ensures |Sextets(s)| >= PadLength(|s|)
    ensures forall j :: 0 <= j < |Sextets(s)| ==> (Sextets(s)[j] != Pad <==> j < |Sextets(s)| - PadLength(|s|))
    ensures forall j :: 0 <= j < |Sextets(s)| ==> 0 <= Sextets(s)[j] <= Pad
    decreases |s|
  {
    if |s| >= 3 {
      var rest := s[3..];
      SextetsShape(rest);
      assert |rest| % 3 == |s| % 3;
    }
  }

  /**
   * Every character is from the table except the last PadLength(|s|), which
   * are all '=': one '=' when |s| mod 3 is 2, two when it is 1.
   */
  lemma EncodedShape(s: seq<byte>)
    ensures |Encode(s)| >= PadLength(|s|)
    ensures forall i :: 0 <= i < |Encode(s)| - PadLength(|s|) ==> IsDigit(Encode(s)[i])
    ensures forall i :: |Encode(s)| - PadLength(|s|) <= i < |Encode(s)| ==> Encode(s)[i] == '='
  {
    var v := Sextets(s);
    SextetsShape(s);
    forall i | 0 <= i < |v| - PadLength(|s|)
      ensures IsDigit(Encode(s)[i])
    {
      DigitTable(v[i]);
    }
  }

  /** Encoding g whole groups, then the rest, is encoding the concatenation. */
  lemma {:induction false} SextetsAppend(p: seq<byte>, t: seq<byte>, g: nat)
    requires |p| == 3 * g
    ensures Sextets(p + t) == Sextets(p) + Sextets(t)
    decreases g
  {
    if g == 0 {
      assert p + t == t;
    } else {
      assert (p + t)[3..] == p[3..] + t;
      SextetsAppend(p[3..], t, g - 1);
    }
  }

  /** The characters of a sequence followed by one more value. */
  lemma RenderSnoc(v: seq<int>, x: int)
    ensures Render(v + [x]) == Render(v) + [Symbol(x)]
  {
  }

  /** The six-bit values of a base64 text; '=' reads as Pad. */
  function Values(r: string): (v: Option<seq<int>>)
    ensures v.Some? ==> |v.value| == |r|
    decreases |r|
  {
    if |r| == 0 then Some([])
    else
      var x := if r[0] == '=' then Some(Pad) else DigitValue(r[0]);
      match (x, Values(r[1..]))
      case (Some(h), Some(t)) => Some([h] + t)
      case _ => None
  }

  /** Values reads back what Render wrote. */
  lemma {:induction false} ValuesRender(v: seq<int>)
    requires forall j :: 0 <= j < |v| ==> 0 <= v[j] <= Pad
    ensures Values(Render(v)) == Some(v)
    decreases |v|
  {
    if |v| > 0 {
      var r := Render(v);
      assert r[1..] == Render(v[1..]);
      ValuesRender(v[1..]);
      if v[0] < 64 {
        DigitTable(v[0]);
      }
      assert v == [v[0]] + v[1..];
    }
  }

  /** Bytes from six-bit values, four at a time; None when they are not well formed. */
  function Unsextets(v: seq<int>): Option<seq<byte>>
    decreases |v|
  {
    if |v| == 0 then Some([])
    else if |v| < 4 || !(0 <= v[0] < 64) || !(0 <= v[1] < 64) then None
    else
      var b0 := v[0] * 4 + v[1] / 16;
      if |v| == 4 && v[2] == Pad && v[3] == Pad then Some([b0])
      else if !(0 <= v[2] < 64) then None
      else
        var b1 := v[1] % 16 * 16 + v[2] / 4;
        if |v| == 4 && v[3] == Pad then Some([b0, b1])
        else if !(0 <= v[3] < 64) then None
        else match Unsextets(v[4..])
          case None => None
          case Some(rest) => Some([b0, b1, v[2] % 4 * 64 + v[3]] + rest)
  }

  /** Reads base64 text back into bytes; None when it is not well formed. */
  function Decode(r: string): Option<seq<byte>> {
    match Values(r)
    case None => None
    case Some(v) => Unsextets(v)
  }

  /** The arithmetic of one group: the four six-bit values give back the three bytes. */
  lemma GroupValues(a: byte, b: byte, c: byte)
    ensures (a / 4) * 4 + (a % 4 * 16 + b / 16) / 16 == a
    ensures (a % 4 * 16 + b / 16) % 16 * 16 + (b % 16 * 4 + c / 64) / 4 == b
    ensures (b % 16 * 4 + c / 64) % 4 * 64 + c % 64 == c
  {
    assert (a % 4 * 16 + b / 16) / 16 == a % 4;
    assert (a % 4 * 16 + b / 16) % 16 == b / 16;
    assert (b % 16 * 4 + c / 64) / 4 == b % 16;
    assert (b % 16 * 4 + c / 64) % 4 == c / 64;
  }

  /** A last group of one byte reads back. */
  lemma UnsextetsOne(a: byte)
    ensures Unsextets([a / 4, a % 4 * 16, Pad, Pad]) == Some([a])
  {
    GroupValues(a, 0, 0);
  }

  /** A last group of two bytes reads back. */
  lemma UnsextetsTwo(a: byte, b: byte)
    ensures Unsextets([a / 4, a % 4 * 16 + b / 16, b % 16 * 4, Pad]) == Some([a, b])
  {
    GroupValues(a, b, 0);
  }

  /** A whole group reads back in front of whatever the rest reads back to. */
  lemma UnsextetsGroup(a: byte, b: byte, c: byte, rest: seq<int>, r: seq<byte>)
    requires Unsextets(rest) == Some(r)
    ensures Unsextets([a / 4, a % 4 * 16 + b / 16, b % 16 * 4 + c / 64, c % 64] + rest) == Some([a, b, c] + r)
  {
    GroupValues(a, b, c);
    var x0, x1, x2, x3 := a / 4, a % 4 * 16 + b / 16, b % 16 * 4 + c / 64, c % 64;
    assert 0 <= x0 < 64 && 0 <= x1 < 64 && 0 <= x2 < 64 && 0 <= x3 < 64;
    var v := [x0, x1, x2, x3] + rest;
    assert v[0] == x0 && v[1] == x1 && v[2] == x2 && v[3] == x3 && v[4..] == rest;
    assert x0 * 4 + x1 / 16 == a && x1 % 16 * 16 + x2 / 4 == b && x2 % 4 * 64 + x3 == c;
  }

  /** Unsextets undoes Sextets. */
  lemma {:induction false} UnsextetsSextets(s: seq<byte>)
    ensures Unsextets(Sextets(s)) == Some(s)
    decreases |s|
  {
    if |s| == 1 {
      UnsextetsOne(s[0]);
      assert s == [s[0]];
    } else if |s| == 2 {
      UnsextetsTwo(s[0], s[1]);
      assert s == [s[0], s[1]];
    } else if |s| >= 3 {
      var rest := s[3..];
      UnsextetsSextets(rest);
      UnsextetsGroup(s[0], s[1], s[2], Sextets(rest), rest);
      assert s == [s[0], s[1], s[2]] + rest;
    }
  }

  /** Decode undoes Encode: the encoder loses no bit of its input. */
  lemma DecodeEncode(s: seq<byte>)
    ensures Decode(Encode(s)) == Some(s)
  {
    SextetsShape(s);
    ValuesRender(Sextets(s));
    UnsextetsSextets(s);
  }

  /** After g whole groups, the rest of the input is encoded on its own. */
  lemma SextetsAfterGroups(str: seq<byte>, g: nat)
    requires 3 * g <= |str|
    ensures Sextets(str) == Sextets(str[..3 * g]) + Sextets(str[3 * g..])
  {
    var k := 3 * g;
    assert str == str[..k] + str[k..];
    SextetsAppend(str[..k], str[k..], g);
  }

  /** The prefix of g + 1 groups is the prefix of g groups and group g. */
  lemma SextetsGroupAt(str: seq<byte>, g: nat)
    requires 3 * g + 3 <= |str|
    ensures Sextets(str[..3 * (g + 1)]) == Sextets(str[..3 * g])
      + [str[3 * g] / 4, str[3 * g] % 4 * 16 + str[3 * g + 1] / 16, str[3 * g + 1] % 16 * 4 + str[3 * g + 2] / 64, str[3 * g + 2] % 64]
  {
    var k := 3 * g;
    var t := str[k..k + 3];
    assert str[..3 * (g + 1)] == str[..k] + t;
    SextetsAppend(str[..k], t, g);
    assert t[3..] == [];
  }

  /** The six-bit values of the first g whole groups of str, one group after another. */
  function Groups(str: seq<byte>, g: nat): seq<int>
    requires 3 * g <= |str|
  {
    if g == 0 then []
    else
      var k := 3 * (g - 1);
      Groups(str, g - 1) + [str[k] / 4, str[k] % 4 * 16 + str[k + 1] / 16, str[k + 1] % 16 * 4 + str[k + 2] / 64, str[k + 2] % 64]
  }

  /** Groups agrees with the group-wise encoding of the prefix. */
  lemma {:induction false} GroupsSextets(str: seq<byte>, g: nat)
    requires 3 * g <= |str|
    ensures Groups(str, g) == Sextets(str[..3 * g])
  {
    if g > 0 {
      GroupsSextets(str, g - 1);
      SextetsGroupAt(str, g - 1);
    }
  }

  /** The values written for the first `mode` bytes of group g, before the group is complete. */
  function Part(str: seq<byte>, g: nat, mode: nat): seq<int>
    requires mode < 3 && 3 * g + mode <= |str|
  {
    if mode == 0 then []
    else if mode == 1 then [str[3 * g] / 4]
    else [str[3 * g] / 4, str[3 * g] % 4 * 16 + str[3 * g + 1] / 16]
  }

  /** The bits `left` carries after the first `mode` bytes of group g, shifted into place. */
  function Carry(str: seq<byte>, g: nat, mode: nat): (r: int)
    requires 0 < mode < 3 && 3 * g + mode <= |str|
    ensures 0 <= r <= 60 && (mode == 1 ==> r <= 48)
  {
    if mode == 1 then str[3 * g] % 4 * 16 else str[3 * g + 1] % 16 * 4
  }

  /**
   * The characters the encoder has written after the first `mode` bytes of
   * group g, byte by byte: a group's first byte writes one character, its
   * second one more, and its third the last two.
   */
  function Emitted(str: seq<byte>, g: nat, mode: nat): string
    requires mode < 3 && 3 * g + mode <= |str|
    decreases g, mode
  {
    if mode == 1 then Emitted(str, g, 0) + [Digit(str[3 * g] / 4)]
    else if mode == 2 then Emitted(str, g, 1) + [Digit(Carry(str, g, 1) + str[3 * g + 1] / 16)]
    else if g == 0 then []
    else Emitted(str, g - 1, 2) + [Digit(Carry(str, g - 1, 2) + str[3 * (g - 1) + 2] / 64)] + [Digit(str[3 * (g - 1) + 2] % 64)]
  }

  /** The rendering of values followed by one more value. */
  lemma RenderStep(v: seq<int>, w: seq<int>, x: int)
    requires w == v + [x]
    ensures Render(w) == Render(v) + [Symbol(x)]
  {
    RenderSnoc(v, x);
  }

  /** The characters written so far are those of the values written so far. */
  predicate EmittedAsValues(str: seq<byte>, g: nat, mode: nat)
    requires mode < 3 && 3 * g + mode <= |str|
  {
    Emitted(str, g, mode) == Render(Groups(str, g) + Part(str, g, mode))
  }

  /** The first byte of a group keeps the characters in step with the values. */
  lemma FirstByte(str: seq<byte>, g: nat)
    requires 3 * g + 1 <= |str| && EmittedAsValues(str, g, 0)
    ensures EmittedAsValues(str, g, 1)
  {
    var v := Groups(str, g);
    RenderStep(v + Part(str, g, 0), v + Part(str, g, 1), str[3 * g] / 4);
  }

  /** The second byte of a group keeps the characters in step with the values. */
  lemma SecondByte(str: seq<byte>, g: nat)
    requires 3 * g + 2 <= |str| && EmittedAsValues(str, g, 1)
    ensures EmittedAsValues(str, g, 2)
  {
    var v := Groups(str, g);
    RenderStep(v + Part(str, g, 1), v + Part(str, g, 2), Carry(str, g, 1) + str[3 * g + 1] / 16);
  }

  /** The third byte of a group keeps the characters in step with the values. */
  lemma ThirdByte(str: seq<byte>, g: nat)
    requires 3 * g + 3 <= |str| && EmittedAsValues(str, g, 2)
    ensures EmittedAsValues(str, g + 1, 0)
  {
    var u := Groups(str, g) + Part(str, g, 2);
    var k := 3 * g + 2;
    var x: int, y: int := Carry(str, g, 2) + str[k] / 64, str[k] % 64;
    assert Emitted(str, g + 1, 0) == Emitted(str, g, 2) + [Digit(x)] + [Digit(y)];
    GroupCompleted(str, g + 1);
    RenderStep(u, u + [x], x);
    RenderStep(u + [x], Groups(str, g + 1) + Part(str, g + 1, 0), y);
  }

  /** What has been written is the rendering of the whole groups and the values of the part group. */
  lemma {:induction false} EmittedValues(str: seq<byte>, g: nat, mode: nat)
    requires mode < 3 && 3 * g + mode <= |str|
    ensures EmittedAsValues(str, g, mode)
    decreases g, mode
  {
    if mode == 1 {
      EmittedValues(str, g, 0);
      FirstByte(str, g);
    } else if mode == 2 {
      EmittedValues(str, g, 1);
      SecondByte(str, g);
    } else if g > 0 {
      EmittedValues(str, g - 1, 2);
      ThirdByte(str, g - 1);
    }
  }

  /** Group g - 1 is complete: its part and the last two values of its third byte. */
  lemma GroupCompleted(str: seq<byte>, g: nat)
    requires 0 < g && 3 * g <= |str|
    ensures Groups(str, g) + Part(str, g, 0) == Groups(str, g - 1) + Part(str, g - 1, 2)
      + [Carry(str, g - 1, 2) + str[3 * (g - 1) + 2] / 64] + [str[3 * (g - 1) + 2] % 64]
  {
  }

  /** The values of the whole input, from the whole groups, the part group and the carried bits. */
  lemma SextetsFinish(str: seq<byte>, g: nat, mode: nat)
    requires mode < 3 && |str| == 3 * g + mode
    ensures mode == 0 ==> Sextets(str) == Groups(str, g) + Part(str, g, mode)
    ensures mode == 1 ==> Sextets(str) == Groups(str, g) + Part(str, g, mode) + [Carry(str, g, mode)] + [Pad] + [Pad]
    ensures mode == 2 ==> Sextets(str) == Groups(str, g) + Part(str, g, mode) + [Carry(str, g, mode)] + [Pad]
  {
    GroupsSextets(str, g);
    SextetsAfterGroups(str, g);
    var t := str[3 * g..];
    if mode == 0 {
      assert str[..3 * g] == str;
    } else if mode == 1 {
      assert t == [str[3 * g]];
    } else {
      assert t == [str[3 * g], str[3 * g + 1]];
    }
  }

  /**
   * The text after the whole input: with nothing left over it is the
   * encoding; otherwise the carried bits and one or two '=' complete it.
   */
  lemma Finish(str: seq<byte>, g: nat, mode: nat)
    requires mode < 3 && |str| == 3 * g + mode
    ensures mode == 0 ==> Emitted(str, g, mode) == Encode(str)
    ensures mode == 1 ==> Emitted(str, g, mode) + [Digit(Carry(str, g, mode))] + ['='] + ['='] == Encode(str)
    ensures mode == 2 ==> Emitted(str, g, mode) + [Digit(Carry(str, g, mode))] + ['='] == Encode(str)
  {
    EmittedValues(str, g, mode);
    SextetsFinish(str, g, mode);
    var v := Groups(str, g) + Part(str, g, mode);
    if mode != 0 {
      var c := Carry(str, g, mode);
      RenderStep(v, v + [c], c);
      RenderStep(v + [c], v + [c] + [Pad], Pad);
      if mode == 1 {
        RenderStep(v + [c] + [Pad], v + [c] + [Pad] + [Pad], Pad);
      }
    }
  }

  /** What reading byte i, the next byte of group g, adds to the output and to the carry. */
  lemma EmittedByte(str: seq<byte>, g: nat, mode: nat, i: nat)
    requires mode < 3 && i == 3 * g + mode < |str|
    ensures mode == 0 ==>
      Emitted(str, g, 1) == Emitted(str, g, 0) + [Digit(str[i] / 4)] && Carry(str, g, 1) == str[i] % 4 * 16
    ensures mode == 1 ==>
      Emitted(str, g, 2) == Emitted(str, g, 1) + [Digit(Carry(str, g, 1) + str[i] / 16)] && Carry(str, g, 2) == str[i] % 16 * 4
    ensures mode == 2 ==>
      Emitted(str, g + 1, 0) == Emitted(str, g, 2) + [Digit(Carry(str, g, 2) + str[i] / 64)] + [Digit(str[i] % 64)]
  {
  }

  /**
   * One pass of EncodeBase64's loop: byte i, the next byte of group g,
   * writes its characters and leaves its low bits in `left`.
   */
  method EncodeByte(str: seq<byte>, i: nat, ghost g: nat, mode: nat, left: int, out: string)
    returns (out': string, mode': nat, left': int, ghost g': nat)
    requires mode < 3 && i == 3 * g + mode < |str|
    requires out == Emitted(str, g, mode) && (mode != 0 ==> left == Carry(str, g, mode))
    ensures mode' < 3 && i + 1 == 3 * g' + mode'
    ensures out' == Emitted(str, g', mode') && (mode' != 0 ==> left' == Carry(str, g', mode'))
  {
    var enc := str[i];
    EmittedByte(str, g, mode, i);
    if mode == 0 {
      out', left', mode', g' := out + [Digit(enc / 4)], enc % 4 * 16, 1, g;
    } else if mode == 1 {
      out', left', mode', g' := out + [Digit(left + enc / 16)], enc % 16 * 4, 2, g;
    } else {
      out', left', mode', g' := out + [Digit(left + enc / 64)] + [Digit(enc % 64)], left, 0, g + 1;
    }
  }

  /**
   * EncodeBase64: the source's byte-at-a-time loop, proved equal to Encode.
   * `left | (enc >> k)` is written as a sum: the low bits of `left` are zero.
   */
  method EncodeBase64(str: seq<byte>) returns (strRet: string)
    ensures strRet == Encode(str)
  {
    strRet := "";
    var mode, left := 0, 0;
    var i := 0;
    ghost var groups: nat := 0;  // whole groups of three bytes consumed
    while i < |str|
      invariant 0 <= mode < 3 && i <= |str| && i == 3 * groups + mode
      invariant strRet == Emitted(str, groups, mode)
      invariant mode != 0 ==> left == Carry(str, groups, mode)
    {
      strRet, mode, left, groups := EncodeByte(str, i, groups, mode, left, strRet);
      i := i + 1;
    }
    Finish(str, groups, mode);
    if mode != 0 {
      strRet := strRet + [Digit(left)];
      strRet := strRet + ['='];
      if mode == 1 {
        strRet := strRet + ['='];
      }
    }
  }
}
