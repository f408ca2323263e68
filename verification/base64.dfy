/**
 * java.util.Base64.getEncoder(): the base64 encoding of section 4 of RFC 4648
 * (standard alphabet of Table 1, '=' padding, most significant bit first),
 * together with its strict inverse.
 */
module Base64 {
  import opened Bytes
  import opened Wrappers

  /** The 64-character alphabet of Table 1 of RFC 4648, in value order. */
  const Alphabet: string := "ABCDEFGHIJKLMNOPQRSTUVWXYZ" + "abcdefghijklmnopqrstuvwxyz" + "0123456789" + "+/"

  /** The padding character. */
  const Pad: char := '='

  predicate IsAlphabetChar(c: char) {
    'A' <= c <= 'Z' || 'a' <= c <= 'z' || '0' <= c <= '9' || c == '+' || c == '/'
  }

  /** The character for a 6-bit value. */
  function CharOf(v: int): (c: char)
    requires 0 <= v < 64
    ensures IsAlphabetChar(c)
  {
    if v < 26 then ('A' as int + v) as char
    else if v < 52 then ('a' as int + v - 26) as char
    else if v < 62 then ('0' as int + v - 52) as char
    else if v == 62 then '+'
    else '/'
  }

  /** The 6-bit value of an alphabet character. */
  function ValueOf(c: char): (v: int)
    requires IsAlphabetChar(c)
    ensures 0 <= v < 64
    ensures CharOf(v) == c
  {
    if 'A' <= c <= 'Z' then c as int - 'A' as int
    else if 'a' <= c <= 'z' then c as int - 'a' as int + 26
    else if '0' <= c <= '9' then c as int - '0' as int + 52
    else if c == '+' then 62
    else 63
  }

  /** The character function agrees with the alphabet table, entry by entry. */
  lemma CharOfTable(v: int)
    requires 0 <= v < 64
    ensures CharOf(v) == Alphabet[v]
  {
  }

  /** Distinct values get distinct characters. */
  lemma ValueOfCharOf(v: int)
    requires 0 <= v < 64
    ensures ValueOf(CharOf(v)) == v
  {
  }

  /** True when s[i] is an alphabet character (as opposed to padding or anything else). */
  predicate AlphaAt(s: string, i: int)
    requires 0 <= i < |s|
  {
    IsAlphabetChar(s[i])
  }

  /** Alphabet characters everywhere except the last `pads` positions, which hold '='. */
  predicate PaddedText(r: string, pads: nat) {
    forall i :: 0 <= i < |r| ==> if |r| - pads <= i then r[i] == Pad else IsAlphabetChar(r[i])
  }

  /** Splitting three bytes into four sextets and joining them back is the identity. */
  lemma SplitJoin(b0: byte, b1: byte, b2: byte)
    ensures var v0, v1, v2, v3 := b0 / 4, (b0 % 4) * 16 + b1 / 16, (b1 % 16) * 4 + b2 / 64, b2 % 64;
      0 <= v1 < 64 && 0 <= v2 < 64
      && v0 * 4 + v1 / 16 == b0 && (v1 % 16) * 16 + v2 / 4 == b1 && (v2 % 4) * 64 + v3 == b2
  {
  }

  /** Joining four sextets into three bytes and splitting them again is the identity. */
  lemma JoinSplit(v0: int, v1: int, v2: int, v3: int)
    requires 0 <= v0 < 64 && 0 <= v1 < 64 && 0 <= v2 < 64 && 0 <= v3 < 64
    ensures var b0, b1, b2 := v0 * 4 + v1 / 16, (v1 % 16) * 16 + v2 / 4, (v2 % 4) * 64 + v3;
      0 <= b0 < 256 && 0 <= b1 < 256 && 0 <= b2 < 256
      && b0 / 4 == v0 && (b0 % 4) * 16 + b1 / 16 == v1 && (b1 % 16) * 4 + b2 / 64 == v2 && b2 % 64 == v3
  {
  }

  /** A full 24-bit group: three bytes as four characters, most significant bits first. */
  function EncodeGroup(b0: byte, b1: byte, b2: byte): (r: string)
    ensures |r| == 4 && AlphaAt(r, 0) && AlphaAt(r, 1) && AlphaAt(r, 2) && AlphaAt(r, 3)
    ensures PaddedText(r, 0)
    ensures ValueOf(r[0]) * 262144 + ValueOf(r[1]) * 4096 + ValueOf(r[2]) * 64 + ValueOf(r[3])
         == b0 * 65536 + b1 * 256 + b2
  {
    var v0, v1, v2, v3 := b0 / 4, (b0 % 4) * 16 + b1 / 16, (b1 % 16) * 4 + b2 / 64, b2 % 64;
    ValueOfCharOf(v0);
    ValueOfCharOf(v1);
    ValueOfCharOf(v2);
    ValueOfCharOf(v3);
    [CharOf(v0), CharOf(v1), CharOf(v2), CharOf(v3)]
  }

  /** A final group of two bytes: 16 bits padded with two zero bits, then one '='. */
  function EncodeTwo(b0: byte, b1: byte): (r: string)
    ensures |r| == 4 && AlphaAt(r, 0) && AlphaAt(r, 1) && AlphaAt(r, 2) && r[3] == Pad
    ensures PaddedText(r, 1)
    ensures ValueOf(r[0]) * 4096 + ValueOf(r[1]) * 64 + ValueOf(r[2]) == (b0 * 256 + b1) * 4
  {
    var v0, v1, v2 := b0 / 4, (b0 % 4) * 16 + b1 / 16, (b1 % 16) * 4;
    ValueOfCharOf(v0);
    ValueOfCharOf(v1);
    ValueOfCharOf(v2);
    [CharOf(v0), CharOf(v1), CharOf(v2), Pad]
  }

  /** A final group of one byte: 8 bits padded with four zero bits, then "==". */
  function EncodeOne(b0: byte): (r: string)
    ensures |r| == 4 && AlphaAt(r, 0) && AlphaAt(r, 1) && r[2] == Pad && r[3] == Pad
    ensures PaddedText(r, 2)
    ensures ValueOf(r[0]) * 64 + ValueOf(r[1]) == b0 * 16
  {
    var v0, v1 := b0 / 4, (b0 % 4) * 16;
    ValueOfCharOf(v0);
    ValueOfCharOf(v1);
    [CharOf(v0), CharOf(v1), Pad, Pad]
  }

  /** How many '=' characters end the encoding of n bytes. */
  function PadCount(n: nat): (p: nat)
    ensures p <= 2
  {
    (3 - n % 3) % 3
  }

  /** The encoded length of n bytes: four characters per started group of three. */
  function EncodedLength(n: nat): nat {
    4 * ((n + 2) / 3)
  }

  /** A group of four alphabet characters in front of padded text keeps it padded the same way. */
  lemma PrependGroup(head: string, rest: string, pads: nat)
    requires |head| == 4 && AlphaAt(head, 0) && AlphaAt(head, 1) && AlphaAt(head, 2) && AlphaAt(head, 3)
    requires PaddedText(rest, pads) && pads <= |rest|
    ensures PaddedText(head + rest, pads)
  {
    var r := head + rest;
    forall i | 0 <= i < |r|
      ensures if |r| - pads <= i then r[i] == Pad else IsAlphabetChar(r[i])
    {
      if i >= 4 {
        assert r[i] == rest[i - 4];
      } else {
        assert r[i] == head[i];
      }
    }
  }

  /** Removing one group of three bytes removes four characters and keeps the padding. */
  lemma LengthStep(n: nat)
    requires n >= 3
    ensures EncodedLength(n) == 4 + EncodedLength(n - 3)
    ensures PadCount(n) == PadCount(n - 3)
    ensures PadCount(n - 3) <= EncodedLength(n - 3)
  {
  }

  /**
   * Group k of r (characters 4k..4k+3) is four alphabet characters whose
   * sextets, most significant first, spell bytes 3k, 3k+1 and 3k+2.
   */
  predicate GroupSpellsAt(r: string, bytes: seq<byte>, k: nat) {
    && 3 * k + 2 < |bytes| && 4 * k + 3 < |r|
    && AlphaAt(r, 4 * k) && AlphaAt(r, 4 * k + 1) && AlphaAt(r, 4 * k + 2) && AlphaAt(r, 4 * k + 3)
    && ValueOf(r[4 * k]) * 262144 + ValueOf(r[4 * k + 1]) * 4096 + ValueOf(r[4 * k + 2]) * 64 + ValueOf(r[4 * k + 3])
       == bytes[3 * k] as int * 65536 + bytes[3 * k + 1] as int * 256 + bytes[3 * k + 2] as int
  }

  /** Group k of r spells the single byte 3k in two alphabet characters, followed by four zero bits. */
  predicate OneSpellsAt(r: string, bytes: seq<byte>, k: nat) {
    && 3 * k < |bytes| && 4 * k + 1 < |r| && AlphaAt(r, 4 * k) && AlphaAt(r, 4 * k + 1)
    && ValueOf(r[4 * k]) * 64 + ValueOf(r[4 * k + 1]) == bytes[3 * k] as int * 16
  }

  /** Group k of r spells bytes 3k and 3k+1 in three alphabet characters, followed by two zero bits. */
  predicate TwoSpellsAt(r: string, bytes: seq<byte>, k: nat) {
    && 3 * k + 1 < |bytes| && 4 * k + 2 < |r|
    && AlphaAt(r, 4 * k) && AlphaAt(r, 4 * k + 1) && AlphaAt(r, 4 * k + 2)
    && ValueOf(r[4 * k]) * 4096 + ValueOf(r[4 * k + 1]) * 64 + ValueOf(r[4 * k + 2])
       == (bytes[3 * k] as int * 256 + bytes[3 * k + 1] as int) * 4
  }

  /**
   * The bit layout of section 4 of RFC 4648: every complete group of three
   * bytes is spelled by its group of four characters, and the one or two
   * bytes left over are spelled by the last group.
   */
  ghost predicate Spells(r: string, bytes: seq<byte>) {
    && (forall k: nat :: 3 * k + 2 < |bytes| ==> GroupSpellsAt(r, bytes, k))
    && (forall k: nat :: 3 * k + 1 == |bytes| ==> OneSpellsAt(r, bytes, k))
    && (forall k: nat :: 3 * k + 2 == |bytes| ==> TwoSpellsAt(r, bytes, k))
  }

  /** An encoded group in front of text that spells the rest spells the whole. */
  lemma PrependSpells(bytes: seq<byte>, rest: string)
    requires |bytes| >= 3 && Spells(rest, bytes[3..])
    ensures Spells(EncodeGroup(bytes[0], bytes[1], bytes[2]) + rest, bytes)
  {
    var head := EncodeGroup(bytes[0], bytes[1], bytes[2]);
    var r, tail := head + rest, bytes[3..];
    forall k: nat | 3 * k + 2 < |bytes|
      ensures GroupSpellsAt(r, bytes, k)
    {
      if k == 0 {
        assert r[0] == head[0] && r[1] == head[1] && r[2] == head[2] && r[3] == head[3];
      } else {
        ShiftGroup(bytes, head, rest, k);
      }
    }
    forall k: nat | 3 * k + 1 == |bytes|
      ensures OneSpellsAt(r, bytes, k)
    {
      ShiftOne(bytes, head, rest, k);
    }
    forall k: nat | 3 * k + 2 == |bytes|
      ensures TwoSpellsAt(r, bytes, k)
    {
      ShiftTwo(bytes, head, rest, k);
    }
  }

  /** A one-byte final group k of the whole is final group k - 1 of the rest. */
  lemma ShiftOne(bytes: seq<byte>, head: string, rest: string, k: nat)
    requires |head| == 4 && 1 <= k && 3 * k + 1 == |bytes|
    requires OneSpellsAt(rest, bytes[3..], k - 1)
    ensures OneSpellsAt(head + rest, bytes, k)
  {
    var r, tail := head + rest, bytes[3..];
    assert r[4 * k] == rest[4 * (k - 1)] && r[4 * k + 1] == rest[4 * (k - 1) + 1];
    assert bytes[3 * k] == tail[3 * (k - 1)];
  }

  /** A two-byte final group k of the whole is final group k - 1 of the rest. */
  lemma ShiftTwo(bytes: seq<byte>, head: string, rest: string, k: nat)
    requires |head| == 4 && 1 <= k && 3 * k + 2 == |bytes|
    requires TwoSpellsAt(rest, bytes[3..], k - 1)
    ensures TwoSpellsAt(head + rest, bytes, k)
  {
    var r, tail := head + rest, bytes[3..];
    assert r[4 * k] == rest[4 * (k - 1)] && r[4 * k + 1] == rest[4 * (k - 1) + 1];
    assert r[4 * k + 2] == rest[4 * (k - 1) + 2];
    assert bytes[3 * k] == tail[3 * (k - 1)] && bytes[3 * k + 1] == tail[3 * (k - 1) + 1];
  }

  /** The encoding of one byte spells it. */
  lemma EncodeOneSpells(b0: byte)
    ensures Spells(EncodeOne(b0), [b0])
  {
    assert OneSpellsAt(EncodeOne(b0), [b0], 0);
  }

  /** The encoding of two bytes spells them. */
  lemma EncodeTwoSpells(b0: byte, b1: byte)
    ensures Spells(EncodeTwo(b0, b1), [b0, b1])
  {
    assert TwoSpellsAt(EncodeTwo(b0, b1), [b0, b1], 0);
  }

  /** Complete group k >= 1 of the whole is complete group k - 1 of the rest. */
  lemma ShiftGroup(bytes: seq<byte>, head: string, rest: string, k: nat)
    requires |head| == 4 && 1 <= k && 3 * k + 2 < |bytes|
    requires GroupSpellsAt(rest, bytes[3..], k - 1)
    ensures GroupSpellsAt(head + rest, bytes, k)
  {
    var r, tail := head + rest, bytes[3..];
    assert r[4 * k] == rest[4 * (k - 1)] && r[4 * k + 1] == rest[4 * (k - 1) + 1];
    assert r[4 * k + 2] == rest[4 * (k - 1) + 2] && r[4 * k + 3] == rest[4 * (k - 1) + 3];
    assert bytes[3 * k] == tail[3 * (k - 1)] && bytes[3 * k + 1] == tail[3 * (k - 1) + 1];
    assert bytes[3 * k + 2] == tail[3 * (k - 1) + 2];
  }

  /**
   * Base64.Encoder.encodeToString: four characters per started group of
   * three bytes; alphabet characters everywhere except the last PadCount
   * positions, which hold '='. Group k spells bytes 3k..3k+2, most
   * significant bits first, and the last group spells the one or two bytes
   * left over, followed by zero bits.
   */
  function Encode(bytes: seq<byte>): (r: string)
    ensures |r| == EncodedLength(|bytes|)
    ensures PaddedText(r, PadCount(|bytes|))
    ensures Spells(r, bytes)
    decreases |bytes|
  {
    if |bytes| == 0 then ""
    else if |bytes| == 1 then
      assert PadCount(1) == 2 && bytes == [bytes[0]];
      EncodeOneSpells(bytes[0]);
      EncodeOne(bytes[0])
    else if |bytes| == 2 then
      assert PadCount(2) == 1 && bytes == [bytes[0], bytes[1]];
      EncodeTwoSpells(bytes[0], bytes[1]);
      EncodeTwo(bytes[0], bytes[1])
    else
      var head := EncodeGroup(bytes[0], bytes[1], bytes[2]);
      var rest := Encode(bytes[3..]);
      LengthStep(|bytes|);
      PrependGroup(head, rest, PadCount(|bytes|));
      PrependSpells(bytes, rest);
      head + rest
  }

  /** Decodes one group of four characters, insisting on canonical (zero) padding bits. */
  function DecodeGroup(g: string): (r: Option<seq<byte>>)
    requires |g| == 4
    ensures r.Some? ==> 1 <= |r.value| <= 3
    ensures r.Some? && |r.value| == 3 <==> r.Some? && AlphaAt(g, 3)
  {
    if AlphaAt(g, 0) && AlphaAt(g, 1) && AlphaAt(g, 2) && AlphaAt(g, 3) then
      var v0, v1, v2, v3 := ValueOf(g[0]), ValueOf(g[1]), ValueOf(g[2]), ValueOf(g[3]);
      Some([v0 * 4 + v1 / 16, (v1 % 16) * 16 + v2 / 4, (v2 % 4) * 64 + v3])
    else if AlphaAt(g, 0) && AlphaAt(g, 1) && AlphaAt(g, 2) && g[3] == Pad && ValueOf(g[2]) % 4 == 0 then
      var v0, v1, v2 := ValueOf(g[0]), ValueOf(g[1]), ValueOf(g[2]);
      Some([v0 * 4 + v1 / 16, (v1 % 16) * 16 + v2 / 4])
    else if AlphaAt(g, 0) && AlphaAt(g, 1) && g[2] == Pad && g[3] == Pad && ValueOf(g[1]) % 16 == 0 then
      var v0, v1 := ValueOf(g[0]), ValueOf(g[1]);
      Some([v0 * 4 + v1 / 16])
    else
      None
  }

  /**
   * Strict decoding: a multiple of four characters, padding only in the last
   * group, and zero bits wherever padding truncates a sextet.
   */
  function Decode(s: string): (r: Option<seq<byte>>)
    decreases |s|
  {
    if |s| == 0 then Some([])
    else if |s| < 4 then None
    else if |s| == 4 then DecodeGroup(s)
    else
      var head := DecodeGroup(s[..4]);
      var tail := Decode(s[4..]);
      if head.Some? && |head.value| == 3 && tail.Some? then Some(head.value + tail.value) else None
  }

  lemma GroupRoundTrip(b0: byte, b1: byte, b2: byte)
    ensures DecodeGroup(EncodeGroup(b0, b1, b2)) == Some([b0, b1, b2])
  {
    var v0, v1, v2, v3 := b0 / 4, (b0 % 4) * 16 + b1 / 16, (b1 % 16) * 4 + b2 / 64, b2 % 64;
    var g := EncodeGroup(b0, b1, b2);
    SplitJoin(b0, b1, b2);
    ValueOfCharOf(v0);
    ValueOfCharOf(v1);
    ValueOfCharOf(v2);
    ValueOfCharOf(v3);
    assert ValueOf(g[0]) == v0 && ValueOf(g[1]) == v1 && ValueOf(g[2]) == v2 && ValueOf(g[3]) == v3;
  }

  lemma TwoRoundTrip(b0: byte, b1: byte)
    ensures DecodeGroup(EncodeTwo(b0, b1)) == Some([b0, b1])
  {
    var v0, v1, v2 := b0 / 4, (b0 % 4) * 16 + b1 / 16, (b1 % 16) * 4;
    var g := EncodeTwo(b0, b1);
    SplitJoin(b0, b1, 0);
    ValueOfCharOf(v0);
    ValueOfCharOf(v1);
    ValueOfCharOf(v2);
    assert ValueOf(g[0]) == v0 && ValueOf(g[1]) == v1 && ValueOf(g[2]) == v2;
    assert !AlphaAt(g, 3);
  }

  lemma OneRoundTrip(b0: byte)
    ensures DecodeGroup(EncodeOne(b0)) == Some([b0])
  {
    var v0, v1 := b0 / 4, (b0 % 4) * 16;
    var g := EncodeOne(b0);
    SplitJoin(b0, 0, 0);
    ValueOfCharOf(v0);
    ValueOfCharOf(v1);
    assert ValueOf(g[0]) == v0 && ValueOf(g[1]) == v1;
    assert !AlphaAt(g, 3) && !AlphaAt(g, 2);
  }

  /** A full group in front of decodable text contributes its three bytes in front. */
  lemma DecodeAppendGroup(head: string, rest: string)
    requires |head| == 4 && DecodeGroup(head).Some? && |DecodeGroup(head).value| == 3
    requires Decode(rest).Some?
    ensures Decode(head + rest) == Some(DecodeGroup(head).value + Decode(rest).value)
  {
    var s := head + rest;
    if |rest| == 0 {
      assert s == head;
      assert DecodeGroup(head).value + [] == DecodeGroup(head).value;
    } else {
      assert s[..4] == head;
      assert s[4..] == rest;
    }
  }

  /** Decoding the encoding of one or two bytes gives them back. */
  lemma DecodeEncodeFinal(bytes: seq<byte>)
    requires 1 <= |bytes| <= 2
    ensures Decode(Encode(bytes)) == Some(bytes)
  {
    if |bytes| == 1 {
      var g := EncodeOne(bytes[0]);
      assert Encode(bytes) == g;
      OneRoundTrip(bytes[0]);
      assert bytes == [bytes[0]];
    } else {
      var g := EncodeTwo(bytes[0], bytes[1]);
      assert Encode(bytes) == g;
      TwoRoundTrip(bytes[0], bytes[1]);
      assert bytes == [bytes[0], bytes[1]];
    }
  }

  /** Three or more bytes encode as their first group followed by the encoding of the rest. */
  lemma EncodeCons(bytes: seq<byte>)
    requires |bytes| >= 3
    ensures Encode(bytes) == EncodeGroup(bytes[0], bytes[1], bytes[2]) + Encode(bytes[3..])
  {
  }

  /** A full encoded group in front of text that decodes contributes its three bytes in front. */
  lemma DecodeGroupThen(b0: byte, b1: byte, b2: byte, rest: string, tail: seq<byte>)
    requires Decode(rest) == Some(tail)
    ensures Decode(EncodeGroup(b0, b1, b2) + rest) == Some([b0, b1, b2] + tail)
  {
    GroupRoundTrip(b0, b1, b2);
    DecodeAppendGroup(EncodeGroup(b0, b1, b2), rest);
  }

  /** One inductive step: if the tail round-trips, so does the whole. */
  lemma DecodeEncodeStep(bytes: seq<byte>)
    requires |bytes| >= 3
    requires Decode(Encode(bytes[3..])) == Some(bytes[3..])
    ensures Decode(Encode(bytes)) == Some(bytes)
  {
    EncodeCons(bytes);
    DecodeGroupThen(bytes[0], bytes[1], bytes[2], Encode(bytes[3..]), bytes[3..]);
    assert [bytes[0], bytes[1], bytes[2]] + bytes[3..] == bytes by { ThreeSplit(bytes); }
  }

  /** A sequence of three or more is its first three elements followed by the rest. */
  lemma ThreeSplit(bytes: seq<byte>)
    requires |bytes| >= 3
    ensures [bytes[0], bytes[1], bytes[2]] + bytes[3..] == bytes
  {
  }

  /** Decoding the encoding of any byte string gives those bytes back. */
  lemma {:induction false} DecodeEncode(bytes: seq<byte>)
    ensures Decode(Encode(bytes)) == Some(bytes)
    decreases |bytes|
  {
    if |bytes| >= 3 {
      DecodeEncode(bytes[3..]);
      DecodeEncodeStep(bytes);
    } else if |bytes| > 0 {
      DecodeEncodeFinal(bytes);
    }
  }

  /** The characters of a full group, given the four sextets the bytes split into. */
  lemma EncodeGroupChars(b0: byte, b1: byte, b2: byte, v0: int, v1: int, v2: int, v3: int)
    requires 0 <= v0 < 64 && 0 <= v1 < 64 && 0 <= v2 < 64 && 0 <= v3 < 64
    requires b0 / 4 == v0 && (b0 % 4) * 16 + b1 / 16 == v1 && (b1 % 16) * 4 + b2 / 64 == v2 && b2 % 64 == v3
    ensures EncodeGroup(b0, b1, b2) == [CharOf(v0), CharOf(v1), CharOf(v2), CharOf(v3)]
  {
  }

  /** The characters of a two-byte final group, given its three sextets. */
  lemma EncodeTwoChars(b0: byte, b1: byte, v0: int, v1: int, v2: int)
    requires 0 <= v0 < 64 && 0 <= v1 < 64 && 0 <= v2 < 64
    requires b0 / 4 == v0 && (b0 % 4) * 16 + b1 / 16 == v1 && (b1 % 16) * 4 == v2
    ensures EncodeTwo(b0, b1) == [CharOf(v0), CharOf(v1), CharOf(v2), Pad]
  {
  }

  /** A full group that decodes is the encoding of the three bytes it decodes to. */
  lemma GroupCanonical(g: string)
    requires |g| == 4 && AlphaAt(g, 0) && AlphaAt(g, 1) && AlphaAt(g, 2) && AlphaAt(g, 3)
    ensures var b := DecodeGroup(g).value; |b| == 3 && EncodeGroup(b[0], b[1], b[2]) == g
  {
    var v0, v1, v2, v3 := ValueOf(g[0]), ValueOf(g[1]), ValueOf(g[2]), ValueOf(g[3]);
    JoinSplit(v0, v1, v2, v3);
    var b := DecodeGroup(g).value;
    var b0, b1, b2 := v0 * 4 + v1 / 16, (v1 % 16) * 16 + v2 / 4, (v2 % 4) * 64 + v3;
    assert b == [b0, b1, b2];
    EncodeGroupChars(b0, b1, b2, v0, v1, v2, v3);
  }

  /** A group ending in one '=' that decodes is the encoding of the two bytes it decodes to. */
  lemma TwoCanonical(g: string)
    requires |g| == 4 && !AlphaAt(g, 3) && DecodeGroup(g).Some? && |DecodeGroup(g).value| == 2
    ensures var b := DecodeGroup(g).value; EncodeTwo(b[0], b[1]) == g
  {
    var v0, v1, v2 := ValueOf(g[0]), ValueOf(g[1]), ValueOf(g[2]);
    JoinSplit(v0, v1, v2, 0);
    var b := DecodeGroup(g).value;
    var b0, b1 := v0 * 4 + v1 / 16, (v1 % 16) * 16 + v2 / 4;
    assert b == [b0, b1];
    EncodeTwoChars(b0, b1, v0, v1, v2);
  }

  /** A group ending in "==" that decodes is the encoding of the byte it decodes to. */
  lemma OneCanonical(g: string)
    requires |g| == 4 && DecodeGroup(g).Some? && |DecodeGroup(g).value| == 1
    ensures EncodeOne(DecodeGroup(g).value[0]) == g
  {
    var v0, v1 := ValueOf(g[0]), ValueOf(g[1]);
    JoinSplit(v0, v1, 0, 0);
    var b := DecodeGroup(g).value;
    assert b == [v0 * 4 + v1 / 16];
    var e := EncodeOne(b[0]);
    assert e == [CharOf(v0), CharOf(v1), Pad, Pad];
  }

  /** Every group that decodes is the canonical encoding of what it decodes to. */
  lemma AnyGroupCanonical(g: string)
    requires |g| == 4 && DecodeGroup(g).Some?
    ensures Encode(DecodeGroup(g).value) == g
  {
    var b := DecodeGroup(g).value;
    if AlphaAt(g, 3) {
      GroupCanonical(g);
      assert Encode(b) == EncodeGroup(b[0], b[1], b[2]) + Encode(b[3..]);
    } else if |b| == 2 {
      TwoCanonical(g);
    } else {
      OneCanonical(g);
    }
  }

  /** Encoding what a successful decode returned reproduces the decoded text exactly. */
  lemma {:induction false} EncodeDecode(s: string)
    requires Decode(s).Some?
    ensures Encode(Decode(s).value) == s
    decreases |s|
  {
    if |s| == 4 {
      AnyGroupCanonical(s);
    } else if |s| > 4 {
      var head := DecodeGroup(s[..4]).value;
      var tail := Decode(s[4..]).value;
      GroupCanonical(s[..4]);
      EncodeDecode(s[4..]);
      var b := head + tail;
      assert b[3..] == tail;
      assert |tail| > 0;
      assert s == s[..4] + s[4..];
    }
  }

  /** Encoding is injective: different byte strings never share a Base64 text. */
  lemma EncodeInjective(a: seq<byte>, b: seq<byte>)
    requires Encode(a) == Encode(b)
    ensures a == b
  {
    DecodeEncode(a);
    DecodeEncode(b);
  }
}
