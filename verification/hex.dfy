/**
 * java.util.HexFormat.of().formatHex: the base16 layout of section 8 of
 * RFC 4648 (two characters per byte, high nibble first) written with the
 * lower-case alphabet 0-9a-f, together with its strict inverse.
 */
module Hex {
  import opened Bytes
  import opened Wrappers

  /** The sixteen digits HexFormat.of() uses, in value order. */
  const Digits: string := "0123456789abcdef"

  predicate IsDigit(c: char) {
    '0' <= c <= '9' || 'a' <= c <= 'f'
  }

  /** The digit for a nibble value. */
  function DigitChar(v: int): (c: char)
    requires 0 <= v < 16
    ensures IsDigit(c)
  {
    if v < 10 then ('0' as int + v) as char else ('a' as int + v - 10) as char
  }

  /** The digit function agrees with the alphabet table, entry by entry. */
  lemma DigitCharTable(v: int)
    requires 0 <= v < 16
    ensures DigitChar(v) == Digits[v]
  {
  }

  /** The nibble value of a lower-case hex digit. */
  function DigitValue(c: char): (v: int)
    requires IsDigit(c)
    ensures 0 <= v < 16
    ensures DigitChar(v) == c
  {
    if c <= '9' then c as int - '0' as int else c as int - 'a' as int + 10
  }

  /** True when every character of s is a lower-case hex digit. */
  predicate AllDigits(s: string) {
    forall i :: 0 <= i < |s| ==> IsDigit(s[i])
  }

  /** The byte value that the digit pair at positions 2k and 2k+1 of s spells, high nibble first. */
  function PairValue(s: string, k: nat): (v: int)
    requires 2 * k + 1 < |s| && AllDigits(s)
  {
    DigitValue(s[2 * k]) * 16 + DigitValue(s[2 * k + 1])
  }

  /**
   * formatHex: byte k becomes characters 2k (high nibble) and 2k+1 (low
   * nibble), so the text is exactly twice as long and uses only 0-9a-f.
   */
  function FormatHex(bytes: seq<byte>): (r: string)
    ensures |r| == 2 * |bytes|
    ensures AllDigits(r)
    ensures forall k: nat :: k < |bytes| ==> PairValue(r, k) == bytes[k]
  {
    if |bytes| == 0 then ""
    else
      var rest := FormatHex(bytes[1..]);
      var r := [DigitChar(bytes[0] / 16), DigitChar(bytes[0] % 16)] + rest;
      assert forall k: nat :: 1 <= k < |bytes| ==> PairValue(r, k) == PairValue(rest, k - 1) by {
        forall k: nat | 1 <= k < |bytes|
          ensures PairValue(r, k) == PairValue(rest, k - 1)
        {
          assert r[2 * k] == rest[2 * (k - 1)];
          assert r[2 * k + 1] == rest[2 * (k - 1) + 1];
        }
      }
      r
  }

  /** Strict base16 decoding: even length, lower-case digits only. */
  function ParseHex(s: string): (r: Option<seq<byte>>)
    ensures r.Some? <==> |s| % 2 == 0 && AllDigits(s)
    ensures r.Some? ==> 2 * |r.value| == |s|
    decreases |s|
  {
    if |s| == 0 then Some([])
    else if |s| < 2 || !IsDigit(s[0]) || !IsDigit(s[1]) then None
    else
      match ParseHex(s[2..])
      case None =>
        assert !AllDigits(s[2..]) || |s[2..]| % 2 != 0;
        None
      case Some(rest) => Some([DigitValue(s[0]) * 16 + DigitValue(s[1])] + rest)
  }

  /** Reading a digit back gives the nibble it was written for. */
  lemma DigitValueOfChar(v: int)
    requires 0 <= v < 16
    ensures DigitValue(DigitChar(v)) == v
  {
  }

  /** One step of parsing, read forwards: two digits and a parsable tail parse to one more byte. */
  lemma ParseHexCons(s: string)
    requires |s| >= 2 && IsDigit(s[0]) && IsDigit(s[1]) && ParseHex(s[2..]).Some?
    ensures ParseHex(s) == Some([DigitValue(s[0]) * 16 + DigitValue(s[1])] + ParseHex(s[2..]).value)
  {
  }

  /** Parsing the rendering of any byte string gives those bytes back. */
  lemma {:induction false} ParseFormat(bytes: seq<byte>)
    ensures ParseHex(FormatHex(bytes)) == Some(bytes)
    decreases |bytes|
  {
    if |bytes| > 0 {
      var b := bytes[0];
      var s := FormatHex(bytes);
      var hi, lo := b / 16, b % 16;
      assert s == [DigitChar(hi), DigitChar(lo)] + FormatHex(bytes[1..]);
      assert s[2..] == FormatHex(bytes[1..]);
      ParseFormat(bytes[1..]);
      DigitValueOfChar(hi);
      DigitValueOfChar(lo);
      ParseHexCons(s);
      NibbleJoin(b);
      assert bytes == [b] + bytes[1..];
    }
  }

  /** A byte is its high nibble times sixteen plus its low nibble. */
  lemma NibbleJoin(b: byte)
    ensures (b / 16) * 16 + b % 16 == b
  {
  }

  /** A byte assembled from two nibbles splits back into them. */
  lemma NibbleSplit(hi: int, lo: int)
    requires 0 <= hi < 16 && 0 <= lo < 16
    ensures (hi * 16 + lo) / 16 == hi && (hi * 16 + lo) % 16 == lo
  {
  }

  /** One step of parsing: the first byte is spelled by the first two digits. */
  lemma ParseHexStep(s: string)
    requires |s| >= 2 && ParseHex(s).Some?
    ensures ParseHex(s[2..]).Some?
    ensures ParseHex(s).value == [DigitValue(s[0]) * 16 + DigitValue(s[1])] + ParseHex(s[2..]).value
  {
  }

  /** Rendering what a successful parse returned reproduces the parsed text exactly. */
  lemma {:induction false} FormatParse(s: string)
    requires ParseHex(s).Some?
    ensures FormatHex(ParseHex(s).value) == s
    decreases |s|
  {
    if |s| > 0 {
      ParseHexStep(s);
      var hi, lo := DigitValue(s[0]), DigitValue(s[1]);
      var tail := ParseHex(s[2..]).value;
      var bytes := [hi * 16 + lo] + tail;
      FormatParse(s[2..]);
      NibbleSplit(hi, lo);
      assert bytes[1..] == tail;
      calc {
        FormatHex(bytes);
        [DigitChar(hi), DigitChar(lo)] + FormatHex(tail);
        [s[0], s[1]] + s[2..];
        s;
      }
    }
  }

  /** Rendering is injective: different byte strings never share a hex text. */
  lemma FormatHexInjective(a: seq<byte>, b: seq<byte>)
    requires FormatHex(a) == FormatHex(b)
    ensures a == b
  {
    ParseFormat(a);
    ParseFormat(b);
  }
}
