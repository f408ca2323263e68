/**
 * CustomPasswordEncoder: plaintext -> UTF-8 bytes -> SHA-256 or SHA-512
 * digest -> lower-case hex or padded standard Base64 text. No salt, no
 * prefix, no truncation; matches is exact string equality with a fresh encode.
 */
module PasswordEncoder {
  import opened Bytes
  import opened Wrappers
  import opened Settings
  import Hex
  import Base64

  /** A SHA-256 output: 32 bytes. */
  type Digest256 = d: seq<byte> | |d| == 32 witness seq(32, _ => 0)

  /** A SHA-512 output: 64 bytes. */
  type Digest512 = d: seq<byte> | |d| == 64 witness seq(64, _ => 0)

  /**
   * The platform primitives the encoder calls and this model does not look
   * inside: String.getBytes(UTF_8) and the two MessageDigest algorithms. Only
   * their output sizes are known; everything proved here holds for any choice.
   */
  datatype Jdk = Jdk(utf8: string -> seq<byte>, sha256: seq<byte> -> Digest256, sha512: seq<byte> -> Digest512)

  /** The encoder: its two final fields, copied from the settings at construction. */
  datatype Encoder = Encoder(hashAlgorithm: Algorithm, encoding: Encoding)

  /** The constructor: the encoder takes over exactly the settings' algorithm and encoding. */
  function NewEncoder(settings: CryptoSettings): (e: Encoder)
    ensures GetHashAlgorithm(e) == Settings.GetHashAlgorithm(settings)
    ensures GetEncoding(e) == Settings.GetEncoding(settings)
  {
    Encoder(settings.hashAlgorithm, settings.encoding)
  }

  /** getHashAlgorithm. */
  function GetHashAlgorithm(e: Encoder): (r: string)
    ensures r == "SHA-256" || r == "SHA-512"
  {
    e.hashAlgorithm.Name()
  }

  /** getEncoding. */
  function GetEncoding(e: Encoder): (r: string)
    ensures r == "HEX" || r == "BASE64"
  {
    e.encoding.Name()
  }

  /** The settings an encoder was built from. */
  function SettingsOf(e: Encoder): CryptoSettings {
    CryptoSettings(e.hashAlgorithm, e.encoding)
  }

  /** toString: the settings' own text, bracketed and tagged with the class name. */
  function ToString(e: Encoder): (r: string)
    ensures |r| == 23 + |Settings.ToString(SettingsOf(e))|
    ensures r[..22] == "CustomPasswordEncoder["
    ensures r[22..|r| - 1] == Settings.ToString(SettingsOf(e))
    ensures r[|r| - 1] == ']'
  {
    "CustomPasswordEncoder[" + GetHashAlgorithm(e) + " + " + GetEncoding(e) + "]"
  }

  /** hash: the configured digest of the UTF-8 bytes of the input; its length is the algorithm's. */
  function Hash(jdk: Jdk, algorithm: Algorithm, input: string): (d: seq<byte>)
    ensures |d| == algorithm.DigestLength()
  {
    var bytes := jdk.utf8(input);
    match algorithm
    case Sha256 => jdk.sha256(bytes)
    case Sha512 => jdk.sha512(bytes)
  }

  /** The length of the text rendering of n bytes. */
  function RenderedLength(encoding: Encoding, n: nat): nat {
    match encoding
    case Hex => 2 * n
    case Base64 => Base64.EncodedLength(n)
  }

  /** encodeBytes: HexFormat.of().formatHex or Base64.getEncoder().encodeToString. */
  function EncodeBytes(encoding: Encoding, bytes: seq<byte>): (r: string)
    ensures |r| == RenderedLength(encoding, |bytes|)
    ensures encoding == Hex ==> Hex.AllDigits(r)
    ensures encoding == Base64 ==> Base64.PaddedText(r, Base64.PadCount(|bytes|))
  {
    match encoding
    case Hex => Hex.FormatHex(bytes)
    case Base64 => Base64.Encode(bytes)
  }

  /** The strict inverse of encodeBytes for one encoding (not part of the encoder's interface). */
  function DecodeText(encoding: Encoding, text: string): Option<seq<byte>> {
    match encoding
    case Hex => Hex.ParseHex(text)
    case Base64 => Base64.Decode(text)
  }

  /** Rendering loses nothing: decoding it gives the bytes back. */
  lemma DecodeEncodeBytes(encoding: Encoding, bytes: seq<byte>)
    ensures DecodeText(encoding, EncodeBytes(encoding, bytes)) == Some(bytes)
  {
    match encoding
    case Hex => Hex.ParseFormat(bytes);
    case Base64 => Base64.DecodeEncode(bytes);
  }

  /** Only renderings decode: text that decodes is the rendering of what it decodes to. */
  lemma EncodeDecodeText(encoding: Encoding, text: string)
    requires DecodeText(encoding, text).Some?
    ensures EncodeBytes(encoding, DecodeText(encoding, text).value) == text
  {
    match encoding
    case Hex => Hex.FormatParse(text);
    case Base64 => Base64.EncodeDecode(text);
  }

  /** The length of every stored value an encoder produces. */
  function OutputLength(e: Encoder): nat {
    RenderedLength(e.encoding, e.hashAlgorithm.DigestLength())
  }

  /**
   * encode: the rendering of the digest of the UTF-8 bytes, nothing more.
   * The text has the fixed length of the encoder's settings and decodes back
   * to the full digest (no salt, no prefix, no truncation).
   */
  function Encode(jdk: Jdk, e: Encoder, raw: string): (r: string)
    ensures |r| == OutputLength(e)
    ensures DecodeText(e.encoding, r) == Some(Hash(jdk, e.hashAlgorithm, raw))
  {
    var hashed := Hash(jdk, e.hashAlgorithm, raw);
    DecodeEncodeBytes(e.encoding, hashed);
    EncodeBytes(e.encoding, hashed)
  }

  /**
   * matches: exact comparison of a fresh encode with the stored text. It holds
   * exactly when the stored text decodes, under the encoder's own encoding,
   * to the digest of the candidate.
   */
  function Matches(jdk: Jdk, e: Encoder, raw: string, encodedPassword: string): (r: bool)
    ensures r <==> DecodeText(e.encoding, encodedPassword) == Some(Hash(jdk, e.hashAlgorithm, raw))
    ensures r ==> |encodedPassword| == OutputLength(e)
  {
    var computed := Encode(jdk, e, raw);
    assert DecodeText(e.encoding, encodedPassword).Some? ==>
        EncodeBytes(e.encoding, DecodeText(e.encoding, encodedPassword).value) == encodedPassword by {
      if DecodeText(e.encoding, encodedPassword).Some? {
        EncodeDecodeText(e.encoding, encodedPassword);
      }
    }
    computed == encodedPassword
  }

  /** The four stored-value lengths: 64, 44, 128 and 88 characters, pairwise distinct. */
  lemma OutputLengths()
    ensures OutputLength(Encoder(Sha256, Hex)) == 64
    ensures OutputLength(Encoder(Sha256, Base64)) == 44
    ensures OutputLength(Encoder(Sha512, Hex)) == 128
    ensures OutputLength(Encoder(Sha512, Base64)) == 88
    ensures forall e1: Encoder, e2: Encoder :: e1 != e2 ==> OutputLength(e1) != OutputLength(e2)
  {
    forall e1: Encoder, e2: Encoder | e1 != e2
      ensures OutputLength(e1) != OutputLength(e2)
    {
    }
  }

  /** A freshly encoded password always matches its plaintext. */
  lemma MatchesEncoded(jdk: Jdk, e: Encoder, raw: string)
    ensures Matches(jdk, e, raw, Encode(jdk, e, raw))
  {
  }

  /**
   * Under one encoder, a stored value produced from raw' matches raw exactly
   * when the two plaintexts have the same digest: rendering is injective.
   */
  lemma MatchesIffSameDigest(jdk: Jdk, e: Encoder, raw: string, raw': string)
    ensures Matches(jdk, e, raw, Encode(jdk, e, raw'))
        <==> Hash(jdk, e.hashAlgorithm, raw) == Hash(jdk, e.hashAlgorithm, raw')
  {
  }

  /** A value stored under one pair of settings never matches under a different pair. */
  lemma CrossSettingsNeverMatch(jdk: Jdk, stored: Encoder, current: Encoder, raw: string, candidate: string)
    requires stored != current
    ensures !Matches(jdk, current, candidate, Encode(jdk, stored, raw))
  {
    OutputLengths();
  }

  /** encode depends only on the plaintext and the two settings fixed at construction. */
  lemma EncodeDependsOnlyOnSettings(jdk: Jdk, s: CryptoSettings, t: CryptoSettings, raw: string)
    requires Settings.GetHashAlgorithm(s) == Settings.GetHashAlgorithm(t)
    requires Settings.GetEncoding(s) == Settings.GetEncoding(t)
    ensures Encode(jdk, NewEncoder(s), raw) == Encode(jdk, NewEncoder(t), raw)
  {
    AlgorithmNameInjective(s.hashAlgorithm, t.hashAlgorithm);
    EncodingNameInjective(s.encoding, t.encoding);
  }

  /** The stored text uses only the alphabet of the configured encoding. */
  lemma EncodeAlphabet(jdk: Jdk, e: Encoder, raw: string)
    ensures e.encoding == Hex ==> Hex.AllDigits(Encode(jdk, e, raw))
    ensures e.encoding == Base64 ==> Base64.PaddedText(Encode(jdk, e, raw), Base64.PadCount(e.hashAlgorithm.DigestLength()))
  {
  }
}
