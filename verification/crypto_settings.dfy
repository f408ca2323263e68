/**
 * CryptoSettings: the resolved (hash algorithm, text encoding) pair. The two
 * components are closed enumerations; their JCA / configuration names appear
 * only through Name().
 */
module Settings {

  /** The digest algorithms the loader can resolve to. */
  datatype Algorithm = Sha256 | Sha512 {

    /** The JCA standard name, as handed to MessageDigest.getInstance. */
    function Name(): string {
      match this
      case Sha256 => "SHA-256"
      case Sha512 => "SHA-512"
    }

    /** Output size in bytes: 256 and 512 bits, per sections 6.2 and 6.4 of FIPS 180-4. */
    function DigestLength(): nat {
      match this
      case Sha256 => 32
      case Sha512 => 64
    }
  }

  /** The binary-to-text renderings the loader can resolve to. */
  datatype Encoding = Hex | Base64 {

    /** The upper-case configuration name. */
    function Name(): string {
      match this
      case Hex => "HEX"
      case Base64 => "BASE64"
    }
  }

  /** The immutable settings value; both fields are fixed at construction. */
  datatype CryptoSettings = CryptoSettings(hashAlgorithm: Algorithm, encoding: Encoding)

  /** getHashAlgorithm: the JCA name of the algorithm the settings were built with. */
  function GetHashAlgorithm(s: CryptoSettings): (r: string)
    ensures r == "SHA-256" || r == "SHA-512"
    ensures r == s.hashAlgorithm.Name()
  {
    s.hashAlgorithm.Name()
  }

  /** getEncoding: the name of the encoding the settings were built with. */
  function GetEncoding(s: CryptoSettings): (r: string)
    ensures r == "HEX" || r == "BASE64"
    ensures r == s.encoding.Name()
  {
    s.encoding.Name()
  }

  /** toString: algorithm name, " + ", encoding name. */
  function ToString(s: CryptoSettings): (r: string)
    ensures |r| == |GetHashAlgorithm(s)| + 3 + |GetEncoding(s)|
    ensures r[..|GetHashAlgorithm(s)|] == GetHashAlgorithm(s)
    ensures r[|GetHashAlgorithm(s)|..] == " + " + GetEncoding(s)
  {
    GetHashAlgorithm(s) + " + " + GetEncoding(s)
  }

  /** Different algorithms have different names. */
  lemma AlgorithmNameInjective(a: Algorithm, b: Algorithm)
    requires a.Name() == b.Name()
    ensures a == b
  {
  }

  /** Different encodings have different names. */
  lemma EncodingNameInjective(a: Encoding, b: Encoding)
    requires a.Name() == b.Name()
    ensures a == b
  {
  }

  /** The textual form identifies the settings: equal toString means equal settings. */
  lemma ToStringInjective(s: CryptoSettings, t: CryptoSettings)
    requires ToString(s) == ToString(t)
    ensures s == t
  {
    var x, y := ToString(s), ToString(t);
    assert |GetHashAlgorithm(s)| == 7 == |GetHashAlgorithm(t)|;
    assert GetHashAlgorithm(s) == x[..7] == y[..7] == GetHashAlgorithm(t);
    AlgorithmNameInjective(s.hashAlgorithm, t.hashAlgorithm);
    assert x[10..] == GetEncoding(s) && y[10..] == GetEncoding(t);
    EncodingNameInjective(s.encoding, t.encoding);
  }
}
