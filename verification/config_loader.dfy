/**
 * CryptoConfigLoader: turns the two elements of crypto-config.xml into a
 * validated CryptoSettings value, or fails. Validation failures are
 * IllegalArgumentException; every other failure (the document cannot be
 * parsed, or declares a DOCTYPE, which the parser is configured to refuse)
 * becomes IllegalStateException. There is no defaulted or partial result.
 */
module ConfigLoader {
  import opened Wrappers
  import opened JavaStrings
  import opened Settings

  /** One element of the parsed document: its tag name and its text content. */
  datatype Element = Element(tagName: string, textContent: string)

  /**
   * What the XML parser made of the input stream: either the document's
   * elements in document order, or the message of the exception it threw.
   */
  datatype ParsedXml = Document(elements: seq<Element>) | Rejected(parserMessage: string)

  /** The two exception kinds load can throw, each with its message. */
  datatype LoadError = IllegalArgument(message: string) | IllegalState(message: string)

  const AlgorithmTag: string := "hash-algorithm"
  const EncodingTag: string := "encoding"

  /** Accepted algorithm spellings (after upper-casing and removing spaces) and what they resolve to. */
  const AlgorithmAliases: map<string, Algorithm> :=
    map["SHA256" := Sha256, "SHA-256" := Sha256, "SHA512" := Sha512, "SHA-512" := Sha512]

  function MissingElementMessage(tagName: string): string {
    "Missing <" + tagName + "> element in crypto-config.xml"
  }

  function InvalidAlgorithmMessage(raw: string): string {
    "Invalid <hash-algorithm> value: '" + raw + "'. Allowed: SHA-256, SHA-512"
  }

  function InvalidEncodingMessage(raw: string): string {
    "Invalid <encoding> value: '" + raw + "'. Allowed: HEX, BASE64"
  }

  function ParseFailureMessage(parserMessage: string): string {
    "Failed to parse crypto-config.xml: " + parserMessage
  }

  /**
   * The position of the first element with the given tag name, or the
   * number of elements when there is none (getElementsByTagName(..).item(0)).
   */
  function FirstIndex(elements: seq<Element>, tagName: string): (i: nat)
    ensures i <= |elements|
    ensures forall j :: 0 <= j < i ==> elements[j].tagName != tagName
    ensures i < |elements| ==> elements[i].tagName == tagName
  {
    if |elements| == 0 then 0
    else if elements[0].tagName == tagName then 0
    else 1 + FirstIndex(elements[1..], tagName)
  }

  /** getText: the trimmed text of the first element with the tag; a missing element is an IllegalArgumentException. */
  function GetText(elements: seq<Element>, tagName: string): (r: Result<string, LoadError>)
    ensures r.Failure? <==> forall j :: 0 <= j < |elements| ==> elements[j].tagName != tagName
    ensures r.Failure? ==> r.error == IllegalArgument(MissingElementMessage(tagName))
    ensures r.Success? ==> r.value == Trim(elements[FirstIndex(elements, tagName)].textContent)
  {
    var i := FirstIndex(elements, tagName);
    if i == |elements| then Failure(IllegalArgument(MissingElementMessage(tagName)))
    else Success(Trim(elements[i].textContent))
  }

  /** The algorithm text reduced to its lookup key: upper-cased, every space removed. */
  function AlgorithmKey(raw: string): string {
    RemoveAll(ToUpperCase(raw), ' ')
  }

  /** A spelling with the JCA hyphen after "SHA" put in if it was left out. */
  function WithHyphen(key: string): string {
    if |key| == 6 then key[..3] + "-" + key[3..] else key
  }

  /** normalizeAlgorithm: the alias the lookup key names, or an IllegalArgumentException quoting the raw text. */
  function NormalizeAlgorithm(raw: string): (r: Result<Algorithm, LoadError>)
    ensures r.Success? <==> AlgorithmKey(raw) in AlgorithmAliases
    ensures r.Success? ==> WithHyphen(AlgorithmKey(raw)) == r.value.Name()
    ensures r.Failure? ==> r.error == IllegalArgument(InvalidAlgorithmMessage(raw))
  {
    var key := AlgorithmKey(raw);
    if key in AlgorithmAliases then Success(AlgorithmAliases[key])
    else Failure(IllegalArgument(InvalidAlgorithmMessage(raw)))
  }

  /** normalizeEncoding: upper-cased then trimmed text must be exactly HEX or BASE64. */
  function NormalizeEncoding(raw: string): (r: Result<Encoding, LoadError>)
    ensures r.Success? <==> Trim(ToUpperCase(raw)) in {"HEX", "BASE64"}
    ensures r.Success? ==> r.value.Name() == Trim(ToUpperCase(raw))
    ensures r.Failure? ==> r.error == IllegalArgument(InvalidEncodingMessage(raw))
  {
    var upper := Trim(ToUpperCase(raw));
    if upper == "HEX" then Success(Hex)
    else if upper == "BASE64" then Success(Base64)
    else Failure(IllegalArgument(InvalidEncodingMessage(raw)))
  }

  /**
   * load: fetch both elements, then validate the algorithm, then the
   * encoding. A document the parser refused becomes IllegalStateException;
   * everything else that fails is the IllegalArgumentException of the first
   * failing step.
   */
  function Load(xml: ParsedXml): (r: Result<CryptoSettings, LoadError>)
    ensures xml.Rejected? ==> r == Failure(IllegalState(ParseFailureMessage(xml.parserMessage)))
    ensures xml.Document? && r.Failure? ==> r.error.IllegalArgument?
    ensures r.Success? ==>
      (&& xml.Document?
       && GetText(xml.elements, AlgorithmTag).Success?
       && NormalizeAlgorithm(GetText(xml.elements, AlgorithmTag).value) == Success(r.value.hashAlgorithm)
       && GetText(xml.elements, EncodingTag).Success?
       && NormalizeEncoding(GetText(xml.elements, EncodingTag).value) == Success(r.value.encoding))
  {
    match xml
    case Rejected(message) => Failure(IllegalState(ParseFailureMessage(message)))
    case Document(elements) =>
      var rawAlgorithm :- GetText(elements, AlgorithmTag);
      var rawEncoding :- GetText(elements, EncodingTag);
      var hashAlgorithm :- NormalizeAlgorithm(rawAlgorithm);
      var encoding :- NormalizeEncoding(rawEncoding);
      Success(CryptoSettings(hashAlgorithm, encoding))
  }

  /** The alias table: exactly four spellings, each resolving to the JCA name it spells, with or without the hyphen. */
  lemma AlgorithmAliasesShape()
    ensures AlgorithmAliases.Keys == {"SHA256", "SHA-256", "SHA512", "SHA-512"}
    ensures forall k :: k in AlgorithmAliases ==> WithHyphen(k) == AlgorithmAliases[k].Name()
    ensures forall a: Algorithm :: a.Name() in AlgorithmAliases && AlgorithmAliases[a.Name()] == a
  {
  }

  /** Normalising the JCA name of an algorithm gives that algorithm back. */
  lemma NormalizeAlgorithmIdempotent(a: Algorithm)
    ensures NormalizeAlgorithm(a.Name()) == Success(a)
  {
    match a
    case Sha256 =>
      assert ToUpperCase("SHA-256") == "SHA-256";
      RemoveAllAbsent("SHA-256", ' ');
    case Sha512 =>
      assert ToUpperCase("SHA-512") == "SHA-512";
      RemoveAllAbsent("SHA-512", ' ');
  }

  /** Normalising the name of an encoding gives that encoding back. */
  lemma NormalizeEncodingIdempotent(e: Encoding)
    ensures NormalizeEncoding(e.Name()) == Success(e)
  {
    TrimNoPadding(ToUpperCase(e.Name()));
  }

  /** The settings' getters produce text the loader resolves back to the same settings. */
  lemma GettersReload(s: CryptoSettings)
    ensures NormalizeAlgorithm(GetHashAlgorithm(s)) == Success(s.hashAlgorithm)
    ensures NormalizeEncoding(GetEncoding(s)) == Success(s.encoding)
  {
    NormalizeAlgorithmIdempotent(s.hashAlgorithm);
    NormalizeEncodingIdempotent(s.encoding);
  }

  /** A space anywhere in the algorithm text does not change what it resolves to. */
  lemma NormalizeAlgorithmIgnoresSpace(a: string, b: string)
    ensures NormalizeAlgorithm(a + " " + b).Success? == NormalizeAlgorithm(a + b).Success?
    ensures NormalizeAlgorithm(a + b).Success? ==>
      NormalizeAlgorithm(a + " " + b).value == NormalizeAlgorithm(a + b).value
  {
    var upperA, upperB := ToUpperCase(a), ToUpperCase(b);
    assert ToUpperCase(" ") == " ";
    ToUpperCaseAppend(a, " ");
    ToUpperCaseAppend(a + " ", b);
    ToUpperCaseAppend(a, b);
    assert ToUpperCase(a + " " + b) == upperA + " " + upperB;
    RemoveAllAppend(upperA + " ", upperB, ' ');
    RemoveAllAppend(upperA, " ", ' ');
    RemoveAllAppend(upperA, upperB, ' ');
    assert RemoveAll(" ", ' ') == [];
    assert AlgorithmKey(a + " " + b) == AlgorithmKey(a + b);
  }

  /** Whitespace around the encoding text does not change what it resolves to. */
  lemma NormalizeEncodingIgnoresPadding(pre: string, raw: string, post: string)
    requires forall i :: 0 <= i < |pre| ==> IsTrimmable(pre[i])
    requires forall i :: 0 <= i < |post| ==> IsTrimmable(post[i])
    ensures NormalizeEncoding(pre + raw + post).Success? == NormalizeEncoding(raw).Success?
    ensures NormalizeEncoding(raw).Success? ==>
      NormalizeEncoding(pre + raw + post).value == NormalizeEncoding(raw).value
  {
    ToUpperCaseAppend(pre + raw, post);
    ToUpperCaseAppend(pre, raw);
    TrimPadded(ToUpperCase(pre), ToUpperCase(raw), ToUpperCase(post));
  }

  /** Text already in upper case and free of spaces is looked up as it is. */
  lemma NormalizeAlgorithmOfKey(raw: string)
    requires ToUpperCase(raw) == raw && ' ' !in raw
    ensures NormalizeAlgorithm(raw).Success? <==> raw in AlgorithmAliases
    ensures raw in AlgorithmAliases ==> NormalizeAlgorithm(raw) == Success(AlgorithmAliases[raw])
  {
    RemoveAllAbsent(raw, ' ');
  }

  /** Lower case is accepted: "sha256" resolves to SHA-256. */
  lemma NormalizeLowerCaseExample()
    ensures NormalizeAlgorithm("sha256") == Success(Sha256)
  {
    assert ToUpperCase("sha256") == "SHA256";
    RemoveAllAbsent("SHA256", ' ');
  }

  /** The upper-case key "SHA512" resolves to SHA-512; the text is a parameter for the reason given at SpacedResolves. */
  lemma UpperKeyResolves(key: string)
    requires key == "SHA512"
    ensures NormalizeAlgorithm(key) == Success(Sha512)
  {
    UpperCaseFixed(key);
    NormalizeAlgorithmOfKey(key);
  }

  /** "SHA512" resolves to SHA-512. */
  lemma UpperKeyExample()
    ensures NormalizeAlgorithm("SHA512") == Success(Sha512)
  {
    UpperKeyResolves("SHA512");
  }

  /** "SHA 512" is "SHA" and "512" around one space. */
  lemma SpacedParts(raw: string)
    requires raw == "SHA 512"
    ensures raw == raw[..3] + " " + raw[4..]
    ensures raw[..3] + raw[4..] == "SHA512"
  {
  }

  /**
   * "SHA 512" resolves to SHA-512. The text is a parameter fixed by the
   * precondition rather than a literal argument: applied to a literal, the
   * recursive string functions are unfolded eagerly, which makes the proof
   * costly and unstable.
   */
  lemma SpacedResolves(raw: string)
    requires raw == "SHA 512"
    ensures NormalizeAlgorithm(raw) == Success(Sha512)
  {
    SpacedParts(raw);
    NormalizeAlgorithmIgnoresSpace(raw[..3], raw[4..]);
    UpperKeyResolves(raw[..3] + raw[4..]);
  }

  /** Spaces are removed: "SHA 512" resolves to SHA-512. */
  lemma NormalizeSpacedExample()
    ensures NormalizeAlgorithm("SHA 512") == Success(Sha512)
  {
    SpacedResolves("SHA 512");
  }

  /** Other algorithms are refused: "MD5". */
  lemma NormalizeRefusedExample()
    ensures NormalizeAlgorithm("MD5").Failure?
  {
    assert ToUpperCase("MD5") == "MD5";
    NormalizeAlgorithmOfKey("MD5");
  }

  /** Other separators are refused: "SHA_256". */
  lemma NormalizeUnderscoreExample()
    ensures NormalizeAlgorithm("SHA_256").Failure?
  {
    assert ToUpperCase("SHA_256") == "SHA_256";
    NormalizeAlgorithmOfKey("SHA_256");
  }

  /** Any text that upper-cases to an encoding's name resolves to that encoding. */
  lemma NormalizeEncodingIgnoresCase(raw: string, e: Encoding)
    requires ToUpperCase(raw) == e.Name()
    ensures NormalizeEncoding(raw) == Success(e)
  {
    TrimNoPadding(e.Name());
  }

  /** Encoding text with a space left after trimming is refused: neither name contains one. */
  lemma NormalizeEncodingRefusesInnerSpace(raw: string)
    requires ' ' in Trim(ToUpperCase(raw))
    ensures NormalizeEncoding(raw).Failure?
  {
    NoSpaceInEncodingNames(Trim(ToUpperCase(raw)));
  }

  lemma NoSpaceInEncodingNames(t: string)
    requires ' ' in t
    ensures t !in {"HEX", "BASE64"}
  {
    assert ' ' !in "HEX" && ' ' !in "BASE64";
  }

  /** An inner space survives upper-casing and trimming. */
  lemma InnerSpaceSurvives(a: string, b: string)
    requires a != [] && !IsTrimmable(a[0])
    requires b != [] && !IsTrimmable(b[|b| - 1])
    ensures ' ' in Trim(ToUpperCase(a + " " + b))
  {
    var s := ToUpperCase(a + " " + b);
    assert s[0] == UpperChar(a[0]) && s[|s| - 1] == UpperChar(b[|b| - 1]);
    TrimNoPadding(s);
    assert s[|a|] == ' ';
  }

  /** "base64" resolves to BASE64. */
  lemma NormalizeEncodingLowerCaseExample()
    ensures NormalizeEncoding("base64") == Success(Base64)
  {
    assert ToUpperCase("base64") == "BASE64";
    NormalizeEncodingIgnoresCase("base64", Base64);
  }

  /** "hex" resolves to HEX; the text is a parameter for the reason given at SpacedResolves. */
  lemma LowerHexResolves(raw: string)
    requires raw == "hex"
    ensures NormalizeEncoding(raw) == Success(Hex)
  {
    assert ToUpperCase(raw) == "HEX";
    NormalizeEncodingIgnoresCase(raw, Hex);
  }

  /** "hex" resolves to HEX. */
  lemma LowerHexExample()
    ensures NormalizeEncoding("hex") == Success(Hex)
  {
    LowerHexResolves("hex");
  }

  /** " hex " is "hex" between two spaces. */
  lemma PaddedParts(raw: string)
    requires raw == " hex "
    ensures raw == raw[..1] + raw[1..4] + raw[4..]
    ensures raw[..1] == " " && raw[4..] == " " && raw[1..4] == "hex"
  {
  }

  /** " hex " resolves to HEX; the text is a parameter for the reason given at SpacedResolves. */
  lemma PaddedResolves(raw: string)
    requires raw == " hex "
    ensures NormalizeEncoding(raw) == Success(Hex)
  {
    PaddedParts(raw);
    LowerHexResolves(raw[1..4]);
    NormalizeEncodingIgnoresPadding(raw[..1], raw[1..4], raw[4..]);
  }

  /** " hex " resolves to HEX. */
  lemma NormalizeEncodingPaddedExample()
    ensures NormalizeEncoding(" hex ") == Success(Hex)
  {
    PaddedResolves(" hex ");
  }

  /** "BASE 64" is refused; the text is a parameter for the reason given at SpacedResolves. */
  lemma InnerSpaceRefused(raw: string)
    requires raw == "BASE 64"
    ensures NormalizeEncoding(raw).Failure?
  {
    var a, b := raw[..4], raw[5..];
    assert raw == a + " " + b;
    assert a[0] == 'B' && b[|b| - 1] == '4';
    InnerSpaceSurvives(a, b);
    NormalizeEncodingRefusesInnerSpace(raw);
  }

  /** "BASE 64" is refused. */
  lemma NormalizeEncodingInnerSpaceExample()
    ensures NormalizeEncoding("BASE 64").Failure?
  {
    InnerSpaceRefused("BASE 64");
  }

  /** load succeeds exactly when both elements exist and both of their first texts are accepted. */
  lemma LoadSucceedsIff(elements: seq<Element>)
    ensures Load(Document(elements)).Success? <==>
      (&& GetText(elements, AlgorithmTag).Success?
       && GetText(elements, EncodingTag).Success?
       && AlgorithmKey(GetText(elements, AlgorithmTag).value) in AlgorithmAliases
       && Trim(ToUpperCase(GetText(elements, EncodingTag).value)) in {"HEX", "BASE64"})
  {
  }

  /**
   * What a successful load hands to the encoder: a JCA name from the closed
   * pair, spelled as the hyphenated form of the configured key, and the
   * upper-cased, trimmed encoding text, which is HEX or BASE64.
   */
  lemma LoadResultNames(xml: ParsedXml)
    requires Load(xml).Success?
    ensures GetHashAlgorithm(Load(xml).value) in {"SHA-256", "SHA-512"}
    ensures GetHashAlgorithm(Load(xml).value) == WithHyphen(AlgorithmKey(GetText(xml.elements, AlgorithmTag).value))
    ensures GetEncoding(Load(xml).value) in {"HEX", "BASE64"}
    ensures GetEncoding(Load(xml).value) == Trim(ToUpperCase(GetText(xml.elements, EncodingTag).value))
  {
  }

  /** Both elements are fetched before any value is checked: a missing encoding wins over a bad algorithm. */
  lemma LoadMissingEncodingFirst(elements: seq<Element>)
    requires exists i :: 0 <= i < |elements| && elements[i].tagName == AlgorithmTag
    requires forall i :: 0 <= i < |elements| ==> elements[i].tagName != EncodingTag
    ensures Load(Document(elements)) == Failure(IllegalArgument(MissingElementMessage(EncodingTag)))
  {
  }

  /** A missing algorithm element is reported first of all. */
  lemma LoadMissingAlgorithmFirst(elements: seq<Element>)
    requires forall i :: 0 <= i < |elements| ==> elements[i].tagName != AlgorithmTag
    ensures Load(Document(elements)) == Failure(IllegalArgument(MissingElementMessage(AlgorithmTag)))
  {
  }

  /** With both elements present, an invalid algorithm is reported whether or not the encoding is valid. */
  lemma LoadInvalidAlgorithmFirst(elements: seq<Element>)
    requires GetText(elements, AlgorithmTag).Success? && GetText(elements, EncodingTag).Success?
    requires NormalizeAlgorithm(GetText(elements, AlgorithmTag).value).Failure?
    ensures Load(Document(elements))
      == Failure(IllegalArgument(InvalidAlgorithmMessage(GetText(elements, AlgorithmTag).value)))
  {
  }

  /** With both elements present and an accepted algorithm, a refused encoding is reported with its own message. */
  lemma LoadInvalidEncoding(elements: seq<Element>)
    requires GetText(elements, AlgorithmTag).Success? && GetText(elements, EncodingTag).Success?
    requires NormalizeAlgorithm(GetText(elements, AlgorithmTag).value).Success?
    requires NormalizeEncoding(GetText(elements, EncodingTag).value).Failure?
    ensures Load(Document(elements)) == Failure(IllegalArgument(InvalidEncodingMessage(GetText(elements, EncodingTag).value)))
  {
  }

  /** Elements after the first of each tag are never looked at. */
  lemma {:induction false} FirstIndexAppend(elements: seq<Element>, more: seq<Element>, tagName: string)
    requires FirstIndex(elements, tagName) < |elements|
    ensures FirstIndex(elements + more, tagName) == FirstIndex(elements, tagName)
  {
    if elements[0].tagName != tagName {
      assert (elements + more)[1..] == elements[1..] + more;
      FirstIndexAppend(elements[1..], more, tagName);
    }
  }

  /** Once an element has appeared, anything appended to the document leaves its text unchanged. */
  lemma GetTextAppend(elements: seq<Element>, more: seq<Element>, tagName: string)
    requires GetText(elements, tagName).Success?
    ensures GetText(elements + more, tagName) == GetText(elements, tagName)
  {
    FirstIndexAppend(elements, more, tagName);
    var i := FirstIndex(elements, tagName);
    assert (elements + more)[i] == elements[i];
  }

  /** Once both elements have appeared, anything appended to the document leaves load unchanged. */
  lemma LoadUsesFirstElements(elements: seq<Element>, more: seq<Element>)
    requires GetText(elements, AlgorithmTag).Success? && GetText(elements, EncodingTag).Success?
    ensures Load(Document(elements + more)) == Load(Document(elements))
  {
    GetTextAppend(elements, more, AlgorithmTag);
    GetTextAppend(elements, more, EncodingTag);
    LoadSameTexts(elements + more, elements);
  }

  /** load sees a document only through the two texts getText extracts from it. */
  lemma LoadSameTexts(elements: seq<Element>, elements': seq<Element>)
    requires GetText(elements, AlgorithmTag) == GetText(elements', AlgorithmTag)
    requires GetText(elements, EncodingTag) == GetText(elements', EncodingTag)
    ensures Load(Document(elements)) == Load(Document(elements'))
  {
    var algorithm, encoding := GetText(elements, AlgorithmTag), GetText(elements, EncodingTag);
    if algorithm.Success? && encoding.Success? {
      var a, e := NormalizeAlgorithm(algorithm.value), NormalizeEncoding(encoding.value);
      assert Load(Document(elements)) == if a.Failure? then Failure(a.error) else if e.Failure? then Failure(e.error) else Success(CryptoSettings(a.value, e.value));
    }
  }
}
