# zentrald credential encoding, modelled in Dafny

This project models the credential-encoding core of zentrald. It covers three parts:

- **Configuration validation** (`CryptoConfigLoader`). Reads the `<hash-algorithm>` and `<encoding>`
  elements of `crypto-config.xml` and resolves them to a `CryptoSettings` value, or to one of two
  error kinds.
- **The password pipeline** (`CustomPasswordEncoder`). Plaintext becomes UTF-8 bytes, then a
  SHA-256 or SHA-512 digest, then lower-case hex or padded standard Base64 text. `matches` compares
  that text exactly with the stored value.
- **The in-memory user store** (`UserStore` over `UserInfo`).

Module layout, one file each:

| file | module | Java counterpart |
|---|---|---|
| `wrappers.dfy` | `Wrappers`, `Bytes` | `Optional`, exceptions as a `Result`, `byte` |
| `java_strings.dfy` | `JavaStrings` | `String.toUpperCase`, `trim`, `replace(" ", "")`, `equalsIgnoreCase` |
| `hex.dfy` | `Hex` | `HexFormat.of().formatHex` (base16 of section 8 of RFC 4648, lower case) |
| `base64.dfy` | `Base64` | `Base64.getEncoder().encodeToString` (section 4 of RFC 4648, padded) |
| `crypto_settings.dfy` | `Settings` | `CryptoSettings` |
| `password_encoder.dfy` | `PasswordEncoder` | `CustomPasswordEncoder` |
| `config_loader.dfy` | `ConfigLoader` | `CryptoConfigLoader` |
| `user_info.dfy` | `UserModel` | `UserInfo` |
| `user_store.dfy` | `UserStore` | `UserStore` |

Modelling choices:

- **Closed enumerations.** The algorithm and the encoding are `Algorithm = Sha256 | Sha512` and
  `Encoding = Hex | Base64`. `Name()` gives the string the Java fields hold.
- **Platform primitives as parameters.** The record `Jdk` carries three function values:
  `utf8`, `sha256` and `sha512`. Their result types fix only the digest sizes: 32 and 64 bytes,
  per sections 6.2 and 6.4 of FIPS 180-4. Every property of the encoder holds for every choice of
  these functions.
- **Strict decoders as partners.** Each text rendering has a strict decoder, proved to be its
  exact inverse in both directions. From this follow:
  - `matches` holds exactly when the stored text decodes to the candidate's digest;
  - rendering is injective;
  - a value stored under one pair of settings never matches under another, since the four output
    lengths are 64, 44, 128 and 88.
- **The parsed document.** The XML document is the sequence of its elements in document order,
  each a tag name and a text content. A parser refusal (malformed input, a DOCTYPE) is a
  `Rejected` outcome carrying the parser's message.
- **Exceptions as values.** Exceptions are `Failure` values: `IllegalArgument` or `IllegalState`,
  each with the exact Java message.

## Model

| member | source | states |
|---|---|---|
| ConfigLoader.AlgorithmAliasesShape | src/main/java/com/zentrald/crypto/CryptoConfigLoader.java:23-28 | The alias table has exactly the keys SHA256, SHA-256, SHA512 and SHA-512. Each key maps to the algorithm whose JCA name is the key with the hyphen after "SHA" restored, and each JCA name is itself a key mapping to its algorithm. |
| ConfigLoader.GetText | src/main/java/com/zentrald/crypto/CryptoConfigLoader.java:59-65 | Fails exactly when no element carries the tag, with IllegalArgument "Missing <tag> element in crypto-config.xml". Otherwise returns the trimmed text of the first element with that tag. |
| ConfigLoader.FirstIndex | src/main/java/com/zentrald/crypto/CryptoConfigLoader.java:60-61 | The position of the first element carrying the tag: no earlier element carries it, and it is the element count exactly when none does. |
| ConfigLoader.GetTextAppend | src/main/java/com/zentrald/crypto/CryptoConfigLoader.java:59-64 | Once an element with the tag exists, appending further elements (including repeats of the tag) leaves the text unchanged. Only the first occurrence counts. |
| ConfigLoader.NormalizeAlgorithm | src/main/java/com/zentrald/crypto/CryptoConfigLoader.java:67-74 | Succeeds exactly when the upper-cased text with every space removed is an alias key, and the result's JCA name is that key with its hyphen. Otherwise fails with IllegalArgument "Invalid <hash-algorithm> value: '<raw>'. Allowed: SHA-256, SHA-512". |
| ConfigLoader.NormalizeAlgorithmIgnoresSpace | src/main/java/com/zentrald/crypto/CryptoConfigLoader.java:68 | Inserting a space anywhere in the algorithm text changes neither acceptance nor the result. |
| ConfigLoader.NormalizeAlgorithmOfKey | src/main/java/com/zentrald/crypto/CryptoConfigLoader.java:67-74 | Text that is already upper case and free of spaces is accepted exactly when it is an alias key, and then resolves to that key's algorithm. |
| ConfigLoader.NormalizeAlgorithmIdempotent | src/main/java/com/zentrald/crypto/CryptoConfigLoader.java:23-28 | Normalising an algorithm's own JCA name gives that algorithm back. |
| ConfigLoader.NormalizeLowerCaseExample | src/main/java/com/zentrald/crypto/CryptoConfigLoader.java:68 | "sha256" resolves to SHA-256. |
| ConfigLoader.UpperKeyExample | src/main/java/com/zentrald/crypto/CryptoConfigLoader.java:68-73 | "SHA512" resolves to SHA-512. |
| ConfigLoader.NormalizeSpacedExample | src/main/java/com/zentrald/crypto/CryptoConfigLoader.java:68 | "SHA 512" resolves to SHA-512. |
| ConfigLoader.NormalizeRefusedExample | src/main/java/com/zentrald/crypto/CryptoConfigLoader.java:67-72 | "MD5" is refused. |
| ConfigLoader.NormalizeUnderscoreExample | src/main/java/com/zentrald/crypto/CryptoConfigLoader.java:67-72 | "SHA_256" is refused; only spaces are removed. |
| ConfigLoader.NormalizeEncoding | src/main/java/com/zentrald/crypto/CryptoConfigLoader.java:76-83 | Succeeds exactly when the upper-cased, trimmed text is HEX or BASE64, and the result's name is that text. Otherwise fails with IllegalArgument "Invalid <encoding> value: '<raw>'. Allowed: HEX, BASE64". |
| ConfigLoader.NormalizeEncodingIdempotent | src/main/java/com/zentrald/crypto/CryptoConfigLoader.java:76-83 | Normalising an encoding's own name gives that encoding back. |
| ConfigLoader.NormalizeEncodingIgnoresPadding | src/main/java/com/zentrald/crypto/CryptoConfigLoader.java:77 | Characters at or below U+0020 around the encoding text change neither acceptance nor the result. |
| ConfigLoader.NormalizeEncodingIgnoresCase | src/main/java/com/zentrald/crypto/CryptoConfigLoader.java:77-82 | Any text whose upper case is an encoding's name resolves to that encoding. |
| ConfigLoader.NormalizeEncodingRefusesInnerSpace | src/main/java/com/zentrald/crypto/CryptoConfigLoader.java:77-81 | Text whose upper-cased, trimmed form still contains a space is refused. Unlike the algorithm, inner spaces are not removed. |
| ConfigLoader.InnerSpaceSurvives | src/main/java/com/zentrald/crypto/CryptoConfigLoader.java:77 | A space inside text whose first and last characters are above U+0020 survives upper-casing and trimming. |
| ConfigLoader.NormalizeEncodingLowerCaseExample | src/main/java/com/zentrald/crypto/CryptoConfigLoader.java:77-82 | "base64" resolves to BASE64. |
| ConfigLoader.LowerHexExample | src/main/java/com/zentrald/crypto/CryptoConfigLoader.java:77-82 | "hex" resolves to HEX. |
| ConfigLoader.NormalizeEncodingPaddedExample | src/main/java/com/zentrald/crypto/CryptoConfigLoader.java:77-82 | " hex " resolves to HEX. |
| ConfigLoader.NormalizeEncodingInnerSpaceExample | src/main/java/com/zentrald/crypto/CryptoConfigLoader.java:77-81 | "BASE 64" is refused. |
| ConfigLoader.Load | src/main/java/com/zentrald/crypto/CryptoConfigLoader.java:32-55 | A refused document gives IllegalState "Failed to parse crypto-config.xml: <message>". Every failure on a parsed document is an IllegalArgument. A success carries exactly the algorithm and encoding that the two normalisers resolve from the first texts of the two tags. |
| ConfigLoader.LoadSucceedsIff | src/main/java/com/zentrald/crypto/CryptoConfigLoader.java:42-48 | Load succeeds exactly when both elements exist, the algorithm key is an alias and the encoding text is HEX or BASE64. There is no partial or default outcome. |
| ConfigLoader.LoadResultNames | src/main/java/com/zentrald/crypto/CryptoConfigLoader.java:42-48 | A successful load yields the JCA name SHA-256 or SHA-512, spelled as the hyphenated form of the configured key, and the encoding HEX or BASE64, equal to the upper-cased, trimmed configured text. |
| ConfigLoader.LoadMissingAlgorithmFirst | src/main/java/com/zentrald/crypto/CryptoConfigLoader.java:42 | With no algorithm element, load reports the missing <hash-algorithm>, whatever else the document holds. |
| ConfigLoader.LoadMissingEncodingFirst | src/main/java/com/zentrald/crypto/CryptoConfigLoader.java:42-46 | With an algorithm element but no encoding element, load reports the missing <encoding>, even when the algorithm text is invalid. |
| ConfigLoader.LoadInvalidAlgorithmFirst | src/main/java/com/zentrald/crypto/CryptoConfigLoader.java:45-46 | With both elements present and an invalid algorithm, load reports the algorithm, whether or not the encoding is valid. |
| ConfigLoader.LoadInvalidEncoding | src/main/java/com/zentrald/crypto/CryptoConfigLoader.java:45-51 | With both elements present and an accepted algorithm, a refused encoding fails load with IllegalArgument "Invalid <encoding> value: '<raw text>'. Allowed: HEX, BASE64", quoting the text as extracted. |
| ConfigLoader.LoadSameTexts | src/main/java/com/zentrald/crypto/CryptoConfigLoader.java:42-48 | Two documents whose two extracted texts agree load to the same outcome. |
| ConfigLoader.LoadUsesFirstElements | src/main/java/com/zentrald/crypto/CryptoConfigLoader.java:59-64 | Once both elements have appeared, anything appended to the document leaves the load outcome unchanged. |
| ConfigLoader.GettersReload | src/main/java/com/zentrald/crypto/CryptoSettings.java:19-20 | Feeding a settings value's getter strings back through the normalisers reproduces the same algorithm and encoding. |
| Settings.GetHashAlgorithm | src/main/java/com/zentrald/crypto/CryptoSettings.java:19 | Returns SHA-256 or SHA-512, the name of the algorithm the settings were built with. |
| Settings.GetEncoding | src/main/java/com/zentrald/crypto/CryptoSettings.java:20 | Returns HEX or BASE64, the name of the encoding the settings were built with. |
| Settings.ToString | src/main/java/com/zentrald/crypto/CryptoSettings.java:23-25 | The text starts with the algorithm name, and the rest is " + " followed by the encoding name. |
| Settings.ToStringInjective | src/main/java/com/zentrald/crypto/CryptoSettings.java:23-25 | Equal toString texts come only from equal settings. |
| Settings.AlgorithmNameInjective | src/main/java/com/zentrald/crypto/CryptoSettings.java:11 | Distinct algorithms have distinct names. |
| Settings.EncodingNameInjective | src/main/java/com/zentrald/crypto/CryptoSettings.java:12 | Distinct encodings have distinct names. |
| PasswordEncoder.NewEncoder | src/main/java/com/zentrald/crypto/CustomPasswordEncoder.java:32-35 | The encoder's getters return exactly the settings' getters. |
| PasswordEncoder.GetHashAlgorithm | src/main/java/com/zentrald/crypto/CustomPasswordEncoder.java:71 | Returns SHA-256 or SHA-512. |
| PasswordEncoder.GetEncoding | src/main/java/com/zentrald/crypto/CustomPasswordEncoder.java:72 | Returns HEX or BASE64. |
| PasswordEncoder.ToString | src/main/java/com/zentrald/crypto/CustomPasswordEncoder.java:75-77 | The text is "CustomPasswordEncoder[", then the settings' own toString, then "]". |
| PasswordEncoder.Hash | src/main/java/com/zentrald/crypto/CustomPasswordEncoder.java:52-55 | The digest of the UTF-8 bytes has the configured algorithm's length: 32 or 64 bytes. |
| PasswordEncoder.EncodeBytes | src/main/java/com/zentrald/crypto/CustomPasswordEncoder.java:61-67 | HEX text is twice as long as the input and uses only 0-9a-f. BASE64 text has length 4·⌈n/3⌉, with alphabet characters everywhere except the final padding positions, which hold '='. |
| PasswordEncoder.DecodeEncodeBytes | src/main/java/com/zentrald/crypto/CustomPasswordEncoder.java:61-67 | Decoding a rendering gives the bytes back, for either encoding. |
| PasswordEncoder.EncodeDecodeText | src/main/java/com/zentrald/crypto/CustomPasswordEncoder.java:61-67 | Any text the strict decoder accepts is the rendering of what it decodes to. |
| PasswordEncoder.Encode | src/main/java/com/zentrald/crypto/CustomPasswordEncoder.java:40-43 | The stored text has the fixed length of the encoder's settings, and decodes back to the whole digest of the plaintext: no salt, no prefix, no truncation. |
| PasswordEncoder.Matches | src/main/java/com/zentrald/crypto/CustomPasswordEncoder.java:46-48 | Holds exactly when the stored text decodes, under the encoder's encoding, to the digest of the candidate. A matching stored text has the encoder's output length. |
| PasswordEncoder.MatchesEncoded | src/main/java/com/zentrald/crypto/CustomPasswordEncoder.java:46-48 | A freshly encoded password matches its plaintext. |
| PasswordEncoder.MatchesIffSameDigest | src/main/java/com/zentrald/crypto/CustomPasswordEncoder.java:46-48 | Under one encoder, the encoding of one plaintext matches another plaintext exactly when their digests are equal. |
| PasswordEncoder.OutputLengths | src/main/java/com/zentrald/crypto/CustomPasswordEncoder.java:61-67 | Stored values are 64 (SHA-256/HEX), 44 (SHA-256/BASE64), 128 (SHA-512/HEX) or 88 (SHA-512/BASE64) characters long, pairwise distinct across settings. |
| PasswordEncoder.CrossSettingsNeverMatch | src/main/java/com/zentrald/crypto/CustomPasswordEncoder.java:46-48 | A value stored under one pair of settings never matches any candidate under a different pair. |
| PasswordEncoder.EncodeDependsOnlyOnSettings | src/main/java/com/zentrald/crypto/CustomPasswordEncoder.java:29-35 | Two encoders built from settings with equal getters encode every plaintext identically. |
| PasswordEncoder.EncodeAlphabet | src/main/java/com/zentrald/crypto/CustomPasswordEncoder.java:61-67 | A stored value uses only the alphabet of the configured encoding. |
| Hex.FormatHex | src/main/java/com/zentrald/crypto/CustomPasswordEncoder.java:63 | Byte k becomes characters 2k and 2k+1, high nibble first, in 0-9a-f. The text is twice as long as the input. |
| Hex.ParseHex | src/main/java/com/zentrald/crypto/CustomPasswordEncoder.java:63 | The strict inverse accepts exactly the even-length texts over 0-9a-f, giving half as many bytes. |
| Hex.ParseFormat | src/main/java/com/zentrald/crypto/CustomPasswordEncoder.java:63 | Parsing the rendering of any bytes gives those bytes back. |
| Hex.FormatParse | src/main/java/com/zentrald/crypto/CustomPasswordEncoder.java:63 | Rendering what a successful parse returned reproduces the text. |
| Hex.FormatHexInjective | src/main/java/com/zentrald/crypto/CustomPasswordEncoder.java:63 | Different byte strings never share a hex text. |
| Base64.EncodeGroup | src/main/java/com/zentrald/crypto/CustomPasswordEncoder.java:64 | Three bytes become four alphabet characters whose sextets, read high to low, spell the same 24 bits. |
| Base64.Encode | src/main/java/com/zentrald/crypto/CustomPasswordEncoder.java:64 | The text has 4·⌈n/3⌉ characters, with '=' in exactly the last (3 − n mod 3) mod 3 positions and alphabet characters everywhere else. Group k of four characters spells bytes 3k, 3k+1, 3k+2 as 24 bits, high sextet first; a final single byte is spelled by two characters followed by four zero bits, a final pair by three characters followed by two zero bits. |
| Base64.DecodeEncode | src/main/java/com/zentrald/crypto/CustomPasswordEncoder.java:64 | Decoding the encoding of any bytes gives those bytes back. |
| Base64.EncodeDecode | src/main/java/com/zentrald/crypto/CustomPasswordEncoder.java:64 | Any text the strict decoder accepts is the encoding of what it decodes to. |
| Base64.EncodeInjective | src/main/java/com/zentrald/crypto/CustomPasswordEncoder.java:64 | Different byte strings never share a Base64 text. |
| JavaStrings.ToUpperCase | src/main/java/com/zentrald/crypto/CryptoConfigLoader.java:68 | Keeps the length, maps each character through the ASCII upper-case mapping, and leaves no lower-case ASCII letter. |
| JavaStrings.ToUpperCaseIdempotent | src/main/java/com/zentrald/crypto/CryptoConfigLoader.java:68 | Upper-casing an already upper-cased text changes nothing, so normalising a key that is already upper case is stable. |
| JavaStrings.Trim | src/main/java/com/zentrald/crypto/CryptoConfigLoader.java:64 | The result is the infix of the input that is left once the characters at or below U+0020 are cut from both ends, and only those: everything outside it is such a character, and it neither starts nor ends with one. |
| JavaStrings.TrimPadded | src/main/java/com/zentrald/crypto/CryptoConfigLoader.java:64 | Trimming ignores any run of characters at or below U+0020 added at either end. |
| JavaStrings.RemoveAll | src/main/java/com/zentrald/crypto/CryptoConfigLoader.java:68 | The removed character no longer occurs, every other character occurs exactly when it did before, and the text does not grow. |
| JavaStrings.RemoveAllCounts | src/main/java/com/zentrald/crypto/CryptoConfigLoader.java:68 | Every other character is kept exactly as often as it occurs, and the removed one not at all. |
| JavaStrings.RemoveAllSingle | src/main/java/com/zentrald/crypto/CryptoConfigLoader.java:68 | A single character is dropped when it is the removed one and kept otherwise; with RemoveAllAppend this fixes the result, order included. |
| JavaStrings.EqualsIgnoreCase | src/main/java/com/zentrald/repository/UserStore.java:29 | True exactly when the two texts have the same upper case. |
| JavaStrings.EqualsIgnoreCaseEquivalence | src/main/java/com/zentrald/repository/UserStore.java:29 | Comparison ignoring case is reflexive and symmetric. |
| JavaStrings.RemoveAllAppend | src/main/java/com/zentrald/crypto/CryptoConfigLoader.java:68 | Removal distributes over concatenation. |
| UserModel.NewUserInfo | src/main/java/com/zentrald/model/UserInfo.java:9-13 | The three getters return the three constructor arguments verbatim. |
| UserModel.GetUsername | src/main/java/com/zentrald/model/UserInfo.java:15 | Returns the username component, which by GettersOverLifetime is the constructor's argument for the whole life of the record. |
| UserModel.GetEmail | src/main/java/com/zentrald/model/UserInfo.java:16 | Returns the email component, which by GettersOverLifetime is the constructor's argument for the whole life of the record. |
| UserModel.GetEncodedPassword | src/main/java/com/zentrald/model/UserInfo.java:17 | Returns the current password, which by GettersOverLifetime is the last one set, or the constructor's when none was. |
| UserModel.GettersOverLifetime | src/main/java/com/zentrald/model/UserInfo.java:5-18 | After any sequence of setEncodedPassword calls, username and email are still the constructor's arguments and the password is the last one set, or the initial one when none was. |
| UserModel.SetEncodedPassword | src/main/java/com/zentrald/model/UserInfo.java:18 | Afterwards the password getter returns the new value, and username and email are unchanged. |
| UserModel.SetEncodedPasswordOnlyChangesPassword | src/main/java/com/zentrald/model/UserInfo.java:5-7 | The record after the setter is the unique record with the old username and email and the new password. |
| UserModel.SetEncodedPasswordLastWins | src/main/java/com/zentrald/model/UserInfo.java:17-18 | Setting twice keeps only the last password. Setting the current password changes nothing. |
| UserStore.NewUserStore | src/main/java/com/zentrald/repository/UserStore.java:18-21 | The new store holds exactly the key admin, whose record has username admin, email admin@example.com and the encoding of "1234". |
| UserStore.AdminSeedMatches | src/main/java/com/zentrald/repository/UserStore.java:18-21 | With the application's encoder, the seeded admin matches "1234". An admin seeded under different settings does not. |
| UserStore.FindByUsername | src/main/java/com/zentrald/repository/UserStore.java:23-25 | Empty exactly when the key is absent; otherwise the record stored under that key. |
| UserStore.FindByEmail | src/main/java/com/zentrald/repository/UserStore.java:27-31 | Any record returned is stored and has an email equal to the query ignoring case. The result is empty exactly when no stored record has such an email. |
| UserStore.UpdatePassword | src/main/java/com/zentrald/repository/UserStore.java:33-38 | Returns true exactly when the username is present. If absent, the store is unchanged. If present, only that user's password becomes the new value: its username and email, every other entry and the key set stay as they were. |
| UserStore.FindAfterUpdate | src/main/java/com/zentrald/repository/UserStore.java:33-38 | A lookup after an update sees the record with the new password. |
| UserStore.UpdatesPreserveIdentity | src/main/java/com/zentrald/repository/UserStore.java:16-38 | Any sequence of updates keeps the key set and every username and email. A store keyed by username stays keyed by username. |
| UserStore.StoreKeepsOnlyAdmin | src/main/java/com/zentrald/repository/UserStore.java:16-38 | From construction on, the key set stays {admin}, and the admin's email stays admin@example.com. |

## Left out

- Text is modelled as sequences of Unicode scalar values. A Java String is a sequence of UTF-16
  code units, so a password or configuration text with an unpaired surrogate (which `getBytes`
  with UTF-8 turns into '?') cannot be written in the model and is outside it.
- PasswordEncoder.Hash: SHA-256, SHA-512 and the UTF-8 conversion are parameters (`Jdk`). Only
  the digest sizes are fixed, so no known-answer value is stated.
- The `NoSuchAlgorithmException` path of `hash` (CustomPasswordEncoder.java:56-57) is not
  modelled: every JDK provides both algorithms, and it is environment failure.
- The `default` branch of `encodeBytes` (IllegalStateException "Unknown encoding") cannot be
  reached: the encoding is a closed enumeration.
- Settings.CryptoSettings: the Java constructor accepts any two strings. The model can only
  represent the four valid pairs, so the invariant that the Java code holds only for loader-built
  values holds here by construction.
- XML parsing, the DOCTYPE prohibition and `normalize()` (CryptoConfigLoader.java:34-40) are
  library plumbing. Any parser failure is the `Rejected` outcome with its message.
- A null input stream is outside the model: Java's parser throws IllegalArgumentException for it,
  which `load` rethrows unchanged (CryptoConfigLoader.java:50-51) rather than wrapping it in
  IllegalStateException. The application always passes an open resource stream.
- The document is the flat sequence of its elements. Element nesting and the way
  `getTextContent` concatenates descendant text are not modelled; an element's text is given.
- ConfigLoader.NormalizeAlgorithm: `toUpperCase` follows the ASCII mapping only. Java's
  locale-sensitive, full-Unicode mapping (for example U+017F becoming 'S') is not modelled.
- ConfigLoader.NormalizeEncoding: the same ASCII-only upper-casing applies.
- UserStore.FindByEmail: `HashMap` iteration order is unspecified, so the model says only that
  some matching record is returned, not which one when several match. `equalsIgnoreCase` is
  ASCII-only.
- UserModel.SetEncodedPassword: Java mutates a shared object; the model returns the updated record,
  and the store replaces it under the same key. Aliasing is not modelled.
- Java `null` arguments (null username, email or password) are not modelled.
- `PasswordEncoderConfig`, `DataInitializer`, `AccountService`, `User`, the controllers and
  `SecurityConfig` are resource lookup, startup side effects, persistence and web plumbing. They
  are not part of this model.
