# mule-secret-inject: the secret-tree builder, in Dafny

mule-secret-inject reads the secrets of an Infisical vault and writes them,
encrypted, into the YAML configuration of a Mule application. Its logic is
`yamlifySecrets` and its helper `encryptValue` in `utils.ts`. This project
models that logic and proves what it does.

`yamlifySecrets` takes the vault's flat list of secrets. Each secret has an
optional slash-delimited `secretPath`, a `secretKey` and a `secretValue`. It
then works in four steps:

1. It takes the first secret named `encrypt.key` at the root as the
   encryption key. The build fails when there is no such secret or its value
   is empty.
2. It splits every other secret's path on `/` and drops the empty segments.
3. It walks a nested record from the root, one segment at a time. A record
   already there is reused. Anything else is replaced by a fresh `{}`. The
   secret's key is then set to `encryptValue(secretValue, key)`.
4. It returns the key and the finished record, which goes to a YAML
   serialiser.

`encryptValue` runs Blowfish-CBC with PKCS#5 padding (section 6.2 of NIST
SP 800-38A, section 6.1.1 of RFC 8018). Its IV is the first eight UTF-8
bytes of the key, zero-padded. The ciphertext is base64-encoded (section 4
of RFC 4648) and written as `![<base64>]`.

The files:

- `wrappers.dfy`: `Option` and `Result`.
- `encoding.dfy` (module `Encoding`): UTF-8 as `TextEncoder` produces it,
  base64 as `btoa` produces it, and a base64 decoder. The round trip is
  proved.
- `cipher.dfy` (module `ValueCipher`): the IV (a function, and a method
  that fills an 8-byte array in place), the token, and `EncryptValue`. The
  Blowfish library is the function parameter `BlowfishCbc`.
- `paths.dfy` (module `SecretPaths`): `split("/")`, `filter(Boolean)`, and
  how path spellings normalise.
- `tree.dfy` (module `SecretTree`): the document. It holds:
  - an insertion-ordered record type;
  - `node[k] = v` as `Put`;
  - the specification of one insertion, `Insert`;
  - the walking cursor;
  - the fold of a run of insertions, `Apply`.
- `builder.dfy` (module `SecretTreeBuilder`):
  - key selection;
  - the specification function `Build`;
  - the imperative `YamlifySecrets`, with both loops;
  - the properties of the built document.

The key test at utils.ts:38-39 accepts a secret named `encrypt.key` whose
path is falsy or exactly `"/"`. So an absent path, `""` and `"/"` all
count as the root for key selection, not only an absent path or `"/"`. The
path `"//"` does not pass the test. Its segments are empty, though, so a
secret there still lands directly under the root.
`DoubleSlashKeyIsInsertedNotUsed` states this.

## Model

| member | source | states |
|---|---|---|
| Encoding.Utf8Char | utils.ts:68 | one to four bytes per character; exactly one byte, the character code, for ASCII |
| Encoding.Utf8Length | utils.ts:68 | the UTF-8 encoding of a string has between one and four bytes per character |
| Encoding.Utf8Ascii | utils.ts:68 | an ASCII string encodes to its own character codes, one byte each |
| Encoding.Utf8Append | utils.ts:68 | UTF-8 encoding of a concatenation is the concatenation of the encodings |
| Encoding.DigitValue | utils.ts:72 | a character's base64 value is -1 or 0..63, and a value of 0..63 is the digit that maps back to the character |
| Encoding.DigitValueOfDigit | utils.ts:72 | reading back the digit written for a 6-bit value gives that value |
| Encoding.Base64Shape | utils.ts:72 | `btoa` output is 4 characters per started group of 3 bytes, every one a base64 digit or '=' |
| Encoding.Base64RoundTrip | utils.ts:72 | decoding the base64 of any bytes gives those bytes back: the encoding loses nothing |
| ValueCipher.Iv | utils.ts:69-70 | the IV is 8 bytes; byte i is key byte i while the key lasts, 0 after |
| ValueCipher.DeriveIv | utils.ts:68-71 | the zero-filled 8-byte array, overwritten in place with at most 8 key bytes, holds exactly that layout |
| ValueCipher.IvIgnoresKeyTail | utils.ts:68-70 | key bytes past the eighth never change the IV |
| ValueCipher.IvOfAsciiKey | utils.ts:68-70 | for an ASCII key of 8 or more characters, the IV is the codes of its first 8 characters |
| ValueCipher.TokenRoundTrip | utils.ts:72 | unwrapping "![...]" and base64-decoding a token gives exactly the ciphertext Blowfish produced under the key and its IV |
| ValueCipher.TokenShape | utils.ts:72 | a token is "![", then 4 base64 digits or '=' per started group of 3 ciphertext bytes, then "]" |
| ValueCipher.EncryptValue | utils.ts:66-73 | the token is that of the ciphertext under the derived IV, so it depends on the plaintext and key alone |
| SecretPaths.Split | utils.ts:51 | `split("/")` always yields at least one piece |
| SecretPaths.SplitPieces | utils.ts:51 | no piece of `split("/")` contains a slash |
| SecretPaths.JoinSplit | utils.ts:51 | joining the pieces with '/' gives the path back: splitting loses nothing |
| SecretPaths.DropEmpty | utils.ts:51 | `filter(Boolean)` keeps no empty string and never grows the list |
| SecretPaths.DropEmptyOne | utils.ts:51 | a single piece survives `filter(Boolean)` exactly when it is non-empty; with `DropEmptyAppend` this determines the filter on every list, order included |
| SecretPaths.DropEmptyKeepsNonEmpty | utils.ts:51 | every non-empty piece of the input survives the filter |
| SecretPaths.DropEmptyKeeps | utils.ts:51 | every piece that survives the filter was a piece of the input |
| SecretPaths.DropEmptyAppend | utils.ts:51 | filtering a concatenation filters each part |
| SecretPaths.SegmentsWellFormed | utils.ts:51 | every segment of a path is non-empty and slash-free |
| SecretPaths.SplitAppend | utils.ts:51 | splitting `a + "/" + b` gives the pieces of a followed by those of b |
| SecretPaths.SegmentsAppend | utils.ts:51 | the segments of `a/b` are those of a followed by those of b |
| SecretPaths.SegmentsOfName | utils.ts:51 | a slash-free name is a single segment, or none if empty |
| SecretPaths.RootPathsHaveNoSegments | utils.ts:51 | "" and "/" have no segments |
| SecretPaths.SlashesCollapse | utils.ts:51 | a leading slash, a trailing slash and a doubled slash never change the segments |
| SecretPaths.SlashVariantsAgree | utils.ts:51 | "/a//b/" and "a/b" both have the segments ["a", "b"] |
| SecretPaths.CanonicalSegments | utils.ts:51 | the segments of a well-formed segment list joined by single slashes are that list again |
| SecretTree.Keys | utils.ts:49-62 | a record's property names, one per property, in insertion order |
| SecretTree.Get | utils.ts:55 | reading `node[k]` finds nothing exactly when no property is named k |
| SecretTree.PutGet | utils.ts:58 | after `node[k] = v`, reading k gives v and every other property reads as before |
| SecretTree.PutKeys | utils.ts:58 | `node[k] = v` keeps the property order and appends k only when it is new |
| SecretTree.PutPut | utils.ts:55-58 | a second assignment to the same property overrides the first |
| SecretTree.InsertWrites | utils.ts:53-58 | after an insertion, its address holds the inserted value |
| SecretTree.InsertKeepsOthers | utils.ts:53-58 | an insertion leaves every address neither on its way nor below it unchanged, so entries under a shared prefix survive |
| SecretTree.InsertClearsBelow | utils.ts:58 | a token written over a record discards the whole subtree below it |
| SecretTree.InsertKeys | utils.ts:53-60 | an insertion leaves the top record's keys as before, plus its first step if that is new |
| SecretTree.InsertMakesRecords | utils.ts:54-56 | every step on an insertion's way is a record afterwards: an existing record keeps its keys in order, anything else becomes a fresh record holding only the next step |
| SecretTree.InsertWellFormed | utils.ts:53-60 | insertion never creates two properties of one name in a record |
| SecretTree.PutAtIsInsert | utils.ts:53-58 | assigning through a cursor whose every step names a record is the specified insertion |
| SecretTree.StepIntoRecord | utils.ts:54-56 | when `node[p]` is a record, the cursor can step into it |
| SecretTree.StepIntoFreshRecord | utils.ts:55-56 | after `node[p] = {}`, the cursor can step into p |
| SecretTree.FreshRecordKeepsInsert | utils.ts:55 | replacing a missing value or a token on the way by `{}` does not change the pending insertion's result |
| SecretTree.WalkStep | utils.ts:54-56 | each step of the walk keeps the cursor on records and keeps the pending insertion's result |
| SecretTree.ApplyLastWriteWins | utils.ts:50-61 | in a run of insertions, a write whose address no later write meets is found at that address |
| SecretTree.ApplyLeaves | utils.ts:50-61 | every token in the result was written by some write that assigned exactly that address |
| SecretTree.ApplyWellFormed | utils.ts:50-61 | a run of insertions never creates duplicate property names |
| SecretTree.ApplyEmptyIff | utils.ts:49-62 | the result stays `{}` exactly when no write is present |
| SecretTreeBuilder.FindKeySecret | utils.ts:37-40 | `find` returns the first key secret from the given index on, or none exactly when there is none |
| SecretTreeBuilder.EnsureRecord | utils.ts:55 | a record at `node[p]` is kept; anything else is replaced by `{}` through the cursor |
| SecretTreeBuilder.AssignThroughCursor | utils.ts:53-58 | the inner loop's cursor walk plus `node[k] = v` is exactly the specified insertion |
| SecretTreeBuilder.YamlifySecrets | utils.ts:35-64 | the imperative builder returns exactly what `Build` specifies: the failure, or the key and the document |
| SecretTreeBuilder.FirstKeySecretDecides | utils.ts:37-47 | the first root `encrypt.key` secret decides: an empty value fails; otherwise its value is the key and it alone is skipped |
| SecretTreeBuilder.NoKeySecretFails | utils.ts:41-47 | without a root `encrypt.key` secret the build fails |
| SecretTreeBuilder.BuildSucceedsIff | utils.ts:37-47 | the build succeeds iff the first root `encrypt.key` secret exists with a non-empty value, and the key is then that secret's value, never a later duplicate's |
| SecretTreeBuilder.RootPathsInsertAtRoot | utils.ts:51-60 | an absent path, "" and "/" all put the secret directly under the root |
| SecretTreeBuilder.KeySecretAddress | utils.ts:39-60 | every root `encrypt.key` secret is addressed as `root["encrypt.key"]` |
| SecretTreeBuilder.SlashSpellingsInsertAlike | utils.ts:51-57 | "/a//b/" and "a/b" put a secret at the same address, under "a" then "b" |
| SecretTreeBuilder.CanonicalPathInsertsAlike | utils.ts:51-57 | any path puts a secret where its segments joined by single slashes do |
| SecretTreeBuilder.DoubleSlashKeyIsInsertedNotUsed | utils.ts:39-51 | an `encrypt.key` secret at "//" is not taken as the key, yet it is addressed as `root["encrypt.key"]` |
| SecretTreeBuilder.BuildLastWriteWins | utils.ts:50-61 | every secret other than the key secret, when no later secret's address meets its own, is found at its address as its value encrypted under the chosen key |
| SecretTreeBuilder.LaterKeyDuplicateIsInserted | utils.ts:37-61 | a later root `encrypt.key` duplicate is not excluded; it appears at `root["encrypt.key"]`, encrypted |
| SecretTreeBuilder.PathedKeySecretIsInserted | utils.ts:39-58 | an `encrypt.key` secret under a path with segments is never the key and is inserted under its path, encrypted |
| SecretTreeBuilder.BuildLeavesAreTokens | utils.ts:50-61 | every token in the document is `encryptValue(value, key)` of a secret other than the chosen key secret, at that secret's address |
| SecretTreeBuilder.BuildWellFormed | utils.ts:49-62 | the built document has no duplicate property names in any record |
| SecretTreeBuilder.BuildEmptyIff | utils.ts:49-62 | on success the document is empty exactly when the key secret is the only secret |
| SecretTreeBuilder.OnlyKeyBuildsEmptyDocument | utils.ts:35-64 | a list holding only the root key secret yields that key and an empty document |
| SecretTreeBuilder.DbPassExample | utils.ts:35-64 | key "k1" plus secret "pass" under "db" builds `{ db: { pass: encryptValue("secret", "k1") } }` |

## Left out

- YAML `stringify` (utils.ts:63): the serialiser is a library whose code is not part of this model. The result holds the document itself; quoting, layout and key escaping are not modelled.
- Blowfish (utils.ts:67, 71-72): the cipher library's code is not part of this model. `BlowfishCbc` stands for `new Blowfish(key, CBC, PKCS5)`, `setIv` and `encode` together. Nothing is proved about the cipher beyond its being a function of the key, the IV and the plaintext.
- `console.error` and `Deno.exit(1)` (utils.ts:43-46): both become the result `Failure(MissingEncryptionKey)`. The message text and the process exit are not modelled.
- The cursor `node` (utils.ts:53-56) is modelled by the address it stands at. It is not a reference into shared mutable records. The document is a value, so aliasing between nested records is not captured. Updates happen on values, in the same order.
- JavaScript property order: the model keeps every record in insertion order. JavaScript lists integer-like property names (such as "0" or "42") first, in numeric order. That ordering, and the order it gives the YAML output, is not modelled.
- Special property names: the model reads and writes every property name as an own property of an ordinary record, which matches a runtime where `Object.prototype.__proto__` is absent (Deno's default). On an engine that has that accessor, `node["__proto__"]` on a fresh `{}` reads `Object.prototype`, an object, so the test at utils.ts:55 does not replace it: the cursor steps into `Object.prototype`, later writes land outside the document, and a leaf write of a token to `__proto__` (utils.ts:58) is ignored. That behaviour is not modelled.
- SecretTree.Get: `node[p]` in JavaScript also reads inherited `Object.prototype` members such as `constructor` or `toString`, while `Get` reports every name the record does not hold as absent. At utils.ts:55 those inherited members are functions, so `typeof` sends them to the same `node[p] = {}` branch as a missing name and the document comes out the same; the difference is in the read alone.
- `String.fromCharCode(...bytes)` (utils.ts:72): a large enough ciphertext exceeds the engine's argument limit and throws. The model assumes every ciphertext fits. It encodes the bytes directly, which is what `btoa` does with a string of byte-valued characters.
- `TextEncoder` on lone surrogate code units: Dafny's `char` is a Unicode scalar value, so such a key cannot be written down. The encoder would replace the unit by U+FFFD.
- The other fields of the vault SDK's secret record: only `secretPath`, `secretKey` and `secretValue` are modelled. Besides those three fields, the code reads only each secret's object identity, at utils.ts:50, and the next line covers that.
- SecretTreeBuilder.Writes: secrets are modelled as values, and the identity filter `s !== encryptKeySecret` (utils.ts:50) as skipping the list position that `find` chose. The two agree whenever no secret object occurs twice in the list. The vault SDK's freshly parsed secret list, which every caller passes, never repeats an object. If the same object did appear twice, the code would drop every occurrence, while the model inserts the later ones. `FirstKeySecretDecides`, `BuildEmptyIff`, `BuildLastWriteWins` and `LaterKeyDuplicateIsInserted` state the position-based behaviour, so they describe the code only for lists without a repeated object.
- The rest of utils.ts is not part of this model. That is the configuration discovery, environment, HTTP and file helpers, and the vault orchestration. They are I/O with no logic of their own to verify. So are inject.ts, build.ts, keyring.ts, main.ts, fileText.ts and command.ts.
