/**
 * The secret-tree builder, `yamlifySecrets` (utils.ts:35-64): find the
 * encryption key among the vault's secrets, then insert every other secret,
 * encrypted, at the place its path names in a nested document.
 */
module SecretTreeBuilder {
  import opened Wrappers
  import opened SecretPaths
  import opened SecretTree
  import opened ValueCipher

  /** A vault secret: an optional slash-delimited path, a key and a plaintext value. */
  datatype Secret = Secret(secretPath: Option<string>, secretKey: string, secretValue: string)

  /** The only way the builder fails: no usable `encrypt.key` secret at the root. */
  datatype BuildError = MissingEncryptionKey

  /** What the builder returns: the key, and the document handed to the YAML serialiser. */
  datatype Built = Built(key: string, document: Record)

  /** The name of the secret that holds the encryption key. */
  const EncryptKeyName := "encrypt.key"

  /**
   * The test `find` applies (utils.ts:38-39): the path is absent or empty
   * (both falsy) or exactly "/", and the key is exactly "encrypt.key".
   */
  predicate IsKeySecret(s: Secret)
  {
    (s.secretPath.None? || s.secretPath.value == "" || s.secretPath.value == "/") && s.secretKey == EncryptKeyName
  }

  /** `secrets.find(...)` from position `from` on: the index of the first key secret, if any. */
  function FindKeySecret(secrets: seq<Secret>, from: nat): (r: Option<nat>)
    requires from <= |secrets|
    ensures r.Some? ==> from <= r.value < |secrets| && IsKeySecret(secrets[r.value])
    ensures r.Some? ==> forall j :: from <= j < r.value ==> !IsKeySecret(secrets[j])
    ensures r.None? ==> forall j :: from <= j < |secrets| ==> !IsKeySecret(secrets[j])
    decreases |secrets| - from
  {
    if from == |secrets| then None
    else if IsKeySecret(secrets[from]) then Some(from)
    else FindKeySecret(secrets, from + 1)
  }

  /**
   * `s.secretPath?.split("/").filter(Boolean)` (utils.ts:51): no segment
   * list for an absent path, which then goes to the root directly.
   */
  function PathParts(path: Option<string>): Option<seq<string>>
  {
    match path
    case None => None
    case Some(p) => Some(Segments(p))
  }

  /** The segments a secret is inserted under: none when it goes to the root. */
  function Location(s: Secret): seq<string>
  {
    match PathParts(s.secretPath)
    case None => []
    case Some(parts) => parts
  }

  /** Where a secret's token ends up in the document: its location, then its key. */
  function Address(s: Secret): seq<string>
  {
    Location(s) + [s.secretKey]
  }

  /** The assignment a secret makes: its token, at its key, under its location (utils.ts:50-60). */
  function WriteOf(blowfish: BlowfishCbc, s: Secret, key: string): Write
  {
    Write(Location(s), s.secretKey, Leaf(Token(blowfish, s.secretValue, key)))
  }

  /**
   * The assignments of the secrets in list order; the key secret at index `skip` makes none
   * (utils.ts:50). The code filters by object identity; with no object repeated in the list,
   * that removes exactly this one position.
   */
  function Writes(blowfish: BlowfishCbc, secrets: seq<Secret>, skip: nat, key: string): seq<Option<Write>>
  {
    seq(|secrets|, i requires 0 <= i < |secrets| => if i == skip then None else Some(WriteOf(blowfish, secrets[i], key)))
  }

  /** The specification of `yamlifySecrets` (utils.ts:35-64). */
  function Build(blowfish: BlowfishCbc, secrets: seq<Secret>): Result<Built, BuildError>
  {
    match FindKeySecret(secrets, 0)
    case None => Failure(MissingEncryptionKey)
    case Some(i) =>
      var key := secrets[i].secretValue;
      if key == "" then Failure(MissingEncryptionKey)
      else Success(Built(key, Apply(Writes(blowfish, secrets, i, key))))
  }

  /**
   * `if (typeof node[p] !== 'object' || node[p] === null) node[p] = {}`
   * (utils.ts:55) with the cursor standing at `at`: a record there is kept,
   * anything else is replaced by a fresh empty record.
   */
  method EnsureRecord(root: Record, at: seq<string>, p: string) returns (root': Record)
    requires IsRecordPath(root, at)
    ensures root' == if Get(Cursor(root, at), p).Some? && Get(Cursor(root, at), p).value.Map? then root
                     else PutAt(root, at, p, Map([]))
  {
    root' := root;
    var child := Get(Cursor(root, at), p);
    if !(child.Some? && child.value.Map?) {
      root' := PutAt(root, at, p, Map([]));
    }
  }

  /**
   * The inner loop of `yamlifySecrets` (utils.ts:53-58): a cursor starts at
   * the root and steps through each segment, replacing whatever is not a
   * record by `{}`; then `node[k] = v`. The cursor `node` is held as the
   * address `at` it stands at.
   */
  method AssignThroughCursor(root: Record, segs: seq<string>, k: string, v: Node) returns (root': Record)
    ensures root' == Insert(root, segs, k, v)
  {
    root' := root;
    var at: seq<string> := [];
    var j := 0;
    while j < |segs|
      invariant 0 <= j <= |segs|
      invariant at == segs[..j]
      invariant IsRecordPath(root', at)
      invariant Insert(root', segs, k, v) == Insert(root, segs, k, v)
    {
      var p := segs[j];
      ghost var before := root';
      root' := EnsureRecord(root', at, p);
      WalkStep(before, at, p, segs, k, v, root');
      StepsTaken(segs, j);
      at := at + [p];
      j := j + 1;
    }
    assert at == segs;
    PutAtIsInsert(root', at, k, v);
    root' := PutAt(root', at, k, v);
  }

  /**
   * `yamlifySecrets(secrets)` (utils.ts:35-64), with the JavaScript cursor
   * `node` held as the address `at` it stands at. The document is built by
   * the loop in place; the result is the one `Build` specifies.
   */
  method YamlifySecrets(blowfish: BlowfishCbc, secrets: seq<Secret>) returns (r: Result<Built, BuildError>)
    ensures r == Build(blowfish, secrets)
  {
    var found := FindKeySecret(secrets, 0);
    if found.None? || secrets[found.value].secretValue == "" {
      return Failure(MissingEncryptionKey);
    }
    var skip := found.value;
    var key := secrets[skip].secretValue;
    ghost var ws := Writes(blowfish, secrets, skip, key);
    var root: Record := [];
    var i := 0;
    while i < |secrets|
      invariant 0 <= i <= |secrets|
      invariant root == Apply(ws[..i])
    {
      var s := secrets[i];
      ApplyNext(ws, i);
      if i != skip {
        assert ws[i] == Some(WriteOf(blowfish, s, key));
        var token := EncryptValue(blowfish, s.secretValue, key);
        var parts := PathParts(s.secretPath);
        if parts.Some? {
          root := AssignThroughCursor(root, parts.value, s.secretKey, Leaf(token));
        } else {
          root := Put(root, s.secretKey, Leaf(token));
        }
      }
      i := i + 1;
    }
    assert ws[..i] == ws;
    return Success(Built(key, root));
  }

  // ------------------------------------------------------- key selection

  /** Index `i` holds the first secret in list order that `find` accepts. */
  predicate IsFirstKeySecret(secrets: seq<Secret>, i: int)
  {
    0 <= i < |secrets| && IsKeySecret(secrets[i]) && forall j :: 0 <= j < i ==> !IsKeySecret(secrets[j])
  }

  /**
   * The first root `encrypt.key` secret decides the outcome: its value is
   * the key when it is non-empty, and the build fails when it is empty,
   * whatever later duplicates hold (utils.ts:37-47).
   */
  lemma FirstKeySecretDecides(blowfish: BlowfishCbc, secrets: seq<Secret>, i: int)
    requires IsFirstKeySecret(secrets, i)
    ensures secrets[i].secretValue == "" ==> Build(blowfish, secrets) == Failure(MissingEncryptionKey)
    ensures secrets[i].secretValue != "" ==>
      Build(blowfish, secrets) == Success(Built(secrets[i].secretValue, Apply(Writes(blowfish, secrets, i, secrets[i].secretValue))))
  {
    assert FindKeySecret(secrets, 0) == Some(i);
  }

  /** Without a root `encrypt.key` secret the build fails (utils.ts:41-47). */
  lemma NoKeySecretFails(blowfish: BlowfishCbc, secrets: seq<Secret>)
    requires forall j :: 0 <= j < |secrets| ==> !IsKeySecret(secrets[j])
    ensures Build(blowfish, secrets) == Failure(MissingEncryptionKey)
  {
    assert FindKeySecret(secrets, 0) == None;
  }

  /**
   * The build succeeds exactly when the first root `encrypt.key` secret
   * exists and has a non-empty value, and then returns that value as the key.
   */
  lemma BuildSucceedsIff(blowfish: BlowfishCbc, secrets: seq<Secret>)
    ensures Build(blowfish, secrets).Success? <==>
      exists i :: IsFirstKeySecret(secrets, i) && secrets[i].secretValue != ""
    ensures forall i :: IsFirstKeySecret(secrets, i) && Build(blowfish, secrets).Success? ==>
      Build(blowfish, secrets).value.key == secrets[i].secretValue
  {
    var found := FindKeySecret(secrets, 0);
    if found.Some? {
      assert IsFirstKeySecret(secrets, found.value);
      FirstKeySecretDecides(blowfish, secrets, found.value);
      forall i | IsFirstKeySecret(secrets, i) ensures i == found.value {
        FirstKeySecretDecides(blowfish, secrets, i);
        assert !IsKeySecret(secrets[found.value]) || found.value >= i;
        assert !IsKeySecret(secrets[i]) || i >= found.value;
      }
    } else {
      NoKeySecretFails(blowfish, secrets);
      forall i | 0 <= i < |secrets| ensures !IsFirstKeySecret(secrets, i) {
        assert !IsKeySecret(secrets[i]);
      }
    }
  }

  // ---------------------------------------------------------------- paths

  /** An absent path, "" and "/" all put the secret straight under the root (utils.ts:51-60). */
  lemma RootPathsInsertAtRoot(k: string, v: string)
    ensures Address(Secret(None, k, v)) == [k]
    ensures Address(Secret(Some(""), k, v)) == [k]
    ensures Address(Secret(Some("/"), k, v)) == [k]
  {
    RootPathsHaveNoSegments();
  }

  /** Every root `encrypt.key` secret, chosen or not, is addressed as `root["encrypt.key"]`. */
  lemma KeySecretAddress(s: Secret)
    requires IsKeySecret(s)
    ensures Address(s) == [EncryptKeyName]
  {
    RootPathsHaveNoSegments();
  }

  /** "/a//b/" and "a/b" put a secret at the same place, under "a" then "b" (utils.ts:51-57). */
  lemma SlashSpellingsInsertAlike(k: string, v: string, w: string)
    ensures Address(Secret(Some("/a//b/"), k, v)) == Address(Secret(Some("a/b"), k, w)) == ["a", "b", k]
  {
    SlashVariantsAgree();
  }

  /** Every path puts a secret where its canonical spelling, the segments joined by single slashes, does. */
  lemma CanonicalPathInsertsAlike(p: string, k: string, v: string)
    ensures Address(Secret(Some(p), k, v)) == Address(Secret(Some(Canonical(Segments(p))), k, v))
  {
    SegmentsWellFormed(p);
    CanonicalSegments(Segments(p));
  }

  /**
   * The key test and the path walk disagree on "//": a secret there named
   * `encrypt.key` is not taken as the key, yet it is inserted at
   * `root["encrypt.key"]` like a root secret (utils.ts:39, 51).
   */
  lemma DoubleSlashKeyIsInsertedNotUsed(v: string)
    ensures !IsKeySecret(Secret(Some("//"), EncryptKeyName, v))
    ensures Address(Secret(Some("//"), EncryptKeyName, v)) == [EncryptKeyName]
  {
    SlashesCollapse("/", "");
    assert "/" + "/" == "//";
    RootPathsHaveNoSegments();
  }

  // ------------------------------------------------- the builder's promises

  /**
   * Last write wins on the built document (utils.ts:50, 58, 60): the `j`-th
   * secret, when it is not the key secret and no later secret's address
   * meets its own (equal to it, on its way, or below it), is found at its
   * address as its value encrypted under the chosen key.
   */
  lemma BuildLastWriteWins(blowfish: BlowfishCbc, secrets: seq<Secret>, i: nat, j: nat)
    requires IsFirstKeySecret(secrets, i) && secrets[i].secretValue != ""
    requires j < |secrets| && j != i
    requires forall m :: j < m < |secrets| && m != i ==> !Comparable(Address(secrets[m]), Address(secrets[j]))
    ensures Build(blowfish, secrets).Success?
    ensures Lookup(Build(blowfish, secrets).value.document, Address(secrets[j])) ==
            Some(Leaf(Token(blowfish, secrets[j].secretValue, secrets[i].secretValue)))
  {
    var key := secrets[i].secretValue;
    var ws := Writes(blowfish, secrets, i, key);
    FirstKeySecretDecides(blowfish, secrets, i);
    assert ws[j] == Some(WriteOf(blowfish, secrets[j], key));
    forall m | j < m < |ws| && ws[m].Some?
      ensures !Comparable(Target(ws[m].value), Target(ws[j].value))
    {
      assert ws[m] == Some(WriteOf(blowfish, secrets[m], key));
    }
    ApplyLastWriteWins(ws, j);
  }

  /**
   * A later root `encrypt.key` secret is not excluded: only the one `find`
   * chose is. It is inserted at `root["encrypt.key"]`, encrypted like any
   * other value (utils.ts:50).
   */
  lemma LaterKeyDuplicateIsInserted(blowfish: BlowfishCbc, secrets: seq<Secret>, i: nat, j: nat)
    requires IsFirstKeySecret(secrets, i) && secrets[i].secretValue != ""
    requires i < j < |secrets| && IsKeySecret(secrets[j])
    requires forall m :: j < m < |secrets| ==> !Comparable(Address(secrets[m]), [EncryptKeyName])
    ensures Build(blowfish, secrets).Success?
    ensures Lookup(Build(blowfish, secrets).value.document, [EncryptKeyName]) ==
            Some(Leaf(Token(blowfish, secrets[j].secretValue, secrets[i].secretValue)))
  {
    KeySecretAddress(secrets[j]);
    BuildLastWriteWins(blowfish, secrets, i, j);
  }

  /**
   * An `encrypt.key` secret under a path with segments is never taken as
   * the key; it is inserted under its path like any other secret
   * (utils.ts:39, 50-58).
   */
  lemma PathedKeySecretIsInserted(blowfish: BlowfishCbc, secrets: seq<Secret>, i: nat, j: nat)
    requires IsFirstKeySecret(secrets, i) && secrets[i].secretValue != ""
    requires j < |secrets| && secrets[j].secretKey == EncryptKeyName && Location(secrets[j]) != []
    requires forall m :: j < m < |secrets| && m != i ==> !Comparable(Address(secrets[m]), Address(secrets[j]))
    ensures !IsKeySecret(secrets[j])
    ensures Build(blowfish, secrets).Success?
    ensures Lookup(Build(blowfish, secrets).value.document, Location(secrets[j]) + [EncryptKeyName]) ==
            Some(Leaf(Token(blowfish, secrets[j].secretValue, secrets[i].secretValue)))
  {
    RootPathsHaveNoSegments();
    KeySecretAddress(secrets[i]);
    assert |Location(secrets[i])| == 0;
    BuildLastWriteWins(blowfish, secrets, i, j);
  }

  /**
   * Every token of the built document is the encryption, under the one
   * chosen key, of a secret other than the chosen key secret, and sits at
   * that secret's address (utils.ts:50, 58, 60).
   */
  lemma BuildLeavesAreTokens(blowfish: BlowfishCbc, secrets: seq<Secret>, i: nat, addr: seq<string>, t: string)
    requires IsFirstKeySecret(secrets, i) && secrets[i].secretValue != ""
    requires addr != [] && Lookup(Build(blowfish, secrets).value.document, addr) == Some(Leaf(t))
    ensures exists j :: (0 <= j < |secrets| && j != i && Address(secrets[j]) == addr &&
                         t == Token(blowfish, secrets[j].secretValue, secrets[i].secretValue))
  {
    var key := secrets[i].secretValue;
    var ws := Writes(blowfish, secrets, i, key);
    FirstKeySecretDecides(blowfish, secrets, i);
    ApplyLeaves(ws, addr, t);
    var j :| 0 <= j < |ws| && ws[j].Some? && Target(ws[j].value) == addr && ws[j].value.value == Leaf(t);
    assert ws[j] == Some(WriteOf(blowfish, secrets[j], key));
  }

  /** The built document never holds two properties of the same name in one record. */
  lemma BuildWellFormed(blowfish: BlowfishCbc, secrets: seq<Secret>)
    requires Build(blowfish, secrets).Success?
    ensures WellFormed(Map(Build(blowfish, secrets).value.document))
  {
    var i := FindKeySecret(secrets, 0).value;
    var ws := Writes(blowfish, secrets, i, secrets[i].secretValue);
    ApplyWellFormed(ws);
  }

  /**
   * The built document is empty exactly when the chosen key secret is the
   * only secret: it is the one secret never inserted (utils.ts:50).
   */
  lemma BuildEmptyIff(blowfish: BlowfishCbc, secrets: seq<Secret>)
    requires Build(blowfish, secrets).Success?
    ensures Build(blowfish, secrets).value.document == [] <==> |secrets| == 1
  {
    var i := FindKeySecret(secrets, 0).value;
    var ws := Writes(blowfish, secrets, i, secrets[i].secretValue);
    ApplyEmptyIff(ws);
    if |secrets| != 1 {
      var m := if i == 0 then 1 else 0;
      assert ws[m].Some?;
    }
  }

  /** A list holding only the key secret builds an empty document. */
  lemma OnlyKeyBuildsEmptyDocument(blowfish: BlowfishCbc, key: string)
    requires key != ""
    ensures Build(blowfish, [Secret(None, EncryptKeyName, key)]) == Success(Built(key, []))
  {
    var secrets := [Secret(None, EncryptKeyName, key)];
    assert IsFirstKeySecret(secrets, 0);
    FirstKeySecretDecides(blowfish, secrets, 0);
    BuildEmptyIff(blowfish, secrets);
  }

  /**
   * A small example: the root key "k1" and a secret "pass" under "db"
   * give `{ db: { pass: encryptValue("secret", "k1") } }`.
   */
  lemma DbPassExample(blowfish: BlowfishCbc)
    ensures Build(blowfish, [Secret(None, EncryptKeyName, "k1"), Secret(Some("db"), "pass", "secret")]) ==
            Success(Built("k1", [("db", Map([("pass", Leaf(Token(blowfish, "secret", "k1")))]))]))
  {
    SegmentsOfName("db");
    var secrets := [Secret(None, EncryptKeyName, "k1"), Secret(Some("db"), "pass", "secret")];
    var leaf := Leaf(Token(blowfish, "secret", "k1"));
    var ws := Writes(blowfish, secrets, 0, "k1");
    assert IsFirstKeySecret(secrets, 0);
    FirstKeySecretDecides(blowfish, secrets, 0);
    assert ws[..1][..0] == [];
    assert Apply(ws[..1]) == [];
    assert ws[..|ws| - 1] == ws[..1];
    assert Location(secrets[1]) == ["db"];
    assert Child([], "db") == [];
    assert Insert([], [], "pass", leaf) == [("pass", leaf)];
    assert Insert([], ["db"], "pass", leaf) == [("db", Map([("pass", leaf)]))];
  }
}
