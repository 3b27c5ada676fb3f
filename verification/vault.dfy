/** At-rest protection of the private key (`argon_protect` and
    `decrypt_private_key` of src/encrypt.py; src/helpers.py repeats
    `argon_protect` with the same layout and parameters) and the
    three-attempt `pgp_decrypt_message` of src/encrypt.py.

    Argon2, AES-GCM and the PGP engine are not modelled: they are
    function-valued fields of `Primitives` and `Engine`, and what the proofs
    need of AES-GCM is stated as predicates (`AeadCorrect`, ...) that lemmas
    take as hypotheses. */
module Vault {
  import opened Wrappers
  import opened Text
  import opened Seqs

  datatype Argon2Type = Argon2d | Argon2i | Argon2id

  datatype KdfParams = KdfParams(kind: Argon2Type, timeCost: nat, memoryCost: nat,
                                 parallelism: nat, hashLen: nat)

  /** The one parameter set both protection and unlocking use. */
  const VaultKdf: KdfParams := KdfParams(Argon2i, 2, 102400, 8, 32)

  const SaltLength: nat := 16
  const NonceLength: nat := 12
  const HeaderLength: nat := SaltLength + NonceLength
  /** AES-GCM appends a 128-bit tag. */
  const TagLength: nat := 16

  /** `hash_secret_raw(secret, salt, params)`, `AESGCM(key).encrypt(nonce,
      data, aad)` and `AESGCM(key).decrypt(nonce, data, aad)`; a decryption
      that raises is `None`. */
  datatype Primitives = Primitives(
    kdf: (seq<byte>, seq<byte>, KdfParams) -> seq<byte>,
    seal: (seq<byte>, seq<byte>, seq<byte>, Option<seq<byte>>) -> seq<byte>,
    open: (seq<byte>, seq<byte>, seq<byte>, Option<seq<byte>>) -> Option<seq<byte>>)

  /** Authenticated decryption undoes encryption under the same key, nonce and
      associated data. */
  ghost predicate AeadCorrect(p: Primitives) {
    forall key, nonce, m, aad :: p.open(key, nonce, p.seal(key, nonce, m, aad), aad) == Some(m)
  }

  /** Encryption appends a tag of `TagLength` octets. */
  ghost predicate TagAppended(p: Primitives) {
    forall key, nonce, m, aad :: |p.seal(key, nonce, m, aad)| == |m| + TagLength
  }

  /** A ciphertext too short to hold a tag never decrypts. */
  ghost predicate RejectsShort(p: Primitives) {
    forall key, nonce, c, aad :: |c| < TagLength ==> p.open(key, nonce, c, aad) == None
  }

  function DeriveKey(p: Primitives, password: seq<byte>, salt: seq<byte>): seq<byte> {
    p.kdf(password, salt, VaultKdf)
  }

  /** The three fields of a key blob. */
  datatype BlobParts = BlobParts(salt: seq<byte>, nonce: seq<byte>, ciphertext: seq<byte>)

  /** `data[:16]`, `data[16:28]`, `data[28:]`, with Python's clamping of slices
      that run past the end. */
  function SplitBlob(data: seq<byte>): (r: BlobParts)
    ensures r.salt + r.nonce + r.ciphertext == data
    ensures |data| >= HeaderLength ==> |r.salt| == SaltLength && |r.nonce| == NonceLength
    ensures |data| < HeaderLength ==> r.ciphertext == []
  {
    var a := if |data| < SaltLength then |data| else SaltLength;
    var b := if |data| < HeaderLength then |data| else HeaderLength;
    assert data[..a] + data[a..b] + data[b..] == data;
    BlobParts(data[..a], data[a..b], data[b..])
  }

  /** `salt + nonce + encrypted_key`, as written to the key file. */
  function JoinBlob(parts: BlobParts): seq<byte> {
    parts.salt + parts.nonce + parts.ciphertext
  }

  /** Splitting what `JoinBlob` wrote gives the same three fields back. */
  lemma SplitJoinBlob(parts: BlobParts)
    requires |parts.salt| == SaltLength && |parts.nonce| == NonceLength
    ensures SplitBlob(JoinBlob(parts)) == parts
  {
    var data := JoinBlob(parts);
    assert data[..SaltLength] == parts.salt;
    assert data[SaltLength..HeaderLength] == parts.nonce;
    assert data[HeaderLength..] == parts.ciphertext;
  }

  /** Joining the fields of any blob of at least 28 octets gives it back. */
  lemma JoinSplitBlob(data: seq<byte>)
    requires |data| >= HeaderLength
    ensures JoinBlob(SplitBlob(data)) == data
  {
  }

  /** `argon_protect`: derive a key from the password and a fresh salt,
      encrypt the key file's octets with a fresh nonce and no associated data,
      and lay out salt, nonce and ciphertext. The fresh salt and nonce
      (`os.urandom`) are parameters. */
  function Protect(p: Primitives, keyBytes: seq<byte>, password: seq<byte>,
                   salt: seq<byte>, nonce: seq<byte>): (blob: seq<byte>)
    requires |salt| == SaltLength && |nonce| == NonceLength
    ensures |blob| >= HeaderLength
    ensures SplitBlob(blob) == BlobParts(salt, nonce, p.seal(DeriveKey(p, password, salt), nonce, keyBytes, None))
  {
    var parts := BlobParts(salt, nonce, p.seal(DeriveKey(p, password, salt), nonce, keyBytes, None));
    SplitJoinBlob(parts);
    JoinBlob(parts)
  }

  /** With tags appended, a blob is 28 octets of header, the key and a tag. */
  lemma ProtectLength(p: Primitives, keyBytes: seq<byte>, password: seq<byte>,
                      salt: seq<byte>, nonce: seq<byte>)
    requires TagAppended(p)
    requires |salt| == SaltLength && |nonce| == NonceLength
    ensures |Protect(p, keyBytes, password, salt, nonce)| == HeaderLength + |keyBytes| + TagLength
  {
  }

  datatype VaultError = AuthenticationFailed

  /** `decrypt_private_key`: re-derive the key from the stored salt and the
      password, then decrypt the ciphertext with the stored nonce and no
      associated data. Parsing the recovered octets as a PGP key is not part
      of this model. */
  function Unlock(p: Primitives, blob: seq<byte>, password: seq<byte>): (r: Result<seq<byte>, VaultError>)
    ensures var parts := SplitBlob(blob);
            var dec := p.open(DeriveKey(p, password, parts.salt), parts.nonce, parts.ciphertext, None);
            (r.Ok? <==> dec.Some?) && (r.Ok? ==> r.value == dec.value)
  {
    var parts := SplitBlob(blob);
    match p.open(DeriveKey(p, password, parts.salt), parts.nonce, parts.ciphertext, None)
    case None => Err(AuthenticationFailed)
    case Some(keyBytes) => Ok(keyBytes)
  }

  /** Unlocking a protected key with the same password gives the key back,
      whatever salt and nonce were drawn. */
  lemma UnlockProtect(p: Primitives, keyBytes: seq<byte>, password: seq<byte>,
                      salt: seq<byte>, nonce: seq<byte>)
    requires AeadCorrect(p)
    requires |salt| == SaltLength && |nonce| == NonceLength
    ensures Unlock(p, Protect(p, keyBytes, password, salt, nonce), password) == Ok(keyBytes)
  {
  }

  /** A file too short to hold header and tag, such as one of just 28 octets
      of salt and nonce, never unlocks. */
  lemma UnlockShortBlob(p: Primitives, blob: seq<byte>, password: seq<byte>)
    requires RejectsShort(p)
    requires |blob| < HeaderLength + TagLength
    ensures Unlock(p, blob, password) == Err(AuthenticationFailed)
  {
    var parts := SplitBlob(blob);
    assert |parts.ciphertext| < TagLength;
  }

  // ---------------------------------------------------------------------
  // pgp_decrypt_message

  /** The PGP engine as `pgp_decrypt_message` drives it: parse an armored
      message given as octets or as text and decrypt it with the unlocked key
      (`None` when either step raises), and `bytes.decode('utf-8',
      errors='ignore')`. */
  datatype Engine = Engine(
    fromBytes: seq<byte> -> Option<string>,
    fromText: string -> Option<string>,
    decodeLossy: seq<byte> -> string)

  /** `data.replace(b'\x00', b'').strip()`: the octets without NULs, less
      the whitespace at either end. */
  function CleanBlob(data: seq<byte>): (r: seq<byte>)
    ensures 0 !in r
    ensures |r| > 0 ==> r[0] !in ByteSpaces && r[|r| - 1] !in ByteSpaces
    ensures exists i, j :: && 0 <= i <= j <= |RemoveAll(data, 0)| && r == RemoveAll(data, 0)[i..j]
                           && (forall k :: 0 <= k < i ==> RemoveAll(data, 0)[k] in ByteSpaces)
                           && (forall k :: j <= k < |RemoveAll(data, 0)| ==> RemoveAll(data, 0)[k] in ByteSpaces)
  {
    var noNul := RemoveAll(data, 0);
    StripEdges(noNul, ByteSpaces);
    StripSliceExists(noNul, ByteSpaces);
    Strip(noNul, ByteSpaces)
  }

  /** Cleaning a clean message changes nothing. */
  lemma CleanIdempotent(data: seq<byte>)
    ensures CleanBlob(CleanBlob(data)) == CleanBlob(data)
  {
    var c := CleanBlob(data);
    RemoveAbsent(c, 0);
    if |c| > 0 {
      var i, j := StripSlice(c, ByteSpaces);
      assert i == 0 && j == |c|;
    }
  }

  /** Removing an element that does not occur is the identity. */
  lemma {:induction false} RemoveAbsent(s: seq<byte>, x: byte)
    requires x !in s
    ensures RemoveAll(s, x) == s
    decreases |s|
  {
    if |s| > 0 {
      assert x !in s[1..];
      RemoveAbsent(s[1..], x);
      assert [s[0]] + s[1..] == s;
    }
  }

  datatype DecryptError = AllAttemptsFailed

  /** `pgp_decrypt_message` on octets: the raw octets, then their lossy
      decoding as text, then the octets without NULs and surrounding
      whitespace. The first attempt that succeeds decides; if none does, the
      call raises. */
  function DecryptMessage(e: Engine, data: seq<byte>): (r: Result<string, DecryptError>)
    ensures r.Ok? <==> e.fromBytes(data).Some? || e.fromText(e.decodeLossy(data)).Some?
                       || e.fromBytes(CleanBlob(data)).Some?
    ensures e.fromBytes(data).Some? ==> r == Ok(e.fromBytes(data).value)
    ensures e.fromBytes(data).None? && e.fromText(e.decodeLossy(data)).Some?
            ==> r == Ok(e.fromText(e.decodeLossy(data)).value)
    ensures && e.fromBytes(data).None? && e.fromText(e.decodeLossy(data)).None?
            && e.fromBytes(CleanBlob(data)).Some?
            ==> r == Ok(e.fromBytes(CleanBlob(data)).value)
  {
    match e.fromBytes(data)
    case Some(m) => Ok(m)
    case None =>
      match e.fromText(e.decodeLossy(data))
      case Some(m) => Ok(m)
      case None =>
        match e.fromBytes(CleanBlob(data))
        case Some(m) => Ok(m)
        case None => Err(AllAttemptsFailed)
  }

  /** For a message that is already clean the third attempt repeats the first,
      so only the raw and the decoded attempts can succeed. */
  lemma DecryptCleanMessage(e: Engine, data: seq<byte>)
    requires 0 !in data
    requires |data| > 0 ==> data[0] !in ByteSpaces && data[|data| - 1] !in ByteSpaces
    ensures DecryptMessage(e, data).Ok? <==> e.fromBytes(data).Some? || e.fromText(e.decodeLossy(data)).Some?
  {
    RemoveAbsent(data, 0);
    if |data| > 0 {
      var i, j := StripSlice(data, ByteSpaces);
      assert i == 0 && j == |data|;
    }
    assert CleanBlob(data) == data;
  }
}
