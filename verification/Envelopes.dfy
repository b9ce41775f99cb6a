/** Credential payloads (app/credential_crypto.py): Fernet tokens and two-layer v2 envelopes.

  Ciphers are symbolic: what RSA-OAEP, AES-GCM and Fernet produce is the record of what went in,
  and opening it succeeds exactly with the matching key (and nonce and associated data). Key
  material is a number; key ids are already validated. */
module Envelopes {
  import opened Options

  type KeyId = string
  type Plain = string

  datatype CryptoError = KeyError | DecryptError
  datatype Result<+T> = Ok(value: T) | Error(error: CryptoError)

  const V2_VERSION := 2
  const V2_CONTENT_ALGORITHM := "AES-256-GCM"
  const V2_KEY_WRAP_ALGORITHM := "RSA-OAEP-SHA256"

  // ----- Symbolic ciphertexts ----------------------------------------------------------------

  datatype WrappedKey = WrappedKey(pair: nat, dataKey: nat)
  datatype Sealed = Sealed(dataKey: nat, nonce: nat, aad: KeyId, plain: Plain)
  datatype Token = Token(key: nat, plain: Plain)

  /** An envelope; early ones do not carry `aad_kid`. */
  datatype Envelope = Envelope(
    kid: KeyId, aadKid: Option<KeyId>, v: int, alg: string, wrap: string,
    nonce: nat, wrappedKey: WrappedKey, ciphertext: Sealed)

  /** A stored payload; Garbled has the v2 prefix but no readable envelope. */
  datatype Payload = Legacy(token: Token) | V2(envelope: Envelope) | Garbled

  // ----- Keys --------------------------------------------------------------------------------

  datatype KeyState = Active | DecryptOnly

  /** The files of one key id: the two RSA halves, a Fernet key, the metadata. */
  datatype KeyFiles = KeyFiles(private: Option<nat>, public: Option<nat>, fernet: Option<nat>, state: Option<KeyState>)

  const NO_FILES := KeyFiles(None, None, None, None)

  /** `legacyKey` is the original credential.key. */
  datatype KeyStore = KeyStore(ring: map<KeyId, KeyFiles>, legacyKey: Option<nat>, active: Option<KeyId>)
  {
    function Files(id: KeyId): KeyFiles {
      if id in ring then ring[id] else NO_FILES
    }

    /** `load_credential_key_by_id` */
    function Fernet(id: Option<KeyId>): Option<nat> {
      if id.None? then legacyKey else Files(id.value).fernet
    }
  }

  // ----- Operations --------------------------------------------------------------------------

  function AadOf(e: Envelope): KeyId {
    if e.aadKid.Some? then e.aadKid.value else e.kid
  }

  predicate SupportedHeader(e: Envelope) {
    e.v == V2_VERSION && e.alg == V2_CONTENT_ALGORITHM && e.wrap == V2_KEY_WRAP_ALGORITHM
  }

  /** `_encrypt_v2` with the random data key and nonce it drew. */
  function EncryptV2(pair: nat, id: KeyId, plain: Plain, dataKey: nat, nonce: nat): Envelope {
    Envelope(id, Some(id), V2_VERSION, V2_CONTENT_ALGORITHM, V2_KEY_WRAP_ALGORITHM, nonce,
             WrappedKey(pair, dataKey), Sealed(dataKey, nonce, id, plain))
  }

  /** `_decrypt_v2` */
  function DecryptV2(keys: KeyStore, e: Envelope, expected: Option<KeyId>): Result<Plain> {
    if expected.Some? && expected.value != e.kid then Error(DecryptError)
    else if !SupportedHeader(e) then Error(DecryptError)
    else if keys.Files(e.kid).private.None? then Error(KeyError)
    else if keys.Files(e.kid).private.value != e.wrappedKey.pair then Error(DecryptError)
    else if e.ciphertext.dataKey != e.wrappedKey.dataKey || e.ciphertext.nonce != e.nonce
      || e.ciphertext.aad != AadOf(e) then
      Error(DecryptError)
    else Ok(e.ciphertext.plain)
  }

  /** `encrypt_credential_data_with_key_id` */
  function Encrypt(keys: KeyStore, plain: Plain, dataKey: nat, nonce: nat): Result<(Payload, Option<KeyId>)> {
    if keys.active.Some? && keys.Files(keys.active.value).public.Some? then
      Ok((V2(EncryptV2(keys.Files(keys.active.value).public.value, keys.active.value, plain, dataKey, nonce)),
          keys.active))
    else if keys.Fernet(keys.active).None? then Error(KeyError)
    else Ok((Legacy(Token(keys.Fernet(keys.active).value, plain)), keys.active))
  }

  /** `decrypt_credential_data` */
  function Decrypt(keys: KeyStore, payload: Payload, id: Option<KeyId>): Result<Plain> {
    match payload
    case Garbled => Error(DecryptError)
    case V2(e) => DecryptV2(keys, e, id)
    case Legacy(token) =>
      if keys.Fernet(id).None? then Error(KeyError)
      else if keys.Fernet(id).value != token.key then Error(DecryptError) else Ok(token.plain)
  }

  /** `credential_payload_format_version` */
  function FormatVersion(payload: Payload): int {
    if payload.Legacy? then 1 else 2
  }

  /** `rewrap_credential_data`: the payload and whether it changed. */
  method Rewrap(keys: KeyStore, payload: Payload, newId: KeyId, expected: Option<KeyId>)
    returns (r: Result<(Payload, bool)>)
    ensures r == Rewrapped(keys, payload, newId, expected)
  {
    if !payload.V2? {
      return Error(DecryptError);
    }
    var envelope := payload.envelope;
    if !SupportedHeader(envelope) {
      return Error(DecryptError);
    }
    var oldId, aadId := envelope.kid, AadOf(envelope);
    if expected.Some? && expected.value != oldId {
      return Error(DecryptError);
    }
    if oldId == newId {
      return Ok((payload, false));
    }
    var private := keys.Files(oldId).private;
    if private.None? {
      return Error(KeyError);
    }
    if private.value != envelope.wrappedKey.pair {
      return Error(DecryptError);
    }
    var public := keys.Files(newId).public;
    if public.None? {
      return Error(KeyError);
    }
    envelope := envelope.(kid := newId);
    envelope := envelope.(aadKid := Some(aadId));
    envelope := envelope.(wrappedKey := WrappedKey(public.value, envelope.wrappedKey.dataKey));
    return Ok((V2(envelope), true));
  }

  function Rewrapped(keys: KeyStore, payload: Payload, newId: KeyId, expected: Option<KeyId>): Result<(Payload, bool)> {
    if !payload.V2? || !SupportedHeader(payload.envelope) then Error(DecryptError)
    else if expected.Some? && expected.value != payload.envelope.kid then Error(DecryptError)
    else if payload.envelope.kid == newId then Ok((payload, false))
    else match UnwrapAndWrap(keys, payload.envelope, newId)
      case Error(error) => Error(error)
      case Ok(e) => Ok((V2(e), true))
  }

  function UnwrapAndWrap(keys: KeyStore, e: Envelope, newId: KeyId): Result<Envelope> {
    if keys.Files(e.kid).private.None? then Error(KeyError)
    else if keys.Files(e.kid).private.value != e.wrappedKey.pair then Error(DecryptError)
    else if keys.Files(newId).public.None? then Error(KeyError)
    else Ok(e.(kid := newId, aadKid := Some(AadOf(e)),
               wrappedKey := WrappedKey(keys.Files(newId).public.value, e.wrappedKey.dataKey)))
  }

  // ----- Laws --------------------------------------------------------------------------------

  /** The private half in the ring is the one of this pair. */
  ghost predicate HoldsPrivate(keys: KeyStore, id: KeyId, pair: nat) {
    id in keys.ring && keys.ring[id].private == Some(pair)
  }

  ghost predicate HasHeader(e: Envelope) {
    e.v == 2 && e.alg == "AES-256-GCM" && e.wrap == "RSA-OAEP-SHA256"
  }

  /** The Fernet key under this id, or the original one without an id. */
  ghost predicate HoldsFernet(keys: KeyStore, id: Option<KeyId>, key: nat) {
    if id == None then keys.legacyKey == Some(key)
    else id.value in keys.ring && keys.ring[id.value].fernet == Some(key)
  }

  /** Nothing authenticated was changed since the sealing; early envelopes name their key only. */
  ghost predicate Untouched(e: Envelope) {
    && e.ciphertext.dataKey == e.wrappedKey.dataKey && e.ciphertext.nonce == e.nonce
    && (e.aadKid == Some(e.ciphertext.aad) || (e.aadKid == None && e.ciphertext.aad == e.kid))
  }

  /** What it takes to open a payload. */
  ghost predicate Opens(keys: KeyStore, payload: Payload, id: Option<KeyId>) {
    match payload
    case Garbled => false
    case Legacy(token) => HoldsFernet(keys, id, token.key)
    case V2(e) =>
      && (id == None || id == Some(e.kid)) && HoldsPrivate(keys, e.kid, e.wrappedKey.pair)
      && HasHeader(e) && Untouched(e)
  }

  /** An envelope opens exactly with the private half of its pair, under a supported header, when
    nothing authenticated was changed and the expected key id, if any, is its own. A token opens
    exactly with its Fernet key. Both give what was sealed; a missing key is a key error. */
  lemma DecryptIff(keys: KeyStore, payload: Payload, id: Option<KeyId>)
    ensures Decrypt(keys, payload, id).Ok? <==> Opens(keys, payload, id)
    ensures payload.Legacy? && Opens(keys, payload, id) ==> Decrypt(keys, payload, id) == Ok(payload.token.plain)
    ensures payload.V2? && Opens(keys, payload, id) ==>
      Decrypt(keys, payload, id) == Ok(payload.envelope.ciphertext.plain)
    ensures Decrypt(keys, payload, id) == Error(KeyError) <==>
      || (payload.Legacy? && forall key :: !HoldsFernet(keys, id, key))
      || (payload.V2? && HasHeader(payload.envelope) && (id == None || id == Some(payload.envelope.kid))
        && forall pair :: !HoldsPrivate(keys, payload.envelope.kid, pair))
  {
    if payload.Legacy? && keys.Fernet(id).Some? {
      assert HoldsFernet(keys, id, keys.Fernet(id).value);
    }
    if payload.V2? && keys.Files(payload.envelope.kid).private.Some? {
      assert HoldsPrivate(keys, payload.envelope.kid, keys.Files(payload.envelope.kid).private.value);
    }
  }

  /** New payloads are envelopes exactly when the active key has a public half; else tokens of the
    active Fernet key, or of the original one when no key is active. */
  lemma EncryptIff(keys: KeyStore, plain: Plain, dataKey: nat, nonce: nat)
    ensures var r := Encrypt(keys, plain, dataKey, nonce);
      var files :=
        if keys.active.Some? && keys.active.value in keys.ring then keys.ring[keys.active.value] else NO_FILES;
      var fernet := if keys.active == None then keys.legacyKey else files.fernet;
      && (r.Ok? <==> files.public.Some? || fernet.Some?) && (r.Ok? ==> r.value.1 == keys.active)
      && (r.Ok? && files.public == None ==> r.value.0 == Legacy(Token(fernet.value, plain)))
      && (files.public.Some? ==> r.value.0 == V2(
        Envelope(keys.active.value, keys.active, 2, "AES-256-GCM", "RSA-OAEP-SHA256", nonce,
                 WrappedKey(files.public.value, dataKey), Sealed(dataKey, nonce, keys.active.value, plain))))
  {
  }

  ghost predicate CanRewrapTo(keys: KeyStore, e: Envelope, newId: KeyId) {
    HoldsPrivate(keys, e.kid, e.wrappedKey.pair) && newId in keys.ring && keys.ring[newId].public != None
  }

  /** There is no private half to open it with, or the right one and no public half to wrap with. */
  ghost predicate MissesKey(keys: KeyStore, e: Envelope, newId: KeyId) {
    || (e.kid in keys.ring ==> keys.ring[e.kid].private == None)
    || (HoldsPrivate(keys, e.kid, e.wrappedKey.pair) && (newId in keys.ring ==> keys.ring[newId].public == None))
  }

  /** A rewrap succeeds exactly for an envelope with a supported header, of the expected key if there
    is one, that names the new key already or whose data key opens and can be wrapped again. */
  lemma RewrappedIff(keys: KeyStore, payload: Payload, newId: KeyId, expected: Option<KeyId>)
    ensures Rewrapped(keys, payload, newId, expected).Ok? <==>
      && payload.V2? && HasHeader(payload.envelope) && (expected == None || expected == Some(payload.envelope.kid))
      && (payload.envelope.kid == newId || CanRewrapTo(keys, payload.envelope, newId))
    ensures Rewrapped(keys, payload, newId, expected).Ok? ==>
      (Rewrapped(keys, payload, newId, expected).value.1 <==> payload.envelope.kid != newId)
    ensures Rewrapped(keys, payload, newId, expected) == Error(KeyError) <==>
      && payload.V2? && HasHeader(payload.envelope) && (expected == None || expected == Some(payload.envelope.kid))
      && payload.envelope.kid != newId && MissesKey(keys, payload.envelope, newId)
  {
  }

  /** What was encrypted under a complete key is read back, with or without stored metadata. */
  lemma EncryptThenDecrypt(keys: KeyStore, plain: Plain, dataKey: nat, nonce: nat)
    requires Encrypt(keys, plain, dataKey, nonce).Ok?
    ensures var (payload, id) := Encrypt(keys, plain, dataKey, nonce).value;
      Decrypt(keys, payload, id) == Ok(plain) <==>
        (payload.V2? ==> keys.Files(id.value).private == keys.Files(id.value).public)
  {
  }

  /** A rewrapped payload is readable exactly under a key store whose private half belongs to the
    public half it was wrapped with, and then it reads as before. */
  lemma RewrapReadableIff(keys: KeyStore, payload: Payload, newId: KeyId, expected: Option<KeyId>, later: KeyStore)
    requires Decrypt(keys, payload, expected).Ok? && Rewrapped(keys, payload, newId, expected).Ok?
    requires Rewrapped(keys, payload, newId, expected).value.1
    ensures var updated := Rewrapped(keys, payload, newId, expected).value.0;
      && (Decrypt(later, updated, Some(newId)).Ok? <==> later.Files(newId).private == keys.Files(newId).public)
      && (Decrypt(later, updated, Some(newId)).Ok? ==>
        Decrypt(later, updated, Some(newId)) == Decrypt(keys, payload, expected))
  {
  }

  /** A chain of rewraps, each under the key store of its time; the first failure ends it. */
  function RewrapChain(payload: Payload, chain: seq<(KeyStore, KeyId)>): Result<Payload>
    decreases |chain|
  {
    if chain == [] then Ok(payload)
    else match Rewrapped(chain[0].0, payload, chain[0].1, None)
      case Error(error) => Error(error)
      case Ok(step) => RewrapChain(step.0, chain[1..])
  }

  /** Through any chain of rewraps the ciphertext, the nonce, the data key and the authenticated
    key id stay those of the first encryption, and the envelope names the last key. */
  lemma {:induction false} ChainKeepsContent(payload: Payload, chain: seq<(KeyStore, KeyId)>)
    requires chain != [] && RewrapChain(payload, chain).Ok?
    ensures payload.V2? && RewrapChain(payload, chain).value.V2?
    ensures var (first, last) := (payload.envelope, RewrapChain(payload, chain).value.envelope);
      && last.ciphertext == first.ciphertext && last.nonce == first.nonce && AadOf(last) == AadOf(first)
      && last.wrappedKey.dataKey == first.wrappedKey.dataKey
      && SupportedHeader(last) && SupportedHeader(first)
      && last.kid == chain[|chain| - 1].1
    decreases |chain|
  {
    if |chain| > 1 {
      ChainKeepsContent(Rewrapped(chain[0].0, payload, chain[0].1, None).value.0, chain[1..]);
    }
  }

  /** Every RSA half stored under an id belongs to the one pair of that id. */
  ghost predicate HalvesBelong(keys: KeyStore, pairOf: KeyId -> nat) {
    forall id :: id in keys.ring ==>
      && (keys.ring[id].private.Some? ==> keys.ring[id].private.value == pairOf(id))
      && (keys.ring[id].public.Some? ==> keys.ring[id].public.value == pairOf(id))
  }

  /** The data key stays wrapped by the pair of the key the envelope names. */
  lemma {:induction false} ChainKeepsPair(payload: Payload, chain: seq<(KeyStore, KeyId)>, pairOf: KeyId -> nat)
    requires payload.V2? && payload.envelope.wrappedKey.pair == pairOf(payload.envelope.kid)
    requires RewrapChain(payload, chain).Ok? && forall k :: 0 <= k < |chain| ==> HalvesBelong(chain[k].0, pairOf)
    ensures RewrapChain(payload, chain).value.V2?
    ensures var last := RewrapChain(payload, chain).value.envelope; last.wrappedKey.pair == pairOf(last.kid)
    decreases |chain|
  {
    if chain != [] {
      assert HalvesBelong(chain[0].0, pairOf);
      ChainKeepsPair(Rewrapped(chain[0].0, payload, chain[0].1, None).value.0, chain[1..], pairOf);
    }
  }

  /** After any chain of rewraps the private half of the last key is enough, alone, to read the
    original data. */
  lemma ChainReadable(keys: KeyStore, payload: Payload, chain: seq<(KeyStore, KeyId)>, pairOf: KeyId -> nat)
    requires payload.V2? && Decrypt(keys, payload, None).Ok? && HalvesBelong(keys, pairOf)
    requires chain != [] && RewrapChain(payload, chain).Ok?
    requires forall k :: 0 <= k < |chain| ==> HalvesBelong(chain[k].0, pairOf)
    ensures var id := chain[|chain| - 1].1;
      var alone := KeyStore(map[id := KeyFiles(Some(pairOf(id)), None, None, None)], None, None);
      Decrypt(alone, RewrapChain(payload, chain).value, Some(id)) == Decrypt(keys, payload, None)
  {
    ChainKeepsContent(payload, chain);
    ChainKeepsPair(payload, chain, pairOf);
  }
}
