/** Lifecycle of the credential storage keys (app/services/credential_key_lifecycle.py) over the
  rows of the listed tables. */
module KeyLifecycle {
  import opened Options
  import opened Envelopes

  const MINIMUM_RSA_KEY_SIZE := 2048

  /** A row of one of the tables: whether its table has a key-id and a format column, and the
    values of its columns. */
  datatype Row = Row(hasKeyId: bool, hasFormat: bool, payload: Option<Payload>, keyId: Option<KeyId>, format: int)

  datatype Counts = Counts(rewrapped: nat, alreadyCurrent: nat, legacySkipped: nat)

  datatype MigrationCounts = MigrationCounts(migrated: nat, v2Skipped: nat)

  /** The data key and nonce drawn for the n-th row. */
  type Randomness = nat -> (nat, nat)

  /** The stored key id of a row, None for a table without the column. */
  function Expected(row: Row): Option<KeyId> {
    if row.hasKeyId then row.keyId else None
  }

  /** A payload written to a row, with its key id and format where the table has the columns. */
  function Stored(row: Row, payload: Payload, id: Option<KeyId>): Row {
    row.(payload := Some(payload), keyId := if row.hasKeyId then id else row.keyId,
         format := if row.hasFormat then FormatVersion(payload) else row.format)
  }

  // ----- One row -----------------------------------------------------------------------------

  /** One iteration of `rewrap_v2_rows`. */
  function RewrapRow(keys: KeyStore, row: Row, newId: KeyId): Result<Row> {
    if row.payload.None? || FormatVersion(row.payload.value) != 2 then Ok(row)
    else match Rewrapped(keys, row.payload.value, newId, Expected(row))
      case Error(error) => Error(error)
      case Ok(updated) => Ok(if updated.1 then Stored(row, updated.0, Some(newId)) else row)
  }

  /** The fernet keys that `_decrypt_legacy_without_key_id` may try. */
  predicate IsFernetKey(keys: KeyStore, key: nat) {
    keys.legacyKey == Some(key) || exists id :: id in keys.ring && keys.ring[id].fernet == Some(key)
  }

  /** What a legacy payload without a stored key id decrypts to. */
  function DecryptWithoutKeyId(keys: KeyStore, payload: Payload): Result<Plain> {
    if payload.Legacy? && IsFernetKey(keys, payload.token.key) then Ok(payload.token.plain) else Error(DecryptError)
  }

  /** `_decrypt_legacy_without_key_id`: the original key first, then every retained Fernet key. */
  method TryFernetKeys(keys: KeyStore, payload: Payload) returns (r: Result<Plain>)
    requires payload.Legacy?
    ensures r == DecryptWithoutKeyId(keys, payload)
  {
    r := Decrypt(keys, payload, None);
    if r.Ok? {
      return;
    }
    var todo := keys.ring.Keys;
    while todo != {}
      invariant todo <= keys.ring.Keys && keys.legacyKey != Some(payload.token.key)
      invariant forall id :: id in keys.ring && id !in todo ==> keys.ring[id].fernet != Some(payload.token.key)
    {
      var id :| id in todo;
      r := Decrypt(keys, payload, Some(id));
      if r.Ok? {
        return;
      }
      todo := todo - {id};
    }
    return Error(DecryptError);
  }

  /** The plaintext that migration takes from a legacy row. */
  function LegacyPlain(keys: KeyStore, row: Row): Result<Plain>
    requires row.payload.Some?
  {
    if row.hasKeyId then Decrypt(keys, row.payload.value, row.keyId) else DecryptWithoutKeyId(keys, row.payload.value)
  }

  /** One iteration of `migrate_legacy_rows`. */
  function MigrateRow(keys: KeyStore, row: Row, random: (nat, nat)): Result<Row> {
    if row.payload.None? || FormatVersion(row.payload.value) == 2 then Ok(row)
    else match LegacyPlain(keys, row)
      case Error(error) => Error(error)
      case Ok(plain) => match Encrypt(keys, plain, random.0, random.1)
        case Error(error) => Error(error)
        case Ok(encrypted) =>
          if FormatVersion(encrypted.0) != 2 then Error(KeyError) else Ok(Stored(row, encrypted.0, encrypted.1))
  }

  /** The migration of one legacy row. */
  method MigrateOne(keys: KeyStore, row: Row, random: (nat, nat)) returns (r: Result<Row>)
    requires row.payload.Some? && row.payload.value.Legacy?
    ensures r == MigrateRow(keys, row, random)
  {
    var plain;
    if row.hasKeyId {
      plain := Decrypt(keys, row.payload.value, row.keyId);
    } else {
      plain := TryFernetKeys(keys, row.payload.value);
    }
    if plain.Error? {
      return Error(plain.error);
    }
    var encrypted := Encrypt(keys, plain.value, random.0, random.1);
    if encrypted.Error? {
      return Error(encrypted.error);
    }
    if FormatVersion(encrypted.value.0) != 2 {
      return Error(KeyError);
    }
    return Ok(Stored(row, encrypted.value.0, encrypted.value.1));
  }

  // ----- All rows ----------------------------------------------------------------------------

  predicate CanRewrap(keys: KeyStore, rows: seq<Row>, newId: KeyId) {
    keys.Files(newId).public.Some? && forall i :: 0 <= i < |rows| ==> RewrapRow(keys, rows[i], newId).Ok?
  }

  function RewrapRows(keys: KeyStore, rows: seq<Row>, newId: KeyId): seq<Row>
    requires CanRewrap(keys, rows, newId)
  {
    seq(|rows|, i requires 0 <= i < |rows| => RewrapRow(keys, rows[i], newId).value)
  }

  predicate CanMigrate(keys: KeyStore, rows: seq<Row>, random: Randomness) {
    && keys.active.Some? && keys.Files(keys.active.value).public.Some? && keys.Files(keys.active.value).private.Some?
    && forall i :: 0 <= i < |rows| ==> MigrateRow(keys, rows[i], random(i)).Ok?
  }

  function MigrateRows(keys: KeyStore, rows: seq<Row>, random: Randomness): seq<Row>
    requires CanMigrate(keys, rows, random)
  {
    seq(|rows|, i requires 0 <= i < |rows| => MigrateRow(keys, rows[i], random(i)).value)
  }

  /** How many rows hold a payload that the predicate accepts. */
  function Tally(rows: seq<Row>, p: Payload -> bool): nat {
    if rows == [] then 0
    else
      var last := rows[|rows| - 1];
      Tally(rows[..|rows| - 1], p) + if last.payload.Some? && p(last.payload.value) then 1 else 0
  }

  function RewrapCounts(rows: seq<Row>, newId: KeyId): Counts {
    Counts(
      Tally(rows, (p: Payload) => p.V2? && p.envelope.kid != newId),
      Tally(rows, (p: Payload) => p.V2? && p.envelope.kid == newId),
      Tally(rows, (p: Payload) => p.Legacy?))
  }

  function MigrateCounts(rows: seq<Row>): MigrationCounts {
    MigrationCounts(Tally(rows, (p: Payload) => p.Legacy?), Tally(rows, (p: Payload) => !p.Legacy?))
  }

  /** Keys as `generate_storage_key` leaves them: an unused id gets a new pair. */
  function WithGenerated(keys: KeyStore, id: KeyId, pair: nat): KeyStore {
    keys.(ring := keys.ring[id := KeyFiles(Some(pair), Some(pair), None, Some(DecryptOnly))])
  }

  predicate CanGenerate(keys: KeyStore, id: KeyId, size: int) {
    size >= MINIMUM_RSA_KEY_SIZE && keys.Files(id) == NO_FILES
  }

  predicate CanActivate(keys: KeyStore, id: KeyId) {
    keys.Files(id).private.Some? && keys.Files(id).private == keys.Files(id).public
  }

  /** Keys as `activate_storage_key` leaves them. */
  function WithActive(keys: KeyStore, id: KeyId): KeyStore
    requires CanActivate(keys, id)
  {
    var ring := keys.ring[id := keys.ring[id].(state := Some(Active))];
    var previous := keys.active;
    keys.(active := Some(id), ring :=
      if previous.Some? && previous.value != id && keys.Files(previous.value).public.Some? then
        ring[previous.value := ring[previous.value].(state := Some(DecryptOnly))]
      else ring)
  }

  /** The key size and the pair drawn when a rotation also generates its key. */
  type NewPair = (int, nat)

  predicate CanPrepare(keys: KeyStore, id: KeyId, generate: Option<NewPair>) {
    generate.Some? ==> CanGenerate(keys, id, generate.value.0)
  }

  /** The keys that a rotation rewraps with. */
  function Prepared(keys: KeyStore, id: KeyId, generate: Option<NewPair>): KeyStore {
    if generate.Some? && CanPrepare(keys, id, generate) then WithGenerated(keys, id, generate.value.1) else keys
  }

  // ----- The operations on keys and rows -----------------------------------------------------

  class CredentialStore {
    var keys: KeyStore
    var rows: seq<Row>

    constructor (keys: KeyStore, rows: seq<Row>)
      ensures this.keys == keys && this.rows == rows
    {
      this.keys, this.rows := keys, rows;
    }

    /** `generate_storage_key` */
    method Generate(id: KeyId, size: int, pair: nat) returns (r: Result<KeyState>)
      modifies this`keys
      ensures r.Ok? <==> CanGenerate(old(keys), id, size)
      ensures keys == if r.Ok? then WithGenerated(old(keys), id, pair) else old(keys)
      ensures r.Ok? <==> size >= 2048 && (id !in old(keys).ring || old(keys).ring[id] == NO_FILES)
      ensures r.Ok? ==>
        && keys.Files(id) == KeyFiles(Some(pair), Some(pair), None, Some(DecryptOnly))
        && keys.active == old(keys).active && keys.legacyKey == old(keys).legacyKey
        && forall other :: other != id ==> keys.Files(other) == old(keys).Files(other)
    {
      if size < MINIMUM_RSA_KEY_SIZE || keys.Files(id) != NO_FILES {
        return Error(KeyError);
      }
      keys := keys.(ring := keys.ring[id := KeyFiles(Some(pair), Some(pair), None, Some(DecryptOnly))]);
      return Ok(DecryptOnly);
    }

    /** `activate_storage_key`: both halves are loaded and compared before the active key changes. */
    method Activate(id: KeyId) returns (r: Result<Option<KeyId>>)
      modifies this`keys
      ensures r.Ok? <==> CanActivate(old(keys), id)
      ensures r.Ok? ==> r.value == old(keys).active && keys == WithActive(old(keys), id)
      ensures r.Ok? <==> exists pair ::
        keys.Files(id).private == Some(pair) && keys.Files(id).public == Some(pair) && id in old(keys).ring
      ensures r.Ok? ==> keys.active == Some(id) && keys.Files(id).state == Some(Active)
      ensures r.Ok? ==> forall other :: other != id ==>
        keys.Files(other) == if Some(other) == old(keys).active && old(keys).Files(other).public != None
                             then old(keys).Files(other).(state := Some(DecryptOnly)) else old(keys).Files(other)
      ensures r.Error? ==> keys == old(keys)
    {
      var files := keys.Files(id);
      if files.private.None? || files.public.None? || files.private.value != files.public.value {
        return Error(KeyError);
      }
      var previous := keys.active;
      keys := keys.(active := Some(id));
      keys := keys.(ring := keys.ring[id := keys.ring[id].(state := Some(Active))]);
      if previous.Some? && previous.value != id && keys.Files(previous.value).public.Some? {
        keys := keys.(ring := keys.ring[previous.value := keys.ring[previous.value].(state := Some(DecryptOnly))]);
      }
      return Ok(previous);
    }

    /** `rewrap_v2_rows`: stops at the first row that fails, leaving the rest to the rollback. */
    method RewrapV2Rows(newId: KeyId) returns (r: Result<Counts>)
      modifies this`rows
      ensures r.Ok? <==> CanRewrap(keys, old(rows), newId)
      ensures r.Ok? ==> rows == RewrapRows(keys, old(rows), newId) && r.value == RewrapCounts(old(rows), newId)
    {
      if keys.Files(newId).public.None? {
        return Error(KeyError);
      }
      var counts := Counts(0, 0, 0);
      for n := 0 to |rows|
        invariant |rows| == |old(rows)| && rows[n..] == old(rows)[n..]
        invariant forall i :: 0 <= i < n ==> RewrapRow(keys, old(rows)[i], newId) == Ok(rows[i])
        invariant counts == RewrapCounts(old(rows)[..n], newId)
      {
        var row := rows[n];
        assert row == old(rows)[n] && old(rows)[..n + 1][..n] == old(rows)[..n];
        if row.payload.Some? {
          if FormatVersion(row.payload.value) != 2 {
            counts := counts.(legacySkipped := counts.legacySkipped + 1);
          } else {
            var updated := Rewrap(keys, row.payload.value, newId, Expected(row));
            if updated.Error? {
              return Error(updated.error);
            }
            if updated.value.1 {
              rows := rows[n := Stored(row, updated.value.0, Some(newId))];
              counts := counts.(rewrapped := counts.rewrapped + 1);
            } else {
              counts := counts.(alreadyCurrent := counts.alreadyCurrent + 1);
            }
          }
        }
      }
      assert old(rows)[..|rows|] == old(rows);
      return Ok(counts);
    }

    /** `migrate_legacy_rows` */
    method MigrateLegacyRows(random: Randomness) returns (r: Result<MigrationCounts>)
      modifies this`rows
      ensures r.Ok? <==> CanMigrate(keys, old(rows), random)
      ensures r.Ok? ==> rows == MigrateRows(keys, old(rows), random) && r.value == MigrateCounts(old(rows))
    {
      if keys.active.None? {
        return Error(KeyError);
      }
      var active := keys.Files(keys.active.value);
      if active.public.None? || active.private.None? {
        return Error(KeyError);
      }
      var counts := MigrationCounts(0, 0);
      for n := 0 to |rows|
        invariant |rows| == |old(rows)| && rows[n..] == old(rows)[n..]
        invariant forall i :: 0 <= i < n ==> MigrateRow(keys, old(rows)[i], random(i)) == Ok(rows[i])
        invariant counts == MigrateCounts(old(rows)[..n])
      {
        var row := rows[n];
        assert row == old(rows)[n] && old(rows)[..n + 1][..n] == old(rows)[..n];
        if row.payload.Some? {
          if FormatVersion(row.payload.value) == 2 {
            counts := counts.(v2Skipped := counts.v2Skipped + 1);
          } else {
            var updated := MigrateOne(keys, row, random(n));
            if updated.Error? {
              return Error(updated.error);
            }
            rows := rows[n := updated.value];
            counts := counts.(migrated := counts.migrated + 1);
          }
        }
      }
      assert old(rows)[..|rows|] == old(rows);
      return Ok(counts);
    }

    /** `credential-key rotate` (app/cli.py): generate if asked to, rewrap, commit, activate. A
      failed rewrap is rolled back, but a generated key stays; a failed activation comes after
      the commit. */
    method Rotate(newId: KeyId, generate: Option<NewPair>) returns (r: Result<Counts>)
      modifies this
      ensures r.Ok? <==>
        && CanPrepare(old(keys), newId, generate)
        && CanRewrap(Prepared(old(keys), newId, generate), old(rows), newId)
        && CanActivate(Prepared(old(keys), newId, generate), newId)
      ensures var prepared := Prepared(old(keys), newId, generate);
        && keys == (if r.Ok? then WithActive(prepared, newId) else prepared)
        && rows == (if CanPrepare(old(keys), newId, generate) && CanRewrap(prepared, old(rows), newId)
                    then RewrapRows(prepared, old(rows), newId) else old(rows))
      ensures r.Ok? ==> r.value == RewrapCounts(old(rows), newId)
    {
      if generate.Some? {
        var generated := Generate(newId, generate.value.0, generate.value.1);
        if generated.Error? {
          return Error(generated.error);
        }
      }
      var committed := rows;
      r := RewrapV2Rows(newId);
      if r.Error? {
        rows := committed;
        return;
      }
      var activated := Activate(newId);
      if activated.Error? {
        return Error(activated.error);
      }
    }
  }
}
