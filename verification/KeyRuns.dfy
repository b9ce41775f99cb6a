/** What every run of key operations keeps: each row reads as it was written. */
module KeyRuns {
  import opened Options
  import opened Envelopes
  import opened KeyLifecycle

  /** Keys, rows, and for each row the plaintext it was last written with. */
  datatype State = State(keys: KeyStore, rows: seq<Row>, written: seq<Plain>)

  datatype Step =
    | Generate(id: KeyId, size: int, pair: nat)
    | Activate(id: KeyId)
    | Rewrap(id: KeyId)
    | Migrate(random: Randomness)
    | Save(row: nat, plain: Plain, dataKey: nat, nonce: nat)
    | Insert(hasKeyId: bool, hasFormat: bool, plain: Plain, dataKey: nat, nonce: nat)
    | Copy(from: nat)
    | Clear(row: nat)

  /** One committed operation; an operation that fails is rolled back. Job snapshots are copies of
    rows: the payload is taken over with its key id and format. */
  function Apply(s: State, step: Step): State {
    match step
    case Generate(id, size, pair) =>
      if CanGenerate(s.keys, id, size) then s.(keys := WithGenerated(s.keys, id, pair)) else s
    case Activate(id) => if CanActivate(s.keys, id) then s.(keys := WithActive(s.keys, id)) else s
    case Rewrap(id) => if CanRewrap(s.keys, s.rows, id) then s.(rows := RewrapRows(s.keys, s.rows, id)) else s
    case Migrate(random) =>
      if CanMigrate(s.keys, s.rows, random) then s.(rows := MigrateRows(s.keys, s.rows, random)) else s
    case Save(n, plain, dataKey, nonce) =>
      (match Encrypt(s.keys, plain, dataKey, nonce)
       case Error(_) => s
       case Ok(encrypted) =>
         if n < |s.rows| && n < |s.written| then
           s.(rows := s.rows[n := Stored(s.rows[n], encrypted.0, encrypted.1)], written := s.written[n := plain])
         else s)
    case Insert(hasKeyId, hasFormat, plain, dataKey, nonce) =>
      (match Encrypt(s.keys, plain, dataKey, nonce)
       case Error(_) => s
       case Ok(encrypted) =>
         var row := Stored(Row(hasKeyId, hasFormat, None, None, 1), encrypted.0, encrypted.1);
         State(s.keys, s.rows + [row], s.written + [plain]))
    case Copy(n) =>
      if n < |s.rows| && n < |s.written| then State(s.keys, s.rows + [s.rows[n]], s.written + [s.written[n]]) else s
    case Clear(n) => if n < |s.rows| then s.(rows := s.rows[n := Cleared(s.rows[n])]) else s
  }

  /** A row without payload, key id and format. */
  function Cleared(row: Row): Row {
    row.(payload := None, keyId := None, format := 1)
  }

  function Run(s: State, steps: seq<Step>): State
    decreases |steps|
  {
    if steps == [] then s else Run(Apply(s, steps[0]), steps[1..])
  }

  /** What the program reads from a row: a table without a key-id column is read with none. */
  function Read(keys: KeyStore, row: Row): Result<Plain>
    requires row.payload.Some?
  {
    Decrypt(keys, row.payload.value, Expected(row))
  }

  /** What migration makes of a row: a legacy one without a stored key id is tried with every key. */
  function Recover(keys: KeyStore, row: Row): Result<Plain>
    requires row.payload.Some?
  {
    if row.payload.value.Legacy? then LegacyPlain(keys, row) else Read(keys, row)
  }

  /** A public half never lies in the ring without its private half. */
  ghost predicate HalvesMatch(keys: KeyStore) {
    forall id :: id in keys.ring && keys.ring[id].public.Some? ==> keys.ring[id].private == keys.ring[id].public
  }

  /** Only the active key is marked active. */
  ghost predicate MarkedActive(keys: KeyStore) {
    forall id :: id in keys.ring && keys.ring[id].state.Some? ==>
      keys.ring[id].public.Some? && (keys.ring[id].state == Some(Active) ==> keys.active == Some(id))
  }

  /** The program reads every row as it was last written. */
  ghost predicate AllRead(s: State) {
    && |s.written| == |s.rows|
    && forall i :: 0 <= i < |s.rows| && s.rows[i].payload.Some? ==> Read(s.keys, s.rows[i]) == Ok(s.written[i])
  }

  /** Migration recovers every row as it was last written. */
  ghost predicate AllRecover(s: State) {
    && |s.written| == |s.rows|
    && forall i :: 0 <= i < |s.rows| && s.rows[i].payload.Some? ==> Recover(s.keys, s.rows[i]) == Ok(s.written[i])
  }

  ghost predicate Sound(s: State) {
    HalvesMatch(s.keys) && AllRecover(s)
  }

  /** New payloads can be read without a stored key id: the active key makes envelopes, or it is
    the original Fernet key, or nothing can be written with it at all. */
  predicate WritesPlain(keys: KeyStore) {
    || (keys.active.Some? && keys.Files(keys.active.value).public.Some?)
    || keys.Fernet(keys.active).None?
    || keys.Fernet(keys.active) == keys.legacyKey
  }

  /** The columns of a row describe its payload. */
  predicate ColumnsAgree(keys: KeyStore, row: Row) {
    row.payload.Some? ==>
      && (row.hasFormat ==> row.format == FormatVersion(row.payload.value))
      && (row.hasKeyId && row.payload.value.V2? ==> row.keyId == Some(row.payload.value.envelope.kid))
      && (row.hasKeyId && row.payload.value.Legacy? ==> keys.Fernet(row.keyId) == Some(row.payload.value.token.key))
  }

  ghost predicate AllAgree(keys: KeyStore, rows: seq<Row>) {
    forall i :: 0 <= i < |rows| ==> ColumnsAgree(keys, rows[i])
  }

  // ----- Every step --------------------------------------------------------------------------

  /** No key is lost or replaced. */
  ghost predicate KeysKept(before: KeyStore, after: KeyStore) {
    && after.legacyKey == before.legacyKey && before.ring.Keys <= after.ring.Keys
    && (forall id :: id in before.ring && before.ring[id].private.Some? ==>
      after.ring[id].private == before.ring[id].private)
    && (forall id :: id in before.ring && before.ring[id].public.Some? ==>
      after.ring[id].public == before.ring[id].public)
    && (forall id :: id in before.ring && before.ring[id].fernet.Some? ==>
      after.ring[id].fernet == before.ring[id].fernet)
  }

  /** New keys and another active key change what no row decrypts to. */
  lemma RecoverWithMoreKeys(keys: KeyStore, more: KeyStore, row: Row)
    requires row.payload.Some? && Recover(keys, row).Ok? && KeysKept(keys, more)
    ensures Recover(more, row) == Recover(keys, row)
  {
  }

  lemma RewrapRowRecovers(keys: KeyStore, row: Row, newId: KeyId)
    requires HalvesMatch(keys) && row.payload.Some? && Recover(keys, row).Ok? && keys.Files(newId).public.Some?
    ensures RewrapRow(keys, row, newId).Ok?
    ensures var updated := RewrapRow(keys, row, newId).value;
      updated.payload.Some? && Recover(keys, updated) == Recover(keys, row)
  {
  }

  lemma EncryptedRowRecovers(keys: KeyStore, row: Row, plain: Plain, dataKey: nat, nonce: nat)
    requires HalvesMatch(keys) && Encrypt(keys, plain, dataKey, nonce).Ok?
    ensures var (payload, id) := Encrypt(keys, plain, dataKey, nonce).value;
      Recover(keys, Stored(row, payload, id)) == Ok(plain)
  {
    var (payload, id) := Encrypt(keys, plain, dataKey, nonce).value;
    if payload.Legacy? && id.Some? {
      assert id.value in keys.ring;
    }
  }

  /** From a sound state a rewrap to a key with a public half cannot fail, and a migration under
    an active key pair cannot fail. */
  lemma SoundNeverStuck(s: State)
    requires Sound(s)
    ensures forall id :: s.keys.Files(id).public.Some? ==> CanRewrap(s.keys, s.rows, id)
    ensures s.keys.active.Some? && s.keys.Files(s.keys.active.value).public.Some? ==>
      forall random :: CanMigrate(s.keys, s.rows, random)
  {
    forall id, i | s.keys.Files(id).public.Some? && 0 <= i < |s.rows| ensures RewrapRow(s.keys, s.rows[i], id).Ok? {
      if s.rows[i].payload.Some? {
        RewrapRowRecovers(s.keys, s.rows[i], id);
      }
    }
    if s.keys.active.Some? && s.keys.Files(s.keys.active.value).public.Some? {
      forall random: Randomness, i | 0 <= i < |s.rows| ensures MigrateRow(s.keys, s.rows[i], random(i)).Ok? {
      }
    }
  }

  lemma StepKeepsSound(s: State, step: Step)
    requires Sound(s)
    ensures Sound(Apply(s, step))
  {
    var t := Apply(s, step);
    match step
    case Generate(_, _, _) => KeysGrow(s, t);
    case Activate(_) => KeysGrow(s, t);
    case Rewrap(id) =>
      if CanRewrap(s.keys, s.rows, id) {
        forall i | 0 <= i < |s.rows| && t.rows[i].payload.Some? ensures Recover(t.keys, t.rows[i]) == Ok(t.written[i]) {
          RewrapRowRecovers(s.keys, s.rows[i], id);
        }
      }
    case Migrate(random) =>
      if CanMigrate(s.keys, s.rows, random) {
        forall i | 0 <= i < |s.rows| && t.rows[i].payload.Some? ensures Recover(t.keys, t.rows[i]) == Ok(t.written[i]) {
          if s.rows[i].payload.value.Legacy? {
            EncryptedRowRecovers(s.keys, s.rows[i], s.written[i], random(i).0, random(i).1);
          }
        }
      }
    case Save(n, plain, dataKey, nonce) =>
      if Encrypt(s.keys, plain, dataKey, nonce).Ok? && n < |s.rows| {
        EncryptedRowRecovers(s.keys, s.rows[n], plain, dataKey, nonce);
      }
    case Insert(hasKeyId, hasFormat, plain, dataKey, nonce) =>
      if Encrypt(s.keys, plain, dataKey, nonce).Ok? {
        EncryptedRowRecovers(s.keys, Row(hasKeyId, hasFormat, None, None, 1), plain, dataKey, nonce);
      }
    case Copy(_) =>
    case Clear(_) =>
  }

  lemma KeysGrow(s: State, t: State)
    requires Sound(s) && t.rows == s.rows && t.written == s.written && HalvesMatch(t.keys)
    requires KeysKept(s.keys, t.keys)
    ensures Sound(t)
  {
    forall i | 0 <= i < |t.rows| && t.rows[i].payload.Some? ensures Recover(t.keys, t.rows[i]) == Ok(t.written[i]) {
      RecoverWithMoreKeys(s.keys, t.keys, s.rows[i]);
    }
  }

  /** The payload is an envelope, or the table stores the key id beside it. */
  predicate NamesItsKey(row: Row) {
    row.payload.Some? && (row.hasKeyId || row.payload.value.V2?)
  }

  // ----- Every run ---------------------------------------------------------------------------

  /** Over every run, migration recovers every row as it was last written, the program reads every
    envelope and every row with a stored key id, and the metadata marks no key active but the
    active one. */
  lemma {:induction false} RunKeepsSound(s: State, steps: seq<Step>)
    requires Sound(s)
    ensures Sound(Run(s, steps)) && (MarkedActive(s.keys) ==> MarkedActive(Run(s, steps).keys))
    ensures var t := Run(s, steps);
      forall i :: 0 <= i < |t.rows| && NamesItsKey(t.rows[i]) ==> Read(t.keys, t.rows[i]) == Ok(t.written[i])
    decreases |steps|
  {
    if steps != [] {
      StepKeepsSound(s, steps[0]);
      RunKeepsSound(Apply(s, steps[0]), steps[1..]);
    }
  }

  // ----- The program's own reads -----------------------------------------------------------------

  lemma ReadWithMoreKeys(keys: KeyStore, more: KeyStore, row: Row)
    requires row.payload.Some? && Read(keys, row).Ok? && KeysKept(keys, more)
    ensures Read(more, row) == Read(keys, row)
  {
  }

  lemma RewrapRowReads(keys: KeyStore, row: Row, newId: KeyId)
    requires HalvesMatch(keys) && row.payload.Some? && Read(keys, row).Ok?
    requires RewrapRow(keys, row, newId).Ok?
    ensures var updated := RewrapRow(keys, row, newId).value;
      updated.payload.Some? && Read(keys, updated) == Read(keys, row)
  {
  }

  /** What the program reads is also what migration recovers. */
  lemma ReadIsRecovered(s: State)
    requires AllRead(s)
    ensures AllRecover(s)
  {
    forall i | 0 <= i < |s.rows| && s.rows[i].payload.Some? ensures Recover(s.keys, s.rows[i]) == Ok(s.written[i]) {
      assert Read(s.keys, s.rows[i]) == Ok(s.written[i]);
    }
  }

  /** A row without a stored key id, read at any later time while it still holds the payload that
    was written to it, is readable exactly when it got an envelope or a token of the original key. */
  lemma PlainReadIff(keys: KeyStore, later: KeyStore, row: Row, plain: Plain, dataKey: nat, nonce: nat)
    requires HalvesMatch(keys) && KeysKept(keys, later) && !row.hasKeyId
    requires Encrypt(keys, plain, dataKey, nonce).Ok?
    ensures var (payload, id) := Encrypt(keys, plain, dataKey, nonce).value;
      Read(later, Stored(row, payload, id)) == Ok(plain) <==> WritesPlain(keys)
  {
  }

  /** What is written under such a key is read, in every table. */
  lemma EncryptedRowReads(keys: KeyStore, row: Row, plain: Plain, dataKey: nat, nonce: nat)
    requires HalvesMatch(keys) && Encrypt(keys, plain, dataKey, nonce).Ok? && (row.hasKeyId || WritesPlain(keys))
    ensures var (payload, id) := Encrypt(keys, plain, dataKey, nonce).value;
      Read(keys, Stored(row, payload, id)) == Ok(plain)
  {
  }

  lemma RewrapKeepsReads(s: State, id: KeyId)
    requires HalvesMatch(s.keys) && AllRead(s) && CanRewrap(s.keys, s.rows, id)
    ensures AllRead(s.(rows := RewrapRows(s.keys, s.rows, id)))
  {
    var rows := RewrapRows(s.keys, s.rows, id);
    forall i | 0 <= i < |rows| && rows[i].payload.Some? ensures Read(s.keys, rows[i]) == Ok(s.written[i]) {
      RewrapRowReads(s.keys, s.rows[i], id);
    }
  }

  lemma MigrateKeepsReads(s: State, random: Randomness)
    requires HalvesMatch(s.keys) && WritesPlain(s.keys) && AllRead(s) && CanMigrate(s.keys, s.rows, random)
    ensures AllRead(s.(rows := MigrateRows(s.keys, s.rows, random)))
  {
    var rows := MigrateRows(s.keys, s.rows, random);
    forall i | 0 <= i < |rows| && rows[i].payload.Some? ensures Read(s.keys, rows[i]) == Ok(s.written[i]) {
      assert MigrateRow(s.keys, s.rows[i], random(i)) == Ok(rows[i]);
      if s.rows[i].payload.value.Legacy? {
        EncryptedRowReads(s.keys, s.rows[i], s.written[i], random(i).0, random(i).1);
      }
    }
  }

  lemma StepKeepsReads(s: State, step: Step)
    requires HalvesMatch(s.keys) && WritesPlain(s.keys) && AllRead(s)
    ensures var t := Apply(s, step); HalvesMatch(t.keys) && WritesPlain(t.keys) && AllRead(t)
  {
    var t := Apply(s, step);
    match step
    case Generate(_, _, _) => KeysGrowReads(s, t);
    case Activate(_) => KeysGrowReads(s, t);
    case Rewrap(id) =>
      if CanRewrap(s.keys, s.rows, id) {
        RewrapKeepsReads(s, id);
      }
    case Migrate(random) =>
      if CanMigrate(s.keys, s.rows, random) {
        MigrateKeepsReads(s, random);
      }
    case Save(n, plain, dataKey, nonce) =>
      if Encrypt(s.keys, plain, dataKey, nonce).Ok? && n < |s.rows| {
        EncryptedRowReads(s.keys, s.rows[n], plain, dataKey, nonce);
      }
    case Insert(hasKeyId, hasFormat, plain, dataKey, nonce) =>
      if Encrypt(s.keys, plain, dataKey, nonce).Ok? {
        EncryptedRowReads(s.keys, Row(hasKeyId, hasFormat, None, None, 1), plain, dataKey, nonce);
      }
    case Copy(_) =>
    case Clear(_) =>
  }

  lemma KeysGrowReads(s: State, t: State)
    requires AllRead(s) && t.rows == s.rows && t.written == s.written && KeysKept(s.keys, t.keys)
    ensures AllRead(t)
  {
    forall i | 0 <= i < |t.rows| && t.rows[i].payload.Some? ensures Read(t.keys, t.rows[i]) == Ok(t.written[i]) {
      ReadWithMoreKeys(s.keys, t.keys, s.rows[i]);
    }
  }

  lemma {:induction false} RunKeepsReads(s: State, steps: seq<Step>)
    requires HalvesMatch(s.keys) && WritesPlain(s.keys) && AllRead(s)
    ensures AllRead(Run(s, steps))
    decreases |steps|
  {
    if steps != [] {
      StepKeepsReads(s, steps[0]);
      RunKeepsReads(Apply(s, steps[0]), steps[1..]);
    }
  }

  /** Otherwise one new row in a table without a key-id column is unreadable at once. */
  lemma KeylessInsertBreaks(s: State, plain: Plain, dataKey: nat, nonce: nat)
    requires AllRead(s) && !WritesPlain(s.keys)
    ensures !AllRead(Run(s, [Insert(false, false, plain, dataKey, nonce)]))
  {
    var step := Insert(false, false, plain, dataKey, nonce);
    var t := Apply(s, step);
    assert Run(s, [step]) == Run(t, []) == t;
    assert t.rows[|s.rows|].payload.Some? && t.rows[|s.rows|].payload.value.Legacy?;
  }

  /** The program reads every row as it was last written, over every run, exactly when the active
    key of the start writes payloads that need no stored key id. An active key that was set by
    activation has a public half, so it always does. */
  lemma RunKeepsReadsIff(s: State)
    requires HalvesMatch(s.keys) && AllRead(s)
    ensures (forall steps :: AllRead(Run(s, steps))) <==> WritesPlain(s.keys)
    ensures s.keys.active.None? || s.keys.Files(s.keys.active.value).public.Some? ==> WritesPlain(s.keys)
  {
    if WritesPlain(s.keys) {
      forall steps ensures AllRead(Run(s, steps)) {
        RunKeepsReads(s, steps);
      }
    } else {
      KeylessInsertBreaks(s, "", 0, 0);
    }
  }

  /** An active Fernet key beside another original key: a row without a stored key id is lost to
    the program's read, and still recovered by migration. */
  lemma FernetKeyHidesRow() returns (s: State, step: Step)
    ensures HalvesMatch(s.keys) && AllRead(s) && !WritesPlain(s.keys)
    ensures var t := Apply(s, step);
      && |t.rows| == 1 && t.written == ["secret"] && t.rows[0].payload.Some?
      && Read(t.keys, t.rows[0]) == Error(DecryptError) && Recover(t.keys, t.rows[0]) == Ok("secret")
  {
    var keys := KeyStore(map["old" := KeyFiles(None, None, Some(1), None)], Some(0), Some("old"));
    s, step := State(keys, [], []), Insert(false, false, "secret", 2, 3);
    assert keys.ring["old"].fernet == Some(1);
    assert Apply(s, step).rows[0].payload == Some(Legacy(Token(1, "secret")));
  }

  // ----- The columns -----------------------------------------------------------------------------

  lemma StepKeepsKeys(s: State, step: Step)
    ensures KeysKept(s.keys, Apply(s, step).keys)
  {
  }

  lemma StepKeepsColumns(s: State, step: Step)
    requires AllAgree(s.keys, s.rows)
    ensures AllAgree(Apply(s, step).keys, Apply(s, step).rows)
  {
    var t := Apply(s, step);
    StepKeepsKeys(s, step);
    forall i | 0 <= i < |t.rows| ensures ColumnsAgree(t.keys, t.rows[i]) {
      if i < |s.rows| {
        assert ColumnsAgree(s.keys, s.rows[i]);
        match step
        case Rewrap(id) =>
          assert t.rows[i] == s.rows[i] || RewrapRow(s.keys, s.rows[i], id) == Ok(t.rows[i]);
        case Migrate(random) =>
          assert t.rows[i] == s.rows[i] || MigrateRow(s.keys, s.rows[i], random(i)) == Ok(t.rows[i]);
        case _ =>
      }
    }
  }

  /** Over every run the format and key-id columns agree with the stored payloads. */
  lemma {:induction false} RunKeepsColumns(s: State, steps: seq<Step>)
    requires AllAgree(s.keys, s.rows)
    ensures AllAgree(Run(s, steps).keys, Run(s, steps).rows)
    decreases |steps|
  {
    if steps != [] {
      StepKeepsColumns(s, steps[0]);
      RunKeepsColumns(Apply(s, steps[0]), steps[1..]);
    }
  }

  /** A rotation that generates its key cannot fail from a sound state, whatever the rows. */
  lemma GeneratedRotationSucceeds(s: State, id: KeyId, size: int, pair: nat)
    requires Sound(s) && CanGenerate(s.keys, id, size)
    ensures var keys := Prepared(s.keys, id, Some((size, pair)));
      CanRewrap(keys, s.rows, id) && CanActivate(keys, id)
  {
    var t := Apply(s, Generate(id, size, pair));
    StepKeepsSound(s, Generate(id, size, pair));
    SoundNeverStuck(t);
    assert t.keys.Files(id).public.Some?;
  }

  // ----- Rewrap and migration ----------------------------------------------------------------

  lemma {:induction false} TallySplits(rows: seq<Row>, newId: KeyId)
    ensures var counts := RewrapCounts(rows, newId);
      counts.rewrapped + counts.alreadyCurrent + counts.legacySkipped + Tally(rows, (p: Payload) => p.Garbled?)
      == Tally(rows, (p: Payload) => true)
  {
    if rows != [] {
      TallySplits(rows[..|rows| - 1], newId);
    }
  }

  lemma {:induction false} MigrationTallySplits(rows: seq<Row>)
    ensures MigrateCounts(rows).migrated + MigrateCounts(rows).v2Skipped == Tally(rows, (p: Payload) => true)
  {
    if rows != [] {
      MigrationTallySplits(rows[..|rows| - 1]);
    }
  }

  /** The tally is the number of rows with such a payload. */
  lemma {:induction false} TallyIsSize(rows: seq<Row>, p: Payload -> bool)
    ensures Tally(rows, p) == |Places(rows, p)|
  {
    if rows != [] {
      TallyIsSize(rows[..|rows| - 1], p);
      PlacesMore(rows, p);
    }
  }

  /** Where the rows hold a payload that the predicate accepts. */
  ghost function Places(rows: seq<Row>, p: Payload -> bool): set<int> {
    set i | 0 <= i < |rows| && rows[i].payload.Some? && p(rows[i].payload.value)
  }

  lemma PlacesMore(rows: seq<Row>, p: Payload -> bool)
    requires rows != []
    ensures var n := |rows| - 1;
      Places(rows, p) == Places(rows[..n], p)
        + if rows[n].payload.Some? && p(rows[n].payload.value) then {n} else {}
  {
    var n := |rows| - 1;
    assert forall i :: 0 <= i < n ==> rows[..n][i] == rows[i];
  }

  /** A rewrap of all rows succeeds exactly when the new key has a public half, and every payload
    that is not legacy is a supported envelope of its stored key whose data key opens. */
  lemma CanRewrapIff(keys: KeyStore, rows: seq<Row>, newId: KeyId)
    ensures CanRewrap(keys, rows, newId) <==>
      && newId in keys.ring && keys.ring[newId].public != None
      && forall i :: 0 <= i < |rows| && rows[i].payload.Some? && !rows[i].payload.value.Legacy? ==>
           OpensFor(keys, rows[i], rows[i].payload.value, newId)
  {
    forall i | 0 <= i < |rows| && rows[i].payload.Some? {
      RewrappedIff(keys, rows[i].payload.value, newId, if rows[i].hasKeyId then rows[i].keyId else None);
    }
  }

  ghost predicate OpensFor(keys: KeyStore, row: Row, payload: Payload, newId: KeyId) {
    && payload.V2? && (row.hasKeyId && row.keyId != None ==> row.keyId == Some(payload.envelope.kid))
    && HasHeader(payload.envelope)
    && (payload.envelope.kid == newId
      || HoldsPrivate(keys, payload.envelope.kid, payload.envelope.wrappedKey.pair))
  }

  /** A migration succeeds exactly when the active key has both halves and every legacy row opens
    with its stored key, or without one with any Fernet key there is. */
  lemma CanMigrateIff(keys: KeyStore, rows: seq<Row>, random: Randomness)
    ensures CanMigrate(keys, rows, random) <==>
      && keys.active.Some? && keys.active.value in keys.ring
      && keys.ring[keys.active.value].public != None && keys.ring[keys.active.value].private != None
      && forall i :: 0 <= i < |rows| && rows[i].payload.Some? && rows[i].payload.value.Legacy? ==>
           LegacyOpens(keys, rows[i], rows[i].payload.value.token.key)
  {
    forall i | 0 <= i < |rows| && rows[i].payload.Some? && rows[i].payload.value.Legacy? {
      DecryptIff(keys, rows[i].payload.value, rows[i].keyId);
    }
  }

  ghost predicate LegacyOpens(keys: KeyStore, row: Row, key: nat) {
    if row.hasKeyId && row.keyId != None then
      row.keyId.value in keys.ring && keys.ring[row.keyId.value].fernet == Some(key)
    else
      || keys.legacyKey == Some(key)
      || (!row.hasKeyId && exists id :: id in keys.ring && keys.ring[id].fernet == Some(key))
  }

  lemma {:induction false} TallyNone(rows: seq<Row>, p: Payload -> bool)
    ensures Tally(rows, p) == 0 <==> forall i :: 0 <= i < |rows| && rows[i].payload.Some? ==> !p(rows[i].payload.value)
  {
    if rows != [] {
      TallyNone(rows[..|rows| - 1], p);
      assert forall i :: 0 <= i < |rows| - 1 ==> rows[i] == rows[..|rows| - 1][i];
    }
  }

  /** After a successful rewrap every v2 payload names the new key, the counts cover every
    payload, and a second rewrap succeeds and changes nothing. */
  lemma RewrapDone(keys: KeyStore, rows: seq<Row>, newId: KeyId)
    requires CanRewrap(keys, rows, newId)
    ensures var done := RewrapRows(keys, rows, newId);
      && |done| == |rows|
      && (forall i :: 0 <= i < |done| && done[i].payload.Some? && !done[i].payload.value.Legacy? ==>
            done[i].payload.value.V2? && done[i].payload.value.envelope.kid == newId)
      && CanRewrap(keys, done, newId) && RewrapRows(keys, done, newId) == done
        && RewrapCounts(done, newId).rewrapped == 0
    ensures var counts := RewrapCounts(rows, newId);
      counts.rewrapped + counts.alreadyCurrent + counts.legacySkipped == Tally(rows, (p: Payload) => true)
  {
    var done := RewrapRows(keys, rows, newId);
    forall i | 0 <= i < |rows|
      ensures RewrapRow(keys, done[i], newId) == Ok(done[i])
      ensures rows[i].payload != Some(Garbled)
    {
      assert RewrapRow(keys, rows[i], newId).Ok?;
    }
    assert RewrapRows(keys, done, newId) == done;
    TallyNone(done, (p: Payload) => p.V2? && p.envelope.kid != newId);
    TallyNone(rows, (p: Payload) => p.Garbled?);
    TallySplits(rows, newId);
  }

  /** After a successful migration no legacy payload is left: a second migration migrates
    nothing, and a rewrap to any key skips nothing. */
  lemma MigrateDone(keys: KeyStore, rows: seq<Row>, random: Randomness, again: Randomness)
    requires CanMigrate(keys, rows, random)
    ensures var done := MigrateRows(keys, rows, random);
      && (forall newId :: RewrapCounts(done, newId).legacySkipped == 0)
      && CanMigrate(keys, done, again) && MigrateRows(keys, done, again) == done && MigrateCounts(done).migrated == 0
    ensures MigrateCounts(rows).migrated + MigrateCounts(rows).v2Skipped == Tally(rows, (p: Payload) => true)
  {
    MigrationTallySplits(rows);
    var done := MigrateRows(keys, rows, random);
    forall i | 0 <= i < |rows|
      ensures done[i].payload.Some? ==> !done[i].payload.value.Legacy?
      ensures MigrateRow(keys, done[i], again(i)) == Ok(done[i])
    {
      assert MigrateRow(keys, rows[i], random(i)) == Ok(done[i]);
    }
    TallyNone(done, (p: Payload) => p.Legacy?);
    assert MigrateRows(keys, done, again) == done;
  }
}
