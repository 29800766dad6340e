/** The commands of the personal CLI as they act on a home directory and the
    keychain: one write after another, each of them recorded. A command passes
    through the states its specification lists; once `init` has succeeded, each
    of these states is safe, so that a crash between two writes loses nothing. */
module Home {
  import opened Text
  import opened Wrappers
  import opened SecretBox
  import opened GatewayToken
  import opened CredentialStore
  import opened TokenRuns
  import opened CommandOutcomes
  import Spec = CredentialStore

  lemma NamedIsInLedger(w: World, s: Snap, id: string, key: string)
    requires Safe(w, s, key)
    ensures s.store.config.Some? && (Names(s.store.config.value, id) ==> id in s.ledger)
    ensures id in s.ledger <==> id in Rows(s.store)
  {
    hide HoldsKey, Names;
  }

  class Home {
    const w: World
    var disk: Store
    ghost var ledger: map<string, Secret>
    ghost var trace: seq<Snap>   // the states after each write so far
    ghost var key: string        // the master key the last `init` stored
    ghost var since: nat         // the length of the trace when it did

    /** The store is safe under the key, and has been at every write since `init`. */
    ghost predicate Valid()
      reads this
    {
      && since <= |trace|
      && Safe(w, Now(), key)
      && forall i :: since <= i < |trace| ==> Safe(w, trace[i], key)
    }

    ghost function Now(): Snap
      reads this
    {
      Snap(disk, ledger)
    }

    constructor (w: World, disk: Store, ghost ledger: map<string, Secret>)
      ensures this.w == w && Now() == Snap(disk, ledger) && trace == []
    {
      this.w := w;
      this.disk := disk;
      this.ledger := ledger;
      trace := [];
      key, since := "", 0;
    }

    /** Since `before`, exactly `writes` have happened, in that order. */
    ghost predicate Wrote(before: Snap, traceBefore: seq<Snap>, writes: seq<Snap>)
      reads this
    {
      trace == traceBefore + writes && Now() == Final(before, writes)
    }

    method Write(next: Store)
      modifies this`disk, this`ledger, this`trace
      ensures Wrote(old(Now()), old(trace), [Snap(next, old(ledger))])
    {
      disk := next;
      trace := trace + [Snap(next, ledger)];
    }

    method WriteSecrets(rows: map<string, Row>, ghost entries: map<string, Secret>)
      modifies this`disk, this`ledger, this`trace
      ensures Wrote(old(Now()), old(trace), [Snap(old(disk).(secrets := Some(rows)), entries)])
    {
      disk := disk.(secrets := Some(rows));
      ledger := entries;
      trace := trace + [Snap(disk, ledger)];
    }

    method SaveConfig(config: Config)
      modifies this`disk, this`ledger, this`trace
      ensures Wrote(old(Now()), old(trace), [Spec.SaveConfig(old(Now()), config)])
    {
      Write(disk.(config := Some(config)));
    }

    /** The config step of the migration. */
    method NoteMigration()
      modifies this`disk, this`ledger, this`trace
      ensures Wrote(old(Now()), old(trace), Noted(old(Now())))
    {
      if disk.config.Some? && disk.config.value.keyStorage != Some(Keychain) {
        SaveConfig(disk.config.value.(keyStorage := Some(Keychain)));
      }
    }

    method ReadMasterKey(env: Env) returns (r: Result<string>)
      modifies this`disk, this`ledger, this`trace
      ensures r == Spec.ReadMasterKey(old(Now()), env).result
      ensures Wrote(old(Now()), old(trace), Spec.ReadMasterKey(old(Now()), env).writes)
      ensures old(Valid()) ==>
                && Valid() && ledger == old(ledger) && disk.config == old(disk.config)
                && (r.Ok? ==> r.value == key)
    {
      if Valid() {
        ReadKeepsSafe(w, Now(), env, key);
        ReadYieldsTheKey(Now(), env, key);
        MigrationMakesTwoWrites(Now(), env);
      }
      hide Safe;
      if ResolveKeyStorage(disk) == File {
        return ReadFileMasterKey(disk);
      }
      if env.available {
        if env.get.Throws? {
          return Threw;
        }
        var fromChain := FromKeychain(disk, env);
        if fromChain.Some? {
          return Ok(fromChain.value);
        }
        if disk.keyFile.Some? {
          var legacy := ReadFileMasterKey(disk);
          if legacy.Threw? || !env.setWorks {
            return Threw;
          }
          Write(disk.(keychain := Some(legacy.value)));
          NoteMigration();
          Write(disk.(keyFile := None));
          return legacy;
        }
        return Threw;
      }
      return ReadFileMasterKey(disk);
    }

    /** The steps of `putSecret`. */
    method PutSteps(env: Env, nonce: Bytes, id: string, secret: Secret) returns (r: Result<()>)
      modifies this`disk, this`ledger, this`trace
      ensures r == Spec.PutSecret(w, old(Now()), env, nonce, id, secret).result
      ensures Wrote(old(Now()), old(trace), Spec.PutSecret(w, old(Now()), env, nonce, id, secret).writes)
    {
      hide Spec.ReadMasterKey, Seal;
      var masterKey := ReadMasterKey(env);
      if masterKey.Threw? || !IsMasterKey(w.base64, masterKey.value) {
        return Threw;
      }
      var row := Seal(w, masterKey.value, nonce, id, secret);
      var rows := Rows(disk);
      WriteSecrets(rows[id := row], ledger[id := secret]);
      return Ok(());
    }

    method PutSecret(env: Env, nonce: Bytes, id: string, secret: Secret) returns (r: Result<()>)
      modifies this`disk, this`ledger, this`trace
      ensures r == Spec.PutSecret(w, old(Now()), env, nonce, id, secret).result
      ensures Wrote(old(Now()), old(trace), Spec.PutSecret(w, old(Now()), env, nonce, id, secret).writes)
      ensures old(Valid()) ==>
                && Valid() && disk.config == old(disk.config)
                && ledger == if r.Ok? then old(ledger)[id := secret] else old(ledger)
    {
      hide Spec.PutSecret, Safe;
      if Valid() { PutKeepsSafe(w, Now(), env, nonce, id, secret, key); }
      r := PutSteps(env, nonce, id, secret);
    }

    method GetSecretPlaintext(env: Env, id: string) returns (r: Result<Secret>)
      modifies this`disk, this`ledger, this`trace
      ensures r == Spec.GetSecret(w, old(Now()), env, id).result
      ensures Wrote(old(Now()), old(trace), Spec.GetSecret(w, old(Now()), env, id).writes)
      ensures old(Valid()) ==>
                && Valid() && ledger == old(ledger) && disk.config == old(disk.config)
                && (r.Ok? ==> id in ledger && r.value == ledger[id])
                && (r.Ok? <==> id in ledger && Spec.ReadMasterKey(old(Now()), env).result.Ok?)
    {
      if Valid() {
        GetKeepsSafe(w, Now(), env, id, key);
        GetYieldsLastPut(w, Now(), env, id, key);
      }
      hide Safe;
      hide Spec.ReadMasterKey, Open;
      var rows := Rows(disk);
      if id !in rows {
        return Threw;
      }
      var row := rows[id];
      var masterKey := ReadMasterKey(env);
      if masterKey.Threw? || !IsMasterKey(w.base64, masterKey.value) {
        return Threw;
      }
      var opened_ := Open(w, masterKey.value, id, row);
      if opened_.None? {
        return Threw;
      }
      return Ok(opened_.value);
    }

    method DeleteSecret(id: string)
      modifies this`disk, this`ledger, this`trace
      ensures Wrote(old(Now()), old(trace), Spec.DeleteSecret(old(Now()), id).writes)
      ensures old(Valid()) ==>
                && ledger == old(ledger) - {id} && disk.config == old(disk.config)
                && (Valid() <==> id !in old(ledger) || !Names(disk.config.value, id))
    {
      if Valid() {
        NamedIsInLedger(w, Now(), id, key);
        DeleteKeepsSafeIff(w, Now(), id, key);
      }
      hide Safe;
      var rows := Rows(disk);
      if id in rows {
        WriteSecrets(rows - {id}, ledger - {id});
      }
    }

    method MintGatewayToken(env: Env, nonce: Bytes, id: string, secret: string) returns (r: Result<string>)
      modifies this`disk, this`ledger, this`trace
      ensures r == Spec.MintGatewayToken(w, old(Now()), env, nonce, id, secret).result
      ensures Wrote(old(Now()), old(trace), Spec.MintGatewayToken(w, old(Now()), env, nonce, id, secret).writes)
      ensures old(Valid()) ==>
                && Valid()
                && (r.Ok? ==>
                      && r.value == FormatGatewayToken(id, secret)
                      && ledger == old(ledger)[id := Secret(GatewayTokenKind, secret)]
                      && disk.config == Some(old(disk).config.value.(gatewayTokenSecretId := Some(id))))
                && (r.Threw? ==> ledger == old(ledger) && disk.config == old(disk.config))
    {
      if Valid() { MintKeepsSafe(w, Now(), env, nonce, id, secret, key); }
      hide Safe;
      hide Spec.PutSecret, FormatGatewayToken;
      if disk.config.None? {
        return Threw;
      }
      var config := disk.config.value;
      var put := PutSecret(env, nonce, id, Secret(GatewayTokenKind, secret));
      if put.Threw? {
        return Threw;
      }
      SaveConfig(config.(gatewayTokenSecretId := Some(id)));
      return Ok(FormatGatewayToken(id, secret));
    }

    /** The steps of `ensureGatewayToken`. */
    method EnsureSteps(first: Env, second: Env, nonce: Bytes, id: string, secret: string)
      returns (r: Result<Ensured>)
      modifies this`disk, this`ledger, this`trace
      ensures r == Spec.EnsureGatewayToken(w, old(Now()), first, second, nonce, id, secret).result
      ensures Wrote(old(Now()), old(trace),
                    Spec.EnsureGatewayToken(w, old(Now()), first, second, nonce, id, secret).writes)
    {
      hide Spec.GetSecret, Spec.MintGatewayToken, FormatGatewayToken;
      if disk.config.None? {
        return Threw;
      }
      var secretId := disk.config.value.gatewayTokenSecretId;
      if secretId.Some? {
        var stored := GetSecretPlaintext(first, secretId.value);
        if stored.Ok? && stored.value.kind == GatewayTokenKind {
          return Ok(Ensured(FormatGatewayToken(secretId.value, stored.value.value), false));
        }
      }
      var token := MintGatewayToken(second, nonce, id, secret);
      if token.Threw? {
        return Threw;
      }
      return Ok(Ensured(token.value, true));
    }

    method EnsureGatewayToken(first: Env, second: Env, nonce: Bytes, id: string, secret: string)
      returns (r: Result<Ensured>)
      modifies this`disk, this`ledger, this`trace
      ensures r == Spec.EnsureGatewayToken(w, old(Now()), first, second, nonce, id, secret).result
      ensures Wrote(old(Now()), old(trace),
                    Spec.EnsureGatewayToken(w, old(Now()), first, second, nonce, id, secret).writes)
      ensures old(Valid()) ==>
                && Valid()
                && old(disk).config.Some? && EnsuredFrom(old(Now()), first, second, id, secret, r, Now())
    {
      hide Spec.EnsureGatewayToken, Safe, EnsuredFrom;
      if Valid() {
        EnsureKeepsSafe(w, Now(), first, second, nonce, id, secret, key);
        NamedIsInLedger(w, Now(), id, key);
        EnsureIff(w, Now(), first, second, nonce, id, secret, key);
      }
      r := EnsureSteps(first, second, nonce, id, secret);
    }

    method LoadGatewayToken(env: Env) returns (r: Result<string>)
      modifies this`disk, this`ledger, this`trace
      ensures r == Spec.LoadGatewayToken(w, old(Now()), env).result
      ensures Wrote(old(Now()), old(trace), Spec.LoadGatewayToken(w, old(Now()), env).writes)
      ensures old(Valid()) ==>
                && Valid() && ledger == old(ledger) && disk.config == old(disk.config)
                && r == (if TokenStored(Now()) && Spec.ReadMasterKey(old(Now()), env).result.Ok?
                         then Ok(StoredToken(Now())) else Threw)
    {
      if Valid() { LoadIff(w, Now(), env, key); }
      hide Safe;
      hide Spec.GetSecret, FormatGatewayToken;
      if disk.config.None? || disk.config.value.gatewayTokenSecretId.None? {
        return Threw;
      }
      var secretId := disk.config.value.gatewayTokenSecretId.value;
      var stored := GetSecretPlaintext(env, secretId);
      if stored.Threw? || stored.value.kind != GatewayTokenKind {
        return Threw;
      }
      return Ok(FormatGatewayToken(secretId, stored.value.value));
    }

    method VerifyGatewayAuthorization(env: Env, authorization: Option<string>) returns (ok: bool)
      modifies this`disk, this`ledger, this`trace
      ensures Ok(ok) == Spec.VerifyGatewayAuthorization(w, old(Now()), env, authorization).result
      ensures Wrote(old(Now()), old(trace),
                    Spec.VerifyGatewayAuthorization(w, old(Now()), env, authorization).writes)
      ensures old(Valid()) ==>
                && Valid() && ledger == old(ledger) && disk.config == old(disk.config)
                && (!TokenStored(Now()) || Spec.ReadMasterKey(old(Now()), env).result.Threw? ==> !ok)
                && (CurrentId(Now()).Some? && HasToken(Now(), CurrentId(Now()).value) ==>
                      (ok <==> ExtractBearer(authorization) == Some(Token(Now(), CurrentId(Now()).value))
                               && Spec.ReadMasterKey(old(Now()), env).result.Ok?))
    {
      ghost var id := CurrentId(Now());
      if Valid() {
        VerifyKeepsSafe(w, Now(), env, authorization, key);
        if id.Some? && HasToken(Now(), id.value) { VerifyIff(w, Now(), env, authorization, id.value, key); }
        if !TokenStored(Now()) || Spec.ReadMasterKey(Now(), env).result.Threw? {
          VerifyNeedsStoredToken(w, Now(), env, authorization, key);
        }
      }
      hide Safe;
      hide Spec.LoadGatewayToken, ExtractBearer, ParseGatewayToken;
      var bearer := ExtractBearer(authorization);
      if bearer.None? {
        return false;
      }
      var parsed := ParseGatewayToken(bearer.value);
      if parsed.None? {
        return false;
      }
      var expected := LoadGatewayToken(env);
      if expected.Threw? {
        return false;
      }
      var expectedParsed := ParseGatewayToken(expected.value);
      if expectedParsed.None? {
        return false;
      }
      if parsed.value.secretId != expectedParsed.value.secretId {
        return false;
      }
      return parsed.value.secret == expectedParsed.value.secret;
    }

    /** The final writes of `add` for a new server. */
    method AddServer(env: Env, nonce: Bytes, server: Server, secret: Secret) returns (r: Result<()>)
      modifies this`disk, this`ledger, this`trace
      ensures r == Spec.AddServer(w, old(Now()), env, nonce, server, secret).result
      ensures Wrote(old(Now()), old(trace), Spec.AddServer(w, old(Now()), env, nonce, server, secret).writes)
      ensures old(Valid()) ==>
                && Valid()
                && ledger == (if r.Ok? then old(ledger)[server.secretId := secret] else old(ledger))
                && disk.config ==
                   (if r.Ok? then Some(old(disk).config.value.(servers := old(disk).config.value.servers + [server]))
                    else old(disk.config))
    {
      if Valid() { AddKeepsSafe(w, Now(), env, nonce, server, secret, key); }
      hide Safe;
      hide Spec.PutSecret;
      if disk.config.None? {
        return Threw;
      }
      var config := disk.config.value;
      r := PutSecret(env, nonce, server.secretId, secret);
      if r.Threw? {
        return;
      }
      SaveConfig(config.(servers := config.servers + [server]));
      return Ok(());
    }

    /** The final writes of `add --force` for the existing server `i`. */
    method ReplaceServer(env: Env, nonce: Bytes, i: nat, baseUrl: string, authMethod: string,
                         connectorKey: Option<string>, secret: Secret) returns (r: Result<()>)
      modifies this`disk, this`ledger, this`trace
      ensures r == Spec.ReplaceServer(w, old(Now()), env, nonce, i, baseUrl, authMethod, connectorKey, secret).result
      ensures Wrote(old(Now()), old(trace),
                    Spec.ReplaceServer(w, old(Now()), env, nonce, i, baseUrl, authMethod, connectorKey, secret).writes)
      ensures old(Valid()) ==>
                && Valid()
                && (if r.Ok? then
                      && SameButFor(disk.config.value, old(disk).config.value, i)
                      && ledger == old(ledger)[disk.config.value.servers[i].secretId := secret]
                    else ledger == old(ledger) && disk.config == old(disk.config))
    {
      if Valid() { ReplaceKeepsSafe(w, Now(), env, nonce, i, baseUrl, authMethod, connectorKey, secret, key); }
      hide Safe;
      hide Spec.PutSecret;
      if disk.config.None? || |disk.config.value.servers| <= i {
        return Threw;
      }
      var config := disk.config.value;
      var existing := config.servers[i];
      r := PutSecret(env, nonce, existing.secretId, secret);
      if r.Threw? {
        return;
      }
      existing := existing.(baseUrl := baseUrl, authMethod := authMethod);
      if connectorKey.Some? {
        existing := existing.(connectorKey := connectorKey);
      }
      SaveConfig(WithServer(config, i, existing));
      return Ok(());
    }

    /** The last write of `connect`, and of a token refresh. */
    method Reconnect(env: Env, nonce: Bytes, i: nat, secret: Secret) returns (r: Result<()>)
      modifies this`disk, this`ledger, this`trace
      ensures r == Spec.Reconnect(w, old(Now()), env, nonce, i, secret).result
      ensures Wrote(old(Now()), old(trace), Spec.Reconnect(w, old(Now()), env, nonce, i, secret).writes)
      ensures old(Valid()) ==>
                && Valid() && disk.config == old(disk.config)
                && ledger == if r.Ok? then old(ledger)[disk.config.value.servers[i].secretId := secret] else old(ledger)
    {
      hide Safe, Spec.PutSecret;
      if disk.config.None? || |disk.config.value.servers| <= i {
        return Threw;
      }
      r := PutSecret(env, nonce, disk.config.value.servers[i].secretId, secret);
    }

    method ToggleTools(i: nat, disabledTools: Option<seq<string>>) returns (r: Result<()>)
      modifies this`disk, this`ledger, this`trace
      ensures r == Spec.ToggleTools(old(Now()), i, disabledTools).result
      ensures Wrote(old(Now()), old(trace), Spec.ToggleTools(old(Now()), i, disabledTools).writes)
      ensures old(Valid()) ==>
                && Valid() && ledger == old(ledger) && disk.secrets == old(disk.secrets)
                && (r.Ok? ==> SameButFor(disk.config.value, old(disk).config.value, i)
                              && disk.config.value.servers[i].disabledTools == disabledTools)
    {
      if Valid() { ToggleKeepsSafe(w, Now(), i, disabledTools, key); }
      hide Safe;
      if disk.config.None? || |disk.config.value.servers| <= i {
        return Threw;
      }
      var config := disk.config.value;
      SaveConfig(WithServer(config, i, config.servers[i].(disabledTools := disabledTools)));
      return Ok(());
    }

    method ClearStoredMasterKey(available: bool, deleteWorks: bool)
      modifies this`disk, this`ledger, this`trace
      ensures Wrote(old(Now()), old(trace), ClearMasterKey(old(Now()), available, deleteWorks))
      ensures disk.keyFile.None?
      ensures if available && deleteWorks then disk.keychain.None? else disk.keychain == old(disk.keychain)
      ensures disk.config == old(disk.config) && disk.secrets == old(disk.secrets)
    {
      if available && deleteWorks {
        Write(disk.(keychain := None));
      }
      if disk.keyFile.Some? {
        Write(disk.(keyFile := None));
      }
    }

    method StoreMasterKey(newKey: string, storage: KeyStorage, env: Env) returns (r: Result<()>)
      modifies this`disk, this`ledger, this`trace
      ensures r == Spec.StoreMasterKey(old(Now()), newKey, storage, env).result
      ensures Wrote(old(Now()), old(trace), Spec.StoreMasterKey(old(Now()), newKey, storage, env).writes)
      ensures r.Ok? && IsKey(w, newKey) ==>
                HoldsKey(disk.(config := Some(Config(8081, Some(storage), None, []))), newKey)
      ensures r.Threw? ==> disk == old(disk)
    {
      ghost var before := Now();
      if IsKey(w, newKey) && Spec.StoreMasterKey(Now(), newKey, storage, env).result.Ok? {
        StoredKeyIsHeld(w, Now(), newKey, storage, env);
      }
      hide HoldsKey;
      if storage == File {
        Write(disk.(keyFile := Some(newKey + "\n")));
        return Ok(());
      }
      if !env.available || !env.setWorks {
        return Threw;
      }
      Write(disk.(keychain := Some(newKey)));
      if disk.keyFile.Some? {
        Write(disk.(keyFile := None));
      }
      return Ok(());
    }

    /** The first part of `init`. */
    method Prepare(force: bool, storage: KeyStorage, x: InitInputs) returns (r: Result<()>)
      modifies this`disk, this`ledger, this`trace
      ensures r == Spec.Prepare(old(Now()), force, storage, x).result
      ensures Wrote(old(Now()), old(trace), Spec.Prepare(old(Now()), force, storage, x).writes)
    {
      hide ClearMasterKey, Spec.StoreMasterKey;
      if force {
        ClearStoredMasterKey(x.clearAvailable, x.deleteWorks);
      }
      ghost var cleared := if force then ClearMasterKey(old(Now()), x.clearAvailable, x.deleteWorks) else [];
      WriteSecrets(map[], map[]);
      ghost var emptied := Now();
      r := StoreMasterKey(x.key, storage, x.storing);
      ghost var storing := Spec.StoreMasterKey(emptied, x.key, storage, x.storing).writes;
      assert trace == old(trace) + (cleared + [emptied] + storing);
    }

    /** The steps of `init`. */
    method InitSteps(force: bool, storage: KeyStorage, x: InitInputs) returns (r: Result<string>)
      modifies this`disk, this`ledger, this`trace
      ensures r == Spec.Init(w, old(Now()), force, storage, x).result
      ensures Wrote(old(Now()), old(trace), Spec.Init(w, old(Now()), force, storage, x).writes)
    {
      hide Spec.Prepare, Spec.MintGatewayToken, MasterKeyExists;
      var already := disk.config.Some? || MasterKeyExists(disk, x.check);
      if already && !force {
        return Threw;
      }
      var prepared := Prepare(force, storage, x);
      ghost var preparing := Spec.Prepare(old(Now()), force, storage, x).writes;
      if prepared.Threw? {
        Write(disk.(secrets := None));
        return Threw;
      }
      SaveConfig(Config(8081, Some(storage), None, []));
      ghost var configured := Now();
      r := MintGatewayToken(x.minting, x.nonce, x.id, x.secret);
      ghost var minting := Spec.MintGatewayToken(w, configured, x.minting, x.nonce, x.id, x.secret).writes;
      assert trace == old(trace) + (preparing + [configured] + minting);
    }

    method Init(force: bool, storage: KeyStorage, x: InitInputs) returns (r: Result<string>)
      modifies this
      ensures r == Spec.Init(w, old(Now()), force, storage, x).result
      ensures Wrote(old(Now()), old(trace), Spec.Init(w, old(Now()), force, storage, x).writes)
      ensures r.Ok? && IsKey(w, x.key) && Correct(w.aead) ==>
                && Valid() && key == x.key
                && r.value == FormatGatewayToken(x.id, x.secret)
                && ledger == map[x.id := Secret(GatewayTokenKind, x.secret)]
                && disk.config == Some(Config(8081, Some(storage), Some(x.id), []))
      ensures r.Threw? ==> key == old(key) && since == old(since)
      ensures !force && Initialised(old(disk), x.check) ==>
                && r == Threw && disk == old(disk) && ledger == old(ledger) && trace == old(trace)
                && (old(Valid()) ==> Valid())
      ensures IsKey(w, x.key) && Correct(w.aead) ==>
                (r.Ok? <==> (force || !Initialised(old(disk), x.check))
                            && (storage == File || (x.storing.available && x.storing.setWorks
                                                    && x.minting.available && x.minting.get.Works?)))
    {
      hide Spec.Init, Safe, Initialised, IsKey;
      InitRefusesIff(w, Now(), force, storage, x);
      if IsKey(w, x.key) && Correct(w.aead) { InitSucceedsIff(w, Now(), force, storage, x); }
      r := InitSteps(force, storage, x);
      if r.Ok? {
        key, since := x.key, |trace|;
        if IsKey(w, x.key) && Correct(w.aead) { InitEstablishesSafe(w, old(Now()), force, storage, x); }
      }
    }

    // ---------- Commands one after another ----------

    method Run(c: Command)
      modifies this`disk, this`ledger, this`trace
      ensures Wrote(old(Now()), old(trace), Writes(w, old(Now()), c))
      ensures old(Valid()) ==> Valid()
    {
      hide Safe, Spec.ReadMasterKey, Spec.GetSecret, Spec.MintGatewayToken, Spec.EnsureGatewayToken,
           Spec.VerifyGatewayAuthorization, Spec.AddServer, Spec.ReplaceServer, Spec.Reconnect, Spec.ToggleTools;
      match c {
        case ReadKey(env) => var _ := ReadMasterKey(env);
        case Get(env, id) => var _ := GetSecretPlaintext(env, id);
        case Mint(env, nonce, id, secret) => var _ := MintGatewayToken(env, nonce, id, secret);
        case Ensure(first, second, nonce, id, secret) => var _ := EnsureGatewayToken(first, second, nonce, id, secret);
        case Verify(env, authorization) => var _ := VerifyGatewayAuthorization(env, authorization);
        case Add(env, nonce, server, secret) => var _ := AddServer(env, nonce, server, secret);
        case Replace(env, nonce, i, baseUrl, authMethod, connectorKey, secret) =>
          var _ := ReplaceServer(env, nonce, i, baseUrl, authMethod, connectorKey, secret);
        case Renew(env, nonce, i, secret) => var _ := Reconnect(env, nonce, i, secret);
        case Toggle(i, disabledTools) => var _ := ToggleTools(i, disabledTools);
      }
    }

    /** Once `init` has succeeded, the key it drew can be read or nothing can,
        and every secret the config names is found as it was last put, however
        many commands have run and whatever the keychain did meanwhile. */
    method InitAndRun(force: bool, storage: KeyStorage, x: InitInputs, commands: seq<Command>, env: Env, id: string)
      returns (token: Result<string>, read: Result<string>, found: Result<Secret>)
      requires IsKey(w, x.key) && Correct(w.aead)
      modifies this
      ensures token.Ok? ==>
                && Valid() && key == x.key
                && (read.Ok? ==> read.value == x.key)
                && (found.Ok? ==> id in ledger && found.value == ledger[id])
                && (read.Ok? && !env.get.FailsSilently? && Names(disk.config.value, id) ==> found.Ok?)
    {
      token := Init(force, storage, x);
      read, found := Threw, Threw;
      if token.Threw? {
        return;
      }
      for i := 0 to |commands|
        invariant Valid() && key == x.key
      {
        Run(commands[i]);
      }
      hide Safe, Spec.ReadMasterKey, Spec.GetSecret;
      ghost var before := Now();
      read := ReadMasterKey(env);
      if read.Ok? { ReadTwice(before, env, key); }
      found := GetSecretPlaintext(env, id);
      NamedIsInLedger(w, Now(), id, key);
    }
  }
}
