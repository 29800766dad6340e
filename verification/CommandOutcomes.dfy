/** When the commands of the credential store succeed, exactly. */
module CommandOutcomes {
  import opened Text
  import opened Wrappers
  import opened SecretBox
  import opened GatewayToken
  import opened CredentialStore
  import opened TokenRuns

  // ---------- init ----------

  /** Something is there that an `init` without `--force` must not overwrite. */
  predicate Initialised(store: Store, env: Env) {
    || store.config.Some?
    || store.keyFile.Some?
    || (env.available && env.get.Works? && store.keychain.Some? && store.keychain.value != "")
  }

  /** `init` refuses, and then writes nothing, exactly on an initialised home
      without `--force`. */
  lemma InitRefusesIff(w: World, s: Snap, force: bool, storage: KeyStorage, x: InitInputs)
    ensures Init(w, s, force, storage, x).writes == [] <==> !force && Initialised(s.store, x.check)
    ensures !force && Initialised(s.store, x.check) ==> Init(w, s, force, storage, x).result == Threw
  {
    hide StoreMasterKey, ClearMasterKey, MintGatewayToken;
  }

  /** Otherwise it succeeds exactly when the key goes into a file, or the
      keychain is there and works when the key is stored and again when the
      token is minted. */
  lemma InitSucceedsIff(w: World, s: Snap, force: bool, storage: KeyStorage, x: InitInputs)
    requires IsKey(w, x.key) && Correct(w.aead)
    ensures Init(w, s, force, storage, x).result.Ok? <==>
            && (force || !Initialised(s.store, x.check))
            && (storage == File
                || (x.storing.available && x.storing.setWorks && x.minting.available && x.minting.get.Works?))
  {
    if force || !Initialised(s.store, x.check) {
      var prepared := Prepare(s, force, storage, x);
      PreparedKey(w, s, force, storage, x);
      if prepared.result.Ok? {
        PreparedStore(w, s, force, storage, x);
        var configured := SaveConfig(Final(s, prepared.writes), Config(8081, Some(storage), None, []));
        hide Prepare, MintGatewayToken, ReadMasterKey, IsKey, HoldsKey;
        NothingStoredIsSafe(w, configured, x.key);
        MintKeepsSafe(w, configured, x.minting, x.nonce, x.id, x.secret, x.key);
        FreshKeyIsReadIff(configured, x.minting, x.key, storage);
      }
    }
  }

  lemma PreparedKey(w: World, s: Snap, force: bool, storage: KeyStorage, x: InitInputs)
    ensures Prepare(s, force, storage, x).result.Ok? <==> storage == File || (x.storing.available && x.storing.setWorks)
    ensures storage == Keychain && Prepare(s, force, storage, x).result.Ok? ==>
              Final(s, Prepare(s, force, storage, x).writes).store.keyFile.None?
  {
  }

  lemma FreshKeyIsReadIff(s: Snap, env: Env, key: string, storage: KeyStorage)
    requires key != "" && HoldsKey(s.store, key) && ResolveKeyStorage(s.store) == storage
    requires storage == Keychain ==> s.store.keyFile.None?
    ensures ReadMasterKey(s, env).result.Ok? <==> storage == File || (env.available && env.get.Works?)
  {
    ReadSucceedsIff(s, env, key);
  }

  /** After a completed `init` and any run, another one without `--force`
      changes nothing, whatever the keychain shows it. */
  lemma InitAgainChangesNothing(w: World, s: Snap, force: bool, storage: KeyStorage, x: InitInputs, events: seq<Event>,
                                storage': KeyStorage, x': InitInputs)
    requires IsKey(w, x.key) && Correct(w.aead) && Init(w, s, force, storage, x).result.Ok?
    ensures var t := RunTo(w, Final(s, Init(w, s, force, storage, x).writes), events);
            Init(w, t, false, storage', x') == Outcome([], Threw)
  {
    hide Init, RunTo, HoldsKey, RowsMatchLedger;
    var t0 := Final(s, Init(w, s, force, storage, x).writes);
    InitEstablishesSafe(w, s, force, storage, x);
    RunsKeepSafe(w, t0, events, x.key);
    InitRefusesIff(w, RunTo(w, t0, events), false, storage', x');
  }

  // ---------- Tokens ----------

  /** The config names a gateway token that was put. */
  predicate TokenStored(s: Snap) {
    && CurrentId(s).Some? && CurrentId(s).value in s.ledger
    && s.ledger[CurrentId(s).value].kind == GatewayTokenKind
  }

  function StoredToken(s: Snap): string
    requires TokenStored(s)
  {
    FormatGatewayToken(CurrentId(s).value, s.ledger[CurrentId(s).value].value)
  }

  /** Loading yields the stored token, exactly when there is one and the key can
      be read. */
  lemma LoadIff(w: World, s: Snap, env: Env, key: string)
    requires Safe(w, s, key)
    ensures LoadGatewayToken(w, s, env).result ==
            if TokenStored(s) && ReadMasterKey(s, env).result.Ok? then Ok(StoredToken(s)) else Threw
  {
    hide ReadMasterKey, GetSecret, HoldsKey, RowsMatchLedger, NamedArePresent, FormatGatewayToken;
    if CurrentId(s).Some? { GetYieldsLastPut(w, s, env, CurrentId(s).value, key); }
  }

  /** Without a stored token, or without the key, no header is accepted. */
  lemma VerifyNeedsStoredToken(w: World, s: Snap, env: Env, authorization: Option<string>, key: string)
    requires Safe(w, s, key) && !(TokenStored(s) && ReadMasterKey(s, env).result.Ok?)
    ensures VerifyGatewayAuthorization(w, s, env, authorization).result == Ok(false)
  {
    hide ReadMasterKey, LoadGatewayToken, Safe, ExtractBearer, ParseGatewayToken, FormatGatewayToken;
    LoadIff(w, s, env, key);
  }

  /** The store when `ensure` comes to minting: a lookup of a secret that is
      there may have migrated the key. */
  function AfterLookup(s: Snap, env: Env): Snap {
    if CurrentId(s).Some? && CurrentId(s).value in s.ledger then Final(s, ReadMasterKey(s, env).writes) else s
  }

  /** What `ensure` returns, and the store `t` it leaves: the stored token if
      there is one that can be read, and otherwise a new one, which the config
      then names, exactly when the key can be read while minting. */
  predicate EnsuredFrom(s: Snap, first: Env, second: Env, id: string, secret: string, result: Result<Ensured>, t: Snap)
    requires s.store.config.Some?
  {
    if TokenStored(s) && ReadMasterKey(s, first).result.Ok? then
      && result == Ok(Ensured(StoredToken(s), false))
      && t.ledger == s.ledger && t.store.config == s.store.config
    else if ReadMasterKey(AfterLookup(s, first), second).result.Ok? then
      && result == Ok(Ensured(FormatGatewayToken(id, secret), true))
      && t.ledger == s.ledger[id := Secret(GatewayTokenKind, secret)]
      && t.store.config == Some(s.store.config.value.(gatewayTokenSecretId := Some(id)))
    else result == Threw && t.ledger == s.ledger && t.store.config == s.store.config
  }

  /** So it is on every safe store. */
  lemma EnsureIff(w: World, s: Snap, first: Env, second: Env, nonce: Bytes, id: string, secret: string, key: string)
    requires Safe(w, s, key)
    ensures var ensured := EnsureGatewayToken(w, s, first, second, nonce, id, secret);
            EnsuredFrom(s, first, second, id, secret, ensured.result, Final(s, ensured.writes))
  {
    hide ReadMasterKey, MintGatewayToken, GetSecret, HoldsKey, RowsMatchLedger, FormatGatewayToken;
    var stored := if CurrentId(s).Some? then GetSecret(w, s, first, CurrentId(s).value) else Outcome([], Threw);
    var t := Final(s, stored.writes);
    if CurrentId(s).Some? {
      GetYieldsLastPut(w, s, first, CurrentId(s).value, key);
      GetKeepsSafe(w, s, first, CurrentId(s).value, key);
      LookupLeaves(w, s, first, key);
    }
    MintKeepsSafe(w, t, second, nonce, id, secret, key);
    AllSafeConcatFinal(s, stored.writes, MintGatewayToken(w, t, second, nonce, id, secret).writes);
  }

  lemma AllSafeConcatFinal(s: Snap, a: seq<Snap>, b: seq<Snap>)
    ensures Final(s, a + b) == Final(Final(s, a), b)
  {
    if b == [] { assert a + b == a; }
  }

  lemma LookupLeaves(w: World, s: Snap, env: Env, key: string)
    requires Safe(w, s, key) && CurrentId(s).Some?
    ensures Final(s, GetSecret(w, s, env, CurrentId(s).value).writes) == AfterLookup(s, env)
  {
    hide ReadMasterKey, HoldsKey, Open;
    var id := CurrentId(s).value;
    assert id in Rows(s.store) <==> id in s.ledger;
  }

  /** After a first `init` that stored the key but failed in minting, `ensure`
      makes up for it as soon as the key can be read. */
  lemma EnsureCompletesInit(w: World, s: Snap, storage: KeyStorage, x: InitInputs,
                            first: Env, second: Env, nonce: Bytes, id: string, secret: string)
    requires IsKey(w, x.key) && Correct(w.aead) && !Initialised(s.store, x.check)
    requires Init(w, s, false, storage, x).result.Threw?
    requires storage == File || (x.storing.available && x.storing.setWorks)
    ensures var t := Final(s, Init(w, s, false, storage, x).writes);
            EnsureGatewayToken(w, t, first, second, nonce, id, secret).result ==
            if ReadMasterKey(t, second).result.Ok? then Ok(Ensured(FormatGatewayToken(id, secret), true)) else Threw
  {
    hide Init, EnsureGatewayToken, ReadMasterKey, HoldsKey, RowsMatchLedger, FormatGatewayToken;
    var t := Final(s, Init(w, s, false, storage, x).writes);
    FailedInitCanBeRetriedIff(w, s, storage, x);
    EnsureIff(w, t, first, second, nonce, id, secret, x.key);
  }

  // ---------- Keys of the wrong length ----------

  /** On any store, safe or not: a secret is put exactly when a key is read that
      decodes to 32 bytes, and none is handed out under any other key. */
  lemma KeysHave32Bytes(w: World, s: Snap, env: Env, nonce: Bytes, id: string, secret: Secret)
    ensures PutSecret(w, s, env, nonce, id, secret).result.Ok? <==>
            ReadMasterKey(s, env).result.Ok? && |w.base64(ReadMasterKey(s, env).result.value)| == 32
    ensures GetSecret(w, s, env, id).result.Ok? ==>
            ReadMasterKey(s, env).result.Ok? && |w.base64(ReadMasterKey(s, env).result.value)| == 32
  {
    hide ReadMasterKey, Open;
  }
}
