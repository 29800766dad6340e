/** The personal credential store: the config file, the secrets file, the key
    file and the keychain entry, and the writes each command makes to them.

    A command is modelled by the states it passes through, one per write, so
    that a crash can be put between any two of them. */
module CredentialStore {
  import opened Text
  import opened Wrappers
  import opened SecretBox
  import opened GatewayToken

  datatype KeyStorage = Keychain | File

  datatype SecretKind = ApiKey | OAuth | GatewayTokenKind

  datatype Server = Server(
    id: string, name: string, baseUrl: string, authMethod: string, secretId: string,
    connectorKey: Option<string>, disabledTools: Option<seq<string>>)

  datatype Config = Config(
    port: nat, keyStorage: Option<KeyStorage>, gatewayTokenSecretId: Option<string>, servers: seq<Server>)

  datatype Row = Row(kind: SecretKind, payload: Payload)

  /** None for a file or entry that is not there. */
  datatype Store = Store(
    config: Option<Config>, secrets: Option<map<string, Row>>, keyFile: Option<string>, keychain: Option<string>)

  datatype Secret = Secret(kind: SecretKind, value: string)

  /** The store, and for each secret id what was last put under it. The ledger
      is bookkeeping for the statements below: no command reads it. */
  datatype Snap = Snap(store: Store, ledger: map<string, Secret>)

  /** The cipher, and the base64 decoding of master keys. */
  datatype World = World(aead: Aead, base64: string -> Bytes)

  /** How the keychain behaves during one access to it. */
  datatype GetOutcome = Works | FailsSilently | Throws
  datatype Env = Env(available: bool, get: GetOutcome, setWorks: bool)

  /** The states after each write of a command, and what it returns. */
  datatype Outcome<+T> = Outcome(writes: seq<Snap>, result: Result<T>)

  function Final(s: Snap, writes: seq<Snap>): Snap {
    if writes == [] then s else writes[|writes| - 1]
  }

  // ---------- The master key ----------

  function ReadFileMasterKey(store: Store): Result<string> {
    if store.keyFile.None? || Trim(store.keyFile.value) == "" then Threw else Ok(Trim(store.keyFile.value))
  }

  function ResolveKeyStorage(store: Store): KeyStorage {
    if store.config.Some? && store.config.value.keyStorage.Some? then store.config.value.keyStorage.value
    else if store.keyFile.Some? then File
    else Keychain
  }

  /** What `keychainGet` hands over: nothing when the entry is missing or empty,
      or when the lookup failed without saying so. */
  function FromKeychain(store: Store, env: Env): Option<string> {
    if env.get.Works? && store.keychain.Some? && store.keychain.value != "" then store.keychain else None
  }

  /** Recording the keychain as the key storage, unless it is recorded. */
  function Noted(s: Snap): seq<Snap> {
    if s.store.config.Some? && s.store.config.value.keyStorage != Some(Keychain)
    then [s.(store := s.store.(config := Some(s.store.config.value.(keyStorage := Some(Keychain)))))]
    else []
  }

  /** The migration of a key file into the keychain: keychain, config, rename. */
  function Migrate(s: Snap, legacy: string): seq<Snap> {
    var moved := s.(store := s.store.(keychain := Some(legacy)));
    var before := Final(moved, Noted(moved));
    [moved] + Noted(moved) + [before.(store := before.store.(keyFile := None))]
  }

  function ReadMasterKey(s: Snap, env: Env): Outcome<string> {
    if ResolveKeyStorage(s.store) == File then Outcome([], ReadFileMasterKey(s.store))
    else if env.available then
      if env.get.Throws? then Outcome([], Threw)
      else if FromKeychain(s.store, env).Some? then Outcome([], Ok(FromKeychain(s.store, env).value))
      else if s.store.keyFile.None? || ReadFileMasterKey(s.store).Threw? || !env.setWorks then Outcome([], Threw)
      else
        var legacy := ReadFileMasterKey(s.store).value;
        Outcome(Migrate(s, legacy), Ok(legacy))
    else Outcome([], ReadFileMasterKey(s.store))
  }

  // ---------- Secrets ----------

  function Aad(secretId: string): Bytes {
    "mesh:secret:" + secretId
  }

  function Rows(store: Store): map<string, Row> {
    if store.secrets.Some? then store.secrets.value else map[]
  }

  function Seal(w: World, key: string, nonce: Bytes, id: string, secret: Secret): Row {
    Row(secret.kind, Encrypt(w.aead, w.base64(key), 1, nonce, secret.value, Aad(id)))
  }

  function Open(w: World, key: string, id: string, row: Row): Option<Secret> {
    match Decrypt(w.aead, w.base64(key), 1, row.payload, Aad(id))
    case Some(value) => Some(Secret(row.kind, value))
    case None => None
  }

  function WithRow(s: Snap, id: string, row: Row, secret: Secret): Snap {
    Snap(s.store.(secrets := Some(Rows(s.store)[id := row])), s.ledger[id := secret])
  }

  function PutSecret(w: World, s: Snap, env: Env, nonce: Bytes, id: string, secret: Secret): Outcome<()> {
    var key := ReadMasterKey(s, env);
    if key.result.Threw? || !IsMasterKey(w.base64, key.result.value) then Outcome(key.writes, Threw)
    else
      var row := Seal(w, key.result.value, nonce, id, secret);
      Outcome(key.writes + [WithRow(Final(s, key.writes), id, row, secret)], Ok(()))
  }

  function GetSecret(w: World, s: Snap, env: Env, id: string): Outcome<Secret> {
    if id !in Rows(s.store) then Outcome([], Threw)
    else
      var key := ReadMasterKey(s, env);
      if key.result.Threw? || !IsMasterKey(w.base64, key.result.value) then Outcome(key.writes, Threw)
      else
        match Open(w, key.result.value, id, Rows(s.store)[id])
        case Some(secret) => Outcome(key.writes, Ok(secret))
        case None => Outcome(key.writes, Threw)
  }

  function DeleteSecret(s: Snap, id: string): Outcome<()> {
    if id !in Rows(s.store) then Outcome([], Ok(()))
    else Outcome([Snap(s.store.(secrets := Some(Rows(s.store) - {id})), s.ledger - {id})], Ok(()))
  }

  function SaveConfig(s: Snap, config: Config): Snap {
    s.(store := s.store.(config := Some(config)))
  }

  // ---------- The gateway token ----------

  /** `id` and `secret` are the fresh random values drawn by the call. */
  function MintGatewayToken(w: World, s: Snap, env: Env, nonce: Bytes, id: string, secret: string): Outcome<string> {
    if s.store.config.None? then Outcome([], Threw)
    else
      var put := PutSecret(w, s, env, nonce, id, Secret(GatewayTokenKind, secret));
      if put.result.Threw? then Outcome(put.writes, Threw)
      else
        var config := s.store.config.value.(gatewayTokenSecretId := Some(id));
        Outcome(put.writes + [SaveConfig(Final(s, put.writes), config)], Ok(FormatGatewayToken(id, secret)))
  }

  datatype Ensured = Ensured(token: string, created: bool)

  /** `first` is the keychain during the lookup, `second` while minting. */
  function EnsureGatewayToken(w: World, s: Snap, first: Env, second: Env, nonce: Bytes, id: string, secret: string)
    : Outcome<Ensured>
  {
    if s.store.config.None? then Outcome([], Threw)
    else
      var current := s.store.config.value.gatewayTokenSecretId;
      var stored := if current.Some? then GetSecret(w, s, first, current.value) else Outcome([], Threw);
      if stored.result.Ok? && stored.result.value.kind == GatewayTokenKind then
        Outcome(stored.writes, Ok(Ensured(FormatGatewayToken(current.value, stored.result.value.value), false)))
      else
        var minted := MintGatewayToken(w, Final(s, stored.writes), second, nonce, id, secret);
        match minted.result
        case Ok(token) => Outcome(stored.writes + minted.writes, Ok(Ensured(token, true)))
        case Threw => Outcome(stored.writes + minted.writes, Threw)
  }

  function LoadGatewayToken(w: World, s: Snap, env: Env): Outcome<string> {
    if s.store.config.None? || s.store.config.value.gatewayTokenSecretId.None? then Outcome([], Threw)
    else
      var id := s.store.config.value.gatewayTokenSecretId.value;
      var stored := GetSecret(w, s, env, id);
      if stored.result.Threw? || stored.result.value.kind != GatewayTokenKind then Outcome(stored.writes, Threw)
      else Outcome(stored.writes, Ok(FormatGatewayToken(id, stored.result.value.value)))
  }

  function VerifyGatewayAuthorization(w: World, s: Snap, env: Env, authorization: Option<string>): Outcome<bool> {
    var bearer := ExtractBearer(authorization);
    if bearer.None? || ParseGatewayToken(bearer.value).None? then Outcome([], Ok(false))
    else
      var parsed := ParseGatewayToken(bearer.value).value;
      var expected := LoadGatewayToken(w, s, env);
      if expected.result.Threw? || ParseGatewayToken(expected.result.value).None? then Outcome(expected.writes, Ok(false))
      else
        var e := ParseGatewayToken(expected.result.value).value;
        Outcome(expected.writes, Ok(parsed.secretId == e.secretId && parsed.secret == e.secret))
  }

  // ---------- The other commands that write ----------

  /** The final writes of `add` for a new server. */
  function AddServer(w: World, s: Snap, env: Env, nonce: Bytes, server: Server, secret: Secret): Outcome<()> {
    if s.store.config.None? then Outcome([], Threw)
    else
      var put := PutSecret(w, s, env, nonce, server.secretId, secret);
      if put.result.Threw? then Outcome(put.writes, Threw)
      else
        var config := s.store.config.value;
        Outcome(put.writes + [SaveConfig(Final(s, put.writes), config.(servers := config.servers + [server]))], Ok(()))
  }

  function WithServer(config: Config, i: nat, server: Server): Config
    requires i < |config.servers|
  {
    config.(servers := config.servers[i := server])
  }

  /** The final writes of `add --force` for an existing server. */
  function ReplaceServer(w: World, s: Snap, env: Env, nonce: Bytes, i: nat, baseUrl: string, authMethod: string,
                         connectorKey: Option<string>, secret: Secret): Outcome<()>
  {
    if s.store.config.None? || |s.store.config.value.servers| <= i then Outcome([], Threw)
    else
      var config := s.store.config.value;
      var existing := config.servers[i];
      var put := PutSecret(w, s, env, nonce, existing.secretId, secret);
      if put.result.Threw? then Outcome(put.writes, Threw)
      else
        var updated := existing.(
          baseUrl := baseUrl, authMethod := authMethod,
          connectorKey := if connectorKey.Some? then connectorKey else existing.connectorKey);
        Outcome(put.writes + [SaveConfig(Final(s, put.writes), WithServer(config, i, updated))], Ok(()))
  }

  /** `connect` and token refresh: a new secret for an existing server. */
  function Reconnect(w: World, s: Snap, env: Env, nonce: Bytes, i: nat, secret: Secret): Outcome<()> {
    if s.store.config.None? || |s.store.config.value.servers| <= i then Outcome([], Threw)
    else PutSecret(w, s, env, nonce, s.store.config.value.servers[i].secretId, secret)
  }

  /** `tools enable` and `tools disable`. */
  function ToggleTools(s: Snap, i: nat, disabledTools: Option<seq<string>>): Outcome<()> {
    if s.store.config.None? || |s.store.config.value.servers| <= i then Outcome([], Threw)
    else
      var config := s.store.config.value;
      Outcome([SaveConfig(s, WithServer(config, i, config.servers[i].(disabledTools := disabledTools)))], Ok(()))
  }

  // ---------- init ----------

  function ClearMasterKey(s: Snap, available: bool, deleteWorks: bool): seq<Snap> {
    var deleted := if available && deleteWorks then [s.(store := s.store.(keychain := None))] else [];
    var t := Final(s, deleted);
    deleted + if t.store.keyFile.Some? then [t.(store := t.store.(keyFile := None))] else []
  }

  function StoreMasterKey(s: Snap, key: string, storage: KeyStorage, env: Env): Outcome<()> {
    if storage == File then Outcome([s.(store := s.store.(keyFile := Some(key + "\n")))], Ok(()))
    else if !env.available || !env.setWorks then Outcome([], Threw)
    else
      var set_ := s.(store := s.store.(keychain := Some(key)));
      Outcome([set_] + if set_.store.keyFile.Some? then [set_.(store := set_.store.(keyFile := None))] else [], Ok(()))
  }

  /** The keychain as `init` meets it at its four accesses, and the random values it draws. */
  datatype InitInputs = InitInputs(
    check: Env, clearAvailable: bool, deleteWorks: bool, storing: Env, minting: Env,
    key: string, nonce: Bytes, id: string, secret: string)

  function MasterKeyExists(store: Store, env: Env): bool {
    store.keyFile.Some? || (env.available && FromKeychain(store, env).Some?)
  }

  /** The first writes of `init`: clear the old key, empty the secrets, store the new key. */
  function Prepare(s: Snap, force: bool, storage: KeyStorage, x: InitInputs): Outcome<()> {
    var cleared := if force then ClearMasterKey(s, x.clearAvailable, x.deleteWorks) else [];
    var emptied := Snap(Final(s, cleared).store.(secrets := Some(map[])), map[]);
    var stored := StoreMasterKey(emptied, x.key, storage, x.storing);
    Outcome(cleared + [emptied] + stored.writes, stored.result)
  }

  function Init(w: World, s: Snap, force: bool, storage: KeyStorage, x: InitInputs): Outcome<string> {
    if (s.store.config.Some? || MasterKeyExists(s.store, x.check)) && !force then Outcome([], Threw)
    else
      var prepared := Prepare(s, force, storage, x);
      var t := Final(s, prepared.writes);
      if prepared.result.Threw? then Outcome(prepared.writes + [t.(store := t.store.(secrets := None))], Threw)
      else
        var configured := SaveConfig(t, Config(8081, Some(storage), None, []));
        var minted := MintGatewayToken(w, configured, x.minting, x.nonce, x.id, x.secret);
        Outcome(prepared.writes + [configured] + minted.writes, minted.result)
  }

  // ---------- What the store must satisfy ----------

  /** A key as `init` draws it: base64 text of 32 bytes, which trimming does not change. */
  predicate IsKey(w: World, key: string) {
    key != "" && Trim(key) == key && IsMasterKey(w.base64, key)
  }

  /** Wherever the commands would look for the master key, they find `key` or
      nothing, and it is in at least one of these places. */
  predicate HoldsKey(store: Store, key: string) {
    && (store.keyFile.Some? ==> Trim(store.keyFile.value) == key)
    && match ResolveKeyStorage(store)
       case File => store.keyFile.Some?
       case Keychain => store.keychain == Some(key) || (store.keychain.None? && store.keyFile.Some?)
  }

  /** The secret ids the config names. */
  predicate Names(config: Config, id: string) {
    config.gatewayTokenSecretId == Some(id) || exists i :: 0 <= i < |config.servers| && config.servers[i].secretId == id
  }

  /** Every stored row opens under the key to what was last put under its id. */
  predicate RowsMatchLedger(w: World, s: Snap, key: string) {
    && Rows(s.store).Keys == s.ledger.Keys
    && forall id :: id in s.ledger ==> Open(w, key, id, Rows(s.store)[id]) == Some(s.ledger[id])
  }

  ghost predicate NamedArePresent(s: Snap) {
    s.store.config.Some? && forall id :: Names(s.store.config.value, id) ==> id in Rows(s.store)
  }

  ghost predicate Safe(w: World, s: Snap, key: string) {
    && IsKey(w, key) && Correct(w.aead)
    && HoldsKey(s.store, key)
    && RowsMatchLedger(w, s, key)
    && NamedArePresent(s)
  }

  ghost predicate AllSafe(w: World, writes: seq<Snap>, key: string) {
    forall i :: 0 <= i < |writes| ==> Safe(w, writes[i], key)
  }

  // ---------- Reading the key ----------

  /** Reading migrates exactly when the config records the keychain and that is
      there, answers, holds no key and takes the one in the key file. So the
      config already says `keychain`, and of the three writes of a migration the
      middle one is never made. */
  lemma MigrationMakesTwoWrites(s: Snap, env: Env)
    ensures var r := ReadMasterKey(s, env);
            && (r.writes == [] || |r.writes| == 2)
            && (r.writes != [] <==>
                  && s.store.config.Some? && s.store.config.value.keyStorage == Some(Keychain)
                  && env.available && !env.get.Throws? && FromKeychain(s.store, env).None?
                  && s.store.keyFile.Some? && Trim(s.store.keyFile.value) != "" && env.setWorks)
            && (r.writes != [] ==>
                  && r.result == Ok(Trim(s.store.keyFile.value))
                  && Final(s, r.writes).store.keychain == Some(Trim(s.store.keyFile.value))
                  && Final(s, r.writes).store.keyFile.None?)
            && Final(s, r.writes).store.config == s.store.config
            && Final(s, r.writes).store.secrets == s.store.secrets
            && Final(s, r.writes).ledger == s.ledger
  {
  }

  /** With no storage recorded in the config, an existing key file is used as
      it is and never migrated, whatever the keychain does. */
  lemma UnrecordedStorageNeverMigrates(s: Snap, env: Env)
    requires s.store.keyFile.Some? && (s.store.config.Some? ==> s.store.config.value.keyStorage.None?)
    ensures ReadMasterKey(s, env) == Outcome([], ReadFileMasterKey(s.store))
  {
  }

  /** A read that succeeds yields the key, and each state it passes through
      still holds the key. */
  lemma ReadYieldsTheKey(s: Snap, env: Env, key: string)
    requires key != "" && HoldsKey(s.store, key)
    ensures var r := ReadMasterKey(s, env);
            && (r.result.Ok? ==> r.result.value == key)
            && (forall i :: 0 <= i < |r.writes| ==> HoldsKey(r.writes[i].store, key))
            && HoldsKey(Final(s, r.writes).store, key)
  {
  }

  /** A read succeeds exactly when the keychain is not needed, or is there and
      answers, or is there empty-handed and takes the file's key, or is gone
      while the file is there. */
  lemma ReadSucceedsIff(s: Snap, env: Env, key: string)
    requires key != "" && HoldsKey(s.store, key)
    ensures ReadMasterKey(s, env).result.Ok? <==>
            || ResolveKeyStorage(s.store) == File
            || (!env.available && s.store.keyFile.Some?)
            || (env.available && env.get.Works? && s.store.keychain.Some?)
            || (env.available && !env.get.Throws? && env.setWorks && s.store.keyFile.Some?)
  {
  }

  lemma ReadKeepsSafe(w: World, s: Snap, env: Env, key: string)
    requires Safe(w, s, key)
    ensures var r := ReadMasterKey(s, env);
            AllSafe(w, r.writes, key) && Safe(w, Final(s, r.writes), key)
  {
    ReadYieldsTheKey(s, env, key);
    MigrationMakesTwoWrites(s, env);
    var r := ReadMasterKey(s, env);
    forall i | 0 <= i < |r.writes| ensures Safe(w, r.writes[i], key) {
      assert r.writes[i].store.secrets == s.store.secrets && r.writes[i].ledger == s.ledger;
      assert r.writes[i].store.config == s.store.config;
    }
  }

  /** A read that succeeds can be repeated in the same circumstances, although
      the first may have migrated the key: unless lookups fail silently, when
      it is migrated to where the next read does not find it. */
  lemma ReadTwice(s: Snap, env: Env, key: string)
    requires key != "" && HoldsKey(s.store, key) && ReadMasterKey(s, env).result.Ok?
    ensures ReadMasterKey(Final(s, ReadMasterKey(s, env).writes), env).result.Ok?
            <==> !(env.get.FailsSilently? && ReadMasterKey(s, env).writes != [])
  {
    ReadYieldsTheKey(s, env, key);
  }

  // ---------- What reads and puts change ----------

  lemma ReadWritesOnlyTheKey(s: Snap, env: Env)
    ensures var writes := ReadMasterKey(s, env).writes;
            forall i :: 0 <= i < |writes| ==>
              writes[i].store.config == s.store.config && writes[i].store.secrets == s.store.secrets
              && writes[i].ledger == s.ledger
  {
  }

  /** Before its own write a put only reads; its write leaves the config alone. */
  lemma PutWrites(w: World, s: Snap, env: Env, nonce: Bytes, id: string, secret: Secret)
    ensures var put := PutSecret(w, s, env, nonce, id, secret);
            && (forall i :: 0 <= i < |put.writes| ==>
                  && put.writes[i].store.config == s.store.config
                  && (put.writes[i].ledger == s.ledger || put.writes[i].ledger == s.ledger[id := secret]))
            && Final(s, put.writes).store.config == s.store.config
            && (put.result.Ok? ==> put.writes != [])
            && (Final(s, put.writes).ledger == if put.result.Ok? then s.ledger[id := secret] else s.ledger)
  {
    hide ReadMasterKey;
    ReadWritesOnlyTheKey(s, env);
  }

  // ---------- Each write keeps the store safe ----------

  lemma SealOpens(w: World, key: string, nonce: Bytes, id: string, secret: Secret)
    requires Correct(w.aead)
    ensures Open(w, key, id, Seal(w, key, nonce, id, secret)) == Some(secret)
  {
    DecryptOfEncrypt(w.aead, w.base64(key), 1, nonce, secret.value, Aad(id));
  }

  lemma RowKeepsSafe(w: World, s: Snap, key: string, nonce: Bytes, id: string, secret: Secret)
    requires Safe(w, s, key)
    ensures Safe(w, WithRow(s, id, Seal(w, key, nonce, id, secret), secret), key)
  {
    SealOpens(w, key, nonce, id, secret);
    var t := WithRow(s, id, Seal(w, key, nonce, id, secret), secret);
    assert Rows(t.store) == Rows(s.store)[id := Seal(w, key, nonce, id, secret)];
  }

  /** Saving a config keeps the store safe when it names only ids that are
      there, and records the same key storage. */
  lemma ConfigKeepsSafe(w: World, s: Snap, key: string, config: Config)
    requires Safe(w, s, key) && config.keyStorage == s.store.config.value.keyStorage
    requires forall id :: Names(config, id) ==> id in Rows(s.store)
    ensures Safe(w, SaveConfig(s, config), key)
  {
    assert Rows(SaveConfig(s, config).store) == Rows(s.store);
  }

  lemma AllSafeAppend(w: World, writes: seq<Snap>, last: Snap, key: string)
    requires AllSafe(w, writes, key) && Safe(w, last, key)
    ensures AllSafe(w, writes + [last], key) && forall s :: Final(s, writes + [last]) == last
  {
  }

  lemma AllSafeConcat(w: World, a: seq<Snap>, b: seq<Snap>, s: Snap, key: string)
    requires AllSafe(w, a, key) && AllSafe(w, b, key)
    ensures AllSafe(w, a + b, key) && Final(s, a + b) == Final(Final(s, a), b)
  {
    if b == [] { assert a + b == a; }
  }

  /** `putSecret`: safe at every write, and when it returns, the id holds the
      new secret and every other id what it held before. */
  lemma PutKeepsSafe(w: World, s: Snap, env: Env, nonce: Bytes, id: string, secret: Secret, key: string)
    requires Safe(w, s, key)
    ensures var put := PutSecret(w, s, env, nonce, id, secret);
            var t := Final(s, put.writes);
            && AllSafe(w, put.writes, key) && Safe(w, t, key)
            && t.store.config == s.store.config
            && (put.result.Ok? <==> ReadMasterKey(s, env).result.Ok?)
            && (if put.result.Ok? then
                  && t.ledger == s.ledger[id := secret]
                  && id in Rows(t.store)
                  && (forall other :: other in Rows(s.store) && other != id ==>
                        other in Rows(t.store) && Rows(t.store)[other] == Rows(s.store)[other])
                else t.ledger == s.ledger && Rows(t.store) == Rows(s.store))
  {
    hide RowsMatchLedger, HoldsKey, NamedArePresent, ReadMasterKey;
    var read := ReadMasterKey(s, env);
    var t := Final(s, read.writes);
    ReadKeepsSafe(w, s, env, key);
    ReadYieldsTheKey(s, env, key);
    MigrationMakesTwoWrites(s, env);
    if read.result.Ok? {
      RowKeepsSafe(w, t, key, nonce, id, secret);
      AllSafeAppend(w, read.writes, WithRow(t, id, Seal(w, key, nonce, id, secret), secret), key);
    }
  }

  // ---------- Commands, and runs of them ----------

  datatype Command =
    | ReadKey(env: Env)
    | Get(env: Env, id: string)
    | Mint(env: Env, nonce: Bytes, id: string, secret: string)
    | Ensure(first: Env, second: Env, nonce: Bytes, id: string, secret: string)
    | Verify(env: Env, authorization: Option<string>)
    | Add(env: Env, nonce: Bytes, server: Server, added: Secret)
    | Replace(env: Env, nonce: Bytes, i: nat, baseUrl: string, authMethod: string,
              connectorKey: Option<string>, replaced: Secret)
    | Renew(env: Env, nonce: Bytes, i: nat, renewed: Secret)
    | Toggle(i: nat, disabledTools: Option<seq<string>>)

  function Writes(w: World, s: Snap, c: Command): seq<Snap> {
    match c
    case ReadKey(env) => ReadMasterKey(s, env).writes
    case Get(env, id) => GetSecret(w, s, env, id).writes
    case Mint(env, nonce, id, secret) => MintGatewayToken(w, s, env, nonce, id, secret).writes
    case Ensure(first, second, nonce, id, secret) => EnsureGatewayToken(w, s, first, second, nonce, id, secret).writes
    case Verify(env, authorization) => VerifyGatewayAuthorization(w, s, env, authorization).writes
    case Add(env, nonce, server, secret) => AddServer(w, s, env, nonce, server, secret).writes
    case Replace(env, nonce, i, baseUrl, authMethod, connectorKey, secret) =>
      ReplaceServer(w, s, env, nonce, i, baseUrl, authMethod, connectorKey, secret).writes
    case Renew(env, nonce, i, secret) => Reconnect(w, s, env, nonce, i, secret).writes
    case Toggle(i, disabledTools) => ToggleTools(s, i, disabledTools).writes
  }

  lemma GetKeepsSafe(w: World, s: Snap, env: Env, id: string, key: string)
    requires Safe(w, s, key)
    ensures var get := GetSecret(w, s, env, id);
            && AllSafe(w, get.writes, key) && Safe(w, Final(s, get.writes), key)
            && Final(s, get.writes).store.config == s.store.config
            && Final(s, get.writes).ledger == s.ledger
            && Rows(Final(s, get.writes).store) == Rows(s.store)
  {
    ReadKeepsSafe(w, s, env, key);
    MigrationMakesTwoWrites(s, env);
  }

  lemma MintKeepsSafe(w: World, s: Snap, env: Env, nonce: Bytes, id: string, secret: string, key: string)
    requires Safe(w, s, key)
    ensures var mint := MintGatewayToken(w, s, env, nonce, id, secret);
            var t := Final(s, mint.writes);
            && AllSafe(w, mint.writes, key) && Safe(w, t, key)
            && (mint.result.Ok? <==> ReadMasterKey(s, env).result.Ok?)
            && (if mint.result.Ok? then
                  && mint.result.value == FormatGatewayToken(id, secret)
                  && t.ledger == s.ledger[id := Secret(GatewayTokenKind, secret)]
                  && t.store.config == Some(s.store.config.value.(gatewayTokenSecretId := Some(id)))
                else t.ledger == s.ledger && t.store.config == s.store.config)
  {
    hide RowsMatchLedger, HoldsKey, ReadMasterKey, PutSecret;
    var put := PutSecret(w, s, env, nonce, id, Secret(GatewayTokenKind, secret));
    var t := Final(s, put.writes);
    PutKeepsSafe(w, s, env, nonce, id, Secret(GatewayTokenKind, secret), key);
    if put.result.Ok? {
      var config := s.store.config.value.(gatewayTokenSecretId := Some(id));
      forall n | Names(config, n) ensures n in Rows(t.store) {
        assert n == id || Names(s.store.config.value, n);
      }
      ConfigKeepsSafe(w, t, key, config);
      AllSafeAppend(w, put.writes, SaveConfig(t, config), key);
    }
  }

  lemma EnsureKeepsSafe(w: World, s: Snap, first: Env, second: Env, nonce: Bytes, id: string, secret: string, key: string)
    requires Safe(w, s, key)
    ensures var ensured := EnsureGatewayToken(w, s, first, second, nonce, id, secret);
            AllSafe(w, ensured.writes, key) && Safe(w, Final(s, ensured.writes), key)
  {
    hide RowsMatchLedger, HoldsKey, ReadMasterKey, MintGatewayToken, GetSecret;
    var current := s.store.config.value.gatewayTokenSecretId;
    var stored := if current.Some? then GetSecret(w, s, first, current.value) else Outcome([], Threw);
    if current.Some? { GetKeepsSafe(w, s, first, current.value, key); }
    var t := Final(s, stored.writes);
    MintKeepsSafe(w, t, second, nonce, id, secret, key);
    AllSafeConcat(w, stored.writes, MintGatewayToken(w, t, second, nonce, id, secret).writes, s, key);
  }

  lemma VerifyKeepsSafe(w: World, s: Snap, env: Env, authorization: Option<string>, key: string)
    requires Safe(w, s, key)
    ensures var verified := VerifyGatewayAuthorization(w, s, env, authorization);
            AllSafe(w, verified.writes, key) && Safe(w, Final(s, verified.writes), key)
  {
    hide RowsMatchLedger, HoldsKey, GetSecret, ExtractBearer, ParseGatewayToken;
    if s.store.config.value.gatewayTokenSecretId.Some? {
      GetKeepsSafe(w, s, env, s.store.config.value.gatewayTokenSecretId.value, key);
    }
  }

  lemma AddKeepsSafe(w: World, s: Snap, env: Env, nonce: Bytes, server: Server, secret: Secret, key: string)
    requires Safe(w, s, key)
    ensures var add := AddServer(w, s, env, nonce, server, secret);
            var t, ok, config := Final(s, add.writes), add.result.Ok?, s.store.config.value;
            && AllSafe(w, add.writes, key) && Safe(w, t, key)
            && (ok <==> ReadMasterKey(s, env).result.Ok?)
            && t.ledger == (if ok then s.ledger[server.secretId := secret] else s.ledger)
            && t.store.config == Some(if ok then config.(servers := config.servers + [server]) else config)
  {
    hide RowsMatchLedger, HoldsKey, ReadMasterKey, PutSecret;
    var put := PutSecret(w, s, env, nonce, server.secretId, secret);
    var t := Final(s, put.writes);
    PutKeepsSafe(w, s, env, nonce, server.secretId, secret, key);
    if put.result.Ok? {
      var old_ := s.store.config.value;
      var config := old_.(servers := old_.servers + [server]);
      forall n | Names(config, n) ensures n in Rows(t.store) {
        assert n == server.secretId || Names(old_, n);
      }
      ConfigKeepsSafe(w, t, key, config);
      AllSafeAppend(w, put.writes, SaveConfig(t, config), key);
    }
  }

  /** Two configs that differ in server `i` at most. */
  predicate SameButFor(a: Config, b: Config, i: nat) {
    && (a.port, a.keyStorage, a.gatewayTokenSecretId) == (b.port, b.keyStorage, b.gatewayTokenSecretId)
    && i < |a.servers| == |b.servers|
    && forall j :: 0 <= j < |a.servers| && j != i ==> a.servers[j] == b.servers[j]
  }

  lemma SameSecretIdKeepsNames(config: Config, i: nat, server: Server, id: string)
    requires i < |config.servers| && server.secretId == config.servers[i].secretId
    ensures Names(WithServer(config, i, server), id) ==> Names(config, id)
  {
    var updated := WithServer(config, i, server);
    if Names(updated, id) && updated.gatewayTokenSecretId != Some(id) {
      var j :| 0 <= j < |updated.servers| && updated.servers[j].secretId == id;
      assert config.servers[j].secretId == id;
    }
  }

  lemma ReplaceKeepsSafe(w: World, s: Snap, env: Env, nonce: Bytes, i: nat, baseUrl: string, authMethod: string,
                         connectorKey: Option<string>, secret: Secret, key: string)
    requires Safe(w, s, key)
    ensures var replace := ReplaceServer(w, s, env, nonce, i, baseUrl, authMethod, connectorKey, secret);
            var t, ok, servers := Final(s, replace.writes), replace.result.Ok?, s.store.config.value.servers;
            && AllSafe(w, replace.writes, key) && Safe(w, t, key)
            && (ok <==> i < |servers| && ReadMasterKey(s, env).result.Ok?)
            && (if ok then
                  && t.ledger == s.ledger[servers[i].secretId := secret]
                  && SameButFor(t.store.config.value, s.store.config.value, i)
                  && var server := t.store.config.value.servers[i];
                  && (server.baseUrl, server.authMethod) == (baseUrl, authMethod)
                  && server.connectorKey == (if connectorKey.Some? then connectorKey else servers[i].connectorKey)
                  && (server.id, server.name, server.secretId, server.disabledTools)
                     == (servers[i].id, servers[i].name, servers[i].secretId, servers[i].disabledTools)
                else t.ledger == s.ledger && t.store.config == s.store.config)
  {
    hide RowsMatchLedger, HoldsKey, ReadMasterKey, PutSecret, Names;
    var config := s.store.config.value;
    if i < |config.servers| {
      var existing := config.servers[i];
      var put := PutSecret(w, s, env, nonce, existing.secretId, secret);
      var t := Final(s, put.writes);
      PutKeepsSafe(w, s, env, nonce, existing.secretId, secret, key);
      if put.result.Ok? {
        var updated := existing.(
          baseUrl := baseUrl, authMethod := authMethod,
          connectorKey := if connectorKey.Some? then connectorKey else existing.connectorKey);
        var saved := WithServer(config, i, updated);
        forall n | Names(saved, n) ensures n in Rows(t.store) {
          SameSecretIdKeepsNames(config, i, updated, n);
        }
        ConfigKeepsSafe(w, t, key, saved);
        AllSafeAppend(w, put.writes, SaveConfig(t, saved), key);
      }
    }
  }

  lemma ToggleKeepsSafe(w: World, s: Snap, i: nat, disabledTools: Option<seq<string>>, key: string)
    requires Safe(w, s, key)
    ensures var toggled := ToggleTools(s, i, disabledTools);
            var t, servers := Final(s, toggled.writes), s.store.config.value.servers;
            && AllSafe(w, toggled.writes, key) && Safe(w, t, key)
            && t.ledger == s.ledger && t.store.secrets == s.store.secrets
            && (toggled.result.Ok? <==> i < |servers|)
            && (i < |servers| ==>
                  && SameButFor(t.store.config.value, s.store.config.value, i)
                  && t.store.config.value.servers[i] == servers[i].(disabledTools := disabledTools))
  {
    hide RowsMatchLedger, HoldsKey, Names;
    var config := s.store.config.value;
    if i < |config.servers| {
      var updated := config.servers[i].(disabledTools := disabledTools);
      var saved := WithServer(config, i, updated);
      forall n | Names(saved, n) ensures n in Rows(s.store) {
        SameSecretIdKeepsNames(config, i, updated, n);
      }
      ConfigKeepsSafe(w, s, key, saved);
    }
  }

  /** Whatever command runs, with whatever keychain outages, every state at one
      of its write boundaries is safe. */
  lemma CommandKeepsSafe(w: World, s: Snap, c: Command, key: string)
    requires Safe(w, s, key)
    ensures AllSafe(w, Writes(w, s, c), key)
  {
    hide Safe, ReadMasterKey, GetSecret, MintGatewayToken, EnsureGatewayToken, VerifyGatewayAuthorization,
         AddServer, ReplaceServer, Reconnect, ToggleTools;
    match c
    case ReadKey(env) => ReadKeepsSafe(w, s, env, key);
    case Get(env, id) => GetKeepsSafe(w, s, env, id, key);
    case Mint(env, nonce, id, secret) => MintKeepsSafe(w, s, env, nonce, id, secret, key);
    case Ensure(first, second, nonce, id, secret) => EnsureKeepsSafe(w, s, first, second, nonce, id, secret, key);
    case Verify(env, authorization) => VerifyKeepsSafe(w, s, env, authorization, key);
    case Add(env, nonce, server, secret) => AddKeepsSafe(w, s, env, nonce, server, secret, key);
    case Replace(env, nonce, i, baseUrl, authMethod, connectorKey, secret) =>
      ReplaceKeepsSafe(w, s, env, nonce, i, baseUrl, authMethod, connectorKey, secret, key);
    case Renew(env, nonce, i, secret) => RenewKeepsSafe(w, s, env, nonce, i, secret, key);
    case Toggle(i, disabledTools) => ToggleKeepsSafe(w, s, i, disabledTools, key);
  }

  lemma RenewKeepsSafe(w: World, s: Snap, env: Env, nonce: Bytes, i: nat, secret: Secret, key: string)
    requires Safe(w, s, key)
    ensures var renew := Reconnect(w, s, env, nonce, i, secret);
            var t, servers := Final(s, renew.writes), s.store.config.value.servers;
            && AllSafe(w, renew.writes, key)
            && t.store.config == s.store.config
            && (renew.result.Ok? <==> i < |servers| && ReadMasterKey(s, env).result.Ok?)
            && t.ledger == if renew.result.Ok? then s.ledger[servers[i].secretId := secret] else s.ledger
  {
    hide RowsMatchLedger, HoldsKey, PutSecret, ReadMasterKey;
    if i < |s.store.config.value.servers| {
      PutKeepsSafe(w, s, env, nonce, s.store.config.value.servers[i].secretId, secret, key);
    }
  }

  /** A command and how many of its writes reach the disk before a crash. */
  datatype Event = Event(command: Command, reached: nat)

  function StateAfter(w: World, s: Snap, e: Event): Snap {
    var writes := Writes(w, s, e.command);
    Final(s, if e.reached < |writes| then writes[..e.reached] else writes)
  }

  function RunTo(w: World, s: Snap, events: seq<Event>): Snap {
    if events == [] then s else StateAfter(w, RunTo(w, s, events[..|events| - 1]), events[|events| - 1])
  }

  /** A safe store stays safe over every run of commands and crashes. */
  lemma {:induction false} RunsKeepSafe(w: World, s: Snap, events: seq<Event>, key: string)
    requires Safe(w, s, key)
    ensures Safe(w, RunTo(w, s, events), key)
  {
    hide Safe, Writes;
    if events != [] {
      var before, e := RunTo(w, s, events[..|events| - 1]), events[|events| - 1];
      RunsKeepSafe(w, s, events[..|events| - 1], key);
      CommandKeepsSafe(w, before, e.command, key);
    }
  }

  // ---------- After init ----------

  lemma StoredKeyIsHeld(w: World, s: Snap, key: string, storage: KeyStorage, env: Env)
    requires IsKey(w, key) && StoreMasterKey(s, key, storage, env).result.Ok?
    ensures var t := Final(s, StoreMasterKey(s, key, storage, env).writes);
            && HoldsKey(SaveConfig(t, Config(8081, Some(storage), None, [])).store, key)
            && t.store.secrets == s.store.secrets && t.ledger == s.ledger
  {
    TrimIgnoresPadding("", key, "\n");
    assert "" + key + "\n" == key + "\n";
  }

  lemma PreparedStore(w: World, s: Snap, force: bool, storage: KeyStorage, x: InitInputs)
    requires IsKey(w, x.key) && Prepare(s, force, storage, x).result.Ok?
    ensures var t := Final(s, Prepare(s, force, storage, x).writes);
            && HoldsKey(SaveConfig(t, Config(8081, Some(storage), None, [])).store, x.key)
            && t.store.secrets == Some(map[]) && t.ledger == map[]
  {
    hide HoldsKey, ClearMasterKey, StoreMasterKey;
    var cleared := if force then ClearMasterKey(s, x.clearAvailable, x.deleteWorks) else [];
    var emptied := Snap(Final(s, cleared).store.(secrets := Some(map[])), map[]);
    StoredKeyIsHeld(w, emptied, x.key, storage, x.storing);
  }

  /** A completed `init` leaves a safe store under its key, whose only secret
      is the gateway token it printed; `--force` or not, whatever was there. */
  lemma InitEstablishesSafe(w: World, s: Snap, force: bool, storage: KeyStorage, x: InitInputs)
    requires IsKey(w, x.key) && Correct(w.aead) && Init(w, s, force, storage, x).result.Ok?
    ensures var init := Init(w, s, force, storage, x);
            var t := Final(s, init.writes);
            && Safe(w, t, x.key)
            && init.result.value == FormatGatewayToken(x.id, x.secret)
            && t.ledger == map[x.id := Secret(GatewayTokenKind, x.secret)]
            && t.store.config == Some(Config(8081, Some(storage), Some(x.id), []))
  {
    hide Prepare, HoldsKey, MintGatewayToken;
    PreparedStore(w, s, force, storage, x);
    var prepared := Final(s, Prepare(s, force, storage, x).writes);
    var configured := SaveConfig(prepared, Config(8081, Some(storage), None, []));
    assert Safe(w, configured, x.key);
    MintKeepsSafe(w, configured, x.minting, x.nonce, x.id, x.secret, x.key);
  }

  /** A first `init` that fails can be tried again without `--force` exactly
      when it failed to store the key; then nothing of it is left. If it fails
      later, while minting, the store is safe but has no token. */
  lemma FailedInitCanBeRetriedIff(w: World, s: Snap, storage: KeyStorage, x: InitInputs)
    requires IsKey(w, x.key) && Correct(w.aead)
    requires s.store.config.None? && !MasterKeyExists(s.store, x.check)
    requires Init(w, s, false, storage, x).result.Threw?
    ensures var t := Final(s, Init(w, s, false, storage, x).writes);
            if storage == Keychain && (!x.storing.available || !x.storing.setWorks)
            then t.store == s.store.(secrets := None) && !MasterKeyExists(t.store, x.check)
            else Safe(w, t, x.key) && t.store.config == Some(Config(8081, Some(storage), None, []))
  {
    hide HoldsKey, MintGatewayToken, RowsMatchLedger, IsKey;
    var prepared := Prepare(s, false, storage, x);
    if prepared.result.Ok? {
      PreparedStore(w, s, false, storage, x);
      var configured := SaveConfig(Final(s, prepared.writes), Config(8081, Some(storage), None, []));
      NothingStoredIsSafe(w, configured, x.key);
      MintKeepsSafe(w, configured, x.minting, x.nonce, x.id, x.secret, x.key);
    }
  }

  lemma NothingStoredIsSafe(w: World, s: Snap, key: string)
    requires IsKey(w, key) && Correct(w.aead) && HoldsKey(s.store, key)
    requires s.store.secrets == Some(map[]) && s.ledger == map[]
    requires s.store.config.Some? && s.store.config.value.gatewayTokenSecretId.None? && s.store.config.value.servers == []
    ensures Safe(w, s, key)
  {
  }

  /** After clearing, no key file is left, and no key can be read at all unless
      the keychain entry could not be deleted. */
  lemma ClearedKeyIsGone(s: Snap, available: bool, deleteWorks: bool, env: Env)
    ensures var t := Final(s, ClearMasterKey(s, available, deleteWorks));
            && t.store.keyFile.None?
            && (available && deleteWorks ==> t.store.keychain.None? && ReadMasterKey(t, env).result.Threw?)
            && (!available || !deleteWorks ==> t.store.keychain == s.store.keychain)
            && t.store.config == s.store.config && t.store.secrets == s.store.secrets && t.ledger == s.ledger
  {
  }

  /** After a completed `init`, over every run of commands, keychain outages
      and crashes, a master key read that succeeds yields the key `init` drew. */
  lemma KeyIsStable(w: World, s: Snap, force: bool, storage: KeyStorage, x: InitInputs, events: seq<Event>, env: Env)
    requires IsKey(w, x.key) && Correct(w.aead) && Init(w, s, force, storage, x).result.Ok?
    ensures var t := RunTo(w, Final(s, Init(w, s, force, storage, x).writes), events);
            ReadMasterKey(t, env).result.Ok? ==> ReadMasterKey(t, env).result.value == x.key
  {
    hide Init, RunTo, ReadMasterKey;
    var t0 := Final(s, Init(w, s, force, storage, x).writes);
    InitEstablishesSafe(w, s, force, storage, x);
    RunsKeepSafe(w, t0, events, x.key);
    ReadYieldsTheKey(RunTo(w, t0, events), env, x.key);
  }

  /** In a safe store, looking up a secret that was put yields what was last
      put under its id whenever the master key can be read, and an id that was
      never put yields nothing. */
  lemma GetYieldsLastPut(w: World, s: Snap, env: Env, id: string, key: string)
    requires Safe(w, s, key)
    ensures GetSecret(w, s, env, id).result ==
            if id in s.ledger && ReadMasterKey(s, env).result.Ok? then Ok(s.ledger[id]) else Threw
  {
    hide HoldsKey, ReadMasterKey;
    ReadYieldsTheKey(s, env, key);
  }

  /** After `init`, over every run of commands, outages and crashes, each secret
      the config names can be looked up and is what was last put under its id. */
  lemma NamedSecretsSurvive(w: World, s: Snap, force: bool, storage: KeyStorage, x: InitInputs, events: seq<Event>,
                            env: Env, id: string)
    requires IsKey(w, x.key) && Correct(w.aead) && Init(w, s, force, storage, x).result.Ok?
    ensures var t := RunTo(w, Final(s, Init(w, s, force, storage, x).writes), events);
            t.store.config.Some? && (Names(t.store.config.value, id) && ReadMasterKey(t, env).result.Ok? ==>
              id in t.ledger && GetSecret(w, t, env, id).result == Ok(t.ledger[id]))
  {
    hide Init, RunTo, ReadMasterKey, GetSecret, HoldsKey;
    var t0 := Final(s, Init(w, s, force, storage, x).writes);
    InitEstablishesSafe(w, s, force, storage, x);
    RunsKeepSafe(w, t0, events, x.key);
    GetYieldsLastPut(w, RunTo(w, t0, events), env, id, x.key);
  }

  /** Deleting a secret keeps the store safe exactly when the config does not name it. */
  lemma DeleteKeepsSafeIff(w: World, s: Snap, id: string, key: string)
    requires Safe(w, s, key)
    ensures Safe(w, Final(s, DeleteSecret(s, id).writes), key)
            <==> id !in Rows(s.store) || !Names(s.store.config.value, id)
  {
    var t := Final(s, DeleteSecret(s, id).writes);
    if id in Rows(s.store) {
      assert Rows(t.store) == Rows(s.store) - {id};
    }
  }

  /** A row copied under another id, or read under another key, never opens. */
  lemma MovedRowNeverOpens(w: World, key: string, nonce: Bytes, id: string, secret: Secret, key': string, id': string)
    requires Correct(w.aead) && Binding(w.aead)
    requires id' != id || w.base64(key') != w.base64(key)
    ensures Open(w, key', id', Seal(w, key, nonce, id, secret)).None?
  {
    DecryptsIff(w.aead, w.base64(key), 1, nonce, secret.value, Aad(id), w.base64(key'), 1, Aad(id'));
    assert Aad(id)[12..] == id && Aad(id')[12..] == id';
  }

  // ---------- The gateway token ----------

  /** The store holds a gateway token whose printed form can be parsed back. */
  ghost predicate HasToken(s: Snap, id: string) {
    && s.store.config.Some? && s.store.config.value.gatewayTokenSecretId == Some(id)
    && IsUuid(id) && id in s.ledger && s.ledger[id].kind == GatewayTokenKind
    && s.ledger[id].value != "" && NoSpace(s.ledger[id].value)
  }

  function Token(s: Snap, id: string): string
    requires id in s.ledger
  {
    FormatGatewayToken(id, s.ledger[id].value)
  }

  lemma LoadYieldsToken(w: World, s: Snap, env: Env, id: string, key: string)
    requires Safe(w, s, key) && HasToken(s, id)
    ensures LoadGatewayToken(w, s, env).result ==
            if ReadMasterKey(s, env).result.Ok? then Ok(Token(s, id)) else Threw
  {
    hide ReadMasterKey, GetSecret, IsUuid, HoldsKey, RowsMatchLedger, NamedArePresent;
    GetYieldsLastPut(w, s, env, id, key);
  }

  /** A header is accepted exactly when it is a Bearer header carrying the token
      minted last, and the master key can be read. */
  lemma VerifyIff(w: World, s: Snap, env: Env, authorization: Option<string>, id: string, key: string)
    requires Safe(w, s, key) && HasToken(s, id)
    ensures VerifyGatewayAuthorization(w, s, env, authorization).result
            == Ok(ExtractBearer(authorization) == Some(Token(s, id)) && ReadMasterKey(s, env).result.Ok?)
  {
    hide ReadMasterKey, LoadGatewayToken, IsUuid, Safe, ParseGatewayToken, FormatGatewayToken;
    LoadYieldsToken(w, s, env, id, key);
    var secret := s.ledger[id].value;
    ParseOfFormat(id, secret);
    var bearer := ExtractBearer(authorization);
    if bearer.Some? {
      CarriesToken(bearer.value, id, secret);
    }
  }

  lemma TokensDiffer(id: string, secret: string, id': string, secret': string)
    requires IsUuid(id) && IsUuid(id') && id != id'
    ensures FormatGatewayToken(id, secret) != FormatGatewayToken(id', secret')
  {
    hide IsUuid;
    UuidHasNoDot(id);
    UuidHasNoDot(id');
    var a, b := id + ['.'] + secret, id' + ['.'] + secret';
    IndexOfFirst(id, '.', secret);
    IndexOfFirst(id', '.', secret');
    assert FormatGatewayToken(id, secret)[4..] == a && FormatGatewayToken(id', secret')[4..] == b;
    assert a[..|id|] == id && b[..|id'|] == id';
  }

  /** Minting makes the new token the only one accepted: as soon as it returns,
      whatever token was issued under another id before is refused. */
  lemma MintingRevokes(w: World, s: Snap, minting: Env, nonce: Bytes, id: string, secret: string,
                       env: Env, authorization: Option<string>, oldId: string, oldSecret: string, key: string)
    requires Safe(w, s, key) && IsUuid(id) && secret != "" && NoSpace(secret)
    requires MintGatewayToken(w, s, minting, nonce, id, secret).result.Ok?
    requires IsUuid(oldId) && oldId != id
    requires ExtractBearer(authorization) == Some(FormatGatewayToken(oldId, oldSecret))
    ensures var t := Final(s, MintGatewayToken(w, s, minting, nonce, id, secret).writes);
            && VerifyGatewayAuthorization(w, t, env, authorization).result == Ok(false)
            && HasToken(t, id) && Token(t, id) == FormatGatewayToken(id, secret)
  {
    hide IsUuid, FormatGatewayToken, ExtractBearer, MintGatewayToken, VerifyGatewayAuthorization, ReadMasterKey,
         RowsMatchLedger, HoldsKey, NamedArePresent;
    var t := Final(s, MintGatewayToken(w, s, minting, nonce, id, secret).writes);
    MintKeepsSafe(w, s, minting, nonce, id, secret, key);
    VerifyIff(w, t, env, authorization, id, key);
    TokensDiffer(id, secret, oldId, oldSecret);
  }

  /** A crash while minting never leaves the gateway without a token: until
      the last write the old token is in force, from then on the new one. */
  lemma CrashedMintKeepsAToken(w: World, s: Snap, env: Env, nonce: Bytes, id: string, secret: string,
                               current: string, reached: nat, key: string)
    requires Safe(w, s, key) && HasToken(s, current) && IsUuid(id) && id != current && secret != "" && NoSpace(secret)
    ensures var mint := MintGatewayToken(w, s, env, nonce, id, secret);
            var t := StateAfter(w, s, Event(Mint(env, nonce, id, secret), reached));
            if mint.result.Ok? && reached >= |mint.writes|
            then HasToken(t, id) && Token(t, id) == FormatGatewayToken(id, secret)
            else HasToken(t, current) && Token(t, current) == Token(s, current)
  {
    hide IsUuid, FormatGatewayToken, RowsMatchLedger, HoldsKey, PutSecret;
    PutWrites(w, s, env, nonce, id, Secret(GatewayTokenKind, secret));
  }

  /** `ensureGatewayToken` returns the token there is, unchanged, exactly when
      the lookup can read the master key. */
  lemma EnsureKeepsTokenIff(w: World, s: Snap, first: Env, second: Env, nonce: Bytes, id: string, secret: string,
                            current: string, key: string)
    requires Safe(w, s, key) && HasToken(s, current) && IsUuid(id) && id != current
    ensures EnsureGatewayToken(w, s, first, second, nonce, id, secret).result == Ok(Ensured(Token(s, current), false))
            <==> ReadMasterKey(s, first).result.Ok?
  {
    hide ReadMasterKey, GetSecret, MintGatewayToken, IsUuid, RowsMatchLedger, HoldsKey, NamedArePresent, FormatGatewayToken;
    GetYieldsLastPut(w, s, first, current, key);
  }

  /** Otherwise, if the keychain is back by the time of minting, a working token
      is silently replaced: an outage that lasts one lookup rotates the token. */
  lemma BriefOutageRotatesToken(w: World, s: Snap, first: Env, second: Env, nonce: Bytes, id: string, secret: string,
                                current: string, key: string)
    requires Safe(w, s, key) && HasToken(s, current)
    requires ReadMasterKey(s, first).result.Threw?
    requires ReadMasterKey(Final(s, ReadMasterKey(s, first).writes), second).result.Ok?
    ensures var ensured := EnsureGatewayToken(w, s, first, second, nonce, id, secret);
            && ensured.result == Ok(Ensured(FormatGatewayToken(id, secret), true))
            && Final(s, ensured.writes).store.config.value.gatewayTokenSecretId == Some(id)
  {
    hide ReadMasterKey, MintGatewayToken, IsUuid, RowsMatchLedger, HoldsKey, FormatGatewayToken;
    GetYieldsLastPut(w, s, first, current, key);
    assert current in Rows(s.store);
    MigrationMakesTwoWrites(s, first);
    var t := Final(s, ReadMasterKey(s, first).writes);
    ReadKeepsSafe(w, s, first, key);
    MintKeepsSafe(w, t, second, nonce, id, secret, key);
  }

  /** Such an outage is possible: with the key in the keychain only, one failed
      lookup is enough. */
  lemma BriefOutageExists(s: Snap, key: string)
    requires key != "" && HoldsKey(s.store, key) && ResolveKeyStorage(s.store) == Keychain && s.store.keyFile.None?
    ensures var down, up := Env(false, Works, true), Env(true, Works, true);
            && ReadMasterKey(s, down) == Outcome([], Threw)
            && ReadMasterKey(s, up).result == Ok(key)
  {
  }

  /** Ensuring twice: whatever token the first call returned, the second returns
      it again with `created = false`, given that it can read the master key. */
  lemma EnsureTwice(w: World, s: Snap, first: Env, second: Env, nonce: Bytes, id: string, secret: string,
                    first': Env, second': Env, nonce': Bytes, id': string, secret': string, key: string)
    requires Safe(w, s, key)
    requires EnsureGatewayToken(w, s, first, second, nonce, id, secret).result.Ok?
    requires var t := Final(s, EnsureGatewayToken(w, s, first, second, nonce, id, secret).writes);
             ReadMasterKey(t, first').result.Ok?
    ensures var once := EnsureGatewayToken(w, s, first, second, nonce, id, secret);
            EnsureGatewayToken(w, Final(s, once.writes), first', second', nonce', id', secret').result
            == Ok(Ensured(once.result.value.token, false))
  {
    hide ReadMasterKey, MintGatewayToken, GetSecret, FormatGatewayToken, RowsMatchLedger, HoldsKey, Rows;
    var once := EnsureGatewayToken(w, s, first, second, nonce, id, secret);
    var t := Final(s, once.writes);
    EnsureKeepsSafe(w, s, first, second, nonce, id, secret, key);
    var current := s.store.config.value.gatewayTokenSecretId;
    var stored := if current.Some? then GetSecret(w, s, first, current.value) else Outcome([], Threw);
    if current.Some? {
      GetKeepsSafe(w, s, first, current.value, key);
      GetYieldsLastPut(w, s, first, current.value, key);
    }
    var mid := Final(s, stored.writes);
    if once.result.value.created {
      MintKeepsSafe(w, mid, second, nonce, id, secret, key);
      GetYieldsLastPut(w, t, first', id, key);
    } else {
      GetYieldsLastPut(w, t, first', current.value, key);
    }
  }
}
