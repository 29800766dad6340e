/** The gateway token over whole runs: which token is accepted in any store
    that commands, keychain outages and crashes can lead to. */
module TokenRuns {
  import opened Text
  import opened Wrappers
  import opened SecretBox
  import opened GatewayToken
  import opened CredentialStore

  function CurrentId(s: Snap): Option<string> {
    if s.store.config.Some? then s.store.config.value.gatewayTokenSecretId else None
  }

  /** The id under which a command may put a new token. */
  function MintedId(c: Command): Option<string> {
    match c
    case Mint(_, _, id, _) => Some(id)
    case Ensure(_, _, _, id, _) => Some(id)
    case _ => None
  }

  // ---------- What single writes do ----------

  lemma GetWrites(w: World, s: Snap, env: Env, id: string)
    ensures var get := GetSecret(w, s, env, id);
            && (forall i :: 0 <= i < |get.writes| ==>
                  && get.writes[i].store.config == s.store.config
                  && get.writes[i].store.secrets == s.store.secrets && get.writes[i].ledger == s.ledger)
            && Final(s, get.writes).store.config == s.store.config
            && Final(s, get.writes).store.secrets == s.store.secrets && Final(s, get.writes).ledger == s.ledger
  {
    hide ReadMasterKey;
    ReadWritesOnlyTheKey(s, env);
  }

  lemma VerifyWrites(w: World, s: Snap, env: Env, authorization: Option<string>)
    ensures var writes := VerifyGatewayAuthorization(w, s, env, authorization).writes;
            forall i :: 0 <= i < |writes| ==> writes[i].store.config == s.store.config && writes[i].ledger == s.ledger
  {
    hide GetSecret, ExtractBearer, ParseGatewayToken, FormatGatewayToken;
    if CurrentId(s).Some? { GetWrites(w, s, env, CurrentId(s).value); }
  }

  /** A mint's last write, if it comes to that, names the new id; all others keep the config. */
  lemma MintWrites(w: World, s: Snap, env: Env, nonce: Bytes, id: string, secret: string)
    ensures var mint := MintGatewayToken(w, s, env, nonce, id, secret);
            var minted := s.ledger[id := Secret(GatewayTokenKind, secret)];
            forall i :: 0 <= i < |mint.writes| ==>
              || (mint.writes[i].store.config == s.store.config && mint.writes[i].ledger in {s.ledger, minted})
              || (&& s.store.config.Some? && mint.writes[i].ledger == minted
                  && mint.writes[i].store.config == Some(s.store.config.value.(gatewayTokenSecretId := Some(id))))
  {
    hide PutSecret, FormatGatewayToken;
    PutWrites(w, s, env, nonce, id, Secret(GatewayTokenKind, secret));
  }

  lemma EnsureWrites(w: World, s: Snap, first: Env, second: Env, nonce: Bytes, id: string, secret: string)
    ensures var ensured := EnsureGatewayToken(w, s, first, second, nonce, id, secret);
            var minted := s.ledger[id := Secret(GatewayTokenKind, secret)];
            forall i :: 0 <= i < |ensured.writes| ==>
              || (ensured.writes[i].store.config == s.store.config && ensured.writes[i].ledger in {s.ledger, minted})
              || (&& s.store.config.Some? && ensured.writes[i].ledger == minted
                  && ensured.writes[i].store.config == Some(s.store.config.value.(gatewayTokenSecretId := Some(id))))
  {
    hide GetSecret, MintGatewayToken, FormatGatewayToken;
    if CurrentId(s).Some? { GetWrites(w, s, first, CurrentId(s).value); }
    var stored := if CurrentId(s).Some? then GetSecret(w, s, first, CurrentId(s).value) else Outcome([], Threw);
    MintWrites(w, Final(s, stored.writes), second, nonce, id, secret);
  }

  // ---------- Revoked for good ----------

  /** The token current now, if any, is a proper one under another id. */
  predicate Superseded(s: Snap, oldId: string) {
    CurrentId(s).Some? ==> IsUuid(CurrentId(s).value) && CurrentId(s).value != oldId
  }

  /** No command of the run mints under the old id again. */
  predicate MintsOthers(events: seq<Event>, oldId: string) {
    forall i :: 0 <= i < |events| && MintedId(events[i].command).Some? ==>
      IsUuid(MintedId(events[i].command).value) && MintedId(events[i].command).value != oldId
  }

  lemma WriteSetsMintedIdOnly(w: World, s: Snap, c: Command, i: nat)
    requires i < |Writes(w, s, c)|
    ensures CurrentId(Writes(w, s, c)[i]) == CurrentId(s)
            || (MintedId(c).Some? && CurrentId(Writes(w, s, c)[i]) == MintedId(c))
  {
    hide ReadMasterKey, GetSecret, PutSecret, MintGatewayToken, EnsureGatewayToken, VerifyGatewayAuthorization;
    match c
    case ReadKey(env) => ReadWritesOnlyTheKey(s, env);
    case Get(env, id) => GetWrites(w, s, env, id);
    case Mint(env, nonce, id, secret) => MintWrites(w, s, env, nonce, id, secret);
    case Ensure(first, second, nonce, id, secret) => EnsureWrites(w, s, first, second, nonce, id, secret);
    case Verify(env, authorization) => VerifyWrites(w, s, env, authorization);
    case Add(env, nonce, server, secret) => PutWrites(w, s, env, nonce, server.secretId, secret);
    case Replace(env, nonce, j, baseUrl, authMethod, connectorKey, secret) =>
      if s.store.config.Some? && j < |s.store.config.value.servers| {
        PutWrites(w, s, env, nonce, s.store.config.value.servers[j].secretId, secret);
      }
    case Renew(env, nonce, j, secret) =>
      if s.store.config.Some? && j < |s.store.config.value.servers| {
        PutWrites(w, s, env, nonce, s.store.config.value.servers[j].secretId, secret);
      }
    case Toggle(j, disabledTools) =>
  }

  lemma {:induction false} SupersededStays(w: World, s: Snap, events: seq<Event>, oldId: string)
    requires Superseded(s, oldId) && MintsOthers(events, oldId)
    ensures Superseded(RunTo(w, s, events), oldId)
  {
    hide IsUuid, Writes, MintedId, CurrentId;
    if events != [] {
      var n := |events| - 1;
      var before, e := RunTo(w, s, events[..n]), events[n];
      SupersededStays(w, s, events[..n], oldId);
      var writes := Writes(w, before, e.command);
      var reached := if e.reached < |writes| then writes[..e.reached] else writes;
      if reached != [] { WriteSetsMintedIdOnly(w, before, e.command, |reached| - 1); }
    }
  }

  lemma TrimIsPrefix(s: string)
    requires s != "" && !IsSpace(s[0])
    ensures Trim(s) <= s
  {
    assert TrimStart(s) == s;
    var post := TrimEndParts(s);
  }

  lemma SameIdAtFront(id: string, secret: string, id': string, secret': string)
    requires IsUuid(id) && IsUuid(id') && FormatGatewayToken(id', secret') <= FormatGatewayToken(id, secret)
    ensures id == id'
  {
    var a, b := FormatGatewayToken(id, secret), FormatGatewayToken(id', secret');
    assert a[4..40] == id && b[4..40] == id';
    assert a[..|b|] == b;
    assert a[..|b|][4..40] == a[4..40];
  }

  /** Whatever a printed token parses to, it is under the id it was printed with. */
  lemma ParsedUnderItsId(id: string, secret: string)
    requires IsUuid(id)
    ensures var p := ParseGatewayToken(FormatGatewayToken(id, secret));
            p.Some? ==> p.value.secretId == id
  {
    var token := FormatGatewayToken(id, secret);
    assert token[0] == 'j';
    var p := ParseGatewayToken(token);
    if p.Some? {
      hide IsUuid, ParseGatewayToken, FormatGatewayToken, Trim;
      FormatOfParse(token);
      TrimIsPrefix(token);
      SameIdAtFront(id, secret, p.value.secretId, p.value.secret);
    }
  }

  lemma SupersededIsRefused(w: World, s: Snap, env: Env, authorization: Option<string>, oldId: string, oldSecret: string)
    requires Superseded(s, oldId) && IsUuid(oldId)
    requires ExtractBearer(authorization) == Some(FormatGatewayToken(oldId, oldSecret))
    ensures VerifyGatewayAuthorization(w, s, env, authorization).result == Ok(false)
  {
    hide IsUuid, ExtractBearer, ParseGatewayToken, FormatGatewayToken, GetSecret;
    ParsedUnderItsId(oldId, oldSecret);
    var expected := LoadGatewayToken(w, s, env);
    if expected.result.Ok? {
      var id := CurrentId(s).value;
      ParsedUnderItsId(id, GetSecret(w, s, env, id).result.value.value);
    }
  }

  /** Minting revokes for good: whatever commands, outages and crashes follow, as
      long as none mints under the old id again, the old token is refused. */
  lemma MintRevokesForGood(w: World, s: Snap, minting: Env, nonce: Bytes, id: string, secret: string,
                           events: seq<Event>, env: Env, authorization: Option<string>, oldId: string, oldSecret: string)
    requires MintGatewayToken(w, s, minting, nonce, id, secret).result.Ok?
    requires IsUuid(id) && IsUuid(oldId) && oldId != id && MintsOthers(events, oldId)
    requires ExtractBearer(authorization) == Some(FormatGatewayToken(oldId, oldSecret))
    ensures var t := RunTo(w, Final(s, MintGatewayToken(w, s, minting, nonce, id, secret).writes), events);
            VerifyGatewayAuthorization(w, t, env, authorization).result == Ok(false)
  {
    hide IsUuid, ExtractBearer, VerifyGatewayAuthorization, PutSecret, FormatGatewayToken, RunTo, MintsOthers;
    var t := Final(s, MintGatewayToken(w, s, minting, nonce, id, secret).writes);
    assert CurrentId(t) == Some(id);
    SupersededStays(w, t, events, oldId);
    SupersededIsRefused(w, RunTo(w, t, events), env, authorization, oldId, oldSecret);
  }

  /** A store whose config names no token accepts no header at all. */
  lemma NoTokenNoAccess(w: World, s: Snap, env: Env, authorization: Option<string>)
    requires CurrentId(s).None?
    ensures VerifyGatewayAuthorization(w, s, env, authorization) == Outcome([], Ok(false))
  {
    hide ExtractBearer, ParseGatewayToken;
  }

  // ---------- Accepted throughout ----------

  /** The current token is there, and no server keeps its secret under its id. */
  ghost predicate TokenHeld(s: Snap) {
    && CurrentId(s).Some? && HasToken(s, CurrentId(s).value)
    && forall i :: 0 <= i < |s.store.config.value.servers| ==> s.store.config.value.servers[i].secretId != CurrentId(s).value
  }

  predicate GoodToken(id: string, secret: string) {
    IsUuid(id) && secret != "" && NoSpace(secret)
  }

  /** The ids a command draws at random are not in the secrets file yet, and the
      tokens it draws are of the form that is drawn. */
  predicate Fresh(s: Snap, c: Command) {
    match c
    case Mint(_, _, id, secret) => GoodToken(id, secret) && id !in s.ledger
    case Ensure(_, _, _, id, secret) => GoodToken(id, secret) && id !in s.ledger
    case Add(_, _, server, _) => server.secretId !in s.ledger
    case _ => true
  }

  predicate FreshRun(w: World, s: Snap, events: seq<Event>) {
    forall i :: 0 <= i < |events| ==> Fresh(RunTo(w, s, events[..i]), events[i].command)
  }

  lemma MintKeepsToken(w: World, s: Snap, t: Snap, id: string, secret: string, key: string)
    requires Safe(w, s, key) && TokenHeld(s) && GoodToken(id, secret) && id !in s.ledger
    requires var minted := s.ledger[id := Secret(GatewayTokenKind, secret)];
             || (t.store.config == s.store.config && t.ledger in {s.ledger, minted})
             || (t.store.config == Some(s.store.config.value.(gatewayTokenSecretId := Some(id))) && t.ledger == minted)
    ensures TokenHeld(t)
  {
  }

  lemma AddKeepsToken(w: World, s: Snap, env: Env, nonce: Bytes, server: Server, secret: Secret, i: nat)
    requires TokenHeld(s) && server.secretId !in s.ledger && i < |AddServer(w, s, env, nonce, server, secret).writes|
    ensures TokenHeld(AddServer(w, s, env, nonce, server, secret).writes[i])
  {
    hide PutSecret, IsUuid, NoSpace;
    PutWrites(w, s, env, nonce, server.secretId, secret);
  }

  lemma ReplaceKeepsToken(w: World, s: Snap, env: Env, nonce: Bytes, j: nat, baseUrl: string, authMethod: string,
                          connectorKey: Option<string>, secret: Secret, i: nat)
    requires TokenHeld(s) && i < |ReplaceServer(w, s, env, nonce, j, baseUrl, authMethod, connectorKey, secret).writes|
    ensures TokenHeld(ReplaceServer(w, s, env, nonce, j, baseUrl, authMethod, connectorKey, secret).writes[i])
  {
    hide PutSecret, IsUuid, NoSpace;
    PutWrites(w, s, env, nonce, s.store.config.value.servers[j].secretId, secret);
  }

  lemma RenewKeepsToken(w: World, s: Snap, env: Env, nonce: Bytes, j: nat, secret: Secret, i: nat)
    requires TokenHeld(s) && i < |Reconnect(w, s, env, nonce, j, secret).writes|
    ensures TokenHeld(Reconnect(w, s, env, nonce, j, secret).writes[i])
  {
  }

  lemma ToggleKeepsToken(s: Snap, j: nat, disabledTools: Option<seq<string>>, i: nat)
    requires TokenHeld(s) && i < |ToggleTools(s, j, disabledTools).writes|
    ensures TokenHeld(ToggleTools(s, j, disabledTools).writes[i])
  {
  }

  lemma CommandKeepsToken(w: World, s: Snap, c: Command, i: nat, key: string)
    requires Safe(w, s, key) && TokenHeld(s) && Fresh(s, c) && i < |Writes(w, s, c)|
    ensures TokenHeld(Writes(w, s, c)[i])
  {
    hide Safe, TokenHeld, GoodToken, ReadMasterKey, GetSecret, MintGatewayToken, EnsureGatewayToken,
         VerifyGatewayAuthorization, AddServer, ReplaceServer, Reconnect, ToggleTools;
    var t := Writes(w, s, c)[i];
    match c
    case ReadKey(env) => ReadWritesOnlyTheKey(s, env); SameTokenHeld(s, t);
    case Get(env, id) => GetWrites(w, s, env, id); SameTokenHeld(s, t);
    case Verify(env, authorization) => VerifyWrites(w, s, env, authorization); SameTokenHeld(s, t);
    case Mint(env, nonce, id, secret) =>
      MintWrites(w, s, env, nonce, id, secret);
      MintKeepsToken(w, s, t, id, secret, key);
    case Ensure(first, second, nonce, id, secret) =>
      EnsureWrites(w, s, first, second, nonce, id, secret);
      MintKeepsToken(w, s, t, id, secret, key);
    case Add(env, nonce, server, secret) => AddKeepsToken(w, s, env, nonce, server, secret, i);
    case Replace(env, nonce, j, baseUrl, authMethod, connectorKey, secret) =>
      ReplaceKeepsToken(w, s, env, nonce, j, baseUrl, authMethod, connectorKey, secret, i);
    case Renew(env, nonce, j, secret) => RenewKeepsToken(w, s, env, nonce, j, secret, i);
    case Toggle(j, disabledTools) => ToggleKeepsToken(s, j, disabledTools, i);
  }

  lemma SameTokenHeld(s: Snap, t: Snap)
    requires TokenHeld(s) && t.store.config == s.store.config && t.ledger == s.ledger
    ensures TokenHeld(t)
  {
  }

  /** A held token, perhaps a newer one, is held after every run. */
  lemma {:induction false} RunsKeepToken(w: World, s: Snap, events: seq<Event>, key: string)
    requires Safe(w, s, key) && TokenHeld(s) && FreshRun(w, s, events)
    ensures TokenHeld(RunTo(w, s, events))
  {
    hide Safe, TokenHeld, Fresh, Writes;
    if events != [] {
      var n := |events| - 1;
      assert forall i :: 0 <= i < n ==> events[..n][..i] == events[..i] && events[..n][i] == events[i];
      var before, e := RunTo(w, s, events[..n]), events[n];
      RunsKeepSafe(w, s, events[..n], key);
      RunsKeepToken(w, s, events[..n], key);
      var writes := Writes(w, before, e.command);
      var reached := if e.reached < |writes| then writes[..e.reached] else writes;
      if reached != [] { CommandKeepsToken(w, before, e.command, |reached| - 1, key); }
    }
  }

  /** After a completed `init`, over every run of commands, outages and crashes
      in which random ids are fresh, there is a current token, and a header is
      accepted exactly when it is a Bearer header carrying it and the master key
      can be read. */
  lemma VerifyAfterInit(w: World, s: Snap, force: bool, storage: KeyStorage, x: InitInputs, events: seq<Event>,
                        env: Env, authorization: Option<string>)
    requires IsKey(w, x.key) && Correct(w.aead) && Init(w, s, force, storage, x).result.Ok? && GoodToken(x.id, x.secret)
    requires FreshRun(w, Final(s, Init(w, s, force, storage, x).writes), events)
    ensures var t := RunTo(w, Final(s, Init(w, s, force, storage, x).writes), events);
            && TokenHeld(t)
            && VerifyGatewayAuthorization(w, t, env, authorization).result
               == Ok(ExtractBearer(authorization) == Some(Token(t, CurrentId(t).value)) && ReadMasterKey(t, env).result.Ok?)
  {
    hide Init, RunTo, FreshRun, IsUuid, Safe, VerifyGatewayAuthorization, ReadMasterKey, ExtractBearer, FormatGatewayToken;
    var t0 := Final(s, Init(w, s, force, storage, x).writes);
    InitEstablishesSafe(w, s, force, storage, x);
    assert TokenHeld(t0);
    RunsKeepToken(w, t0, events, x.key);
    RunsKeepSafe(w, t0, events, x.key);
    var t := RunTo(w, t0, events);
    VerifyIff(w, t, env, authorization, CurrentId(t).value, x.key);
  }
}
