/** The local gateway token `jkl_<secretId>.<secret>` and the header that carries it. */
module GatewayToken {
  import opened Text
  import opened Wrappers

  const GATEWAY_TOKEN_PREFIX := "jkl_"

  datatype ParsedToken = ParsedToken(secretId: string, secret: string)

  predicate IsHex(c: char) {
    '0' <= c <= '9' || 'a' <= c <= 'f' || 'A' <= c <= 'F'
  }

  predicate IsDashPlace(i: int) {
    i == 8 || i == 13 || i == 18 || i == 23
  }

  /** The text form of a UUID (section 4 of RFC 9562): versions 1 to 8 of the
      standard variant, or the nil or max UUID. */
  predicate IsUuid(s: string) {
    && |s| == 36
    && (forall i :: 0 <= i < 36 ==> if IsDashPlace(i) then s[i] == '-' else IsHex(s[i]))
    && (|| ('1' <= s[14] <= '8' && s[19] in "89abAB")
        || (forall i :: 0 <= i < 36 && !IsDashPlace(i) ==> s[i] == '0')
        || (forall i :: 0 <= i < 36 && !IsDashPlace(i) ==> s[i] == 'f'))
  }

  function FormatGatewayToken(secretId: string, secret: string): string {
    GATEWAY_TOKEN_PREFIX + (secretId + ['.'] + secret)
  }

  function ParseGatewayToken(token: string): Option<ParsedToken> {
    var trimmed := Trim(token);
    if !(GATEWAY_TOKEN_PREFIX <= trimmed) then None
    else
      var rest := trimmed[|GATEWAY_TOKEN_PREFIX|..];
      var dot := IndexOf(rest, '.');
      if dot == 0 || dot + 1 >= |rest| then None
      else
        var secretId, secret := rest[..dot], rest[dot + 1..];
        if IsUuid(secretId) then Some(ParsedToken(secretId, secret)) else None
  }

  lemma UuidHasNoDot(s: string)
    requires IsUuid(s)
    ensures '.' !in s && s != ""
  {
    forall i | 0 <= i < |s| ensures s[i] != '.' { assert IsDashPlace(i) || IsHex(s[i]); }
  }

  /** Parsing a token that is not padded. */
  lemma ParsePlain(secretId: string, secret: string)
    requires '.' !in secretId && secretId != "" && secret != "" && IsUuid(secretId)
    requires Trim(FormatGatewayToken(secretId, secret)) == FormatGatewayToken(secretId, secret)
    ensures ParseGatewayToken(FormatGatewayToken(secretId, secret)) == Some(ParsedToken(secretId, secret))
  {
    hide IsUuid, Trim;
    var token := FormatGatewayToken(secretId, secret);
    var rest := secretId + ['.'] + secret;
    assert token[|GATEWAY_TOKEN_PREFIX|..] == rest;
    IndexOfFirst(secretId, '.', secret);
    assert rest[..|secretId|] == secretId && rest[|secretId| + 1..] == secret;
  }

  lemma FormatIsTight(secretId: string, secret: string)
    requires secret != "" && !IsSpace(secret[|secret| - 1])
    ensures Tight(FormatGatewayToken(secretId, secret))
  {
    var token := FormatGatewayToken(secretId, secret);
    assert token[0] == 'j' && token[|token| - 1] == secret[|secret| - 1];
  }

  lemma PaddedSecretIsTrimmed(secretId: string, secret: string)
    requires secret == "" || IsSpace(secret[|secret| - 1])
    ensures Trim(FormatGatewayToken(secretId, secret)) == FormatGatewayToken(secretId, secret) ==> secret == ""
  {
    var token := FormatGatewayToken(secretId, secret);
    var pre, post := TrimParts(token);
    assert secret != "" ==> token[|token| - 1] == secret[|secret| - 1];
  }

  /** A printed token parses back to its parts exactly when the secret is not
      empty and does not end in whitespace; dots in the secret do not matter. */
  lemma ParseOfFormat(secretId: string, secret: string)
    requires IsUuid(secretId)
    ensures ParseGatewayToken(FormatGatewayToken(secretId, secret)) == Some(ParsedToken(secretId, secret))
            <==> secret != "" && !IsSpace(secret[|secret| - 1])
  {
    hide IsUuid, Trim, Tight, ParseGatewayToken, FormatGatewayToken;
    UuidHasNoDot(secretId);
    var token := FormatGatewayToken(secretId, secret);
    if secret != "" && !IsSpace(secret[|secret| - 1]) {
      FormatIsTight(secretId, secret);
      TrimTight(token);
      ParsePlain(secretId, secret);
    } else if ParseGatewayToken(token) == Some(ParsedToken(secretId, secret)) {
      FormatOfParse(token);
      PaddedSecretIsTrimmed(secretId, secret);
    }
  }

  /** A token that parses is, up to surrounding whitespace, what its parts print. */
  lemma FormatOfParse(token: string)
    requires ParseGatewayToken(token).Some?
    ensures var p := ParseGatewayToken(token).value;
            && FormatGatewayToken(p.secretId, p.secret) == Trim(token)
            && IsUuid(p.secretId) && p.secret != ""
  {
    var trimmed := Trim(token);
    var rest := trimmed[|GATEWAY_TOKEN_PREFIX|..];
    var dot := IndexOf(rest, '.');
    assert trimmed == GATEWAY_TOKEN_PREFIX + rest;
    assert rest == rest[..dot] + ['.'] + rest[dot + 1..];
  }

  // ---------- The Authorization header ----------

  function LowerCase(c: char): char {
    if 'A' <= c <= 'Z' then (c as int + 32) as char else c
  }

  /** The scheme name, in any case. */
  predicate IsBearerWord(s: string) {
    && |s| == 6
    && LowerCase(s[0]) == 'b' && LowerCase(s[1]) == 'e' && LowerCase(s[2]) == 'a'
    && LowerCase(s[3]) == 'r' && LowerCase(s[4]) == 'e' && LowerCase(s[5]) == 'r'
  }

  function ExtractBearer(authorization: Option<string>): Option<string> {
    if authorization.None? then None
    else
      var t := Trim(authorization.value);
      if |t| < 6 || !IsBearerWord(t[..6]) then None
      else
        var token := TrimStart(t[6..]);
        if |token| < |t| - 6 && token != "" && NoSpace(token) then Some(token) else None
  }

  /** The scheme, whitespace, and a token (section 2.1 of RFC 6750), padded. */
  predicate IsBearerHeader(header: string, pre: string, word: string, gap: string, token: string, post: string) {
    && header == pre + (word + gap + token) + post
    && AllSpace(pre) && AllSpace(gap) && AllSpace(post)
    && IsBearerWord(word) && gap != "" && token != "" && NoSpace(token)
  }

  lemma BearerHeaderGives(header: string, pre: string, word: string, gap: string, token: string, post: string)
    requires IsBearerHeader(header, pre, word, gap, token, post)
    ensures ExtractBearer(Some(header)) == Some(token)
  {
    var t := word + gap + token;
    assert t[0] == word[0] && t[|t| - 1] == token[|token| - 1];
    assert !IsSpace(word[0]);
    TrimPadded(pre, t, post);
    assert t[..6] == word && t[6..] == gap + token;
    TrimStartPadded(gap, token);
  }

  /** The token is extracted from exactly the headers of that form. */
  lemma BearerIff(header: string, token: string)
    ensures ExtractBearer(Some(header)) == Some(token)
            <==> exists pre, word, gap, post :: IsBearerHeader(header, pre, word, gap, token, post)
  {
    if ExtractBearer(Some(header)) == Some(token) {
      var pre, post := TrimParts(header);
      var t := Trim(header);
      var gap := TrimStartParts(t[6..]);
      assert t == t[..6] + gap + token;
      assert IsBearerHeader(header, pre, t[..6], gap, token, post);
    }
    forall pre, word, gap, post | IsBearerHeader(header, pre, word, gap, token, post)
      ensures ExtractBearer(Some(header)) == Some(token)
    {
      BearerHeaderGives(header, pre, word, gap, token, post);
    }
  }

  /** A header carries the token of `secretId` and `secret` exactly when what it
      carries parses to these two. */
  lemma CarriesToken(bearer: string, secretId: string, secret: string)
    requires NoSpace(bearer) && bearer != "" && IsUuid(secretId) && secret != "" && NoSpace(secret)
    ensures ParseGatewayToken(bearer) == Some(ParsedToken(secretId, secret))
            <==> bearer == FormatGatewayToken(secretId, secret)
  {
    TrimTight(bearer);
    ParseOfFormat(secretId, secret);
    if ParseGatewayToken(bearer).Some? { FormatOfParse(bearer); }
  }

  /** The usual spelling of the header. */
  lemma BearerHeader(token: string)
    requires token != "" && NoSpace(token)
    ensures ExtractBearer(Some("Bearer " + token)) == Some(token)
    ensures ExtractBearer(Some("Basic " + token)).None?
  {
    assert "Bearer " + token == "" + ("Bearer" + " " + token) + "";
    BearerHeaderGives("Bearer " + token, "", "Bearer", " ", token, "");
    TrimTight("Basic " + token);
  }

  predicate IsHexDigit(c: char) {
    c in {'0', '1', '2', '3', '4', '5', '6', '7', '8', '9', 'a', 'b', 'c', 'd', 'e', 'f', 'A', 'B', 'C', 'D', 'E', 'F'}
  }

  /** The version and the variant are in their places (sections 4.1 and 4.2 of
      RFC 9562), or all digits are 0, or all are f. */
  predicate UuidDigits(d: string) {
    && |d| == 32
    && (forall i :: 0 <= i < 32 ==> IsHexDigit(d[i]))
    && (|| (d[12] in {'1', '2', '3', '4', '5', '6', '7', '8'} && d[16] in {'8', '9', 'a', 'b', 'A', 'B'})
        || (forall i :: 0 <= i < 32 ==> d[i] == '0')
        || (forall i :: 0 <= i < 32 ==> d[i] == 'f'))
  }

  function Undashed(s: string): string
    requires |s| == 36
  {
    s[..8] + s[9..13] + s[14..18] + s[19..23] + s[24..]
  }

  lemma HexIff()
    ensures forall c :: IsHex(c) <==> IsHexDigit(c)
  {
  }

  /** Where the digits stand. */
  function Place(i: nat): nat {
    if i < 8 then i else if i < 12 then i + 1 else if i < 16 then i + 2 else if i < 20 then i + 3 else i + 4
  }

  function DigitAt(p: nat): int {
    if p < 8 then p else if p < 13 then p - 1 else if p < 18 then p - 2 else if p < 23 then p - 3 else p - 4
  }

  lemma UndashedAt(s: string, i: nat)
    requires |s| == 36 && i < 32
    ensures |Undashed(s)| == 32 && Undashed(s)[i] == s[Place(i)]
  {
  }

  lemma DigitsInPlace(s: string)
    requires |s| == 36
    ensures var d := Undashed(s);
            && |d| == 32 && d[12] == s[14] && d[16] == s[19]
            && (forall i: nat :: i < 32 ==> d[i] == s[Place(i)])
            && (forall p: nat :: p < 36 && !IsDashPlace(p) ==> 0 <= DigitAt(p) < 32 && s[p] == d[DigitAt(p)])
  {
    UndashedAt(s, 0);
    hide Undashed;
    var d := Undashed(s);
    forall i: nat | i < 32 ensures d[i] == s[Place(i)] { UndashedAt(s, i); }
    forall p: nat | p < 36 && !IsDashPlace(p) ensures 0 <= DigitAt(p) < 32 && s[p] == d[DigitAt(p)] {
      assert Place(DigitAt(p)) == p;
    }
    assert d[12] == s[Place(12)] && d[16] == s[Place(16)];
  }

  /** A text is a UUID exactly when it is such digits with dashes. */
  lemma UuidIff(s: string)
    ensures IsUuid(s) <==>
            |s| == 36 && UuidDigits(Undashed(s)) && s[8] == '-' && s[13] == '-' && s[18] == '-' && s[23] == '-'
  {
    hide IsHex, IsHexDigit, Undashed, DigitAt;
    HexIff();
    if |s| == 36 {
      DigitsInPlace(s);
      VariantIff(s[19]);
      assert forall i: nat :: i < 32 ==> Place(i) < 36 && !IsDashPlace(Place(i));
    }
  }

  lemma VariantIff(c: char)
    ensures c in "89abAB" <==> c in {'8', '9', 'a', 'b', 'A', 'B'}
  {
    assert c in "89abAB" <==> exists i :: 0 <= i < 6 && "89abAB"[i] == c;
  }

  /** The scheme is recognised in every mixture of cases, and no other word is. */
  lemma BearerWordIff(word: string)
    ensures IsBearerWord(word) <==>
            && |word| == 6
            && word[0] in {'b', 'B'} && word[1] in {'e', 'E'} && word[2] in {'a', 'A'}
            && word[3] in {'r', 'R'} && word[4] in {'e', 'E'} && word[5] in {'r', 'R'}
  {
  }
}
