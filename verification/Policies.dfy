/** Quota policies: built-in defaults, and the environment overrides merged into them. */
module Policies {
  import opened Text
  import opened Wrappers

  datatype Bucket =
    | ApiDefault | ApiAuth | A2aDirectory | A2aCard | A2aKnock | A2aMessage | GatewayMcp

  const QUOTA_BUCKETS := [ApiDefault, ApiAuth, A2aDirectory, A2aCard, A2aKnock, A2aMessage, GatewayMcp]

  function Name(bucket: Bucket): string {
    match bucket
    case ApiDefault => "api.default"
    case ApiAuth => "api.auth"
    case A2aDirectory => "a2a.directory"
    case A2aCard => "a2a.card"
    case A2aKnock => "a2a.knock"
    case A2aMessage => "a2a.message"
    case GatewayMcp => "gateway.mcp"
  }

  datatype Policy = Policy(limit: int, windowSeconds: int)

  const DEFAULT_QUOTA_POLICIES := map[
    ApiDefault := Policy(120, 60),
    ApiAuth := Policy(30, 60),
    A2aDirectory := Policy(60, 60),
    A2aCard := Policy(60, 60),
    A2aKnock := Policy(10, 3600),
    A2aMessage := Policy(120, 60),
    GatewayMcp := Policy(300, 60)
  ]

  /** What the limiter relies on: a window of at least a second and a limit
      that is not negative, for every bucket. */
  predicate Usable(policies: map<Bucket, Policy>) {
    forall b: Bucket :: b in policies && 0 <= policies[b].limit && 1 <= policies[b].windowSeconds
  }

  // ---------- parseWindowSeconds ----------

  predicate IsDigit(c: char) {
    '0' <= c <= '9'
  }

  predicate AllDigits(s: string) {
    forall i :: 0 <= i < |s| ==> IsDigit(s[i])
  }

  function Digit(c: char): nat
    requires IsDigit(c)
  {
    c as int - '0' as int
  }

  /** The number written by a string of digits. */
  function Number(digits: string): nat
    requires AllDigits(digits)
  {
    if digits == "" then 0 else 10 * Number(digits[..|digits| - 1]) + Digit(digits[|digits| - 1])
  }

  function ToLower(c: char): char {
    if 'A' <= c <= 'Z' then (c as int + 32) as char else c
  }

  function Lower(s: string): (r: string)
    ensures |r| == |s| && forall i :: 0 <= i < |s| ==> r[i] == ToLower(s[i])
  {
    seq(|s|, i requires 0 <= i < |s| => ToLower(s[i]))
  }

  /** Seconds in a unit suffix. */
  function UnitSeconds(c: char): (r: Option<nat>)
    ensures r.Some? ==> r.value >= 1 && !IsDigit(c)
  {
    if c == 's' then Some(1)
    else if c == 'm' then Some(60)
    else if c == 'h' then Some(3600)
    else if c == 'd' then Some(86400)
    else None
  }

  function Times(n: nat, unit: nat): (seconds: nat)
    ensures n >= 1 && unit >= 1 ==> seconds >= 1
  {
    n * unit
  }

  /** The digits and the unit of a text that has been trimmed and lowered. */
  function Read(trimmed: string): (r: Option<nat>)
    requires trimmed != ""
    ensures r.Some? ==> r.value >= 1
  {
    var last := trimmed[|trimmed| - 1];
    var unit := UnitSeconds(last);
    var digits := if unit.Some? then trimmed[..|trimmed| - 1] else trimmed;
    if digits == "" || !AllDigits(digits) then None
    else
      var n := Number(digits);
      if n <= 0 then None else Some(Times(n, if unit.Some? then unit.value else 1))
  }

  /** Digits with an optional unit suffix, in any case, padded with whitespace. */
  function ParseWindowSeconds(raw: string): (r: Option<nat>)
    ensures r.Some? ==> r.value >= 1
  {
    var trimmed := Lower(Trim(raw));
    if trimmed == "" then None else Read(trimmed)
  }

  function Decimal(n: nat): (digits: string)
    ensures digits != "" && AllDigits(digits)
  {
    if n < 10 then [('0' as int + n) as char]
    else Decimal(n / 10) + [('0' as int + n % 10) as char]
  }

  lemma {:induction false} NumberOfDecimal(n: nat)
    ensures Number(Decimal(n)) == n
  {
    if n >= 10 {
      NumberOfDecimal(n / 10);
      assert Decimal(n)[..|Decimal(n)| - 1] == Decimal(n / 10);
    } else {
      assert Decimal(n)[..0] == "";
    }
  }

  /** Seconds in a suffix, as it may be written; zero for what is no suffix. */
  function SuffixSeconds(suffix: string): nat {
    if suffix == "" || suffix == "s" || suffix == "S" then 1
    else if suffix == "m" || suffix == "M" then 60
    else if suffix == "h" || suffix == "H" then 3600
    else if suffix == "d" || suffix == "D" then 86400
    else 0
  }

  /** How a window may be written: digits and a suffix, padded with whitespace. */
  predicate Writes(raw: string, pre: string, digits: string, suffix: string, post: string) {
    && raw == pre + (digits + suffix) + post
    && AllSpace(pre) && AllSpace(post)
    && digits != "" && AllDigits(digits) && SuffixSeconds(suffix) > 0
  }

  lemma UnitOfSuffix(c: char)
    ensures SuffixSeconds([c]) == match UnitSeconds(ToLower(c)) case None => 0 case Some(n) => n
  {
    assert [c][0] == c;
  }

  lemma LowerDigits(digits: string, suffix: string)
    requires AllDigits(digits)
    ensures Lower(digits + suffix) == digits + Lower(suffix)
  {
  }

  lemma ReadNoSuffix(digits: string)
    requires digits != "" && AllDigits(digits)
    ensures Read(digits) == if Number(digits) == 0 then None else Some(Number(digits))
  {
    assert IsDigit(digits[|digits| - 1]);
    hide Number, AllDigits;
  }

  lemma ReadUnit(digits: string, unit: char)
    requires digits != "" && AllDigits(digits) && UnitSeconds(unit).Some?
    ensures Read(digits + [unit]) == if Number(digits) == 0 then None else Some(Number(digits) * UnitSeconds(unit).value)
  {
    hide Number, AllDigits, UnitSeconds;
    var text := digits + [unit];
    assert text[|text| - 1] == unit && text[..|text| - 1] == digits;
  }

  lemma ReadWritten(digits: string, suffix: string)
    requires digits != "" && AllDigits(digits) && SuffixSeconds(suffix) > 0
    ensures var n := Number(digits);
            Read(digits + Lower(suffix)) == if n == 0 then None else Some(n * SuffixSeconds(suffix))
  {
    hide Number, AllDigits, Read;
    if suffix == "" {
      assert digits + Lower(suffix) == digits;
      ReadNoSuffix(digits);
    } else {
      UnitOfSuffix(suffix[0]);
      assert suffix == [suffix[0]] && Lower(suffix) == [ToLower(suffix[0])];
      ReadUnit(digits, ToLower(suffix[0]));
    }
  }

  lemma WrittenIsTight(digits: string, suffix: string)
    requires digits != "" && AllDigits(digits) && SuffixSeconds(suffix) > 0
    ensures Tight(digits + suffix)
  {
  }

  lemma WrittenIsRead(raw: string, pre: string, digits: string, suffix: string, post: string)
    requires Writes(raw, pre, digits, suffix, post)
    ensures var n := Number(digits);
            ParseWindowSeconds(raw) == if n == 0 then None else Some(n * SuffixSeconds(suffix))
  {
    hide Number, Read, Trim, Tight, Lower, AllSpace;
    WrittenIsTight(digits, suffix);
    TrimPadded(pre, digits + suffix, post);
    LowerDigits(digits, suffix);
    ReadWritten(digits, suffix);
  }

  lemma LowerKeepsDigits(s: string)
    requires forall i :: 0 <= i < |s| ==> IsDigit(ToLower(s[i]))
    ensures AllDigits(s) && Lower(s) == s
  {
  }

  lemma OnlyDigitsAreRead(lower: string)
    requires lower != "" && Read(lower).Some?
    ensures var n := |lower| - 1;
            var digits := if UnitSeconds(lower[n]).Some? then lower[..n] else lower;
            digits != "" && AllDigits(digits) && Number(digits) >= 1
  {
    hide AllDigits, Number;
  }

  /** What is read was written so, digits and suffix. */
  lemma ReadWasWritten(raw: string) returns (pre: string, digits: string, suffix: string, post: string)
    requires ParseWindowSeconds(raw).Some?
    ensures Writes(raw, pre, digits, suffix, post) && Number(digits) >= 1
  {
    pre, post := TrimParts(raw);
    var text := Trim(raw);
    var lower := Lower(text);
    var n := |text| - 1;
    OnlyDigitsAreRead(lower);
    hide Trim, Number, Read;
    UnitOfSuffix(text[n]);
    if UnitSeconds(lower[n]).Some? {
      digits, suffix := text[..n], [text[n]];
      assert text == digits + suffix;
      assert forall i :: 0 <= i < n ==> lower[..n][i] == ToLower(text[i]);
      LowerKeepsDigits(digits);
      assert lower[..n] == digits;
    } else {
      digits, suffix := text, "";
      LowerKeepsDigits(digits);
      assert text == digits + suffix;
    }
  }

  /** Digits with a suffix in either case and any padding, and nothing else, are
      read; as that many seconds, and not at all if they are zero. */
  lemma WindowIff(raw: string, seconds: nat)
    ensures ParseWindowSeconds(raw) == Some(seconds) <==>
            exists pre, digits, suffix, post :: Writes(raw, pre, digits, suffix, post)
              && Number(digits) >= 1 && seconds == Number(digits) * SuffixSeconds(suffix)
  {
    hide ParseWindowSeconds, Number, AllSpace, SuffixSeconds;
    if ParseWindowSeconds(raw) == Some(seconds) {
      var pre, digits, suffix, post := ReadWasWritten(raw);
      WrittenIsRead(raw, pre, digits, suffix, post);
    }
    forall pre, digits, suffix, post | Writes(raw, pre, digits, suffix, post) && Number(digits) >= 1
      ensures ParseWindowSeconds(raw) == Some(Number(digits) * SuffixSeconds(suffix))
    {
      WrittenIsRead(raw, pre, digits, suffix, post);
    }
  }

  /** In particular every printed number is read back; zero is refused. */
  lemma WindowReadsBack(n: nat, suffix: string, pre: string, post: string)
    requires AllSpace(pre) && AllSpace(post) && SuffixSeconds(suffix) > 0
    ensures ParseWindowSeconds(pre + Decimal(n) + suffix + post) ==
            if n == 0 then None else Some(n * SuffixSeconds(suffix))
  {
    hide Number, Decimal, ParseWindowSeconds, SuffixSeconds, AllSpace;
    NumberOfDecimal(n);
    assert pre + Decimal(n) + suffix + post == pre + (Decimal(n) + suffix) + post;
    assert AllDigits(Decimal(n));
    WrittenIsRead(pre + Decimal(n) + suffix + post, pre, Decimal(n), suffix, post);
  }

  // ---------- resolveQuotaPolicies ----------

  /** `number` is JavaScript's `Number` on a string, None for NaN and the infinities. */
  function Override(policy: Policy, limitRaw: Option<string>, windowRaw: Option<string>, number: string -> Option<real>): Policy {
    var limit :=
      if limitRaw.Some? && Trim(limitRaw.value) != "" && number(limitRaw.value).Some? && number(limitRaw.value).value > 0.0
      then number(limitRaw.value).value.Floor
      else policy.limit;
    var windowSeconds :=
      if windowRaw.Some? && Trim(windowRaw.value) != "" && ParseWindowSeconds(windowRaw.value).Some?
      then ParseWindowSeconds(windowRaw.value).value
      else policy.windowSeconds;
    Policy(limit, windowSeconds)
  }

  function Lookup(env: map<string, string>, name: string): Option<string> {
    if name in env then Some(env[name]) else None
  }

  function ToUpperOrUnderscore(c: char): char {
    if c == '.' then '_' else if 'a' <= c <= 'z' then (c as int - 32) as char else c
  }

  /** `api.default` becomes `API_DEFAULT`. */
  function EnvSuffix(bucket: Bucket): string {
    var name := Name(bucket);
    seq(|name|, i requires 0 <= i < |name| => ToUpperOrUnderscore(name[i]))
  }

  function Resolved(env: map<string, string>, policy: Policy, bucket: Bucket, number: string -> Option<real>): Policy {
    Override(policy,
             Lookup(env, "JACKLINE_RL_" + EnvSuffix(bucket) + "_LIMIT"),
             Lookup(env, "JACKLINE_RL_" + EnvSuffix(bucket) + "_WINDOW"),
             number)
  }

  /** The middle of the names of a bucket's two variables. */
  function Infix(b: Bucket): string {
    match b
    case ApiDefault => "API_DEFAULT"
    case ApiAuth => "API_AUTH"
    case A2aDirectory => "A2A_DIRECTORY"
    case A2aCard => "A2A_CARD"
    case A2aKnock => "A2A_KNOCK"
    case A2aMessage => "A2A_MESSAGE"
    case GatewayMcp => "GATEWAY_MCP"
  }

  function LimitVariable(b: Bucket): string {
    "JACKLINE_RL_" + Infix(b) + "_LIMIT"
  }

  function WindowVariable(b: Bucket): string {
    "JACKLINE_RL_" + Infix(b) + "_WINDOW"
  }

  ghost predicate WritesAWindow(raw: string) {
    exists pre, digits, suffix, post :: Writes(raw, pre, digits, suffix, post) && Number(digits) >= 1
  }

  /** What an operator may rely on. A limit variable that is not blank and holds
      a finite positive number makes the limit its floor; a window variable that
      holds a positive number of seconds, minutes, hours or days makes the window
      that many seconds; anything else leaves the default of that field. */
  ghost predicate Honours(env: map<string, string>, policy: Policy, b: Bucket, number: string -> Option<real>, result: Policy) {
    var limit, window := LimitVariable(b), WindowVariable(b);
    && (limit in env && !AllSpace(env[limit]) && number(env[limit]).Some? && number(env[limit]).value > 0.0 ==>
          result.limit as real <= number(env[limit]).value < (result.limit + 1) as real)
    && (limit !in env || AllSpace(env[limit]) || number(env[limit]).None? || number(env[limit]).value <= 0.0 ==>
          result.limit == policy.limit)
    && (forall pre, digits, suffix, post ::
          window in env && Writes(env[window], pre, digits, suffix, post) && Number(digits) >= 1 ==>
            result.windowSeconds == Number(digits) * SuffixSeconds(suffix))
    && (window !in env || !WritesAWindow(env[window]) ==> result.windowSeconds == policy.windowSeconds)
  }

  lemma VariableNames(b: Bucket)
    ensures EnvSuffix(b) == Infix(b)
  {
    assert |Name(b)| == |Infix(b)|;
    forall i | 0 <= i < |Name(b)| ensures EnvSuffix(b)[i] == Infix(b)[i] {
    }
  }

  lemma BlankIff(s: string)
    ensures Trim(s) == "" <==> AllSpace(s)
  {
    if AllSpace(s) {
      TrimAllSpace(s);
    } else {
      var pre, post := TrimParts(s);
      assert Trim(s) == "" ==> s == pre + post;
    }
  }

  lemma LimitHonoured(policy: Policy, limitRaw: Option<string>, windowRaw: Option<string>, number: string -> Option<real>)
    ensures var result := Override(policy, limitRaw, windowRaw, number);
            if limitRaw.Some? && !AllSpace(limitRaw.value) && number(limitRaw.value).Some? && number(limitRaw.value).value > 0.0
            then result.limit as real <= number(limitRaw.value).value < (result.limit + 1) as real
            else result.limit == policy.limit
  {
    hide AllSpace, Trim, ParseWindowSeconds;
    if limitRaw.Some? { BlankIff(limitRaw.value); }
  }

  lemma WindowHonoured(policy: Policy, limitRaw: Option<string>, raw: string, number: string -> Option<real>)
    ensures var result := Override(policy, limitRaw, Some(raw), number);
            && (forall pre, digits, suffix, post :: Writes(raw, pre, digits, suffix, post) && Number(digits) >= 1 ==>
                  result.windowSeconds == Number(digits) * SuffixSeconds(suffix))
            && (!WritesAWindow(raw) ==> result.windowSeconds == policy.windowSeconds)
  {
    hide AllSpace, Trim, ParseWindowSeconds, Number, SuffixSeconds;
    forall pre, digits, suffix, post | Writes(raw, pre, digits, suffix, post) && Number(digits) >= 1
      ensures Override(policy, limitRaw, Some(raw), number).windowSeconds == Number(digits) * SuffixSeconds(suffix)
    {
      WrittenIsRead(raw, pre, digits, suffix, post);
      BlankIsNotRead(raw);
    }
    if ParseWindowSeconds(raw).Some? {
      var pre, digits, suffix, post := ReadWasWritten(raw);
    }
  }

  lemma BlankIsNotRead(raw: string)
    ensures Trim(raw) == "" ==> ParseWindowSeconds(raw).None?
  {
    hide Trim;
  }

  lemma ResolvedHonours(env: map<string, string>, policy: Policy, b: Bucket, number: string -> Option<real>)
    ensures Honours(env, policy, b, number, Resolved(env, policy, b, number))
  {
    hide EnvSuffix, Infix, Override, AllSpace, Writes, WritesAWindow, Number;
    VariableNames(b);
    var limitRaw, windowRaw := Lookup(env, LimitVariable(b)), Lookup(env, WindowVariable(b));
    LimitHonoured(policy, limitRaw, windowRaw, number);
    if windowRaw.Some? {
      WindowHonoured(policy, limitRaw, windowRaw.value, number);
    } else {
      NoWindowNoChange(policy, limitRaw, number);
    }
  }

  lemma NoWindowNoChange(policy: Policy, limitRaw: Option<string>, number: string -> Option<real>)
    ensures Override(policy, limitRaw, None, number).windowSeconds == policy.windowSeconds
  {
  }

  /** Variables of other names change nothing for a bucket. */
  lemma OtherVariablesDoNotMatter(env: map<string, string>, other: map<string, string>, policy: Policy, b: Bucket,
                                  number: string -> Option<real>)
    requires LimitVariable(b) in env <==> LimitVariable(b) in other
    requires WindowVariable(b) in env <==> WindowVariable(b) in other
    requires LimitVariable(b) in env ==> env[LimitVariable(b)] == other[LimitVariable(b)]
    requires WindowVariable(b) in env ==> env[WindowVariable(b)] == other[WindowVariable(b)]
    ensures Resolved(env, policy, b, number) == Resolved(other, policy, b, number)
  {
    hide EnvSuffix, Infix, Override;
    VariableNames(b);
  }

  /** Every bucket's own variables are honoured over its own default, and usable
      defaults stay usable under any environment. */
  method ResolveQuotaPolicies(env: map<string, string>, defaults: map<Bucket, Policy>, number: string -> Option<real>)
    returns (policies: map<Bucket, Policy>)
    requires forall b: Bucket :: b in defaults
    ensures forall b: Bucket :: b in policies && policies[b] == Resolved(env, defaults[b], b, number)
    ensures forall b: Bucket :: b in policies && Honours(env, defaults[b], b, number, policies[b])
    ensures Usable(defaults) ==> Usable(policies)
  {
    hide EnvSuffix, ParseWindowSeconds, Trim, Lookup, Honours;
    policies := defaults;
    for i := 0 to |QUOTA_BUCKETS|
      invariant forall b: Bucket :: b in policies
      invariant forall b: Bucket :: policies[b] == if b in QUOTA_BUCKETS[..i] then Resolved(env, defaults[b], b, number) else defaults[b]
    {
      var bucket := QUOTA_BUCKETS[i];
      var limitRaw := Lookup(env, "JACKLINE_RL_" + EnvSuffix(bucket) + "_LIMIT");
      var windowRaw := Lookup(env, "JACKLINE_RL_" + EnvSuffix(bucket) + "_WINDOW");
      var next := policies[bucket];
      if limitRaw.Some? && Trim(limitRaw.value) != "" {
        var limit := number(limitRaw.value);
        if limit.Some? && limit.value > 0.0 {
          next := next.(limit := limit.value.Floor);
        }
      }
      if windowRaw.Some? && Trim(windowRaw.value) != "" {
        var windowSeconds := ParseWindowSeconds(windowRaw.value);
        if windowSeconds.Some? {
          next := next.(windowSeconds := windowSeconds.value);
        }
      }
      assert next == Override(policies[bucket], limitRaw, windowRaw, number);
      policies := policies[bucket := next];
    }
    assert QUOTA_BUCKETS[..|QUOTA_BUCKETS|] == QUOTA_BUCKETS;
    forall b: Bucket ensures b in QUOTA_BUCKETS && Honours(env, defaults[b], b, number, Resolved(env, defaults[b], b, number)) {
      BucketListed(b);
      ResolvedHonours(env, defaults[b], b, number);
    }
  }

  lemma BucketListed(b: Bucket)
    ensures b in QUOTA_BUCKETS
  {
    var all := QUOTA_BUCKETS;
    assert all[0] == ApiDefault && all[1] == ApiAuth && all[2] == A2aDirectory && all[3] == A2aCard
        && all[4] == A2aKnock && all[5] == A2aMessage && all[6] == GatewayMcp;
  }

  lemma DefaultsAreUsable()
    ensures Usable(DEFAULT_QUOTA_POLICIES)
  {
    forall b: Bucket ensures b in DEFAULT_QUOTA_POLICIES { BucketListed(b); }
  }
}
