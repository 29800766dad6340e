/** The template expression evaluator: a recursive reading of a string, with
    hand-written scans for parentheses, equality operators and brackets. */
module TemplateExpr {
  import opened Text
  import opened Wrappers

  /** The JavaScript values an expression is evaluated over, and the operations
      the evaluator leaves to the language. `vals` is the object paths start at. */
  datatype Host<!V> = Host(
    vals: V, undefinedValue: V, nullValue: V,
    ofBool: bool -> V, ofNumber: string -> V, ofString: string -> V,
    isNullish: V -> bool, member: (V, V) -> V, truthy: V -> bool,
    strictlyEqual: (V, V) -> bool, looselyEqual: (V, V) -> bool)

  datatype Op = StrictEq | StrictNe | LooseEq | LooseNe

  function OpText(op: Op): string {
    match op
    case StrictEq => "==="
    case StrictNe => "!=="
    case LooseEq => "=="
    case LooseNe => "!="
  }

  function Compare<V>(h: Host<V>, op: Op, l: V, r: V): V {
    match op
    case StrictEq => h.ofBool(h.strictlyEqual(l, r))
    case StrictNe => h.ofBool(!h.strictlyEqual(l, r))
    case LooseEq => h.ofBool(h.looselyEqual(l, r))
    case LooseNe => h.ofBool(!h.looselyEqual(l, r))
  }

  function Get<V>(h: Host<V>, cur: V, key: V): V {
    if h.isNullish(cur) then h.undefinedValue else h.member(cur, key)
  }

  // ---------- Scans ----------

  datatype Kind = Parens | Squares | Both

  function Delta(kind: Kind, c: char): int {
    if (c == '(' && kind != Squares) || (c == '[' && kind != Parens) then 1
    else if (c == ')' && kind != Squares) || (c == ']' && kind != Parens) then -1
    else 0
  }

  /** Brackets opened minus brackets closed. */
  function Depth(kind: Kind, s: string): int {
    if s == "" then 0 else Depth(kind, s[..|s| - 1]) + Delta(kind, s[|s| - 1])
  }

  /** No parenthesis before the last character brings the depth back to zero. */
  predicate WrapsWhole(expr: string) {
    forall i :: 0 <= i < |expr| - 1 && expr[i] == ')' ==> Depth(Parens, expr[..i + 1]) != 0
  }

  method ParensWrapWhole(expr: string) returns (wraps: bool)
    ensures wraps == WrapsWhole(expr)
  {
    var depth := 0;
    var i := 0;
    while i < |expr| - 1
      invariant 0 <= i && (expr != "" ==> i <= |expr| - 1)
      invariant i <= |expr| && depth == Depth(Parens, expr[..i])
      invariant forall k :: 0 <= k < i && expr[k] == ')' ==> Depth(Parens, expr[..k + 1]) != 0
    {
      assert expr[..i + 1][..i] == expr[..i];
      if expr[i] == '(' {
        depth := depth + 1;
      } else if expr[i] == ')' {
        depth := depth - 1;
        if depth == 0 {
          return false;
        }
      }
      i := i + 1;
    }
    return true;
  }

  /** An equality operator outside all brackets starts at `i`, and something
      stands to the left of it. */
  predicate TopLevelAt(expr: string, i: nat) {
    && i + 1 < |expr|
    && (expr[i] == '=' || expr[i] == '!')
    && expr[i + 1] == '='
    && Depth(Both, expr[..i]) == 0
    && !(i > 0 && (expr[i - 1] == '=' || expr[i - 1] == '!'))
    && Trim(expr[..i]) != ""
  }

  function OpAt(expr: string, i: nat): (op: Op)
    requires i + 1 < |expr| && (expr[i] == '=' || expr[i] == '!') && expr[i + 1] == '='
    ensures i + |OpText(op)| <= |expr| && expr[i..i + |OpText(op)|] == OpText(op)
  {
    if i + 2 < |expr| && expr[i + 2] == '=' then if expr[i] == '=' then StrictEq else StrictNe
    else if expr[i] == '=' then LooseEq else LooseNe
  }

  /** The first such operator at or after `i`. */
  function FirstEquality(expr: string, i: nat): (r: Option<nat>)
    ensures r.Some? ==> i <= r.value && TopLevelAt(expr, r.value)
    ensures forall k :: i <= k < (if r.Some? then r.value else |expr|) ==> !TopLevelAt(expr, k)
    decreases |expr| - i
  {
    if i >= |expr| then None
    else if TopLevelAt(expr, i) then Some(i)
    else FirstEquality(expr, i + 1)
  }

  lemma FirstEqualityIs(expr: string, i: nat)
    requires TopLevelAt(expr, i) && forall k :: 0 <= k < i ==> !TopLevelAt(expr, k)
    ensures FirstEquality(expr, 0) == Some(i)
  {
  }

  lemma OperatorFits(expr: string, i: nat)
    requires TopLevelAt(expr, i)
    ensures i + 1 < |expr| && (expr[i] == '=' || expr[i] == '!') && expr[i + 1] == '='
  {
  }

  method FindTopLevelEquality(expr: string) returns (eq: Option<(nat, Op)>)
    ensures match FirstEquality(expr, 0)
            case None => eq == None
            case Some(i) => eq == Some((i, OpAt(expr, i)))
  {
    var depth := 0;
    for i := 0 to |expr|
      invariant depth == Depth(Both, expr[..i])
      invariant forall k :: 0 <= k < i ==> !TopLevelAt(expr, k)
    {
      var c := expr[i];
      assert expr[..i + 1][..i] == expr[..i];
      if c == '[' || c == '(' {
        depth := depth + 1;
      } else if c == ']' || c == ')' {
        depth := depth - 1;
      } else if depth == 0 && (c == '=' || c == '!') && i + 1 < |expr| && expr[i + 1] == '=' {
        if i > 0 && (expr[i - 1] == '=' || expr[i - 1] == '!') {
          continue;
        }
        if Trim(expr[..i]) == "" {
          continue;
        }
        FirstEqualityIs(expr, i);
        return Some((i, OpAt(expr, i)));
      }
    }
    return None;
  }

  predicate IsIdentStart(c: char) {
    'A' <= c <= 'Z' || 'a' <= c <= 'z' || c == '_' || c == '$'
  }

  predicate IsDigit(c: char) {
    '0' <= c <= '9'
  }

  predicate IsIdentPart(c: char) {
    IsIdentStart(c) || IsDigit(c)
  }

  /** Length of the longest prefix of identifier characters, or of digits. */
  function PartLength(s: string): (n: nat)
    ensures n <= |s|
  {
    if s == "" || !IsIdentPart(s[0]) then 0 else 1 + PartLength(s[1..])
  }

  function DigitLength(s: string): (n: nat)
    ensures n <= |s|
  {
    if s == "" || !IsDigit(s[0]) then 0 else 1 + DigitLength(s[1..])
  }

  function IdentLength(s: string): (n: nat)
    ensures n <= |s|
  {
    if s == "" || !IsIdentStart(s[0]) then 0 else PartLength(s)
  }

  /** What a step after a dot matches: an identifier, else a run of digits. */
  function NameLength(s: string): (n: nat)
    ensures n <= |s|
  {
    if IdentLength(s) > 0 then IdentLength(s) else DigitLength(s)
  }

  /** An optional minus, digits, and an optional fraction. */
  predicate IsNumberText(s: string) {
    var t := if s != "" && s[0] == '-' then s[1..] else s;
    var n := DigitLength(t);
    n > 0 && (n == |t| || (t[n] == '.' && n + 1 < |t| && DigitLength(t[n + 1..]) == |t| - n - 1))
  }

  /** Index of the `]` that closes the bracket whose content starts at `j`, or
      the length when there is none. */
  function BracketEnd(expr: string, j: nat, depth: nat): (end: nat)
    requires j <= |expr| && depth >= 1
    ensures j <= end <= |expr|
    decreases |expr| - j
  {
    if j == |expr| then j
    else if expr[j] == '[' then BracketEnd(expr, j + 1, depth + 1)
    else if expr[j] == ']' then if depth == 1 then j else BracketEnd(expr, j + 1, depth - 1)
    else BracketEnd(expr, j + 1, depth)
  }

  // ---------- Evaluation ----------

  /** `resolve`. Each nested call gets a strictly shorter string. */
  function Resolve<V>(h: Host<V>, src: string): V
    decreases |src|, 2, 0
  {
    var expr := Trim(src);
    if expr == "" then h.undefinedValue
    else if expr[0] == '(' && expr[|expr| - 1] == ')' && WrapsWhole(expr) then Resolve(h, expr[1..|expr| - 1])
    else
      match FirstEquality(expr, 0)
      case Some(i) =>
        var op := OpAt(expr, i);
        Compare(h, op, Resolve(h, expr[..i]), Resolve(h, expr[i + |OpText(op)|..]))
      case None =>
        if expr[0] == '!' then h.ofBool(!h.truthy(Resolve(h, expr[1..])))
        else ResolveAtom(h, expr)
  }

  /** The last part of `resolve`: literals, numbers, quoted strings, paths. */
  function ResolveAtom<V>(h: Host<V>, expr: string): V
    decreases |expr|, 1, 0
  {
    var literal := Literal(h, expr);
    if literal.Some? then literal.value
    else
      var n := IdentLength(expr);
      if n == 0 then h.undefinedValue
      else PathFrom(h, expr, n, Get(h, h.vals, h.ofString(expr[..n])))
  }

  function Literal<V>(h: Host<V>, expr: string): Option<V> {
    if expr == "true" then Some(h.ofBool(true))
    else if expr == "false" then Some(h.ofBool(false))
    else if expr == "null" then Some(h.nullValue)
    else if expr == "undefined" then Some(h.undefinedValue)
    else if IsNumberText(expr) then Some(h.ofNumber(expr))
    else if IsQuoted(expr) then Some(h.ofString(expr[1..|expr| - 1]))
    else None
  }

  predicate IsQuoted(expr: string) {
    |expr| >= 2 && (expr[0] == '"' || expr[0] == '\'') && expr[|expr| - 1] == expr[0]
  }

  /** The rest of `resolvePath`, from position `i` with the value reached so far. */
  function PathFrom<V>(h: Host<V>, expr: string, i: nat, cur: V): V
    decreases |expr|, 0, |expr| - i
  {
    if i >= |expr| then cur
    else if expr[i] == '.' then
      var n := NameLength(expr[i + 1..]);
      if n == 0 then h.undefinedValue
      else PathFrom(h, expr, i + 1 + n, Get(h, cur, h.ofString(expr[i + 1..i + 1 + n])))
    else if expr[i] == '[' then
      var j := BracketEnd(expr, i + 1, 1);
      if j == |expr| then h.undefinedValue
      else PathFrom(h, expr, j + 1, Get(h, cur, Resolve(h, expr[i + 1..j])))
    else h.undefinedValue
  }

  /** `resolve`, with its scans as loops. */
  method ResolveExpr<V>(h: Host<V>, src: string) returns (v: V)
    ensures v == Resolve(h, src)
    decreases |src|, 1
  {
    hide WrapsWhole, Depth, IdentLength, Compare, Literal, PathFrom, FirstEquality, TopLevelAt, Trim, OpAt, IsQuoted, IsNumberText;
    var expr := Trim(src);
    if expr == "" {
      return h.undefinedValue;
    }
    if expr[0] == '(' && expr[|expr| - 1] == ')' {
      var wraps := ParensWrapWhole(expr);
      if wraps {
        v := ResolveExpr(h, expr[1..|expr| - 1]);
        return;
      }
    }
    var eq := FindTopLevelEquality(expr);
    if eq.Some? {
      OperatorFits(expr, eq.value.0);
      var lv := ResolveExpr(h, expr[..eq.value.0]);
      var rv := ResolveExpr(h, expr[eq.value.0 + |OpText(eq.value.1)|..]);
      return Compare(h, eq.value.1, lv, rv);
    }
    if expr[0] == '!' {
      v := ResolveExpr(h, expr[1..]);
      return h.ofBool(!h.truthy(v));
    }
    var literal := Literal(h, expr);
    if literal.Some? {
      return literal.value;
    }
    v := ResolvePath(h, expr);
  }

  lemma PathStops<V>(h: Host<V>, expr: string, i: nat, cur: V)
    requires i < |expr|
    requires if expr[i] == '.' then NameLength(expr[i + 1..]) == 0
             else expr[i] == '[' ==> BracketEnd(expr, i + 1, 1) == |expr|
    ensures PathFrom(h, expr, i, cur) == h.undefinedValue
  {
  }

  lemma PathDot<V>(h: Host<V>, expr: string, i: nat, cur: V, n: nat)
    requires i < |expr| && expr[i] == '.' && n == NameLength(expr[i + 1..]) > 0
    ensures PathFrom(h, expr, i, cur) == PathFrom(h, expr, i + 1 + n, Get(h, cur, h.ofString(expr[i + 1..i + 1 + n])))
  {
  }

  lemma PathIndex<V>(h: Host<V>, expr: string, i: nat, cur: V, j: nat)
    requires i < |expr| && expr[i] == '[' && j == BracketEnd(expr, i + 1, 1) < |expr|
    ensures PathFrom(h, expr, i, cur) == PathFrom(h, expr, j + 1, Get(h, cur, Resolve(h, expr[i + 1..j])))
  {
  }

  lemma PathEnds<V>(h: Host<V>, expr: string, i: nat, cur: V)
    requires i >= |expr|
    ensures PathFrom(h, expr, i, cur) == cur
  {
  }

  /** The inner loop of `resolvePath`. */
  method CloseBracket(expr: string, start: nat) returns (j: nat)
    requires start <= |expr|
    ensures j == BracketEnd(expr, start, 1)
  {
    var depth := 1;
    j := start;
    while j < |expr| && depth > 0
      invariant start <= j <= |expr| && depth >= 1
      invariant BracketEnd(expr, start, 1) == BracketEnd(expr, j, depth)
    {
      if expr[j] == '[' {
        depth := depth + 1;
      } else if expr[j] == ']' {
        depth := depth - 1;
        if depth == 0 {
          break;
        }
      }
      j := j + 1;
    }
  }

  method ResolvePath<V>(h: Host<V>, expr: string) returns (v: V)
    ensures v == if IdentLength(expr) == 0 then h.undefinedValue
                 else PathFrom(h, expr, IdentLength(expr), Get(h, h.vals, h.ofString(expr[..IdentLength(expr)])))
    decreases |expr|, 0
  {
    hide PathFrom, Resolve, NameLength, IdentLength, BracketEnd, Get;
    var head := IdentLength(expr);
    if head == 0 {
      return h.undefinedValue;
    }
    var cur := Get(h, h.vals, h.ofString(expr[..head]));
    ghost var meant := PathFrom(h, expr, head, cur);
    var i := head;
    while i < |expr|
      invariant 0 <= i <= |expr|
      invariant PathFrom(h, expr, i, cur) == meant
    {
      if expr[i] == '.' {
        var n := NameLength(expr[i + 1..]);
        if n == 0 {
          PathStops(h, expr, i, cur);
          return h.undefinedValue;
        }
        PathDot(h, expr, i, cur, n);
        cur := Get(h, cur, h.ofString(expr[i + 1..i + 1 + n]));
        i := i + 1 + n;
      } else if expr[i] == '[' {
        var j := CloseBracket(expr, i + 1);
        if j == |expr| {
          PathStops(h, expr, i, cur);
          return h.undefinedValue;
        }
        PathIndex(h, expr, i, cur, j);
        var key := ResolveExpr(h, expr[i + 1..j]);
        cur := Get(h, cur, key);
        i := j + 1;
      } else {
        PathStops(h, expr, i, cur);
        return h.undefinedValue;
      }
    }
    PathEnds(h, expr, i, cur);
    v := cur;
  }
}
