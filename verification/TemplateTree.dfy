/** Expression trees, their printed form with arbitrary spacing and grouping,
    their meaning, and the theorem that the evaluator finds it. */
module TemplateTree {
  import opened Text
  import opened Wrappers
  import opened TemplateExpr

  datatype Word = True | False | Null | Undefined

  function WordText(w: Word): string {
    match w
    case True => "true"
    case False => "false"
    case Null => "null"
    case Undefined => "undefined"
  }

  /** `pad`, `pre` and `post` are the whitespace the author typed there. */
  datatype Expr =
    | Word(word: Word)
    | Number(negative: bool, whole: string, fraction: Option<string>)
    | Quoted(quote: char, body: string)
    | Path(head: string, steps: Steps)
    | Group(pre: string, inner: Expr, post: string)
    | Not(pad: string, operand: Expr)
    | Equals(left: Expr, padLeft: string, op: Op, padRight: string, right: Expr)

  datatype Steps =
    | End
    | Dot(name: string, next: Steps)
    | Index(pre: string, key: Expr, post: string, rest: Steps)

  // ---------- Printing ----------

  function Numeral(negative: bool, whole: string, fraction: Option<string>): string {
    (if negative then "-" else "") + (whole + match fraction case None => "" case Some(digits) => "." + digits)
  }

  function Print(e: Expr): string {
    match e
    case Word(w) => WordText(w)
    case Number(negative, whole, fraction) => Numeral(negative, whole, fraction)
    case Quoted(quote, body) => [quote] + body + [quote]
    case Path(head, steps) => head + PrintSteps(steps)
    case Group(pre, inner, post) => "(" + (pre + Print(inner) + post) + ")"
    case Not(pad, operand) => "!" + (pad + Print(operand))
    case Equals(left, padLeft, op, padRight, right) =>
      (Print(left) + padLeft) + OpText(op) + (padRight + Print(right))
  }

  function PrintSteps(steps: Steps): string {
    match steps
    case End => ""
    case Dot(name, next) => "." + name + PrintSteps(next)
    case Index(pre, key, post, rest) => "[" + (pre + Print(key) + post) + "]" + PrintSteps(rest)
  }

  // ---------- Meaning ----------

  function Meaning<V>(h: Host<V>, e: Expr): V {
    match e
    case Word(True) => h.ofBool(true)
    case Word(False) => h.ofBool(false)
    case Word(Null) => h.nullValue
    case Word(Undefined) => h.undefinedValue
    case Number(negative, whole, fraction) => h.ofNumber(Numeral(negative, whole, fraction))
    case Quoted(_, body) => h.ofString(body)
    case Path(head, steps) =>
      StepsMeaning(h, if h.isNullish(h.vals) then h.undefinedValue else h.member(h.vals, h.ofString(head)), steps)
    case Group(_, inner, _) => Meaning(h, inner)
    case Not(_, operand) => h.ofBool(!h.truthy(Meaning(h, operand)))
    case Equals(left, _, StrictEq, _, right) => h.ofBool(h.strictlyEqual(Meaning(h, left), Meaning(h, right)))
    case Equals(left, _, StrictNe, _, right) => h.ofBool(!h.strictlyEqual(Meaning(h, left), Meaning(h, right)))
    case Equals(left, _, LooseEq, _, right) => h.ofBool(h.looselyEqual(Meaning(h, left), Meaning(h, right)))
    case Equals(left, _, LooseNe, _, right) => h.ofBool(!h.looselyEqual(Meaning(h, left), Meaning(h, right)))
  }

  function StepsMeaning<V>(h: Host<V>, cur: V, steps: Steps): V {
    match steps
    case End => cur
    case Dot(name, next) =>
      StepsMeaning(h, if h.isNullish(cur) then h.undefinedValue else h.member(cur, h.ofString(name)), next)
    case Index(_, key, _, rest) =>
      StepsMeaning(h, if h.isNullish(cur) then h.undefinedValue else h.member(cur, Meaning(h, key)), rest)
  }

  // ---------- The trees that can be written ----------

  predicate IsIdent(s: string) {
    && s != "" && !('0' <= s[0] <= '9')
    && forall i :: 0 <= i < |s| ==>
         'A' <= s[i] <= 'Z' || 'a' <= s[i] <= 'z' || '0' <= s[i] <= '9' || s[i] == '_' || s[i] == '$'
  }

  predicate IsDigits(s: string) {
    s != "" && forall i :: 0 <= i < |s| ==> '0' <= s[i] <= '9'
  }

  predicate IsWord(s: string) {
    s == "true" || s == "false" || s == "null" || s == "undefined"
  }

  /** `!` and the left side of an equality take no bare equality; the right
      side may be one, so a chain of equalities groups to the right. */
  predicate WellFormed(e: Expr) {
    match e
    case Word(_) => true
    case Number(_, whole, fraction) => IsDigits(whole) && (fraction.Some? ==> IsDigits(fraction.value))
    case Quoted(quote, body) => (quote == '"' || quote == '\'') && Closed(body)
    case Path(head, steps) => IsIdent(head) && (steps.End? ==> !IsWord(head)) && WellFormedSteps(steps)
    case Group(pre, inner, post) => AllSpace(pre) && AllSpace(post) && WellFormed(inner)
    case Not(pad, operand) => AllSpace(pad) && WellFormed(operand) && !operand.Equals?
    case Equals(left, padLeft, _, padRight, right) =>
      AllSpace(padLeft) && AllSpace(padRight) && WellFormed(left) && !left.Equals? && WellFormed(right)
  }

  predicate WellFormedSteps(steps: Steps) {
    match steps
    case End => true
    case Dot(name, next) => (IsIdent(name) || IsDigits(name)) && WellFormedSteps(next)
    case Index(pre, key, post, rest) =>
      AllSpace(pre) && AllSpace(post) && WellFormed(key) && WellFormedSteps(rest)
  }

  // ---------- Bracket depth ----------

  lemma {:induction false} DepthConcat(kind: Kind, a: string, b: string)
    ensures Depth(kind, a + b) == Depth(kind, a) + Depth(kind, b)
  {
    if b == "" {
      assert a + b == a;
    } else {
      DepthConcat(kind, a, b[..|b| - 1]);
      assert (a + b)[..|a + b| - 1] == a + b[..|b| - 1];
    }
  }

  lemma {:induction false} DepthPlain(kind: Kind, s: string)
    requires forall i :: 0 <= i < |s| ==> Delta(kind, s[i]) == 0
    ensures Depth(kind, s) == 0
  {
    if s != "" { DepthPlain(kind, s[..|s| - 1]); }
  }

  predicate Balanced(kind: Kind, s: string) {
    Depth(kind, s) == 0 && forall i :: 0 <= i <= |s| ==> Depth(kind, s[..i]) >= 0
  }

  predicate AllBalanced(s: string) {
    forall kind: Kind :: Balanced(kind, s)
  }

  /** An operator `==` or `!=` starts at `i`, for a scan that has not just
      passed another `=` or `!`. */
  predicate OperatorStarts(s: string, i: nat) {
    && i + 1 < |s| && IsOperatorChar(s[i]) && s[i + 1] == '='
    && !(i > 0 && IsOperatorChar(s[i - 1]))
  }

  predicate IsOperatorChar(c: char) {
    c == '=' || c == '!'
  }

  /** Balanced, with every equality operator inside some bracket. Quoted text of
      this form is not mistaken for syntax by scans that ignore quotes. */
  predicate Closed(s: string) {
    AllBalanced(s) && forall i :: 0 <= i < |s| && OperatorStarts(s, i) ==> Depth(Both, s[..i]) != 0
  }

  /** Putting `a` before `b` makes no operator out of two halves. */
  predicate Fits(a: string, b: string) {
    a != "" && b != "" && b[0] == '=' ==> !IsOperatorChar(a[|a| - 1])
  }

  lemma DepthOfPrefix(kind: Kind, a: string, b: string, i: nat)
    requires i <= |a + b|
    ensures Depth(kind, (a + b)[..i]) ==
            if i <= |a| then Depth(kind, a[..i]) else Depth(kind, a) + Depth(kind, b[..i - |a|])
  {
    if i <= |a| {
      assert (a + b)[..i] == a[..i];
    } else {
      assert (a + b)[..i] == a + b[..i - |a|];
      DepthConcat(kind, a, b[..i - |a|]);
    }
  }

  lemma BalancedConcat(kind: Kind, a: string, b: string)
    requires Balanced(kind, a) && Balanced(kind, b)
    ensures Balanced(kind, a + b)
  {
    DepthConcat(kind, a, b);
    forall i | 0 <= i <= |a + b| ensures Depth(kind, (a + b)[..i]) >= 0 { DepthOfPrefix(kind, a, b, i); }
  }

  lemma AllBalancedConcat(a: string, b: string)
    requires AllBalanced(a) && AllBalanced(b)
    ensures AllBalanced(a + b)
  {
    BalancedConcat(Parens, a, b);
    BalancedConcat(Squares, a, b);
    BalancedConcat(Both, a, b);
  }

  lemma OperatorOfConcat(a: string, b: string, i: nat)
    requires Fits(a, b) && OperatorStarts(a + b, i)
    ensures if i < |a| then OperatorStarts(a, i) else OperatorStarts(b, i - |a|)
  {
    var s := a + b;
    assert b != "" ==> s[|a|] == b[0];
    assert i < |a| ==> s[i] == a[i];
  }

  lemma ClosedConcat(a: string, b: string)
    requires Closed(a) && Closed(b) && Fits(a, b)
    ensures Closed(a + b)
  {
    AllBalancedConcat(a, b);
    assert b[..0] == "" && Depth(Both, "") == 0;
    assert Balanced(Both, a) && Balanced(Both, b);
    forall i: nat | OperatorStarts(a + b, i) ensures Depth(Both, (a + b)[..i]) != 0 {
      OperatorOfConcat(a, b, i);
      DepthOfPrefix(Both, a, b, i);
    }
  }

  lemma BalancedPlain(kind: Kind, s: string)
    requires forall i :: 0 <= i < |s| ==> Delta(Both, s[i]) == 0
    ensures Balanced(kind, s)
  {
    forall i | 0 <= i <= |s| ensures Depth(kind, s[..i]) == 0 { DepthPlain(kind, s[..i]); }
    assert s[..|s|] == s;
  }

  lemma ClosedPlain(s: string)
    requires forall i :: 0 <= i < |s| ==> Delta(Both, s[i]) == 0
    ensures AllBalanced(s)
    ensures '=' !in s ==> Closed(s)
  {
    BalancedPlain(Parens, s);
    BalancedPlain(Squares, s);
    BalancedPlain(Both, s);
  }

  lemma DepthOfWrapped(kind: Kind, open: char, s: string, close: char, i: nat)
    requires 1 <= i <= |s| + 1
    ensures Depth(kind, ([open] + s + [close])[..i]) == Delta(kind, open) + Depth(kind, s[..i - 1])
    ensures Depth(kind, [open] + s + [close]) == Delta(kind, open) + Depth(kind, s) + Delta(kind, close)
  {
    var all := [open] + s + [close];
    assert all[..i] == [open] + s[..i - 1];
    DepthConcat(kind, [open], s[..i - 1]);
    DepthConcat(kind, [open], s);
    DepthConcat(kind, [open] + s, [close]);
    assert [open][..0] == "" && [close][..0] == "";
  }

  lemma BalancedWrapped(kind: Kind, open: char, s: string, close: char)
    requires Balanced(kind, s) && Delta(kind, open) >= 0 && Delta(kind, close) == -Delta(kind, open)
    ensures Balanced(kind, [open] + s + [close])
  {
    var all := [open] + s + [close];
    DepthOfWrapped(kind, open, s, close, 1);
    forall i | 0 <= i <= |all| ensures Depth(kind, all[..i]) >= 0 {
      if i == |all| {
        assert all[..i] == all;
      } else if i > 0 {
        DepthOfWrapped(kind, open, s, close, i);
      }
    }
  }

  lemma ClosedWrapped(open: char, s: string, close: char)
    requires AllBalanced(s)
    requires (open == '(' && close == ')') || (open == '[' && close == ']')
    ensures Closed([open] + s + [close])
  {
    var all := [open] + s + [close];
    BalancedWrapped(Parens, open, s, close);
    BalancedWrapped(Squares, open, s, close);
    BalancedWrapped(Both, open, s, close);
    forall i: nat | OperatorStarts(all, i) ensures Depth(Both, all[..i]) != 0 {
      DepthOfWrapped(Both, open, s, close, i);
    }
  }

  // ---------- The shape of printed text ----------

  predicate Solid(c: char) {
    !IsSpace(c) && c != '=' && c != '!'
  }

  lemma {:induction false} DigitLengthChars(s: string)
    ensures forall i :: 0 <= i < DigitLength(s) ==> IsDigit(s[i])
  {
    if s != "" && IsDigit(s[0]) {
      DigitLengthChars(s[1..]);
      assert forall i :: 1 <= i < DigitLength(s) ==> s[i] == s[1..][i - 1];
    }
  }

  lemma UnsignedChars(t: string)
    requires IsNumberText(t) && t[0] != '-'
    ensures forall i :: 0 <= i < |t| ==> IsDigit(t[i]) || t[i] == '.'
    ensures IsDigit(t[|t| - 1])
  {
    var n := DigitLength(t);
    DigitLengthChars(t);
    if n < |t| {
      var fraction := t[n + 1..];
      DigitLengthChars(fraction);
      assert forall i :: n + 1 <= i < |t| ==> t[i] == fraction[i - n - 1];
    }
  }

  lemma NumberChars(s: string)
    requires IsNumberText(s)
    ensures s != "" && forall i :: 0 <= i < |s| ==> IsDigit(s[i]) || s[i] == '.' || s[i] == '-'
    ensures IsDigit(s[|s| - 1])
  {
    if s[0] == '-' {
      var t := s[1..];
      assert t[0] != '-';
      UnsignedChars(t);
      assert forall i :: 1 <= i < |s| ==> s[i] == t[i - 1];
    } else {
      UnsignedChars(s);
    }
  }

  lemma NameChars(s: string)
    requires IsIdent(s) || IsDigits(s)
    ensures forall i :: 0 <= i < |s| ==> IsIdentPart(s[i])
  {
  }

  /** How printed text begins and ends, and that its brackets match. */
  predicate Shaped(p: string) {
    p != "" && !IsSpace(p[0]) && p[0] != '=' && Solid(p[|p| - 1]) && AllBalanced(p)
  }

  lemma SpacesAreClosed(s: string)
    requires AllSpace(s)
    ensures Closed(s)
  {
    ClosedPlain(s);
  }

  lemma PaddedIsBalanced(pre: string, p: string, post: string)
    requires AllSpace(pre) && AllSpace(post) && AllBalanced(p)
    ensures AllBalanced(pre + p + post)
  {
    SpacesAreClosed(pre);
    SpacesAreClosed(post);
    AllBalancedConcat(pre, p);
    AllBalancedConcat(pre + p, post);
  }

  lemma PlainShape(p: string)
    requires p != "" && (forall i :: 0 <= i < |p| ==> Delta(Both, p[i]) == 0 && p[i] != '=')
    requires !IsSpace(p[0]) && Solid(p[|p| - 1])
    ensures Shaped(p) && Closed(p)
  {
    ClosedPlain(p);
  }

  lemma WrappedShape(open: char, pre: string, p: string, post: string, close: char)
    requires AllSpace(pre) && AllSpace(post) && AllBalanced(p)
    requires (open == '(' && close == ')') || (open == '[' && close == ']')
    ensures var w := [open] + (pre + p + post) + [close];
            Shaped(w) && Closed(w) && w[0] == open && w[|w| - 1] == close
  {
    PaddedIsBalanced(pre, p, post);
    ClosedWrapped(open, pre + p + post, close);
  }

  lemma AppendedShape(p: string, q: string)
    requires Shaped(p) && Closed(p) && Closed(q) && (q != "" ==> Solid(q[|q| - 1]))
    ensures Shaped(p + q) && Closed(p + q) && (p + q)[0] == p[0]
  {
    ClosedConcat(p, q);
    if q == "" { assert p + q == p; } else { assert (p + q)[|p + q| - 1] == q[|q| - 1]; }
  }

  lemma DotShape(name: string, next: string)
    requires (IsIdent(name) || IsDigits(name)) && Closed(next) && (next != "" ==> Solid(next[|next| - 1]))
    ensures var p := "." + name + next;
            Closed(p) && p[0] == '.' && Solid(p[|p| - 1])
  {
    NameChars(name);
    PlainShape("." + name);
    AppendedShape("." + name, next);
  }

  lemma IndexShape(pre: string, key: string, post: string, rest: string)
    requires AllSpace(pre) && AllSpace(post) && AllBalanced(key) && Closed(rest) && (rest != "" ==> Solid(rest[|rest| - 1]))
    ensures var p := "[" + (pre + key + post) + "]" + rest;
            Closed(p) && p[0] == '[' && Solid(p[|p| - 1])
  {
    WrappedShape('[', pre, key, post, ']');
    AppendedShape("[" + (pre + key + post) + "]", rest);
  }

  lemma NegatedShape(pad: string, p: string)
    requires AllSpace(pad) && Shaped(p) && Closed(p)
    ensures var n := "!" + (pad + p);
            Shaped(n) && Closed(n) && n[0] == '!'
  {
    SpacesAreClosed(pad);
    ClosedPlain("!");
    ClosedConcat(pad, p);
    ClosedConcat("!", pad + p);
  }

  lemma EqualityShape(left: string, padLeft: string, op: Op, padRight: string, right: string)
    requires Shaped(left) && Shaped(right) && AllSpace(padLeft) && AllSpace(padRight)
    ensures var p := (left + padLeft) + OpText(op) + (padRight + right);
            Shaped(p) && p[0] == left[0]
  {
    SpacesAreClosed(padLeft);
    SpacesAreClosed(padRight);
    OpIsBalanced(op);
    AllBalancedConcat(left, padLeft);
    AllBalancedConcat(padRight, right);
    AllBalancedConcat(left + padLeft, OpText(op));
    AllBalancedConcat((left + padLeft) + OpText(op), padRight + right);
  }

  lemma OpIsBalanced(op: Op)
    ensures AllBalanced(OpText(op))
  {
    ClosedPlain(OpText(op));
  }

  lemma WordShape(w: Word)
    ensures Shaped(WordText(w)) && Closed(WordText(w)) && WordText(w)[0] != '('
  {
    PlainShape(WordText(w));
  }

  lemma {:induction false} AllDigitLength(s: string)
    requires s == "" || IsDigits(s)
    ensures DigitLength(s) == |s|
  {
    if s != "" { AllDigitLength(s[1..]); }
  }

  lemma {:induction false} DigitLengthOf(name: string, tail: string)
    requires forall i :: 0 <= i < |name| ==> IsDigit(name[i])
    requires tail != "" ==> !IsDigit(tail[0])
    ensures DigitLength(name + tail) == |name|
  {
    if name == "" {
      assert name + tail == tail;
    } else {
      assert (name + tail)[1..] == name[1..] + tail;
      DigitLengthOf(name[1..], tail);
    }
  }

  lemma NumeralIsNumber(negative: bool, whole: string, fraction: Option<string>)
    requires IsDigits(whole) && (fraction.Some? ==> IsDigits(fraction.value))
    ensures IsNumberText(Numeral(negative, whole, fraction))
  {
    var s := Numeral(negative, whole, fraction);
    var tail := match fraction case None => "" case Some(digits) => "." + digits;
    var t := if s != "" && s[0] == '-' then s[1..] else s;
    assert t == whole + tail;
    DigitLengthOf(whole, tail);
    if fraction.Some? {
      assert t[|whole| + 1..] == fraction.value;
      AllDigitLength(fraction.value);
    }
  }

  /** The numbers the evaluator knows: digits, perhaps a minus before and a
      fraction behind them, and nothing else. */
  lemma NumberTextIff(s: string)
    ensures IsNumberText(s) <==>
            exists negative, whole, fraction ::
              s == Numeral(negative, whole, fraction) && IsDigits(whole) && (fraction.Some? ==> IsDigits(fraction.value))
  {
    forall negative, whole, fraction
      | s == Numeral(negative, whole, fraction) && IsDigits(whole) && (fraction.Some? ==> IsDigits(fraction.value))
      ensures IsNumberText(s)
    {
      NumeralIsNumber(negative, whole, fraction);
    }
    if IsNumberText(s) {
      var negative := s != "" && s[0] == '-';
      var t := if negative then s[1..] else s;
      var n := DigitLength(t);
      DigitLengthChars(t);
      var whole := t[..n];
      if n == |t| {
        assert s == Numeral(negative, whole, None);
      } else {
        var digits := t[n + 1..];
        DigitLengthChars(digits);
        assert t == whole + ("." + digits);
        assert s == Numeral(negative, whole, Some(digits));
      }
    }
  }

  lemma NumberShape(text: string)
    requires IsNumberText(text)
    ensures Shaped(text) && Closed(text) && text[0] != '('
  {
    NumberChars(text);
    hide IsNumberText;
    PlainShape(text);
  }

  lemma HeadShape(head: string)
    requires IsIdent(head)
    ensures Shaped(head) && Closed(head) && head[0] != '('
  {
    NameChars(head);
    PlainShape(head);
  }

  lemma QuotedShape(quote: char, body: string)
    requires (quote == '"' || quote == '\'') && Closed(body)
    ensures var p := [quote] + body + [quote];
            Shaped(p) && Closed(p) && p[0] == quote
  {
    PlainShape([quote]);
    ClosedConcat([quote], body);
    ClosedConcat([quote] + body, [quote]);
  }

  /** Only grouping, or an equality whose left side is grouped, starts with a parenthesis. */
  predicate StartsGrouped(e: Expr) {
    e.Group? || (e.Equals? && e.left.Group?)
  }

  lemma {:induction false} Shape(e: Expr)
    requires WellFormed(e)
    ensures Shaped(Print(e))
    ensures !e.Equals? ==> Closed(Print(e))
    ensures Print(e)[0] == '(' ==> StartsGrouped(e)
  {
    hide AllBalanced, Closed, IsNumberText, IsIdent, IsIdentPart, AllSpace, IsSpace;
    match e
    case Word(w) => WordShape(w);
    case Number(negative, whole, fraction) =>
      NumeralIsNumber(negative, whole, fraction);
      NumberShape(Print(e));
    case Quoted(quote, body) => QuotedShape(quote, body);
    case Path(head, steps) =>
      HeadShape(head);
      StepsShape(steps);
      AppendedShape(head, PrintSteps(steps));
    case Group(pre, inner, post) =>
      Shape(inner);
      WrappedShape('(', pre, Print(inner), post, ')');
    case Not(pad, operand) =>
      Shape(operand);
      NegatedShape(pad, Print(operand));
    case Equals(left, padLeft, op, padRight, right) =>
      Shape(left);
      Shape(right);
      EqualityShape(Print(left), padLeft, op, padRight, Print(right));
  }

  lemma {:induction false} StepsShape(steps: Steps)
    requires WellFormedSteps(steps)
    ensures Closed(PrintSteps(steps))
    ensures var p := PrintSteps(steps);
            if steps.End? then p == "" else p != "" && (p[0] == '.' || p[0] == '[') && Solid(p[|p| - 1])
  {
    hide Closed, AllSpace, IsSpace, IsIdent, IsDigits;
    match steps
    case End => ClosedPlain("");
    case Dot(name, next) =>
      StepsShape(next);
      DotShape(name, PrintSteps(next));
    case Index(pre, key, post, rest) =>
      Shape(key);
      StepsShape(rest);
      IndexShape(pre, Print(key), post, PrintSteps(rest));
  }

  // ---------- What the scans find in printed text ----------

  /** A text whose every operator is bracketed has no equality at its top level. */
  lemma ClosedHasNoEquality(s: string)
    requires Closed(s)
    ensures FirstEquality(s, 0).None?
  {
    forall i: nat | TopLevelAt(s, i) ensures OperatorStarts(s, i) && i < |s| {
    }
  }

  /** Nothing within the left side and its padding looks like an equality. */
  lemma NoEarlierEquality(l: string, tail: string, k: nat)
    requires Closed(l) && k < |l| && !IsOperatorChar(l[|l| - 1])
    ensures !TopLevelAt(l + tail, k)
  {
    var s := l + tail;
    assert s[..k] == l[..k] && s[k] == l[k];
    if TopLevelAt(s, k) {
      assert s[k + 1] == l[k + 1];
      assert OperatorStarts(l, k);
    }
  }

  /** Where a comparison is split, in full: at an operator outside all brackets
      with something to the left of it. */
  lemma TopLevelIff(s: string, i: nat)
    ensures TopLevelAt(s, i) <==>
            OperatorStarts(s, i) && Depth(Both, s[..i]) == 0 && exists k :: 0 <= k < i && !IsSpace(s[k])
  {
    if OperatorStarts(s, i) {
      if k :| 0 <= k < i && !IsSpace(s[k]) {
        assert s[..i][k] == s[k];
        TrimNotEmpty(s[..i], k);
      } else {
        assert AllSpace(s[..i]);
        TrimAllSpace(s[..i]);
      }
    }
  }

  lemma SideIsClosed(left: string, pad: string)
    requires Closed(left) && AllSpace(pad)
    ensures Closed(left + pad) && AllBalanced(left + pad)
  {
    SpacesAreClosed(pad);
    assert Fits(left, pad);
    hide Closed, AllSpace;
    ClosedConcat(left, pad);
    AllBalancedConcat(left, pad);
  }

  lemma LastOfSide(left: string, pad: string)
    requires Shaped(left) && AllSpace(pad)
    ensures var l := left + pad;
            l != "" && !IsOperatorChar(l[|l| - 1])
  {
    var l := left + pad;
    assert Solid(l[|l| - 1]) || IsSpace(l[|l| - 1]);
  }

  /** The first equality of a printed equality is its own operator. */
  lemma EqualityFound(left: string, padLeft: string, op: Op, right: string)
    requires Closed(left) && Shaped(left) && AllSpace(padLeft)
    requires right != "" && right[0] != '='
    ensures var s := (left + padLeft) + OpText(op) + right;
            FirstEquality(s, 0) == Some(|left + padLeft|) && OpAt(s, |left + padLeft|) == op
  {
    hide Closed, AllBalanced, Trim, FirstEquality, TopLevelAt, OpText, IsOperatorChar;
    var l, tail := left + padLeft, OpText(op) + right;
    var s := l + OpText(op) + right;
    assert s == l + tail;
    var n := |l|;
    SpacesAreClosed(padLeft);
    SideIsClosed(left, padLeft);
    assert !IsOperatorChar(l[n - 1]) by { LastOfSide(left, padLeft); }
    forall k | 0 <= k < n ensures !TopLevelAt(s, k) { NoEarlierEquality(l, tail, k); }
    TrimNotEmpty(l, |left| - 1);
    OperatorAt(l, op, right);
    FirstEqualityIs(s, n);
  }

  lemma OperatorAt(l: string, op: Op, right: string)
    requires AllBalanced(l) && l != "" && !IsOperatorChar(l[|l| - 1]) && Trim(l) != ""
    requires right != "" && right[0] != '='
    ensures var s := l + OpText(op) + right;
            TopLevelAt(s, |l|) && OpAt(s, |l|) == op
  {
    var s := l + OpText(op) + right;
    assert s[..|l|] == l && Balanced(Both, l);
    assert s[|l| + 2] == if |OpText(op)| == 3 then '=' else right[0];
  }

  lemma TrimNotEmpty(s: string, i: nat)
    requires i < |s| && !IsSpace(s[i])
    ensures Trim(s) != ""
  {
    var pre, post := TrimParts(s);
    assert Trim(s) == "" ==> s == pre + post;
  }

  lemma GroupWraps(q: string)
    requires Balanced(Parens, q)
    ensures WrapsWhole(['('] + q + [')'])
  {
    var s := ['('] + q + [')'];
    forall i | 0 <= i < |s| - 1 && s[i] == ')' ensures Depth(Parens, s[..i + 1]) != 0 {
      DepthOfWrapped(Parens, '(', q, ')', i + 1);
    }
  }

  lemma GroupedPrefixDoesNotWrap(p: string, tail: string)
    requires p != "" && p[|p| - 1] == ')' && Balanced(Parens, p) && tail != ""
    ensures !WrapsWhole(p + tail)
  {
    var s, i := p + tail, |p| - 1;
    assert s[i] == ')' && s[..i + 1] == p;
  }

  // ---------- One step of evaluation on printed text ----------

  lemma ShapedTrims(p: string)
    requires Shaped(p)
    ensures Trim(p) == p
  {
    TrimTight(p);
  }

  lemma ResolvePadded<V>(h: Host<V>, pre: string, s: string, post: string)
    requires AllSpace(pre) && AllSpace(post)
    ensures Resolve(h, pre + s + post) == Resolve(h, s)
  {
    TrimIgnoresPadding(pre, s, post);
    hide Trim, AllSpace, WrapsWhole, FirstEquality, OpAt, ResolveAtom, Compare;
    SameTrimSameValue(h, pre + s + post, s);
  }

  lemma SameTrimSameValue<V>(h: Host<V>, a: string, b: string)
    requires Trim(a) == Trim(b)
    ensures Resolve(h, a) == Resolve(h, b)
  {
    hide Trim, WrapsWhole, ResolveAtom, Compare;
  }

  lemma ResolveGroup<V>(h: Host<V>, q: string)
    requires Shaped(['('] + q + [')']) && Balanced(Parens, q)
    ensures Resolve(h, ['('] + q + [')']) == Resolve(h, q)
  {
    var s := ['('] + q + [')'];
    ShapedTrims(s);
    GroupWraps(q);
    assert s[1..|s| - 1] == q;
  }

  lemma ResolveNot<V>(h: Host<V>, q: string)
    requires Shaped("!" + q) && Closed("!" + q)
    ensures Resolve(h, "!" + q) == h.ofBool(!h.truthy(Resolve(h, q)))
  {
    ShapedTrims("!" + q);
    ClosedHasNoEquality("!" + q);
    assert ("!" + q)[1..] == q;
  }

  lemma ResolveAtEquality<V>(h: Host<V>, s: string, l: string, op: Op, r: string)
    requires s == l + OpText(op) + r && s != "" && Trim(s) == s
    requires FirstEquality(s, 0) == Some(|l|) && OpAt(s, |l|) == op
    requires s[0] == '(' ==> !WrapsWhole(s)
    ensures Resolve(h, s) == Compare(h, op, Resolve(h, l), Resolve(h, r))
  {
    assert s[..|l|] == l;
    assert s[|l| + |OpText(op)|..] == r;
  }

  lemma GroupedSideDoesNotWrap(left: string, tail: string)
    requires Shaped(left) && tail != "" && (left[0] == '(' ==> left[|left| - 1] == ')')
    ensures (left + tail)[0] == '(' ==> !WrapsWhole(left + tail)
  {
    if left[0] == '(' { GroupedPrefixDoesNotWrap(left, tail); }
  }

  lemma EqualityReadable(left: string, padLeft: string, op: Op, right: string)
    requires Shaped(left) && Closed(left) && AllSpace(padLeft) && right != "" && right[0] != '='
    requires left[0] == '(' ==> left[|left| - 1] == ')'
    requires Shaped((left + padLeft) + OpText(op) + right)
    ensures var l := left + padLeft;
            var s := l + OpText(op) + right;
            Trim(s) == s && FirstEquality(s, 0) == Some(|l|) && OpAt(s, |l|) == op && (s[0] == '(' ==> !WrapsWhole(s))
  {
    hide *;
    var s := (left + padLeft) + OpText(op) + right;
    ShapedTrims(s);
    EqualityFound(left, padLeft, op, right);
    GroupedSideDoesNotWrap(left, padLeft + OpText(op) + right);
    assert s == left + (padLeft + OpText(op) + right);
  }

  lemma ResolveOther<V>(h: Host<V>, s: string)
    requires Shaped(s) && Closed(s) && s[0] != '(' && s[0] != '!'
    ensures Resolve(h, s) == ResolveAtom(h, s)
  {
    ShapedTrims(s);
    ClosedHasNoEquality(s);
  }

  // ---------- Paths ----------

  lemma {:induction false} PartLengthOf(name: string, tail: string)
    requires forall i :: 0 <= i < |name| ==> IsIdentPart(name[i])
    requires tail != "" ==> !IsIdentPart(tail[0])
    ensures PartLength(name + tail) == |name|
  {
    if name == "" {
      assert name + tail == tail;
    } else {
      assert (name + tail)[1..] == name[1..] + tail;
      PartLengthOf(name[1..], tail);
    }
  }

  lemma IdentLengthOf(name: string, tail: string)
    requires IsIdent(name) && (tail != "" ==> !IsIdentPart(tail[0]))
    ensures IdentLength(name + tail) == |name|
  {
    PartLengthOf(name, tail);
  }

  lemma NameLengthOf(name: string, tail: string)
    requires (IsIdent(name) || IsDigits(name)) && (tail != "" ==> !IsIdentPart(tail[0]))
    ensures NameLength(name + tail) == |name| && name != ""
  {
    if IsIdent(name) {
      IdentLengthOf(name, tail);
    } else {
      DigitLengthOf(name, tail);
    }
  }

  lemma DepthCons(kind: Kind, c: char, rest: string)
    ensures Depth(kind, [c] + rest) == Delta(kind, c) + Depth(kind, rest)
  {
    assert [c][..0] == "";
    DepthConcat(kind, [c], rest);
  }

  /** The depth stays positive on a stretch of text. */
  predicate StaysInside(depth: int, q: string) {
    forall i :: 0 <= i <= |q| ==> depth + Depth(Squares, q[..i]) >= 1
  }

  lemma StaysInsideAfter(depth: int, c: char, rest: string)
    requires StaysInside(depth, [c] + rest)
    ensures depth + Delta(Squares, c) >= 1
    ensures StaysInside(depth + Delta(Squares, c), rest)
  {
    var q := [c] + rest;
    forall i | 0 <= i <= |rest| ensures depth + Delta(Squares, c) + Depth(Squares, rest[..i]) >= 1 {
      assert q[..i + 1] == [c] + rest[..i];
      assert depth + Depth(Squares, q[..i + 1]) >= 1;
      DepthCons(Squares, c, rest[..i]);
    }
    assert rest[..0] == "";
    assert Depth(Squares, rest[..0]) == 0;
  }

  lemma StaysInsideEnds(depth: int, q: string)
    requires StaysInside(depth, q)
    ensures depth + Depth(Squares, q) >= 1
  {
    assert q[..|q|] == q;
  }

  /** Scanning a stretch in which the depth stays positive ends behind it. */
  lemma {:induction false} BracketScan(expr: string, j: nat, q: string, depth: nat)
    requires depth >= 1 && j + |q| <= |expr| && expr[j..j + |q|] == q && StaysInside(depth, q)
    ensures depth + Depth(Squares, q) >= 1
    ensures BracketEnd(expr, j, depth) == BracketEnd(expr, j + |q|, depth + Depth(Squares, q))
    decreases |q|
  {
    StaysInsideEnds(depth, q);
    if q != "" {
      var c, rest := q[0], q[1..];
      assert expr[j] == c;
      assert expr[j + 1..j + 1 + |rest|] == rest;
      assert q == [c] + rest;
      hide Depth, StaysInside;
      StaysInsideAfter(depth, c, rest);
      DepthCons(Squares, c, rest);
      BracketScan(expr, j + 1, rest, depth + Delta(Squares, c));
    }
  }

  lemma BracketFound(expr: string, j: nat, q: string)
    requires Balanced(Squares, q) && j + |q| < |expr| && expr[j..j + |q|] == q && expr[j + |q|] == ']'
    ensures BracketEnd(expr, j, 1) == j + |q|
  {
    BracketScan(expr, j, q, 1);
  }

  lemma DotSlices(expr: string, i: nat, name: string, tail: string)
    requires i <= |expr| && expr[i..] == "." + name + tail
    ensures i + 1 + |name| <= |expr| && expr[i] == '.'
    ensures expr[i + 1..] == name + tail && expr[i + 1..i + 1 + |name|] == name && expr[i + 1 + |name|..] == tail
  {
    var rest := expr[i..];
    assert rest[0] == '.' && rest[1..] == name + tail && rest[1..][|name|..] == tail && rest[1..][..|name|] == name;
  }

  lemma IndexSlices(expr: string, i: nat, q: string, tail: string)
    requires i <= |expr| && expr[i..] == "[" + q + "]" + tail
    ensures i + 1 + |q| < |expr| && expr[i] == '[' && expr[i + 1 + |q|] == ']'
    ensures expr[i + 1..i + 1 + |q|] == q && expr[i + 2 + |q|..] == tail
  {
    var rest := expr[i..];
    assert rest[0] == '[' && rest[1..][..|q|] == q && rest[1 + |q|] == ']' && rest[2 + |q|..] == tail;
  }

  lemma IndexStep<V>(h: Host<V>, expr: string, i: nat, q: string, cur: V)
    requires i + 1 + |q| < |expr| && expr[i] == '[' && expr[i + 1 + |q|] == ']'
    requires expr[i + 1..i + 1 + |q|] == q && Balanced(Squares, q)
    ensures PathFrom(h, expr, i, cur) == PathFrom(h, expr, i + 2 + |q|, Get(h, cur, Resolve(h, q)))
  {
    BracketFound(expr, i + 1, q);
    PathIndex(h, expr, i, cur, i + 1 + |q|);
  }

  lemma IndexIsBalanced(pre: string, key: Expr, post: string)
    requires AllSpace(pre) && AllSpace(post) && WellFormed(key)
    ensures Balanced(Squares, pre + Print(key) + post)
  {
    hide Print, Balanced;
    Shape(key);
    PaddedIsBalanced(pre, Print(key), post);
  }

  lemma AfterName(steps: Steps)
    requires WellFormedSteps(steps)
    ensures PrintSteps(steps) != "" ==> !IsIdentPart(PrintSteps(steps)[0])
  {
    hide PrintSteps;
    StepsShape(steps);
  }

  /** Following printed steps from any position they stand at. */
  lemma {:induction false} StepsResolve<V>(h: Host<V>, expr: string, i: nat, steps: Steps, cur: V)
    requires WellFormedSteps(steps) && i <= |expr| && expr[i..] == PrintSteps(steps)
    ensures PathFrom(h, expr, i, cur) == StepsMeaning(h, cur, steps)
    decreases steps, 0
  {
    hide Resolve, PathFrom, NameLength, Balanced, AllBalanced, Shaped, Print, IsIdent, IsDigits, AllSpace, IsIdentPart, Meaning;
    match steps
    case End =>
      assert |expr[i..]| == |expr| - i;
      PathEnds(h, expr, i, cur);
    case Dot(name, next) =>
      DotSlices(expr, i, name, PrintSteps(next));
      assert name != "" && NameLength(expr[i + 1..]) == |name| by {
        AfterName(next);
        NameLengthOf(name, PrintSteps(next));
      }
      PathDot(h, expr, i, cur, |name|);
      StepsResolve(h, expr, i + 1 + |name|, next, Get(h, cur, h.ofString(name)));
    case Index(pre, key, post, rest) =>
      var q := pre + Print(key) + post;
      IndexSlices(expr, i, q, PrintSteps(rest));
      IndexIsBalanced(pre, key, post);
      IndexStep(h, expr, i, q, cur);
      ResolvePadded(h, pre, Print(key), post);
      Evaluates(h, key);
      StepsResolve(h, expr, i + 2 + |q|, rest, Get(h, cur, Meaning(h, key)));
  }

  lemma WordsAreIdents(s: string)
    requires IsWord(s)
    ensures forall i :: 0 <= i < |s| ==> IsIdentPart(s[i])
  {
  }

  lemma NotALiteral<V>(h: Host<V>, s: string, n: nat)
    requires Shaped(s) && IsIdentStart(s[0]) && n <= |s|
    requires if n == |s| then !IsWord(s) else !IsIdentPart(s[n])
    ensures Literal(h, s).None?
  {
    assert !IsWord(s) by {
      if IsWord(s) { WordsAreIdents(s); }
    }
    assert !IsNumberText(s);
  }

  lemma IdentStarts(head: string)
    requires IsIdent(head)
    ensures head != "" && IsIdentStart(head[0])
  {
  }

  lemma PathText(head: string, steps: Steps)
    requires WellFormed(Path(head, steps))
    ensures var s := head + PrintSteps(steps);
            && Shaped(s) && Closed(s) && IsIdentStart(s[0])
            && IdentLength(s) == |head|
            && (if |head| == |s| then !IsWord(s) else !IsIdentPart(s[|head|]))
  {
    hide PrintSteps, Shaped, Closed, IdentLength;
    var s := head + PrintSteps(steps);
    Shape(Path(head, steps));
    StepsShape(steps);
    AfterName(steps);
    IdentLengthOf(head, PrintSteps(steps));
    IdentStarts(head);
    if |head| == |s| {
      assert s == head;
    }
  }

  lemma PathEvaluates<V>(h: Host<V>, head: string, steps: Steps)
    requires WellFormed(Path(head, steps))
    ensures Resolve(h, Print(Path(head, steps))) == Meaning(h, Path(head, steps))
    decreases steps, 1
  {
    hide Resolve, PathFrom, Literal, Closed, IsIdentPart;
    var s := head + PrintSteps(steps);
    PathText(head, steps);
    ResolveOther(h, s) by { assert IsIdentStart(s[0]); }
    NotALiteral(h, s, |head|);
    assert s[..|head|] == head;
    StepsResolve(h, s, |head|, steps, Get(h, h.vals, h.ofString(head)));
  }

  /** Evaluating the printed form of a tree gives its meaning, for every tree,
      every spacing and every host. */
  lemma {:induction false} Evaluates<V>(h: Host<V>, e: Expr)
    requires WellFormed(e)
    ensures Resolve(h, Print(e)) == Meaning(h, e)
    decreases e
  {
    match e
    case Word(w) => AtomEvaluates(h, e);
    case Number(negative, whole, fraction) => AtomEvaluates(h, e);
    case Quoted(quote, body) => AtomEvaluates(h, e);
    case Path(head, steps) =>
      PathEvaluates(h, head, steps);
    case Group(pre, inner, post) =>
      Shape(e);
      Shape(inner);
      PaddedIsBalanced(pre, Print(inner), post);
      ResolveGroup(h, pre + Print(inner) + post);
      ResolvePadded(h, pre, Print(inner), post);
      Evaluates(h, inner);
    case Not(pad, operand) =>
      Shape(e);
      ResolveNot(h, pad + Print(operand));
      ResolvePaddedLeft(h, pad, Print(operand));
      Evaluates(h, operand);
    case Equals(left, padLeft, op, padRight, right) =>
      EqualityEvaluates(h, left, padLeft, op, padRight, right);
      Evaluates(h, left);
      Evaluates(h, right);
  }

  lemma AtomEvaluates<V>(h: Host<V>, e: Expr)
    requires WellFormed(e) && (e.Word? || e.Number? || e.Quoted?)
    ensures Resolve(h, Print(e)) == Meaning(h, e)
  {
    hide Resolve, Shaped, Closed, IsNumberText;
    Shape(e);
    match e
    case Word(w) => ResolveOther(h, WordText(w));
    case Number(negative, whole, fraction) =>
      NumeralIsNumber(negative, whole, fraction);
      NumberEvaluates(h, Print(e));
    case Quoted(quote, body) =>
      ClosedHasNoEquality([quote] + body + [quote]);
      QuotedIsRead(h, quote, body);
  }

  lemma NumberEvaluates<V>(h: Host<V>, text: string)
    requires IsNumberText(text) && Shaped(text) && Closed(text)
    ensures Resolve(h, text) == h.ofNumber(text)
  {
    NumberChars(text);
    hide Resolve, Shaped, Closed, IsNumberText;
    ResolveOther(h, text);
  }

  lemma PaddedEquality<V>(h: Host<V>, left: string, padLeft: string, op: Op, padRight: string, right: string)
    requires Shaped(left) && Closed(left) && Shaped(right) && AllSpace(padLeft) && AllSpace(padRight)
    requires left[0] == '(' ==> left[|left| - 1] == ')'
    ensures Resolve(h, (left + padLeft) + OpText(op) + (padRight + right))
            == Compare(h, op, Resolve(h, left), Resolve(h, right))
  {
    hide Resolve, WrapsWhole, FirstEquality, OpAt, Closed, Trim, Compare;
    assert (padRight + right)[0] != '=';
    EqualityShape(left, padLeft, op, padRight, right);
    EqualityReadable(left, padLeft, op, padRight + right);
    ResolveAtEquality(h, (left + padLeft) + OpText(op) + (padRight + right), left + padLeft, op, padRight + right);
    ResolvePaddedRight(h, left, padLeft);
    ResolvePaddedLeft(h, padRight, right);
  }

  lemma ResolvePaddedRight<V>(h: Host<V>, s: string, post: string)
    requires AllSpace(post)
    ensures Resolve(h, s + post) == Resolve(h, s)
  {
    ResolvePadded(h, "", s, post);
    assert "" + s + post == s + post;
  }

  lemma ResolvePaddedLeft<V>(h: Host<V>, pre: string, s: string)
    requires AllSpace(pre)
    ensures Resolve(h, pre + s) == Resolve(h, s)
  {
    ResolvePadded(h, pre, s, "");
    assert pre + s + "" == pre + s;
  }

  /** What the printed comparisons give, in terms of what their sides give. */
  lemma EqualityEvaluates<V>(h: Host<V>, left: Expr, padLeft: string, op: Op, padRight: string, right: Expr)
    requires WellFormed(Equals(left, padLeft, op, padRight, right))
    ensures var l, r := Resolve(h, Print(left)), Resolve(h, Print(right));
            Resolve(h, Print(Equals(left, padLeft, op, padRight, right))) ==
            match op
            case StrictEq => h.ofBool(h.strictlyEqual(l, r))
            case StrictNe => h.ofBool(!h.strictlyEqual(l, r))
            case LooseEq => h.ofBool(h.looselyEqual(l, r))
            case LooseNe => h.ofBool(!h.looselyEqual(l, r))
  {
    hide Resolve, Shaped, Closed;
    Shape(left);
    Shape(right);
    StartsAndEnds(left);
    PaddedEquality(h, Print(left), padLeft, op, padRight, Print(right));
  }

  lemma StartsAndEnds(e: Expr)
    requires WellFormed(e) && !e.Equals?
    ensures Print(e) != "" && (Print(e)[0] == '(' ==> Print(e)[|Print(e)| - 1] == ')')
  {
    Shape(e);
  }

  // ---------- What a path gives ----------

  function Then(steps: Steps, last: Steps): Steps {
    match steps
    case End => last
    case Dot(name, next) => Dot(name, Then(next, last))
    case Index(pre, key, post, rest) => Index(pre, key, post, Then(rest, last))
  }

  lemma {:induction false} ThenMeaning<V>(h: Host<V>, cur: V, steps: Steps, last: Steps)
    ensures StepsMeaning(h, cur, Then(steps, last)) == StepsMeaning(h, StepsMeaning(h, cur, steps), last)
  {
    match steps
    case End =>
    case Dot(name, next) =>
      ThenMeaning(h, if h.isNullish(cur) then h.undefinedValue else h.member(cur, h.ofString(name)), next, last);
    case Index(_, key, _, rest) =>
      ThenMeaning(h, if h.isNullish(cur) then h.undefinedValue else h.member(cur, Meaning(h, key)), rest, last);
  }

  lemma {:induction false} ThenWellFormed(steps: Steps, last: Steps)
    requires WellFormedSteps(steps) && WellFormedSteps(last)
    ensures WellFormedSteps(Then(steps, last)) && (!last.End? ==> !Then(steps, last).End?)
  {
    match steps
    case End =>
    case Dot(name, next) => ThenWellFormed(next, last);
    case Index(_, key, _, rest) => ThenWellFormed(rest, last);
  }

  /** A name stands for that member of the values, or for `undefined` when there
      are none. */
  lemma NameGivesMember<V>(h: Host<V>, head: string)
    requires IsIdent(head) && !IsWord(head)
    ensures Resolve(h, head) == if h.isNullish(h.vals) then h.undefinedValue else h.member(h.vals, h.ofString(head))
  {
    hide Resolve, IsIdent;
    Evaluates(h, Path(head, End));
    assert Print(Path(head, End)) == head;
  }

  /** Each further step looks its name, or what stands in its brackets, up in
      what the path before it gives; nothing is found in nothing. */
  lemma LastStepGivesMember<V>(h: Host<V>, head: string, steps: Steps, name: string, pre: string, key: Expr, post: string)
    requires WellFormed(Path(head, steps)) && (IsIdent(name) || IsDigits(name))
    requires AllSpace(pre) && AllSpace(post) && WellFormed(key)
    ensures var value := Resolve(h, Print(Path(head, steps)));
            && Resolve(h, Print(Path(head, Then(steps, Dot(name, End)))))
               == (if h.isNullish(value) then h.undefinedValue else h.member(value, h.ofString(name)))
            && Resolve(h, Print(Path(head, Then(steps, Index(pre, key, post, End)))))
               == (if h.isNullish(value) then h.undefinedValue else h.member(value, Resolve(h, Print(key))))
  {
    hide Resolve, Print, IsIdent, IsDigits, IsWord, AllSpace;
    var first := if h.isNullish(h.vals) then h.undefinedValue else h.member(h.vals, h.ofString(head));
    var dot, index := Dot(name, End), Index(pre, key, post, End);
    ThenWellFormed(steps, dot);
    ThenWellFormed(steps, index);
    ThenMeaning(h, first, steps, dot);
    ThenMeaning(h, first, steps, index);
    Evaluates(h, key);
    Evaluates(h, Path(head, steps));
    Evaluates(h, Path(head, Then(steps, dot)));
    Evaluates(h, Path(head, Then(steps, index)));
  }

  /** Nothing but whitespace stands for `undefined`. */
  lemma BlankIsUndefined<V>(h: Host<V>, s: string)
    requires AllSpace(s)
    ensures Resolve(h, s) == h.undefinedValue
  {
    TrimAllSpace(s);
  }

  // ---------- Matching parentheses ----------

  lemma {:induction false} StaysOpen(e: string, i: nat)
    requires Balanced(Parens, e) && 1 <= i < |e| && e[0] == '(' && WrapsWhole(e)
    ensures Depth(Parens, e[..i]) > 0
  {
    if i == 1 {
      assert e[..1] == ['('] && ['('][..0] == "";
    } else {
      StaysOpen(e, i - 1);
      assert e[..i][..i - 1] == e[..i - 1];
    }
  }

  /** On balanced text from `(` to `)`, the check holds exactly when the first
      parenthesis stays open up to the last character, that is, when dropping
      both leaves balanced text. */
  lemma WrapsWholeMeansMatched(e: string)
    requires Balanced(Parens, e) && |e| >= 2 && e[0] == '(' && e[|e| - 1] == ')'
    ensures WrapsWhole(e) <==> forall i :: 0 < i < |e| ==> Depth(Parens, e[..i]) > 0
    ensures WrapsWhole(e) <==> Balanced(Parens, e[1..|e| - 1])
  {
    var inner := e[1..|e| - 1];
    assert e == ['('] + inner + [')'];
    if WrapsWhole(e) {
      forall i: nat | 0 < i < |e| ensures Depth(Parens, e[..i]) > 0 { StaysOpen(e, i); }
      forall i | 0 <= i <= |inner| ensures Depth(Parens, inner[..i]) >= 0 {
        DepthOfWrapped(Parens, '(', inner, ')', i + 1);
        assert Depth(Parens, e[..i + 1]) > 0;
      }
      DepthOfWrapped(Parens, '(', inner, ')', 1);
    }
    if Balanced(Parens, inner) {
      GroupWraps(inner);
    }
    if forall i :: 0 < i < |e| ==> Depth(Parens, e[..i]) > 0 {
      forall i | 0 <= i < |e| - 1 && e[i] == ')' ensures Depth(Parens, e[..i + 1]) != 0 {
        assert Depth(Parens, e[..i + 1]) > 0;
      }
    }
  }

  // ---------- Quoted text that looks like syntax ----------

  /** A quoted string stands for its body exactly when the scan for an equality
      operator, which does not know about quotes, finds none in it. */
  lemma QuotedTextIff<V(!new)>(h: Host<V>, quote: char, body: string)
    requires quote == '"' || quote == '\''
    requires forall b, s :: h.ofBool(b) != h.ofString(s)
    ensures Resolve(h, [quote] + body + [quote]) == h.ofString(body)
            <==> FirstEquality([quote] + body + [quote], 0).None?
  {
    if FirstEquality([quote] + body + [quote], 0).None? {
      QuotedIsRead(h, quote, body);
    } else {
      var l, op, r := QuotedIsSplit(h, quote, body);
      var b := CompareIsBool(h, op, l, r);
      assert h.ofBool(b) != h.ofString(body);
    }
  }

  /** Quoted text with balanced brackets stands for its body exactly when it
      holds no equality operator outside all brackets. */
  lemma BalancedQuotedTextIff<V(!new)>(h: Host<V>, quote: char, body: string)
    requires quote == '"' || quote == '\''
    requires AllBalanced(body)
    requires forall b, s :: h.ofBool(b) != h.ofString(s)
    ensures Resolve(h, [quote] + body + [quote]) == h.ofString(body) <==> Closed(body)
  {
    hide Resolve, Closed, FirstEquality, AllBalanced;
    QuotedTextIff(h, quote, body);
    OperatorInQuotes(quote, body);
  }

  lemma OperatorInQuotes(quote: char, body: string)
    requires (quote == '"' || quote == '\'') && AllBalanced(body)
    ensures FirstEquality([quote] + body + [quote], 0).None? <==> Closed(body)
  {
    var s := [quote] + body + [quote];
    if Closed(body) {
      QuotedShape(quote, body);
      ClosedHasNoEquality(s);
    } else {
      var i :| 0 <= i < |body| && OperatorStarts(body, i) && Depth(Both, body[..i]) == 0;
      assert s[i + 1] == body[i] && s[i + 2] == body[i + 1];
      assert s[i] == if i == 0 then quote else body[i - 1];
      DepthOfWrapped(Both, quote, body, quote, i + 1);
      TrimNotEmpty(s[..i + 1], 0);
      assert TopLevelAt(s, i + 1);
    }
  }

  lemma CompareIsBool<V>(h: Host<V>, op: Op, l: V, r: V) returns (b: bool)
    ensures Compare(h, op, l, r) == h.ofBool(b)
  {
    b := match op
         case StrictEq => h.strictlyEqual(l, r)
         case StrictNe => !h.strictlyEqual(l, r)
         case LooseEq => h.looselyEqual(l, r)
         case LooseNe => !h.looselyEqual(l, r);
  }

  lemma QuotedTrims(quote: char, body: string)
    requires quote == '"' || quote == '\''
    ensures Trim([quote] + body + [quote]) == [quote] + body + [quote]
  {
    TrimTight([quote] + body + [quote]);
  }

  lemma QuotedLiteral<V>(h: Host<V>, quote: char, body: string)
    requires quote == '"' || quote == '\''
    ensures Literal(h, [quote] + body + [quote]) == Some(h.ofString(body))
  {
    var s := [quote] + body + [quote];
    assert s[1..|s| - 1] == body;
    hide IsNumberText;
    assert !IsNumberText(s) by {
      if IsNumberText(s) { NumberChars(s); }
    }
  }

  lemma QuotedIsRead<V>(h: Host<V>, quote: char, body: string)
    requires (quote == '"' || quote == '\'') && FirstEquality([quote] + body + [quote], 0).None?
    ensures Resolve(h, [quote] + body + [quote]) == h.ofString(body)
  {
    hide Trim, Literal, FirstEquality;
    QuotedTrims(quote, body);
    QuotedLiteral(h, quote, body);
  }

  lemma SplitAtOperator(s: string, i: nat)
    requires TopLevelAt(s, i)
    ensures i + |OpText(OpAt(s, i))| <= |s|
    ensures s == s[..i] + OpText(OpAt(s, i)) + s[i + |OpText(OpAt(s, i))|..]
  {
    hide OpText, OpAt;
    var n := |OpText(OpAt(s, i))|;
    assert s[i..i + n] == OpText(OpAt(s, i));
  }

  lemma QuotedIsSplit<V>(h: Host<V>, quote: char, body: string) returns (l: V, op: Op, r: V)
    requires (quote == '"' || quote == '\'') && FirstEquality([quote] + body + [quote], 0).Some?
    ensures Resolve(h, [quote] + body + [quote]) == Compare(h, op, l, r)
  {
    var s := [quote] + body + [quote];
    hide Trim, TopLevelAt, Compare, Resolve, WrapsWhole, FirstEquality;
    QuotedTrims(quote, body);
    var i := FirstEquality(s, 0).value;
    OperatorFits(s, i);
    SplitAtOperator(s, i);
    op := OpAt(s, i);
    hide OpAt, OpText;
    l, r := Resolve(h, s[..i]), Resolve(h, s[i + |OpText(op)|..]);
    ResolveAtEquality(h, s, s[..i], op, s[i + |OpText(op)|..]);
  }

  /** So `'a==b'` is read as a comparison of two unreadable halves. */
  lemma QuotedEqualityIsMisread<V>(h: Host<V>)
    ensures Resolve(h, "'a==b'") == h.ofBool(h.looselyEqual(h.undefinedValue, h.undefinedValue))
  {
    assert "'a==b'" == ("'a" + "") + OpText(LooseEq) + ("" + "b'");
    PlainShape("'a");
    PlainShape("b'");
    PaddedEquality(h, "'a", "", LooseEq, "", "b'");
    ReadsUndefined(h, "'a");
    ReadsUndefinedAfterName(h);
  }

  lemma ReadsUndefined<V>(h: Host<V>, s: string)
    requires s == "'a"
    ensures Resolve(h, s) == h.undefinedValue
  {
    TrimTight(s);
    assert FirstEquality(s, 0).None?;
  }

  lemma ReadsUndefinedAfterName<V>(h: Host<V>)
    ensures Resolve(h, "b'") == h.undefinedValue
  {
    var s := "b'";
    TrimTight(s);
    assert FirstEquality(s, 0).None?;
    assert s[1..] == "'";
    assert PartLength(s) == 1;
    assert !IsNumberText(s);
  }
}
