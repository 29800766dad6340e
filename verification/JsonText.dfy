/** The text `JSON.stringify` gives for strings, arrays and fixed records. Each
    printer here is a prefix code: printed values followed by anything can be
    told apart, so a printed value is never a proper beginning of another's. */
module JsonText {
  function HexDigit(n: nat): char
    requires n < 16
  {
    "0123456789abcdef"[n]
  }

  function Escape(c: char): string {
    if c == '"' then "\\\""
    else if c == '\\' then "\\\\"
    else if c == '\U{0008}' then "\\b"
    else if c == '\U{000C}' then "\\f"
    else if c == '\n' then "\\n"
    else if c == '\r' then "\\r"
    else if c == '\t' then "\\t"
    else if c < ' ' then "\\u00" + [HexDigit(c as int / 16), HexDigit(c as int % 16)]
    else [c]
  }

  /** The escaped characters and the closing quote. */
  function Body(s: string): string {
    if s == "" then "\"" else Escape(s[0]) + Body(s[1..])
  }

  function Quote(s: string): (r: string)
    ensures r != "" && r[0] == '"'
  {
    "\"" + Body(s)
  }

  /** The elements still to come and the closing bracket. */
  function Rest<T>(item: T -> string, xs: seq<T>): string {
    if xs == [] then "]" else "," + item(xs[0]) + Rest(item, xs[1..])
  }

  function Inside<T>(item: T -> string, xs: seq<T>): string {
    if xs == [] then "]" else item(xs[0]) + Rest(item, xs[1..])
  }

  function List<T>(item: T -> string, xs: seq<T>): (r: string)
    ensures r != "" && r[0] == '['
  {
    "[" + Inside(item, xs)
  }

  /** Two printed values, each with text behind it, are only equal when the
      values are. An array also needs elements that do not look like its end. */
  ghost predicate PrefixCode<T(!new)>(item: T -> string) {
    && (forall a: T, b: T, x, y :: item(a) + x == item(b) + y ==> a == b && x == y)
    && (forall a: T :: item(a) != "" && item(a)[0] != ']')
  }

  lemma EscapeIsPrefixCode(a: char, b: char, x: string, y: string)
    requires Escape(a) + x == Escape(b) + y
    ensures a == b && x == y
  {
    var ea, eb := Escape(a), Escape(b);
    var s := ea + x;
    assert ea[0] == s[0] == eb[0];
    if s[0] == '\\' {
      assert |ea| >= 2 && |eb| >= 2;
      assert ea[1] == s[1] == eb[1];
      if s[1] == 'u' {
        assert |ea| == |eb| == 6;
        assert ea[4] == s[4] == eb[4] && ea[5] == s[5] == eb[5];
        HexDigitsDiffer(a as int / 16, b as int / 16);
        HexDigitsDiffer(a as int % 16, b as int % 16);
        assert a as int == b as int;
      }
    }
    assert a == b;
    assert x == s[|ea|..] && y == s[|eb|..];
  }

  lemma HexDigitsDiffer(m: nat, n: nat)
    requires m < 16 && n < 16 && HexDigit(m) == HexDigit(n)
    ensures m == n
  {
  }

  /** Only the end of a string starts with a quote. */
  lemma BodyStart(s: string)
    ensures Body(s) != "" && (Body(s)[0] == '"' <==> s == "")
  {
  }

  lemma {:induction false} BodyIsPrefixCode(a: string, b: string, x: string, y: string)
    requires Body(a) + x == Body(b) + y
    ensures a == b && x == y
  {
    hide Escape;
    BodyStart(a);
    BodyStart(b);
    assert Body(a)[0] == (Body(a) + x)[0] == (Body(b) + y)[0] == Body(b)[0];
    if a == "" {
      assert (Body(a) + x)[1..] == x && (Body(b) + y)[1..] == y;
    } else {
      var a', b' := Body(a[1..]), Body(b[1..]);
      assert Escape(a[0]) + (a' + x) == Body(a) + x;
      assert Escape(b[0]) + (b' + y) == Body(b) + y;
      EscapeIsPrefixCode(a[0], b[0], a' + x, b' + y);
      BodyIsPrefixCode(a[1..], b[1..], x, y);
      assert a == [a[0]] + a[1..] && b == [b[0]] + b[1..];
    }
  }

  lemma QuoteTellsApart(a: string, b: string, x: string, y: string)
    requires Quote(a) + x == Quote(b) + y
    ensures a == b && x == y
  {
    hide Body;
    assert (Quote(a) + x)[1..] == Body(a) + x;
    assert (Quote(b) + y)[1..] == Body(b) + y;
    BodyIsPrefixCode(a, b, x, y);
  }

  /** A JSON string is a prefix code whatever characters it holds. */
  lemma QuoteIsPrefixCode()
    ensures PrefixCode(Quote)
  {
    hide Quote;
    forall a, b, x, y | Quote(a) + x == Quote(b) + y ensures a == b && x == y {
      QuoteTellsApart(a, b, x, y);
    }
  }

  lemma ItemsTellApart<T(!new)>(item: T -> string, a: T, b: T, x: string, y: string)
    requires PrefixCode(item) && item(a) + x == item(b) + y
    ensures a == b && x == y
  {
  }

  lemma {:induction false} RestTellsApart<T(!new)>(item: T -> string, a: seq<T>, b: seq<T>, x: string, y: string)
    requires PrefixCode(item)
    requires Rest(item, a) + x == Rest(item, b) + y
    ensures a == b && x == y
  {
    hide PrefixCode;
    if a == [] || b == [] {
      assert (Rest(item, a) + x)[0] == (Rest(item, b) + y)[0];
      assert a == b;
      assert (Rest(item, a) + x)[1..] == x && (Rest(item, b) + y)[1..] == y;
    } else {
      var a', b' := Rest(item, a[1..]), Rest(item, b[1..]);
      assert (Rest(item, a) + x)[1..] == item(a[0]) + (a' + x);
      assert (Rest(item, b) + y)[1..] == item(b[0]) + (b' + y);
      ItemsTellApart(item, a[0], b[0], a' + x, b' + y);
      RestTellsApart(item, a[1..], b[1..], x, y);
      assert a == [a[0]] + a[1..] && b == [b[0]] + b[1..];
    }
  }

  lemma InsideStart<T(!new)>(item: T -> string, xs: seq<T>)
    requires PrefixCode(item)
    ensures Inside(item, xs) != "" && (Inside(item, xs)[0] == ']' <==> xs == [])
  {
  }

  /** A JSON array of prefix codes is one. */
  lemma ListTellsApart<T(!new)>(item: T -> string, a: seq<T>, b: seq<T>, x: string, y: string)
    requires PrefixCode(item)
    requires List(item, a) + x == List(item, b) + y
    ensures a == b && x == y
  {
    hide PrefixCode, Rest;
    var s, t := Inside(item, a) + x, Inside(item, b) + y;
    assert (List(item, a) + x)[1..] == s && (List(item, b) + y)[1..] == t;
    InsideStart(item, a);
    InsideStart(item, b);
    assert Inside(item, a)[0] == s[0] == t[0] == Inside(item, b)[0];
    if a == [] {
      assert s[1..] == x && t[1..] == y;
    } else {
      var a', b' := Rest(item, a[1..]), Rest(item, b[1..]);
      assert s == item(a[0]) + (a' + x) && t == item(b[0]) + (b' + y);
      ItemsTellApart(item, a[0], b[0], a' + x, b' + y);
      RestTellsApart(item, a[1..], b[1..], x, y);
      assert a == [a[0]] + a[1..] && b == [b[0]] + b[1..];
    }
  }
}
