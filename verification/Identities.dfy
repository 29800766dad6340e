/** From the identity keys of a caller to the text that is hashed, and exactly
    which identities share that text. */
module Identities {
  import opened Text
  import opened Sorting

  /** The identity keys, trimmed, without the blank ones. */
  function Normalize(identityKeys: seq<string>): seq<string> {
    if identityKeys == [] then []
    else
      var k := Trim(identityKeys[0]);
      (if |k| > 0 then [k] else []) + Normalize(identityKeys[1..])
  }

  /** What is hashed. */
  function FingerprintInput(identityKeys: seq<string>): string {
    var joined := Join(Sort(Normalize(identityKeys)), '|');
    if joined == "" then "anonymous" else joined
  }

  // ---------- What does not matter ----------

  lemma SameKeysSameText(a: seq<string>, b: seq<string>)
    requires multiset(Normalize(a)) == multiset(Normalize(b))
    ensures FingerprintInput(a) == FingerprintInput(b)
  {
    hide Sort, Sorted, Normalize;
    SortSorts(Normalize(a));
    SortSorts(Normalize(b));
    SortedIsUnique(Sort(Normalize(a)), Sort(Normalize(b)));
  }

  /** Padding a key with whitespace, and inserting blank keys, changes nothing. */
  lemma {:induction false} PaddingIsIgnored(keys: seq<string>, i: nat, pre: string, post: string, blank: string)
    requires i < |keys| && AllSpace(pre) && AllSpace(post) && AllSpace(blank)
    ensures Normalize(keys[i := pre + keys[i] + post]) == Normalize(keys)
    ensures Normalize(keys[..i] + [blank] + keys[i..]) == Normalize(keys)
  {
    var padded, more := keys[i := pre + keys[i] + post], keys[..i] + [blank] + keys[i..];
    TrimIgnoresPadding(pre, keys[i], post);
    TrimAllSpace(blank);
    if i == 0 {
      assert padded[1..] == keys[1..];
      assert more[1..] == keys;
    } else {
      PaddingIsIgnored(keys[1..], i - 1, pre, post, blank);
      assert padded[1..] == keys[1..][i - 1 := pre + keys[1..][i - 1] + post];
      assert more[1..] == keys[1..][..i - 1] + [blank] + keys[1..][i - 1..];
    }
  }

  // ---------- Normalised keys ----------

  predicate AllTight(keys: seq<string>) {
    forall i :: 0 <= i < |keys| ==> Tight(keys[i])
  }

  lemma {:induction false} NormalizeIsTight(keys: seq<string>)
    ensures AllTight(Normalize(keys))
  {
    if keys != [] {
      NormalizeIsTight(keys[1..]);
      var pre, post := TrimParts(keys[0]);
    }
  }

  lemma {:induction false} NormalizeTight(keys: seq<string>)
    requires AllTight(keys)
    ensures Normalize(keys) == keys
  {
    if keys != [] {
      assert Tight(keys[0]);
      TrimTight(keys[0]);
      NormalizeTight(keys[1..]);
    }
  }

  lemma SortedKeys(keys: seq<string>)
    ensures var n := Sort(Normalize(keys));
            && AllTight(n) && Sorted(n) && multiset(n) == multiset(Normalize(keys)) && |n| == |Normalize(keys)|
  {
    hide Sort, Sorted, Tight;
    var n := Sort(Normalize(keys));
    SortSorts(Normalize(keys));
    NormalizeIsTight(keys);
    assert |multiset(n)| == |multiset(Normalize(keys))|;
    forall i | 0 <= i < |n| ensures Tight(n[i]) {
      assert n[i] in multiset(n);
    }
  }

  lemma {:induction false} JoinIsTight(parts: seq<string>)
    requires parts != [] && AllTight(parts)
    ensures Tight(Join(parts, '|'))
  {
    assert Tight(parts[0]);
    if |parts| > 1 { JoinIsTight(parts[1..]); }
  }

  // ---------- Which identities share their text ----------

  /** The pieces of the keys between bars. */
  function Pieces(parts: seq<string>): seq<string> {
    if parts == [] then [] else SplitAt(parts[0], '|') + Pieces(parts[1..])
  }

  function FingerprintPieces(keys: seq<string>): seq<string> {
    var n := Sort(Normalize(keys));
    if n == [] then ["anonymous"] else Pieces(n)
  }

  predicate NoBars(parts: seq<string>) {
    forall i :: 0 <= i < |parts| ==> '|' !in parts[i]
  }

  lemma {:induction false} SplitHasNoBars(s: string)
    ensures NoBars(SplitAt(s, '|')) && Join(SplitAt(s, '|'), '|') == s
    decreases |s|
  {
    var i := IndexOf(s, '|');
    if i == |s| {
      assert s[..i] == s;
    } else {
      SplitHasNoBars(s[i + 1..]);
      assert ([s[..i]] + SplitAt(s[i + 1..], '|'))[1..] == SplitAt(s[i + 1..], '|');
      assert s == s[..i] + ['|'] + s[i + 1..];
    }
  }

  lemma {:induction false} JoinConcat(a: seq<string>, b: seq<string>)
    requires a != [] && b != []
    ensures Join(a + b, '|') == Join(a, '|') + ['|'] + Join(b, '|')
  {
    assert (a + b)[1..] == a[1..] + b;
    if |a| > 1 { JoinConcat(a[1..], b); }
  }

  lemma {:induction false} PiecesJoin(parts: seq<string>)
    requires parts != []
    ensures Pieces(parts) != [] && NoBars(Pieces(parts)) && Join(Pieces(parts), '|') == Join(parts, '|')
  {
    hide SplitAt;
    SplitHasNoBars(parts[0]);
    if |parts| == 1 {
      assert Pieces(parts) == SplitAt(parts[0], '|');
    } else {
      PiecesJoin(parts[1..]);
      JoinConcat(SplitAt(parts[0], '|'), Pieces(parts[1..]));
    }
  }

  lemma TextOfPieces(keys: seq<string>)
    ensures FingerprintInput(keys) == Join(FingerprintPieces(keys), '|')
    ensures SplitAt(FingerprintInput(keys), '|') == FingerprintPieces(keys)
  {
    hide SplitAt, Sort, Pieces, Normalize, Tight;
    var n := Sort(Normalize(keys));
    SortedKeys(keys);
    if n == [] {
      assert NoBars(["anonymous"]);
      SplitJoin(["anonymous"], '|');
    } else {
      JoinIsTight(n);
      assert Join(n, '|') != "" by { NotEmpty(Join(n, '|')); }
      PiecesJoin(n);
      SplitJoin(Pieces(n), '|');
    }
  }

  lemma NotEmpty(s: string)
    requires Tight(s)
    ensures s != ""
  {
  }

  /** Two identities are hashed from the same text exactly when their sorted
      keys, cut at every bar, are the same pieces; no keys at all count as the
      one key `anonymous`. */
  lemma IdentitiesShareTextIff(a: seq<string>, b: seq<string>)
    ensures FingerprintInput(a) == FingerprintInput(b) <==> FingerprintPieces(a) == FingerprintPieces(b)
  {
    hide FingerprintInput, FingerprintPieces;
    TextOfPieces(a);
    TextOfPieces(b);
  }

  lemma {:induction false} PiecesWithoutBars(parts: seq<string>)
    requires NoBars(parts)
    ensures Pieces(parts) == parts
  {
    if parts != [] {
      SplitJoin(parts[..1], '|');
      PiecesWithoutBars(parts[1..]);
    }
  }

  predicate OnlyAnonymous(keys: seq<string>) {
    Normalize(keys) == [] || Normalize(keys) == ["anonymous"]
  }

  /** Between identities whose keys contain no `|`, equal text means equal keys,
      with the one exception of no key at all and the single key `anonymous`. */
  lemma IdentitiesAreApart(a: seq<string>, b: seq<string>)
    requires forall k :: k in Normalize(a) || k in Normalize(b) ==> '|' !in k
    ensures FingerprintInput(a) == FingerprintInput(b)
            <==> multiset(Normalize(a)) == multiset(Normalize(b)) || (OnlyAnonymous(a) && OnlyAnonymous(b))
  {
    hide FingerprintInput, Sort, Normalize, Sorted, AllTight;
    IdentitiesShareTextIff(a, b);
    PiecesAreKeys(a);
    PiecesAreKeys(b);
    if multiset(Normalize(a)) == multiset(Normalize(b)) { SameKeysSameText(a, b); }
    SortedKeys(a);
    SortedKeys(b);
    OneSorted(a, "anonymous");
    OneSorted(b, "anonymous");
  }

  lemma PiecesAreKeys(keys: seq<string>)
    requires forall k :: k in Normalize(keys) ==> '|' !in k
    ensures FingerprintPieces(keys) == if Normalize(keys) == [] then ["anonymous"] else Sort(Normalize(keys))
  {
    hide Sort, Normalize, Pieces, Sorted;
    var n := Sort(Normalize(keys));
    SortedKeys(keys);
    forall i | 0 <= i < |n| ensures '|' !in n[i] { assert n[i] in multiset(n); }
    PiecesWithoutBars(n);
  }

  lemma OneSorted(keys: seq<string>, k: string)
    ensures Sort(Normalize(keys)) == [k] <==> Normalize(keys) == [k]
  {
    hide Normalize;
    SortedKeys(keys);
    if |Normalize(keys)| == 1 {
      assert Normalize(keys)[1..] == [];
      assert Sort(Normalize(keys)) == [Normalize(keys)[0]];
    }
  }

  // ---------- Which identities are ambiguous ----------

  /** Another identity is hashed from the same text. */
  ghost predicate Ambiguous(a: seq<string>) {
    exists b :: FingerprintInput(b) == FingerprintInput(a) && multiset(Normalize(b)) != multiset(Normalize(a))
  }

  /** A bar at `i` cuts a key into two keys, in sorted order. */
  predicate CutsAt(k: string, i: nat) {
    && i < |k| && k[i] == '|'
    && Tight(k[..i]) && Tight(k[i + 1..]) && Leq(k[..i], k[i + 1..])
  }

  predicate CanBeCut(k: string) {
    exists i :: 0 <= i < |k| && CutsAt(k, i)
  }

  /** Any two keys or more share their text with the single key that is their
      join, so the collision is not a matter of particular keys. */
  lemma JoinedKeyCollides(a: seq<string>)
    requires |Normalize(a)| >= 2
    ensures var joined := [Join(Sort(Normalize(a)), '|')];
            FingerprintInput(joined) == FingerprintInput(a) && |Normalize(joined)| == 1
    ensures Ambiguous(a)
  {
    hide Sort, Normalize, Tight, Sorted;
    var n := Sort(Normalize(a));
    var text := Join(n, '|');
    SortedKeys(a);
    JoinIsTight(n);
    NotEmpty(text);
    NormalizeTight([text]);
    OneSorted([text], text);
    assert Join([text], '|') == text;
    assert |multiset(Normalize([text]))| == 1 && |multiset(Normalize(a))| >= 2;
  }

  lemma AnonymousCollides(a: seq<string>)
    requires OnlyAnonymous(a)
    ensures Ambiguous(a)
  {
    hide Sort, Tight, Normalize;
    var none, one: seq<string> := [], ["anonymous"];
    AnonymousTexts();
    OneSorted(a, "anonymous");
    SortedKeys(a);
    if Normalize(a) == [] {
      assert FingerprintInput(a) == "anonymous";
      assert "anonymous" in multiset(Normalize(one));
      assert multiset(Normalize(one)) != multiset(Normalize(a));
    } else {
      assert FingerprintInput(a) == "anonymous";
      assert "anonymous" in multiset(Normalize(a));
      assert multiset(Normalize(none)) != multiset(Normalize(a));
    }
  }

  lemma AnonymousTexts()
    ensures Normalize([]) == [] && FingerprintInput([]) == "anonymous"
    ensures Normalize(["anonymous"]) == ["anonymous"] && FingerprintInput(["anonymous"]) == "anonymous"
  {
    NormalizeTight(["anonymous"]);
    OneSorted(["anonymous"], "anonymous");
  }

  lemma CutCollides(a: seq<string>, i: nat)
    requires |Normalize(a)| == 1 && CutsAt(Normalize(a)[0], i)
    ensures Ambiguous(a)
  {
    var k := Normalize(a)[0];
    var b := [k[..i], k[i + 1..]];
    NormalizeTight(b);
    TwoSorted(k[..i], k[i + 1..]);
    OneSorted(a, k);
    hide Sort, Normalize;
    assert Normalize(a) == [k];
    assert b[1..] == [k[i + 1..]];
    assert Join(b, '|') == k[..i] + ['|'] + k[i + 1..] == k;
    assert |multiset(Normalize(b))| == 2 && |multiset(Normalize(a))| == 1;
    assert FingerprintInput(b) == FingerprintInput(a);
  }

  lemma TwoSorted(l: string, r: string)
    requires Leq(l, r)
    ensures Sort([l, r]) == [l, r]
  {
    assert [l, r][1..] == [r] && [r][1..] == [];
    assert Sort([r]) == [r];
  }

  lemma {:induction false} LeqPrefix(a: string, b: string)
    ensures Leq(a, a + b)
  {
    if a != "" {
      LeqPrefix(a[1..], b);
      assert (a + b)[1..] == a[1..] + b;
    }
  }

  lemma {:induction false} FirstLeqJoin(n: seq<string>, a: string)
    requires n != [] && Leq(a, n[0])
    ensures Leq(a, Join(n, '|'))
  {
    var tail := if |n| == 1 then "" else ['|'] + Join(n[1..], '|');
    assert Join(n, '|') == n[0] + tail;
    hide Leq, Join;
    LeqPrefix(n[0], tail);
    LeqTransitive(a, n[0], n[0] + tail);
  }

  /** A join of two keys or more, in sorted order, can be cut behind the first. */
  lemma JoinCanBeCut(n: seq<string>)
    requires |n| >= 2 && AllTight(n) && Sorted(n)
    ensures CanBeCut(Join(n, '|'))
  {
    var k, i, rest := Join(n, '|'), |n[0]|, Join(n[1..], '|');
    assert k == n[0] + ['|'] + rest;
    assert Leq(n[0], n[1]) && Tight(n[0]) && AllTight(n[1..]);
    hide Leq, Join, Tight, Sorted, AllTight;
    JoinIsTight(n[1..]);
    FirstLeqJoin(n[1..], n[0]);
    assert k[..i] == n[0] && k[i + 1..] == rest && k[i] == '|';
    assert CutsAt(k, i);
  }

  lemma SingleKeyIsApart(a: seq<string>, b: seq<string>)
    requires |Normalize(a)| == 1 && Normalize(a)[0] != "anonymous" && !CanBeCut(Normalize(a)[0])
    requires FingerprintInput(b) == FingerprintInput(a)
    ensures multiset(Normalize(b)) == multiset(Normalize(a))
  {
    hide Sort, Normalize, Sorted, Tight, CanBeCut;
    var k := Normalize(a)[0];
    var m := Sort(Normalize(b));
    SortedKeys(a);
    SortedKeys(b);
    assert Normalize(a) == [k];
    OneSorted(a, k);
    NormalizeIsTight(a);
    NotEmpty(k);
    assert FingerprintInput(a) == k;
    if m != [] {
      JoinIsTight(m);
      NotEmpty(Join(m, '|'));
      assert Join(m, '|') == k;
      if |m| >= 2 { JoinCanBeCut(m); }
      assert m == [k];
    }
  }

  /** An identity can be confused with another exactly when it does not have one
      key, or its key is the word `anonymous`, or some bar cuts its key into two
      keys in sorted order. */
  lemma AmbiguousIff(a: seq<string>)
    ensures Ambiguous(a) <==>
            |Normalize(a)| != 1 || Normalize(a)[0] == "anonymous" || CanBeCut(Normalize(a)[0])
  {
    hide Normalize, FingerprintInput, CutsAt;
    var n := Normalize(a);
    if |n| >= 2 {
      JoinedKeyCollides(a);
    } else if n == [] || n[0] == "anonymous" {
      assert n == [] || n == ["anonymous"];
      AnonymousCollides(a);
    } else if CanBeCut(n[0]) {
      var i :| 0 <= i < |n[0]| && CutsAt(n[0], i);
      CutCollides(a, i);
    } else {
      forall b | FingerprintInput(b) == FingerprintInput(a) ensures multiset(Normalize(b)) == multiset(n) {
        SingleKeyIsApart(a, b);
      }
    }
  }
}
