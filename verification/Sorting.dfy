/** Sorting of strings, as `Array.prototype.sort` does without a comparator. The
    result depends only on which strings there are, and how often. */
module Sorting {
  /** The order of strings by their characters. */
  predicate Leq(a: string, b: string) {
    if a == "" then true
    else if b == "" then false
    else if a[0] == b[0] then Leq(a[1..], b[1..])
    else a[0] < b[0]
  }

  /** At the first difference, if there is one. */
  predicate DiffersAt(a: string, b: string, i: nat) {
    i < |a| && i < |b| && a[..i] == b[..i] && a[i] < b[i]
  }

  /** It is the lexicographic order. */
  lemma {:induction false} LeqIsLexicographic(a: string, b: string)
    ensures Leq(a, b) <==> a <= b || exists i: nat :: DiffersAt(a, b, i)
  {
    if a != "" && b != "" {
      if a[0] == b[0] {
        LeqIsLexicographic(a[1..], b[1..]);
        assert a == [a[0]] + a[1..] && b == [b[0]] + b[1..];
        if i: nat :| DiffersAt(a[1..], b[1..], i) {
          assert a[..i + 1] == [a[0]] + a[1..][..i] && b[..i + 1] == [b[0]] + b[1..][..i];
          assert DiffersAt(a, b, i + 1);
        }
        if i: nat :| DiffersAt(a, b, i) {
          assert a[1..][..i - 1] == a[..i][1..] && b[1..][..i - 1] == b[..i][1..];
          assert DiffersAt(a[1..], b[1..], i - 1);
        }
      } else {
        assert DiffersAt(a, b, 0) <==> a[0] < b[0];
        assert forall i: nat :: DiffersAt(a, b, i) && i > 0 ==> a[..i][0] == b[..i][0];
      }
    }
  }

  predicate Sorted(ss: seq<string>) {
    forall i, j :: 0 <= i <= j < |ss| ==> Leq(ss[i], ss[j])
  }

  function Insert(x: string, ss: seq<string>): seq<string> {
    if ss == [] || Leq(x, ss[0]) then [x] + ss else [ss[0]] + Insert(x, ss[1..])
  }

  function Sort(ss: seq<string>): seq<string> {
    if ss == [] then [] else Insert(ss[0], Sort(ss[1..]))
  }

  lemma {:induction false} LeqReflexive(a: string)
    ensures Leq(a, a)
  {
    if a != "" { LeqReflexive(a[1..]); }
  }

  lemma {:induction false} LeqTotal(a: string, b: string)
    ensures Leq(a, b) || Leq(b, a)
  {
    if a != "" && b != "" && a[0] == b[0] { LeqTotal(a[1..], b[1..]); }
  }

  lemma {:induction false} LeqAntisymmetric(a: string, b: string)
    requires Leq(a, b) && Leq(b, a)
    ensures a == b
  {
    if a != "" && b != "" {
      LeqAntisymmetric(a[1..], b[1..]);
      assert a == [a[0]] + a[1..] && b == [b[0]] + b[1..];
    }
  }

  lemma {:induction false} LeqTransitive(a: string, b: string, c: string)
    requires Leq(a, b) && Leq(b, c)
    ensures Leq(a, c)
  {
    if a != "" && a[0] == b[0] && b[0] == c[0] { LeqTransitive(a[1..], b[1..], c[1..]); }
  }

  lemma SortedPrepend(x: string, ss: seq<string>)
    requires Sorted(ss)
    requires forall i :: 0 <= i < |ss| ==> Leq(x, ss[i])
    ensures Sorted([x] + ss)
  {
    hide Leq;
    LeqReflexive(x);
  }

  lemma HeadIsLeast(x: string, ss: seq<string>)
    requires Sorted(ss) && ss != [] && Leq(x, ss[0])
    ensures forall i :: 0 <= i < |ss| ==> Leq(x, ss[i])
  {
    hide Leq;
    forall i | 0 <= i < |ss| ensures Leq(x, ss[i]) { LeqTransitive(x, ss[0], ss[i]); }
  }

  lemma {:induction false} InsertKeepsElements(x: string, ss: seq<string>)
    ensures multiset(Insert(x, ss)) == multiset(ss) + multiset{x}
  {
    hide Leq;
    if ss != [] {
      InsertKeepsElements(x, ss[1..]);
      assert ss == [ss[0]] + ss[1..];
    }
  }

  lemma {:induction false} InsertSorts(x: string, ss: seq<string>)
    requires Sorted(ss)
    ensures Sorted(Insert(x, ss))
  {
    hide Leq;
    if ss == [] {
      SortedPrepend(x, ss);
    } else if Leq(x, ss[0]) {
      HeadIsLeast(x, ss);
      SortedPrepend(x, ss);
    } else {
      var rest := Insert(x, ss[1..]);
      InsertSorts(x, ss[1..]);
      InsertKeepsElements(x, ss[1..]);
      LeqTotal(x, ss[0]);
      forall i | 0 <= i < |rest| ensures Leq(ss[0], rest[i]) {
        assert rest[i] in multiset(rest);
      }
      SortedPrepend(ss[0], rest);
    }
  }

  lemma {:induction false} SortSorts(ss: seq<string>)
    ensures Sorted(Sort(ss)) && multiset(Sort(ss)) == multiset(ss)
  {
    hide Leq, Insert;
    if ss != [] {
      SortSorts(ss[1..]);
      InsertSorts(ss[0], Sort(ss[1..]));
      InsertKeepsElements(ss[0], Sort(ss[1..]));
      assert ss == [ss[0]] + ss[1..];
    }
  }

  lemma {:induction false} SortedIsUnique(a: seq<string>, b: seq<string>)
    requires Sorted(a) && Sorted(b) && multiset(a) == multiset(b)
    ensures a == b
  {
    assert |a| == |multiset(a)| == |multiset(b)| == |b|;
    if a != [] {
      assert a[0] in multiset(b) && b[0] in multiset(a);
      LeqAntisymmetric(a[0], b[0]);
      assert a == [a[0]] + a[1..] && b == [b[0]] + b[1..];
      assert multiset(a[1..]) == multiset(a) - multiset{a[0]};
      SortedIsUnique(a[1..], b[1..]);
    }
  }
}
