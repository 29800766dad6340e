/** Names of tools as MCP clients see them: `server__tool`, both sanitised. */
module McpName {
  import opened Text

  predicate IsNameChar(c: char) {
    'a' <= c <= 'z' || 'A' <= c <= 'Z' || '0' <= c <= '9' || c == '_' || c == '-'
  }

  /** The alphabet of tool names, letter by letter. */
  lemma NameCharIff(c: char)
    ensures IsNameChar(c) <==> c in {
      'a', 'b', 'c', 'd', 'e', 'f', 'g', 'h', 'i', 'j', 'k', 'l', 'm', 'n', 'o', 'p', 'q', 'r', 's', 't', 'u', 'v', 'w', 'x', 'y', 'z',
      'A', 'B', 'C', 'D', 'E', 'F', 'G', 'H', 'I', 'J', 'K', 'L', 'M', 'N', 'O', 'P', 'Q', 'R', 'S', 'T', 'U', 'V', 'W', 'X', 'Y', 'Z',
      '0', '1', '2', '3', '4', '5', '6', '7', '8', '9', '_', '-'}
  {
  }

  /** Each run of other characters becomes one underscore. */
  function Collapse(s: string, inRun: bool): string {
    if s == "" then ""
    else if IsNameChar(s[0]) then [s[0]] + Collapse(s[1..], false)
    else (if inRun then "" else "_") + Collapse(s[1..], true)
  }

  function StripStart(s: string): (r: string)
    ensures |r| <= |s|
  {
    if s != "" && s[0] == '_' then StripStart(s[1..]) else s
  }

  function StripEnd(s: string): (r: string)
    ensures |r| <= |s|
  {
    if s != "" && s[|s| - 1] == '_' then StripEnd(s[..|s| - 1]) else s
  }

  function SanitizeMcpNameSegment(value: string): string {
    var stripped := StripEnd(StripStart(Collapse(value, false)));
    if stripped == "" then "x" else stripped
  }

  function FormatMcpToolName(serverName: string, toolName: string): string {
    SanitizeMcpNameSegment(serverName) + "__" + SanitizeMcpNameSegment(toolName)
  }

  predicate AllNameChars(s: string) {
    forall i :: 0 <= i < |s| ==> IsNameChar(s[i])
  }

  /** What sanitising yields: name characters only, with no underscore at either end. */
  predicate IsSegment(s: string) {
    s != "" && AllNameChars(s) && s[0] != '_' && s[|s| - 1] != '_'
  }

  lemma {:induction false} CollapseChars(s: string, inRun: bool)
    ensures AllNameChars(Collapse(s, inRun))
  {
    if s != "" {
      CollapseChars(s[1..], false);
      CollapseChars(s[1..], true);
    }
  }

  lemma {:induction false} CollapseKeeps(s: string)
    requires AllNameChars(s)
    ensures Collapse(s, false) == s
  {
    if s != "" { CollapseKeeps(s[1..]); }
  }

  lemma {:induction false} StripStartParts(s: string)
    ensures AllNameChars(s) ==> AllNameChars(StripStart(s))
    ensures StripStart(s) != "" ==> StripStart(s)[0] != '_'
  {
    if s != "" && s[0] == '_' { StripStartParts(s[1..]); }
  }

  lemma {:induction false} StripEndParts(s: string)
    ensures AllNameChars(s) ==> AllNameChars(StripEnd(s))
    ensures StripEnd(s) != "" ==> StripEnd(s)[|StripEnd(s)| - 1] != '_' && StripEnd(s)[0] == s[0]
  {
    if s != "" && s[|s| - 1] == '_' { StripEndParts(s[..|s| - 1]); }
  }

  /** Whatever the input, the result is a proper segment; a proper segment is
      left as it is. So sanitising is idempotent. */
  lemma SanitizeYieldsSegments(value: string)
    ensures IsSegment(SanitizeMcpNameSegment(value))
    ensures IsSegment(value) <==> SanitizeMcpNameSegment(value) == value
    ensures SanitizeMcpNameSegment(SanitizeMcpNameSegment(value)) == SanitizeMcpNameSegment(value)
  {
    var collapsed := Collapse(value, false);
    CollapseChars(value, false);
    StripStartParts(collapsed);
    StripEndParts(StripStart(collapsed));
    if IsSegment(value) { CollapseKeeps(value); }
    CollapseKeeps(SanitizeMcpNameSegment(value));
  }

  // ---------- What sanitising keeps ----------

  /** A run of characters that may not stand in a name. */
  predicate Junk(s: string) {
    s != "" && forall i :: 0 <= i < |s| ==> !IsNameChar(s[i])
  }

  /** What is cut off at either end: such characters, and underscores. */
  predicate Edge(s: string) {
    forall i :: 0 <= i < |s| ==> !IsNameChar(s[i]) || s[i] == '_'
  }

  predicate Underscores(s: string) {
    forall i :: 0 <= i < |s| ==> s[i] == '_'
  }

  /** Words with gaps between them. */
  function Spread(words: seq<string>, gaps: seq<string>): string
    requires |words| == |gaps| + 1
  {
    if gaps == [] then words[0] else words[0] + gaps[0] + Spread(words[1..], gaps[1..])
  }

  lemma {:induction false} CollapseWord(word: string, rest: string, inRun: bool)
    requires AllNameChars(word) && word != ""
    ensures Collapse(word + rest, inRun) == word + Collapse(rest, false)
  {
    assert (word + rest)[1..] == word[1..] + rest;
    if |word| > 1 {
      CollapseWord(word[1..], rest, false);
      assert word == [word[0]] + word[1..];
    }
  }

  lemma {:induction false} CollapseJunk(junk: string, rest: string, inRun: bool)
    requires Junk(junk)
    ensures Collapse(junk + rest, inRun) == (if inRun then "" else "_") + Collapse(rest, true)
  {
    assert (junk + rest)[1..] == junk[1..] + rest;
    if |junk| > 1 { CollapseJunk(junk[1..], rest, true); }
  }

  lemma {:induction false} CollapseEdge(edge: string, rest: string, inRun: bool)
    returns (underscores: string, runs: bool)
    requires Edge(edge)
    ensures Underscores(underscores) && Collapse(edge + rest, inRun) == underscores + Collapse(rest, runs)
  {
    if edge == "" {
      underscores, runs := "", inRun;
      assert edge + rest == rest;
    } else {
      assert (edge + rest)[1..] == edge[1..] + rest;
      underscores, runs := CollapseEdge(edge[1..], rest, !IsNameChar(edge[0]));
      if IsNameChar(edge[0]) || !inRun { underscores := "_" + underscores; }
    }
  }

  /** Words with unusable characters between them come out joined by one
      underscore for each gap. */
  lemma {:induction false} CollapseSpread(words: seq<string>, gaps: seq<string>, rest: string, inRun: bool)
    requires |words| == |gaps| + 1
    requires (forall i :: 0 <= i < |words| ==> IsSegment(words[i])) && (forall i :: 0 <= i < |gaps| ==> Junk(gaps[i]))
    ensures Collapse(Spread(words, gaps) + rest, inRun) == Join(words, '_') + Collapse(rest, false)
  {
    if gaps == [] {
      CollapseWord(words[0], rest, inRun);
    } else {
      var more := Spread(words[1..], gaps[1..]);
      assert Spread(words, gaps) + rest == words[0] + (gaps[0] + (more + rest));
      CollapseWord(words[0], gaps[0] + (more + rest), inRun);
      CollapseJunk(gaps[0], more + rest, false);
      CollapseSpread(words[1..], gaps[1..], rest, true);
    }
  }

  lemma {:induction false} StripUnderscores(underscores: string, rest: string)
    requires Underscores(underscores) && (rest != "" ==> rest[0] != '_')
    ensures StripStart(underscores + rest) == rest
  {
    if underscores == "" {
      assert underscores + rest == rest;
    } else {
      assert (underscores + rest)[1..] == underscores[1..] + rest;
      StripUnderscores(underscores[1..], rest);
    }
  }

  lemma {:induction false} StripTrailing(text: string, underscores: string)
    requires Underscores(underscores) && (text != "" ==> text[|text| - 1] != '_')
    ensures StripEnd(text + underscores) == text
  {
    if underscores == "" {
      assert text + underscores == text;
    } else {
      var n := |underscores| - 1;
      assert (text + underscores)[..|text| + n] == text + underscores[..n];
      StripTrailing(text, underscores[..n]);
    }
  }

  lemma {:induction false} JoinedSegments(words: seq<string>)
    requires words != [] && forall i :: 0 <= i < |words| ==> IsSegment(words[i])
    ensures IsSegment(Join(words, '_'))
  {
    if |words| > 1 { JoinedSegments(words[1..]); }
  }

  lemma StripAround(before: string, core: string, after: string)
    requires Underscores(before) && Underscores(after) && IsSegment(core)
    ensures StripEnd(StripStart(before + (core + after))) == core && core != ""
  {
    StripUnderscores(before, core + after);
    StripTrailing(core, after);
  }

  lemma CollapseEnds(edge: string, inRun: bool) returns (underscores: string)
    requires Edge(edge)
    ensures Underscores(underscores) && Collapse(edge, inRun) == underscores
  {
    var runs;
    underscores, runs := CollapseEdge(edge, "", inRun);
    assert edge + "" == edge && Collapse("", runs) == "" && underscores + "" == underscores;
  }

  /** Sanitising keeps the usable words of a name, puts one underscore for each
      run of other characters between them, and drops what stands around them. */
  lemma SanitizeKeepsWords(lead: string, words: seq<string>, gaps: seq<string>, trail: string)
    requires |words| == |gaps| + 1 && Edge(lead) && Edge(trail)
    requires (forall i :: 0 <= i < |words| ==> IsSegment(words[i])) && (forall i :: 0 <= i < |gaps| ==> Junk(gaps[i]))
    ensures SanitizeMcpNameSegment(lead + (Spread(words, gaps) + trail)) == Join(words, '_')
  {
    hide Collapse, StripStart, StripEnd, IsSegment, Junk, Edge, Underscores, Join, Spread;
    var before, runs := CollapseEdge(lead, Spread(words, gaps) + trail, false);
    CollapseSpread(words, gaps, trail, runs);
    var after := CollapseEnds(trail, false);
    JoinedSegments(words);
    StripAround(before, Join(words, '_'), after);
  }

  /** A name without any usable character becomes `x`. */
  lemma UnusableNameIsX(name: string)
    requires Edge(name)
    ensures SanitizeMcpNameSegment(name) == "x"
  {
    hide Collapse;
    var underscores := CollapseEnds(name, false);
    assert underscores + "" == underscores;
    StripUnderscores(underscores, "");
  }

  predicate DoubleAt(s: string, i: nat) {
    i + 1 < |s| && s[i] == '_' && s[i + 1] == '_'
  }

  /** Index of the first double underscore, or the length when there is none. */
  function FirstDouble(s: string, i: nat): (r: nat)
    requires i <= |s|
    ensures i <= r <= |s| && (r < |s| ==> DoubleAt(s, r))
    ensures forall k :: i <= k < r ==> !DoubleAt(s, k)
    decreases |s| - i
  {
    if i == |s| || DoubleAt(s, i) then i else FirstDouble(s, i + 1)
  }

  predicate HasDouble(s: string) {
    exists i: nat :: i < |s| && DoubleAt(s, i)
  }

  /** Cutting the formatted name at its first double underscore recovers both
      segments exactly when the server's segment has none itself. */
  lemma SplitRecoversIff(serverName: string, toolName: string)
    ensures var name := FormatMcpToolName(serverName, toolName);
            var cut := FirstDouble(name, 0);
            && cut + 2 <= |name|
            && (name[..cut] == SanitizeMcpNameSegment(serverName) && name[cut + 2..] == SanitizeMcpNameSegment(toolName)
                <==> !HasDouble(SanitizeMcpNameSegment(serverName)))
  {
    var a, b := SanitizeMcpNameSegment(serverName), SanitizeMcpNameSegment(toolName);
    SanitizeYieldsSegments(serverName);
    hide SanitizeMcpNameSegment;
    CutOfPair(a, b);
  }

  lemma CutOfPair(a: string, b: string)
    requires IsSegment(a)
    ensures var name, cut := a + "__" + b, FirstDouble(a + "__" + b, 0);
            cut + 2 <= |name| && (name[..cut] == a && name[cut + 2..] == b <==> !HasDouble(a))
  {
    var name := a + "__" + b;
    var cut := FirstDouble(name, 0);
    assert DoubleAt(name, |a|);
    assert forall k :: 0 <= k < |a| - 1 ==> (DoubleAt(name, k) <==> DoubleAt(a, k));
    if HasDouble(a) {
      var i: nat :| i < |a| && DoubleAt(a, i);
      assert DoubleAt(name, i);
      assert |name[..cut]| < |a|;
    } else {
      assert name[..|a|] == a && name[|a| + 2..] == b;
    }
  }
}
