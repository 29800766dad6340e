/** Which tools a caller may use: rows for the same tool are merged, a denial
    anywhere wins, and statuses are those of the first row. */
module ToolPermissions {
  import opened Wrappers

  datatype Status = NeedsReview | Active | Disabled
  datatype Permission = Allow | Deny
  datatype ServerStatus = ServerPending | ServerActive | ServerDisabled

  datatype ToolPermission = ToolPermission(
    id: string, status: Status, permission: Permission, serverStatus: ServerStatus)

  predicate ToolIsAllowed(t: ToolPermission) {
    t.status == Active && t.permission == Allow && t.serverStatus == ServerActive
  }

  // ---------- What the result should be ----------

  /** The first row for a tool. */
  function First(rows: seq<ToolPermission>, id: string): Option<ToolPermission> {
    if rows == [] then None
    else if First(rows[..|rows| - 1], id).Some? then First(rows[..|rows| - 1], id)
    else if rows[|rows| - 1].id == id then Some(rows[|rows| - 1])
    else None
  }

  predicate Denied(rows: seq<ToolPermission>, id: string) {
    exists i :: 0 <= i < |rows| && rows[i].id == id && rows[i].permission == Deny
  }

  /** The first row is active on an active server, and no row denies. */
  predicate MayUse(rows: seq<ToolPermission>, id: string) {
    match First(rows, id)
    case None => false
    case Some(t) => t.status == Active && t.serverStatus == ServerActive && !Denied(rows, id)
  }

  /** The tools there are rows for, in the order of their first rows. */
  function Ids(rows: seq<ToolPermission>): seq<string> {
    if rows == [] then []
    else
      var before, last := rows[..|rows| - 1], rows[|rows| - 1];
      Ids(before) + if First(before, last.id).None? then [last.id] else []
  }

  function Usable(rows: seq<ToolPermission>, ids: seq<string>): seq<string> {
    if ids == [] then []
    else Usable(rows, ids[..|ids| - 1]) + if MayUse(rows, ids[|ids| - 1]) then [ids[|ids| - 1]] else []
  }

  predicate Distinct(ids: seq<string>) {
    forall i, j :: 0 <= i < j < |ids| ==> ids[i] != ids[j]
  }

  lemma {:induction false} IdsAreFirstOccurrences(rows: seq<ToolPermission>)
    ensures Distinct(Ids(rows))
    ensures forall id :: id in Ids(rows) <==> First(rows, id).Some?
  {
    if rows != [] {
      IdsAreFirstOccurrences(rows[..|rows| - 1]);
    }
  }

  lemma {:induction false} UsableElements(rows: seq<ToolPermission>, ids: seq<string>)
    ensures forall id :: id in Usable(rows, ids) <==> id in ids && MayUse(rows, id)
    ensures Distinct(ids) ==> Distinct(Usable(rows, ids))
  {
    if ids != [] {
      UsableElements(rows, ids[..|ids| - 1]);
      assert ids == ids[..|ids| - 1] + [ids[|ids| - 1]];
    }
  }

  /** `p` is the first row for a tool. */
  predicate FirstAt(rows: seq<ToolPermission>, id: string, p: nat) {
    p < |rows| && rows[p].id == id && forall q :: 0 <= q < p ==> rows[q].id != id
  }

  /** Tools are listed in the order of their first rows. */
  ghost predicate InOrder(rows: seq<ToolPermission>, ids: seq<string>) {
    forall i, j, p, q :: 0 <= i < j < |ids| && FirstAt(rows, ids[i], p) && FirstAt(rows, ids[j], q) ==> p < q
  }

  lemma FirstAtBefore(rows: seq<ToolPermission>, id: string, p: nat)
    requires rows != [] && FirstAt(rows, id, p)
    ensures if First(rows[..|rows| - 1], id).Some? then FirstAt(rows[..|rows| - 1], id, p) else p == |rows| - 1
  {
    var before := rows[..|rows| - 1];
    FirstIsARow(before, id);
    if First(before, id).Some? {
      var i :| 0 <= i < |before| && before[i].id == id;
      assert rows[i].id == id;
      assert p <= i;
    }
  }

  lemma {:induction false} IdsAreInOrder(rows: seq<ToolPermission>)
    ensures InOrder(rows, Ids(rows))
  {
    if rows != [] {
      var before := rows[..|rows| - 1];
      var earlier, ids := Ids(before), Ids(rows);
      IdsAreInOrder(before);
      IdsAreFirstOccurrences(before);
      hide First;
      forall i, j, p: nat, q: nat | 0 <= i < j < |ids| && FirstAt(rows, ids[i], p) && FirstAt(rows, ids[j], q)
        ensures p < q
      {
        assert ids[i] == earlier[i] && ids[i] in earlier;
        FirstAtBefore(rows, ids[i], p);
        FirstAtBefore(rows, ids[j], q);
        if j < |earlier| {
          assert ids[j] == earlier[j] && ids[j] in earlier;
        }
      }
    }
  }

  lemma {:induction false} UsableKeepsOrder(rows: seq<ToolPermission>, ids: seq<string>)
    requires InOrder(rows, ids)
    ensures InOrder(rows, Usable(rows, ids))
  {
    if ids != [] {
      var n := |ids| - 1;
      UsableKeepsOrder(rows, ids[..n]);
      var kept, before := Usable(rows, ids), Usable(rows, ids[..n]);
      UsableElements(rows, ids[..n]);
      forall i, j, p: nat, q: nat | 0 <= i < j < |kept| && FirstAt(rows, kept[i], p) && FirstAt(rows, kept[j], q) ensures p < q {
        if j == |before| {
          assert kept[i] == before[i] && before[i] in before;
          var k :| 0 <= k < n && ids[k] == kept[i];
          assert kept[j] == ids[n];
        }
      }
    }
  }

  /** The allowed tools are, each once and in the order of their first rows,
      exactly those that may be used. */
  lemma AllowedExactly(rows: seq<ToolPermission>)
    ensures Distinct(Usable(rows, Ids(rows)))
    ensures forall id :: id in Usable(rows, Ids(rows)) <==> MayUse(rows, id)
    ensures InOrder(rows, Usable(rows, Ids(rows)))
  {
    hide Distinct, InOrder;
    IdsAreFirstOccurrences(rows);
    UsableElements(rows, Ids(rows));
    IdsAreInOrder(rows);
    UsableKeepsOrder(rows, Ids(rows));
  }

  // ---------- The merge and the filter ----------

  /** The row a tool is merged into. */
  function MergedRow(rows: seq<ToolPermission>, id: string): ToolPermission
    requires First(rows, id).Some?
  {
    var first := First(rows, id).value;
    if Denied(rows, id) then first.(permission := Deny) else first
  }

  lemma {:induction false} FirstIsARow(rows: seq<ToolPermission>, id: string)
    ensures First(rows, id).Some? ==> exists i :: 0 <= i < |rows| && rows[i] == First(rows, id).value && rows[i].id == id
    ensures First(rows, id).None? ==> forall i :: 0 <= i < |rows| ==> rows[i].id != id
  {
    if rows != [] {
      FirstIsARow(rows[..|rows| - 1], id);
    }
  }

  lemma DeniedGrows(rows: seq<ToolPermission>, row: ToolPermission, id: string)
    ensures Denied(rows + [row], id) <==> Denied(rows, id) || (row.id == id && row.permission == Deny)
  {
    var all := rows + [row];
    if Denied(rows, id) {
      var i :| 0 <= i < |rows| && rows[i].id == id && rows[i].permission == Deny;
      assert all[i] == rows[i];
    }
    assert all[|rows|] == row;
  }

  lemma MergedRowGrows(rows: seq<ToolPermission>, row: ToolPermission, id: string)
    ensures First(rows + [row], id) ==
            if First(rows, id).Some? then First(rows, id) else if row.id == id then Some(row) else None
    ensures First(rows, id).Some? ==>
              MergedRow(rows + [row], id) ==
              if row.id == id && row.permission == Deny then MergedRow(rows, id).(permission := Deny) else MergedRow(rows, id)
    ensures First(rows, id).None? && row.id == id ==> MergedRow(rows + [row], id) == row
  {
    assert (rows + [row])[..|rows|] == rows;
    DeniedGrows(rows, row, id);
    FirstIsARow(rows, id);
  }

  lemma MergedRowsGrow(rows: seq<ToolPermission>, row: ToolPermission)
    ensures forall id :: First(rows + [row], id) ==
                         if First(rows, id).Some? then First(rows, id) else if row.id == id then Some(row) else None
    ensures forall id :: First(rows, id).Some? ==>
                           MergedRow(rows + [row], id) ==
                           if row.id == id && row.permission == Deny then MergedRow(rows, id).(permission := Deny)
                           else MergedRow(rows, id)
    ensures First(rows, row.id).None? ==> MergedRow(rows + [row], row.id) == row
  {
    hide First, MergedRow;
    forall id {
      MergedRowGrows(rows, row, id);
    }
  }

  /** A map that remembers the order in which its keys were set. */
  method MergeByToolId(rows: seq<ToolPermission>) returns (merged: seq<ToolPermission>)
    ensures forall id :: id in Ids(rows) ==> First(rows, id).Some?
    ensures |merged| == |Ids(rows)|
    ensures forall i :: 0 <= i < |merged| ==> Ids(rows)[i] in Ids(rows) && merged[i] == MergedRow(rows, Ids(rows)[i])
  {
    var order: seq<string> := [];
    var byId: map<string, ToolPermission> := map[];
    for k := 0 to |rows|
      invariant order == Ids(rows[..k])
      invariant forall id :: id in order <==> id in byId
      invariant forall id :: id in byId <==> First(rows[..k], id).Some?
      invariant forall id :: id in byId ==> byId[id] == MergedRow(rows[..k], id)
    {
      var tool := rows[k];
      assert rows[..k + 1] == rows[..k] + [tool];
      assert rows[..k + 1][..k] == rows[..k];
      MergedRowsGrow(rows[..k], tool);
      if tool.id !in byId {
        order := order + [tool.id];
        byId := byId[tool.id := tool];
      } else if tool.permission == Deny {
        byId := byId[tool.id := byId[tool.id].(permission := Deny)];
      }
    }
    assert rows[..|rows|] == rows;
    IdsAreFirstOccurrences(rows);
    merged := seq(|order|, i requires 0 <= i < |order| && order[i] in byId => byId[order[i]]);
  }

  /** `getAllowedTools`: the tools that may be used, in first-occurrence order. */
  method GetAllowedTools(rows: seq<ToolPermission>) returns (ids: seq<string>)
    ensures ids == Usable(rows, Ids(rows))
  {
    var merged := MergeByToolId(rows);
    ghost var all := Ids(rows);
    ids := [];
    for i := 0 to |merged|
      invariant ids == Usable(rows, all[..i])
    {
      assert all[..i + 1][..i] == all[..i];
      assert all[i] in all;
      FirstIsARow(rows, all[i]);
      assert ToolIsAllowed(merged[i]) <==> MayUse(rows, all[i]);
      if ToolIsAllowed(merged[i]) {
        ids := ids + [merged[i].id];
      }
    }
    assert all[..|all|] == all;
  }

  // ---------- How the result reacts to rows ----------

  lemma {:induction false} FirstOfConcat(a: seq<ToolPermission>, b: seq<ToolPermission>, id: string)
    ensures First(a + b, id) == if First(a, id).Some? then First(a, id) else First(b, id)
  {
    if b == [] {
      assert a + b == a;
    } else {
      FirstOfConcat(a, b[..|b| - 1], id);
      assert (a + b)[..|a + b| - 1] == a + b[..|b| - 1];
    }
  }

  lemma DeniedWithRow(rows: seq<ToolPermission>, p: nat, row: ToolPermission, id: string)
    requires p <= |rows| && row.permission == Deny
    ensures Denied(rows[..p] + [row] + rows[p..], id) <==> Denied(rows, id) || id == row.id
  {
    var more := rows[..p] + [row] + rows[p..];
    assert more[p] == row;
    if Denied(rows, id) {
      var i :| 0 <= i < |rows| && rows[i].id == id && rows[i].permission == Deny;
      assert more[if i < p then i else i + 1] == rows[i];
    }
    if Denied(more, id) && id != row.id {
      var i :| 0 <= i < |more| && more[i].id == id && more[i].permission == Deny;
      assert more[i] == rows[if i < p then i else i - 1];
    }
  }

  lemma FirstWithRow(rows: seq<ToolPermission>, p: nat, row: ToolPermission, id: string)
    requires p <= |rows| && id != row.id
    ensures First(rows[..p] + [row] + rows[p..], id) == First(rows, id)
  {
    var before, after := rows[..p], rows[p..];
    assert rows == before + after;
    assert First([row], id) == None by { assert [row][..0] == []; }
    hide First;
    FirstOfConcat(before, after, id);
    FirstOfConcat(before + [row], after, id);
    FirstOfConcat(before, [row], id);
  }

  /** A denying row, wherever it is put and whatever its statuses, takes away
      its own tool and changes nothing for any other. */
  lemma DenyingRowRemovesItsTool(rows: seq<ToolPermission>, p: nat, row: ToolPermission, id: string)
    requires p <= |rows| && row.permission == Deny
    ensures var more := rows[..p] + [row] + rows[p..];
            MayUse(more, id) <==> MayUse(rows, id) && id != row.id
  {
    hide First, Denied;
    DeniedWithRow(rows, p, row, id);
    if id != row.id { FirstWithRow(rows, p, row, id); }
  }

  predicate IsOn(t: ToolPermission) {
    t.status == Active && t.serverStatus == ServerActive
  }

  /** All rows for a tool are on, or all are off. */
  predicate Agree(rows: seq<ToolPermission>, id: string) {
    forall i, j :: 0 <= i < |rows| && 0 <= j < |rows| && rows[i].id == id && rows[j].id == id ==>
      (IsOn(rows[i]) <==> IsOn(rows[j]))
  }

  function Front(rows: seq<ToolPermission>, i: nat): seq<ToolPermission>
    requires i < |rows|
  {
    [rows[i]] + (rows[..i] + rows[i + 1..])
  }

  lemma FrontPermutes(rows: seq<ToolPermission>, i: nat)
    requires i < |rows|
    ensures multiset(Front(rows, i)) == multiset(rows)
  {
    assert rows == rows[..i] + ([rows[i]] + rows[i + 1..]);
  }

  lemma SameRows(rows: seq<ToolPermission>, other: seq<ToolPermission>)
    requires multiset(rows) == multiset(other)
    ensures forall i :: 0 <= i < |rows| ==> rows[i] in other
    ensures forall i :: 0 <= i < |other| ==> other[i] in rows
  {
    forall t ensures t in rows <==> t in other { assert t in multiset(rows) <==> t in multiset(other); }
  }

  lemma DenialIgnoresOrder(rows: seq<ToolPermission>, other: seq<ToolPermission>, id: string)
    requires multiset(rows) == multiset(other)
    ensures Denied(rows, id) <==> Denied(other, id)
  {
    SameRows(rows, other);
  }

  /** A tool that no row denies follows whichever of its rows is put first. */
  lemma FirstRowDecides(rows: seq<ToolPermission>, i: nat)
    requires i < |rows| && !Denied(rows, rows[i].id)
    ensures multiset(Front(rows, i)) == multiset(rows)
    ensures MayUse(Front(rows, i), rows[i].id) <==> IsOn(rows[i])
  {
    FrontPermutes(rows, i);
    DenialIgnoresOrder(rows, Front(rows, i), rows[i].id);
    FirstOfConcat([rows[i]], rows[..i] + rows[i + 1..], rows[i].id);
    assert First([rows[i]], rows[i].id) == Some(rows[i]) by { assert [rows[i]][..0] == []; }
  }

  lemma AgreeingOrderDoesNotMatter(rows: seq<ToolPermission>, other: seq<ToolPermission>, id: string)
    requires multiset(rows) == multiset(other) && (Denied(rows, id) || Agree(rows, id))
    ensures MayUse(rows, id) <==> MayUse(other, id)
  {
    FirstIsARow(rows, id);
    FirstIsARow(other, id);
    DenialIgnoresOrder(rows, other, id);
    SameRows(rows, other);
    hide First, Denied;
    if First(rows, id).Some? && First(other, id).Some? {
      var i :| 0 <= i < |rows| && rows[i] == First(rows, id).value && rows[i].id == id;
      var k :| 0 <= k < |other| && other[k] == First(other, id).value && other[k].id == id;
      var j :| 0 <= j < |rows| && rows[j] == other[k];
    }
  }

  /** Whether a tool may be used is independent of the order of the rows exactly
      when some row denies it or its rows are all on or all off. */
  lemma OrderDoesNotMatterIff(rows: seq<ToolPermission>, id: string)
    ensures (forall other :: multiset(other) == multiset(rows) ==> (MayUse(other, id) <==> MayUse(rows, id)))
            <==> Denied(rows, id) || Agree(rows, id)
  {
    hide MayUse, Denied;
    if Denied(rows, id) || Agree(rows, id) {
      forall other | multiset(other) == multiset(rows) ensures MayUse(other, id) <==> MayUse(rows, id) {
        AgreeingOrderDoesNotMatter(rows, other, id);
      }
    } else {
      var i, j :| 0 <= i < |rows| && 0 <= j < |rows| && rows[i].id == id && rows[j].id == id
                  && IsOn(rows[i]) && !IsOn(rows[j]);
      FirstRowDecides(rows, i);
      FirstRowDecides(rows, j);
      assert MayUse(Front(rows, i), id) && !MayUse(Front(rows, j), id);
    }
  }

  /** The same for the whole result: no permutation of the rows adds or removes
      a tool exactly when that holds of every tool. */
  lemma ResultIgnoresOrderIff(rows: seq<ToolPermission>)
    ensures (forall other, id :: multiset(other) == multiset(rows) ==>
               (id in Usable(other, Ids(other)) <==> id in Usable(rows, Ids(rows))))
            <==> forall id :: Denied(rows, id) || Agree(rows, id)
  {
    hide MayUse, Denied, Agree, Usable, Ids;
    if forall id :: Denied(rows, id) || Agree(rows, id) {
      forall other, id | multiset(other) == multiset(rows)
        ensures id in Usable(other, Ids(other)) <==> id in Usable(rows, Ids(rows))
      {
        AllowedExactly(rows);
        AllowedExactly(other);
        AgreeingOrderDoesNotMatter(rows, other, id);
      }
    } else {
      var id :| !(Denied(rows, id) || Agree(rows, id));
      OrderDoesNotMatterIff(rows, id);
      var other :| multiset(other) == multiset(rows) && MayUse(other, id) != MayUse(rows, id);
      AllowedExactly(rows);
      AllowedExactly(other);
      assert (id in Usable(other, Ids(other))) != (id in Usable(rows, Ids(rows)));
    }
  }
}
