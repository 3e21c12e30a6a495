/** The stored folder tree: rows with parent ids and paths, what keeps it well
    formed, and what each operation does to it (internal/storage/folders.go as its
    callers in internal/desktop use it). */
module FolderTree {
  import opened Options
  import opened FolderPaths

  /** `role`: the role the user assigned by hand, or "". */
  datatype Row = Row(account: int, name: string, path: string, delim: string, parent: Option<int>,
                     attributes: seq<string>, role: string)

  type Rows = map<int, Row>

  /** The one hierarchy delimiter each account's server uses. */
  type Delims = map<int, string>

  predicate SamePlace(a: Row, b: Row) {
    a.account == b.account && a.path == b.path
  }

  predicate RowOk(rows: Rows, delims: Delims, i: int)
    requires i in rows
  {
    var r := rows[i];
    && r.account in delims && r.delim == delims[r.account] && IsDelimiter(r.delim)
    && r.name == Leaf(r.path, r.delim)
    && (r.parent.Some? ==> HangsUnder(rows, r, r.parent.value))
  }

  predicate HangsUnder(rows: Rows, r: Row, p: int) {
    p in rows && rows[p].account == r.account && Parent(r.path, r.delim) == Some(rows[p].path)
  }

  predicate Distinct(rows: Rows) {
    forall i, j | i in rows && j in rows :: SamePlace(rows[i], rows[j]) ==> i == j
  }

  predicate WellFormed(rows: Rows, delims: Delims) {
    (forall i | i in rows :: RowOk(rows, delims, i)) && Distinct(rows)
  }

  predicate Taken(rows: Rows, account: int, path: string) {
    exists i | i in rows :: rows[i].account == account && rows[i].path == path
  }

  ghost predicate Childless(rows: Rows, id: int) {
    forall i :: i in rows ==> rows[i].parent != Some(id)
  }

  // ----- what being well formed means

  /** A child's path is its parent's, the delimiter and one segment. */
  lemma ChildPath(rows: Rows, delims: Delims, i: int)
    requires WellFormed(rows, delims) && i in rows && rows[i].parent.Some?
    ensures rows[i].parent.value in rows
    ensures var p := rows[rows[i].parent.value];
            && p.account == rows[i].account
            && |rows[i].delim| == 1
            && rows[i].path == p.path + rows[i].delim + rows[i].name
            && rows[i].delim[0] !in rows[i].name
            && |p.path| < |rows[i].path|
  {
    assert RowOk(rows, delims, i);
    CutParts(rows[i].path, rows[i].delim);
  }

  ghost predicate Climbs(rows: Rows, chain: seq<int>) {
    forall k :: 0 <= k < |chain| - 1 ==> chain[k] in rows && rows[chain[k]].parent == Some(chain[k + 1])
  }

  /** Climbing from row to parent never comes back to the same row. */
  lemma {:induction false} NoCycle(rows: Rows, delims: Delims, chain: seq<int>)
    requires WellFormed(rows, delims) && 2 <= |chain| && Climbs(rows, chain)
    ensures chain[|chain| - 1] in rows && chain[0] in rows
    ensures |rows[chain[|chain| - 1]].path| < |rows[chain[0]].path|
    ensures chain[|chain| - 1] != chain[0]
  {
    assert chain[0] in rows && rows[chain[0]].parent == Some(chain[0 + 1]);
    ChildPath(rows, delims, chain[0]);
    if 2 < |chain| {
      assert forall k :: 0 <= k < |chain[1..]| ==> chain[1..][k] == chain[k + 1];
      NoCycle(rows, delims, chain[1..]);
    }
  }

  // ----- adding and dropping a row

  lemma InsertKeeps(rows: Rows, delims: Delims, id: int, r: Row)
    requires WellFormed(rows, delims) && id !in rows && !Taken(rows, r.account, r.path)
    requires RowOk(rows[id := r], delims, id)
    ensures WellFormed(rows[id := r], delims)
  {
    var after := rows[id := r];
    forall i | i in after ensures RowOk(after, delims, i) {
      if i != id {
        assert RowOk(rows, delims, i);
      }
    }
  }

  lemma DropKeeps(rows: Rows, delims: Delims, id: int)
    requires WellFormed(rows, delims) && Childless(rows, id)
    ensures WellFormed(rows - {id}, delims)
  {
    forall i | i in rows - {id} ensures RowOk(rows - {id}, delims, i) {
      assert RowOk(rows, delims, i);
    }
  }

  /** ON DELETE CASCADE: what goes when the rows `doomed` go. */
  function Cascade(rows: Rows, doomed: set<int>): (all: set<int>)
    ensures doomed <= all
    decreases rows.Keys - doomed
  {
    var more := doomed + (set i | i in rows && rows[i].parent.Some? && rows[i].parent.value in doomed);
    if more == doomed then doomed else Cascade(rows, more)
  }

  ghost predicate ClimbsTo(rows: Rows, chain: seq<int>, i: int, doomed: set<int>) {
    chain != [] && chain[0] == i && Climbs(rows, chain) && chain[|chain| - 1] in doomed
  }

  /** It takes exactly the rows from which climbing leads to one of the doomed. */
  lemma CascadeExactlyWhen(rows: Rows, doomed: set<int>, i: int)
    ensures i in Cascade(rows, doomed) <==> exists chain :: ClimbsTo(rows, chain, i, doomed)
  {
    if i in Cascade(rows, doomed) {
      var chain := CascadeClimbs(rows, doomed, i);
      assert ClimbsTo(rows, chain, i, doomed);
    }
    if chain :| ClimbsTo(rows, chain, i, doomed) {
      CascadeTakes(rows, doomed, chain);
    }
  }

  lemma {:induction false} CascadeClimbs(rows: Rows, doomed: set<int>, i: int) returns (chain: seq<int>)
    requires i in Cascade(rows, doomed)
    ensures ClimbsTo(rows, chain, i, doomed)
    decreases rows.Keys - doomed
  {
    chain := [i];
    var more := doomed + (set j | j in rows && rows[j].parent.Some? && rows[j].parent.value in doomed);
    if more != doomed {
      chain := CascadeClimbs(rows, more, i);
      var top := chain[|chain| - 1];
      if top !in doomed {
        chain := chain + [rows[top].parent.value];
      }
    }
  }

  lemma {:induction false} CascadeTakes(rows: Rows, doomed: set<int>, chain: seq<int>)
    requires chain != [] && Climbs(rows, chain) && chain[|chain| - 1] in doomed
    ensures chain[0] in Cascade(rows, doomed)
  {
    if 1 < |chain| {
      var above := chain[1..];
      assert forall k :: 0 <= k < |above| ==> above[k] == chain[k + 1];
      CascadeTakes(rows, doomed, above);
      CascadeClosed(rows, doomed, chain[0]);
    }
  }

  lemma {:induction false} CascadeClosed(rows: Rows, doomed: set<int>, i: int)
    requires i in rows && rows[i].parent.Some? && rows[i].parent.value in Cascade(rows, doomed)
    ensures i in Cascade(rows, doomed)
    decreases rows.Keys - doomed
  {
    var more := doomed + (set j | j in rows && rows[j].parent.Some? && rows[j].parent.value in doomed);
    if more != doomed {
      CascadeClosed(rows, more, i);
    }
  }

  lemma ChildlessGoesAlone(rows: Rows, id: int)
    requires Childless(rows, id)
    ensures Cascade(rows, {id}) == {id}
  {
    var children := set i | i in rows && rows[i].parent.Some? && rows[i].parent.value in {id};
    forall i | i in rows ensures i !in children {
      assert rows[i].parent != Some(id);
    }
    assert {id} + children == {id};
  }

  // ----- renaming

  /** The path prefix of everything below a renamed folder replaced: what the
      statement of `FolderSql` is for. */
  function SubtreeMoved(rows: Rows, account: int, from: string, to: string, d: string): Rows {
    map i | i in rows :: RowMoved(rows[i], account, from, to, d)
  }

  function RowMoved(r: Row, account: int, from: string, to: string, d: string): Row {
    if r.account == account && Inside(r.path, from, d) then r.(path := Moved(r.path, from, to, d)) else r
  }

  /** Some path would then be stored twice. */
  predicate MoveClashes(rows: Rows, account: int, from: string, to: string, d: string) {
    exists i, j | i in rows && j in rows ::
      && rows[i].account == account && Inside(rows[i].path, from, d)
      && rows[j].account == account && !Inside(rows[j].path, from, d)
      && rows[j].path == Moved(rows[i].path, from, to, d)
  }

  function NewPath(rows: Rows, id: int, name: string): string
    requires id in rows
  {
    RenamedPath(rows[id].path, name, rows[id].delim)
  }

  /** The subtree has followed, the row has not. */
  function HalfRenamed(rows: Rows, id: int, name: string): Rows
    requires id in rows
  {
    SubtreeMoved(rows, rows[id].account, rows[id].path, NewPath(rows, id, name), rows[id].delim)
  }

  predicate Clashes(rows: Rows, id: int, name: string)
    requires id in rows
  {
    MoveClashes(rows, rows[id].account, rows[id].path, NewPath(rows, id, name), rows[id].delim)
  }

  /** A rename run to its end: the subtree follows, the row gets its new name. */
  function Renamed(rows: Rows, id: int, name: string): Rows
    requires id in rows
  {
    HalfRenamed(rows, id, name)[id := rows[id].(name := name, path := NewPath(rows, id, name))]
  }

  lemma MovedStaysDistinct(rows: Rows, account: int, from: string, to: string, d: string)
    requires Distinct(rows) && !MoveClashes(rows, account, from, to, d)
    ensures Distinct(SubtreeMoved(rows, account, from, to, d))
  {
    var after := SubtreeMoved(rows, account, from, to, d);
    forall i, j | i in after && j in after && SamePlace(after[i], after[j]) ensures i == j {
      if rows[i].account == account && Inside(rows[i].path, from, d) && Inside(rows[j].path, from, d) {
        MovedInjective(rows[i].path, rows[j].path, from, to, d);
      }
      assert SamePlace(rows[i], rows[j]);
    }
  }

  predicate IsMoved(r: Row, account: int, from: string, d: string) {
    r.account == account && Inside(r.path, from, d)
  }

  /** Where a row's parent stands once the subtree has moved, the renamed row apart. */
  lemma ParentMoves(rows: Rows, delims: Delims, id: int, to: string, i: int)
    requires WellFormed(rows, delims) && id in rows && i in rows && i != id
    requires rows[i].parent.Some? && rows[i].parent != Some(id)
    ensures var after := SubtreeMoved(rows, rows[id].account, rows[id].path, to, rows[id].delim);
            HangsUnder(after, after[i], rows[i].parent.value) && after[i].name == Leaf(after[i].path, after[i].delim)
  {
    var r, p, top := rows[i], rows[i].parent.value, rows[id];
    assert RowOk(rows, delims, i) && RowOk(rows, delims, p) && RowOk(rows, delims, id);
    CutParts(r.path, r.delim);
    if r.account == top.account {
      ParentOfInside(r.path, top.path, top.delim);
      if IsMoved(r, top.account, top.path, top.delim) {
        assert !SamePlace(rows[p], rows[id]);
        MovedCuts(r.path, top.path, to, top.delim);
      }
    }
  }

  lemma MovedLeaf(rows: Rows, delims: Delims, id: int, to: string, i: int)
    requires WellFormed(rows, delims) && id in rows && i in rows
    ensures var after := SubtreeMoved(rows, rows[id].account, rows[id].path, to, rows[id].delim);
            after[i].name == Leaf(after[i].path, after[i].delim)
  {
    assert RowOk(rows, delims, i) && RowOk(rows, delims, id);
    if IsMoved(rows[i], rows[id].account, rows[id].path, rows[id].delim) {
      MovedCuts(rows[i].path, rows[id].path, to, rows[id].delim);
    }
  }

  /** A direct child of the renamed row ends up hanging under the new path. */
  lemma ChildFollows(rows: Rows, delims: Delims, id: int, to: string, i: int)
    requires WellFormed(rows, delims) && id in rows && i in rows && rows[i].parent == Some(id)
    ensures var after := SubtreeMoved(rows, rows[id].account, rows[id].path, to, rows[id].delim);
            rows[i].account == rows[id].account && Parent(after[i].path, rows[id].delim) == Some(to)
  {
    assert RowOk(rows, delims, i) && RowOk(rows, delims, id);
    CutParts(rows[i].path, rows[i].delim);
    ParentOfInside(rows[i].path, rows[id].path, rows[id].delim);
    MovedCuts(rows[i].path, rows[id].path, to, rows[id].delim);
  }

  lemma RenamedRowOk(rows: Rows, delims: Delims, id: int, name: string, i: int)
    requires WellFormed(rows, delims) && id in rows && i in rows
    requires SingleSegment(name, rows[id].delim)
    ensures RowOk(Renamed(rows, id, name), delims, i)
  {
    var top, after := rows[id], Renamed(rows, id, name);
    var to := RenamedPath(top.path, name, top.delim);
    assert RowOk(rows, delims, i) && RowOk(rows, delims, id);
    if i == id {
      RenamedPathCuts(top.path, name, top.delim);
    } else {
      MovedLeaf(rows, delims, id, to, i);
      if rows[i].parent == Some(id) {
        ChildFollows(rows, delims, id, to, i);
      } else if rows[i].parent.Some? {
        ParentMoves(rows, delims, id, to, i);
      }
    }
  }

  /** Another row is stored at the path. */
  predicate PathHeld(rows: Rows, id: int, account: int, path: string) {
    exists j | j in rows :: j != id && rows[j].account == account && rows[j].path == path
  }

  /** A complete rename keeps the tree well formed. */
  lemma RenameKeeps(rows: Rows, delims: Delims, id: int, name: string)
    requires WellFormed(rows, delims) && id in rows && SingleSegment(name, rows[id].delim)
    requires !Clashes(rows, id, name)
    requires !PathHeld(HalfRenamed(rows, id, name), id, rows[id].account, NewPath(rows, id, name))
    ensures WellFormed(Renamed(rows, id, name), delims)
  {
    forall i | i in rows ensures RowOk(Renamed(rows, id, name), delims, i) {
      RenamedRowOk(rows, delims, id, name, i);
    }
    MovedStaysDistinct(rows, rows[id].account, rows[id].path, NewPath(rows, id, name), rows[id].delim);
  }

  /** With the subtree moved and the row not, the tree is broken if and only if some
      row hangs under the renamed one. */
  lemma HalfRenameBreaksExactlyWhen(rows: Rows, delims: Delims, id: int, name: string)
    requires WellFormed(rows, delims) && id in rows && SingleSegment(name, rows[id].delim) && name != rows[id].name
    requires !Clashes(rows, id, name)
    ensures WellFormed(HalfRenamed(rows, id, name), delims) <==> Childless(rows, id)
  {
    var r, to := rows[id], NewPath(rows, id, name);
    var after := HalfRenamed(rows, id, name);
    assert RowOk(rows, delims, id);
    RenamedPathCuts(r.path, name, r.delim);
    if Childless(rows, id) {
      MovedStaysDistinct(rows, r.account, r.path, to, r.delim);
      forall i | i in after ensures RowOk(after, delims, i) {
        HalfRenamedRowOk(rows, delims, id, to, i);
      }
    } else {
      var i :| i in rows && rows[i].parent == Some(id);
      ChildFollows(rows, delims, id, to, i);
      assert !RowOk(after, delims, i);
    }
  }

  lemma HalfRenamedRowOk(rows: Rows, delims: Delims, id: int, to: string, i: int)
    requires WellFormed(rows, delims) && id in rows && i in rows && Childless(rows, id)
    ensures RowOk(SubtreeMoved(rows, rows[id].account, rows[id].path, to, rows[id].delim), delims, i)
  {
    assert RowOk(rows, delims, i);
    MovedLeaf(rows, delims, id, to, i);
    if rows[i].parent.Some? {
      if i == id {
      } else {
        ParentMoves(rows, delims, id, to, i);
      }
    }
  }

  /** Moving the subtree neither takes the new path nor frees it. */
  lemma NewPathStays(rows: Rows, delims: Delims, id: int, name: string)
    requires WellFormed(rows, delims) && id in rows && SingleSegment(name, rows[id].delim) && name != rows[id].name
    ensures var r, half := rows[id], HalfRenamed(rows, id, name);
            var there := r.(path := NewPath(rows, id, name));
            && half[id] == r
            && (forall j :: j in rows ==> (SamePlace(half[j], there) <==> SamePlace(rows[j], there)))
            && (forall j :: j in rows ==> !IsMoved(half[j], r.account, r.path, r.delim))
  {
    var r, to := rows[id], NewPath(rows, id, name);
    assert RowOk(rows, delims, id);
    forall j | j in rows && IsMoved(rows[j], r.account, r.path, r.delim)
      ensures Moved(rows[j].path, r.path, to, r.delim) != to && rows[j].path != to
      ensures !Inside(Moved(rows[j].path, r.path, to, r.delim), r.path, r.delim)
    {
      MovedIsOutside(rows[j].path, r.path, name, r.delim);
    }
  }

  // ----- deleting

  /** The folder and everything nested under it, by path. */
  function Subtree(rows: Rows, id: int): set<int>
    requires id in rows
  {
    set i | i in rows && (i == id || IsMoved(rows[i], rows[id].account, rows[id].path, rows[id].delim))
  }
}
