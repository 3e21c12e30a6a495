/** Mailbox management and the refresh of the stored tree from the server's list
    (internal/desktop/bind_folders.go, bind_folder_refresh.go,
    bind_account_setup.go). Server answers come in as parameters; a store call may
    fail, and then the operation stops where it is. */
module Folders {
  import opened Bytes
  import opened Options
  import opened FolderPaths
  import opened FolderTree
  import opened FolderRoles
  import opened SqlText
  import opened FolderSql
  import opened SqlRename
  import opened RenameBreaks
  import opened Sorting

  datatype Folder = Folder(id: int, row: Row)

  // ----- the store

  /** The next call that consults the store's answers fails. */
  predicate Refused(faults: seq<bool>) {
    faults != [] && faults[0]
  }

  function Later(faults: seq<bool>): seq<bool> {
    if faults == [] then [] else faults[1..]
  }

  class Store {
    var rows: Rows
    var nextId: int
    var faults: seq<bool>

    /** The tree is well formed and every id was once handed out. */
    predicate Valid(delims: Delims)
      reads this
    {
      WellFormed(rows, delims) && 0 < nextId && forall i | i in rows :: 0 < i < nextId
    }

    constructor (faults: seq<bool>)
      ensures rows == map[] && nextId == 1 && this.faults == faults
      ensures forall delims :: Valid(delims)
    {
      rows, nextId, this.faults := map[], 1, faults;
    }

    method Works() returns (ok: bool)
      modifies this`faults
      ensures ok <==> !Refused(old(faults))
      ensures faults == Later(old(faults))
    {
      ok := true;
      if faults != [] {
        ok, faults := !faults[0], faults[1..];
      }
    }

    method Insert(row: Row) returns (id: Option<int>)
      modifies this
      ensures faults == Later(old(faults))
      ensures id.Some? <==> !Refused(old(faults)) && !Taken(old(rows), row.account, row.path)
      ensures id.None? ==> rows == old(rows) && nextId == old(nextId)
      ensures id.Some? ==> id.value == old(nextId) && nextId == old(nextId) + 1 && rows == old(rows)[id.value := row]
    {
      var ok := Works();
      id := None;
      if ok && !Taken(rows, row.account, row.path) {
        id := Some(nextId);
        rows, nextId := rows[nextId := row], nextId + 1;
      }
    }

    method MoveSubtree(account: int, from: string, to: string, d: string) returns (ok: bool)
      modifies this
      ensures nextId == old(nextId) && faults == Later(old(faults))
      ensures ok <==> !Refused(old(faults)) && !SqlClashes(old(rows), account, from, to, d)
      ensures rows == if ok then SqlMoved(old(rows), account, from, to, d) else old(rows)
    {
      ok := Works();
      ok := ok && !SqlClashes(rows, account, from, to, d);
      if ok {
        rows := SqlMoved(rows, account, from, to, d);
      }
    }

    method RenameRow(id: int, name: string, path: string) returns (ok: bool)
      modifies this
      ensures nextId == old(nextId) && faults == Later(old(faults))
      ensures ok <==> !Refused(old(faults)) && id in old(rows) && !PathHeld(old(rows), id, old(rows)[id].account, path)
      ensures ok ==> rows == old(rows)[id := old(rows)[id].(name := name, path := path)]
      ensures !ok ==> rows == old(rows)
    {
      ok := Works();
      ok := ok && id in rows && !PathHeld(rows, id, rows[id].account, path);
      if ok {
        rows := rows[id := rows[id].(name := name, path := path)];
      }
    }

    method DeleteRow(id: int) returns (ok: bool)
      modifies this
      ensures nextId == old(nextId) && faults == Later(old(faults))
      ensures ok <==> !Refused(old(faults)) && id in old(rows)
      ensures rows == if ok then old(rows) - Cascade(old(rows), {id}) else old(rows)
    {
      ok := Works();
      ok := ok && id in rows;
      if ok {
        rows := rows - Cascade(rows, {id});
      }
    }

    /** Every folder of the account once, in id order: nobody rearranged the sidebar. */
    method ListFolders(account: int) returns (r: Option<seq<Folder>>)
      requires forall i :: i in rows ==> 0 < i < nextId
      modifies this`faults
      ensures faults == Later(old(faults)) && (r.Some? <==> !Refused(old(faults)))
      ensures r.Some? ==> Lists(rows, account, r.value)
    {
      var ok := Works();
      if !ok {
        return None;
      }
      var i, out := 1, [];
      while i < nextId
        invariant ListsBelow(rows, account, i, out)
      {
        if i in rows && rows[i].account == account {
          out := out + [Folder(i, rows[i])];
        }
        i := i + 1;
      }
      r := Some(out);
    }
  }

  ghost predicate ListsBelow(rows: Rows, account: int, n: int, fs: seq<Folder>) {
    && (forall f :: f in fs ==> f.id in rows && f.row == rows[f.id] && f.row.account == account && f.id < n)
    && (forall i :: i in rows && i < n && rows[i].account == account ==> Folder(i, rows[i]) in fs)
    && Pairwise(fs, OtherId)
  }

  ghost predicate Lists(rows: Rows, account: int, fs: seq<Folder>) {
    && (forall f :: f in fs ==> f.id in rows && f.row == rows[f.id] && f.row.account == account)
    && (forall i :: i in rows && rows[i].account == account ==> Folder(i, rows[i]) in fs)
    && Pairwise(fs, OtherId)
  }

  predicate OtherId(a: Folder, b: Folder) {
    a.id != b.id
  }

  // ----- creating a folder

  predicate HasRows(rows: Rows, account: int) {
    exists i | i in rows :: rows[i].account == account
  }

  /** What accountDelimiter comes to: the account's delimiter once it has a folder,
      and "" where it has none yet or the listing is refused. */
  function KnownDelimiter(rows: Rows, delims: Delims, account: int, refused: bool): string
    requires account in delims
  {
    if HasRows(rows, account) && !refused then delims[account] else ""
  }

  /** accountDelimiter: read off any folder that has one. */
  method AccountDelimiter(st: Store, account: int, ghost delims: Delims) returns (d: string)
    requires st.Valid(delims) && account in delims
    modifies st`faults
    ensures st.faults == Later(old(st.faults))
    ensures d == KnownDelimiter(st.rows, delims, account, Refused(old(st.faults)))
  {
    var listed := st.ListFolders(account);
    d := "";
    if listed.Some? {
      var fs, k := listed.value, 0;
      assert forall f :: f in fs ==> RowOk(st.rows, delims, f.id);
      while k < |fs|
        invariant 0 <= k <= |fs|
        invariant forall j :: 0 <= j < k ==> fs[j].row.delim == ""
      {
        assert fs[k] in fs;
        if fs[k].row.delim != "" {
          return fs[k].row.delim;
        }
        k := k + 1;
      }
      forall i | i in st.rows && st.rows[i].account == account ensures st.rows[i].delim == "" {
        assert Folder(i, st.rows[i]) in fs;
      }
      assert forall i :: i in st.rows ==> RowOk(st.rows, delims, i);
    }
  }

  function NewRow(account: int, name: string, path: string, d: string, parent: Option<int>): Row {
    Row(account, name, path, d, parent, [], "")
  }

  /** The row CreateFolder stores: one segment below its parent, or at the root. */
  ghost predicate Creates(before: Rows, account: int, parentId: int, name: string, r: Row) {
    if parentId == 0 then
      r == Row(account, name, name, r.delim, None, [], "")
    else
      && parentId in before && before[parentId].account == account && before[parentId].delim != ""
      && r == Row(account, name, before[parentId].path + before[parentId].delim + name, before[parentId].delim,
                  Some(parentId), [], "")
  }

  /** A request for a nested folder that only the server can still refuse. */
  predicate FitsUnder(rows: Rows, account: int, parentId: int, name: string) {
    && name != "" && parentId in rows && rows[parentId].account == account && rows[parentId].delim != ""
    && SingleSegment(name, rows[parentId].delim)
    && !Taken(rows, account, rows[parentId].path + rows[parentId].delim + name)
  }

  /** A request for a folder at the root, told with the delimiter the code knows. */
  predicate FitsAtRoot(rows: Rows, account: int, d: string, name: string) {
    name != "" && SingleSegment(name, d) && !Taken(rows, account, name)
  }

  /** CreateFolder. At the root the row carries the account's delimiter, and the tree
      stays well formed, if and only if the account has a folder already and the
      listing is not refused, or its server is flat. */
  method CreateFolder(st: Store, ghost delims: Delims, account: int, parentId: int, raw: string, serverAccepts: bool)
    returns (id: Option<int>)
    requires st.Valid(delims) && account in delims && IsDelimiter(delims[account])
    modifies st
    ensures old(st.faults) == [] ==> st.faults == []
    ensures id.None? ==> st.rows == old(st.rows)
    ensures id.Some? ==>
      && id.value !in old(st.rows) && id.value in st.rows && st.rows == old(st.rows)[id.value := st.rows[id.value]]
      && TrimSpace(raw) != "" && Creates(old(st.rows), account, parentId, TrimSpace(raw), st.rows[id.value])
    ensures id.Some? && parentId == 0 ==>
      st.rows[id.value].delim == KnownDelimiter(old(st.rows), delims, account, Refused(old(st.faults)))
    ensures st.Valid(delims) <==>
      id.None? || parentId != 0 || delims[account] == "" || (HasRows(old(st.rows), account) && !Refused(old(st.faults)))
    ensures parentId != 0 ==>
      (id.Some? <==> serverAccepts && FitsUnder(old(st.rows), account, parentId, TrimSpace(raw)) && !Refused(old(st.faults)))
    ensures parentId == 0 && !(TrimSpace(raw) != "" && serverAccepts) ==> id.None?
    ensures parentId == 0 && TrimSpace(raw) != "" && serverAccepts ==>
      (id.Some? <==>
        && FitsAtRoot(old(st.rows), account, KnownDelimiter(old(st.rows), delims, account, Refused(old(st.faults))), TrimSpace(raw))
        && !Refused(Later(old(st.faults))))
  {
    ghost var before := st.rows;
    var name := TrimSpace(raw);
    if name == "" {
      return None;
    }
    var parent, d, path := None, "", name;
    if parentId != 0 {
      if parentId !in st.rows || st.rows[parentId].account != account {
        return None;
      }
      assert RowOk(st.rows, delims, parentId);
      d := st.rows[parentId].delim;
      if d == "" {
        return None;
      }
      parent, path := Some(parentId), st.rows[parentId].path + d + name;
    } else {
      d := AccountDelimiter(st, account, delims);
    }
    if d != "" && d[0] in name {
      return None;
    }
    if !serverAccepts {
      return None;
    }
    var row := NewRow(account, name, path, d, parent);
    id := st.Insert(row);
    if id.Some? {
      if parentId != 0 || d == delims[account] {
        NewRowIsFine(before, delims, id.value, row);
      } else {
        assert !RowOk(st.rows, delims, id.value);
      }
    }
  }

  /** Where no delimiter is known, a name with the server's delimiter in it is taken as
      it is: the mailbox is nested on the server and stored as one segment. */
  method NestsAtRoot(st: Store, ghost delims: Delims, account: int, raw: string) returns (id: Option<int>)
    requires st.Valid(delims) && account in delims && delims[account] == "/"
    requires st.faults == [true] || (st.faults == [] && !HasRows(st.rows, account))
    requires TrimSpace(raw) != "" && !Taken(st.rows, account, TrimSpace(raw))
    modifies st
    ensures id.Some? && st.rows == old(st.rows)[id.value := Row(account, TrimSpace(raw), TrimSpace(raw), "", None, [], "")]
    ensures !st.Valid(delims)
  {
    id := CreateFolder(st, delims, account, 0, raw, true);
  }

  /** So it is for the first folder of an account. */
  method FirstFolderNests() returns (st: Store, id: Option<int>)
    ensures id.Some? && st.rows == map[id.value := Row(1, "a/b", "a/b", "", None, [], "")]
    ensures !st.Valid(map[1 := "/"])
  {
    st := new Store([]);
    id := NestsAtRoot(st, map[1 := "/"], 1, "a/b");
  }

  lemma NewRowIsFine(before: Rows, delims: Delims, id: int, row: Row)
    requires WellFormed(before, delims) && id !in before && !Taken(before, row.account, row.path)
    requires row.account in delims && row.delim == delims[row.account] && IsDelimiter(row.delim)
    requires SingleSegment(row.name, row.delim)
    requires match row.parent
             case None => row.path == row.name
             case Some(p) => p in before && before[p].account == row.account && |row.delim| == 1 && row.path == before[p].path + row.delim + row.name
    ensures WellFormed(before[id := row], delims)
  {
    match row.parent {
      case None => CutNone(row.name, row.delim);
      case Some(p) => CutAt(before[p].path, row.delim, row.name);
    }
    InsertKeeps(before, delims, id, row);
  }

  // ----- renaming a folder

  /** The request gets as far as asking the server. */
  predicate AsksRename(rows: Rows, id: int, name: string) {
    && name != "" && id in rows && !Guarded(rows[id])
    && SingleSegment(name, rows[id].delim) && name != rows[id].name
  }

  /** RenameFolder. A success is the complete rename of the subtree if and only if the
      statement moves it exactly. Then the tree is broken if and only if the second
      write did not follow the first and some folder hangs under the renamed one; with
      a store that does not fail that is, if and only if the server took a name that
      is stored for another folder. */
  method RenameFolder(st: Store, ghost delims: Delims, id: int, raw: string, serverAccepts: bool) returns (ok: bool)
    requires st.Valid(delims)
    modifies st
    ensures st.nextId == old(st.nextId) && (old(st.faults) == [] ==> st.faults == [])
    ensures !(AsksRename(old(st.rows), id, TrimSpace(raw)) && serverAccepts) ==> st.rows == old(st.rows)
    ensures !(AsksRename(old(st.rows), id, TrimSpace(raw)) && serverAccepts) ==>
      (ok <==> TrimSpace(raw) != "" && id in old(st.rows) && !Guarded(old(st.rows)[id]) && TrimSpace(raw) == old(st.rows)[id].name)
    ensures AsksRename(old(st.rows), id, TrimSpace(raw)) && serverAccepts ==>
      RenameOutcome(old(st.rows), st.rows, delims, id, TrimSpace(raw), ok)
    ensures old(st.faults) == [] && AsksRename(old(st.rows), id, TrimSpace(raw)) && serverAccepts ==>
      && (ok <==> !HalfClashes(old(st.rows), id, TrimSpace(raw)) && !HeldAtHalf(old(st.rows), id, TrimSpace(raw)))
      && (!ok && !HalfClashes(old(st.rows), id, TrimSpace(raw)) ==> st.rows == SqlHalf(old(st.rows), id, TrimSpace(raw)))
    ensures !st.Valid(delims) ==> AsksRename(old(st.rows), id, TrimSpace(raw)) && serverAccepts
    ensures st.rows != old(st.rows) ==>
      && serverAccepts && id in old(st.rows) && !Guarded(old(st.rows)[id]) && TrimSpace(raw) != ""
      && (old(st.rows)[id].delim != "" ==> old(st.rows)[id].delim[0] !in TrimSpace(raw))
    ensures old(st.faults) == [] && AsksRename(old(st.rows), id, TrimSpace(raw)) && serverAccepts && MovesRenamed(old(st.rows), id, TrimSpace(raw)) ==>
      (!st.Valid(delims) <==>
        && !Clashes(old(st.rows), id, TrimSpace(raw))
        && PathHeld(old(st.rows), id, old(st.rows)[id].account, NewPath(old(st.rows), id, TrimSpace(raw)))
        && !Childless(old(st.rows), id))
  {
    ghost var before := st.rows;
    var name := TrimSpace(raw);
    if id in st.rows {
      ProtectedExactlyWhen(st.rows[id]);
    }
    if name == "" || id !in st.rows || Protected(st.rows[id]) {
      return false;
    }
    var folder := st.rows[id];
    assert RowOk(before, delims, id);
    CutParts(folder.path, folder.delim);
    if folder.delim != "" && folder.delim[0] in name {
      return false;
    }
    if name == folder.name {
      return true;
    }
    if !serverAccepts {
      return false;
    }
    var newPath := RenamedPath(folder.path, name, folder.delim);
    if folder.delim != "" {
      ok := st.MoveSubtree(folder.account, folder.path, newPath, folder.delim);
      if !ok {
        NothingWritten(before, delims, id, name);
        return;
      }
    } else {
      FlatMovesNothing(before, id, name);
    }
    RenamedRowApart(before, id, name);
    ok := st.RenameRow(id, name, newPath);
    if ok {
      BothWritten(before, delims, id, name);
    } else {
      HalfWritten(before, delims, id, name);
    }
  }

  /** The new path is stored for another row once the subtree has moved. */
  predicate HeldAtHalf(rows: Rows, id: int, name: string)
    requires id in rows
  {
    PathHeld(SqlHalf(rows, id, name), id, rows[id].account, NewPath(rows, id, name))
  }

  /** What a rename the server took leaves. */
  ghost predicate RenameOutcome(before: Rows, after: Rows, delims: Delims, id: int, name: string, ok: bool)
    requires id in before
  {
    && Distinct(after)
    && (ok ==>
      && after == SqlRenamed(before, id, name)
      && (after == Renamed(before, id, name) <==> MovesRenamed(before, id, name))
      && (MovesRenamed(before, id, name) ==> WellFormed(after, delims))
      && (PlainDelimiter(before[id].delim) ==> (WellFormed(after, delims) <==> AllTold(before, id))))
    && (!ok ==>
      && (after == before || (after == SqlHalf(before, id, name) && !HalfClashes(before, id, name)))
      && (after == SqlHalf(before, id, name) && MovesRenamed(before, id, name) && !HalfClashes(before, id, name) ==>
        && after == HalfRenamed(before, id, name)
        && (WellFormed(after, delims) <==> Childless(before, id))))
  }

  lemma NothingWritten(rows: Rows, delims: Delims, id: int, name: string)
    requires WellFormed(rows, delims) && AsksRename(rows, id, name)
    ensures RenameOutcome(rows, rows, delims, id, name, false)
    ensures MovesRenamed(rows, id, name) ==> (HalfClashes(rows, id, name) <==> Clashes(rows, id, name))
  {
    assert RowOk(rows, delims, id);
    RenamedExactlyWhen(rows, id, name);
    if MovesRenamed(rows, id, name) {
      ClashesAgree(rows, delims, id, name);
      if !HalfClashes(rows, id, name) {
        HalfBreaksExactlyWhen(rows, delims, id, name);
      }
    }
  }

  lemma HeldOrNot(rows: Rows, delims: Delims, id: int, name: string)
    requires WellFormed(rows, delims) && AsksRename(rows, id, name) && MovesRenamed(rows, id, name)
    ensures HalfClashes(rows, id, name) <==> Clashes(rows, id, name)
    ensures SqlHalf(rows, id, name) == HalfRenamed(rows, id, name)
    ensures HeldAtHalf(rows, id, name) <==> PathHeld(rows, id, rows[id].account, NewPath(rows, id, name))
  {
    assert RowOk(rows, delims, id);
    ClashesAgree(rows, delims, id, name);
    RenamedExactlyWhen(rows, id, name);
    PathHeldStays(rows, delims, id, name);
  }

  lemma HalfWritten(rows: Rows, delims: Delims, id: int, name: string)
    requires WellFormed(rows, delims) && AsksRename(rows, id, name) && !HalfClashes(rows, id, name)
    ensures RenameOutcome(rows, SqlHalf(rows, id, name), delims, id, name, false)
    ensures MovesRenamed(rows, id, name) ==>
            && !Clashes(rows, id, name)
            && (HeldAtHalf(rows, id, name) <==> PathHeld(rows, id, rows[id].account, NewPath(rows, id, name)))
  {
    SqlMovedDistinct(rows, rows[id].account, rows[id].path, NewPath(rows, id, name), rows[id].delim);
    if MovesRenamed(rows, id, name) {
      HeldOrNot(rows, delims, id, name);
      HalfBreaksExactlyWhen(rows, delims, id, name);
    }
  }

  lemma BothWritten(rows: Rows, delims: Delims, id: int, name: string)
    requires WellFormed(rows, delims) && AsksRename(rows, id, name) && !HalfClashes(rows, id, name)
    requires !HeldAtHalf(rows, id, name)
    ensures RenameOutcome(rows, SqlRenamed(rows, id, name), delims, id, name, true)
    ensures MovesRenamed(rows, id, name) ==> !PathHeld(rows, id, rows[id].account, NewPath(rows, id, name))
  {
    HalfWritten(rows, delims, id, name);
    assert RowOk(rows, delims, id);
    RenamedExactlyWhen(rows, id, name);
    RenamedRowApart(rows, id, name);
    if MovesRenamed(rows, id, name) {
      CompleteKeeps(rows, delims, id, name);
    }
    if PlainDelimiter(rows[id].delim) {
      WellFormedExactlyWhen(rows, delims, id, name);
    }
  }

  lemma FlatMovesNothing(rows: Rows, id: int, name: string)
    requires id in rows && rows[id].delim == ""
    ensures SqlHalf(rows, id, name) == rows && !HalfClashes(rows, id, name)
  {
    var half := SqlHalf(rows, id, name);
    assert forall i :: i in rows ==> half[i] == rows[i];
    assert half == rows;
  }

  lemma PathHeldStays(rows: Rows, delims: Delims, id: int, name: string)
    requires WellFormed(rows, delims) && AsksRename(rows, id, name)
    ensures var to := NewPath(rows, id, name);
            PathHeld(HalfRenamed(rows, id, name), id, rows[id].account, to) <==> PathHeld(rows, id, rows[id].account, to)
  {
    NewPathStays(rows, delims, id, name);
    var after, r, to := HalfRenamed(rows, id, name), rows[id], NewPath(rows, id, name);
    forall j | j in rows
      ensures (after[j].account == r.account && after[j].path == to) <==>
        (rows[j].account == r.account && rows[j].path == to)
    {
      assert SamePlace(after[j], r.(path := to)) <==> SamePlace(rows[j], r.(path := to));
    }
  }

  // ----- dropping rows children first

  function Ids(fs: seq<Folder>): set<int> {
    set k | 0 <= k < |fs| :: fs[k].id
  }

  ghost predicate ClosedUnderChildren(rows: Rows, fs: seq<Folder>) {
    && (forall f :: f in fs ==> f.id in rows && f.row == rows[f.id])
    && (forall f, c :: f in fs && c in rows && rows[c].parent == Some(f.id) ==> Folder(c, rows[c]) in fs)
  }

  /** Every child comes later in the list than its parent. */
  ghost predicate ChildrenLater(fs: seq<Folder>) {
    forall j, k :: 0 <= j < |fs| && 0 <= k < |fs| && fs[k].row.parent == Some(fs[j].id) ==> j < k
  }

  /** When everything later is gone already, a folder has no child left. */
  lemma NextIsChildless(rows: Rows, fs: seq<Folder>, k: nat)
    requires ClosedUnderChildren(rows, fs) && ChildrenLater(fs) && k < |fs|
    ensures Childless(rows - Ids(fs[k + 1..]), fs[k].id)
  {
    assert fs[k] in fs;
    var rest := fs[k + 1..];
    forall c | c in rows && rows[c].parent == Some(fs[k].id) ensures c in Ids(rest) {
      var j :| 0 <= j < |fs| && fs[j] == Folder(c, rows[c]);
      assert rest[j - k - 1] == fs[j];
    }
  }

  /** The k-th target, once those after it are gone: still there, and childless. */
  lemma TakenDown(rows: Rows, fs: seq<Folder>, k: nat)
    requires ClosedUnderChildren(rows, fs) && ChildrenLater(fs) && Pairwise(fs, OtherId) && k < |fs|
    ensures Ids(fs[k..]) == Ids(fs[k + 1..]) + {fs[k].id}
    ensures fs[k].id in rows - Ids(fs[k + 1..])
    ensures Childless(rows - Ids(fs[k + 1..]), fs[k].id)
  {
    var tail, rest := fs[k..], fs[k + 1..];
    assert forall j :: 0 <= j < |rest| ==> rest[j] == tail[j + 1] == fs[k + 1 + j];
    assert tail[0] == fs[k];
    assert fs[k] in fs;
    assert Ids(tail) == Ids(rest) + {fs[k].id};
    NextIsChildless(rows, fs, k);
  }

  /** One purge and one delete, of a folder without children. */
  method Drop(st: Store, ghost delims: Delims, id: int) returns (ok: bool)
    requires st.Valid(delims) && Childless(st.rows, id)
    modifies st
    ensures st.Valid(delims) && st.nextId == old(st.nextId)
    ensures ok <==> !Refused(old(st.faults)) && !Refused(Later(old(st.faults))) && id in old(st.rows)
    ensures st.rows == if ok then old(st.rows) - {id} else old(st.rows)
    ensures old(st.faults) == [] ==> st.faults == []
  {
    ok := st.Works();
    if ok {
      ghost var before := st.rows;
      ok := st.DeleteRow(id);
      ChildlessGoesAlone(before, id);
      DropKeeps(before, delims, id);
    }
  }

  // ----- deleting a folder

  function Characters(): Folder -> int {
    (f: Folder) => CharCount(f.row.path)
  }

  /** subtreeFolders: the folder, then what matches its prefix, each path no shorter
      than the one before. */
  ghost predicate ListsSubtree(rows: Rows, id: int, fs: seq<Folder>)
    requires id in rows
  {
    && fs != [] && fs[0] == Folder(id, rows[id])
    && (forall f :: f in fs ==> f.id in rows && f.row == rows[f.id])
    && Ids(fs) == SqlSubtree(rows, id)
    && Pairwise(fs, OtherId)
    && Sorted(fs[1..], Characters())
  }

  ghost predicate PicksMatching(fs: seq<Folder>, top: Row, out: seq<Folder>) {
    && (forall f :: f in out <==> f in fs && Matches(f.row, top.account, top.path, top.delim))
    && Pairwise(out, OtherId)
  }

  /** The rows among `fs` that match, in order of their length in characters. */
  method FolderDescendants(fs: seq<Folder>, top: Row) returns (out: seq<Folder>)
    requires Pairwise(fs, OtherId)
    ensures PicksMatching(fs, top, out) && Sorted(out, Characters())
  {
    out := [];
    var k := 0;
    while k < |fs|
      invariant 0 <= k <= |fs|
      invariant PicksMatching(fs[..k], top, out)
    {
      assert fs[..k + 1] == fs[..k] + [fs[k]];
      assert forall f :: f in fs[..k] ==> OtherId(f, fs[k]) && OtherId(fs[k], f);
      if Matches(fs[k].row, top.account, top.path, top.delim) {
        out := out + [fs[k]];
      }
      k := k + 1;
    }
    assert fs[..|fs|] == fs;
    SortHolds(out, Characters());
    SortSorts(out, Characters());
    SortKeepsPairwise(out, Characters(), OtherId);
    out := StableSort(out, Characters());
  }

  lemma SubtreeListed(rows: Rows, id: int, fs: seq<Folder>, out: seq<Folder>)
    requires id in rows && Lists(rows, rows[id].account, fs)
    requires PicksMatching(fs, rows[id], out) && Sorted(out, Characters())
    ensures ListsSubtree(rows, id, [Folder(id, rows[id])] + out)
  {
    var top, all := Folder(id, rows[id]), [Folder(id, rows[id])] + out;
    assert all[0] == top && forall k :: 0 < k < |all| ==> all[k] == out[k - 1];
    assert all[1..] == out;
    forall f | f in out ensures OtherId(top, f) && OtherId(f, top) {
      assert |top.row.path + top.row.delim| <= |f.row.path|;
    }
    assert forall k :: 0 <= k < |out| ==> out[k] in out;
    IdsOfSubtree(rows, id, fs, out);
  }

  lemma IdsOfSubtree(rows: Rows, id: int, fs: seq<Folder>, out: seq<Folder>)
    requires id in rows && Lists(rows, rows[id].account, fs) && PicksMatching(fs, rows[id], out)
    ensures Ids([Folder(id, rows[id])] + out) == SqlSubtree(rows, id)
  {
    var all := [Folder(id, rows[id])] + out;
    forall i | i in SqlSubtree(rows, id) ensures i in Ids(all) {
      if i != id {
        assert Folder(i, rows[i]) in out;
        var k :| 0 <= k < |out| && out[k] == Folder(i, rows[i]);
        assert all[k + 1].id == i;
      } else {
        assert all[0].id == i;
      }
    }
    forall i | i in Ids(all) ensures i in SqlSubtree(rows, id) {
      var k :| 0 <= k < |all| && all[k].id == i;
      assert k != 0 ==> all[k] in out;
    }
  }

  method SubtreeFolders(st: Store, ghost delims: Delims, id: int) returns (r: Option<seq<Folder>>)
    requires st.Valid(delims) && id in st.rows
    modifies st`faults
    ensures r.Some? ==> ListsSubtree(st.rows, id, r.value)
    ensures old(st.faults) == [] ==> st.faults == [] && r.Some?
  {
    var row := st.rows[id];
    if row.delim == "" {
      FlatSubtree(st.rows, id);
      return Some([Folder(id, row)]);
    }
    var listed := st.ListFolders(row.account);
    if listed.None? {
      return None;
    }
    var below := FolderDescendants(listed.value, row);
    SubtreeListed(st.rows, id, listed.value, below);
    r := Some([Folder(id, row)] + below);
  }

  lemma FlatSubtree(rows: Rows, id: int)
    requires id in rows && rows[id].delim == ""
    ensures ListsSubtree(rows, id, [Folder(id, rows[id])])
  {
    var all := [Folder(id, rows[id])];
    assert all[0].id == id;
    assert SqlSubtree(rows, id) == {id};
    assert Ids(all) == {id};
  }

  /** A child's path has more characters than its parent's. */
  lemma ChildIsLonger(rows: Rows, delims: Delims, c: int)
    requires WellFormed(rows, delims) && c in rows && rows[c].parent.Some?
    ensures rows[c].parent.value in rows && CharCount(rows[rows[c].parent.value].path) < CharCount(rows[c].path)
  {
    ChildPath(rows, delims, c);
    assert RowOk(rows, delims, c);
    var p, d, leaf := rows[rows[c].parent.value].path, rows[c].delim, rows[c].name;
    assert p + d + leaf == p + (d + leaf);
    CountSplit(p, d + leaf);
    CountBounds(d + leaf);
  }

  lemma LaterIsLonger(fs: seq<Folder>, j: nat, k: nat)
    requires fs != [] && Sorted(fs[1..], Characters())
    ensures 1 <= j <= k < |fs| ==> CharCount(fs[j].row.path) <= CharCount(fs[k].row.path)
  {
    if 1 <= j <= k < |fs| {
      assert fs[j] == fs[1..][j - 1] && fs[k] == fs[1..][k - 1];
      assert Characters()(fs[1..][j - 1]) <= Characters()(fs[1..][k - 1]);
    }
  }

  lemma SubtreeClosed(rows: Rows, delims: Delims, id: int, fs: seq<Folder>)
    requires WellFormed(rows, delims) && id in rows && ListsSubtree(rows, id, fs)
    ensures ClosedUnderChildren(rows, fs) && ChildrenLater(fs)
  {
    forall f, c | f in fs && c in rows && rows[c].parent == Some(f.id) ensures Folder(c, rows[c]) in fs {
      var j :| 0 <= j < |fs| && fs[j] == f;
      assert f.id in Ids(fs);
      ChildMatches(rows, delims, id, c);
      var k :| 0 <= k < |fs| && fs[k].id == c;
      assert fs[k] in fs;
    }
    forall j, k | 0 <= j < |fs| && 0 <= k < |fs| && fs[k].row.parent == Some(fs[j].id) ensures j < k {
      assert fs[j] in fs && fs[k] in fs && fs[j].id in Ids(fs);
      ChildMatches(rows, delims, id, fs[k].id);
      ChildIsLonger(rows, delims, fs[k].id);
      LaterIsLonger(fs, k, j);
    }
  }

  /** DeleteFolder. The folder and all that matches its prefix go, children first, so
      that no delete cascades; stopped by the store, only some of them have gone. It
      is exactly the subtree if and only if nothing lies inside only up to case. */
  method DeleteFolder(st: Store, ghost delims: Delims, id: int, serverAccepts: bool) returns (ok: bool)
    requires st.Valid(delims)
    modifies st
    ensures st.Valid(delims) && st.nextId == old(st.nextId)
    ensures !(id in old(st.rows) && !Guarded(old(st.rows)[id]) && serverAccepts) ==> !ok && st.rows == old(st.rows)
    ensures ok ==> st.rows == old(st.rows) - SqlSubtree(old(st.rows), id)
    ensures ok ==> (st.rows == old(st.rows) - Subtree(old(st.rows), id) <==>
                     NoTwins(old(st.rows), old(st.rows)[id].account, old(st.rows)[id].path, old(st.rows)[id].delim))
    ensures id in old(st.rows) ==>
      exists dropped :: dropped <= SqlSubtree(old(st.rows), id) && st.rows == old(st.rows) - dropped
    ensures old(st.faults) == [] ==> st.faults == []
    ensures old(st.faults) == [] && id in old(st.rows) && !Guarded(old(st.rows)[id]) && serverAccepts ==> ok
  {
    ghost var before, dropped: set<int> := st.rows, {};
    assert before - {} == before;
    if id in st.rows {
      ProtectedExactlyWhen(st.rows[id]);
    }
    if id !in st.rows || Protected(st.rows[id]) {
      return false;
    }
    var targets := SubtreeFolders(st, delims, id);
    if targets.None? || !serverAccepts {
      return false;
    }
    SubtreeClosed(before, delims, id, targets.value);
    SqlSubtreeExactlyWhen(before, id);
    ok, dropped := TakeDown(st, delims, targets.value);
  }

  /** The second loop of DeleteFolder, from the last to the first. */
  method TakeDown(st: Store, ghost delims: Delims, fs: seq<Folder>) returns (ok: bool, ghost dropped: set<int>)
    requires st.Valid(delims) && ClosedUnderChildren(st.rows, fs) && ChildrenLater(fs) && Pairwise(fs, OtherId)
    modifies st
    ensures st.Valid(delims) && st.nextId == old(st.nextId)
    ensures dropped <= Ids(fs) && st.rows == old(st.rows) - dropped
    ensures ok ==> dropped == Ids(fs)
    ensures old(st.faults) == [] ==> ok && st.faults == []
  {
    ghost var before := st.rows;
    var k := |fs|;
    dropped := {};
    while k > 0
      invariant 0 <= k <= |fs|
      invariant st.Valid(delims) && st.nextId == old(st.nextId)
      invariant dropped == Ids(fs[k..]) && st.rows == before - dropped
      invariant old(st.faults) == [] ==> st.faults == []
    {
      k := k - 1;
      TakenDown(before, fs, k);
      ok := Drop(st, delims, fs[k].id);
      if !ok {
        IdsOfTail(fs, k + 1);
        return;
      }
      dropped := dropped + {fs[k].id};
    }
    assert fs[0..] == fs;
    ok := true;
  }

  lemma IdsOfTail(fs: seq<Folder>, k: nat)
    requires k <= |fs|
    ensures Ids(fs[k..]) <= Ids(fs)
  {
    forall j | 0 <= j < |fs[k..]| ensures fs[k..][j].id in Ids(fs) {
      assert fs[k..][j] == fs[k + j];
    }
  }
}
