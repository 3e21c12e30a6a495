/** Bringing the stored tree in line with the server's list
    (internal/desktop/bind_folder_refresh.go, bind_account_setup.go). */
module FolderRefresh {
  import opened Bytes
  import opened Options
  import opened FolderPaths
  import opened FolderTree
  import opened FolderRoles
  import opened SqlText
  import opened RenameBreaks
  import opened SqlRename
  import opened Folders
  import opened Sorting

  datatype Listing = Listing(name: string, delim: string, nonExistent: bool, attributes: seq<string>)

  predicate Mentions(listed: seq<Listing>, name: string) {
    exists k :: 0 <= k < |listed| && listed[k].name == name && !listed[k].nonExistent
  }

  predicate OtherName(a: Listing, b: Listing) {
    a.name != b.name
  }

  ghost predicate AllUse(listed: seq<Listing>, d: string) {
    forall f :: f in listed ==> f.delim == d
  }

  /** The row createFolderTree stores for a listed mailbox. */
  function ListedRow(account: int, f: Listing, parent: Option<int>): Row {
    Row(account, Leaf(f.name, f.delim), f.name, f.delim, parent, f.attributes, "")
  }

  /** What the server marks as its sent mail is stored protected, whatever its name. */
  lemma MarkedSentIsProtected(account: int, f: Listing, parent: Option<int>)
    requires "\\Sent" in f.attributes
    ensures Protected(ListedRow(account, f, parent))
  {
    var k :| 0 <= k < |f.attributes| && f.attributes[k] == "\\Sent";
    assert TrimPrefix("\\Sent", "\\") == "Sent";
    assert Lower("Sent") == "sent";
    assert SpecialUse(f.attributes[k]);
  }

  // ----- the index by path

  ghost predicate Indexes(byPath: map<string, int>, rows: Rows, account: int) {
    && (forall p :: p in byPath ==> byPath[p] in rows && rows[byPath[p]].account == account && rows[byPath[p]].path == p)
    && (forall i :: i in rows && rows[i].account == account ==> rows[i].path in byPath && byPath[rows[i].path] == i)
  }

  // ----- adding listed folders

  /** Every row that is new was listed, and carries what the list said. */
  ghost predicate Grown(before: Rows, after: Rows, account: int, listed: seq<Listing>) {
    && (forall i :: i in before ==> i in after && after[i] == before[i])
    && (forall i :: i in after && i !in before ==> FromList(after[i], account, listed))
  }

  /** How far a refresh has got, wherever it stopped: the rows of other accounts and
      the folders kept are there as they were, and all other rows were there too or
      were listed. */
  ghost predicate Underway(before: Rows, after: Rows, account: int, listed: seq<Listing>) {
    && (forall i :: i in before && (before[i].account != account || Kept(before[i], listed)) ==> i in after)
    && (forall i :: i in before && i in after ==> after[i] == before[i])
    && (forall i :: i in after && i !in before ==> FromList(after[i], account, listed))
    && Linked(before, after, account)
  }

  ghost predicate FromList(r: Row, account: int, listed: seq<Listing>) {
    exists f :: f in listed && !f.nonExistent && AsListed(r, account, f)
  }

  /** The row carries what the list says of the mailbox, and no role. */
  predicate AsListed(r: Row, account: int, f: Listing) {
    && r.account == account && r.path == f.name && r.delim == f.delim && r.name == Leaf(f.name, f.delim)
    && r.attributes == f.attributes && r.role == ""
  }

  /** Every new row hangs under its parent's row, if there is one. */
  ghost predicate Linked(before: Rows, after: Rows, account: int) {
    forall i, j :: i in after && i !in before && j in after && BelongsUnder(after[i], after[j], account) ==> after[i].parent == Some(j)
  }

  ghost predicate FreshIds(before: Rows, after: Rows, nextId: int) {
    forall i :: i in after && i !in before ==> nextId <= i
  }

  predicate BelongsUnder(r: Row, above: Row, account: int) {
    above.account == account && Parent(r.path, r.delim) == Some(above.path)
  }

  function ByDepth(): Listing -> int {
    (f: Listing) => Depth(f.name, f.delim)
  }

  /** Nothing stored so far is deeper than what is still to come. */
  ghost predicate NoDeeper(before: Rows, after: Rows, rest: seq<Listing>) {
    forall i, f :: i in after && i !in before && f in rest ==> Depth(after[i].path, after[i].delim) <= Depth(f.name, f.delim)
  }

  /** parentID in createFolderTree. */
  function ParentIn(byPath: map<string, int>, f: Listing): Option<int> {
    match Parent(f.name, f.delim)
    case None => None
    case Some(p) => if p in byPath then Some(byPath[p]) else None
  }

  lemma ListedRowIsFine(rows: Rows, delims: Delims, byPath: map<string, int>, account: int, f: Listing, id: int)
    requires WellFormed(rows, delims) && Indexes(byPath, rows, account) && id !in rows
    requires account in delims && IsDelimiter(f.delim) && f.delim == delims[account] && !Taken(rows, account, f.name)
    ensures WellFormed(rows[id := ListedRow(account, f, ParentIn(byPath, f))], delims)
    ensures Indexes(byPath[f.name := id], rows[id := ListedRow(account, f, ParentIn(byPath, f))], account)
  {
    var r := ListedRow(account, f, ParentIn(byPath, f));
    InsertKeeps(rows, delims, id, r);
    forall p | p in byPath ensures Taken(rows, account, p) {
      var i := byPath[p];
      assert i in rows && rows[i].account == account && rows[i].path == p;
    }
  }

  /** A row stored now is nobody's missing parent: those stored before it are no
      deeper than it is. */
  lemma StaysLinked(before: Rows, rows: Rows, byPath: map<string, int>, account: int, f: Listing, id: int, d: string)
    requires Linked(before, rows, account) && Indexes(byPath, rows, account) && id !in rows && id !in before
    requires IsDelimiter(d) && f.delim == d && !Taken(rows, account, f.name)
    requires forall i :: i in rows && i !in before ==> rows[i].delim == d && Depth(rows[i].path, d) <= Depth(f.name, d)
    ensures Linked(before, rows[id := ListedRow(account, f, ParentIn(byPath, f))], account)
  {
    var after := rows[id := ListedRow(account, f, ParentIn(byPath, f))];
    forall i, j | i in after && i !in before && j in after && BelongsUnder(after[i], after[j], account)
      ensures after[i].parent == Some(j)
    {
      DepthOfParent(after[i].path, d);
      assert j != id;
    }
  }

  lemma IndexedMeansTaken(byPath: map<string, int>, rows: Rows, account: int, p: string)
    requires Indexes(byPath, rows, account)
    ensures Taken(rows, account, p) <==> p in byPath
  {
    if p in byPath {
      var i := byPath[p];
      assert i in rows && rows[i].account == account && rows[i].path == p;
    }
  }

  /** One step of createFolderTree: the row, under its parent's, and the index. */
  method StoreListed(st: Store, ghost delims: Delims, account: int, f: Listing, known: map<string, int>)
    returns (ok: bool, byPath: map<string, int>)
    requires st.Valid(delims) && account in delims && IsDelimiter(delims[account]) && f.delim == delims[account]
    requires Indexes(known, st.rows, account)
    modifies st
    ensures st.Valid(delims) && Indexes(byPath, st.rows, account) && st.faults == Later(old(st.faults))
    ensures ok <==> !Refused(old(st.faults)) && f.name !in known
    ensures ok ==>
      && old(st.nextId) !in old(st.rows) && !Taken(old(st.rows), account, f.name) && st.nextId == old(st.nextId) + 1
      && st.rows == old(st.rows)[old(st.nextId) := ListedRow(account, f, ParentIn(known, f))] && byPath == known[f.name := old(st.nextId)]
    ensures !ok ==> st.rows == old(st.rows) && st.nextId == old(st.nextId) && byPath == known
  {
    IndexedMeansTaken(known, st.rows, account, f.name);
    byPath := known;
    var id := st.Insert(ListedRow(account, f, ParentIn(known, f)));
    ok := id.Some?;
    if ok {
      ListedRowIsFine(old(st.rows), delims, known, account, f, id.value);
      byPath := known[f.name := id.value];
    }
  }

  /** createFolderTree, over the folders stored already. It stops where the store
      fails or where a name is listed twice; a row it did store stays, well formed
      and linked. */
  method CreateFolderTree(st: Store, ghost delims: Delims, account: int, folders: seq<Listing>, known: map<string,
                          int>) returns (ok: bool)
    requires st.Valid(delims) && account in delims && IsDelimiter(delims[account]) && AllUse(folders, delims[account])
    requires Indexes(known, st.rows, account)
    modifies st
    ensures st.Valid(delims)
    ensures Grown(old(st.rows), st.rows, account, folders)
    ensures Linked(old(st.rows), st.rows, account)
    ensures FreshIds(old(st.rows), st.rows, old(st.nextId)) && old(st.nextId) <= st.nextId
    ensures ok ==> forall f :: f in folders && !f.nonExistent ==> Taken(st.rows, account, f.name)
    ensures old(st.faults) == [] && Pairwise(folders, OtherName) && (forall f :: f in folders ==> f.name !in known) ==>
      ok
    ensures old(st.faults) == [] ==> st.faults == []
  {
    ghost var before, d := st.rows, delims[account];
    var sorted := StableSort(folders, ByDepth());
    SortHolds(folders, ByDepth());
    SortSorts(folders, ByDepth());
    var byPath, k := known, 0;
    while k < |sorted|
      invariant 0 <= k <= |sorted|
      invariant st.Valid(delims) && Indexes(byPath, st.rows, account)
      invariant Grown(before, st.rows, account, folders)
      invariant Linked(before, st.rows, account)
      invariant NoDeeper(before, st.rows, sorted[k..])
      invariant FreshIds(before, st.rows, old(st.nextId)) && old(st.nextId) <= st.nextId
      invariant forall j :: 0 <= j < k && !sorted[j].nonExistent ==> sorted[j].name in byPath
      invariant forall p :: p in byPath ==> p in known || exists j :: 0 <= j < k && sorted[j].name == p
      invariant old(st.faults) == [] ==> st.faults == []
    {
      var f := sorted[k];
      assert f in sorted && f in folders;
      Deeper(before, st.rows, sorted, k);
      if !f.nonExistent {
        ghost var rows, index, id := st.rows, byPath, st.nextId;
        ok, byPath := StoreListed(st, delims, account, f, byPath);
        if !ok {
          if old(st.faults) == [] && Pairwise(folders, OtherName) {
            SortKeepsPairwise(folders, ByDepth(), OtherName);
          }
          return false;
        }
        LinksOn(before, rows, delims, index, account, folders, sorted, k, id);
      }
      k := k + 1;
    }
    forall f | f in folders && !f.nonExistent ensures Taken(st.rows, account, f.name) {
      assert f in sorted;
      IndexedMeansTaken(byPath, st.rows, account, f.name);
    }
    ok := true;
  }

  lemma Deeper(before: Rows, rows: Rows, sorted: seq<Listing>, k: nat)
    requires k < |sorted| && NoDeeper(before, rows, sorted[k..])
    ensures NoDeeper(before, rows, sorted[k + 1..])
    ensures forall i ::
      i in rows && i !in before ==> Depth(rows[i].path, rows[i].delim) <= Depth(sorted[k].name, sorted[k].delim)
  {
    assert sorted[k..] == [sorted[k]] + sorted[k + 1..];
  }

  lemma LinksOn(before: Rows, rows: Rows, delims: Delims, byPath: map<string, int>, account: int,
                folders: seq<Listing>, sorted: seq<Listing>, k: nat, id: int)
    requires account in delims && IsDelimiter(delims[account]) && AllUse(folders, delims[account])
    requires Grown(before, rows, account, folders) && Linked(before, rows, account) && Indexes(byPath, rows, account)
    requires k < |sorted| && sorted[k] in folders && Sorted(sorted, ByDepth()) && NoDeeper(before, rows, sorted[k..])
    requires id !in rows && !Taken(rows, account, sorted[k].name)
    ensures var after := rows[id := ListedRow(account, sorted[k], ParentIn(byPath, sorted[k]))];
            Linked(before, after, account) && NoDeeper(before, after, sorted[k + 1..])
  {
    var f, d := sorted[k], delims[account];
    Deeper(before, rows, sorted, k);
    forall i | i in rows && i !in before ensures rows[i].delim == d {
      assert FromList(rows[i], account, folders);
    }
    StaysLinked(before, rows, byPath, account, f, id, d);
    forall g | g in sorted[k + 1..] ensures Depth(f.name, f.delim) <= Depth(g.name, g.delim) {
      var j :| 0 <= j < |sorted[k + 1..]| && sorted[k + 1..][j] == g;
      assert sorted[k + 1 + j] == g;
      assert ByDepth()(sorted[k]) <= ByDepth()(sorted[k + 1 + j]);
    }
  }

  // ----- what stays

  /** Still on the server, or a bare parent of what is. */
  ghost predicate Kept(r: Row, listed: seq<Listing>) {
    Mentions(listed, r.path) || HasListedDescendant(r, listed)
  }

  ghost predicate HasListedDescendant(r: Row, listed: seq<Listing>) {
    exists k :: 0 <= k < |listed| && !listed[k].nonExistent && Inside(listed[k].name, r.path, r.delim)
  }

  method FindListedDescendant(r: Row, listed: seq<Listing>) returns (found: bool)
    requires forall k :: 0 <= k < |listed| ==> !listed[k].nonExistent
    ensures found <==> HasListedDescendant(r, listed)
  {
    if r.delim == "" {
      return false;
    }
    var prefix := r.path + r.delim;
    var k := 0;
    while k < |listed|
      invariant 0 <= k <= |listed|
      invariant forall j :: 0 <= j < k ==> !Inside(listed[j].name, r.path, r.delim)
    {
      if HasPrefix(listed[k].name, prefix) {
        return true;
      }
      k := k + 1;
    }
    found := false;
  }

  /** What a refresh drops is closed under descendants. */
  lemma DroppedWithChildren(rows: Rows, delims: Delims, listed: seq<Listing>, i: int)
    requires WellFormed(rows, delims) && i in rows && rows[i].parent.Some?
    requires Kept(rows[i], listed)
    ensures rows[i].parent.value in rows && Kept(rows[rows[i].parent.value], listed)
  {
    ChildPath(rows, delims, i);
    var r, p := rows[i], rows[rows[i].parent.value];
    assert RowOk(rows, delims, i) && RowOk(rows, delims, r.parent.value);
    var k :| 0 <= k < |listed| && !listed[k].nonExistent && (listed[k].name == r.path || Inside(listed[k].name, r.path, r.delim));
    assert r.path == (p.path + p.delim) + r.name;
    if listed[k].name != r.path {
      assert Inside(listed[k].name, r.path, r.delim);
      assert r.path + r.delim <= listed[k].name;
    }
    assert Inside(listed[k].name, p.path, p.delim);
  }

  // ----- the refresh

  function Existing(server: seq<Listing>): seq<Listing> {
    if server == [] then []
    else (if server[0].nonExistent then [] else [server[0]]) + Existing(server[1..])
  }

  lemma {:induction false} ExistingHolds(server: seq<Listing>)
    ensures forall f :: f in Existing(server) <==> f in server && !f.nonExistent
  {
    if server != [] {
      ExistingHolds(server[1..]);
      assert server == [server[0]] + server[1..];
    }
  }

  lemma {:induction false} ExistingApart(server: seq<Listing>)
    requires Pairwise(server, OtherName)
    ensures Pairwise(Existing(server), OtherName)
  {
    if server != [] {
      var rest := server[1..];
      ExistingApart(rest);
      ExistingHolds(rest);
      forall f | f in rest ensures OtherName(server[0], f) && OtherName(f, server[0]) {
        var j :| 0 <= j < |rest| && rest[j] == f;
        assert server[j + 1] == f;
      }
    }
  }

  predicate HasInbox(server: seq<Listing>) {
    exists k :: 0 <= k < |server| && !server[k].nonExistent && SameFolded(server[k].name, "INBOX")
  }

  /** What a completed refresh leaves, told without saying how: the folders kept are
      the same rows as before, the others are gone, all other rows were listed, and
      everything listed is stored, each new row under its parent's if there is one. */
  ghost predicate Refreshed(before: Rows, after: Rows, account: int, listed: seq<Listing>) {
    && (forall i :: i in before ==> (i in after <==> before[i].account != account || Kept(before[i], listed)))
    && (forall i :: i in before && i in after ==> after[i] == before[i])
    && (forall i :: i in after && i !in before ==> FromList(after[i], account, listed))
    && (forall f :: f in listed && !f.nonExistent ==> Taken(after, account, f.name))
    && Linked(before, after, account)
  }

  /** The names the server lists as existing, and the list without the others. */
  method ReadListing(server: seq<Listing>) returns (listed: seq<Listing>, onServer: set<string>, hasInbox: bool)
    ensures listed == Existing(server)
    ensures forall n :: n in onServer <==> Mentions(server, n)
    ensures hasInbox <==> HasInbox(server)
  {
    listed, onServer, hasInbox := [], {}, false;
    var k := 0;
    assert server[0..] == server;
    while k < |server|
      invariant 0 <= k <= |server|
      invariant listed + Existing(server[k..]) == Existing(server)
      invariant forall n :: n in onServer <==> exists j :: 0 <= j < k && server[j].name == n && !server[j].nonExistent
      invariant hasInbox <==> exists j :: 0 <= j < k && !server[j].nonExistent && SameFolded(server[j].name, "INBOX")
    {
      var f := server[k];
      assert server[k..][1..] == server[k + 1..];
      if !f.nonExistent {
        assert listed + ([f] + Existing(server[k + 1..])) == (listed + [f]) + Existing(server[k + 1..]);
        onServer, listed := onServer + {f.name}, listed + [f];
        CaseIgnored(f.name, "INBOX");
        if EqualFold(f.name, "INBOX") {
          hasInbox := true;
        }
      }
      k := k + 1;
    }
  }

  ghost predicate ListsGone(rows: Rows, account: int, listed: seq<Listing>, gone: seq<Folder>) {
    && (forall f :: f in gone ==> f.id in rows && f.row == rows[f.id] && f.row.account == account && !Kept(f.row, listed))
    && (forall i :: i in rows && rows[i].account == account && !Kept(rows[i], listed) ==> Folder(i, rows[i]) in gone)
    && Pairwise(gone, OtherId)
  }

  function Deepest(): Folder -> int {
    (f: Folder) => -|f.row.path|
  }

  /** The folders no longer listed, and the index of all that are stored. */
  method FindGone(rows: Rows, account: int, stored: seq<Folder>, listed: seq<Listing>, onServer: set<string>)
    returns (gone: seq<Folder>, byPath: map<string, int>)
    requires Lists(rows, account, stored) && Distinct(rows)
    requires forall k :: 0 <= k < |listed| ==> !listed[k].nonExistent
    requires forall n :: n in onServer <==> Mentions(listed, n)
    ensures ListsGone(rows, account, listed, gone)
    ensures Indexes(byPath, rows, account)
  {
    gone, byPath := [], map[];
    var k := 0;
    while k < |stored|
      invariant 0 <= k <= |stored|
      invariant forall f :: f in gone <==> f in stored[..k] && !Kept(f.row, listed)
      invariant Pairwise(gone, OtherId)
      invariant forall j :: 0 <= j < k ==> stored[j].row.path in byPath
      invariant forall p ::
        p in byPath ==> byPath[p] in rows && rows[byPath[p]].account == account && rows[byPath[p]].path == p
    {
      var f := stored[k];
      assert f in stored;
      assert stored[..k + 1] == stored[..k] + [f];
      assert forall g :: g in stored[..k] ==> OtherId(g, f) && OtherId(f, g);
      byPath := byPath[f.row.path := f.id];
      if f.row.path !in onServer {
        var nested := FindListedDescendant(f.row, listed);
        if !nested {
          gone := gone + [f];
        }
      }
      k := k + 1;
    }
    assert stored[..|stored|] == stored;
    forall i | i in rows && rows[i].account == account ensures rows[i].path in byPath && byPath[rows[i].path] == i {
      assert Folder(i, rows[i]) in stored;
      assert SamePlace(rows[i], rows[byPath[rows[i].path]]);
    }
  }

  lemma GoneClosed(rows: Rows, delims: Delims, account: int, listed: seq<Listing>, gone: seq<Folder>)
    requires WellFormed(rows, delims) && ListsGone(rows, account, listed, gone)
    ensures ClosedUnderChildren(rows, gone)
  {
    forall f, c | f in gone && c in rows && rows[c].parent == Some(f.id) ensures Folder(c, rows[c]) in gone {
      assert RowOk(rows, delims, c);
      if Kept(rows[c], listed) {
        DroppedWithChildren(rows, delims, listed, c);
      }
    }
  }

  /** The k-th folder to go, once those before it have gone: still there, and
      childless. */
  lemma TakenFromDeepest(rows: Rows, delims: Delims, fs: seq<Folder>, k: nat)
    requires WellFormed(rows, delims) && ClosedUnderChildren(rows, fs)
    requires Pairwise(fs, OtherId) && Sorted(fs, Deepest()) && k < |fs|
    ensures Ids(fs[..k + 1]) == Ids(fs[..k]) + {fs[k].id}
    ensures fs[k].id in rows - Ids(fs[..k])
    ensures Childless(rows - Ids(fs[..k]), fs[k].id)
  {
    var done, next := fs[..k], fs[..k + 1];
    assert forall j :: 0 <= j < k ==> done[j] == next[j] == fs[j];
    assert next[k] == fs[k] && fs[k] in fs;
    assert Ids(next) == Ids(done) + {fs[k].id};
    forall c | c in rows && rows[c].parent == Some(fs[k].id) ensures c in Ids(done) {
      ChildPath(rows, delims, c);
      var j :| 0 <= j < |fs| && fs[j] == Folder(c, rows[c]);
      assert Deepest()(fs[j]) < Deepest()(fs[k]);
      assert done[j] == fs[j];
    }
  }

  /** Purging and deleting the gone, deepest first. */
  method DropGone(st: Store, ghost delims: Delims, account: int, listed: seq<Listing>, gone: seq<Folder>,
                  known: map<string, int>)
    returns (ok: bool, byPath: map<string, int>)
    requires st.Valid(delims) && ListsGone(st.rows, account, listed, gone) && Indexes(known, st.rows, account)
    modifies st
    ensures st.Valid(delims) && st.nextId == old(st.nextId) && Indexes(byPath, st.rows, account)
    ensures forall i :: i in st.rows ==> i in old(st.rows) && st.rows[i] == old(st.rows)[i]
    ensures forall i ::
      i in old(st.rows) && i !in st.rows ==> old(st.rows)[i].account == account && !Kept(old(st.rows)[i], listed)
    ensures ok ==> st.rows == old(st.rows) - Ids(gone)
    ensures old(st.faults) == [] ==> ok && st.faults == []
  {
    ghost var before := st.rows;
    var sorted := StableSort(gone, Deepest());
    SortHolds(gone, Deepest());
    SortSorts(gone, Deepest());
    SortKeepsPairwise(gone, Deepest(), OtherId);
    GoneClosed(before, delims, account, listed, sorted);
    ghost var dropped;
    ok, byPath, dropped := DropInOrder(st, delims, account, sorted, known);
    SameIds(gone, sorted);
    OnlyGoneWent(before, account, listed, sorted, dropped);
  }

  /** The loop of it, over the sorted list. */
  method DropInOrder(st: Store, ghost delims: Delims, account: int, fs: seq<Folder>, known: map<string, int>)
    returns (ok: bool, byPath: map<string, int>, ghost dropped: set<int>)
    requires st.Valid(delims) && ClosedUnderChildren(st.rows, fs) && Pairwise(fs, OtherId) && Sorted(fs, Deepest())
    requires (forall f :: f in fs ==> f.row.account == account) && Indexes(known, st.rows, account)
    modifies st
    ensures st.Valid(delims) && st.nextId == old(st.nextId) && Indexes(byPath, st.rows, account)
    ensures dropped <= Ids(fs) && st.rows == old(st.rows) - dropped
    ensures ok ==> dropped == Ids(fs)
    ensures old(st.faults) == [] ==> ok && st.faults == []
  {
    ghost var before := st.rows;
    byPath, dropped := known, {};
    var k := 0;
    while k < |fs|
      invariant 0 <= k <= |fs|
      invariant st.Valid(delims) && st.nextId == old(st.nextId) && Indexes(byPath, st.rows, account)
      invariant dropped == Ids(fs[..k]) && st.rows == before - dropped
      invariant old(st.faults) == [] ==> st.faults == []
    {
      TakenFromDeepest(before, delims, fs, k);
      assert fs[k] in fs && fs[k].id in st.rows;
      ok := Drop(st, delims, fs[k].id);
      if !ok {
        IdsOfHead(fs, k);
        return;
      }
      dropped := dropped + {fs[k].id};
      byPath := byPath - {fs[k].row.path};
      k := k + 1;
    }
    assert fs[..|fs|] == fs;
    ok := true;
  }

  lemma IdsOfHead(fs: seq<Folder>, k: nat)
    requires k <= |fs|
    ensures Ids(fs[..k]) <= Ids(fs)
  {
    forall j | 0 <= j < |fs[..k]| ensures fs[..k][j].id in Ids(fs) {
      assert fs[..k][j] == fs[j];
    }
  }

  lemma OnlyGoneWent(rows: Rows, account: int, listed: seq<Listing>, gone: seq<Folder>, dropped: set<int>)
    requires ListsGone(rows, account, listed, gone) && dropped <= Ids(gone)
    ensures forall i :: i in dropped ==> i in rows && rows[i].account == account && !Kept(rows[i], listed)
  {
    assert forall j :: 0 <= j < |gone| ==> gone[j] in gone;
  }

  lemma SameIds(a: seq<Folder>, b: seq<Folder>)
    requires forall f :: f in a <==> f in b
    ensures Ids(a) == Ids(b)
  {
    assert forall k :: 0 <= k < |a| ==> a[k] in b;
    assert forall k :: 0 <= k < |b| ==> b[k] in a;
  }

  /** The listed folders that are not stored. */
  method FindAdded(listed: seq<Listing>, byPath: map<string, int>) returns (added: seq<Listing>)
    ensures forall f :: f in added <==> f in listed && f.name !in byPath
    ensures Pairwise(listed, OtherName) ==> Pairwise(added, OtherName)
  {
    added := [];
    var k := 0;
    while k < |listed|
      invariant 0 <= k <= |listed|
      invariant forall f :: f in added <==> f in listed[..k] && f.name !in byPath
      invariant Pairwise(listed, OtherName) ==> Pairwise(added, OtherName)
    {
      assert listed[..k + 1] == listed[..k] + [listed[k]];
      if listed[k].name !in byPath {
        if Pairwise(listed, OtherName) {
          assert forall f :: f in listed[..k] ==> OtherName(f, listed[k]) && OtherName(listed[k], f);
        }
        added := added + [listed[k]];
      }
      k := k + 1;
    }
    assert listed[..|listed|] == listed;
  }

  lemma ListedUse(server: seq<Listing>, d: string)
    requires AllUse(server, d)
    ensures AllUse(Existing(server), d)
    ensures forall n :: Mentions(Existing(server), n) <==> Mentions(server, n)
  {
    ExistingHolds(server);
    var listed := Existing(server);
    assert forall k :: 0 <= k < |server| && !server[k].nonExistent ==> server[k] in listed;
    assert forall k :: 0 <= k < |listed| ==> listed[k] in server;
  }

  /** The change reported is the change made. */
  lemma ChangedExactlyWhen(before: Rows, mid: Rows, after: Rows, account: int, listed: seq<Listing>, gone: seq<Folder>,
                           added: seq<Listing>)
    requires forall i :: i in after && i !in mid ==> i !in before
    requires mid == before - Ids(gone) && forall f :: f in gone ==> f.id in before
    requires Adds(mid, after, account, listed, added)
    ensures |gone| > 0 || |added| > 0 <==> after != before
  {
    if |gone| > 0 {
      assert gone[0] in gone && gone[0].id !in after;
    } else {
      assert mid == before;
      if |added| > 0 {
        assert added[0] in added;
      } else {
        assert forall i :: i in after ==> i in mid;
        assert forall i :: i in before ==> i in after && after[i] == before[i];
        assert after.Keys == before.Keys;
      }
    }
  }

  /** From the two halves of a refresh to what it leaves. */
  lemma HalvesMakeWhole(before: Rows, mid: Rows, after: Rows, account: int, listed: seq<Listing>, gone: seq<Folder>,
                        added: seq<Listing>)
    requires ListsGone(before, account, listed, gone) && mid == before - Ids(gone)
    requires Adds(mid, after, account, listed, added)
    requires forall i :: i in after && i !in mid ==> i !in before
    ensures Refreshed(before, after, account, listed)
  {
    assert forall i :: i in before ==> (i in Ids(gone) <==> before[i].account == account && !Kept(before[i], listed));
    forall i | i in after && i !in before ensures FromList(after[i], account, listed) {
      assert i !in mid;
      assert FromList(after[i], account, added);
    }
    forall f | f in listed && !f.nonExistent ensures Taken(after, account, f.name) {
      if f !in added {
        var i :| i in mid && mid[i].account == account && mid[i].path == f.name;
        assert i in after && after[i] == mid[i];
      }
    }
  }

  /** The part of refreshFolders that changes the store. */
  method Reconcile(st: Store, ghost delims: Delims, account: int, listed: seq<Listing>, onServer: set<string>)
    returns (r: Option<bool>)
    requires st.Valid(delims) && account in delims && IsDelimiter(delims[account]) && AllUse(listed, delims[account])
    requires forall f :: f in listed ==> !f.nonExistent
    requires forall n :: n in onServer <==> Mentions(listed, n)
    modifies st
    ensures st.Valid(delims)
    ensures Underway(old(st.rows), st.rows, account, listed)
    ensures r.Some? ==> Refreshed(old(st.rows), st.rows, account, listed)
    ensures r.Some? ==> (r.value <==> st.rows != old(st.rows))
    ensures old(st.faults) == [] ==> st.faults == []
    ensures old(st.faults) == [] && Pairwise(listed, OtherName) ==> r.Some?
  {
    ghost var before := st.rows;
    assert forall k :: 0 <= k < |listed| ==> listed[k] in listed;
    var stored := st.ListFolders(account);
    if stored.None? {
      return None;
    }
    var gone, byPath := FindGone(st.rows, account, stored.value, listed, onServer);
    var ok, left := DropGone(st, delims, account, listed, gone, byPath);
    if !ok {
      return None;
    }
    ghost var mid := st.rows;
    var added;
    ok, added := AddListed(st, delims, account, listed, left);
    if !ok {
      return None;
    }
    HalvesMakeWhole(before, mid, st.rows, account, listed, gone, added);
    ChangedExactlyWhen(before, mid, st.rows, account, listed, gone, added);
    r := Some(|gone| > 0 || |added| > 0);
  }

  ghost predicate Adds(mid: Rows, after: Rows, account: int, listed: seq<Listing>, added: seq<Listing>) {
    && (forall f :: f in added ==> f in listed)
    && (forall f :: f in listed ==> (f !in added <==> Taken(mid, account, f.name)))
    && Grown(mid, after, account, added) && Linked(mid, after, account)
    && (forall f :: f in added ==> Taken(after, account, f.name))
  }

  method AddListed(st: Store, ghost delims: Delims, account: int, listed: seq<Listing>, left: map<string, int>)
    returns (ok: bool, added: seq<Listing>)
    requires st.Valid(delims) && account in delims && IsDelimiter(delims[account]) && AllUse(listed, delims[account])
    requires forall f :: f in listed ==> !f.nonExistent
    requires Indexes(left, st.rows, account)
    modifies st
    ensures st.Valid(delims)
    ensures Grown(old(st.rows), st.rows, account, listed) && Linked(old(st.rows), st.rows, account)
    ensures FreshIds(old(st.rows), st.rows, old(st.nextId))
    ensures ok ==> Adds(old(st.rows), st.rows, account, listed, added)
    ensures old(st.faults) == [] ==> st.faults == []
    ensures old(st.faults) == [] && Pairwise(listed, OtherName) ==> ok
  {
    added := FindAdded(listed, left);
    NotAddedIsTaken(st.rows, account, listed, added, left);
    ok := CreateFolderTree(st, delims, account, added, left);
    forall i | i in st.rows && i !in old(st.rows) ensures FromList(st.rows[i], account, listed) {
      assert FromList(st.rows[i], account, added);
    }
  }

  /** refreshFolders. None is an error, the tree still well formed and changed only
      where it had to. */
  method RefreshFolders(st: Store, ghost delims: Delims, account: int, reply: Option<seq<Listing>>)
    returns (r: Option<bool>)
    requires st.Valid(delims) && account in delims && IsDelimiter(delims[account])
    requires reply.Some? ==> AllUse(reply.value, delims[account])
    modifies st
    ensures st.Valid(delims)
    ensures reply.None? ==> r == None
    ensures reply.None? || !HasInbox(reply.value) ==> st.rows == old(st.rows) && r != Some(true)
    ensures reply.Some? && HasInbox(reply.value) ==> Underway(old(st.rows), st.rows, account, Existing(reply.value))
    ensures r.Some? && HasInbox(reply.value) ==> Refreshed(old(st.rows), st.rows, account, Existing(reply.value))
    ensures r.Some? ==> (r.value <==> st.rows != old(st.rows))
    ensures old(st.faults) == [] ==> st.faults == []
    ensures old(st.faults) == [] && reply.Some? && Pairwise(reply.value, OtherName) ==> r.Some?
  {
    if reply.None? {
      return None;
    }
    var listed, onServer, hasInbox := ReadListing(reply.value);
    if !hasInbox {
      return Some(false);
    }
    ListedUse(reply.value, delims[account]);
    ExistingHolds(reply.value);
    if Pairwise(reply.value, OtherName) {
      ExistingApart(reply.value);
    }
    r := Reconcile(st, delims, account, listed, onServer);
  }

  lemma NotAddedIsTaken(mid: Rows, account: int, listed: seq<Listing>, added: seq<Listing>, left: map<string, int>)
    requires Indexes(left, mid, account)
    requires forall f :: f in added <==> f in listed && f.name !in left
    ensures forall f :: f in listed ==> (f !in added <==> Taken(mid, account, f.name))
  {
    forall f | f in listed ensures f !in added <==> Taken(mid, account, f.name) {
      IndexedMeansTaken(left, mid, account, f.name);
    }
  }

  // ----- what a refresh comes to

  /** The stored paths are the listed ones and those of bare parents stored before. */
  lemma PathsAfterRefresh(before: Rows, after: Rows, delims: Delims, account: int, listed: seq<Listing>, path: string)
    requires WellFormed(before, delims) && Refreshed(before, after, account, listed)
    ensures Taken(after, account, path) <==>
            || Mentions(listed, path)
            || exists i :: i in before && before[i].account == account && before[i].path == path && HasListedDescendant(before[i], listed)
  {
    if Taken(after, account, path) {
      var i :| i in after && after[i].account == account && after[i].path == path;
      if i in before {
        assert Kept(before[i], listed);
      } else {
        assert FromList(after[i], account, listed);
      }
    }
    if Mentions(listed, path) {
      var k :| 0 <= k < |listed| && listed[k].name == path && !listed[k].nonExistent;
      assert listed[k] in listed;
    }
    forall i | i in before && before[i].account == account && before[i].path == path && HasListedDescendant(before[i], listed)
      ensures Taken(after, account, path)
    {
      assert Kept(before[i], listed) && i in after && after[i] == before[i];
    }
  }

  /** A refresh leaves nothing for a second one, on the same list, to do. */
  lemma RefreshedTwice(before: Rows, mid: Rows, after: Rows, delims: Delims, account: int, listed: seq<Listing>)
    requires WellFormed(mid, delims) && WellFormed(after, delims)
    requires Refreshed(before, mid, account, listed) && Refreshed(mid, after, account, listed)
    ensures after == mid
  {
    forall i | i in mid ensures i in after {
      if i in before {
        assert before[i].account != account || Kept(before[i], listed);
      } else {
        assert FromList(mid[i], account, listed);
        var f :| f in listed && !f.nonExistent && AsListed(mid[i], account, f);
        var k :| 0 <= k < |listed| && listed[k] == f;
        assert Mentions(listed, mid[i].path);
        assert Kept(mid[i], listed);
      }
    }
    assert forall i :: i in mid ==> after[i] == mid[i];
    forall i | i in after ensures i in mid {
      if i !in mid {
        assert FromList(after[i], account, listed);
        var f :| f in listed && !f.nonExistent && AsListed(after[i], account, f);
        StoredAlready(mid, after, delims, account, f.name, i);
      }
    }
    assert after.Keys == mid.Keys;
  }

  lemma StoredAlready(mid: Rows, after: Rows, delims: Delims, account: int, path: string, i: int)
    requires WellFormed(after, delims) && i in after && after[i].account == account && after[i].path == path
    requires Taken(mid, account, path) && forall j :: j in mid ==> j in after && after[j] == mid[j]
    ensures i in mid
  {
    var j :| j in mid && mid[j].account == account && mid[j].path == path;
    assert after[j] == mid[j] && SamePlace(after[i], after[j]);
  }

  /** Refreshing twice against the same list: the second time reports no change and
      makes none. */
  method RefreshTwice(st: Store, ghost delims: Delims, account: int, server: seq<Listing>)
    requires st.Valid(delims) && account in delims && IsDelimiter(delims[account])
    requires AllUse(server, delims[account]) && Pairwise(server, OtherName) && st.faults == []
    modifies st
    ensures st.Valid(delims)
    ensures HasInbox(server) ==> Refreshed(old(st.rows), st.rows, account, Existing(server))
  {
    var first := RefreshFolders(st, delims, account, Some(server));
    ghost var before, mid := old(st.rows), st.rows;
    var second := RefreshFolders(st, delims, account, Some(server));
    if HasInbox(server) {
      RefreshedTwice(before, mid, st.rows, delims, account, Existing(server));
    }
    assert st.rows == mid && second == Some(false);
  }

  // ----- runs

  datatype Operation =
    | Create(account: int, parentId: int, name: string, serverAccepts: bool)
    | Rename(id: int, name: string, serverAccepts: bool)
    | Delete(id: int, serverAccepts: bool)
    | Refresh(account: int, reply: Option<seq<Listing>>)

  ghost predicate Proper(op: Operation, delims: Delims) {
    match op
    case Create(account, _, _, _) => account in delims && IsDelimiter(delims[account])
    case Refresh(account, reply) =>
      account in delims && IsDelimiter(delims[account]) && (reply.Some? ==> AllUse(reply.value, delims[account]))
    case _ => true
  }

  /** The two ways an operation breaks the tree: a row at the root without the
      account's delimiter, and a rename that cut into what some row is told by, or that
      stopped behind its statement. */
  ghost predicate Breaks(before: Rows, after: Rows, delims: Delims, op: Operation) {
    match op
    case Create(account, parentId, _, _) =>
      && parentId == 0 && account in delims && delims[account] != ""
      && exists i :: StoredFlat(before, after, account, i)
    case Rename(id, name, _) =>
      && AsksRename(before, id, TrimSpace(name))
      && (|| (after == SqlRenamed(before, id, TrimSpace(name)) && (PlainDelimiter(before[id].delim) ==> !AllTold(before, id)))
          || (after == SqlHalf(before, id, TrimSpace(name)) && (MovesRenamed(before, id, TrimSpace(name)) ==> !Childless(before, id))))
    case _ => false
  }

  ghost predicate StoredFlat(before: Rows, after: Rows, account: int, i: int) {
    i !in before && i in after && after == before[i := after[i]] && after[i].account == account && after[i].delim == ""
  }

  /** Every run of the four operations, whatever the store and the servers refuse,
      keeps the tree well formed, up to an operation that breaks it in one of those
      two ways. An INBOX left to itself keeps its row, name and path through all of it,
      as long as each refresh of its account finds it listed. */
  method Run(st: Store, delims: Delims, ops: seq<Operation>) returns (done: nat, ghost last: Rows)
    requires st.Valid(delims) && forall op :: op in ops ==> Proper(op, delims)
    modifies st
    ensures done <= |ops|
    ensures st.Valid(delims) ==> done == |ops|
    ensures !st.Valid(delims) ==> 0 < done && WellFormed(last, delims) && Breaks(last, st.rows, delims, ops[done - 1])
    ensures forall i :: i in old(st.rows) && SparedBy(ops[..done], old(st.rows)[i]) ==> HasRow(st.rows, i, old(st.rows)[i])
  {
    done, last := 0, st.rows;
    while done < |ops| && st.Valid(delims)
      invariant done <= |ops|
      invariant !st.Valid(delims) ==>
        0 < done && WellFormed(last, delims) && Breaks(last, st.rows, delims, ops[done - 1])
      invariant forall i :: i in old(st.rows) && SparedBy(ops[..done], old(st.rows)[i]) ==> HasRow(st.rows, i, old(st.rows)[i])
    {
      assert ops[..done + 1] == ops[..done] + [ops[done]];
      assert ops[done] in ops;
      last := st.rows;
      Perform(st, delims, ops[done]);
      done := done + 1;
    }
  }

  /** An INBOX left to itself, on a server whose delimiter is no letter, unless a refresh
      of its account no longer finds it listed under that very name. */
  ghost predicate Spares(op: Operation, r: Row) {
    && IsInbox(r) && PlainDelimiter(r.delim)
    && (op.Refresh? && op.account == r.account && op.reply.Some? ==> Mentions(op.reply.value, r.path))
  }

  ghost predicate SparedBy(ops: seq<Operation>, r: Row) {
    IsInbox(r) && PlainDelimiter(r.delim) && forall op :: op in ops ==> Spares(op, r)
  }

  predicate HasRow(rows: Rows, i: int, r: Row) {
    i in rows && rows[i] == r
  }

  /** No rename and no deletion of another folder reaches it, and its own are refused. */
  lemma InboxesApart(rows: Rows, delims: Delims, id: int)
    requires WellFormed(rows, delims) && id in rows
    ensures forall i :: i in rows && IsInbox(rows[i]) && PlainDelimiter(rows[i].delim) ==>
      !Matched(rows, id, i) && (i == id ==> Guarded(rows[id]))
  {
    forall i | i in rows && IsInbox(rows[i]) && PlainDelimiter(rows[i].delim)
      ensures !Matched(rows, id, i) && (i == id ==> Guarded(rows[id]))
    {
      InboxIsGuarded(rows[i]);
      assert RowOk(rows, delims, i) && RowOk(rows, delims, id);
      if Matched(rows, id, i) {
        PrefixHasDelimiter(rows[i].path, rows[id].path, rows[id].delim);
        InboxIsLetters(rows[i].path);
      }
    }
  }

  lemma InboxIsLetters(path: string)
    requires SameFolded(path, "inbox")
    ensures forall k :: 0 <= k < |path| ==> IsLetter(path[k])
  {
    assert forall k :: 0 <= k < |path| ==> Fold(path[k]) == Fold("inbox"[k]) && 'a' <= "inbox"[k] <= 'z';
  }

  lemma StillListed(account: int, server: seq<Listing>)
    ensures forall r: Row :: Mentions(server, r.path) ==> Kept(r, Existing(server))
  {
    ExistingHolds(server);
    var listed := Existing(server);
    forall r: Row | Mentions(server, r.path) ensures Mentions(listed, r.path) {
      var k :| 0 <= k < |server| && server[k].name == r.path && !server[k].nonExistent;
      assert server[k] in listed;
    }
  }

  method Perform(st: Store, ghost delims: Delims, op: Operation)
    requires st.Valid(delims) && Proper(op, delims)
    modifies st
    ensures st.Valid(delims) || Breaks(old(st.rows), st.rows, delims, op)
    ensures forall i :: i in old(st.rows) && Spares(op, old(st.rows)[i]) ==> i in st.rows && st.rows[i] == old(st.rows)[i]
  {
    ghost var before := st.rows;
    match op
    case Create(account, parentId, name, serverAccepts) =>
      var id := CreateFolder(st, delims, account, parentId, name, serverAccepts);
      assert id.Some? && !st.Valid(delims) ==> StoredFlat(old(st.rows), st.rows, account, id.value);
    case Rename(id, name, serverAccepts) =>
      if id in before {
        InboxesApart(before, delims, id);
      }
      var _ := RenameFolder(st, delims, id, name, serverAccepts);
    case Delete(id, serverAccepts) =>
      if id in before {
        InboxesApart(before, delims, id);
      }
      var _ := DeleteFolder(st, delims, id, serverAccepts);
    case Refresh(account, reply) =>
      if reply.Some? {
        StillListed(account, reply.value);
      }
      var _ := RefreshFolders(st, delims, account, reply);
  }
}
