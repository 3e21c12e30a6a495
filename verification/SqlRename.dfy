/** What the statements of `FolderSql` make of a rename and a deletion, and exactly
    when that is what they are for (internal/desktop/bind_folders.go). */
module SqlRename {
  import opened Bytes
  import opened Options
  import opened SqlText
  import opened FolderPaths
  import opened FolderTree
  import opened FolderSql

  predicate MovesRenamed(rows: Rows, id: int, name: string)
    requires id in rows
  {
    MovesExactly(rows, rows[id].account, rows[id].path, NewPath(rows, id, name), rows[id].delim)
  }

  /** After the first statement of a rename. */
  function SqlHalf(rows: Rows, id: int, name: string): Rows
    requires id in rows
  {
    SqlMoved(rows, rows[id].account, rows[id].path, NewPath(rows, id, name), rows[id].delim)
  }

  predicate HalfClashes(rows: Rows, id: int, name: string)
    requires id in rows
  {
    SqlClashes(rows, rows[id].account, rows[id].path, NewPath(rows, id, name), rows[id].delim)
  }

  /** After both. */
  function SqlRenamed(rows: Rows, id: int, name: string): Rows
    requires id in rows
  {
    SqlHalf(rows, id, name)[id := rows[id].(name := name, path := NewPath(rows, id, name))]
  }

  lemma RenamedRowApart(rows: Rows, id: int, name: string)
    requires id in rows
    ensures SqlHalf(rows, id, name)[id] == rows[id] == HalfRenamed(rows, id, name)[id]
  {
  }

  /** A rename comes to the same as replacing the prefix, half or whole, if and only
      if the statement does. */
  lemma RenamedExactlyWhen(rows: Rows, id: int, name: string)
    requires id in rows && IsDelimiter(rows[id].delim)
    ensures SqlHalf(rows, id, name) == HalfRenamed(rows, id, name) <==> MovesRenamed(rows, id, name)
    ensures SqlRenamed(rows, id, name) == Renamed(rows, id, name) <==> MovesRenamed(rows, id, name)
  {
    SqlMovesSubtreeExactlyWhen(rows, rows[id].account, rows[id].path, NewPath(rows, id, name), rows[id].delim);
    RenamedRowApart(rows, id, name);
    var sql, want := SqlHalf(rows, id, name), HalfRenamed(rows, id, name);
    if SqlRenamed(rows, id, name) == Renamed(rows, id, name) {
      forall i | i in rows ensures sql[i] == want[i] {
        assert i != id ==> sql[i] == SqlRenamed(rows, id, name)[i] == Renamed(rows, id, name)[i] == want[i];
      }
      assert sql == want;
    }
  }

  /** Whatever it does, the statement stores no path twice. */
  lemma SqlMovedDistinct(rows: Rows, account: int, from: string, to: string, d: string)
    requires Distinct(rows) && !SqlClashes(rows, account, from, to, d)
    ensures Distinct(SqlMoved(rows, account, from, to, d))
  {
    var after := SqlMoved(rows, account, from, to, d);
    forall i, j | i in after && j in after && SamePlace(after[i], after[j]) ensures i == j {
      assert !ClashesWith(rows, account, from, to, d, i, j) && !ClashesWith(rows, account, from, to, d, j, i);
      assert SamePlace(rows[i], rows[j]) ==> i == j;
    }
  }

  /** Where the statement replaces the prefix, it is refused exactly when some path
      would be stored twice: the order of the rows does not matter. */
  lemma ClashesAgree(rows: Rows, delims: Delims, id: int, name: string)
    requires WellFormed(rows, delims) && id in rows && SingleSegment(name, rows[id].delim) && name != rows[id].name
    requires MovesRenamed(rows, id, name)
    ensures HalfClashes(rows, id, name) <==> Clashes(rows, id, name)
  {
    var r, to := rows[id], NewPath(rows, id, name);
    assert RowOk(rows, delims, id);
    forall i | i in rows
      ensures SqlRowMoved(rows[i], r.account, r.path, to, r.delim) == RowMoved(rows[i], r.account, r.path, to, r.delim)
    {
      RowMovesExactlyWhen(rows[i], r.account, r.path, to, r.delim);
    }
    forall i, j | i in rows && j in rows && ClashesWith(rows, r.account, r.path, to, r.delim, i, j)
      ensures Clashes(rows, id, name)
    {
      ClashIsClash(rows, delims, id, name, i, j);
    }
    forall i, j | i in rows && j in rows && IsMoved(rows[i], r.account, r.path, r.delim)
        && rows[j].account == r.account && !Inside(rows[j].path, r.path, r.delim) && rows[j].path == Moved(rows[i].path, r.path, to, r.delim)
      ensures HalfClashes(rows, id, name)
    {
      PrefixIsLike(rows[i].path, r.path + r.delim);
      assert ClashesWith(rows, r.account, r.path, to, r.delim, i, j);
    }
  }

  lemma ClashIsClash(rows: Rows, delims: Delims, id: int, name: string, i: int, j: int)
    requires WellFormed(rows, delims) && id in rows && SingleSegment(name, rows[id].delim) && name != rows[id].name
    requires MovesRenamed(rows, id, name) && i in rows && j in rows
    requires forall k ::
      k in rows ==> SqlRowMoved(rows[k], rows[id].account, rows[id].path, NewPath(rows, id, name), rows[id].delim) == RowMoved(rows[k], rows[id].account, rows[id].path, NewPath(rows, id, name), rows[id].delim)
    requires ClashesWith(rows, rows[id].account, rows[id].path, NewPath(rows, id, name), rows[id].delim, i, j)
    ensures Clashes(rows, id, name)
  {
    var r, to := rows[id], NewPath(rows, id, name);
    assert RowOk(rows, delims, id);
    assert !SamePlace(rows[i], rows[j]);
    assert SqlRowMoved(rows[i], r.account, r.path, to, r.delim).path == SqlPath(rows[i].path, r.path, to, r.delim);
    if Inside(rows[i].path, r.path, r.delim) {
      MovedIsOutside(rows[i].path, r.path, name, r.delim);
      if Inside(rows[j].path, r.path, r.delim) && j < i {
        MovedInjective(rows[i].path, rows[j].path, r.path, to, r.delim);
      }
    }
  }

  // ----- what an inexact move breaks

  lemma CutBelow(q: string, leaf: string, to: string, d: string, n: nat)
    requires |d| == 1 && IsDelimiter(d) && d[0] !in leaf && n == |q + d|
    ensures Parent(to + d + SkipChars(q + d + leaf, n), d) == Some(to)
    ensures Leaf(to + d + SkipChars(q + d + leaf, n), d) == leaf <==> CharCount(q + d) == |q + d| || leaf == ""
  {
    CountBounds(q + d);
    var k := n - CharCount(q + d);
    SkipPast(q + d, leaf, k);
    SkipIsSuffix(leaf, k);
    SkipShortens(leaf, k);
    CutAt(to, d, SkipChars(leaf, k));
  }

  lemma FoldedPrefix(path: string, q: string, from: string, d: string, leaf: string)
    requires SameFolded(q, from) && path == q + d + leaf
    ensures LikePrefix(path, from + d) && |q + d| == |from + d|
  {
    forall k | 0 <= k < |from + d| ensures Fold(path[k]) == Fold((from + d)[k]) {
      assert k < |from| ==> path[k] == q[k] && (from + d)[k] == from[k];
      assert k >= |from| ==> path[k] == d[k - |from|] == (from + d)[k];
    }
  }

  /** A row that hangs right under a folder whose path is the renamed one up to case
      is still in place after a complete rename if and only if that folder is the
      renamed one, or took its new path, and its prefix has as many characters as
      bytes, or there is no name to cut. */
  lemma FirstLevelExactlyWhen(rows: Rows, delims: Delims, id: int, name: string, i: int)
    requires WellFormed(rows, delims) && id in rows && i in rows && rows[i].parent.Some?
    requires rows[i].account == rows[id].account && SameFolded(rows[rows[i].parent.value].path, rows[id].path)
    ensures rows[i].parent.value in rows
    ensures var p := rows[i].parent.value; var under := rows[p].path + rows[id].delim;
            RowOk(SqlRenamed(rows, id, name), delims, i) <==>
            (p == id || rows[p].path == NewPath(rows, id, name)) && (CharCount(under) == |under| || rows[i].name == "")
  {
    ChildPath(rows, delims, i);
    assert RowOk(rows, delims, i) && RowOk(rows, delims, id);
    var p, r, to := rows[i].parent.value, rows[id], NewPath(rows, id, name);
    var q, d, leaf := rows[p].path, r.delim, rows[i].name;
    FoldedPrefix(rows[i].path, q, r.path, d, leaf);
    CutBelow(q, leaf, to, d, |r.path + d|);
    var after := SqlRenamed(rows, id, name);
    assert after[i] == rows[i].(path := to + d + SkipChars(q + d + leaf, |r.path + d|));
    assert after[p].path == if p == id then to else q;
  }

  // ----- a rename cut short

  /** Cut short after the subtree moved, a rename that moves exactly has broken the
      tree if and only if some row hangs under the renamed one. */
  lemma HalfBreaksExactlyWhen(rows: Rows, delims: Delims, id: int, name: string)
    requires WellFormed(rows, delims) && id in rows && SingleSegment(name, rows[id].delim) && name != rows[id].name
    requires MovesRenamed(rows, id, name) && !HalfClashes(rows, id, name)
    ensures WellFormed(SqlHalf(rows, id, name), delims) <==> Childless(rows, id)
  {
    assert RowOk(rows, delims, id);
    RenamedExactlyWhen(rows, id, name);
    ClashesAgree(rows, delims, id, name);
    HalfRenameBreaksExactlyWhen(rows, delims, id, name);
  }

  /** Run to its end, it keeps the tree well formed. */
  lemma CompleteKeeps(rows: Rows, delims: Delims, id: int, name: string)
    requires WellFormed(rows, delims) && id in rows && SingleSegment(name, rows[id].delim) && name != rows[id].name
    requires MovesRenamed(rows, id, name) && !HalfClashes(rows, id, name)
    requires !PathHeld(SqlHalf(rows, id, name), id, rows[id].account, NewPath(rows, id, name))
    ensures SqlRenamed(rows, id, name) == Renamed(rows, id, name)
    ensures WellFormed(SqlRenamed(rows, id, name), delims)
  {
    assert RowOk(rows, delims, id);
    RenamedExactlyWhen(rows, id, name);
    ClashesAgree(rows, delims, id, name);
    RenameKeeps(rows, delims, id, name);
  }

  /** A row the statement has put in its place stays there when it runs again. */
  lemma StaysPut(rows: Rows, delims: Delims, id: int, name: string, j: int)
    requires WellFormed(rows, delims) && id in rows && SingleSegment(name, rows[id].delim) && name != rows[id].name
    requires MovesRenamed(rows, id, name) && j in rows && (rows[id].delim != "" ==> !IsLetter(rows[id].delim[0]))
    ensures var r := rows[id]; var to := NewPath(rows, id, name);
            SqlRowMoved(SqlHalf(rows, id, name)[j], r.account, r.path, to, r.delim) == SqlHalf(rows, id, name)[j]
  {
    var r, to := rows[id], NewPath(rows, id, name);
    assert RowOk(rows, delims, id);
    RowMovesExactlyWhen(rows[j], r.account, r.path, to, r.delim);
    if IsMoved(rows[j], r.account, r.path, r.delim) {
      PrefixIsLike(rows[j].path, r.path + r.delim);
      MovedStaysPut(rows[j].path, r.path, name, r.delim);
    }
  }

  lemma MovedStaysPut(path: string, from: string, name: string, d: string)
    requires |d| == 1 && IsDelimiter(d) && !IsLetter(d[0]) && SingleSegment(name, d)
    requires Inside(path, from, d) && (CharCount(from + d) == |from + d| || path == from + d)
    ensures var to := RenamedPath(from, name, d); var moved := Moved(path, from, to, d);
            LikePrefix(moved, from + d) ==> SqlPath(moved, from, to, d) == moved
  {
    var to := RenamedPath(from, name, d);
    var moved := Moved(path, from, to, d);
    if LikePrefix(moved, from + d) {
      assert (to + d) <= moved;
      CaseApart(moved, from, name, d);
      CountFolds(from + d, to + d);
      CutExactlyWhen(to + d, path[|from + d|..]);
    }
  }

  /** Renaming again after such a stop reaches what one whole rename would have
      reached. */
  lemma RenameAgainRecovers(rows: Rows, delims: Delims, id: int, name: string)
    requires WellFormed(rows, delims) && id in rows && SingleSegment(name, rows[id].delim) && name != rows[id].name
    requires MovesRenamed(rows, id, name) && (rows[id].delim != "" ==> !IsLetter(rows[id].delim[0]))
    ensures id in SqlHalf(rows, id, name) && SqlRenamed(SqlHalf(rows, id, name), id, name) == Renamed(rows, id, name)
  {
    RenamedRowApart(rows, id, name);
    assert RowOk(rows, delims, id);
    RenamedExactlyWhen(rows, id, name);
    var half := SqlHalf(rows, id, name);
    forall j | j in rows ensures SqlHalf(half, id, name)[j] == half[j] {
      StaysPut(rows, delims, id, name, j);
    }
    assert SqlHalf(half, id, name) == half;
  }

  // ----- what a deletion takes

  /** The folder and the rows FolderDescendants returns for it. */
  function SqlSubtree(rows: Rows, id: int): set<int>
    requires id in rows
  {
    set i | i in rows && (i == id || Matches(rows[i], rows[id].account, rows[id].path, rows[id].delim))
  }

  /** They are the subtree if and only if no row of the account lies inside only up
      to case. */
  lemma SqlSubtreeExactlyWhen(rows: Rows, id: int)
    requires id in rows
    ensures Subtree(rows, id) <= SqlSubtree(rows, id)
    ensures SqlSubtree(rows, id) == Subtree(rows, id) <==>
      NoTwins(rows, rows[id].account, rows[id].path, rows[id].delim)
    ensures rows - SqlSubtree(rows, id) == rows - Subtree(rows, id) <==>
      NoTwins(rows, rows[id].account, rows[id].path, rows[id].delim)
  {
    var r, sql, want := rows[id], SqlSubtree(rows, id), Subtree(rows, id);
    SqlListsSubtreeExactlyWhen(rows, r.account, r.path, r.delim);
    forall i | i in rows && IsMoved(rows[i], r.account, r.path, r.delim) ensures i in sql {
      PrefixIsLike(rows[i].path, r.path + r.delim);
    }
    if rows - sql == rows - want {
      assert forall i :: i in rows ==> (i in sql <==> i !in rows - sql);
      assert forall i :: i in rows ==> (i in want <==> i !in rows - want);
    }
    if sql == want {
      assert forall i :: i in rows && i != id ==> (i in sql <==> i in want);
    }
  }

  /** A child of what matches, or of the folder itself, matches. */
  lemma ChildMatches(rows: Rows, delims: Delims, id: int, c: int)
    requires WellFormed(rows, delims) && id in rows && c in rows && rows[c].parent.Some?
    requires rows[c].parent.value in SqlSubtree(rows, id)
    ensures c in SqlSubtree(rows, id) && c != id
  {
    ChildPath(rows, delims, c);
    assert RowOk(rows, delims, c) && RowOk(rows, delims, id);
    var p, d, leaf := rows[rows[c].parent.value].path, rows[c].delim, rows[c].name;
    if rows[c].parent.value == id {
    } else {
      assert p + d + leaf == p + (d + leaf);
    }
  }

  // ----- at two inputs

  /** A folder at the root and one a level below `above`. */
  function TwoRows(top: string, above: string, leaf: string, parent: Option<int>): Rows {
    map[1 := Row(1, top, top, "/", None, [], ""), 2 := Row(1, leaf, above + "/" + leaf, "/", parent, [], "")]
  }

  lemma TwoRowsFine(top: string, above: string, leaf: string, parent: Option<int>)
    requires '/' !in top && '/' !in leaf
    requires parent == None || (parent == Some(1) && above == top)
    ensures WellFormed(TwoRows(top, above, leaf, parent), map[1 := "/"])
  {
    var rows, delims := TwoRows(top, above, leaf, parent), map[1 := "/"];
    CutNone(top, "/");
    CutAt(above, "/", leaf);
    assert (above + "/" + leaf)[|above|] == '/';
    assert RowOk(rows, delims, 1) && RowOk(rows, delims, 2);
  }

  /** "B\u00fccher", seven bytes of UTF-8 for six characters. */
  function Umlaut(): string {
    "B" + "\U{c3}\U{bc}" + "cher"
  }

  lemma UmlautCuts()
    ensures SkipChars(Umlaut() + "/" + "Roman", |Umlaut() + "/"|) == "oman"
  {
    var s := Umlaut() + "/" + "Roman";
    var tail := s[1..];
    assert s[0] == 'B' && tail[0] == '\U{c3}' && tail[1] == '\U{bc}' && tail[2] == 'c';
    assert s[Width(s)..] == tail;
    assert tail[1..][0] == '\U{bc}' && tail[1..][1..][0] == 'c';
    assert Continuations(tail[1..][1..]) == 0;
    assert Continuations(tail[1..]) == 1;
    assert tail[Width(tail)..] == "cher/R" + "oman";
    SkipStep(s, tail, 7);
    SkipStep(tail, tail[Width(tail)..], 6);
    CountBounds("cher/R");
    CutExactlyWhen("cher/R", "oman");
  }

  lemma MovedBelow(top: string, leaf: string, name: string, cut: string)
    requires '/' !in top && '/' !in leaf && '/' !in name && '/' !in cut
    requires SkipChars(top + "/" + leaf, |top + "/"|) == cut
    ensures var rows := TwoRows(top, top, leaf, Some(1));
            && !HalfClashes(rows, 1, name) && NewPath(rows, 1, name) == name
            && SqlHalf(rows, 1, name) == rows[2 := rows[2].(path := name + "/" + cut)]
    ensures Parent(name + "/" + cut, "/") == Some(name) && Leaf(name + "/" + cut, "/") == cut
  {
    var rows := TwoRows(top, top, leaf, Some(1));
    CutNone(top, "/");
    PrefixIsLike(rows[2].path, top + "/");
    var half := SqlHalf(rows, 1, name);
    assert half[1] == rows[1] && half[2].path == name + "/" + cut;
    assert half[2].path[|name|] == '/';
    assert rows[1].path != half[2].path;
    CutAt(name, "/", cut);
  }

  lemma WrongLeaf(top: string, leaf: string, name: string, cut: string)
    requires '/' !in top && '/' !in leaf && '/' !in name && '/' !in cut && cut != leaf
    requires SkipChars(top + "/" + leaf, |top + "/"|) == cut
    ensures var rows := TwoRows(top, top, leaf, Some(1));
            && !HalfClashes(rows, 1, name)
            && SqlRenamed(rows, 1, name)[2].path == name + "/" + cut
            && !WellFormed(SqlRenamed(rows, 1, name), map[1 := "/"])
  {
    MovedBelow(top, leaf, name, cut);
    assert !RowOk(SqlRenamed(TwoRows(top, top, leaf, Some(1)), 1, name), map[1 := "/"], 2);
  }

  /** "a" holds "b" and is renamed to "c": stopped after the first write, "c/b" hangs
      under "a". */
  lemma HalfRenameBreaks()
    ensures var rows := TwoRows("a", "a", "b", Some(1));
            && WellFormed(rows, map[1 := "/"]) && !HalfClashes(rows, 1, "c")
            && SqlHalf(rows, 1, "c")[2] == Row(1, "b", "c" + "/" + "b", "/", Some(1), [], "")
            && !WellFormed(SqlHalf(rows, 1, "c"), map[1 := "/"])
  {
    TwoRowsFine("a", "a", "b", Some(1));
    assert "a" + "/" + "b" == ("a" + "/") + "b";
    CountBounds("a" + "/");
    CutExactlyWhen("a" + "/", "b");
    MovedBelow("a", "b", "c", "b");
  }

  /** "B\u00fccher" holds "Roman" and is renamed to "Books": both writes succeed, and
      the child is stored as "Books/oman" under the name "Roman". */
  lemma UmlautRename()
    ensures var rows := TwoRows(Umlaut(), Umlaut(), "Roman", Some(1));
            && WellFormed(rows, map[1 := "/"]) && !HalfClashes(rows, 1, "Books")
            && SqlRenamed(rows, 1, "Books")[2] == Row(1, "Roman", "Books" + "/" + "oman", "/", Some(1), [], "")
            && !WellFormed(SqlRenamed(rows, 1, "Books"), map[1 := "/"])
  {
    TwoRowsFine(Umlaut(), Umlaut(), "Roman", Some(1));
    UmlautCuts();
    WrongLeaf(Umlaut(), "Roman", "Books", "oman");
  }

  lemma TwinGoes(top: string, twin: string, leaf: string)
    requires SameFolded(top, twin) && top != twin
    ensures var rows := TwoRows(top, twin, leaf, None); Subtree(rows, 1) == {1} && SqlSubtree(rows, 1) == {1, 2}
  {
    FoldedPrefix(twin + "/" + leaf, twin, top, "/", leaf);
    var path, prefix := twin + "/" + leaf, top + "/";
    assert path[..|prefix|][..|top|] == twin && prefix[..|top|] == top;
  }

  /** Deleting "work" takes "Work/A" along. */
  lemma TwinDeletion()
    ensures var rows := TwoRows("work", "Work", "A", None);
            WellFormed(rows, map[1 := "/"]) && Subtree(rows, 1) == {1} && SqlSubtree(rows, 1) == {1, 2}
  {
    TwoRowsFine("work", "Work", "A", None);
    assert "work"[0] != "Work"[0];
    TwinGoes("work", "Work", "A");
  }
}
