/** Exactly when a complete rename leaves the stored tree well formed, whatever the
    statement of `FolderSql` moves (internal/desktop/bind_folders.go,
    internal/storage/folders.go). */
module RenameBreaks {
  import opened Bytes
  import opened Options
  import opened SqlText
  import opened FolderPaths
  import opened FolderTree
  import opened FolderSql
  import opened SqlRename

  predicate Matched(rows: Rows, id: int, i: int)
    requires id in rows && i in rows
  {
    Matches(rows[i], rows[id].account, rows[id].path, rows[id].delim)
  }

  /** The bytes of the old prefix, which are skipped as characters. */
  function Skipped(rows: Rows, id: int): nat
    requires id in rows
  {
    |rows[id].path + rows[id].delim|
  }

  /** What is cut off the row does not reach into what it is told by: without a parent,
      its name; right under the renamed folder, its name again; under a row that
      matches too, that row's path. Under any other row it is not told at all. */
  predicate StaysTold(rows: Rows, id: int, i: int)
    requires id in rows && i in rows
  {
    match rows[i].parent
    case None => |rows[i].name| <= |SkipChars(rows[i].path, Skipped(rows, id))|
    case Some(p) =>
      if p == id then CharCount(rows[id].path + rows[id].delim) == Skipped(rows, id) || rows[i].name == ""
      else p in rows && Matched(rows, id, p) && Skipped(rows, id) <= CharCount(rows[p].path)
  }

  predicate AllTold(rows: Rows, id: int)
    requires id in rows
  {
    forall i | i in rows && Matched(rows, id, i) :: StaysTold(rows, id, i)
  }

  predicate PlainDelimiter(d: string) {
    d != "" ==> !IsLetter(d[0])
  }

  // ----- one row

  /** The last segment of a path put behind `to` from somewhere on. */
  lemma LeafBehind(q: string, d: string, leaf: string, s: string, to: string)
    requires |d| == 1 && d[0] !in leaf
    requires |s| <= |q + d + leaf| && s == (q + d + leaf)[|q + d + leaf| - |s|..]
    ensures Leaf(to + d + s, d) == leaf <==> |leaf| <= |s|
  {
    var path := q + d + leaf;
    if |s| <= |leaf| {
      assert s == leaf[|leaf| - |s|..];
      CutAt(to, d, s);
    } else {
      var x := q[|path| - |s|..];
      assert s == x + d + leaf;
      assert to + d + s == (to + d + x) + d + leaf;
      CutAt(to + d + x, d, leaf);
    }
  }

  lemma PrefixHasDelimiter(path: string, from: string, d: string)
    requires |d| == 1 && !IsLetter(d[0]) && LikePrefix(path, from + d)
    ensures |from| < |path| && path[|from|] == d[0]
  {
    assert (from + d)[|from|] == d[0];
    assert Fold(path[|from|]) == Fold(d[0]);
  }

  lemma RootRowExactlyWhen(rows: Rows, delims: Delims, id: int, name: string, i: int)
    requires WellFormed(rows, delims) && id in rows && i in rows && i != id && Matched(rows, id, i)
    requires !IsLetter(rows[id].delim[0]) && rows[i].parent == None
    ensures RowOk(SqlRenamed(rows, id, name), delims, i) <==> StaysTold(rows, id, i)
  {
    assert RowOk(rows, delims, i) && RowOk(rows, delims, id);
    var r, d, path, n := rows[id], rows[id].delim, rows[i].path, Skipped(rows, id);
    PrefixHasDelimiter(path, r.path, d);
    HasParent(path, d);
    CutParts(path, d);
    SkipIsSuffix(path, n);
    LeafBehind(Parent(path, d).value, d, rows[i].name, SkipChars(path, n), NewPath(rows, id, name));
  }

  lemma HasParent(path: string, d: string)
    requires |d| == 1 && d[0] in path
    ensures Parent(path, d).Some?
  {
    if Parent(path, d) == None {
      CutParts(path, d);
    }
  }

  /** A row under one that matches too. */
  lemma DeepRowExactlyWhen(rows: Rows, delims: Delims, id: int, name: string, i: int, p: int)
    requires WellFormed(rows, delims) && id in rows && i in rows && i != id && Matched(rows, id, i)
    requires rows[i].parent == Some(p) && p in rows && p != id && Matched(rows, id, p)
    ensures RowOk(SqlRenamed(rows, id, name), delims, i) <==> Skipped(rows, id) <= CharCount(rows[p].path)
  {
    ChildPath(rows, delims, i);
    assert RowOk(rows, delims, i) && RowOk(rows, delims, id);
    DeepPaths(rows[p].path, rows[id].delim, rows[i].name, NewPath(rows, id, name), Skipped(rows, id));
  }

  lemma DeepPaths(q: string, d: string, leaf: string, to: string, n: nat)
    requires |d| == 1 && IsDelimiter(d) && d[0] !in leaf
    ensures var moved := to + d + SkipChars(q + d + leaf, n);
            && (Parent(moved, d) == Some(to + d + SkipChars(q, n)) <==> n <= CharCount(q))
            && (n <= CharCount(q) ==> Leaf(moved, d) == leaf)
  {
    assert q + d + leaf == q + (d + leaf);
    if n <= CharCount(q) {
      SkipWithin(q, d + leaf, n);
      var s := SkipChars(q, n);
      assert to + d + (s + (d + leaf)) == (to + d + s) + d + leaf;
      CutAt(to + d + s, d, leaf);
    } else {
      SkipAcross(q, d + leaf, n);
      CutShort(to, d, leaf, n - CharCount(q));
    }
  }

  lemma CutShort(to: string, d: string, leaf: string, m: nat)
    requires |d| == 1 && IsDelimiter(d) && d[0] !in leaf && 0 < m
    ensures Parent(to + d + SkipChars(d + leaf, m), d) == Some(to) && to != to + d + ""
  {
    assert (d + leaf)[1..] == leaf && (d + leaf)[0] == d[0];
    SkipStep(d + leaf, leaf, m - 1);
    SkipIsSuffix(leaf, m - 1);
    CutAt(to, d, SkipChars(leaf, m - 1));
    assert |to + d + ""| > |to|;
  }

  lemma ParentFolds(q: string, leaf: string, from: string, d: string)
    requires |d| == 1 && !IsLetter(d[0]) && d[0] !in leaf
    requires LikePrefix(q + d + leaf, from + d) && !LikePrefix(q, from + d)
    ensures SameFolded(q, from)
  {
    var path := q + d + leaf;
    PrefixHasDelimiter(path, from, d);
    assert forall k :: 0 <= k < |from| ==> Fold(path[k]) == Fold((from + d)[k]) && (from + d)[k] == from[k];
    assert forall k :: 0 <= k < |q| ==> path[k] == q[k];
    assert forall k :: |q| < k < |path| ==> path[k] == leaf[k - |q| - 1];
  }

  /** A row that matches under one that does not. */
  lemma TwinRowBreaks(rows: Rows, delims: Delims, id: int, name: string, i: int, p: int)
    requires WellFormed(rows, delims) && id in rows && i in rows && i != id && Matched(rows, id, i)
    requires !IsLetter(rows[id].delim[0]) && rows[i].parent == Some(p) && p in rows && p != id && !Matched(rows, id, p)
    requires !PathHeld(SqlHalf(rows, id, name), id, rows[id].account, NewPath(rows, id, name))
    ensures !RowOk(SqlRenamed(rows, id, name), delims, i)
  {
    ChildPath(rows, delims, i);
    assert RowOk(rows, delims, i) && RowOk(rows, delims, id);
    ParentFolds(rows[p].path, rows[i].name, rows[id].path, rows[id].delim);
    assert SqlHalf(rows, id, name)[p] == rows[p];
    FirstLevelExactlyWhen(rows, delims, id, name, i);
  }

  lemma MatchedRowExactlyWhen(rows: Rows, delims: Delims, id: int, name: string, i: int)
    requires WellFormed(rows, delims) && id in rows && i in rows && Matched(rows, id, i) && !IsLetter(rows[id].delim[0])
    requires !PathHeld(SqlHalf(rows, id, name), id, rows[id].account, NewPath(rows, id, name))
    ensures RowOk(SqlRenamed(rows, id, name), delims, i) <==> StaysTold(rows, id, i)
  {
    assert RowOk(rows, delims, i);
    assert i != id;
    match rows[i].parent {
      case None => RootRowExactlyWhen(rows, delims, id, name, i);
      case Some(p) =>
        if p == id {
          FirstLevelExactlyWhen(rows, delims, id, name, i);
        } else if Matched(rows, id, p) {
          DeepRowExactlyWhen(rows, delims, id, name, i, p);
        } else {
          TwinRowBreaks(rows, delims, id, name, i, p);
        }
    }
  }

  /** A row that does not match stays where it is, and so does its parent; the renamed
      row gets its new name. */
  lemma OtherRowStays(rows: Rows, delims: Delims, id: int, name: string, i: int)
    requires WellFormed(rows, delims) && id in rows && i in rows && !Matched(rows, id, i)
    requires SingleSegment(name, rows[id].delim)
    ensures RowOk(SqlRenamed(rows, id, name), delims, i)
  {
    assert RowOk(rows, delims, i) && RowOk(rows, delims, id);
    if i == id {
      RenamedPathCuts(rows[id].path, name, rows[id].delim);
      if rows[id].parent.Some? {
        ChildPath(rows, delims, id);
      }
    } else if rows[i].parent.Some? && (rows[i].parent.value == id || Matched(rows, id, rows[i].parent.value)) {
      ChildMatches(rows, delims, id, i);
    }
  }

  /** A complete rename leaves the tree well formed if and only if every row that
      matches the old prefix stays told. */
  lemma WellFormedExactlyWhen(rows: Rows, delims: Delims, id: int, name: string)
    requires WellFormed(rows, delims) && id in rows && SingleSegment(name, rows[id].delim)
    requires PlainDelimiter(rows[id].delim) && !HalfClashes(rows, id, name)
    requires !PathHeld(SqlHalf(rows, id, name), id, rows[id].account, NewPath(rows, id, name))
    ensures WellFormed(SqlRenamed(rows, id, name), delims) <==> AllTold(rows, id)
  {
    var after := SqlRenamed(rows, id, name);
    forall i | i in rows ensures RowOk(after, delims, i) <==> (Matched(rows, id, i) ==> StaysTold(rows, id, i)) {
      if Matched(rows, id, i) {
        MatchedRowExactlyWhen(rows, delims, id, name, i);
      } else {
        OtherRowStays(rows, delims, id, name, i);
      }
    }
    RenamedRowApart(rows, id, name);
    SqlMovedDistinct(rows, rows[id].account, rows[id].path, NewPath(rows, id, name), rows[id].delim);
  }
}
