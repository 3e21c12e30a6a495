/** The statements that rewrite and list the folders below a path
    (internal/storage/folders.go:164-213), as SQLite runs them, and exactly when they
    do what their comments say: replace a path prefix, and list what is nested. */
module FolderSql {
  import opened Bytes
  import opened Options
  import opened FolderPaths
  import opened FolderTree
  import opened SqlText

  /** The WHERE clause of both statements; on a flat server neither is run. */
  predicate Matches(r: Row, account: int, from: string, d: string) {
    d != "" && r.account == account && LikePrefix(r.path, from + d)
  }

  /** The SET clause of RenameFolderSubtree. */
  function SqlPath(path: string, from: string, to: string, d: string): string {
    to + d + SkipChars(path, |from + d|)
  }

  function SqlRowMoved(r: Row, account: int, from: string, to: string, d: string): Row {
    if Matches(r, account, from, d) then r.(path := SqlPath(r.path, from, to, d)) else r
  }

  function SqlMoved(rows: Rows, account: int, from: string, to: string, d: string): Rows {
    map i | i in rows :: SqlRowMoved(rows[i], account, from, to, d)
  }

  /** Updating row by row, here in id order, some row would take a path that is held
      at that moment: UNIQUE(account_id, imap_path) undoes the statement. */
  predicate SqlClashes(rows: Rows, account: int, from: string, to: string, d: string) {
    exists i, j | i in rows && j in rows :: ClashesWith(rows, account, from, to, d, i, j)
  }

  predicate ClashesWith(rows: Rows, account: int, from: string, to: string, d: string, i: int, j: int)
    requires i in rows && j in rows
  {
    && Matches(rows[i], account, from, d) && i != j && rows[j].account == account
    && SqlPath(rows[i].path, from, to, d) == (if j < i then SqlRowMoved(rows[j], account, from, to, d) else rows[j]).path
  }

  // ----- when the statement replaces the prefix

  /** The row already stands where the statement puts it. */
  predicate InPlace(r: Row, from: string, to: string, d: string) {
    r.path == SqlPath(r.path, from, to, d)
  }

  /** Every row that matches lies inside: none matches only up to the case of ASCII
      letters. */
  predicate NoTwins(rows: Rows, account: int, from: string, d: string) {
    forall i | i in rows :: Matches(rows[i], account, from, d) ==> Inside(rows[i].path, from, d)
  }

  /** The same, but for rows that would be put where they are. */
  predicate NoTwinsMove(rows: Rows, account: int, from: string, to: string, d: string) {
    forall i | i in rows :: Matches(rows[i], account, from, d) ==> Inside(rows[i].path, from, d) || InPlace(rows[i], from, to, d)
  }

  /** The old prefix has as many characters as bytes, or no row inside goes on behind
      it. */
  predicate CutsWhole(rows: Rows, account: int, from: string, d: string) {
    CharCount(from + d) == |from + d| || forall i | i in rows :: IsMoved(rows[i], account, from, d) ==> rows[i].path == from + d
  }

  predicate MovesExactly(rows: Rows, account: int, from: string, to: string, d: string) {
    NoTwinsMove(rows, account, from, to, d) && CutsWhole(rows, account, from, d)
  }

  lemma RowMovesExactlyWhen(r: Row, account: int, from: string, to: string, d: string)
    requires IsDelimiter(d)
    ensures SqlRowMoved(r, account, from, to, d) == RowMoved(r, account, from, to, d) <==>
            (Matches(r, account, from, d) ==>
              if Inside(r.path, from, d) then CharCount(from + d) == |from + d| || r.path == from + d else InPlace(r, from, to, d))
  {
    if Inside(r.path, from, d) {
      PrefixIsLike(r.path, from + d);
      var rest := r.path[|from + d|..];
      assert r.path == (from + d) + rest;
      CutExactlyWhen(from + d, rest);
      SamePrefix(to + d, SkipChars(r.path, |from + d|), rest);
    }
  }

  lemma SamePrefix(p: string, a: string, b: string)
    ensures p + a == p + b <==> a == b
  {
    if p + a == p + b {
      assert a == (p + a)[|p|..] == b;
    }
  }

  /** The statement replaces the prefix of the subtree, and touches nothing else, if
      and only if no row of the account matches the old prefix only up to case, but
      where it would be put already, and the old prefix has as many characters as
      bytes or no row inside has a remainder. */
  lemma SqlMovesSubtreeExactlyWhen(rows: Rows, account: int, from: string, to: string, d: string)
    requires IsDelimiter(d)
    ensures SqlMoved(rows, account, from, to, d) == SubtreeMoved(rows, account, from, to, d) <==>
      MovesExactly(rows, account, from, to, d)
  {
    var sql, want := SqlMoved(rows, account, from, to, d), SubtreeMoved(rows, account, from, to, d);
    forall i | i in rows
      ensures sql[i] == want[i] <==>
        (Matches(rows[i], account, from, d) ==>
          if Inside(rows[i].path, from, d) then CharCount(from + d) == |from + d| || rows[i].path == from + d else InPlace(rows[i], from, to, d))
    {
      RowMovesExactlyWhen(rows[i], account, from, to, d);
    }
    forall i | i in rows && IsMoved(rows[i], account, from, d) ensures Matches(rows[i], account, from, d) {
      PrefixIsLike(rows[i].path, from + d);
    }
    if MovesExactly(rows, account, from, to, d) {
      assert forall i :: i in rows ==> sql[i] == want[i];
    }
    if sql == want {
      forall i | i in rows ensures sql[i] == want[i] {
      }
    }
  }

  /** FolderDescendants lists the subtree if and only if there are no twins. */
  lemma SqlListsSubtreeExactlyWhen(rows: Rows, account: int, from: string, d: string)
    ensures (forall i :: i in rows ==> (Matches(rows[i], account, from, d) <==> IsMoved(rows[i], account, from, d))) <==> NoTwins(rows, account, from, d)
  {
    forall i | i in rows && IsMoved(rows[i], account, from, d) ensures Matches(rows[i], account, from, d) {
      PrefixIsLike(rows[i].path, from + d);
    }
  }

  /** Where the first delimiter of a path stands does not depend on case. */
  lemma FirstSegmentFolds(q: string, a: string, b: string, d: string)
    requires |d| == 1 && !IsLetter(d[0]) && d[0] !in a && d[0] !in b
    requires LikePrefix(q, a + d) && HasPrefix(q, b + d)
    ensures SameFolded(a, b)
  {
    var s, t := a + d, b + d;
    assert s[|a|] == d[0] && t[|b|] == d[0];
    assert Fold(q[|a|]) == Fold(s[|a|]) && q[|b|] == t[|b|];
    assert q[|a|] == d[0];
    assert forall k :: 0 <= k < |a| ==> Fold(q[k]) == Fold(s[k]) && s[k] == a[k];
    assert forall k :: 0 <= k < |b| ==> q[k] == t[k] && t[k] == b[k];
    assert forall k :: 0 <= k < |a| ==> q[k] != d[0];
  }

  lemma RenamedBelow(from: string, name: string, d: string)
    requires |d| == 1 && IsDelimiter(d) && SingleSegment(name, d)
    ensures from == Below(Parent(from, d), Leaf(from, d), d) && d[0] !in Leaf(from, d)
    ensures RenamedPath(from, name, d) == Below(Parent(from, d), name, d)
  {
    CutParts(from, d);
    RenamedPathCuts(from, name, d);
    CutParts(RenamedPath(from, name, d), d);
  }

  lemma CaseApartBelow(q: string, p: Option<string>, a: string, b: string, d: string)
    requires |d| == 1 && !IsLetter(d[0]) && d[0] !in a && d[0] !in b
    requires LikePrefix(q, Below(p, a, d) + d) && HasPrefix(q, Below(p, b, d) + d)
    ensures SameFolded(a, b)
  {
    match p {
      case None => FirstSegmentFolds(q, a, b, d);
      case Some(x) =>
        assert x + d + a + d == (x + d) + (a + d) && x + d + b + d == (x + d) + (b + d);
        CaseApartBehind(q, x + d, a, b, d);
    }
  }

  lemma CaseApart(q: string, from: string, name: string, d: string)
    requires |d| == 1 && IsDelimiter(d) && !IsLetter(d[0]) && SingleSegment(name, d)
    requires LikePrefix(q, from + d) && HasPrefix(q, RenamedPath(from, name, d) + d)
    ensures SameFolded(Leaf(from, d), name)
  {
    RenamedBelow(from, name, d);
    CaseApartBelow(q, Parent(from, d), Leaf(from, d), name, d);
  }

  lemma CaseApartBehind(q: string, p: string, a: string, b: string, d: string)
    requires |d| == 1 && !IsLetter(d[0]) && d[0] !in a && d[0] !in b
    requires LikePrefix(q, p + (a + d)) && HasPrefix(q, p + (b + d))
    ensures SameFolded(a, b)
  {
    FirstSegmentFolds(q[|p|..], a, b, d);
  }

  /** Unless the new name differs from the old in case only, no twin stands where it
      would be put: the condition is then that there is none. */
  lemma SqlMovesRenamedExactlyWhen(rows: Rows, account: int, from: string, name: string, d: string)
    requires IsDelimiter(d) && (d != "" ==> !IsLetter(d[0])) && SingleSegment(name, d)
    requires !SameFolded(Leaf(from, d), name)
    ensures SqlMoved(rows, account, from, RenamedPath(from, name, d), d) == SubtreeMoved(rows, account, from, RenamedPath(from, name, d), d) <==>
            NoTwins(rows, account, from, d) && CutsWhole(rows, account, from, d)
  {
    var to := RenamedPath(from, name, d);
    SqlMovesSubtreeExactlyWhen(rows, account, from, to, d);
    forall i | i in rows && Matches(rows[i], account, from, d) ensures !InPlace(rows[i], from, to, d) {
      if InPlace(rows[i], from, to, d) {
        assert HasPrefix(rows[i].path, to + d);
        CaseApart(rows[i].path, from, name, d);
      }
    }
  }

  /** And for well-formed UTF-8 the other half is that the old path is all ASCII, or
      nothing goes on behind it. */
  lemma CutsWholeExactlyWhen(rows: Rows, account: int, from: string, d: string)
    requires IsDelimiter(d) && IsUTF8(from + d)
    ensures CutsWhole(rows, account, from, d) <==>
            AllASCII(from) || forall i :: i in rows && IsMoved(rows[i], account, from, d) ==> rows[i].path == from + d
  {
    ASCIIExactlyWhen(from + d);
    assert AllASCII(from + d) <==> AllASCII(from) by {
      assert forall k :: 0 <= k < |from| ==> (from + d)[k] == from[k];
    }
  }
}
