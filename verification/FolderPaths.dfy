/** Mailbox paths: segments joined by an account's hierarchy delimiter
    (internal/desktop/bind_account_setup.go, bind_folders.go). A delimiter is one
    ASCII character, the QUOTED-CHAR of a LIST response in section 9 of RFC 3501, or
    "" on a server whose mailbox list is flat. */
module FolderPaths {
  import opened Bytes
  import opened Options
  import opened SqlText

  predicate IsDelimiter(d: string) {
    |d| <= 1 && AllASCII(d)
  }

  /** strings.LastIndex, or -1 on a flat server. */
  function Cut(path: string, d: string): (i: int)
    ensures i == -1 || (0 <= i && i + |d| <= |path|)
  {
    if d == "" then -1 else LastIndex(path, d)
  }

  function Parent(path: string, d: string): Option<string> {
    if Cut(path, d) < 0 then None else Some(path[..Cut(path, d)])
  }

  function Leaf(path: string, d: string): string {
    if Cut(path, d) < 0 then path else path[Cut(path, d) + |d|..]
  }

  /** A name without the delimiter in it. */
  predicate SingleSegment(name: string, d: string) {
    |d| == 1 ==> d[0] !in name
  }

  /** renamedPath: the last segment swapped for `name`. */
  function RenamedPath(path: string, name: string, d: string): string {
    if d == "" || Cut(path, d) < 0 then name else path[..Cut(path, d) + |d|] + name
  }

  predicate Inside(path: string, top: string, d: string) {
    d != "" && HasPrefix(path, top + d)
  }

  /** A path under `old`, once `old` is called `new`. */
  function Moved(path: string, from: string, to: string, d: string): string
    requires Inside(path, from, d)
  {
    to + d + path[|from + d|..]
  }

  /** strings.Count of a one-character delimiter. */
  function Depth(path: string, d: string): nat {
    if path == "" || d == "" then 0
    else (if path[0] == d[0] then 1 else 0) + Depth(path[1..], d)
  }

  // ----- cutting

  lemma LastSeparator(p: string, d: string, name: string)
    requires |d| == 1 && d[0] !in name
    ensures LastIndex(p + d + name, d) == |p|
  {
    var path := p + d + name;
    assert OccursAt(path, d, |p|);
    LastIndexFromIsLast(path, d, |path|, |p|);
    var i := LastIndex(path, d);
    assert path[i] == d[0];
    assert forall k :: |p| < k < |path| ==> path[k] == name[k - |p| - 1];
  }

  lemma CutAt(p: string, d: string, name: string)
    requires |d| == 1 && d[0] !in name
    ensures Parent(p + d + name, d) == Some(p)
    ensures Leaf(p + d + name, d) == name
  {
    LastSeparator(p, d, name);
    assert (p + d + name)[..|p|] == p;
    assert (p + d + name)[|p| + |d|..] == name;
  }

  lemma CutParts(path: string, d: string)
    requires |d| <= 1
    ensures Parent(path, d) == None ==> Leaf(path, d) == path
    ensures Parent(path, d).Some? ==> |d| == 1 && path == Parent(path, d).value + d + Leaf(path, d)
    ensures Parent(path, d).Some? ==> d[0] in path
    ensures SingleSegment(Leaf(path, d), d)
  {
    if |d| == 1 {
      forall k | Cut(path, d) < k < |path| ensures path[k] != d[0] {
        if path[k] == d[0] {
          assert OccursAt(path, d, k);
          LastIndexFromIsLast(path, d, |path|, k);
        }
      }
    }
  }

  lemma CutNone(name: string, d: string)
    requires |d| <= 1 && SingleSegment(name, d)
    ensures Parent(name, d) == None && Leaf(name, d) == name
  {
    CutParts(name, d);
  }

  lemma RenamedPathCuts(path: string, name: string, d: string)
    requires |d| <= 1 && SingleSegment(name, d)
    ensures Parent(RenamedPath(path, name, d), d) == Parent(path, d)
    ensures Leaf(RenamedPath(path, name, d), d) == name
  {
    CutParts(path, d);
    if Parent(path, d).Some? {
      assert RenamedPath(path, name, d) == Parent(path, d).value + d + name;
      CutAt(Parent(path, d).value, d, name);
    } else {
      CutNone(name, d);
    }
  }

  // ----- depth

  lemma {:induction false} DepthOfConcat(a: string, b: string, d: string)
    ensures Depth(a + b, d) == Depth(a, d) + Depth(b, d)
  {
    if a == "" {
      EmptyLeft(b);
    } else if d != "" {
      assert (a + b)[1..] == a[1..] + b;
      DepthOfConcat(a[1..], b, d);
    }
  }

  lemma {:induction false} DepthOfSegment(name: string, d: string)
    requires |d| == 1 && d[0] !in name
    ensures Depth(name, d) == 0
  {
    if name != "" {
      DepthOfSegment(name[1..], d);
    }
  }

  /** A parent is exactly one level up. */
  lemma DepthOfParent(path: string, d: string)
    requires IsDelimiter(d) && Parent(path, d).Some?
    ensures Depth(path, d) == Depth(Parent(path, d).value, d) + 1
  {
    CutParts(path, d);
    var p, leaf := Parent(path, d).value, Leaf(path, d);
    DepthOfConcat(p + d, leaf, d);
    DepthOfConcat(p, d, d);
    DepthOfSegment(leaf, d);
    assert Depth(d[1..], d) == 0;
  }

  // ----- subtrees

  /** The parent of a path inside `top` is `top` or inside it too; and what is the
      child of either is inside. */
  lemma ParentOfInside(path: string, top: string, d: string)
    requires |d| == 1
    ensures Inside(path, top, d) <==> Parent(path, d).Some? && (Parent(path, d).value == top || Inside(Parent(path, d).value, top, d))
  {
    CutParts(path, d);
    if Parent(path, d).Some? {
      InsideOfParts(Parent(path, d).value, Leaf(path, d), top, d);
    } else {
      InsideHasSeparator(path, top, d);
    }
  }

  lemma InsideHasSeparator(path: string, top: string, d: string)
    requires |d| == 1
    ensures Inside(path, top, d) ==> d[0] in path
  {
    if Inside(path, top, d) {
      assert path[|top|] == d[0];
    }
  }

  lemma InsideOfParts(p: string, leaf: string, top: string, d: string)
    requires |d| == 1 && d[0] !in leaf
    ensures Inside(p + d + leaf, top, d) <==> p == top || Inside(p, top, d)
  {
    var path := p + d + leaf;
    if Inside(path, top, d) {
      assert path[|top|] == d[0];
      assert forall k :: |p| < k < |path| ==> path[k] == leaf[k - |p| - 1];
      assert path[..|top|] == top == p[..|top|];
      assert |top| < |p| ==> path[|top|] == p[|top|];
    } else {
      assert p == top || Inside(p, top, d) ==> top + d <= path;
    }
  }

  /** Renaming an ancestor keeps the last segment and moves the parent along. */
  lemma MovedCuts(path: string, from: string, to: string, d: string)
    requires |d| == 1 && Inside(path, from, d)
    ensures Parent(path, d).Some?
    ensures Leaf(Moved(path, from, to, d), d) == Leaf(path, d)
    ensures var p := Parent(path, d).value;
            && (p == from || Inside(p, from, d))
            && Parent(Moved(path, from, to, d), d) == Some(if p == from then to else Moved(p, from, to, d))
  {
    ParentOfInside(path, from, d);
    CutParts(path, d);
    var p, leaf := Parent(path, d).value, Leaf(path, d);
    MovedParts(p, leaf, from, to, d);
    CutAt(if p == from then to else Moved(p, from, to, d), d, leaf);
  }

  lemma MovedParts(p: string, leaf: string, from: string, to: string, d: string)
    requires |d| == 1 && (p == from || Inside(p, from, d))
    ensures Inside(p + d + leaf, from, d)
    ensures Moved(p + d + leaf, from, to, d) == (if p == from then to else Moved(p, from, to, d)) + d + leaf
  {
    var path := p + d + leaf;
    assert from + d <= path;
    if p == from {
      assert path[|from + d|..] == leaf;
    } else {
      assert path[|from + d|..] == p[|from + d|..] + d + leaf;
    }
  }

  lemma MovedInjective(a: string, b: string, from: string, to: string, d: string)
    requires Inside(a, from, d) && Inside(b, from, d)
    requires Moved(a, from, to, d) == Moved(b, from, to, d)
    ensures a == b
  {
    var m := Moved(a, from, to, d);
    assert a[|from + d|..] == m[|to + d|..] == b[|from + d|..];
    assert a == (from + d) + a[|from + d|..];
    assert b == (from + d) + b[|from + d|..];
  }

  /** After a rename at the same level nothing is inside the old name any more. */
  lemma MovedIsOutside(path: string, from: string, name: string, d: string)
    requires |d| == 1 && SingleSegment(name, d) && name != Leaf(from, d)
    requires Inside(path, from, d)
    ensures !Inside(Moved(path, from, RenamedPath(from, name, d), d), from, d)
    ensures Moved(path, from, RenamedPath(from, name, d), d) != from
    ensures !Inside(RenamedPath(from, name, d), from, d)
  {
    var to := RenamedPath(from, name, d);
    RenamedPathCuts(from, name, d);
    CutParts(from, d);
    CutParts(to, d);
    var moved := Moved(path, from, to, d);
    NotWithin(Parent(from, d), Leaf(from, d), name, path[|from + d|..], d);
  }

  function Below(p: Option<string>, name: string, d: string): string {
    match p case None => name case Some(q) => q + d + name
  }

  lemma SegmentsDiffer(a: string, b: string, x: string, d: string)
    requires |d| == 1 && d[0] !in a && d[0] !in b && a != b
    ensures !(a + d <= b + d + x) && b + d + x != a && !(a + d <= b)
  {
    var s, t := a + d, b + d + x;
    assert s[|a|] == d[0] && t[|b|] == d[0];
    assert forall k :: 0 <= k < |b| ==> t[k] == b[k];
    assert a == s[..|a|] && b == t[..|b|];
    assert s <= t ==> |a| == |b|;
  }

  lemma NotWithin(p: Option<string>, a: string, b: string, x: string, d: string)
    requires |d| == 1 && d[0] !in a && d[0] !in b && a != b
    ensures !Inside(Below(p, b, d) + d + x, Below(p, a, d), d)
    ensures Below(p, b, d) + d + x != Below(p, a, d)
    ensures !Inside(Below(p, b, d), Below(p, a, d), d)
  {
    SegmentsDiffer(a, b, x, d);
    if p.Some? {
      var q := p.value + d;
      PrefixCancels(q, a + d, b + d + x);
      PrefixCancels(q, a + d, b);
      assert q + a + d == q + (a + d);
      assert q + b + d + x == q + (b + d + x);
      assert b + d + x == (q + (b + d + x))[|q|..] && a == (q + a)[|q|..];
    }
  }

  lemma PrefixCancels(q: string, s: string, t: string)
    ensures q + s <= q + t <==> s <= t
  {
    if q + s <= q + t {
      assert s == (q + s)[|q|..] == (q + t)[|q|..|q + s|] == t[..|s|];
    }
  }
}
