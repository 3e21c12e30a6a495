/** The handful of Go `bytes` and `strings` functions the mail code leans on.
    A Go `[]byte` or `string` is modelled as a Dafny string holding one char per
    byte; no definition depends on the range of the chars. */
module Bytes {

  /** `sep` stands in `s` starting at index `i`. */
  predicate OccursAt(s: string, sep: string, i: int) {
    && 0 <= i && i + |sep| <= |s|
    && forall k {:trigger sep[k]} :: 0 <= k < |sep| ==> s[i + k] == sep[k]
  }

  ghost predicate Contains(s: string, sep: string) {
    exists i :: OccursAt(s, sep, i)
  }

  /** The index of the first occurrence of `sep`, or -1. */
  function Index(s: string, sep: string): (i: int)
    ensures i == -1 || (0 <= i && i + |sep| <= |s|)
  {
    IndexFrom(s, sep, 0)
  }

  /** The same, looking no further left than `k`. */
  function IndexFrom(s: string, sep: string, k: nat): (i: int)
    ensures i == -1 || (k <= i && i + |sep| <= |s|)
    decreases |s| - k
  {
    if OccursAt(s, sep, k) then k
    else if |s| <= k then -1
    else IndexFrom(s, sep, k + 1)
  }

  lemma {:induction false} IndexFromOccurs(s: string, sep: string, k: nat)
    requires 0 <= IndexFrom(s, sep, k)
    ensures OccursAt(s, sep, IndexFrom(s, sep, k))
    decreases |s| - k
  {
    if !OccursAt(s, sep, k) {
      IndexFromOccurs(s, sep, k + 1);
    }
  }

  lemma {:induction false} IndexFromIsFirst(s: string, sep: string, k: nat, j: int)
    requires k <= j && OccursAt(s, sep, j)
    ensures 0 <= IndexFrom(s, sep, k) <= j
    decreases |s| - k
  {
    if !OccursAt(s, sep, k) {
      IndexFromIsFirst(s, sep, k + 1, j);
    }
  }

  lemma IndexIsFirst(s: string, sep: string)
    ensures Index(s, sep) == -1 <==> !Contains(s, sep)
    ensures forall j :: OccursAt(s, sep, j) ==> 0 <= Index(s, sep) <= j
  {
    forall j | OccursAt(s, sep, j) ensures 0 <= Index(s, sep) <= j {
      IndexFromIsFirst(s, sep, 0, j);
    }
    if 0 <= Index(s, sep) {
      IndexFromOccurs(s, sep, 0);
    }
  }

  /** The index of the last occurrence of `sep`, or -1. */
  function LastIndex(s: string, sep: string): (i: int)
    ensures i == -1 || OccursAt(s, sep, i)
  {
    LastIndexFrom(s, sep, |s|)
  }

  function LastIndexFrom(s: string, sep: string, k: nat): (i: int)
    requires k <= |s|
    ensures i == -1 || (i <= k && OccursAt(s, sep, i))
  {
    if OccursAt(s, sep, k) then k
    else if k == 0 then -1
    else LastIndexFrom(s, sep, k - 1)
  }

  lemma {:induction false} LastIndexFromIsLast(s: string, sep: string, k: nat, j: int)
    requires j <= k <= |s| && OccursAt(s, sep, j)
    ensures j <= LastIndexFrom(s, sep, k)
  {
    if !OccursAt(s, sep, k) {
      LastIndexFromIsLast(s, sep, k - 1, j);
    }
  }

  predicate HasPrefix(s: string, prefix: string) {
    prefix <= s
  }

  predicate HasSuffix(s: string, suffix: string) {
    |suffix| <= |s| && s[|s| - |suffix|..] == suffix
  }

  predicate IsSpace(c: char) {
    c == ' ' || '\t' <= c <= '\r'
  }

  /** strings.TrimSpace, for the ASCII blanks. */
  function TrimSpace(s: string): string {
    if s == "" then ""
    else if IsSpace(s[0]) then TrimSpace(s[1..])
    else if IsSpace(s[|s| - 1]) then TrimSpace(s[..|s| - 1])
    else s
  }

  function Upper(s: string): string {
    seq(|s|, i requires 0 <= i < |s| => if 'a' <= s[i] <= 'z' then 'A' + (s[i] - 'a') else s[i])
  }

  function Lower(s: string): string {
    seq(|s|, i requires 0 <= i < |s| => if 'A' <= s[i] <= 'Z' then 'a' + (s[i] - 'A') else s[i])
  }

  function Fold(c: char): char {
    if 'A' <= c <= 'Z' then 'a' + (c - 'A') else c
  }

  /** Equal up to the case of ASCII letters. */
  predicate SameFolded(a: string, b: string) {
    |a| == |b| && forall k :: 0 <= k < |a| ==> Fold(a[k]) == Fold(b[k])
  }

  /** Comparing in one case ignores case. */
  lemma CaseIgnored(a: string, b: string)
    ensures Upper(a) == Upper(b) <==> SameFolded(a, b)
    ensures Lower(a) == Lower(b) <==> SameFolded(a, b)
    ensures EqualFold(a, b) <==> SameFolded(a, b)
  {
    if SameFolded(a, b) {
      forall k | 0 <= k < |a| ensures Upper(a)[k] == Upper(b)[k] && Lower(a)[k] == Lower(b)[k] {
        assert Fold(a[k]) == Fold(b[k]);
      }
    }
    if Upper(a) == Upper(b) {
      assert |Upper(a)| == |a| && |Upper(b)| == |b|;
      forall k | 0 <= k < |a| ensures Fold(a[k]) == Fold(b[k]) {
        assert Upper(a)[k] == Upper(b)[k];
      }
    }
    if Lower(a) == Lower(b) {
      assert |Lower(a)| == |a| && |Lower(b)| == |b|;
      forall k | 0 <= k < |a| ensures Fold(a[k]) == Fold(b[k]) {
        assert Lower(a)[k] == Lower(b)[k];
      }
    }
  }

  /** Space, tab, line feed, vertical tab, form feed and carriage return. */
  lemma SpaceExactlyWhen(c: char)
    ensures IsSpace(c) <==> c == ' ' || c == '\t' || c == '\n' || c == '\U{0b}' || c == '\U{0c}' || c == '\r'
  {
  }

  predicate AllSpace(s: string) {
    forall k :: 0 <= k < |s| ==> IsSpace(s[k])
  }

  lemma MoreInFront(s: string, front: string, rest: string)
    requires s != "" && s[1..] == front + rest && IsSpace(s[0]) && AllSpace(front)
    ensures s == s[..1] + front + rest && AllSpace(s[..1] + front)
  {
    assert s == s[..1] + s[1..];
  }

  lemma MoreBehind(s: string, rest: string, back: string)
    requires s != "" && s[..|s| - 1] == rest + back && IsSpace(s[|s| - 1]) && AllSpace(back)
    ensures s == rest + (back + s[|s| - 1..]) && AllSpace(back + s[|s| - 1..])
  {
    assert s == s[..|s| - 1] + s[|s| - 1..];
  }

  /** What is trimmed is blank, and no blank is left at either end. */
  lemma {:induction false} TrimmedExactly(s: string) returns (front: string, back: string)
    ensures s == front + (TrimSpace(s) + back) && AllSpace(front) && AllSpace(back)
    ensures TrimSpace(s) != "" ==> !IsSpace(TrimSpace(s)[0]) && !IsSpace(TrimSpace(s)[|TrimSpace(s)| - 1])
    decreases |s|
  {
    front, back := "", "";
    if s == "" {
      assert TrimSpace(s) == "";
    } else if IsSpace(s[0]) {
      front, back := TrimmedExactly(s[1..]);
      MoreInFront(s, front, TrimSpace(s) + back);
      front := s[..1] + front;
    } else if IsSpace(s[|s| - 1]) {
      front, back := TrimmedExactly(s[..|s| - 1]);
      MoreBehind(s, front + TrimSpace(s), back);
      Assoc(front, TrimSpace(s), back);
      back := back + s[|s| - 1..];
      Assoc(front, TrimSpace(s), back);
    } else {
      EmptyRight(s);
      EmptyLeft(s + "");
    }
  }

  function TrimPrefix(s: string, prefix: string): string {
    if HasPrefix(s, prefix) then s[|prefix|..] else s
  }

  predicate EqualFold(a: string, b: string) {
    Upper(a) == Upper(b)
  }

  /** Left to right, without overlaps, as `bytes.ReplaceAll` does. */
  function ReplaceAll(s: string, from: string, to: string): string
    requires from != ""
  {
    if s == "" then ""
    else if HasPrefix(s, from) then to + ReplaceAll(s[|from|..], from, to)
    else s[..1] + ReplaceAll(s[1..], from, to)
  }

  lemma Assoc<T>(a: seq<T>, b: seq<T>, c: seq<T>)
    ensures (a + b) + c == a + (b + c)
  {
  }

  lemma EmptyLeft<T>(a: seq<T>)
    ensures [] + a == a
  {
  }

  lemma EmptyRight<T>(a: seq<T>)
    ensures a + [] == a
  {
  }

  // ----- where an occurrence can lie in a concatenation

  lemma OccursInLeft(a: string, b: string, sep: string, i: int)
    requires i + |sep| <= |a|
    ensures OccursAt(a + b, sep, i) <==> OccursAt(a, sep, i)
  {
  }

  lemma OccursInRight(a: string, b: string, sep: string, i: int)
    requires |a| <= i
    ensures OccursAt(a + b, sep, i) <==> OccursAt(b, sep, i - |a|)
  {
  }

  /** An occurrence, told from the side of the text. */
  lemma OccursPointwise(s: string, sep: string, i: int)
    requires OccursAt(s, sep, i)
    ensures forall k {:trigger s[k]} :: i <= k < i + |sep| ==> s[k] == sep[k - i]
    ensures s[i..i + |sep|] == sep
  {
    forall k | i <= k < i + |sep| ensures s[k] == sep[k - i] {
      assert s[i + (k - i)] == sep[k - i];
    }
  }

  /** Searching a suffix is searching the whole from where the suffix starts. */
  lemma IndexFromShifts(a: string, b: string, sep: string, k: nat)
    ensures IndexFrom(a + b, sep, |a| + k) == if IndexFrom(b, sep, k) < 0 then -1 else |a| + IndexFrom(b, sep, k)
  {
    var i, j := IndexFrom(a + b, sep, |a| + k), IndexFrom(b, sep, k);
    if 0 <= i {
      IndexFromOccurs(a + b, sep, |a| + k);
      OccursInRight(a, b, sep, i);
      IndexFromIsFirst(b, sep, k, i - |a|);
    }
    if 0 <= j {
      IndexFromOccurs(b, sep, k);
      OccursInRight(a, b, sep, |a| + j);
      IndexFromIsFirst(a + b, sep, |a| + k, |a| + j);
    }
  }

  /** An occurrence of `sep` cannot reach across a character `sep` does not hold. */
  lemma NoStraddle(s: string, sep: string, i: int, k: int)
    requires OccursAt(s, sep, i)
    requires 0 <= k < |s| && s[k] !in sep
    ensures k < i || i + |sep| <= k
  {
    OccursPointwise(s, sep, i);
  }
}
