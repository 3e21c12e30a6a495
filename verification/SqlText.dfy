/** The SQLite text functions the folder statements lean on
    (internal/storage/folders.go): LIKE with a literal prefix, substr and length.
    Text is UTF-8, one char per byte here; substr and length count characters. */
module SqlText {
  import opened Bytes

  predicate IsASCII(c: char) {
    c < '\U{80}'
  }

  predicate IsLead(c: char) {
    '\U{c0}' <= c
  }

  predicate IsContinuation(c: char) {
    '\U{80}' <= c < '\U{c0}'
  }

  predicate AllASCII(s: string) {
    forall k :: 0 <= k < |s| ==> IsASCII(s[k])
  }

  /** The continuation bytes in front. */
  function Continuations(s: string): (n: nat)
    ensures n <= |s|
  {
    if s != "" && IsContinuation(s[0]) then 1 + Continuations(s[1..]) else 0
  }

  /** The bytes of the first character. */
  function Width(s: string): (n: nat)
    requires s != ""
    ensures 1 <= n <= |s|
  {
    if IsLead(s[0]) then 1 + Continuations(s[1..]) else 1
  }

  /** length(s). */
  function CharCount(s: string): nat {
    if s == "" then 0 else 1 + CharCount(s[Width(s)..])
  }

  /** substr(s, n + 1). */
  function SkipChars(s: string, n: nat): string {
    if n == 0 || s == "" then s else SkipChars(s[Width(s)..], n - 1)
  }

  /** s LIKE prefix || '%', with the wildcards of the prefix escaped: the case of
      ASCII letters does not count. */
  predicate LikePrefix(s: string, prefix: string) {
    |prefix| <= |s| && forall k :: 0 <= k < |prefix| ==> Fold(s[k]) == Fold(prefix[k])
  }

  predicate IsLetter(c: char) {
    'a' <= c <= 'z' || 'A' <= c <= 'Z'
  }

  lemma PrefixIsLike(s: string, prefix: string)
    requires HasPrefix(s, prefix)
    ensures LikePrefix(s, prefix)
  {
  }

  // ----- what skipping bytes by the character leaves

  ghost predicate EndsInASCII(s: string) {
    s != "" && IsASCII(s[|s| - 1])
  }

  lemma {:induction false} ContinuationsStop(a: string, b: string)
    requires EndsInASCII(a)
    ensures Continuations(a + b) == Continuations(a) < |a|
  {
    assert (a + b)[0] == a[0];
    if IsContinuation(a[0]) {
      assert (a + b)[1..] == a[1..] + b;
      assert a[1..][|a| - 2] == a[|a| - 1];
      ContinuationsStop(a[1..], b);
    }
  }

  lemma WidthStays(a: string, b: string)
    requires EndsInASCII(a)
    ensures Width(a + b) == Width(a)
    ensures Width(a) < |a| ==> EndsInASCII(a[Width(a)..])
    ensures (a + b)[Width(a)..] == a[Width(a)..] + b
  {
    assert (a + b)[0] == a[0];
    if IsLead(a[0]) {
      assert |a| > 1;
      assert (a + b)[1..] == a[1..] + b;
      assert a[1..][|a| - 2] == a[|a| - 1];
      ContinuationsStop(a[1..], b);
    }
    if Width(a) < |a| {
      var rest := a[Width(a)..];
      assert rest[|rest| - 1] == a[|a| - 1];
    }
  }

  lemma SkipStep(s: string, rest: string, n: nat)
    requires s != "" && rest == s[Width(s)..]
    ensures SkipChars(s, 1 + n) == SkipChars(rest, n)
    ensures CharCount(s) == 1 + CharCount(rest)
  {
  }

  /** Skipping past a prefix that ends a character goes on behind it. */
  lemma {:induction false} SkipPast(a: string, b: string, n: nat)
    requires EndsInASCII(a)
    ensures SkipChars(a + b, CharCount(a) + n) == SkipChars(b, n)
    decreases |a|
  {
    WidthStays(a, b);
    var rest := a[Width(a)..];
    SkipStep(a, rest, 0);
    SkipStep(a + b, rest + b, CharCount(rest) + n);
    if rest != "" {
      SkipPast(rest, b, n);
    } else {
      EmptyLeft(b);
    }
  }

  lemma {:induction false} ContinuationsEnd(a: string, b: string)
    requires b != "" && !IsContinuation(b[0])
    ensures Continuations(a + b) == Continuations(a)
  {
    if a == "" {
      EmptyLeft(b);
    } else {
      assert (a + b)[0] == a[0];
      assert (a + b)[1..] == a[1..] + b;
      if IsContinuation(a[0]) {
        ContinuationsEnd(a[1..], b);
      }
    }
  }

  lemma WidthEnds(a: string, b: string)
    requires a != "" && b != "" && !IsContinuation(b[0])
    ensures Width(a + b) == Width(a)
    ensures (a + b)[Width(a)..] == a[Width(a)..] + b
  {
    assert (a + b)[0] == a[0];
    assert (a + b)[1..] == a[1..] + b;
    ContinuationsEnd(a[1..], b);
  }

  /** Characters add up where a character begins. */
  lemma {:induction false} CountSplit(a: string, b: string)
    requires b != "" && !IsContinuation(b[0])
    ensures CharCount(a + b) == CharCount(a) + CharCount(b)
    decreases |a|
  {
    if a == "" {
      EmptyLeft(b);
    } else {
      WidthEnds(a, b);
      var rest := a[Width(a)..];
      SkipStep(a, rest, 0);
      SkipStep(a + b, rest + b, 0);
      CountSplit(rest, b);
    }
  }

  lemma {:induction false} ContinuationsFold(a: string, b: string)
    requires SameFolded(a, b)
    ensures Continuations(a) == Continuations(b)
  {
    if a != "" {
      assert Fold(a[0]) == Fold(b[0]);
      assert IsContinuation(a[0]) <==> IsContinuation(b[0]);
      assert forall k :: 0 <= k < |a[1..]| ==> a[1..][k] == a[k + 1] && b[1..][k] == b[k + 1];
      ContinuationsFold(a[1..], b[1..]);
    }
  }

  lemma WidthFolds(a: string, b: string)
    requires SameFolded(a, b) && a != ""
    ensures Width(a) == Width(b) && SameFolded(a[Width(a)..], b[Width(a)..])
  {
    assert Fold(a[0]) == Fold(b[0]);
    assert IsLead(a[0]) <==> IsLead(b[0]);
    assert forall k :: 0 <= k < |a[1..]| ==> a[1..][k] == a[k + 1] && b[1..][k] == b[k + 1];
    ContinuationsFold(a[1..], b[1..]);
    var w := Width(a);
    assert forall k :: 0 <= k < |a[w..]| ==> a[w..][k] == a[k + w] && b[w..][k] == b[k + w];
  }

  lemma {:induction false} CountFolds(a: string, b: string)
    requires SameFolded(a, b)
    ensures CharCount(a) == CharCount(b)
    decreases |a|
  {
    if a != "" {
      WidthFolds(a, b);
      CountFolds(a[Width(a)..], b[Width(a)..]);
    }
  }

  lemma {:induction false} CountBounds(s: string)
    ensures CharCount(s) <= |s|
    ensures AllASCII(s) ==> CharCount(s) == |s|
    ensures s != "" ==> 0 < CharCount(s)
    decreases |s|
  {
    if s != "" {
      CountBounds(s[Width(s)..]);
    }
  }

  lemma {:induction false} SkipShortens(s: string, n: nat)
    ensures |SkipChars(s, n)| <= |s|
    ensures 0 < n && s != "" ==> |SkipChars(s, n)| < |s|
    decreases n
  {
    if 0 < n && s != "" {
      SkipShortens(s[Width(s)..], n - 1);
    }
  }

  /** Cutting a prefix off by its length in bytes leaves the rest exactly when the
      prefix has as many characters as bytes, or there is no rest. */
  lemma CutExactlyWhen(prefix: string, rest: string)
    requires EndsInASCII(prefix)
    ensures SkipChars(prefix + rest, |prefix|) == rest <==> CharCount(prefix) == |prefix| || rest == ""
    ensures CharCount(prefix) <= |prefix|
    ensures SkipChars(prefix + rest, |prefix|) == SkipChars(rest, |prefix| - CharCount(prefix))
  {
    CountBounds(prefix);
    var n := |prefix| - CharCount(prefix);
    SkipPast(prefix, rest, n);
    SkipShortens(rest, n);
  }

  /** Text a server may name a mailbox with: every byte past ASCII belongs to a
      character of two or more. */
  predicate IsUTF8(s: string)
    decreases |s|
  {
    s == "" || ((IsASCII(s[0]) || 1 < Width(s)) && IsUTF8(s[Width(s)..]))
  }

  /** Such a text has as many characters as bytes exactly when it is all ASCII. */
  lemma {:induction false} ASCIIExactlyWhen(s: string)
    requires IsUTF8(s)
    ensures CharCount(s) == |s| <==> AllASCII(s)
    decreases |s|
  {
    if s != "" {
      var rest := s[Width(s)..];
      ASCIIExactlyWhen(rest);
      CountBounds(rest);
      if IsASCII(s[0]) {
        assert forall k :: 1 <= k < |s| ==> s[k] == rest[k - 1];
      }
    }
  }

  /** What is skipped is skipped from the front. */
  lemma {:induction false} SkipIsSuffix(s: string, n: nat)
    ensures |SkipChars(s, n)| <= |s| && SkipChars(s, n) == s[|s| - |SkipChars(s, n)|..]
    decreases n
  {
    if 0 < n && s != "" {
      var rest := s[Width(s)..];
      SkipIsSuffix(rest, n - 1);
    }
  }

  // ----- skipping in two steps

  /** Up to the end of the first text, skipping leaves the second alone. */
  lemma {:induction false} SkipWithin(a: string, b: string, n: nat)
    requires b != "" && !IsContinuation(b[0]) && n <= CharCount(a)
    ensures SkipChars(a + b, n) == SkipChars(a, n) + b
    decreases |a|
  {
    if a == "" {
      EmptyLeft(b);
    } else if 0 < n {
      WidthEnds(a, b);
      var rest := a[Width(a)..];
      SkipStep(a, rest, n - 1);
      SkipStep(a + b, rest + b, n - 1);
      SkipWithin(rest, b, n - 1);
    }
  }

  /** Beyond it, the first text is gone. */
  lemma {:induction false} SkipAcross(a: string, b: string, n: nat)
    requires b != "" && !IsContinuation(b[0]) && CharCount(a) <= n
    ensures SkipChars(a + b, n) == SkipChars(b, n - CharCount(a))
    ensures SkipChars(a, n) == ""
    decreases |a|
  {
    if a == "" {
      EmptyLeft(b);
    } else {
      WidthEnds(a, b);
      var rest := a[Width(a)..];
      SkipStep(a, rest, n - 1);
      SkipStep(a + b, rest + b, n - 1);
      SkipAcross(rest, b, n - 1);
    }
  }
}
