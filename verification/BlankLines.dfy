/** Where splitHeaders cuts, against where the first blank line of an entity is
    (internal/crypto/smime.go). */
module BlankLines {
  import opened Bytes
  import opened Multipart

  /** A line ends in the LF at i, and the next one is empty. */
  predicate BlankAt(e: string, i: int) {
    && 0 <= i && i + 1 < |e| && e[i] == '\n'
    && (e[i + 1] == '\n' || (i + 2 < |e| && e[i + 1] == '\r' && e[i + 2] == '\n'))
  }

  predicate FirstBlank(e: string, i: int) {
    BlankAt(e, i) && forall j :: 0 <= j < i ==> !BlankAt(e, j)
  }

  lemma FourIsBlank(e: string, i: int)
    requires OccursAt(e, "\r\n\r\n", i)
    ensures BlankAt(e, i + 1) && e[i] == '\r'
  {
    OccursPointwise(e, "\r\n\r\n", i);
    assert e[i] == '\r' && e[i + 1] == '\n' && e[i + 2] == '\r' && e[i + 3] == '\n';
  }

  lemma TwoIsBlank(e: string, i: int)
    requires OccursAt(e, "\n\n", i)
    ensures BlankAt(e, i)
  {
    OccursPointwise(e, "\n\n", i);
    assert e[i] == '\n' && e[i + 1] == '\n';
  }

  /** Before the blank line and its break; and behind it. */
  function Before(e: string, i: nat): string
    requires BlankAt(e, i)
  {
    if 0 < i && e[i - 1] == '\r' && e[i + 1] == '\r' then e[..i - 1] else e[..i]
  }

  function Behind(e: string, i: nat): string
    requires BlankAt(e, i)
  {
    if e[i + 1] == '\n' then e[i + 2..] else e[i + 3..]
  }

  lemma FourAt(e: string, i: nat)
    requires BlankAt(e, i)
    ensures OccursAt(e, "\r\n\r\n", i - 1) <==> 0 < i && e[i - 1] == '\r' && e[i + 1] == '\r'
    ensures OccursAt(e, "\n\n", i) <==> e[i + 1] == '\n'
  {
    if OccursAt(e, "\r\n\r\n", i - 1) {
      OccursPointwise(e, "\r\n\r\n", i - 1);
    }
    if OccursAt(e, "\n\n", i) {
      OccursPointwise(e, "\n\n", i);
    }
  }

  /** The cut is at the first blank line if and only if that is CRLF CRLF, or it is
      LF LF and no CRLF CRLF stands anywhere behind it. */
  lemma CutsAtFirstBlankExactlyWhen(e: string, i: nat)
    requires FirstBlank(e, i)
    ensures SplitHeaders(e) == Entity(Before(e, i), Behind(e, i)) <==>
            OccursAt(e, "\r\n\r\n", i - 1) || (OccursAt(e, "\n\n", i) && !Contains(e, "\r\n\r\n"))
  {
    FourAt(e, i);
    IndexIsFirst(e, "\r\n\r\n");
    IndexIsFirst(e, "\n\n");
    var four, two := Index(e, "\r\n\r\n"), Index(e, "\n\n");
    if 0 <= four {
      IndexFromOccurs(e, "\r\n\r\n", 0);
      FourIsBlank(e, four);
    } else if 0 <= two {
      IndexFromOccurs(e, "\n\n", 0);
      TwoIsBlank(e, two);
    }
  }

  lemma FirstFour(front: string, rest: string)
    requires '\r' !in front
    ensures Index(front + ("\r\n\r\n" + rest), "\r\n\r\n") == |front|
  {
    var four := "\r\n\r\n";
    var e := front + (four + rest);
    OccursInLeft(four, rest, four, 0);
    OccursInRight(front, four + rest, four, |front|);
    IndexFromIsFirst(e, four, 0, |front|);
    IndexFromOccurs(e, four, 0);
    FourIsBlank(e, Index(e, four));
    assert forall k :: 0 <= k < |front| ==> e[k] == front[k] != '\r';
  }

  lemma FourCuts(front: string, rest: string)
    requires '\r' !in front
    ensures SplitHeaders(front + ("\r\n\r\n" + rest)) == Entity(front, rest)
  {
    FirstFour(front, rest);
    var e := front + ("\r\n\r\n" + rest);
    assert e[..|front|] == front && e[|front| + 4..] == rest;
  }

  /** Without any blank line told by CRLF CRLF or LF LF an entity is all headers, and
      nothing but the empty text is refused. */
  lemma AllHeadersExactlyWhen(e: string)
    ensures SplitHeaders(e) == NoEntity <==> e == ""
    ensures e != "" && !Contains(e, "\r\n\r\n") && !Contains(e, "\n\n") ==> SplitHeaders(e) == Entity(e, "")
  {
    IndexIsFirst(e, "\r\n\r\n");
    IndexIsFirst(e, "\n\n");
  }

  /** A CRLF CRLF wins over an LF LF before it. */
  lemma LateBlankLineWins(h: string, b: string, rest: string)
    requires '\r' !in h && '\r' !in b
    ensures SplitHeaders(h + "\n\n" + b + "\r\n\r\n" + rest) == Entity(h + "\n\n" + b, rest)
  {
    var front := h + "\n\n" + b;
    FourCuts(front, rest);
    Assoc(front, "\r\n\r\n", rest);
  }
}
