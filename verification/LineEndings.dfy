/** Canonical line endings (internal/crypto/pgp.go) and the second verification
    attempt that depends on them (internal/crypto/open.go, smime.go). */
module LineEndings {
  import opened Bytes

  function ToCRLF(b: string): string {
    ReplaceAll(ReplaceAll(b, "\r\n", "\n"), "\n", "\r\n")
  }

  /** Every LF is preceded by a CR. */
  ghost predicate Canonical(c: string) {
    forall i :: 0 <= i < |c| && c[i] == '\n' ==> 0 < i && c[i - 1] == '\r'
  }

  /** `seen` is `sent` after some relay rewrote any number of its CRLFs to LF. */
  ghost predicate Rewritten(sent: string, seen: string) {
    if sent == "" then seen == ""
    else if "\r\n" <= sent then
      || ("\r\n" <= seen && Rewritten(sent[2..], seen[2..]))
      || ("\n" <= seen && Rewritten(sent[2..], seen[1..]))
    else seen != "" && seen[0] == sent[0] && Rewritten(sent[1..], seen[1..])
  }

  // ----- one-pass form of the two replacements

  function Crlf(b: string): string {
    if b == "" then ""
    else if "\r\n" <= b then "\r\n" + Crlf(b[2..])
    else if b[0] == '\n' then "\r\n" + Crlf(b[1..])
    else b[..1] + Crlf(b[1..])
  }

  lemma {:induction false} ToCRLFIsOnePass(b: string)
    ensures ToCRLF(b) == Crlf(b)
  {
    var unix := ReplaceAll(b, "\r\n", "\n");
    if b == "" {
    } else if "\r\n" <= b {
      ToCRLFIsOnePass(b[2..]);
      assert unix == "\n" + ReplaceAll(b[2..], "\r\n", "\n");
      assert unix[1..] == ReplaceAll(b[2..], "\r\n", "\n");
    } else {
      ToCRLFIsOnePass(b[1..]);
      assert unix == b[..1] + ReplaceAll(b[1..], "\r\n", "\n");
      assert unix[1..] == ReplaceAll(b[1..], "\r\n", "\n");
      assert unix[..1] == b[..1];
    }
  }

  lemma CrlfStart(b: string)
    ensures !("\n" <= Crlf(b))
    ensures "\r\n" <= Crlf(b) <==> "\r\n" <= b || "\n" <= b
  {
    if b == "" {
    } else if "\r\n" <= b || b[0] == '\n' {
      assert Crlf(b)[0] == '\r';
    } else {
      assert Crlf(b)[0] == b[0];
      CrlfStart(b[1..]);
      assert Crlf(b)[1..] == Crlf(b[1..]);
      assert 1 < |Crlf(b)| ==> Crlf(b)[1..][0] == Crlf(b)[1];
    }
  }

  /** Canonical and free of CR CR LF, read off front to back. */
  ghost predicate Clean(c: string) {
    if c == "" then true
    else if "\r\n" <= c then Clean(c[2..])
    else c[0] != '\n' && !(c[0] == '\r' && "\r\n" <= c[1..]) && Clean(c[1..])
  }

  lemma CanonicalStep(c: string)
    requires c != ""
    ensures "\r\n" <= c ==> (Canonical(c) <==> Canonical(c[2..]))
    ensures !("\r\n" <= c) ==> (Canonical(c) <==> c[0] != '\n' && Canonical(c[1..]))
  {
    var n := if "\r\n" <= c then 2 else 1;
    var r := c[n..];
    assert 2 <= |c| && c[0] == '\r' && c[1] == '\n' ==> "\r\n" <= c;
    if Canonical(c) {
      forall i | 0 <= i < |r| && r[i] == '\n' ensures 0 < i && r[i - 1] == '\r' {
        assert c[i + n] == '\n' && c[i + n - 1] == '\r';
      }
    }
    if Canonical(r) && c[0] != '\n' {
      forall i | 0 <= i < |c| && c[i] == '\n' ensures 0 < i && c[i - 1] == '\r' {
        if n <= i { assert r[i - n] == '\n' && r[i - n - 1] == '\r'; }
      }
    }
  }

  lemma DoubleCRStep(c: string)
    requires c != ""
    ensures "\r\n" <= c ==> (Contains(c, "\r\r\n") <==> Contains(c[2..], "\r\r\n"))
    ensures !("\r\n" <= c) ==>
      (Contains(c, "\r\r\n") <==> (c[0] == '\r' && "\r\n" <= c[1..]) || Contains(c[1..], "\r\r\n"))
  {
    var n := if "\r\n" <= c then 2 else 1;
    assert c == c[..n] + c[n..];
    if i :| OccursAt(c, "\r\r\n", i) {
      OccursPointwise(c, "\r\r\n", i);
      if n <= i {
        OccursInRight(c[..n], c[n..], "\r\r\n", i);
      } else {
        assert c[i] == '\r' && c[i + 1] == '\r' && c[i + 2] == '\n';
        assert n == 1;
        assert c[1..][..2] == "\r\n";
      }
    }
    if i :| OccursAt(c[n..], "\r\r\n", i) {
      OccursInRight(c[..n], c[n..], "\r\r\n", i + n);
    }
    if n == 1 && c[0] == '\r' && "\r\n" <= c[1..] {
      assert c[0..3] == "\r\r\n";
      assert OccursAt(c, "\r\r\n", 0);
    }
  }

  lemma {:induction false} CleanMeans(c: string)
    ensures Clean(c) <==> Canonical(c) && !Contains(c, "\r\r\n")
  {
    if c == "" {
    } else {
      CanonicalStep(c);
      DoubleCRStep(c);
      CleanMeans(if "\r\n" <= c then c[2..] else c[1..]);
    }
  }

  lemma {:induction false} CrlfClean(b: string)
    ensures Canonical(Crlf(b))
    ensures Clean(Crlf(b)) <==> !Contains(b, "\r\r\n")
  {
    if b == "" {
    } else {
      var n := if "\r\n" <= b then 2 else 1;
      CrlfClean(b[n..]);
      CrlfStart(b[n..]);
      DoubleCRStep(b);
      CanonicalStep(Crlf(b));
      if "\r\n" <= b || b[0] == '\n' {
        assert Crlf(b)[2..] == Crlf(b[n..]);
      } else {
        assert Crlf(b)[1..] == Crlf(b[1..]);
      }
    }
  }

  lemma {:induction false} CrlfFixed(c: string)
    ensures Crlf(c) == c <==> Canonical(c)
  {
    if c == "" {
    } else {
      CanonicalStep(c);
      CrlfFixed(if "\r\n" <= c then c[2..] else c[1..]);
      if "\r\n" <= c {
        assert c == "\r\n" + c[2..];
      } else {
        assert c == c[..1] + c[1..];
        if c[0] == '\n' { assert Crlf(c)[0] == '\r'; }
        else if Crlf(c) == c { assert Crlf(c)[1..] == Crlf(c[1..]); }
      }
    }
  }

  // ----- the laws

  /** toCRLF always yields canonical bytes and leaves canonical bytes alone. */
  lemma ToCRLFCanonical(b: string)
    ensures Canonical(ToCRLF(b))
    ensures ToCRLF(b) == b <==> Canonical(b)
    ensures ToCRLF(ToCRLF(b)) == ToCRLF(b)
  {
    ToCRLFIsOnePass(b);
    ToCRLFIsOnePass(ToCRLF(b));
    CrlfClean(b);
    CrlfFixed(b);
    CrlfFixed(Crlf(b));
  }

  lemma {:induction false} CleanRestored(sent: string, seen: string)
    requires Clean(sent) && Rewritten(sent, seen)
    ensures Crlf(seen) == sent
    ensures "\n" <= seen || "\r\n" <= seen ==> "\r\n" <= sent
  {
    if sent == "" {
    } else if "\r\n" <= sent {
      assert sent == "\r\n" + sent[2..];
      if "\r\n" <= seen && Rewritten(sent[2..], seen[2..]) {
        CleanRestored(sent[2..], seen[2..]);
      } else {
        CleanRestored(sent[2..], seen[1..]);
      }
    } else {
      assert sent == sent[..1] + sent[1..];
      CleanRestored(sent[1..], seen[1..]);
      assert 2 <= |seen| && seen[1] == '\n' ==> "\n" <= seen[1..];
    }
  }

  /** Every CRLF turned to LF. */
  function ToUnix(c: string): string {
    ReplaceAll(c, "\r\n", "\n")
  }

  lemma {:induction false} ToUnixRewrites(c: string)
    ensures Rewritten(c, ToUnix(c))
  {
    if c == "" {
    } else if "\r\n" <= c {
      ToUnixRewrites(c[2..]);
      assert ToUnix(c)[1..] == ToUnix(c[2..]);
    } else {
      ToUnixRewrites(c[1..]);
      assert ToUnix(c)[1..] == ToUnix(c[1..]);
    }
  }

  lemma {:induction false} RewrittenRefl(c: string)
    ensures Rewritten(c, c)
  {
    if c != "" {
      RewrittenRefl(if "\r\n" <= c then c[2..] else c[1..]);
    }
  }

  lemma {:induction false} DoubleCRLost(c: string)
    requires Canonical(c)
    ensures |Crlf(ToUnix(c))| <= |c|
    ensures !Clean(c) ==> |Crlf(ToUnix(c))| < |c|
    ensures "\n" <= ToUnix(c) <==> "\r\n" <= c
  {
    if c == "" {
    } else if "\r\n" <= c {
      CanonicalStep(c);
      DoubleCRLost(c[2..]);
      assert ToUnix(c) == "\n" + ToUnix(c[2..]);
      assert ToUnix(c)[1..] == ToUnix(c[2..]);
      assert Crlf(ToUnix(c)) == "\r\n" + Crlf(ToUnix(c[2..]));
    } else {
      CanonicalStep(c);
      DoubleCRLost(c[1..]);
      var u := ToUnix(c[1..]);
      assert ToUnix(c) == c[..1] + u && ToUnix(c)[1..] == u;
      if "\r\n" <= ToUnix(c) {
        assert "\n" <= u by { assert u[0] == ToUnix(c)[1]; }
        assert ToUnix(c)[2..] == u[1..];
        assert |Crlf(u)| == 2 + |Crlf(u[1..])|;
      }
    }
  }

  /** Bytes survive every rewriting of their line endings exactly when they are
      canonical and hold no CR CR LF. */
  lemma SecondAttemptSeesSignedBytes(sent: string)
    ensures (forall seen :: Rewritten(sent, seen) ==> ToCRLF(seen) == sent)
      <==> Canonical(sent) && !Contains(sent, "\r\r\n")
  {
    CleanMeans(sent);
    if Clean(sent) {
      forall seen | Rewritten(sent, seen) ensures ToCRLF(seen) == sent {
        ToCRLFIsOnePass(seen);
        CleanRestored(sent, seen);
      }
    } else if Canonical(sent) {
      ToUnixRewrites(sent);
      DoubleCRLost(sent);
      ToCRLFIsOnePass(ToUnix(sent));
    } else {
      RewrittenRefl(sent);
      ToCRLFCanonical(sent);
    }
  }

  /** In terms of what was handed to sign: the bytes it puts on the wire survive
      exactly when the entity held no CR CR LF. */
  lemma SignedEntitySurvives(entity: string)
    ensures (forall seen :: Rewritten(ToCRLF(entity), seen) ==> ToCRLF(seen) == ToCRLF(entity))
      <==> !Contains(entity, "\r\r\n")
  {
    SecondAttemptSeesSignedBytes(ToCRLF(entity));
    ToCRLFIsOnePass(entity);
    CrlfClean(entity);
    CleanMeans(Crlf(entity));
  }
}
