/** Detached S/MIME signatures (internal/crypto/smime.go). The CMS library, the media
    type of a part and its transfer decoding are parameters. */
module Smime {
  import opened Bytes
  import opened LineEndings
  import opened Multipart
  import opened Options
  import opened PgpMime

  // ----- the two parts

  datatype Parts = Parts(der: string, content: string)

  /** The first section that declares itself a signature, decoded. */
  function FirstSignature(sections: seq<string>, isSignature: string -> bool,
                          decode: (string, string) -> Option<string>): Option<string> {
    if sections == [] then None
    else match SplitHeaders(sections[0])
         case NoEntity => FirstSignature(sections[1..], isSignature, decode)
         case Entity(headers, body) =>
           if isSignature(headers) then decode(headers, body) else FirstSignature(sections[1..], isSignature, decode)
  }

  function DetachedOf(body: string, boundary: string, isSignature: string -> bool,
                      decode: (string, string) -> Option<string>): Option<Parts> {
    if boundary == "" then None
    else
      var sections := Split(body, "--" + boundary);
      if |sections| < 2 then None
      else match FirstSignature(sections[1..], isSignature, decode)
           case None => None
           case Some(der) => Some(Parts(der, sections[0]))
  }

  predicate Declared(section: string, isSignature: string -> bool) {
    SplitHeaders(section).Entity? && isSignature(SplitHeaders(section).headers)
  }

  ghost predicate FirstDeclared(sections: seq<string>, k: int, isSignature: string -> bool) {
    0 <= k < |sections| && Declared(sections[k], isSignature) && forall j :: 0 <= j < k ==> !Declared(sections[j], isSignature)
  }

  lemma {:induction false} FirstSignatureExactlyWhen(sections: seq<string>, isSignature: string -> bool,
                                                     decode: (string, string) -> Option<string>, der: string)
    ensures FirstSignature(sections, isSignature, decode) == Some(der) <==>
            exists k :: FirstDeclared(sections, k, isSignature) && decode(SplitHeaders(sections[k]).headers, SplitHeaders(sections[k]).body) == Some(der)
  {
    if sections != [] {
      var rest := sections[1..];
      FirstSignatureExactlyWhen(rest, isSignature, decode, der);
      assert forall j :: 0 < j < |sections| ==> sections[j] == rest[j - 1];
      if Declared(sections[0], isSignature) {
        assert forall k :: FirstDeclared(sections, k, isSignature) ==> k == 0;
        assert FirstDeclared(sections, 0, isSignature);
      } else {
        forall k ensures FirstDeclared(sections, k, isSignature) <==> FirstDeclared(rest, k - 1, isSignature) {
        }
        if k :| FirstDeclared(rest, k, isSignature) && decode(SplitHeaders(rest[k]).headers, SplitHeaders(rest[k]).body) == Some(der) {
          assert FirstDeclared(sections, k + 1, isSignature);
        }
      }
    }
  }

  /** The signed content is the first section, and the signature the first later one that
      declares itself one, decoded; if that does not decode there is none. */
  lemma DetachedExactlyWhen(body: string, boundary: string, isSignature: string -> bool,
                            decode: (string, string) -> Option<string>, parts: Parts)
    ensures DetachedOf(body, boundary, isSignature, decode) == Some(parts) <==>
            && boundary != "" && 2 <= |Split(body, "--" + boundary)| && parts.content == Split(body, "--" + boundary)[0]
            && var later := Split(body, "--" + boundary)[1..];
               exists k :: FirstDeclared(later, k, isSignature) && decode(SplitHeaders(later[k]).headers, SplitHeaders(later[k]).body) == Some(parts.der)
  {
    if boundary != "" && 2 <= |Split(body, "--" + boundary)| {
      FirstSignatureExactlyWhen(Split(body, "--" + boundary)[1..], isSignature, decode, parts.der);
    }
  }

  /** detachedParts. */
  method DetachedParts(body: string, boundary: string, isSignature: string -> bool,
                       decode: (string, string) -> Option<string>) returns (r: Option<Parts>)
    ensures r == DetachedOf(body, boundary, isSignature, decode)
  {
    if boundary == "" {
      return None;
    }
    var sections := SplitOnBoundary(body, "--" + boundary);
    if |sections| < 2 {
      return None;
    }
    var k := 1;
    while k < |sections|
      invariant 1 <= k <= |sections|
      invariant FirstSignature(sections[k..], isSignature, decode) == FirstSignature(sections[1..], isSignature, decode)
    {
      assert sections[k..][1..] == sections[k + 1..];
      var part := SplitHeaders(sections[k]);
      if part.Entity? && isSignature(part.headers) {
        var blob := decode(part.headers, part.body);
        return if blob == None then None else Some(Parts(blob.value, sections[0]));
      }
      k := k + 1;
    }
    r := None;
  }

  /** The signed part comes back byte for byte, headers included, with the signature
      that covers it, from a body printed as RFC 1847 has it. */
  lemma DetachedPartsComeBack(content: string, line1: string, line2: string, payload: string, boundary: string,
                              isSignature: string -> bool, decode: (string, string) -> Option<string>)
    requires OneLine("--" + boundary) && boundary != "" && Tame(line1) && Tame(line2) && line1 != "" && line2 != ""
    requires !Contains(content, "--" + boundary) && !HasPrefix(content, "\n") && !Contains(payload, "--" + boundary)
    requires isSignature(line1 + ("\r\n" + line2)) && decode(line1 + ("\r\n" + line2), payload).Some?
    ensures DetachedOf(Multi([content, Headers(line1, line2) + payload], boundary), boundary, isSignature, decode)
         == Some(Parts(decode(line1 + ("\r\n" + line2), payload).value, content))
  {
    PairSplits(content, line1, line2, payload, boundary);
    HeadersSplitOff(line1, line2, payload);
    var both := [content, Headers(line1, line2) + payload];
    assert both[1..] == [Headers(line1, line2) + payload];
  }

  // ----- the check

  /** What the CMS library says of a signature over some bytes. */
  datatype Check = Verified | OutsideWindow | Altered

  class CMS {
    var content: string
    const der: string

    constructor (der: string, embedded: string)
      ensures this.der == der && content == embedded
    {
      this.der, this.content := der, embedded;
    }
  }

  function ContentCheck(check: (string, string) -> Check, der: string, held: string, content: string): Check {
    var first := check(der, held);
    if first == Verified || content == "" || ToCRLF(content) == content then first
    else check(der, ToCRLF(content))
  }

  /** Without a content of its own, the opaque signature, the verdict is that on the
      embedded one. With one, it is a success if and only if the library accepts what is
      held, or the canonical form of a content that is not canonical; and otherwise what it
      says of the last it was asked. */
  lemma AcceptedExactlyWhen(check: (string, string) -> Check, der: string, held: string, content: string)
    ensures content == "" ==> ContentCheck(check, der, held, content) == check(der, held)
    ensures ContentCheck(check, der, held, content) == Verified <==>
            check(der, held) == Verified || (content != "" && !Canonical(content) && check(der, ToCRLF(content)) == Verified)
    ensures ContentCheck(check, der, held, content) != Verified ==>
            ContentCheck(check, der, held, content) ==
            if content == "" || Canonical(content) then check(der, held) else check(der, ToCRLF(content))
  {
    ToCRLFCanonical(content);
  }

  /** verifyContent. */
  method VerifyContent(p7: CMS, content: string, check: (string, string) -> Check) returns (r: Check)
    modifies p7
    ensures r == ContentCheck(check, p7.der, old(p7.content), content)
    ensures p7.content == old(p7.content) || p7.content == ToCRLF(content)
    ensures r == Verified ==> check(p7.der, p7.content) == Verified
  {
    r := check(p7.der, p7.content);
    if r == Verified || content == "" {
      return;
    }
    var canonical := ToCRLF(content);
    if canonical == content {
      return;
    }
    p7.content := canonical;
    r := check(p7.der, p7.content);
  }

  /** Detached content whose line endings a relay rewrote is still verified, on the
      bytes that were signed if not as it stands. */
  lemma RewrittenContentVerifies(check: (string, string) -> Check, der: string, sent: string, seen: string)
    requires Canonical(sent) && !Contains(sent, "\r\r\n") && Rewritten(sent, seen) && seen != ""
    requires check(der, sent) == Verified
    ensures ContentCheck(check, der, seen, seen) == Verified
  {
    SecondAttemptSeesSignedBytes(sent);
    assert ToCRLF(seen) == sent;
  }

  /** What a message digest gives: a signature fits no two contents. */
  ghost predicate FitsOne(check: (string, string) -> Check, der: string) {
    forall a, b :: check(der, a) != Altered && check(der, b) != Altered ==> a == b
  }

  /** A signature that fits, but was made outside the certificate's validity, is told
      apart from an altered message if and only if the content is canonical. */
  lemma WindowToldExactlyWhen(check: (string, string) -> Check, der: string, content: string)
    requires FitsOne(check, der) && check(der, content) == OutsideWindow && content != ""
    ensures ContentCheck(check, der, content, content) == if Canonical(content) then OutsideWindow else Altered
  {
    ToCRLFCanonical(content);
  }

  /** Over one bare line feed it is not. */
  lemma WindowUntold(check: (string, string) -> Check, der: string)
    requires FitsOne(check, der) && check(der, "\n") == OutsideWindow
    ensures ContentCheck(check, der, "\n", "\n") == Altered
  {
    WindowToldExactlyWhen(check, der, "\n");
    assert "\n"[0] == '\n';
  }

  /** Nor is the case of a canonical content that comes rewritten lost: the second
      attempt tells it. */
  lemma RewrittenWindowTold(check: (string, string) -> Check, der: string, sent: string, seen: string)
    requires FitsOne(check, der) && check(der, sent) == OutsideWindow
    requires Canonical(sent) && !Contains(sent, "\r\r\n") && Rewritten(sent, seen) && seen != ""
    ensures ContentCheck(check, der, seen, seen) == OutsideWindow
  {
    SecondAttemptSeesSignedBytes(sent);
    assert ToCRLF(seen) == sent;
    ToCRLFCanonical(seen);
  }
}
