/** Printing and opening PGP/MIME (internal/crypto/pgp.go, open.go; RFC 3156). The
    OpenPGP library is a parameter: `check` verifies a detached signature. */
module PgpMime {
  import opened Bytes
  import opened LineEndings
  import opened Multipart

  const SIGNATURE_TYPE: string := "application/pgp-signature"
  const ENCRYPTED_TYPE: string := "application/pgp-encrypted"
  const OCTET_STREAM_TYPE: string := "application/octet-stream"
  const VERSION_BODY: string := "Version: 1"
  const SIGNATURE_FILENAME: string := "signature.asc"
  const ENCRYPTED_FILENAME: string := "encrypted.asc"

  // ----- printing

  /** A bytes.Buffer. */
  class Buffer {
    var data: string

    constructor ()
      ensures data == ""
    {
      data := "";
    }

    method WriteString(s: string)
      modifies this
      ensures data == old(data) + s
    {
      data := data + s;
    }
  }

  function DelimiterLine(boundary: string, last: bool): string {
    "--" + boundary + (if last then "--" else "") + "\r\n"
  }

  method WriteBoundary(b: Buffer, boundary: string, last: bool)
    modifies b
    ensures b.data == old(b.data) + DelimiterLine(boundary, last)
  {
    b.WriteString("--");
    b.WriteString(boundary);
    if last {
      b.WriteString("--");
    }
    b.WriteString("\r\n");
  }

  /** The header block of a part: two lines and the blank one. */
  function Headers(contentType: string, description: string): string {
    contentType + ("\r\n" + (description + "\r\n\r\n"))
  }

  function NamedType(mediaType: string, filename: string): string {
    "Content-Type: " + (mediaType + ("; name=\"" + (filename + "\"")))
  }

  function SignatureHeaders(): string {
    Headers(NamedType(SIGNATURE_TYPE, SIGNATURE_FILENAME), "Content-Description: " + "OpenPGP digital signature")
  }

  function VersionHeaders(): string {
    Headers("Content-Type: " + ENCRYPTED_TYPE, "Content-Description: " + "PGP/MIME version identification")
  }

  function CiphertextHeaders(): string {
    Headers(NamedType(OCTET_STREAM_TYPE, ENCRYPTED_FILENAME), "Content-Description: " + "OpenPGP encrypted message")
  }

  /** A multipart with these sections, no preamble and no epilogue. */
  function Multi(sections: seq<string>, boundary: string): string
    requires sections != []
  {
    "--" + boundary + Wire(sections, "--" + boundary, "\r\n", "\r\n")
  }

  function SignedBody(entity: string, signature: string, boundary: string): string {
    Multi([entity, SignatureHeaders() + signature], boundary)
  }

  function EncryptedBody(ciphertext: string, boundary: string): string {
    Multi([VersionHeaders() + VERSION_BODY, CiphertextHeaders() + ciphertext], boundary)
  }

  lemma TwoSections(first: string, second: string, boundary: string)
    ensures Multi([first, second], boundary)
         == DelimiterLine(boundary, false) + first + "\r\n" + DelimiterLine(boundary, false) + second + "\r\n"
            + DelimiterLine(boundary, true)
  {
    var d := "--" + boundary;
    var tail := "--" + "\r\n";
    assert [first, second][1..] == [second];
    var wire2 := "\r\n" + (second + ("\r\n" + (d + tail)));
    assert Wire([second], d, "\r\n", "\r\n") == wire2;
    assert Wire([first, second], d, "\r\n", "\r\n") == "\r\n" + (first + ("\r\n" + (d + wire2)));
    assert DelimiterLine(boundary, false) == d + "\r\n";
    assert DelimiterLine(boundary, true) == d + tail;
  }

  method AssembleSigned(entity: string, signature: string, boundary: string) returns (body: string)
    ensures body == SignedBody(entity, signature, boundary)
  {
    var b := new Buffer();
    WriteBoundary(b, boundary, false);
    b.WriteString(entity);
    b.WriteString("\r\n");
    WriteBoundary(b, boundary, false);
    ghost var before := b.data;
    b.WriteString("Content-Type: " + (SIGNATURE_TYPE + ("; name=\"" + (SIGNATURE_FILENAME + "\""))) + "\r\n");
    b.WriteString("Content-Description: " + "OpenPGP digital signature" + "\r\n");
    b.WriteString("\r\n");
    HeadersWritten(before, NamedType(SIGNATURE_TYPE, SIGNATURE_FILENAME), "Content-Description: " + "OpenPGP digital signature");
    b.WriteString(signature);
    Assoc(before, SignatureHeaders(), signature);
    b.WriteString("\r\n");
    WriteBoundary(b, boundary, true);
    TwoSections(entity, SignatureHeaders() + signature, boundary);
    EmptyLeft(DelimiterLine(boundary, false));
    body := b.data;
  }

  method AssembleEncrypted(ciphertext: string, boundary: string) returns (body: string)
    ensures body == EncryptedBody(ciphertext, boundary)
  {
    var b := new Buffer();
    WriteBoundary(b, boundary, false);
    EmptyLeft(DelimiterLine(boundary, false));
    ghost var before := b.data;
    b.WriteString("Content-Type: " + ENCRYPTED_TYPE + "\r\n");
    b.WriteString("Content-Description: " + "PGP/MIME version identification" + "\r\n");
    b.WriteString("\r\n");
    HeadersWritten(before, "Content-Type: " + ENCRYPTED_TYPE, "Content-Description: " + "PGP/MIME version identification");
    b.WriteString(VERSION_BODY + "\r\n");
    Assoc(VersionHeaders(), VERSION_BODY, "\r\n");
    Assoc(before, VersionHeaders(), VERSION_BODY + "\r\n");
    Assoc(before, VersionHeaders() + VERSION_BODY, "\r\n");
    WriteBoundary(b, boundary, false);
    before := b.data;
    b.WriteString("Content-Type: " + (OCTET_STREAM_TYPE + ("; name=\"" + (ENCRYPTED_FILENAME + "\""))) + "\r\n");
    b.WriteString("Content-Description: " + "OpenPGP encrypted message" + "\r\n");
    b.WriteString("\r\n");
    HeadersWritten(before, NamedType(OCTET_STREAM_TYPE, ENCRYPTED_FILENAME), "Content-Description: " + "OpenPGP encrypted message");
    b.WriteString(ciphertext);
    Assoc(before, CiphertextHeaders(), ciphertext);
    b.WriteString("\r\n");
    WriteBoundary(b, boundary, true);
    TwoSections(VersionHeaders() + VERSION_BODY, CiphertextHeaders() + ciphertext, boundary);
    body := b.data;
  }

  lemma HeadersWritten(before: string, line1: string, line2: string)
    ensures before + (line1 + "\r\n") + (line2 + "\r\n") + "\r\n" == before + Headers(line1, line2)
  {
    assert "\r\n" + "\r\n" == "\r\n\r\n";
  }

  // ----- opening

  /** What the OpenPGP library says of a detached signature over some bytes. */
  datatype Check = Good(signer: string) | UnknownIssuer | Bad
  datatype Verdict = Valid(signer: string) | Untrusted | Invalid
  datatype Opened = Malformed | Opened(body: string, verdict: Verdict)
  datatype Ciphertext = NoCiphertext | Ciphertext(armor: string)

  function SignatureVerdict(c: Check): Verdict {
    match c
    case Good(signer) => Valid(signer)
    case UnknownIssuer => Untrusted
    case Bad => Invalid
  }

  /** The bytes as they came get the first attempt, their canonical form the second. */
  function CheckDetached(haveKeys: bool, check: (string, string) -> Check, content: string, sig: string): Verdict {
    if !haveKeys then Untrusted
    else
      var first := check(content, sig);
      var canonical := ToCRLF(content);
      if first.Good? then SignatureVerdict(first)
      else if canonical != content && check(canonical, sig).Good? then SignatureVerdict(check(canonical, sig))
      else SignatureVerdict(first)
  }

  function OpenMIMESigned(haveKeys: bool, check: (string, string) -> Check, body: string, boundary: string): Opened {
    if boundary == "" then Malformed
    else
      var sections := Split(body, "--" + boundary);
      if |sections| < 2 then Malformed
      else
        match SplitHeaders(sections[1])
        case NoEntity => Malformed
        case Entity(_, sig) => Opened(sections[0], CheckDetached(haveKeys, check, sections[0], sig))
  }

  /** The armor handed to decryption. */
  function OpenMIMEEncrypted(body: string, boundary: string): Ciphertext {
    if boundary == "" then NoCiphertext
    else
      var sections := Split(body, "--" + boundary);
      if |sections| < 2 then NoCiphertext
      else
        match SplitHeaders(sections[1])
        case NoEntity => NoCiphertext
        case Entity(_, armor) => Ciphertext(armor)
  }

  // ----- the verdict, told by what the library says

  /** The library accepts the signature of this key, over the content as it came or, if
      it does not accept that, over its canonical form. */
  ghost predicate Accepts(check: (string, string) -> Check, content: string, sig: string, signer: string) {
    || check(content, sig) == Good(signer)
    || ((forall other :: check(content, sig) != Good(other)) && check(ToCRLF(content), sig) == Good(signer))
  }

  /** The verdict is valid, by this signer, if and only if there are keys and the library
      accepts the signature of that key; an unknown signer if and only if there are no
      keys, or it accepts neither attempt and does not know the key of the first; and in
      every other case invalid. */
  ghost predicate Tells(v: Verdict, haveKeys: bool, check: (string, string) -> Check, content: string, sig: string) {
    && (forall signer :: v == Valid(signer) <==> haveKeys && Accepts(check, content, sig, signer))
    && (v == Untrusted <==>
         !haveKeys || ((forall signer :: !Accepts(check, content, sig, signer)) && check(content, sig) == UnknownIssuer))
    && (v == Invalid <==>
         haveKeys && (forall signer :: !Accepts(check, content, sig, signer)) && check(content, sig) == Bad)
  }

  /** A signed message is malformed if and only if there is no boundary, or it splits into
      fewer than two sections, or the second is empty. */
  lemma MalformedExactlyWhen(haveKeys: bool, check: (string, string) -> Check, body: string, boundary: string)
    ensures OpenMIMESigned(haveKeys, check, body, boundary) == Malformed <==>
            boundary == "" || |Split(body, "--" + boundary)| < 2 || Split(body, "--" + boundary)[1] == ""
    ensures OpenMIMEEncrypted(body, boundary) == NoCiphertext <==>
            boundary == "" || |Split(body, "--" + boundary)| < 2 || Split(body, "--" + boundary)[1] == ""
  {
  }

  /** Any other opens on its first section, with that verdict. */
  lemma VerdictExactlyWhen(haveKeys: bool, check: (string, string) -> Check, body: string, boundary: string,
                           headers: string, sig: string)
    requires boundary != "" && 2 <= |Split(body, "--" + boundary)|
    requires SplitHeaders(Split(body, "--" + boundary)[1]) == Entity(headers, sig)
    ensures var content, got := Split(body, "--" + boundary)[0], OpenMIMESigned(haveKeys, check, body, boundary);
            got.Opened? && got.body == content && Tells(got.verdict, haveKeys, check, content, sig)
  {
    var content := Split(body, "--" + boundary)[0];
    match check(content, sig) {
      case Good(signer) => assert Accepts(check, content, sig, signer);
      case _ =>
        if check(ToCRLF(content), sig).Good? {
          assert Accepts(check, content, sig, check(ToCRLF(content), sig).signer);
        }
    }
  }

  // ----- the headers written by hand hold no delimiter and end where they should

  /** One line, with no two dashes in a row and none in front. */
  ghost predicate Tame(s: string) {
    && (forall j {:trigger s[j]} :: 0 <= j < |s| ==> s[j] != '\r' && s[j] != '\n' && (j + 1 < |s| ==> !(s[j] == '-' && s[j + 1] == '-')))
    && (s != "" ==> s[0] != '-')
  }

  lemma TameJoin(a: string, b: string)
    requires Tame(a) && Tame(b)
    ensures Tame(a + b)
  {
  }

  lemma TameNamed(mediaType: string, filename: string)
    requires Tame(mediaType) && Tame(filename)
    ensures Tame(NamedType(mediaType, filename))
  {
    TameJoin(filename, "\"");
    TameJoin("; name=\"", filename + "\"");
    TameJoin(mediaType, "; name=\"" + (filename + "\""));
    TameJoin("Content-Type: ", mediaType + ("; name=\"" + (filename + "\"")));
  }

  lemma TameSignatureHeaders()
    ensures Tame(NamedType(SIGNATURE_TYPE, SIGNATURE_FILENAME))
    ensures Tame("Content-Description: " + "OpenPGP digital signature")
  {
    TameNamed(SIGNATURE_TYPE, SIGNATURE_FILENAME);
    TameJoin("Content-Description: ", "OpenPGP digital signature");
  }

  lemma TameCiphertextHeaders()
    ensures Tame(NamedType(OCTET_STREAM_TYPE, ENCRYPTED_FILENAME))
    ensures Tame("Content-Description: " + "OpenPGP encrypted message")
  {
    TameNamed(OCTET_STREAM_TYPE, ENCRYPTED_FILENAME);
    TameJoin("Content-Description: ", "OpenPGP encrypted message");
  }

  /** A header block before a payload adds no delimiter to it. */
  lemma HeadersHideNothing(line1: string, line2: string, payload: string, delimiter: string)
    requires Tame(line1) && Tame(line2) && OneLine(delimiter) && "--" <= delimiter
    ensures Contains(Headers(line1, line2) + payload, delimiter) <==> Contains(payload, delimiter)
  {
    var h := Headers(line1, line2);
    if i :| OccursAt(payload, delimiter, i) {
      OccursInRight(h, payload, delimiter, i + |h|);
    }
    if i :| OccursAt(h + payload, delimiter, i) {
      if |h| <= i {
        OccursInRight(h, payload, delimiter, i);
      } else {
        assert (h + payload)[|h| - 1] == '\n';
        NoStraddle(h + payload, delimiter, i, |h| - 1);
        OccursInLeft(h, payload, delimiter, i);
        NoDashPair(line1, line2, delimiter, i);
      }
    }
  }

  lemma NoDashPair(line1: string, line2: string, delimiter: string, i: nat)
    requires Tame(line1) && Tame(line2) && "--" <= delimiter
    ensures !OccursAt(Headers(line1, line2), delimiter, i)
  {
    var h := Headers(line1, line2);
    var k := i - |line1| - 2;
    if i + 1 < |h| {
      if i < |line1| {
        assert h[i] == line1[i];
        assert i + 1 < |line1| ==> h[i + 1] == line1[i + 1];
      } else if 0 <= k < |line2| {
        assert h[i] == line2[k];
        assert k + 1 < |line2| ==> h[i + 1] == line2[k + 1];
      }
    }
    assert delimiter[0] == '-' && delimiter[1] == '-';
  }

  lemma NoBlankLineBefore(line1: string, line2: string, payload: string, i: nat)
    requires Tame(line1) && Tame(line2) && line2 != "" && i < |line1| + 2 + |line2|
    ensures !OccursAt(Headers(line1, line2) + payload, "\r\n\r\n", i)
  {
    var e := Headers(line1, line2) + payload;
    assert e == line1 + ("\r\n" + (line2 + ("\r\n\r\n" + payload)));
    if i < |line1| {
      assert e[i] == line1[i];
    } else if i == |line1| {
      assert e[i + 2] == line2[0];
    } else if i == |line1| + 1 {
      assert e[i] == '\n';
    } else {
      assert e[i] == line2[i - |line1| - 2];
    }
    assert "\r\n\r\n"[0] == '\r' && "\r\n\r\n"[2] == '\r';
  }

  lemma BlankLineOf(line1: string, line2: string, payload: string)
    ensures var e, blank := Headers(line1, line2) + payload, |line1| + 2 + |line2|;
            && e[..blank] == line1 + ("\r\n" + line2)
            && OccursAt(e, "\r\n\r\n", blank)
            && e[blank + 4..] == payload
  {
    var e := Headers(line1, line2) + payload;
    assert e == line1 + ("\r\n" + line2) + ("\r\n\r\n" + payload);
  }

  /** The headers end at the first blank line, so what follows is the body. */
  lemma HeadersSplitOff(line1: string, line2: string, payload: string)
    requires Tame(line1) && Tame(line2) && line2 != ""
    ensures SplitHeaders(Headers(line1, line2) + payload) == Entity(line1 + ("\r\n" + line2), payload)
  {
    var e := Headers(line1, line2) + payload;
    var blank := |line1| + 2 + |line2|;
    BlankLineOf(line1, line2, payload);
    IndexFromIsFirst(e, "\r\n\r\n", 0, blank);
    var i := Index(e, "\r\n\r\n");
    if i < blank {
      IndexFromOccurs(e, "\r\n\r\n", 0);
      NoBlankLineBefore(line1, line2, payload, i);
    }
  }

  // ----- what is printed opens

  lemma SplitOfMulti(sections: seq<string>, boundary: string)
    requires sections != []
    ensures Split(Multi(sections, boundary), "--" + boundary)
         == Sections(Wire(sections, "--" + boundary, "\r\n", "\r\n"), "--" + boundary, 0)
  {
    SplitAfterDelimiter("--" + boundary, Wire(sections, "--" + boundary, "\r\n", "\r\n"));
  }

  lemma SplitAfterDelimiter(d: string, wire: string)
    requires d != ""
    ensures Split(d + wire, d) == Sections(wire, d, 0)
  {
    SectionsOfSuffix(d, wire, d);
  }

  /** A printed pair of parts splits back into exactly that pair when, and only
      when, neither holds the delimiter and the first does not begin with LF. */
  lemma PairSplits(first: string, line1: string, line2: string, payload: string, boundary: string)
    requires OneLine("--" + boundary) && Tame(line1) && Tame(line2) && line1 != ""
    ensures Split(Multi([first, Headers(line1, line2) + payload], boundary), "--" + boundary)
            == [first, Headers(line1, line2) + payload]
      <==> !Contains(first, "--" + boundary) && !HasPrefix(first, "\n") && !Contains(payload, "--" + boundary)
  {
    var d := "--" + boundary;
    var second := Headers(line1, line2) + payload;
    var both := [first, second];
    SplitOfMulti(both, boundary);
    SplitInvertsPrint(both, d, "\r\n", "\r\n");
    HeadersHideNothing(line1, line2, payload, d);
    assert second[0] == line1[0];
    assert both[0] == first && both[1] == second;
    assert (forall s :: s in both ==> Survives(s, d, "\r\n", "\r\n"))
      <==> Survives(first, d, "\r\n", "\r\n") && Survives(second, d, "\r\n", "\r\n");
  }

  /** The signed entity comes back byte for byte, and the signature with it,
      exactly when neither holds the delimiter and the entity does not begin with
      LF. */
  lemma SignedPartsComeBack(entity: string, signature: string, boundary: string)
    requires OneLine("--" + boundary)
    ensures Split(SignedBody(entity, signature, boundary), "--" + boundary) == [entity, SignatureHeaders() + signature]
      <==> !Contains(entity, "--" + boundary) && !HasPrefix(entity, "\n") && !Contains(signature, "--" + boundary)
    ensures SplitHeaders(SignatureHeaders() + signature).Entity?
         && SplitHeaders(SignatureHeaders() + signature).body == signature
  {
    var line1, line2 := NamedType(SIGNATURE_TYPE, SIGNATURE_FILENAME), "Content-Description: " + "OpenPGP digital signature";
    TameSignatureHeaders();
    PairSplits(entity, line1, line2, signature, boundary);
    HeadersSplitOff(line1, line2, signature);
  }

  /** The ciphertext comes back exactly when it does not hold the delimiter. */
  lemma EncryptedPartsComeBack(ciphertext: string, boundary: string)
    requires OneLine("--" + boundary) && boundary != ""
    ensures Split(EncryptedBody(ciphertext, boundary), "--" + boundary)
            == [VersionHeaders() + VERSION_BODY, CiphertextHeaders() + ciphertext]
      <==> !Contains(ciphertext, "--" + boundary)
    ensures !Contains(ciphertext, "--" + boundary)
      ==> OpenMIMEEncrypted(EncryptedBody(ciphertext, boundary), boundary) == Ciphertext(ciphertext)
  {
    var d := "--" + boundary;
    var line1, line2 := NamedType(OCTET_STREAM_TYPE, ENCRYPTED_FILENAME), "Content-Description: " + "OpenPGP encrypted message";
    var version := VersionHeaders() + VERSION_BODY;
    TameCiphertextHeaders();
    VersionHidesNothing(d);
    PairSplits(version, line1, line2, ciphertext, boundary);
    HeadersSplitOff(line1, line2, ciphertext);
  }

  lemma VersionHidesNothing(delimiter: string)
    requires OneLine(delimiter) && "--" <= delimiter
    ensures !Contains(VersionHeaders() + VERSION_BODY, delimiter) && !HasPrefix(VersionHeaders() + VERSION_BODY, "\n")
  {
    var version := VersionHeaders() + VERSION_BODY;
    HeadersHideNothing("Content-Type: " + ENCRYPTED_TYPE, "Content-Description: " + "PGP/MIME version identification", VERSION_BODY, delimiter);
    NoDashes(VERSION_BODY, delimiter);
    assert version[0] == 'C';
  }

  lemma NoDashes(s: string, delimiter: string)
    requires "--" <= delimiter && '-' !in s
    ensures !Contains(s, delimiter)
  {
    if i :| OccursAt(s, delimiter, i) {
      assert s[i + 0] == delimiter[0];
    }
  }

  /** What sign prints, opens: whatever the entity was, its canonical form comes
      back as the signed body and the verdict is the one on exactly those bytes. */
  lemma SignedMessageOpens(haveKeys: bool, check: (string, string) -> Check, entity: string, signature: string,
                           boundary: string)
    requires OneLine("--" + boundary) && boundary != ""
    requires !Contains(ToCRLF(entity), "--" + boundary) && !Contains(signature, "--" + boundary)
    ensures var got, sent := OpenMIMESigned(haveKeys, check, SignedBody(ToCRLF(entity), signature, boundary), boundary), ToCRLF(entity);
            && got.Opened? && got.body == sent
            && (forall signer :: got.verdict == Valid(signer) <==> haveKeys && check(sent, signature) == Good(signer))
            && (got.verdict == Untrusted <==> !haveKeys || check(sent, signature) == UnknownIssuer)
            && (got.verdict == Invalid <==> haveKeys && check(sent, signature) == Bad)
  {
    SignedPartsComeBack(ToCRLF(entity), signature, boundary);
    VerdictExactlyWhen(haveKeys, check, SignedBody(ToCRLF(entity), signature, boundary), boundary,
                       SplitHeaders(SignatureHeaders() + signature).headers, signature);
    ToCRLFCanonical(entity);
    assert !HasPrefix(ToCRLF(entity), "\n");
  }

  /** Content whose line endings a relay rewrote still verifies, unless the library
      already accepts it as it stands. */
  lemma RewrittenContentVerifies(check: (string, string) -> Check, entity: string, seen: string, sig: string)
    requires !Contains(entity, "\r\r\n") && Rewritten(ToCRLF(entity), seen)
    requires check(ToCRLF(entity), sig).Good?
    ensures CheckDetached(true, check, seen, sig)
         == Valid(if check(seen, sig).Good? then check(seen, sig).signer else check(ToCRLF(entity), sig).signer)
  {
    SignedEntitySurvives(entity);
    assert ToCRLF(seen) == ToCRLF(entity);
  }
}
