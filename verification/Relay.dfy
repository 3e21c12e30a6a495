/** A signed message after a relay has turned any of its CRLFs to LF, in its parts, in
    the lines around them and in the headers of the signature (internal/crypto/open.go,
    smime.go). */
module Relay {
  import opened Bytes
  import opened LineEndings
  import opened Multipart
  import opened PgpMime
  import opened BlankLines

  // ----- no delimiter appears

  lemma {:induction false} PrefixWasThere(sent: string, seen: string, d: string)
    requires Rewritten(sent, seen) && d <= seen && '\r' !in d && '\n' !in d
    ensures d <= sent
  {
    if d != "" {
      assert seen[0] == d[0] && d[0] in d;
      assert sent[0] == seen[0] && Rewritten(sent[1..], seen[1..]);
      PrefixWasThere(sent[1..], seen[1..], d[1..]);
    }
  }

  lemma OccursLater(s: string, k: nat, d: string)
    requires k <= |s| && Contains(s[k..], d)
    ensures Contains(s, d)
  {
    var i :| OccursAt(s[k..], d, i);
    assert s[k..][i..i + |d|] == s[k + i..k + i + |d|];
    assert OccursAt(s, d, k + i);
  }

  lemma OccursFirstOrLater(s: string, k: nat, d: string)
    requires 1 <= k <= |s| && Contains(s, d)
    ensures (exists i :: 0 <= i < k && OccursAt(s, d, i)) || Contains(s[k..], d)
  {
    var i :| OccursAt(s, d, i);
    if k <= i {
      assert s[k..][i - k..i - k + |d|] == s[i..i + |d|];
      assert OccursAt(s[k..], d, i - k);
    }
  }

  /** Rewriting any of the line ends makes no delimiter appear. */
  lemma {:induction false} RewritingHidesNothing(sent: string, seen: string, d: string)
    requires Rewritten(sent, seen) && OneLine(d) && Contains(seen, d)
    ensures Contains(sent, d)
    decreases |sent|
  {
    if d <= seen {
      PrefixWasThere(sent, seen, d);
      assert OccursAt(sent, d, 0);
    } else {
      var k, n := StepOf(sent, seen);
      NotAtBreak(seen, n, d);
      OccursFirstOrLater(seen, n, d);
      RewritingHidesNothing(sent[k..], seen[n..], d);
      OccursLater(sent, k, d);
    }
  }

  lemma StepOf(sent: string, seen: string) returns (k: nat, n: nat)
    requires Rewritten(sent, seen) && seen != ""
    ensures 1 <= k <= |sent| && 1 <= n <= |seen| && Rewritten(sent[k..], seen[n..])
    ensures n == 1 || (n == 2 && "\r\n" <= seen)
  {
    if "\r\n" <= sent {
      if "\r\n" <= seen && Rewritten(sent[2..], seen[2..]) {
        k, n := 2, 2;
      } else {
        k, n := 2, 1;
      }
    } else {
      k, n := 1, 1;
    }
  }

  lemma NotAtBreak(seen: string, n: nat, d: string)
    requires OneLine(d) && !(d <= seen) && (n == 1 || (n == 2 && "\r\n" <= seen))
    ensures forall i :: 0 <= i < n ==> !OccursAt(seen, d, i)
  {
    assert d[0] in d;
  }

  // ----- taking a rewritten text apart

  lemma EndsInCR(s: string)
    ensures HasSuffix(s, "\r") <==> s != "" && s[|s| - 1] == '\r'
  {
    assert s != "" ==> s[|s| - 1..] == [s[|s| - 1]];
  }

  lemma {:induction false} TakeApart(a: string, b: string, seen: string) returns (x: string, y: string)
    requires Rewritten(a + b, seen) && !(HasSuffix(a, "\r") && HasPrefix(b, "\n"))
    ensures seen == x + y && Rewritten(a, x) && Rewritten(b, y)
    decreases |a|
  {
    if a == "" {
      EmptyLeft(b);
      x, y := "", seen;
      EmptyLeft(seen);
    } else {
      var k, n := StepIn(a, b, seen);
      var rest;
      rest, y := TakeApart(a[k..], b, seen[n..]);
      x := seen[..n] + rest;
      StepBack(a, seen[..n], rest);
      Assoc(seen[..n], rest, y);
    }
  }

  lemma StepBack(a: string, step: string, rest: string)
    requires a != ""
    requires if "\r\n" <= a then (step == "\r\n" || step == "\n") && Rewritten(a[2..], rest)
             else |step| == 1 && step[0] == a[0] && Rewritten(a[1..], rest)
    ensures Rewritten(a, step + rest)
  {
    assert (step + rest)[|step|..] == rest;
  }

  /** What the first step of a rewriting takes from both. */
  lemma StepIn(a: string, b: string, seen: string) returns (k: nat, n: nat)
    requires a != "" && Rewritten(a + b, seen) && !(HasSuffix(a, "\r") && HasPrefix(b, "\n"))
    ensures 1 <= k <= |a| && 1 <= n <= |seen| && Rewritten(a[k..] + b, seen[n..])
    ensures if "\r\n" <= a then k == 2 && (seen[..n] == "\r\n" || seen[..n] == "\n") else k == n == 1 && seen[0] == a[0]
  {
    StartTogether(a, b);
    if "\r\n" <= a {
      assert (a + b)[2..] == a[2..] + b;
      if "\r\n" <= seen && Rewritten((a + b)[2..], seen[2..]) {
        k, n := 2, 2;
      } else {
        k, n := 2, 1;
      }
    } else {
      assert (a + b)[1..] == a[1..] + b && (a + b)[0] == a[0];
      k, n := 1, 1;
    }
  }

  lemma StartTogether(a: string, b: string)
    requires a != "" && !(HasSuffix(a, "\r") && HasPrefix(b, "\n"))
    ensures "\r\n" <= a + b <==> "\r\n" <= a
  {
    EndsInCR(a);
    assert forall k :: 0 <= k < |a| ==> (a + b)[k] == a[k];
    assert |a| == 1 && b != "" ==> (a + b)[1] == b[0];
  }

  lemma {:induction false} LineKept(s: string, seen: string)
    requires Rewritten(s, seen) && '\r' !in s
    ensures seen == s
  {
    if s != "" {
      assert s[0] in s;
      LineKept(s[1..], seen[1..]);
    }
  }

  lemma TakeBreak(rest: string, seen: string) returns (nl: string, y: string)
    requires Rewritten("\r\n" + rest, seen)
    ensures seen == nl + y && IsNewline(nl) && Rewritten(rest, y)
  {
    nl, y := TakeApart("\r\n", rest, seen);
    assert "\r\n"[2..] == "";
    assert "\r\n" <= nl ==> nl == "\r\n" + nl[2..];
    assert "\n" <= nl ==> nl == "\n" + nl[1..];
  }

  lemma TakeLine(line: string, rest: string, seen: string) returns (y: string)
    requires Rewritten(line + rest, seen) && '\r' !in line
    ensures seen == line + y && Rewritten(rest, y)
  {
    assert HasSuffix(line, "\r") ==> line[|line| - 1] in line;
    EndsInCR(line);
    var x;
    x, y := TakeApart(line, rest, seen);
    LineKept(line, x);
  }

  lemma TakeText(s: string, rest: string, seen: string) returns (x: string, y: string)
    requires Rewritten(s + ("\r\n" + rest), seen)
    ensures seen == x + y && Rewritten(s, x) && Rewritten("\r\n" + rest, y)
  {
    assert ("\r\n" + rest)[0] == '\r';
    x, y := TakeApart(s, "\r\n" + rest, seen);
  }

  // ----- the two parts

  /** What became of a printed pair: the parts, and the line break of each place. */
  datatype Arrived = Arrived(first: Printed, second: Printed, end: string)

  function WireOf(a: Arrived, d: string): string {
    MixedWire([a.first, a.second], d, a.end)
  }

  lemma WireSpelled(a: Arrived, d: string)
    ensures WireOf(a, d) == a.first.open + (a.first.section + (a.first.close + (d +
            (a.second.open + (a.second.section + (a.second.close + (d + ("--" + a.end))))))))
  {
    var ps := [a.first, a.second];
    assert ps[1..] == [a.second];
    assert MixedWire([a.second], d, a.end) == a.second.open + (a.second.section + (a.second.close + (d + ("--" + a.end))));
  }

  lemma PairSpelled(first: string, second: string, boundary: string)
    ensures var d := "--" + boundary;
            Multi([first, second], boundary) == d + ("\r\n" + (first + ("\r\n" + (d + ("\r\n" + (second + ("\r\n" + (d + ("--" + ("\r\n" + ""))))))))))
  {
    var d, ps := "--" + boundary, [first, second];
    assert ps[1..] == [second];
    assert "\r\n" + "" == "\r\n";
    assert Wire([second], d, "\r\n", "\r\n") == "\r\n" + (second + ("\r\n" + (d + ("--" + "\r\n"))));
  }

  lemma PairArrives(first: string, second: string, boundary: string, received: string) returns (a: Arrived)
    requires OneLine("--" + boundary) && Rewritten(Multi([first, second], boundary), received)
    ensures ProperlyPrinted([a.first, a.second]) && received == "--" + boundary + WireOf(a, "--" + boundary)
    ensures Rewritten(first, a.first.section) && Rewritten(second, a.second.section)
  {
    var d := "--" + boundary;
    PairSpelled(first, second, boundary);
    var end := d + ("--" + ("\r\n" + ""));
    var later := "\r\n" + (second + ("\r\n" + end));
    var y := TakeLine(d, "\r\n" + (first + ("\r\n" + (d + later))), received);
    var one, z := PartArrives(first, d + later, y);
    z := TakeLine(d, later, z);
    var two, e := PartArrives(second, end, z);
    e := TakeLine(d, "--" + ("\r\n" + ""), e);
    e := TakeLine("--", "\r\n" + "", e);
    var nl, none := TakeBreak("", e);
    a := Arrived(one, two, nl);
    WireSpelled(a, d);
    EmptyRight(nl);
  }

  lemma PartArrives(part: string, rest: string, seen: string) returns (p: Printed, y: string)
    requires Rewritten("\r\n" + (part + ("\r\n" + rest)), seen)
    ensures IsNewline(p.open) && IsNewline(p.close) && Rewritten(part, p.section) && Rewritten(rest, y)
    ensures forall z :: y == z ==> seen == p.open + (p.section + (p.close + z))
  {
    var open, x := TakeBreak(part + ("\r\n" + rest), seen);
    var section, w := TakeText(part, rest, x);
    var close;
    close, y := TakeBreak(rest, w);
    p := Printed(open, section, close);
  }

  /** The pair, its line ends rewritten in any way, splits into the two parts as they
      arrived if and only if no part merges with a line break beside it. */
  lemma ArrivedSplitsExactlyWhen(a: Arrived, boundary: string)
    requires OneLine("--" + boundary) && ProperlyPrinted([a.first, a.second])
    requires !Contains(a.first.section, "--" + boundary) && !Contains(a.second.section, "--" + boundary)
    ensures Split("--" + boundary + WireOf(a, "--" + boundary), "--" + boundary) == [a.first.section, a.second.section] <==>
            Unmerged(a.first) && Unmerged(a.second)
  {
    var d, ps := "--" + boundary, [a.first, a.second];
    SplitAfterDelimiter(d, WireOf(a, d));
    SplitInvertsMixed(ps, d, a.end);
    assert ps[1..] == [a.second];
    assert SectionsIn(ps) == [a.first.section] + SectionsIn([a.second]);
    assert SectionsIn([a.second]) == [a.second.section] + SectionsIn([]);
    assert ps[0] == a.first && ps[1] == a.second;
    assert AllSurvive(ps, d) <==> Survives(ps[0].section, d, ps[0].open, ps[0].close) && Survives(ps[1].section, d, ps[1].open, ps[1].close);
  }

  predicate Unmerged(p: Printed) {
    && (p.open == "\r\n" ==> !HasPrefix(p.section, "\n"))
    && (p.close == "\n" ==> !HasSuffix(p.section, "\r"))
  }

  // ----- the headers of the signature

  /** The two header lines, each with its line break, the blank one, and the rest. */
  datatype Part = Part(line1: string, nl1: string, line2: string, nl2: string, blank: string, rest: string)

  function Text(p: Part): string {
    p.line1 + (p.nl1 + (p.line2 + (p.nl2 + (p.blank + p.rest))))
  }

  ghost predicate ProperPart(p: Part) {
    && Tame(p.line1) && Tame(p.line2) && p.line1 != "" && p.line2 != ""
    && IsNewline(p.nl1) && IsNewline(p.nl2) && IsNewline(p.blank)
  }

  lemma HeadersArrive(line1: string, line2: string, payload: string, seen: string) returns (p: Part)
    requires Tame(line1) && Tame(line2) && line1 != "" && line2 != ""
    requires Rewritten(Headers(line1, line2) + payload, seen)
    ensures ProperPart(p) && seen == Text(p) && Rewritten(payload, p.rest)
  {
    assert "\r\n" + "\r\n" == "\r\n\r\n";
    assert Headers(line1, line2) + payload == line1 + ("\r\n" + (line2 + ("\r\n" + ("\r\n" + payload))));
    assert '\r' !in line1 && '\r' !in line2;
    var y := TakeLine(line1, "\r\n" + (line2 + ("\r\n" + ("\r\n" + payload))), seen);
    var nl1, nl2, blank, rest;
    nl1, y := TakeBreak(line2 + ("\r\n" + ("\r\n" + payload)), y);
    y := TakeLine(line2, "\r\n" + ("\r\n" + payload), y);
    nl2, y := TakeBreak("\r\n" + payload, y);
    blank, rest := TakeBreak(payload, y);
    p := Part(line1, nl1, line2, nl2, blank, rest);
  }

  /** The blank line behind the headers is CRLF CRLF, or it ends in LF LF and no
      CRLF CRLF stands behind it. */
  ghost predicate BlankTold(p: Part) {
    (p.nl2 == "\r\n" && p.blank == "\r\n") || (p.blank == "\n" && !Contains(p.rest, "\r\n\r\n"))
  }

  function HeaderText(p: Part): string {
    p.line1 + (p.nl1 + p.line2)
  }

  lemma TextSplits(p: Part)
    requires ProperPart(p)
    ensures Text(p) == HeaderText(p) + (p.nl2 + (p.blank + p.rest))
    ensures HeaderText(p) != "" && HeaderText(p)[|HeaderText(p)| - 1] != '\r'
  {
    var tail := p.nl2 + (p.blank + p.rest);
    Assoc(p.nl1, p.line2, tail);
    Assoc(p.line1, p.nl1 + p.line2, tail);
    assert (p.nl1 + p.line2)[|p.nl1 + p.line2| - 1] == p.line2[|p.line2| - 1];
  }

  lemma TailLayout(h: string, nl: string, blank: string, rest: string, e: string, i: nat)
    requires h != "" && h[|h| - 1] != '\r' && IsNewline(nl) && IsNewline(blank)
    requires e == h + (nl + (blank + rest)) && i == |h| + |nl| - 1
    ensures i + |blank| < |e| && e[i] == '\n' && e[i + 1] == blank[0] && e[i + |blank|] == '\n'
    ensures e[i - 1] == '\r' <==> nl == "\r\n"
    ensures e[..|h|] == h && e[i + 1 + |blank|..] == rest
  {
    var tail := nl + (blank + rest);
    assert forall k :: 0 <= k < |tail| ==> e[|h| + k] == tail[k];
    assert forall k :: 0 <= k < |blank + rest| ==> tail[|nl| + k] == (blank + rest)[k];
    assert (blank + rest)[|blank|..] == rest;
    assert e[|h|..] == tail && tail[|nl|..] == blank + rest;
  }

  lemma PartLayout(p: Part, e: string, i: nat)
    requires ProperPart(p) && e == Text(p) && i == |p.line1| + |p.nl1| + |p.line2| + |p.nl2| - 1
    ensures i + |p.blank| < |e| && e[i] == '\n' && e[i + 1] == p.blank[0] && e[i + |p.blank|] == '\n'
    ensures e[i - 1] == '\r' <==> p.nl2 == "\r\n"
    ensures e[..|HeaderText(p)|] == HeaderText(p) && e[i + 1 + |p.blank|..] == p.rest
  {
    TextSplits(p);
    TailLayout(HeaderText(p), p.nl2, p.blank, p.rest, e, i);
  }

  lemma NoBlankBefore(p: Part, e: string, i: nat, j: nat)
    requires ProperPart(p) && e == Text(p) && i == |p.line1| + |p.nl1| + |p.line2| + |p.nl2| - 1 && j < i
    ensures !BlankAt(e, j)
  {
    var m, n := |p.line1| + |p.nl1|, |p.line1| + |p.nl1| + |p.line2|;
    assert forall k :: 0 <= k < |p.line1| ==> e[k] == p.line1[k];
    assert forall k :: 0 <= k < |p.nl1| ==> e[|p.line1| + k] == p.nl1[k];
    assert forall k :: 0 <= k < |p.line2| ==> e[m + k] == p.line2[k];
    assert e[m] == p.line2[0];
    assert forall k :: 0 <= k < |p.nl2| ==> e[n + k] == p.nl2[k];
  }

  lemma FoursBehind(p: Part, e: string, i: nat)
    requires ProperPart(p) && e == Text(p) && FirstBlank(e, i) && p.blank == "\n"
    requires i == |p.line1| + |p.nl1| + |p.line2| + |p.nl2| - 1
    ensures Contains(e, "\r\n\r\n") <==> Contains(p.rest, "\r\n\r\n")
  {
    PartLayout(p, e, i);
    var front := e[..i + 2];
    assert e == front + p.rest;
    if k :| OccursAt(e, "\r\n\r\n", k) {
      FourIsBlank(e, k);
      OccursPointwise(e, "\r\n\r\n", k);
      assert i + 2 <= k;
      OccursInRight(front, p.rest, "\r\n\r\n", k);
    }
    if k :| OccursAt(p.rest, "\r\n\r\n", k) {
      OccursInRight(front, p.rest, "\r\n\r\n", k + |front|);
    }
  }

  lemma FirstOfPart(p: Part, e: string, i: nat)
    requires ProperPart(p) && e == Text(p) && i == |p.line1| + |p.nl1| + |p.line2| + |p.nl2| - 1
    ensures FirstBlank(e, i) && Behind(e, i) == p.rest
  {
    PartLayout(p, e, i);
    forall j | 0 <= j < i ensures !BlankAt(e, j) {
      NoBlankBefore(p, e, i, j);
    }
  }

  lemma BlankOfPart(p: Part, e: string, i: nat)
    requires ProperPart(p) && e == Text(p) && FirstBlank(e, i) && i == |p.line1| + |p.nl1| + |p.line2| + |p.nl2| - 1
    ensures OccursAt(e, "\r\n\r\n", i - 1) || (OccursAt(e, "\n\n", i) && !Contains(e, "\r\n\r\n")) <==> BlankTold(p)
  {
    PartLayout(p, e, i);
    FourAt(e, i);
    if p.blank == "\n" {
      FoursBehind(p, e, i);
    }
  }

  /** The headers end at their own blank line if and only if that is told. */
  lemma HeadersEndExactlyWhen(p: Part, e: string, i: nat)
    requires ProperPart(p) && e == Text(p) && i == |p.line1| + |p.nl1| + |p.line2| + |p.nl2| - 1
    ensures FirstBlank(e, i) && (SplitHeaders(e) == Entity(Before(e, i), p.rest) <==> BlankTold(p))
  {
    FirstOfPart(p, e, i);
    BlankOfPart(p, e, i);
    CutsAtFirstBlankExactlyWhen(e, i);
  }

  // ----- the message opens

  /** What arrived of a signed message. */
  datatype Message = Message(parts: Arrived, signature: Part)

  ghost predicate ProperMessage(m: Message, received: string, boundary: string) {
    && ProperlyPrinted([m.parts.first, m.parts.second]) && ProperPart(m.signature)
    && m.parts.second.section == Text(m.signature)
    && received == "--" + boundary + WireOf(m.parts, "--" + boundary)
    && !Contains(m.parts.first.section, "--" + boundary) && !Contains(m.parts.second.section, "--" + boundary)
  }

  /** Whatever CRLFs of a signed message a relay turned to LF, the entity and the
      signature arrive, rewritten. */
  lemma MessageArrives(entity: string, signature: string, boundary: string, received: string) returns (m: Message)
    requires OneLine("--" + boundary) && Rewritten(SignedBody(entity, signature, boundary), received)
    requires !Contains(entity, "--" + boundary) && !Contains(signature, "--" + boundary)
    ensures ProperMessage(m, received, boundary)
    ensures Rewritten(entity, m.parts.first.section) && Rewritten(signature, m.signature.rest)
  {
    var line1, line2 := NamedType(SIGNATURE_TYPE, SIGNATURE_FILENAME), "Content-Description: " + "OpenPGP digital signature";
    TameSignatureHeaders();
    var a := PairArrives(entity, SignatureHeaders() + signature, boundary, received);
    var p := HeadersArrive(line1, line2, signature, a.second.section);
    NoDelimiterArrives(entity, signature, boundary, a);
    m := Message(a, p);
  }

  lemma NoDelimiterArrives(entity: string, signature: string, boundary: string, a: Arrived)
    requires OneLine("--" + boundary) && !Contains(entity, "--" + boundary) && !Contains(signature, "--" + boundary)
    requires Rewritten(entity, a.first.section) && Rewritten(SignatureHeaders() + signature, a.second.section)
    ensures !Contains(a.first.section, "--" + boundary) && !Contains(a.second.section, "--" + boundary)
  {
    var d := "--" + boundary;
    TameSignatureHeaders();
    HeadersHideNothing(NamedType(SIGNATURE_TYPE, SIGNATURE_FILENAME), "Content-Description: " + "OpenPGP digital signature", signature, d);
    if Contains(a.first.section, d) {
      RewritingHidesNothing(entity, a.first.section, d);
    }
    if Contains(a.second.section, d) {
      RewritingHidesNothing(SignatureHeaders() + signature, a.second.section, d);
    }
  }

  lemma HeadersOfPart(p: Part, e: string, i: nat)
    requires ProperPart(p) && e == Text(p) && FirstBlank(e, i) && i == |p.line1| + |p.nl1| + |p.line2| + |p.nl2| - 1
    ensures Before(e, i) == Headed(p)
  {
    PartLayout(p, e, i);
    var n := |HeaderText(p)|;
    assert i == n + |p.nl2| - 1;
    if p.nl2 == "\r\n" {
      assert e[..i] == e[..n] + [e[n]];
    }
  }

  /** The message comes apart into the entity and the signature as they arrived. */
  ghost predicate ComesApart(received: string, boundary: string, m: Message) {
    && Split(received, "--" + boundary) == [m.parts.first.section, m.parts.second.section]
    && SplitHeaders(m.parts.second.section) == Entity(Headed(m.signature), m.signature.rest)
  }

  function Headed(p: Part): string {
    HeaderText(p) + if p.nl2 == "\r\n" && p.blank == "\n" then "\r" else ""
  }

  /** It does so if and only if no part merges with a line break beside it and the blank
      line behind the signature's headers is told. */
  lemma ComesApartExactlyWhen(m: Message, received: string, boundary: string)
    requires OneLine("--" + boundary) && ProperMessage(m, received, boundary)
    ensures ComesApart(received, boundary, m) <==>
            Unmerged(m.parts.first) && Unmerged(m.parts.second) && BlankTold(m.signature)
  {
    var p := m.signature;
    var i := |p.line1| + |p.nl1| + |p.line2| + |p.nl2| - 1;
    ArrivedSplitsExactlyWhen(m.parts, boundary);
    HeadersEndExactlyWhen(p, Text(p), i);
    HeadersOfPart(p, Text(p), i);
  }

  /** Then it opens on that entity, with the verdict on that signature; and is valid if
      the library accepts the signature over the entity as it was signed. */
  lemma RelayedAnyhowOpens(haveKeys: bool, check: (string, string) -> Check, entity: string, received: string,
                           boundary: string, m: Message)
    requires boundary != "" && !Contains(entity, "\r\r\n") && Rewritten(ToCRLF(entity), m.parts.first.section)
    requires ComesApart(received, boundary, m)
    ensures var seen, sig := m.parts.first.section, m.signature.rest;
            && OpenMIMESigned(haveKeys, check, received, boundary).Opened?
            && OpenMIMESigned(haveKeys, check, received, boundary).body == seen
            && Tells(OpenMIMESigned(haveKeys, check, received, boundary).verdict, haveKeys, check, seen, sig)
    ensures haveKeys && check(ToCRLF(entity), m.signature.rest).Good? ==>
      OpenMIMESigned(haveKeys, check, received, boundary).verdict.Valid?
  {
    VerdictExactlyWhen(haveKeys, check, received, boundary, Headed(m.signature), m.signature.rest);
    SignedEntitySurvives(entity);
    assert ToCRLF(m.parts.first.section) == ToCRLF(entity);
  }

  // ----- every line end rewritten

  lemma Holds(a: string, b: string, c: string, sep: string)
    ensures Contains(b, sep) ==> Contains(a + (b + c), sep)
  {
    if i :| OccursAt(b, sep, i) {
      OccursInLeft(b, c, sep, i);
      OccursInRight(a, b + c, sep, |a| + i);
    }
  }

  lemma BreakHolds(nl: string)
    requires IsNewline(nl) && !Contains(nl, "\r\n")
    ensures nl == "\n"
  {
    if nl == "\r\n" {
      assert OccursAt(nl, "\r\n", 0);
    }
  }

  /** The last character stays. */
  lemma {:induction false} LastKept(s: string, seen: string)
    requires Rewritten(s, seen)
    ensures HasSuffix(seen, "\r") ==> HasSuffix(s, "\r")
    decreases |s|
  {
    EndsInCR(s);
    EndsInCR(seen);
    if seen != "" {
      var k, n := StepOf(s, seen);
      EndsInCR(s[k..]);
      EndsInCR(seen[n..]);
      LastKept(s[k..], seen[n..]);
    }
  }

  lemma PieceWithout(p: Printed, after: string, all: string, at: string)
    requires all == at + (p.open + (p.section + (p.close + after))) && !Contains(all, "\r\n")
    requires IsNewline(p.open) && IsNewline(p.close)
    ensures p.open == "\n" && p.close == "\n" && !Contains(p.section, "\r\n")
    ensures all == (at + (p.open + (p.section + p.close))) + after
  {
    Holds(at, p.open, p.section + (p.close + after), "\r\n");
    assert all == (at + p.open) + (p.section + (p.close + after));
    Holds(at + p.open, p.section, p.close + after, "\r\n");
    assert all == ((at + p.open) + p.section) + (p.close + after);
    Holds((at + p.open) + p.section, p.close, after, "\r\n");
    BreakHolds(p.open);
    BreakHolds(p.close);
  }

  lemma PartWithout(p: Part)
    requires ProperPart(p) && !Contains(Text(p), "\r\n")
    ensures BlankTold(p)
  {
    TextSplits(p);
    var h, four := HeaderText(p), "\r\n\r\n";
    Holds(h, p.nl2, p.blank + p.rest, "\r\n");
    Assoc(h, p.nl2, p.blank + p.rest);
    Holds(h + p.nl2, p.blank, p.rest, "\r\n");
    Assoc(h + p.nl2, p.blank, p.rest);
    EmptyRight(p.rest);
    Holds((h + p.nl2) + p.blank, p.rest, "", "\r\n");
    BreakHolds(p.nl2);
    BreakHolds(p.blank);
    if k :| OccursAt(p.rest, four, k) {
      OccursPointwise(p.rest, four, k);
      assert OccursAt(p.rest, "\r\n", k);
    }
  }

  /** Where no CRLF is left at all, the message comes apart, unless the entity or the
      signature ends in a CR. */
  lemma WhollyRelayedComesApart(entity: string, signature: string, boundary: string, received: string, m: Message)
    requires OneLine("--" + boundary) && ProperMessage(m, received, boundary) && !Contains(received, "\r\n")
    requires Rewritten(entity, m.parts.first.section) && Rewritten(signature, m.signature.rest)
    requires !HasSuffix(entity, "\r") && !HasSuffix(signature, "\r")
    ensures ComesApart(received, boundary, m)
  {
    var d, a, p := "--" + boundary, m.parts, m.signature;
    assert ProperlyPrinted([a.first, a.second]) ==> IsNewline([a.first, a.second][0].open) && IsNewline([a.first, a.second][1].open);
    WireSpelled(a, d);
    var later := a.second.open + (a.second.section + (a.second.close + (d + ("--" + a.end))));
    PieceWithout(a.first, d + later, received, d);
    var front := d + (a.first.open + (a.first.section + a.first.close));
    Assoc(front, d, later);
    PieceWithout(a.second, d + ("--" + a.end), received, front + d);
    PartWithout(p);
    LastKept(entity, a.first.section);
    LastKept(signature, p.rest);
    TextEnds(p);
    ComesApartExactlyWhen(m, received, boundary);
  }

  lemma ConcatEnds(a: string, b: string)
    ensures HasSuffix(a + b, "\r") ==> HasSuffix(if b == "" then a else b, "\r")
  {
    EndsInCR(a);
    EndsInCR(b);
    EndsInCR(a + b);
  }

  lemma TextEnds(p: Part)
    requires ProperPart(p)
    ensures HasSuffix(Text(p), "\r") ==> HasSuffix(p.rest, "\r")
  {
    TextSplits(p);
    ConcatEnds(HeaderText(p), p.nl2 + (p.blank + p.rest));
    ConcatEnds(p.nl2, p.blank + p.rest);
    ConcatEnds(p.blank, p.rest);
    EndsInCR(p.blank);
  }

  // ----- some of them

  function UnixHeaders(line1: string, line2: string): string {
    line1 + ("\n" + (line2 + "\n\n"))
  }

  /** A signature whose headers arrive with LF and whose armor with CRLF: the armor's
      own blank line is taken for theirs, and its first line is lost. */
  lemma ArmorHeadLost(line1: string, line2: string, armor: string)
    requires Tame(line1) && Tame(line2)
    ensures SplitHeaders(UnixHeaders(line1, line2) + ("-----BEGIN PGP SIGNATURE-----" + "\r\n\r\n" + armor)).body ==
      armor
  {
    var h, begin := line1 + ("\n" + line2), "-----BEGIN PGP SIGNATURE-----";
    assert '\r' !in line1 && '\r' !in line2 && '\r' !in begin;
    LateBlankLineWins(h, begin, armor);
    var tail := begin + "\r\n\r\n" + armor;
    assert UnixHeaders(line1, line2) == h + "\n\n";
    Assoc(h + "\n\n", begin, "\r\n\r\n");
    Assoc(h + "\n\n", begin + "\r\n\r\n", armor);
    assert h + "\n\n" + begin + "\r\n\r\n" + armor == UnixHeaders(line1, line2) + tail;
  }
}
