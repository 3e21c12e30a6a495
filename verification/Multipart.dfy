/** Splitting a multipart body on its delimiter, and an entity into headers and
    body (internal/crypto/smime.go). Both work on raw bytes. Where the source
    keeps a slice `rest` of the body, the model keeps the position it starts at. */
module Multipart {
  import opened Bytes

  /** One leading line break removed: a CRLF, and then an LF if one follows. */
  function TrimLineEnding(b: string, at: nat): (p: nat)
    requires at <= |b|
    ensures at <= p <= |b|
  {
    var once := if at + 2 <= |b| && b[at] == '\r' && b[at + 1] == '\n' then at + 2 else at;
    if once < |b| && b[once] == '\n' then once + 1 else once
  }

  /** One trailing line break of b[from..to] removed. */
  function TrimTrailingLineEnding(b: string, from: nat, to: nat): (p: nat)
    requires from <= to <= |b|
    ensures from <= p <= to
  {
    if from + 2 <= to && b[to - 2] == '\r' && b[to - 1] == '\n' then to - 2
    else if from < to && b[to - 1] == '\n' then to - 1
    else to
  }

  predicate Closes(b: string, at: nat) {
    at + 2 <= |b| && b[at] == '-' && b[at + 1] == '-'
  }

  /** Where the splitter cuts: a section body[start..stop], the delimiter at
      `close` that ends it, and what follows that delimiter. */
  datatype Framing = End | Piece(start: nat, stop: nat, close: nat, more: Framing)

  /** The cuts of the body from `at`, where a delimiter has just ended. */
  function Frame(body: string, delimiter: string, at: nat): (f: Framing)
    requires delimiter != "" && at <= |body|
    ensures f.Piece? ==> at <= f.start <= f.stop <= f.close && f.close + |delimiter| <= |body|
    decreases |body| - at
  {
    var start := TrimLineEnding(body, at);
    var next := IndexFrom(body, delimiter, start);
    if next < 0 then End
    else
      Piece(start, TrimTrailingLineEnding(body, start, next), next,
            if Closes(body, next + |delimiter|) then End else Frame(body, delimiter, next + |delimiter|))
  }

  /** body[start..stop], one byte at a time. */
  function Slice(body: string, start: nat, stop: nat): string
    decreases stop - start
  {
    if start < stop && start < |body| then [body[start]] + Slice(body, start + 1, stop) else ""
  }

  lemma {:induction false} SliceIs(body: string, start: nat, stop: nat)
    requires start <= stop <= |body|
    ensures Slice(body, start, stop) == body[start..stop]
    decreases stop - start
  {
    if start < stop {
      SliceIs(body, start + 1, stop);
    }
  }

  function SectionsOf(body: string, f: Framing): seq<string> {
    match f
    case End => []
    case Piece(start, stop, _, more) => [Slice(body, start, stop)] + SectionsOf(body, more)
  }

  function Sections(body: string, delimiter: string, at: nat): seq<string>
    requires delimiter != "" && at <= |body|
  {
    SectionsOf(body, Frame(body, delimiter, at))
  }

  /** The sections between delimiters. */
  function Split(body: string, delimiter: string): seq<string>
    requires delimiter != ""
  {
    var idx := Index(body, delimiter);
    if idx < 0 then [] else Sections(body, delimiter, idx + |delimiter|)
  }

  /** SectionsOf with the sections found so far as an accumulator. */
  ghost function Collect(found: seq<string>, body: string, f: Framing): seq<string>
    decreases f
  {
    match f
    case End => found
    case Piece(start, stop, _, more) => Collect(found + [Slice(body, start, stop)], body, more)
  }

  lemma {:induction false} CollectIsSections(found: seq<string>, body: string, f: Framing)
    ensures Collect(found, body, f) == found + SectionsOf(body, f)
    decreases f
  {
    match f
    case End => EmptyRight(found);
    case Piece(start, stop, _, more) =>
      CollectIsSections(found + [Slice(body, start, stop)], body, more);
      Assoc(found, [Slice(body, start, stop)], SectionsOf(body, more));
  }

  lemma CollectAll(body: string, f: Framing)
    ensures Collect([], body, f) == SectionsOf(body, f)
  {
    CollectIsSections([], body, f);
    EmptyLeft(SectionsOf(body, f));
  }

  /** The loop of splitOnBoundary, entered where the first delimiter has ended. */
  method CollectSections(body: string, delimiter: string, at: nat) returns (sections: seq<string>)
    requires delimiter != "" && at <= |body|
    ensures sections == Sections(body, delimiter, at)
  {
    sections := [];
    var rest := at;
    ghost var f := Frame(body, delimiter, rest);
    CollectAll(body, f);
    while true
      invariant rest <= |body| && f == Frame(body, delimiter, rest)
      invariant Collect(sections, body, f) == Sections(body, delimiter, at)
      decreases |body| - rest
    {
      rest := TrimLineEnding(body, rest);
      var next := IndexFrom(body, delimiter, rest);
      if next < 0 {
        return;
      }
      var section := Slice(body, rest, TrimTrailingLineEnding(body, rest, next));
      sections := sections + [section];
      rest := next + |delimiter|;
      f := f.more;
      if Closes(body, rest) {
        return;
      }
    }
  }

  method SplitOnBoundary(body: string, delimiter: string) returns (sections: seq<string>)
    requires delimiter != ""
    ensures sections == Split(body, delimiter)
  {
    var idx := Index(body, delimiter);
    if idx < 0 {
      return [];
    }
    sections := CollectSections(body, delimiter, idx + |delimiter|);
  }

  datatype Entity = NoEntity | Entity(headers: string, body: string)

  /** Headers end at the first CRLF CRLF anywhere, and without one at the first LF LF;
      an entity with neither is all headers. Only the empty entity is refused. */
  function SplitHeaders(entity: string): Entity {
    var i := Index(entity, "\r\n\r\n");
    if i >= 0 then Entity(entity[..i], entity[i + 4..])
    else
      var j := Index(entity, "\n\n");
      if j >= 0 then Entity(entity[..j], entity[j + 2..])
      else if entity == "" then NoEntity else Entity(entity, "")
  }

  // ----- nothing is lost

  ghost predicate IsLead(lead: string) {
    lead == "" || lead == "\r\n" || lead == "\n" || lead == "\r\n\n"
  }

  ghost predicate IsLineBreak(lineBreak: string) {
    lineBreak == "" || lineBreak == "\r\n" || lineBreak == "\n"
  }

  /** No delimiter starts in body[from..to]. */
  ghost predicate NoneBetween(body: string, delimiter: string, from: nat, to: nat) {
    forall i :: OccursAt(body, delimiter, i) ==> i < from || to <= i
  }

  /** The cuts tile the body from the delimiter at `open` on: a delimiter, at most
      CRLF and LF, the section, at most one line break and the next delimiter,
      with no delimiter in between. After the last one there is none left, unless
      it closed the multipart. */
  ghost predicate Tiles(body: string, delimiter: string, open: nat, f: Framing)
    requires delimiter != ""
    decreases f
  {
    && OccursAt(body, delimiter, open)
    && var after := open + |delimiter|;
       match f
       case End => NoneBetween(body, delimiter, TrimLineEnding(body, after), |body|)
       case Piece(start, stop, close, more) =>
         && after <= start <= stop <= close <= |body|
         && IsLead(Slice(body, after, start))
         && IsLineBreak(Slice(body, stop, close))
         && NoneBetween(body, delimiter, start, close)
         && OccursAt(body, delimiter, close)
         && if Closes(body, close + |delimiter|) then more == End else Tiles(body, delimiter, close, more)
  }

  lemma LeadCut(b: string, at: nat)
    requires at <= |b|
    ensures IsLead(Slice(b, at, TrimLineEnding(b, at)))
  {
    SliceIs(b, at, TrimLineEnding(b, at));
  }

  lemma TrailCut(b: string, from: nat, to: nat)
    requires from <= to <= |b|
    ensures IsLineBreak(Slice(b, TrimTrailingLineEnding(b, from, to), to))
  {
    SliceIs(b, TrimTrailingLineEnding(b, from, to), to);
  }

  lemma NothingSkipped(body: string, delimiter: string, start: nat)
    ensures var next := IndexFrom(body, delimiter, start);
            NoneBetween(body, delimiter, start, if next < 0 then |body| else next)
  {
    forall i | OccursAt(body, delimiter, i) && start <= i
      ensures 0 <= IndexFrom(body, delimiter, start) <= i
    {
      IndexFromIsFirst(body, delimiter, start, i);
    }
  }

  /** Everything Tiles asks of one cut except the delimiters around it. */
  lemma CutTiles(body: string, delimiter: string, after: nat, start: nat, close: nat)
    requires after <= |body| && start == TrimLineEnding(body, after)
    requires close == IndexFrom(body, delimiter, start)
    ensures IsLead(Slice(body, after, start))
    ensures IsLineBreak(Slice(body, TrimTrailingLineEnding(body, start, close), close))
    ensures NoneBetween(body, delimiter, start, close)
  {
    NothingSkipped(body, delimiter, start);
    LeadCut(body, after);
    TrailCut(body, start, close);
  }

  lemma LastTiles(body: string, delimiter: string, open: nat)
    requires delimiter != "" && OccursAt(body, delimiter, open)
    requires IndexFrom(body, delimiter, TrimLineEnding(body, open + |delimiter|)) < 0
    ensures Tiles(body, delimiter, open, End)
  {
    NothingSkipped(body, delimiter, TrimLineEnding(body, open + |delimiter|));
  }

  lemma PieceTiles(body: string, delimiter: string, open: nat, f: Framing)
    requires delimiter != "" && OccursAt(body, delimiter, open) && f.Piece?
    requires f.start == TrimLineEnding(body, open + |delimiter|)
    requires f.close == IndexFrom(body, delimiter, f.start)
    requires f.stop == TrimTrailingLineEnding(body, f.start, f.close)
    requires if Closes(body, f.close + |delimiter|) then f.more == End else Tiles(body, delimiter, f.close, f.more)
    ensures Tiles(body, delimiter, open, f)
  {
    CutTiles(body, delimiter, open + |delimiter|, f.start, f.close);
    IndexFromOccurs(body, delimiter, f.start);
  }

  lemma {:induction false} FrameTiles(body: string, delimiter: string, open: nat)
    requires delimiter != "" && OccursAt(body, delimiter, open)
    ensures Tiles(body, delimiter, open, Frame(body, delimiter, open + |delimiter|))
    decreases |body| - open
  {
    var f := Frame(body, delimiter, open + |delimiter|);
    if f.End? {
      LastTiles(body, delimiter, open);
    } else {
      if !Closes(body, f.close + |delimiter|) {
        IndexFromOccurs(body, delimiter, f.start);
        FrameTiles(body, delimiter, f.close);
      }
      PieceTiles(body, delimiter, open, f);
    }
  }

  /** The preamble is cut at the first delimiter. */
  lemma FirstIsFirst(body: string, delimiter: string)
    ensures Index(body, delimiter) < 0 <==> !Contains(body, delimiter)
    ensures 0 <= Index(body, delimiter) ==> NoneBetween(body, delimiter, 0, Index(body, delimiter))
  {
    IndexIsFirst(body, delimiter);
  }

  /** No byte is dropped or reordered: the sections returned are slices of a
      tiling of the body from its first delimiter on. A part with no delimiter
      after it is never returned. */
  lemma SplitLosesNothing(body: string, delimiter: string) returns (f: Framing)
    requires delimiter != ""
    ensures if Index(body, delimiter) < 0 then f == End else Tiles(body, delimiter, Index(body, delimiter), f)
    ensures Split(body, delimiter) == SectionsOf(body, f)
  {
    var idx := Index(body, delimiter);
    if idx < 0 {
      f := End;
    } else {
      f := Frame(body, delimiter, idx + |delimiter|);
      IndexFromOccurs(body, delimiter, 0);
      FrameTiles(body, delimiter, idx);
    }
  }

  lemma SliceClean(body: string, delimiter: string, start: nat, stop: nat, close: nat)
    requires delimiter != "" && start <= stop <= close <= |body|
    requires NoneBetween(body, delimiter, start, close)
    ensures !Contains(body[start..stop], delimiter)
  {
    assert body == body[..start] + body[start..];
    assert body[start..] == body[start..stop] + body[stop..];
    if i :| OccursAt(body[start..stop], delimiter, i) {
      OccursInLeft(body[start..stop], body[stop..], delimiter, i);
      OccursInRight(body[..start], body[start..], delimiter, start + i);
    }
  }

  /** No section of a tiling holds the delimiter. */
  lemma {:induction false} TiledSectionsClean(body: string, delimiter: string, open: nat, f: Framing)
    requires delimiter != "" && Tiles(body, delimiter, open, f)
    ensures forall s :: s in SectionsOf(body, f) ==> !Contains(s, delimiter)
    decreases f
  {
    match f
    case End =>
    case Piece(start, stop, close, more) =>
      SliceIs(body, start, stop);
      SliceClean(body, delimiter, start, stop, close);
      if more.Piece? {
        TiledSectionsClean(body, delimiter, close, more);
      }
  }

  // ----- printing and splitting

  /** A delimiter as RFC 2046, section 5.1.1, allows: on one line. */
  ghost predicate OneLine(delimiter: string) {
    delimiter != "" && '\r' !in delimiter && '\n' !in delimiter
  }

  ghost predicate IsNewline(nl: string) {
    nl == "\r\n" || nl == "\n"
  }

  /** The sections as they stand on the wire after the first delimiter, each
      opened and closed by the line break `nl`. */
  function Wire(sections: seq<string>, delimiter: string, nl: string, tail: string): string
    requires sections != []
  {
    var more := if |sections| == 1 then "--" + tail else Wire(sections[1..], delimiter, nl, tail);
    nl + (sections[0] + (nl + (delimiter + more)))
  }

  /** A section the splitter hands back unharmed. */
  ghost predicate Survives(section: string, delimiter: string, open: string, close: string) {
    && !Contains(section, delimiter)
    && (open == "\r\n" ==> !HasPrefix(section, "\n"))
    && (close == "\n" ==> !HasSuffix(section, "\r"))
  }

  function Shifted(f: Framing, n: nat): Framing {
    match f
    case End => End
    case Piece(start, stop, close, more) => Piece(start + n, stop + n, close + n, Shifted(more, n))
  }

  lemma TrimsShift(a: string, b: string, at: nat, to: nat)
    requires at <= to <= |b|
    ensures TrimLineEnding(a + b, |a| + at) == |a| + TrimLineEnding(b, at)
    ensures TrimTrailingLineEnding(a + b, |a| + at, |a| + to) == |a| + TrimTrailingLineEnding(b, at, to)
    ensures Closes(a + b, |a| + at) <==> Closes(b, at)
  {
  }

  function PieceAt(b: string, delimiter: string, start: nat, next: nat, more: Framing): Framing
    requires start <= next <= |b|
  {
    Piece(start, TrimTrailingLineEnding(b, start, next), next, if Closes(b, next + |delimiter|) then End else more)
  }

  function FrameAfter(b: string, delimiter: string, next: nat): Framing
    requires delimiter != "" && next + |delimiter| <= |b|
  {
    Frame(b, delimiter, next + |delimiter|)
  }

  /** One unfolding of Frame. */
  lemma FrameUnfolds(b: string, delimiter: string, at: nat, start: nat, next: int)
    requires delimiter != "" && at <= |b| && start == TrimLineEnding(b, at) && next == IndexFrom(b, delimiter, start)
    ensures next < 0 ==> Frame(b, delimiter, at) == End
    ensures 0 <= next ==> start <= next && next + |delimiter| <= |b|
    ensures 0 <= next ==> Frame(b, delimiter, at) == PieceAt(b, delimiter, start, next, FrameAfter(b, delimiter, next))
  {
  }

  /** One cut over two bodies that agree on what it reads. */
  lemma CutShifts(w: string, b: string, n: nat, delimiter: string, start: nat, next: nat, more: Framing,
                  shifted: Framing)
    requires start <= next <= |b| && n + next <= |w|
    requires TrimTrailingLineEnding(w, n + start, n + next) == n + TrimTrailingLineEnding(b, start, next)
    requires Closes(w, n + next + |delimiter|) <==> Closes(b, next + |delimiter|)
    requires !Closes(b, next + |delimiter|) ==> shifted == Shifted(more, n)
    ensures PieceAt(w, delimiter, n + start, n + next, shifted) == Shifted(PieceAt(b, delimiter, start, next, more), n)
  {
  }

  /** What one unfolding reads, over a suffix and over the whole. */
  lemma StepShifts(a: string, b: string, delimiter: string, at: nat) returns (start: nat, next: int)
    requires delimiter != "" && at <= |b|
    ensures at <= start <= |b| && start == TrimLineEnding(b, at) && TrimLineEnding(a + b, |a| + at) == |a| + start
    ensures next == IndexFrom(b, delimiter, start) && (0 <= next ==> start <= next && next + |delimiter| <= |b|)
    ensures IndexFrom(a + b, delimiter, |a| + start) == if next < 0 then -1 else |a| + next
    ensures 0 <= next ==>
      && TrimTrailingLineEnding(a + b, |a| + start, |a| + next) == |a| + TrimTrailingLineEnding(b, start, next)
      && (Closes(a + b, |a| + next + |delimiter|) <==> Closes(b, next + |delimiter|))
  {
    start := TrimLineEnding(b, at);
    TrimsShift(a, b, at, |b|);
    IndexFromShifts(a, b, delimiter, start);
    next := IndexFrom(b, delimiter, start);
    if 0 <= next {
      TrimsShift(a, b, start, next);
      TrimsShift(a, b, next + |delimiter|, |b|);
    }
  }

  lemma EndShifts(w: string, b: string, n: nat, delimiter: string, at: nat, start: nat)
    requires delimiter != "" && at <= |b| && n + at <= |w|
    requires start == TrimLineEnding(b, at) && TrimLineEnding(w, n + at) == n + start
    requires IndexFrom(b, delimiter, start) < 0 && IndexFrom(w, delimiter, n + start) < 0
    ensures Frame(w, delimiter, n + at) == Shifted(Frame(b, delimiter, at), n)
  {
    FrameUnfolds(b, delimiter, at, start, IndexFrom(b, delimiter, start));
    FrameUnfolds(w, delimiter, n + at, n + start, IndexFrom(w, delimiter, n + start));
  }

  lemma PieceShifts(w: string, b: string, n: nat, delimiter: string, at: nat, start: nat, next: nat)
    requires delimiter != "" && at <= |b| && n + at <= |w| && next + |delimiter| <= |b| && n + next + |delimiter| <= |w|
    requires start == TrimLineEnding(b, at) && TrimLineEnding(w, n + at) == n + start && start <= next
    requires IndexFrom(b, delimiter, start) == next && IndexFrom(w, delimiter, n + start) == n + next
    requires TrimTrailingLineEnding(w, n + start, n + next) == n + TrimTrailingLineEnding(b, start, next)
    requires Closes(w, n + next + |delimiter|) <==> Closes(b, next + |delimiter|)
    requires !Closes(b, next + |delimiter|) ==>
      FrameAfter(w, delimiter, n + next) == Shifted(FrameAfter(b, delimiter, next), n)
    ensures Frame(w, delimiter, n + at) == Shifted(Frame(b, delimiter, at), n)
  {
    FrameUnfolds(b, delimiter, at, start, next);
    FrameUnfolds(w, delimiter, n + at, n + start, n + next);
    CutShifts(w, b, n, delimiter, start, next, FrameAfter(b, delimiter, next), FrameAfter(w, delimiter, n + next));
  }

  lemma {:induction false} FrameOfSuffix(a: string, b: string, delimiter: string, at: nat)
    requires delimiter != "" && at <= |b|
    ensures Frame(a + b, delimiter, |a| + at) == Shifted(Frame(b, delimiter, at), |a|)
    decreases |b| - at, 0
  {
    var start, next := StepShifts(a, b, delimiter, at);
    if next < 0 {
      EndShifts(a + b, b, |a|, delimiter, at, start);
    } else {
      if !Closes(b, next + |delimiter|) {
        FrameAfterShifts(a, b, delimiter, next);
      }
      PieceShifts(a + b, b, |a|, delimiter, at, start, next);
    }
  }

  lemma FrameAfterShifts(a: string, b: string, delimiter: string, next: nat)
    requires delimiter != "" && next + |delimiter| <= |b|
    ensures FrameAfter(a + b, delimiter, |a| + next) == Shifted(FrameAfter(b, delimiter, next), |a|)
    decreases |b| - next - |delimiter|, 1
  {
    FrameOfSuffix(a, b, delimiter, next + |delimiter|);
  }

  lemma {:induction false} SliceShifts(a: string, b: string, start: nat, stop: nat)
    ensures Slice(a + b, |a| + start, |a| + stop) == Slice(b, start, stop)
    decreases stop - start
  {
    if start < stop {
      SliceShifts(a, b, start + 1, stop);
    }
  }

  lemma {:induction false} SectionsShift(a: string, b: string, f: Framing)
    requires InRange(b, f)
    ensures SectionsOf(a + b, Shifted(f, |a|)) == SectionsOf(b, f)
  {
    match f
    case End =>
    case Piece(start, stop, _, more) =>
      SliceShifts(a, b, start, stop);
      SectionsShift(a, b, more);
  }

  ghost predicate InRange(b: string, f: Framing) {
    f.Piece? ==> f.start <= f.stop <= |b| && InRange(b, f.more)
  }

  lemma {:induction false} FrameInRange(body: string, delimiter: string, at: nat)
    requires delimiter != "" && at <= |body|
    ensures InRange(body, Frame(body, delimiter, at))
    decreases |body| - at
  {
    var f := Frame(body, delimiter, at);
    if f.Piece? && !Closes(body, f.close + |delimiter|) {
      FrameInRange(body, delimiter, f.close + |delimiter|);
    }
  }

  lemma SectionsOfSuffix(a: string, b: string, delimiter: string)
    requires delimiter != ""
    ensures Sections(a + b, delimiter, |a|) == Sections(b, delimiter, 0)
  {
    FrameOfSuffix(a, b, delimiter, 0);
    FrameInRange(b, delimiter, 0);
    SectionsShift(a, b, Frame(b, delimiter, 0));
  }

  /** Where things stand in `open + section + close + delimiter + more`. */
  lemma Layout(s: string, open: string, close: string, delimiter: string, more: string, w: string)
    requires OneLine(delimiter) && IsNewline(open) && IsNewline(close)
    requires w == open + (s + (close + (delimiter + more)))
    ensures var end := |open| + |s| + |close|;
            && end + |delimiter| <= |w|
            && w[|open| - 1] == '\n' && w[end - 1] == '\n' && w[end - |close|] == close[0] && w[0] == open[0]
    ensures forall i :: 0 <= i < |s| ==> w[|open| + i] == s[i]
    ensures w[|open|..|open| + |s|] == s
  {
  }

  lemma DelimiterPlaced(s: string, open: string, close: string, delimiter: string, more: string, w: string)
    requires w == open + (s + (close + (delimiter + more)))
    ensures OccursAt(w, delimiter, |open| + |s| + |close|)
  {
    OccursInLeft(delimiter, more, delimiter, 0);
    OccursInRight(close, delimiter + more, delimiter, |close|);
    OccursInRight(s, close + (delimiter + more), delimiter, |s| + |close|);
    OccursInRight(open, s + (close + (delimiter + more)), delimiter, |open| + |s| + |close|);
  }

  lemma DelimiterInSection(s: string, open: string, close: string, delimiter: string, more: string, w: string, k: nat)
    requires w == open + (s + (close + (delimiter + more)))
    requires |open| <= k && k + |delimiter| <= |open| + |s|
    ensures OccursAt(w, delimiter, k) <==> OccursAt(s, delimiter, k - |open|)
  {
    OccursInRight(open, s + (close + (delimiter + more)), delimiter, k);
    OccursInLeft(s, close + (delimiter + more), delimiter, k - |open|);
  }

  lemma NoEarlyDelimiter(s: string, open: string, close: string, delimiter: string, more: string, w: string, i: nat)
    requires OneLine(delimiter) && IsNewline(open) && IsNewline(close)
    requires w == open + (s + (close + (delimiter + more)))
    requires |open| <= i < |open| + |s| + |close| && !Contains(s, delimiter)
    ensures !OccursAt(w, delimiter, i)
  {
    if OccursAt(w, delimiter, i) {
      Layout(s, open, close, delimiter, more, w);
      NoStraddle(w, delimiter, i, |open| + |s| + |close| - 1);
      NoStraddle(w, delimiter, i, |open| + |s|);
      DelimiterInSection(s, open, close, delimiter, more, w, i);
    }
  }

  /** The first delimiter after a section without one is the one that ends it. */
  lemma DelimiterAfter(s: string, open: string, close: string, delimiter: string, more: string, w: string, from: nat)
    requires OneLine(delimiter) && IsNewline(open) && IsNewline(close) && !Contains(s, delimiter)
    requires w == open + (s + (close + (delimiter + more)))
    requires |open| <= from <= |open| + 1 && from <= |open| + |s| + |close|
    ensures IndexFrom(w, delimiter, from) == |open| + |s| + |close|
  {
    DelimiterPlaced(s, open, close, delimiter, more, w);
    IndexFromIsFirst(w, delimiter, from, |open| + |s| + |close|);
    var i := IndexFrom(w, delimiter, from);
    if i < |open| + |s| + |close| {
      IndexFromOccurs(w, delimiter, from);
      NoEarlyDelimiter(s, open, close, delimiter, more, w, i);
    }
  }

  /** A section that holds the delimiter is cut short by it. */
  lemma DelimiterInside(s: string, open: string, close: string, delimiter: string, more: string, w: string, from: nat,
                        k: nat)
    requires OneLine(delimiter) && OccursAt(s, delimiter, k)
    requires w == open + (s + (close + (delimiter + more)))
    requires from == |open| || (from == |open| + 1 && s[0] == '\n')
    ensures from <= IndexFrom(w, delimiter, from) < |open| + |s|
  {
    DelimiterInSection(s, open, close, delimiter, more, w, k + |open|);
    if from == |open| + 1 {
      NoStraddle(s, delimiter, k, 0);
    }
    IndexFromIsFirst(w, delimiter, from, k + |open|);
  }

  /** Where the text of the section starts once its leading break is trimmed. */
  lemma SectionStart(s: string, open: string, close: string, delimiter: string, more: string, w: string)
    requires OneLine(delimiter) && IsNewline(open) && IsNewline(close)
    requires w == open + (s + (close + (delimiter + more)))
    ensures TrimLineEnding(w, 0) ==
            if open == "\r\n" && (HasPrefix(s, "\n") || (s == "" && close == "\n")) then 3 else |open|
  {
    Layout(s, open, close, delimiter, more, w);
    assert w[|open|] == if s == "" then close[0] else s[0];
  }

  lemma SectionEnd(s: string, open: string, close: string, delimiter: string, more: string, w: string)
    requires OneLine(delimiter) && IsNewline(open) && IsNewline(close) && (close == "\n" ==> !HasSuffix(s, "\r"))
    requires w == open + (s + (close + (delimiter + more)))
    ensures TrimTrailingLineEnding(w, |open|, |open| + |s| + |close|) == |open| + |s|
  {
    Layout(s, open, close, delimiter, more, w);
    assert s != "" && s[|s| - 1] == '\r' ==> s[|s| - 1..] == "\r";
  }

  lemma FirstPiece(s: string, open: string, close: string, delimiter: string, more: string, w: string)
    requires OneLine(delimiter) && IsNewline(open) && IsNewline(close) && Survives(s, delimiter, open, close)
    requires w == open + (s + (close + (delimiter + more)))
    ensures var f := Frame(w, delimiter, 0);
            && f.Piece? && f.start <= f.stop <= |w| && f.close == |open| + |s| + |close|
            && if s == "" then f.start == f.stop else f.start == |open| && f.stop == |open| + |s|
  {
    SectionStart(s, open, close, delimiter, more, w);
    DelimiterAfter(s, open, close, delimiter, more, w, TrimLineEnding(w, 0));
    if s == "" {
      Layout(s, open, close, delimiter, more, w);
    } else {
      SectionEnd(s, open, close, delimiter, more, w);
    }
  }

  lemma DamagedPiece(s: string, open: string, close: string, delimiter: string, more: string, w: string)
    requires OneLine(delimiter) && IsNewline(open) && IsNewline(close) && !Survives(s, delimiter, open, close)
    requires w == open + (s + (close + (delimiter + more)))
    ensures var f := Frame(w, delimiter, 0);
            f.Piece? && f.stop <= |w| && f.stop - f.start < |s|
  {
    SectionStart(s, open, close, delimiter, more, w);
    var start := TrimLineEnding(w, 0);
    if k :| OccursAt(s, delimiter, k) {
      DelimiterInside(s, open, close, delimiter, more, w, start, k);
    } else {
      DelimiterAfter(s, open, close, delimiter, more, w, start);
      Layout(s, open, close, delimiter, more, w);
    }
  }

  lemma FrontOf(s: string, open: string, close: string, delimiter: string, more: string, w: string, end: nat)
    requires delimiter != "" && end == |open| + |s| + |close| + |delimiter|
    requires w == open + (s + (close + (delimiter + more)))
    ensures end <= |w| && Sections(w, delimiter, end) == Sections(more, delimiter, 0)
    ensures Closes(w, end) <==> HasPrefix(more, "--")
  {
    var front := open + (s + (close + delimiter));
    assert w == front + more;
    SectionsOfSuffix(front, more, delimiter);
    ClosesAfter(front, more);
  }

  lemma ClosesAfter(a: string, b: string)
    ensures Closes(a + b, |a|) <==> HasPrefix(b, "--")
  {
  }

  lemma SectionPlaced(s: string, open: string, close: string, delimiter: string, more: string, w: string, start: nat,
                      stop: nat)
    requires OneLine(delimiter) && IsNewline(open) && IsNewline(close) && start <= stop <= |w|
    requires if s == "" then start == stop else start == |open| && stop == |open| + |s|
    requires w == open + (s + (close + (delimiter + more)))
    ensures Slice(w, start, stop) == s
  {
    Layout(s, open, close, delimiter, more, w);
    SliceIs(w, start, stop);
  }

  lemma SliceLength(body: string, start: nat, stop: nat)
    requires start <= stop <= |body|
    ensures |Slice(body, start, stop)| == stop - start
  {
    SliceIs(body, start, stop);
  }

  lemma FrameMore(body: string, delimiter: string, f: Framing)
    requires delimiter != "" && f == Frame(body, delimiter, 0) && f.Piece?
    ensures Sections(body, delimiter, 0) == [Slice(body, f.start, f.stop)]
              + if Closes(body, f.close + |delimiter|) then [] else Sections(body, delimiter, f.close + |delimiter|)
  {
    assert SectionsOf(body, f) == [Slice(body, f.start, f.stop)] + SectionsOf(body, f.more);
  }

  /** What the splitter takes from the wire first, when the section survives. */
  lemma FirstSection(s: string, open: string, close: string, delimiter: string, more: string, w: string)
    requires OneLine(delimiter) && IsNewline(open) && IsNewline(close) && Survives(s, delimiter, open, close)
    requires w == open + (s + (close + (delimiter + more)))
    ensures Sections(w, delimiter, 0) == [s] + if HasPrefix(more, "--") then [] else Sections(more, delimiter, 0)
  {
    var f := FirstFrame(s, open, close, delimiter, more, w);
    FrontOf(s, open, close, delimiter, more, w, f.close + |delimiter|);
    FirstPlaced(s, open, close, delimiter, more, w, f);
    FrameMore(w, delimiter, f);
  }

  lemma FirstPlaced(s: string, open: string, close: string, delimiter: string, more: string, w: string, f: Framing)
    requires OneLine(delimiter) && IsNewline(open) && IsNewline(close) && f.Piece? && f.start <= f.stop <= |w|
    requires if s == "" then f.start == f.stop else f.start == |open| && f.stop == |open| + |s|
    requires w == open + (s + (close + (delimiter + more)))
    ensures Slice(w, f.start, f.stop) == s
  {
    SectionPlaced(s, open, close, delimiter, more, w, f.start, f.stop);
  }

  lemma FirstFrame(s: string, open: string, close: string, delimiter: string, more: string, w: string)
    returns (f: Framing)
    requires OneLine(delimiter) && IsNewline(open) && IsNewline(close) && Survives(s, delimiter, open, close)
    requires w == open + (s + (close + (delimiter + more)))
    ensures f == Frame(w, delimiter, 0)
    ensures f.Piece? && f.start <= f.stop <= |w| && f.close == |open| + |s| + |close|
    ensures if s == "" then f.start == f.stop else f.start == |open| && f.stop == |open| + |s|
  {
    FirstPiece(s, open, close, delimiter, more, w);
    f := Frame(w, delimiter, 0);
  }

  /** And when it does not. */
  lemma FirstSectionDamaged(s: string, open: string, close: string, delimiter: string, more: string, w: string)
    requires OneLine(delimiter) && IsNewline(open) && IsNewline(close) && !Survives(s, delimiter, open, close)
    requires w == open + (s + (close + (delimiter + more)))
    ensures Sections(w, delimiter, 0) != [] && |Sections(w, delimiter, 0)[0]| < |s|
  {
    DamagedPiece(s, open, close, delimiter, more, w);
    FrameMore(w, delimiter, Frame(w, delimiter, 0));
    SliceLength(w, Frame(w, delimiter, 0).start, Frame(w, delimiter, 0).stop);
  }

  /** A section on the wire, with the line breaks around it. */
  datatype Printed = Printed(open: string, section: string, close: string)

  ghost predicate ProperlyPrinted(ps: seq<Printed>) {
    forall k :: 0 <= k < |ps| ==> IsNewline(ps[k].open) && IsNewline(ps[k].close)
  }

  /** The wire with a line break of either kind at each place. */
  function MixedWire(ps: seq<Printed>, delimiter: string, tail: string): string
    requires ps != []
  {
    var more := if |ps| == 1 then "--" + tail else MixedWire(ps[1..], delimiter, tail);
    ps[0].open + (ps[0].section + (ps[0].close + (delimiter + more)))
  }

  function SectionsIn(ps: seq<Printed>): seq<string> {
    if ps == [] then [] else [ps[0].section] + SectionsIn(ps[1..])
  }

  ghost predicate AllSurvive(ps: seq<Printed>, delimiter: string) {
    forall k :: 0 <= k < |ps| ==> Survives(ps[k].section, delimiter, ps[k].open, ps[k].close)
  }

  /** Printing any sections, with line breaks of either kind, and splitting them again
      gives them back exactly when each is free of the delimiter and does not begin
      with the LF, or end with the CR, that would merge with the line break beside
      it. */
  lemma {:induction false} SplitInvertsMixed(ps: seq<Printed>, delimiter: string, tail: string)
    requires OneLine(delimiter) && ProperlyPrinted(ps) && ps != []
    ensures Sections(MixedWire(ps, delimiter, tail), delimiter, 0) == SectionsIn(ps) <==> AllSurvive(ps, delimiter)
  {
    var p := ps[0];
    var more := if |ps| == 1 then "--" + tail else MixedWire(ps[1..], delimiter, tail);
    var w := MixedWire(ps, delimiter, tail);
    if !Survives(p.section, delimiter, p.open, p.close) {
      FirstSectionDamaged(p.section, p.open, p.close, delimiter, more, w);
    } else {
      FirstSection(p.section, p.open, p.close, delimiter, more, w);
      if |ps| > 1 {
        SplitInvertsMixed(ps[1..], delimiter, tail);
        SurviveFromFirst(ps, delimiter);
        assert more[0] == ps[1].open[0];
        assert Sections(w, delimiter, 0)[1..] == Sections(more, delimiter, 0);
      } else {
        assert SectionsIn(ps[1..]) == [];
      }
    }
  }

  lemma SurviveFromFirst(ps: seq<Printed>, delimiter: string)
    requires ps != []
    ensures AllSurvive(ps, delimiter) <==>
      Survives(ps[0].section, delimiter, ps[0].open, ps[0].close) && AllSurvive(ps[1..], delimiter)
    ensures SectionsIn(ps) == [ps[0].section] + SectionsIn(ps[1..])
  {
    assert forall k :: 1 <= k < |ps| ==> ps[k] == ps[1..][k - 1];
    assert forall k :: 0 <= k < |ps[1..]| ==> ps[1..][k] == ps[k + 1];
  }

  function Uniform(sections: seq<string>, nl: string): seq<Printed> {
    if sections == [] then [] else [Printed(nl, sections[0], nl)] + Uniform(sections[1..], nl)
  }

  lemma {:induction false} WireIsMixed(sections: seq<string>, delimiter: string, nl: string, tail: string)
    requires sections != []
    ensures Uniform(sections, nl) != []
    ensures Wire(sections, delimiter, nl, tail) == MixedWire(Uniform(sections, nl), delimiter, tail)
  {
    assert Uniform(sections, nl)[1..] == Uniform(sections[1..], nl);
    if |sections| > 1 {
      WireIsMixed(sections[1..], delimiter, nl, tail);
    } else {
      assert Uniform(sections[1..], nl) == [];
    }
  }

  lemma {:induction false} UniformHolds(sections: seq<string>, delimiter: string, nl: string)
    requires IsNewline(nl)
    ensures ProperlyPrinted(Uniform(sections, nl)) && SectionsIn(Uniform(sections, nl)) == sections
    ensures AllSurvive(Uniform(sections, nl), delimiter) <==>
      forall s :: s in sections ==> Survives(s, delimiter, nl, nl)
  {
    if sections != [] {
      var rest, ps := sections[1..], Uniform(sections, nl);
      UniformHolds(rest, delimiter, nl);
      assert ps[1..] == Uniform(rest, nl);
      SurviveFromFirst(ps, delimiter);
      assert sections == [sections[0]] + rest;
    }
  }

  /** The same with one kind of line break throughout. */
  lemma SplitInvertsPrint(sections: seq<string>, delimiter: string, nl: string, tail: string)
    requires OneLine(delimiter) && IsNewline(nl) && sections != []
    ensures Sections(Wire(sections, delimiter, nl, tail), delimiter, 0) == sections
      <==> forall s :: s in sections ==> Survives(s, delimiter, nl, nl)
  {
    WireIsMixed(sections, delimiter, nl, tail);
    UniformHolds(sections, delimiter, nl);
    SplitInvertsMixed(Uniform(sections, nl), delimiter, tail);
  }
}
