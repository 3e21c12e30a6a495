/** Conditional writes of contacts to a server other clients write to as well
    (internal/desktop/bind_contacts_edit.go, Put and Delete in
    internal/carddav/carddav.go; sections 13.1 and 13.2 of RFC 9110). */
module ContactWrites {
  import opened Bytes
  import opened ETags
  import opened Options

  // ----- the server, told by what was done to it

  datatype Held = Held(tag: string, card: string)

  /** Who made a change: another client; or this one, after the user overruled a
      conflict, or for want of an etag without a condition, or on the condition that
      the server still holds the card the change starts from, if any. */
  datatype Cause = Other | Forced | Unguarded | Guarded(basis: Option<string>)

  datatype Effect = Effect(path: string, after: Option<Held>, cause: Cause)

  type History = seq<Effect>

  /** What the server holds. */
  function Now(h: History, path: string): Option<Held> {
    if h == [] then None
    else if h[|h| - 1].path == path then h[|h| - 1].after
    else Now(h[..|h| - 1], path)
  }

  function CardOf(held: Option<Held>): Option<string> {
    match held case None => None case Some(x) => Some(x.card)
  }

  ghost predicate IsVersion(h: History, path: string, tag: string, card: string) {
    exists n :: 0 <= n < |h| && h[n].path == path && h[n].after == Some(Held(tag, card))
  }

  /** The tags are entity tags, and no two versions at a path share one. */
  ghost predicate Tagged(h: History) {
    && (forall n :: 0 <= n < |h| && h[n].after.Some? ==> IsTag(h[n].after.value.tag))
    && (forall m, n :: 0 <= m < n < |h| && h[m].path == h[n].path && h[m].after.Some? && h[n].after.Some? ==> h[m].after.value.tag != h[n].after.value.tag)
  }

  /** The tag a server thinks up for a version. */
  datatype NewTag = NewTag(weak: bool, text: string)

  function Wire(t: NewTag): string {
    if t.weak then Weak(t.text) else Strong(t.text)
  }

  predicate IsFresh(h: History, path: string, t: NewTag) {
    '"' !in t.text && forall n :: 0 <= n < |h| && h[n].path == path && h[n].after.Some? ==> h[n].after.value.tag != Wire(t)
  }

  /** No conditional change of this client replaced anything but what it started
      from; a creation replaced nothing. */
  ghost predicate NoLostUpdate(h: History) {
    forall n :: 0 <= n < |h| && h[n].cause.Guarded? ==> CardOf(Now(h[..n], h[n].path)) == h[n].cause.basis
  }

  ghost predicate Good(h: History) {
    Tagged(h) && NoLostUpdate(h)
  }

  lemma {:induction false} NowIsVersion(h: History, path: string)
    requires Now(h, path).Some?
    ensures IsVersion(h, path, Now(h, path).value.tag, Now(h, path).value.card)
  {
    var init := h[..|h| - 1];
    if h[|h| - 1].path != path {
      NowIsVersion(init, path);
      var n :| 0 <= n < |init| && init[n].path == path && init[n].after == Now(init, path);
      assert h[n] == init[n];
    }
  }

  lemma GuardedStep(h: History, e: Effect)
    requires NoLostUpdate(h)
    requires e.cause.Guarded? ==> CardOf(Now(h, e.path)) == e.cause.basis
    ensures NoLostUpdate(h + [e])
  {
    var t := h + [e];
    assert t[..|h|] == h;
    forall n | 0 <= n < |t| && t[n].cause.Guarded? ensures CardOf(Now(t[..n], t[n].path)) == t[n].cause.basis {
      if n < |h| {
        assert t[..n] == h[..n];
      }
    }
  }

  datatype Header = Unconditional | IfNoneMatchAny | IfMatch(tag: string)

  predicate Allows(header: Header, held: Option<Held>) {
    match header
    case Unconditional => true
    case IfNoneMatchAny => held == None
    case IfMatch(tag) => held.Some? && Matches(tag, held.value.tag)
  }

  /** The header makes good what the cause claims. */
  ghost predicate Backs(header: Header, h: History, path: string, cause: Cause) {
    cause.Guarded? ==>
      match cause.basis
      case None => header == IfNoneMatchAny
      case Some(card) => header.IfMatch? && exists tag :: StoredFrom(h, path, tag, card) && header.tag == QuoteETag(TrimQuotes(tag))
  }

  ghost predicate StoredFrom(h: History, path: string, tag: string, card: string) {
    IsVersion(h, path, tag, card) && TrimQuotes(tag) != ""
  }

  lemma BacksLater(header: Header, h: History, t: History, path: string, cause: Cause)
    requires h <= t && Backs(header, h, path, cause)
    ensures Backs(header, t, path, cause)
  {
    if cause.Guarded? && cause.basis.Some? {
      var tag :| StoredFrom(h, path, tag, cause.basis.value) && header.tag == QuoteETag(TrimQuotes(tag));
      assert StoredFrom(t, path, tag, cause.basis.value);
    }
  }

  /** A condition that holds means the server has what the change starts from. */
  lemma AllowedIsGuarded(header: Header, h: History, path: string, cause: Cause)
    requires Tagged(h) && Backs(header, h, path, cause) && Allows(header, Now(h, path))
    ensures cause.Guarded? ==> CardOf(Now(h, path)) == cause.basis
  {
    if cause.Guarded? && cause.basis.Some? {
      var card := cause.basis.value;
      var tag :| StoredFrom(h, path, tag, card) && header.tag == QuoteETag(TrimQuotes(tag));
      var held := Now(h, path).value;
      NowIsVersion(h, path);
      SentMatchesOnlyItself(tag, held.tag);
    }
  }

  /** What others did in between. */
  ghost predicate OnlyOthers(h: History, t: History) {
    h <= t && forall n :: |h| <= n < |t| ==> t[n].cause == Other
  }

  /** What others did in between, and one change of this client. */
  ghost predicate OneOfOurs(h: History, t: History, path: string, card: Option<string>, cause: Cause) {
    h <= t && exists k :: OursAt(h, t, k, path, card, cause)
  }

  ghost predicate OursAt(h: History, t: History, k: int, path: string, card: Option<string>, cause: Cause) {
    && |h| <= k < |t|
    && t[k].path == path && CardOf(t[k].after) == card && t[k].cause == cause
    && (forall n :: |h| <= n < |t| && n != k ==> t[n].cause == Other)
  }

  /** A change of ours, after those of others. */
  lemma OursAdded(h: History, mid: History, e: Effect)
    requires OnlyOthers(h, mid)
    ensures OneOfOurs(h, mid + [e], e.path, CardOf(e.after), e.cause)
    ensures Now(mid + [e], e.path) == e.after
    ensures e.after.Some? ==> IsVersion(mid + [e], e.path, e.after.value.tag, e.after.value.card)
  {
    var t := mid + [e];
    assert t[|mid|] == e;
    assert OursAt(h, t, |mid|, e.path, CardOf(e.after), e.cause);
  }

  /** One change of ours, and what it put there is there. */
  ghost predicate Took(h: History, t: History, path: string, card: Option<string>, cause: Cause) {
    && OneOfOurs(h, t, path, card, cause) && CardOf(Now(t, path)) == card
    && (card.Some? ==> IsVersion(t, path, Now(t, path).value.tag, card.value))
  }

  lemma Taken(h: History, mid: History, path: string, card: Option<string>, tags: seq<NewTag>, cause: Cause)
    requires OnlyOthers(h, mid) && (card == None || tags != [])
    ensures var t := mid + [Made(path, card, tags, cause)];
            Took(h, t, path, card, cause) && (card.Some? ==> Now(t, path).value.tag == Wire(tags[0]))
  {
    OursAdded(h, mid, Made(path, card, tags, cause));
  }

  datatype OtherWrite = OtherWrite(path: string, card: Option<string>)

  /** What becomes of a request: it is answered; it never arrives; it is carried out
      and the answer is lost. */
  datatype Fate = Answered | Unsent | Unheard

  /** The fate of the next request, and those of the ones after it. */
  function First(fates: seq<Fate>): Fate {
    if fates == [] then Answered else fates[0]
  }

  function Rest<T>(s: seq<T>): seq<T> {
    if s == [] then [] else s[1..]
  }

  predicate Silent(terse: seq<bool>) {
    terse != [] && terse[0]
  }

  datatype Reply = Failed | Conflict | Missing | Done(tag: string)

  /** There is a new tag for another version. */
  predicate CanTag(tags: seq<NewTag>, h: History, path: string) {
    tags != [] && IsFresh(h, path, tags[0])
  }

  /** A write as the history has it, with the next tag. */
  function Made(path: string, card: Option<string>, tags: seq<NewTag>, cause: Cause): Effect
    requires card == None || tags != []
  {
    Effect(path, match card case None => None case Some(c) => Some(Held(Wire(tags[0]), c)), cause)
  }

  /** Before each request the others do a batch of writes, and the request meets its
      fate; `terse` tells whether a write is answered without an ETag, and `tags`
      which tag each write gets. A write is refused when its tag is not new. When
      these run out, nobody interferes. */
  class Server {
    var history: History
    var others: seq<seq<OtherWrite>>
    var fates: seq<Fate>
    var terse: seq<bool>
    var tags: seq<NewTag>

    ghost predicate Valid()
      reads this
    {
      Good(history)
    }

    constructor (others: seq<seq<OtherWrite>>, fates: seq<Fate>, terse: seq<bool>, tags: seq<NewTag>)
      ensures Valid() && history == []
      ensures this.others == others && this.fates == fates && this.terse == terse && this.tags == tags
    {
      this.history, this.others, this.fates, this.terse, this.tags := [], others, fates, terse, tags;
    }

    /** The write itself, if there is a tag for it. */
    method Change(path: string, card: Option<string>, cause: Cause) returns (ok: bool)
      requires Valid()
      requires cause.Guarded? ==> CardOf(Now(history, path)) == cause.basis
      modifies this`history, this`tags
      ensures Valid()
      ensures ok <==> card == None || CanTag(old(tags), old(history), path)
      ensures !ok ==> history == old(history)
      ensures ok ==> history == old(history) + [Made(path, card, old(tags), cause)]
      ensures tags == if ok && card.Some? then old(tags)[1..] else old(tags)
    {
      ok := card == None || CanTag(tags, history, path);
      if ok {
        var t := if card == None then NewTag(false, "") else tags[0];
        var e := Made(path, card, tags, cause);
        GuardedStep(history, e);
        history := history + [e];
        if card.Some? {
          tags := tags[1..];
        }
      }
    }

    /** The others' turn, then the fate of the request. */
    method Arrive() returns (fate: Fate)
      requires Valid()
      modifies this
      ensures Valid() && OnlyOthers(old(history), history)
      ensures old(others) == [] ==> history == old(history) && others == [] && tags == old(tags)
      ensures fate == First(old(fates)) && fates == Rest(old(fates))
      ensures terse == old(terse)
    {
      var batch := [];
      if others != [] {
        batch, others := others[0], others[1..];
      }
      var k := 0;
      while k < |batch|
        invariant 0 <= k <= |batch| && Valid() && OnlyOthers(old(history), history)
        invariant fates == old(fates) && terse == old(terse)
        invariant old(others) == [] ==> batch == [] && others == []
        invariant batch == [] ==> history == old(history) && tags == old(tags)
      {
        var _ := Change(batch[k].path, batch[k].card, Other);
        k := k + 1;
      }
      fate := Answered;
      if fates != [] {
        fate, fates := fates[0], fates[1..];
      }
    }

    /** The write where it arrives, and the ETag its answer is to carry. */
    method Attempt(path: string, card: Option<string>, header: Header, cause: Cause) returns (done: bool, tag: string)
      requires Valid() && Backs(header, history, path, cause)
      modifies this`history, this`tags, this`terse
      ensures Valid()
      ensures done <==>
        Allows(header, Now(old(history), path)) && if card == None then Now(old(history), path).Some? else CanTag(old(tags), old(history), path)
      ensures !done ==> history == old(history) && tags == old(tags)
      ensures done ==> card == None || old(tags) != []
      ensures done ==> history == old(history) + [Made(path, card, old(tags), cause)]
      ensures done && card.Some? ==>
        tags == old(tags)[1..] && tag == if Silent(old(terse)) then "" else Wire(old(tags)[0])
    {
      var held := Now(history, path);
      done, tag := false, "";
      if Allows(header, held) && (card.Some? || held.Some?) {
        AllowedIsGuarded(header, history, path, cause);
        var made := tags;
        done := Change(path, card, cause);
        if done && card.Some? {
          tag := if Silent(terse) then "" else Wire(made[0]);
          terse := Rest(terse);
        }
      }
    }

    /** A request to write: what became of it, and what was there. */
    method Carry(path: string, card: Option<string>, header: Header, cause: Cause)
      returns (fate: Fate, held: Option<Held>, done: bool, tag: string)
      requires Valid() && Backs(header, history, path, cause)
      modifies this
      ensures Valid()
      ensures !done ==> OnlyOthers(old(history), history) && (fate != Unsent ==> held == Now(history, path))
      ensures !done && fate != Unsent && card == None ==> held == None || !Allows(header, held)
      ensures done ==>
        && fate != Unsent && Allows(header, held) && (card == None ==> held.Some?)
        && Took(old(history), history, path, card, cause)
        && (card.Some? ==> tag == if Silent(old(terse)) then "" else Now(history, path).value.tag)
      ensures fate == First(old(fates)) && fates == Rest(old(fates))
      ensures old(others) == [] ==> others == [] && (!done ==> history == old(history) && tags == old(tags))
      ensures old(others) == [] && done && card.Some? ==>
        WroteOne(old(history), history, old(tags), tags, path, card.value, cause)
      ensures old(others) == [] && fate == Answered ==>
        && held == Now(old(history), path)
        && (done <==> Allows(header, held) && if card == None then held.Some? else CanTag(old(tags), old(history), path))
    {
      ghost var start := history;
      fate := Arrive();
      held, done, tag := None, false, "";
      if fate != Unsent {
        held := Now(history, path);
        ghost var mid, made := history, tags;
        BacksLater(header, start, history, path, cause);
        done, tag := Attempt(path, card, header, cause);
        if done {
          Taken(start, mid, path, card, made, cause);
        }
      }
    }

    /** PUT. */
    method Put(path: string, card: string, header: Header, cause: Cause) returns (r: Reply)
      requires Valid() && Backs(header, history, path, cause)
      modifies this
      ensures Valid() && r != Missing
      ensures r == Conflict ==> OnlyOthers(old(history), history) && !Allows(header, Now(history, path))
      ensures r == Failed ==>
        OnlyOthers(old(history), history) || OneOfOurs(old(history), history, path, Some(card), cause)
      ensures r.Done? ==>
        && OneOfOurs(old(history), history, path, Some(card), cause)
        && CardOf(Now(history, path)) == Some(card)
        && IsVersion(history, path, Now(history, path).value.tag, card)
        && r.tag == if Silent(old(terse)) then "" else Now(history, path).value.tag
      ensures fates == Rest(old(fates)) && (r != Failed ==> First(old(fates)) == Answered)
      ensures old(others) == [] ==> others == [] && (r == Conflict ==> history == old(history))
      ensures old(others) == [] && r.Done? ==> WroteOne(old(history), history, old(tags), tags, path, card, cause)
      ensures old(others) == [] && First(old(fates)) == Answered && CanTag(old(tags), old(history), path) ==>
        r != Failed && (r.Done? <==> Allows(header, Now(old(history), path)))
    {
      var fate, held, done, tag := Carry(path, Some(card), header, cause);
      r := if fate != Answered then Failed else if done then Done(tag) else if Allows(header, held) then Failed else Conflict;
    }

    /** DELETE; of what is not there, conditions are not even looked at. */
    method Delete(path: string, header: Header, cause: Cause) returns (r: Reply)
      requires Valid() && Backs(header, history, path, cause)
      modifies this
      ensures Valid()
      ensures r == Conflict || r == Missing ==> OnlyOthers(old(history), history)
      ensures r == Missing || r.Done? ==> Now(history, path) == None
      ensures r == Conflict ==> !Allows(header, Now(history, path))
      ensures r == Failed ==> OnlyOthers(old(history), history) || OneOfOurs(old(history), history, path, None, cause)
      ensures r.Done? ==> OneOfOurs(old(history), history, path, None, cause)
      ensures fates == Rest(old(fates)) && (r == Failed <==> First(old(fates)) != Answered)
      ensures old(others) == [] ==> others == []
      ensures old(others) == [] && First(old(fates)) == Answered ==>
        && (r == Conflict ==> history == old(history))
        && r == (if Now(old(history), path) == None then Missing else if Allows(header, Now(old(history), path)) then Done("") else Conflict)
    {
      var fate, held, done, _ := Carry(path, None, header, cause);
      if fate != Answered {
        return Failed;
      }
      r := if done then Done("") else if held == None then Missing else Conflict;
    }

    /** GET. */
    method Fetch(path: string) returns (r: Option<Held>)
      requires Valid()
      modifies this
      ensures Valid() && OnlyOthers(old(history), history)
      ensures r == (if First(old(fates)) == Answered then Now(history, path) else None) && fates == Rest(old(fates))
      ensures r.Some? ==> IsVersion(history, path, r.value.tag, r.value.card)
      ensures old(others) == [] ==> others == [] && history == old(history) && tags == old(tags)
    {
      var fate := Arrive();
      r := None;
      if fate == Answered {
        r := Now(history, path);
        if r.Some? {
          NowIsVersion(history, path);
        }
      }
    }
  }

  // ----- the local copy

  datatype Row = Row(etag: string, card: string)

  type Rows = map<string, Row>

  /** A row with an etag holds the card of the version that had it. */
  ghost predicate ComesFrom(rows: Rows, h: History) {
    forall p :: p in rows && rows[p].etag != "" ==> HasOrigin(rows[p], h, p)
  }

  ghost predicate HasOrigin(r: Row, h: History, path: string) {
    exists tag :: TrimQuotes(tag) == r.etag && IsVersion(h, path, tag, r.card)
  }

  lemma OriginsStay(rows: Rows, h: History, t: History)
    requires ComesFrom(rows, h) && h <= t
    ensures ComesFrom(rows, t)
  {
    forall p | p in rows && rows[p].etag != "" ensures HasOrigin(rows[p], t, p) {
      assert HasOrigin(rows[p], h, p);
      var tag :| TrimQuotes(tag) == rows[p].etag && IsVersion(h, p, tag, rows[p].card);
    }
  }

  datatype Precondition = New | Match | NoCondition

  function PreconditionFor(force: bool, updating: bool, etag: string): (Precondition, string) {
    if force then (NoCondition, "")
    else if updating then (Match, QuoteETag(etag))
    else (New, "")
  }

  /** What Put sends for a precondition. */
  function HeaderFor(pre: Precondition, etag: string): Header {
    match pre
    case New => IfNoneMatchAny
    case Match => if etag != "" then IfMatch(etag) else Unconditional
    case NoCondition => Unconditional
  }

  /** What a save claims: nothing when forced, or when it updates a row without an
      etag; else that it replaces what the row came from, or nothing at all. */
  function SaveCause(force: bool, row: Option<Row>): Cause {
    if force then Forced
    else match row
         case None => Guarded(None)
         case Some(r) => if r.etag == "" then Unguarded else Guarded(Some(r.card))
  }

  function SaveHeader(force: bool, row: Option<Row>): Header {
    var pre := PreconditionFor(force, row.Some?, if row.Some? then row.value.etag else "");
    HeaderFor(pre.0, pre.1)
  }

  function DeleteHeader(force: bool, row: Row): Header {
    var tag := QuoteETag(if force then "" else row.etag);
    if tag != "" then IfMatch(tag) else Unconditional
  }

  lemma HeadersBack(h: History, path: string, force: bool, row: Option<Row>)
    requires row.Some? && row.value.etag != "" ==> HasOrigin(row.value, h, path)
    ensures Backs(SaveHeader(force, row), h, path, SaveCause(force, row))
    ensures row.Some? ==> Backs(DeleteHeader(force, row.value), h, path, SaveCause(force, row))
  {
    if row.Some? && !force {
      var r := row.value;
      if r.etag != "" {
        var tag :| TrimQuotes(tag) == r.etag && IsVersion(h, path, tag, r.card);
        assert StoredFrom(h, path, tag, r.card);
      }
    }
  }

  /** A write goes out without a condition exactly when it is forced, or updates a row
      without an etag. */
  lemma UnconditionalExactlyWhen(force: bool, row: Option<Row>)
    ensures SaveHeader(force, row) == Unconditional <==> force || (row.Some? && row.value.etag == "")
    ensures row.Some? ==> (DeleteHeader(force, row.value) == Unconditional <==> force || row.value.etag == "")
  {
  }

  /** Where the server holds another card than the row's, an unforced save or deletion of
      the row replaces it if and only if the row has no etag. */
  lemma OverwritesExactlyWhen(h: History, path: string, row: Row)
    requires Tagged(h) && (row.etag != "" ==> HasOrigin(row, h, path))
    requires Now(h, path).Some? && Now(h, path).value.card != row.card
    ensures Allows(SaveHeader(false, Some(row)), Now(h, path)) <==> row.etag == ""
    ensures Allows(DeleteHeader(false, row), Now(h, path)) <==> row.etag == ""
  {
    HeadersBack(h, path, false, Some(row));
    UnconditionalExactlyWhen(false, Some(row));
    if row.etag != "" {
      ForAllowed(SaveHeader(false, Some(row)), h, path, SaveCause(false, Some(row)));
      ForAllowed(DeleteHeader(false, row), h, path, SaveCause(false, Some(row)));
    }
  }

  /** Where the server holds just the version a row came from, an unforced save or deletion
      meets its condition if and only if its tag is strong and its text does not start with W/:
      over a weak tag each is told as a conflict. */
  lemma UpToDateExactlyWhen(row: Row, held: Held, tag: NewTag)
    requires '"' !in tag.text && held.tag == Wire(tag) && row.etag == TrimQuotes(held.tag)
    ensures Allows(SaveHeader(false, Some(row)), Some(held)) <==> !tag.weak && !HasPrefix(tag.text, "W/")
    ensures Allows(DeleteHeader(false, row), Some(held)) <==> !tag.weak && !HasPrefix(tag.text, "W/")
  {
    TrimOfStrong(tag.text);
    TrimOfWeak(tag.text);
    QuoteInvertsTrim(tag.text);
    assert Weak(tag.text)[0] == 'W';
  }

  lemma ForAllowed(header: Header, h: History, path: string, cause: Cause)
    requires Tagged(h) && Backs(header, h, path, cause) && cause.Guarded?
    ensures Allows(header, Now(h, path)) ==> CardOf(Now(h, path)) == cause.basis
  {
    if Allows(header, Now(h, path)) {
      AllowedIsGuarded(header, h, path, cause);
    }
  }

  datatype Result = Saved | Deleted | Refused | Error

  class AddressBook {
    var rows: Rows
    const readOnly: bool

    constructor (readOnly: bool)
      ensures rows == map[] && this.readOnly == readOnly
    {
      rows, this.readOnly := map[], readOnly;
    }
  }

  ghost predicate Linked(book: AddressBook, server: Server)
    reads book, server
  {
    server.Valid() && ComesFrom(book.rows, server.history)
  }

  /** What the server holds, as a row. */
  function Fetched(held: Held): Row {
    Row(TrimQuotes(held.tag), held.card)
  }

  /** What a save that may be conditional is checked against. */
  function Edited(rows: Rows, create: bool, path: string): Option<Row> {
    if create || path !in rows then None else Some(rows[path])
  }

  /** SaveContact: an update of the row at `path`, or, with `create`, a new contact
      at a path made from a fresh uid. */
  method SaveContact(book: AddressBook, server: Server, create: bool, path: string, card: string, force: bool)
    returns (r: Result)
    requires Linked(book, server)
    modifies book`rows, server
    ensures Linked(book, server)
    ensures book.readOnly || (!create && path !in old(book.rows)) ==>
      r == Error && server.history == old(server.history)
    ensures Outcome(r, old(book.rows), book.rows, old(server.history), server.history, path, card, SaveCause(force, Edited(old(book.rows), create, path)))
    ensures r == Saved && Silent(old(server.terse)) ==>
      Reasked(old(server.fates), server.fates, server.history, path, book.rows)
    ensures old(server.others) == [] ==> server.others == []
    ensures old(server.others) == [] && r == Saved ==>
      WroteOne(old(server.history), server.history, old(server.tags), server.tags, path, card, SaveCause(force, Edited(old(book.rows), create, path)))
    ensures old(server.others) == [] && First(old(server.fates)) == Answered && CanTag(old(server.tags), old(server.history), path) && !book.readOnly && (create || path in old(book.rows)) ==>
      Told(r, Saved, Allows(SaveHeader(force, Edited(old(book.rows), create, path)), Now(old(server.history), path)), old(server.fates), old(server.history), path)
    ensures r == Refused ==> Shown(old(server.fates), server.history, path)
    ensures old(server.others) == [] && old(server.fates) == [] && r == Saved ==>
      StoredAsFound(server.history, path, card, book.rows)
  {
    if book.readOnly || (!create && path !in book.rows) {
      return Error;
    }
    r := WriteContact(book, server, Edited(book.rows, create, path), path, card, force);
  }

  /** A refused save changes neither side; a failed one nothing here, and there at
      most what it asked for; a done one put the card there, once, and stores it, or
      what the server was found to hold afterwards. */
  ghost predicate Outcome(r: Result, before: Rows, after: Rows, h: History, t: History, path: string, card: string,
                          cause: Cause) {
    match r
    case Refused => after == before && OnlyOthers(h, t)
    case Error => after == before && (OnlyOthers(h, t) || OneOfOurs(h, t, path, Some(card), cause))
    case Saved =>
      && OneOfOurs(h, t, path, Some(card), cause)
      && path in after && after == before[path := after[path]]
      && (after[path].card == card || (Now(t, path).Some? && after[path] == Fetched(Now(t, path).value)))
    case Deleted => false
  }

  method WriteContact(book: AddressBook, server: Server, existing: Option<Row>, path: string, card: string,
                      force: bool) returns (r: Result)
    requires Linked(book, server)
    requires existing.Some? ==> path in book.rows && book.rows[path] == existing.value
    modifies book`rows, server
    ensures Linked(book, server)
    ensures Outcome(r, old(book.rows), book.rows, old(server.history), server.history, path, card, SaveCause(force, existing))
    ensures r == Saved && Silent(old(server.terse)) ==>
      Reasked(old(server.fates), server.fates, server.history, path, book.rows)
    ensures old(server.others) == [] ==> server.others == []
    ensures old(server.others) == [] && r == Saved ==>
      WroteOne(old(server.history), server.history, old(server.tags), server.tags, path, card, SaveCause(force, existing))
    ensures old(server.others) == [] && First(old(server.fates)) == Answered && CanTag(old(server.tags), old(server.history), path) ==>
      Told(r, Saved, Allows(SaveHeader(force, existing), Now(old(server.history), path)), old(server.fates), old(server.history), path)
    ensures r == Refused ==> Shown(old(server.fates), server.history, path)
    ensures old(server.others) == [] && old(server.fates) == [] && r == Saved ==>
      StoredAsFound(server.history, path, card, book.rows)
  {
    HeadersBack(server.history, path, force, existing);
    ghost var start, cause := server.history, SaveCause(force, existing);
    var reply := server.Put(path, card, SaveHeader(force, existing), SaveCause(force, existing));
    OriginsStay(book.rows, start, server.history);
    match reply {
      case Conflict =>
        r := ShowConflict(book.rows, server, path);
      case Done(tag) =>
        StoreWritten(book, server, path, card, tag, start, cause);
        r := Saved;
      case _ =>
        r := Error;
    }
  }

  /** The write was answered without a tag, and the contact asked for again. */
  ghost predicate Reasked(before: seq<Fate>, after: seq<Fate>, h: History, path: string, rows: Rows) {
    && after == Rest(Rest(before)) && path in rows
    && (rows[path].etag == "" <==> Untagged(Rest(before), Now(h, path)))
  }

  /** The write is all that was done. */
  ghost predicate WroteOne(h: History, t: History, tags: seq<NewTag>, left: seq<NewTag>, path: string, card: string,
                           cause: Cause) {
    tags != [] && t == h + [Made(path, Some(card), tags, cause)] && left == tags[1..]
  }

  ghost predicate StoredAsFound(h: History, path: string, card: string, rows: Rows) {
    Now(h, path).Some? && path in rows && rows[path] == Fetched(Now(h, path).value) && rows[path].card == card
  }

  method StoreWritten(book: AddressBook, server: Server, path: string, card: string, tag: string, ghost start: History,
                      ghost cause: Cause)
    requires Linked(book, server) && OneOfOurs(start, server.history, path, Some(card), cause)
    requires CardOf(Now(server.history, path)) == Some(card)
    requires tag == "" || (tag == Now(server.history, path).value.tag && IsVersion(server.history, path, tag, card))
    modifies book`rows, server
    ensures Linked(book, server)
    ensures Outcome(Saved, old(book.rows), book.rows, start, server.history, path, card, cause)
    ensures path in book.rows
    ensures (book.rows[path].etag == "" <==> TrimQuotes(tag) == "" && Untagged(old(server.fates), Now(server.history, path)))
    ensures server.fates == if TrimQuotes(tag) == "" then Rest(old(server.fates)) else old(server.fates)
    ensures old(server.others) == [] ==>
      server.others == [] && server.history == old(server.history) && server.tags == old(server.tags)
    ensures old(server.others) == [] && old(server.fates) == [] ==> StoredAsFound(server.history, path, card, book.rows)
  {
    var row := Settle(book.rows, server, path, card, tag, start, cause);
    book.rows := book.rows[path := row];
  }

  /** The requests that had to be answered for a refusal to be shown, and the card that
      was there to be shown with it. */
  predicate Shown(fates: seq<Fate>, h: History, path: string) {
    First(fates) == Answered && First(Rest(fates)) == Answered && Now(h, path).Some?
  }

  /** It is done if and only if the server allows it, and otherwise a refusal if there is
      a card to show and an error if not. */
  predicate Told(r: Result, done: Result, allowed: bool, fates: seq<Fate>, h: History, path: string) {
    r == if allowed then done else if Shown(fates, h, path) then Refused else Error
  }

  /** contactConflict: the server's copy, to be shown beside the user's. */
  method ShowConflict(ghost rows: Rows, server: Server, path: string) returns (r: Result)
    requires server.Valid() && ComesFrom(rows, server.history)
    modifies server
    ensures server.Valid() && ComesFrom(rows, server.history)
    ensures OnlyOthers(old(server.history), server.history)
    ensures r == if First(old(server.fates)) == Answered && Now(server.history, path).Some? then Refused else Error
    ensures old(server.others) == [] ==> server.others == [] && server.history == old(server.history)
  {
    ghost var start := server.history;
    var theirs := server.Fetch(path);
    OriginsStay(rows, start, server.history);
    r := if theirs.Some? then Refused else Error;
  }

  /** Asking for the contact again brings no tag: the request fails, or there is none. */
  predicate Untagged(fates: seq<Fate>, held: Option<Held>) {
    !(First(fates) == Answered && held.Some? && TrimQuotes(held.value.tag) != "")
  }

  /** The row to store after a write: with the tag the server answered, or else what
      it is found to hold, or else with no tag at all. */
  method Settle(ghost rows: Rows, server: Server, path: string, card: string, tag: string, ghost start: History,
                ghost cause: Cause) returns (row: Row)
    requires server.Valid() && ComesFrom(rows, server.history)
    requires OneOfOurs(start, server.history, path, Some(card), cause)
    requires CardOf(Now(server.history, path)) == Some(card)
    requires tag == "" || (tag == Now(server.history, path).value.tag && IsVersion(server.history, path, tag, card))
    modifies server
    ensures server.Valid() && ComesFrom(rows, server.history)
    ensures row.etag == "" <==> TrimQuotes(tag) == "" && Untagged(old(server.fates), Now(server.history, path))
    ensures server.fates == if TrimQuotes(tag) == "" then Rest(old(server.fates)) else old(server.fates)
    ensures old(server.others) == [] ==>
      server.others == [] && server.history == old(server.history) && server.tags == old(server.tags)
    ensures old(server.others) == [] && old(server.fates) == [] ==> row == Fetched(Now(server.history, path).value)
    ensures OneOfOurs(start, server.history, path, Some(card), cause)
    ensures row.etag != "" ==> HasOrigin(row, server.history, path)
    ensures row.card == card || (Now(server.history, path).Some? && row == Fetched(Now(server.history, path).value))
  {
    row := Row(TrimQuotes(tag), card);
    if row.etag == "" {
      ghost var written := server.history;
      var fetched := server.Fetch(path);
      OriginsStay(rows, written, server.history);
      OursStays(start, written, server.history, path, Some(card), cause);
      if fetched.Some? {
        row := Fetched(fetched.value);
      }
    }
  }

  lemma OursStays(h: History, mid: History, t: History, path: string, card: Option<string>, cause: Cause)
    requires OneOfOurs(h, mid, path, card, cause) && OnlyOthers(mid, t)
    ensures OneOfOurs(h, t, path, card, cause)
  {
    var k :| OursAt(h, mid, k, path, card, cause);
    assert t[k] == mid[k];
    forall n | |h| <= n < |t| && n != k ensures t[n].cause == Other {
      if n < |mid| {
        assert t[n] == mid[n];
      }
    }
    assert OursAt(h, t, k, path, card, cause);
  }

  /** DeleteContact. */
  method DeleteContact(book: AddressBook, server: Server, path: string, force: bool) returns (r: Result)
    requires Linked(book, server)
    modifies book`rows, server
    ensures Linked(book, server)
    ensures r == Deleted || r == Refused || r == Error
    ensures book.rows == if r == Deleted then old(book.rows) - {path} else old(book.rows)
    ensures r == Refused ==> OnlyOthers(old(server.history), server.history)
    ensures book.readOnly || path !in old(book.rows) ==> r == Error && server.history == old(server.history)
    ensures r == Deleted ==> path in old(book.rows) && Now(server.history, path) == None
    ensures path in old(book.rows) ==>
      || OnlyOthers(old(server.history), server.history)
      || OneOfOurs(old(server.history), server.history, path, None, SaveCause(force, Some(old(book.rows)[path])))
    ensures r == Refused ==> Shown(old(server.fates), server.history, path)
    ensures old(server.others) == [] && First(old(server.fates)) == Answered && !book.readOnly && path in old(book.rows) ==>
      Told(r, Deleted, Now(old(server.history), path) == None || Allows(DeleteHeader(force, old(book.rows)[path]), Now(old(server.history), path)), old(server.fates), old(server.history), path)
  {
    if book.readOnly || path !in book.rows {
      return Error;
    }
    r := RemoveContact(book, server, path, force);
  }

  /** The rest of it, for a contact that is stored. */
  method RemoveContact(book: AddressBook, server: Server, path: string, force: bool) returns (r: Result)
    requires Linked(book, server) && path in book.rows
    modifies book`rows, server
    ensures Linked(book, server)
    ensures r == Deleted || r == Refused || r == Error
    ensures book.rows == if r == Deleted then old(book.rows) - {path} else old(book.rows)
    ensures r == Refused ==> OnlyOthers(old(server.history), server.history)
    ensures r == Deleted ==> Now(server.history, path) == None
    ensures
      || OnlyOthers(old(server.history), server.history)
      || OneOfOurs(old(server.history), server.history, path, None, SaveCause(force, Some(old(book.rows)[path])))
    ensures r == Refused ==> Shown(old(server.fates), server.history, path)
    ensures old(server.others) == [] && First(old(server.fates)) == Answered ==>
      Told(r, Deleted, Now(old(server.history), path) == None || Allows(DeleteHeader(force, old(book.rows)[path]), Now(old(server.history), path)), old(server.fates), old(server.history), path)
  {
    var row := book.rows[path];
    HeadersBack(server.history, path, force, Some(row));
    ghost var start := server.history;
    var reply := server.Delete(path, DeleteHeader(force, row), SaveCause(force, Some(row)));
    OriginsStay(book.rows, start, server.history);
    match reply {
      case Conflict =>
        r := ShowConflict(book.rows, server, path);
      case Failed =>
        r := Error;
      case _ =>
        book.rows := book.rows - {path};
        r := Deleted;
    }
  }

  const ThreeTags := [NewTag(false, "1"), NewTag(false, "2"), NewTag(false, "3")]

  /** A creation answered without an ETag, and then a request for the contact that
      fails: the row has no etag. */
  method UntaggedCreation() returns (book: AddressBook, server: Server, first: Result)
    ensures fresh(book) && fresh(server) && Linked(book, server) && !book.readOnly
    ensures first == Saved && "p" in book.rows && book.rows["p"].etag == ""
    ensures server.others == [] && server.fates == [] && server.tags == ThreeTags[1..]
    ensures server.history == [Made("p", Some("mine"), ThreeTags, Guarded(None))]
  {
    server := new Server([], [Answered, Unsent], [true], ThreeTags);
    book := new AddressBook(false);
    first := SaveContact(book, server, true, "p", "mine", false);
  }

  lemma TagsApart()
    ensures CanTag(ThreeTags[1..], [Made("p", Some("mine"), ThreeTags, Guarded(None))], "p")
    ensures var two := [Made("p", Some("mine"), ThreeTags, Guarded(None)), Made("p", Some("phone"), ThreeTags[1..], Other)];
            CanTag(ThreeTags[1..][1..], two, "p") && Now(two, "p") == two[1].after && Now(two[..2], "p") == two[1].after
  {
    assert Wire(ThreeTags[0])[1] == '1' && Wire(ThreeTags[1])[1] == '2' && Wire(ThreeTags[2])[1] == '3';
    var two := [Made("p", Some("mine"), ThreeTags, Guarded(None)), Made("p", Some("phone"), ThreeTags[1..], Other)];
    assert two[..2] == two;
  }

  /** An edit lost: another client writes then, and the next unforced save replaces that
      without a word. */
  method LostEdit() returns (book: AddressBook, server: Server, first: Result, second: Result)
    ensures fresh(book) && fresh(server)
    ensures first == Saved && second == Saved && |server.history| == 3
    ensures var h := server.history;
            && h[1].cause == Other && CardOf(h[1].after) == Some("phone") && h[2].cause == Unguarded
            && Now(h[..2], "p") == h[1].after && CardOf(Now(h, "p")) == Some("mine, edited")
  {
    book, server, first := UntaggedCreation();
    TagsApart();
    var written := server.Change("p", Some("phone"), Other);
    ghost var before := server.history;
    second := SaveContact(book, server, false, "p", "mine, edited", false);
    assert server.history[..2] == before;
  }

  /** A sync storing a version the server has, or had when it was asked. */
  method Adopt(book: AddressBook, server: Server, n: nat)
    requires Linked(book, server)
    modifies book`rows
    ensures Linked(book, server)
  {
    if n < |server.history| && server.history[n].after.Some? {
      var e := server.history[n];
      assert IsVersion(server.history, e.path, e.after.value.tag, e.after.value.card);
      book.rows := book.rows[e.path := Row(TrimQuotes(e.after.value.tag), e.after.value.card)];
    }
  }

  datatype Step =
    | DoSave(create: bool, path: string, card: string, force: bool)
    | DoDelete(path: string, force: bool)
    | DoAdopt(n: nat)

  /** No lost update: in every run, with other clients writing before any request and
      requests or answers lost, each unforced save or delete of a contact with an
      etag took effect only on the version the local copy came from, and each
      unforced creation only where there was nothing. */
  method Run(book: AddressBook, server: Server, steps: seq<Step>)
    requires Linked(book, server)
    modifies book`rows, server
    ensures Linked(book, server) && NoLostUpdate(server.history)
  {
    var k := 0;
    while k < |steps|
      invariant Linked(book, server)
    {
      match steps[k] {
        case DoSave(create, path, card, force) => var _ := SaveContact(book, server, create, path, card, force);
        case DoDelete(path, force) => var _ := DeleteContact(book, server, path, force);
        case DoAdopt(n) => Adopt(book, server, n);
      }
      k := k + 1;
    }
  }
}
