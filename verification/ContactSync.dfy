/** Bringing a local address book in line with a CardDAV server by sync tokens
    (internal/desktop/bind_contacts.go, Sync in internal/carddav/carddav.go). */
module ContactSync {
  import Bytes
  import opened ETags
  import opened Options

  // ----- the server

  /** A member of the collection; one whose card cannot be read has none. */
  datatype Resource = Resource(etag: string, card: Option<string>)

  datatype Change = Change(path: string, now: Option<Resource>)

  type Members = map<string, Resource>

  /** The collection after the changes in its log. */
  function After(log: seq<Change>): Members {
    if log == [] then map[]
    else
      var c := log[|log| - 1];
      match c.now
      case None => After(log[..|log| - 1]) - {c.path}
      case Some(r) => After(log[..|log| - 1])[c.path := r]
  }

  ghost predicate Touched(log: seq<Change>, n: nat, path: string) {
    exists k :: n <= k < |log| && log[k].path == path
  }

  /** "" or the token the server gave out when its log was that long. */
  datatype Token = Blank | At(version: nat)

  datatype Object = Object(path: string, resource: Resource)

  datatype Report = Report(updated: seq<Object>, deleted: seq<string>, token: Token)

  ghost predicate Reported(r: Report, path: string) {
    path in r.deleted || exists o :: o in r.updated && o.path == path
  }

  /** A sync-collection report as sections 3.4 and 3.5 of RFC 6578 have it: what it
      says is current, and it speaks of every member touched since the token, even
      one added and removed in between; without a token, of every member. */
  ghost predicate Answers(log: seq<Change>, token: Token, r: Report) {
    && (forall o :: o in r.updated ==> o.path in After(log) && After(log)[o.path] == o.resource)
    && (forall p :: p in r.deleted ==> p !in After(log))
    && r.token == At(|log|)
    && match token
       case Blank => forall p :: p in After(log) ==> Reported(r, p)
       case At(n) => n <= |log| && forall p :: Touched(log, n, p) ==> Reported(r, p)
  }

  // ----- the local copy

  datatype Contact = Contact(etag: string, card: string)

  type Contacts = map<string, Contact>

  /** fromAddressObject. */
  function FromObject(r: Resource): Option<Contact> {
    match r.card
    case None => None
    case Some(card) => Some(Contact(TrimQuotes(r.etag), card))
  }

  /** The collection as a full local copy of it would be stored. */
  function Copy(m: Members): Contacts {
    map p | p in m && FromObject(m[p]).Some? :: FromObject(m[p]).value
  }

  /** The contact is stored if and only if it is a member with a readable card; then its
      card is that card, and the member's tag comes back by quoting the stored one, where
      that is a strong tag whose text is not empty and does not start with W/. */
  ghost predicate StoredAs(c: Contacts, m: Members, path: string) {
    && (path in c <==> path in m && m[path].card.Some?)
    && (path in c ==> m[path].card == Some(c[path].card))
    && (path in c ==> forall text :: m[path].etag == Strong(text) && PlainTag(text) ==> QuoteETag(c[path].etag) == m[path].etag)
  }

  predicate PlainTag(text: string) {
    text != "" && '"' !in text && !Bytes.HasPrefix(text, "W/")
  }

  ghost predicate Mirrors(c: Contacts, m: Members) {
    forall p :: StoredAs(c, m, p)
  }

  /** A full copy is stored like that. */
  lemma CopyMirrors(m: Members)
    ensures Mirrors(Copy(m), m)
  {
    forall p, text | p in Copy(m) && m[p].etag == Strong(text) && PlainTag(text)
      ensures QuoteETag(Copy(m)[p].etag) == m[p].etag
    {
      QuoteInvertsTrim(text);
    }
  }

  predicate Agree(a: Contacts, b: Contacts, path: string) {
    (path in a <==> path in b) && (path in a ==> a[path] == b[path])
  }

  datatype Write = Save(path: string, contact: Contact) | Drop(path: string)

  function WriteOne(c: Contacts, w: Write): Contacts {
    match w
    case Save(p, x) => c[p := x]
    case Drop(p) => c - {p}
  }

  function WriteAll(c: Contacts, ws: seq<Write>): Contacts {
    if ws == [] then c else WriteOne(WriteAll(c, ws[..|ws| - 1]), ws[|ws| - 1])
  }

  /** One unreadable card does not cost the sync: it is skipped. */
  function Saves(updated: seq<Object>): seq<Write> {
    if updated == [] then []
    else
      var o := updated[0];
      (match FromObject(o.resource) case None => [] case Some(c) => [Save(o.path, c)]) + Saves(updated[1..])
  }

  function Drops(deleted: seq<string>): seq<Write> {
    seq(|deleted|, i requires 0 <= i < |deleted| => Drop(deleted[i]))
  }

  function WritesOf(r: Report): seq<Write> {
    Saves(r.updated) + Drops(r.deleted)
  }

  ghost predicate Writes(ws: seq<Write>, path: string) {
    exists w :: w in ws && w.path == path
  }

  /** Every write makes the local copy agree with `now` where it writes. */
  ghost predicate Truthful(ws: seq<Write>, now: Contacts) {
    forall w :: w in ws ==> IsTrue(w, now)
  }

  predicate IsTrue(w: Write, now: Contacts) {
    match w
    case Save(p, c) => p in now && now[p] == c
    case Drop(p) => p !in now
  }

  lemma {:induction false} SavesHold(updated: seq<Object>)
    ensures forall w ::
      w in Saves(updated) <==> exists o :: o in updated && FromObject(o.resource).Some? && w == Save(o.path, FromObject(o.resource).value)
  {
    if updated != [] {
      SavesHold(updated[1..]);
      assert updated == [updated[0]] + updated[1..];
    }
  }

  lemma ReportTruthful(log: seq<Change>, token: Token, r: Report)
    requires Answers(log, token, r)
    ensures Truthful(WritesOf(r), Copy(After(log)))
  {
    SavesHold(r.updated);
    var now := Copy(After(log));
    forall w | w in WritesOf(r) ensures IsTrue(w, now) {
      if w in Saves(r.updated) {
        var o :| o in r.updated && FromObject(o.resource).Some? && w == Save(o.path, FromObject(o.resource).value);
        assert o.path in After(log);
      } else {
        var i :| 0 <= i < |Drops(r.deleted)| && Drops(r.deleted)[i] == w;
        assert r.deleted[i] in r.deleted;
      }
    }
  }

  /** Writing what is true makes the copy agree wherever something is written, and
      leaves it as it was elsewhere. */
  lemma {:induction false} WrittenAgrees(c: Contacts, ws: seq<Write>, now: Contacts, path: string)
    requires Truthful(ws, now)
    ensures if Writes(ws, path) then Agree(WriteAll(c, ws), now, path) else Agree(WriteAll(c, ws), c, path)
  {
    if ws != [] {
      var init, last := ws[..|ws| - 1], ws[|ws| - 1];
      assert ws == init + [last] && last in ws;
      WrittenAgrees(c, init, now, path);
    }
  }

  // ----- what one token keeps

  /** A copy from which the token leads on: wherever nothing changed since the
      token, it has what the server has. */
  ghost predicate Resumable(c: Contacts, log: seq<Change>, n: nat) {
    n <= |log| && forall p :: !Touched(log, n, p) ==> Agree(c, Copy(After(log)), p)
  }

  lemma {:induction false} UntouchedStays(log: seq<Change>, more: seq<Change>, n: nat, p: string)
    requires log <= more && |log| <= n + |log| && !Touched(more, |log|, p)
    ensures p in After(more) <==> p in After(log)
    ensures p in After(more) ==> After(more)[p] == After(log)[p]
    decreases |more|
  {
    if |log| < |more| {
      assert more[|more| - 1].path != p;
      UntouchedStays(log, more[..|more| - 1], n, p);
    } else {
      assert more == log;
    }
  }

  /** Other clients changing the collection takes nothing away. */
  lemma ResumableOn(c: Contacts, log: seq<Change>, more: seq<Change>, n: nat)
    requires Resumable(c, log, n) && log <= more
    ensures Resumable(c, more, n)
  {
    forall p | !Touched(more, n, p) ensures Agree(c, Copy(After(more)), p) {
      assert forall k :: n <= k < |log| ==> log[k] == more[k];
      assert !Touched(log, n, p);
      UntouchedStays(log, more, n, p);
    }
  }

  /** Nor does an attempt stopped after any number of its writes. */
  lemma StoppedStaysResumable(c: Contacts, log: seq<Change>, n: nat, r: Report, token: Token, k: nat)
    requires Resumable(c, log, n) && Answers(log, token, r) && k <= |WritesOf(r)|
    ensures Resumable(WriteAll(c, WritesOf(r)[..k]), log, n)
  {
    ReportTruthful(log, token, r);
    forall p | !Touched(log, n, p) ensures Agree(WriteAll(c, WritesOf(r)[..k]), Copy(After(log)), p) {
      WrittenAgrees(c, WritesOf(r)[..k], Copy(After(log)), p);
    }
  }

  lemma AgreeEverywhere(a: Contacts, b: Contacts)
    requires forall p :: Agree(a, b, p)
    ensures a == b
  {
    forall p ensures p in a <==> p in b {
      assert Agree(a, b, p);
    }
    forall p | p in a ensures a[p] == b[p] {
      assert Agree(a, b, p);
    }
    assert a.Keys == b.Keys;
  }

  /** What any completed attempt comes to, from any copy and on any report: the copy
      is the server's if and only if it was so wherever nothing is written. */
  lemma CompleteExactlyWhen(c: Contacts, log: seq<Change>, token: Token, r: Report)
    requires Answers(log, token, r)
    ensures WriteAll(c, WritesOf(r)) == Copy(After(log)) <==>
            forall p :: !Writes(WritesOf(r), p) ==> Agree(c, Copy(After(log)), p)
  {
    ReportTruthful(log, token, r);
    var done, now := WriteAll(c, WritesOf(r)), Copy(After(log));
    forall p ensures if Writes(WritesOf(r), p) then Agree(done, now, p) else Agree(done, c, p) {
      WrittenAgrees(c, WritesOf(r), now, p);
    }
    if forall p :: !Writes(WritesOf(r), p) ==> Agree(c, now, p) {
      forall p ensures Agree(done, now, p) {
        assert Writes(WritesOf(r), p) || Agree(c, now, p);
      }
      AgreeEverywhere(done, now);
    }
  }

  lemma ReportedIsWritten(r: Report, p: string)
    requires Reported(r, p)
    ensures Writes(WritesOf(r), p) || exists o :: o in r.updated && o.path == p && o.resource.card == None
  {
    SavesHold(r.updated);
    if p in r.deleted {
      var i :| 0 <= i < |r.deleted| && r.deleted[i] == p;
      assert Drops(r.deleted)[i] == Drop(p);
      assert Drop(p) in WritesOf(r);
    } else {
      var o :| o in r.updated && o.path == p;
      if o.resource.card.Some? {
        assert Save(p, FromObject(o.resource).value) in WritesOf(r);
      }
    }
  }

  /** A completed attempt on the token makes the copy equal to the server's if and
      only if no member whose card cannot be read now is stored. */
  lemma IncrementalCatchesUp(c: Contacts, log: seq<Change>, n: nat, r: Report)
    requires Resumable(c, log, n) && Answers(log, At(n), r)
    ensures WriteAll(c, WritesOf(r)) == Copy(After(log)) <==>
            forall p :: p in After(log) && After(log)[p].card == None ==> p !in c
    ensures (forall p :: p in After(log) && After(log)[p].card == None ==> p !in c) ==>
            Mirrors(WriteAll(c, WritesOf(r)), After(log))
  {
    CopyMirrors(After(log));
    CompleteExactlyWhen(c, log, At(n), r);
    var now := Copy(After(log));
    forall p | !Writes(WritesOf(r), p)
      ensures Agree(c, now, p) <==> (p in After(log) && After(log)[p].card == None ==> p !in c)
    {
      if Touched(log, n, p) {
        ReportedIsWritten(r, p);
      }
    }
    forall p | p in After(log) && After(log)[p].card == None && p in c ensures !Writes(WritesOf(r), p) {
      ReportTruthful(log, At(n), r);
      UnreadableUnwritten(log, At(n), r, p);
    }
  }

  lemma UnreadableUnwritten(log: seq<Change>, token: Token, r: Report, p: string)
    requires Answers(log, token, r) && p in After(log) && After(log)[p].card == None
    ensures !Writes(WritesOf(r), p)
  {
    SavesHold(r.updated);
    forall w | w in WritesOf(r) ensures w.path != p {
      if w in Saves(r.updated) {
        var x :| x in r.updated && FromObject(x.resource).Some? && w == Save(x.path, FromObject(x.resource).value);
      } else {
        var i :| 0 <= i < |Drops(r.deleted)| && Drops(r.deleted)[i] == w;
        assert r.deleted[i] in r.deleted;
      }
    }
  }

  /** A completed full read into an empty book is the server's collection. */
  lemma FullReadIsWhole(log: seq<Change>, r: Report)
    requires Answers(log, Blank, r)
    ensures WriteAll(map[], WritesOf(r)) == Copy(After(log))
    ensures Mirrors(WriteAll(map[], WritesOf(r)), After(log))
  {
    CopyMirrors(After(log));
    CompleteExactlyWhen(map[], log, Blank, r);
    forall p | p in Copy(After(log)) ensures Writes(WritesOf(r), p) {
      ReportedIsWritten(r, p);
    }
  }

  lemma EmptiedIsReported(log: seq<Change>, n: nat, r: Report)
    requires Answers(log, At(n), r)
    ensures WriteAll(map[], WritesOf(r)) == Copy(After(log)) <==> forall p :: p in Copy(After(log)) ==> Reported(r, p)
  {
    CompleteExactlyWhen(map[], log, At(n), r);
    SavesHold(r.updated);
    forall p | p in Copy(After(log)) ensures Reported(r, p) <==> Writes(WritesOf(r), p) {
      if Reported(r, p) {
        ReportedIsWritten(r, p);
      }
      if Writes(WritesOf(r), p) {
        WrittenIsReported(r, p);
      }
    }
  }

  /** A report of those changes and no others. */
  function Mentioning(m: Members, changes: seq<Change>, token: Token): Report {
    if changes == [] then Report([], [], token)
    else
      var p, r := changes[0].path, Mentioning(m, changes[1..], token);
      if p in m then r.(updated := [Object(p, m[p])] + r.updated) else r.(deleted := [p] + r.deleted)
  }

  lemma {:induction false} MentioningHolds(m: Members, changes: seq<Change>, token: Token)
    ensures var r := Mentioning(m, changes, token);
            && r.token == token
            && (forall o :: o in r.updated ==> o.path in m && m[o.path] == o.resource)
            && (forall p :: p in r.deleted ==> p !in m)
            && (forall p :: Reported(r, p) <==> exists k :: 0 <= k < |changes| && changes[k].path == p)
  {
    if changes != [] {
      var rest := changes[1..];
      MentioningHolds(m, rest, token);
      var r, tail := Mentioning(m, changes, token), Mentioning(m, rest, token);
      forall p ensures Reported(r, p) <==> p == changes[0].path || Reported(tail, p) {
      }
      assert forall k :: 0 < k < |changes| ==> changes[k] == rest[k - 1];
      assert forall k :: 0 <= k < |rest| ==> rest[k] == changes[k + 1];
    }
  }

  /** A server may answer a token with what was touched since and no more. */
  lemma LeastReport(log: seq<Change>, n: nat) returns (r: Report)
    requires n <= |log|
    ensures Answers(log, At(n), r)
    ensures forall p :: Reported(r, p) <==> Touched(log, n, p)
  {
    r := Mentioning(After(log), log[n..], At(|log|));
    MentioningHolds(After(log), log[n..], At(|log|));
    assert forall k :: n <= k < |log| ==> log[k] == log[n..][k - n];
    assert forall k :: 0 <= k < |log[n..]| ==> log[n..][k] == log[n + k];
  }

  ghost predicate Restores(log: seq<Change>, n: nat, r: Report) {
    Answers(log, At(n), r) ==> WriteAll(map[], WritesOf(r)) == Copy(After(log))
  }

  ghost predicate EveryContactTouched(log: seq<Change>, n: nat) {
    forall p :: p in Copy(After(log)) ==> Touched(log, n, p)
  }

  /** A book emptied for a full read that then failed, with the old token still
      recorded: the next attempt that completes on it makes the book whole again,
      whatever the server answers, if and only if every contact was touched since the
      token. */
  lemma EmptiedBookExactlyWhen(log: seq<Change>, n: nat)
    requires n <= |log|
    ensures (forall r :: Restores(log, n, r)) <==> EveryContactTouched(log, n)
  {
    var least := LeastReport(log, n);
    EmptiedIsReported(log, n, least);
    if EveryContactTouched(log, n) {
      forall r ensures Restores(log, n, r) {
        if Answers(log, At(n), r) {
          EmptiedIsReported(log, n, r);
        }
      }
    } else {
      assert !Restores(log, n, least);
    }
  }

  lemma WrittenIsReported(r: Report, p: string)
    requires Writes(WritesOf(r), p)
    ensures Reported(r, p)
  {
    SavesHold(r.updated);
    var w :| w in WritesOf(r) && w.path == p;
    if w in Saves(r.updated) {
      var x :| x in r.updated && FromObject(x.resource).Some? && w == Save(x.path, FromObject(x.resource).value);
    } else {
      var i :| 0 <= i < |Drops(r.deleted)| && Drops(r.deleted)[i] == w;
      assert r.deleted[i] in r.deleted;
    }
  }

  // ----- the attempt

  datatype Reply = Refused | Answered(report: Report)

  /** The stored book. A store write may fail, and after a crash or a cancelled
      context none works. */
  class Book {
    var contacts: Contacts
    var token: Token
    var failed: bool
    var faults: seq<bool>

    constructor (contacts: Contacts, token: Token, faults: seq<bool>)
      ensures this.contacts == contacts && this.token == token && this.faults == faults
    {
      this.contacts, this.token, this.failed, this.faults := contacts, token, false, faults;
    }

    method Works() returns (ok: bool)
      modifies this`faults
      ensures old(faults) == [] ==> faults == [] && ok
    {
      ok := true;
      if faults != [] {
        ok, faults := !faults[0], faults[1..];
      }
    }

    method Perform(w: Write) returns (ok: bool)
      modifies this`contacts, this`faults
      ensures contacts == if ok then WriteOne(old(contacts), w) else old(contacts)
      ensures old(faults) == [] ==> faults == [] && ok
    {
      ok := Works();
      if ok {
        contacts := WriteOne(contacts, w);
      }
    }

    method Clear() returns (ok: bool)
      modifies this`contacts, this`faults
      ensures contacts == if ok then map[] else old(contacts)
      ensures old(faults) == [] ==> faults == [] && ok
    {
      ok := Works();
      if ok {
        contacts := map[];
      }
    }

    /** RecordAddressBookSync: the token on success, and only the error on failure. */
    method Record(result: Option<Token>) returns (ok: bool)
      modifies this`token, this`failed, this`faults
      ensures token == if ok && result.Some? then result.value else old(token)
      ensures failed == if ok then result == None else old(failed)
      ensures old(faults) == [] ==> faults == [] && ok
    {
      ok := Works();
      if ok {
        failed := result == None;
        if result.Some? {
          token := result.value;
        }
      }
    }
  }

  /** Client.Sync: the readable contacts of a report. */
  method ReadUpdated(updated: seq<Object>) returns (out: seq<Write>)
    ensures out == Saves(updated)
  {
    out := [];
    var k := 0;
    assert updated[0..] == updated;
    while k < |updated|
      invariant 0 <= k <= |updated|
      invariant out + Saves(updated[k..]) == Saves(updated)
    {
      var c := FromObject(updated[k].resource);
      SavesStep(out, updated, k);
      if c.Some? {
        out := out + [Save(updated[k].path, c.value)];
      }
      k := k + 1;
    }
    assert out + [] == out;
  }

  lemma SavesStep(out: seq<Write>, updated: seq<Object>, k: nat)
    requires k < |updated|
    ensures var c := FromObject(updated[k].resource);
            out + Saves(updated[k..]) == (if c.Some? then out + [Save(updated[k].path, c.value)] else out) + Saves(updated[k + 1..])
  {
    assert updated[k..][1..] == updated[k + 1..];
    var c, rest := FromObject(updated[k].resource), Saves(updated[k + 1..]);
    if c.Some? {
      assert out + ([Save(updated[k].path, c.value)] + rest) == (out + [Save(updated[k].path, c.value)]) + rest;
    } else {
      assert [] + rest == rest;
    }
  }

  /** The book after some of a report's writes, with the token as it was. */
  ghost predicate StoppedIn(before: Contacts, after: Contacts, reply: Reply) {
    match reply
    case Refused => after == before
    case Answered(r) => Stopped(before, after, WritesOf(r))
  }

  /** syncAddressBookOnce. */
  method SyncOnce(book: Book, reply: Reply) returns (ok: bool)
    modifies book
    ensures ok ==>
      reply.Answered? && book.contacts == WriteAll(old(book.contacts), WritesOf(reply.report)) && book.token == reply.report.token && !book.failed
    ensures !ok ==>
      StoppedIn(old(book.contacts), book.contacts, reply) && book.token == old(book.token) && book.failed == old(book.failed)
    ensures old(book.faults) == [] ==> book.faults == [] && (ok <==> reply.Answered?)
  {
    if reply.Refused? {
      return false;
    }
    ghost var all := WritesOf(reply.report);
    var saves := ReadUpdated(reply.report.updated);
    ok := SaveAll(book, saves, all);
    if ok {
      ok := DropAll(book, reply.report.deleted, all, old(book.contacts), |saves|);
    }
    if ok {
      ok := book.Record(Some(reply.report.token));
    }
  }

  ghost predicate Stopped(before: Contacts, after: Contacts, all: seq<Write>) {
    exists k :: 0 <= k <= |all| && after == WriteAll(before, all[..k])
  }

  method SaveAll(book: Book, saves: seq<Write>, ghost all: seq<Write>) returns (ok: bool)
    requires |saves| <= |all| && saves == all[..|saves|]
    modifies book
    ensures book.token == old(book.token) && book.failed == old(book.failed)
    ensures ok ==> book.contacts == WriteAll(old(book.contacts), all[..|saves|])
    ensures Stopped(old(book.contacts), book.contacts, all)
    ensures old(book.faults) == [] ==> book.faults == [] && ok
  {
    var k := 0;
    while k < |saves|
      invariant 0 <= k <= |saves|
      invariant book.contacts == WriteAll(old(book.contacts), all[..k]) && book.token == old(book.token)
      invariant book.failed == old(book.failed)
      invariant old(book.faults) == [] ==> book.faults == []
    {
      NextWrite(old(book.contacts), all, k);
      ok := book.Perform(saves[k]);
      if !ok {
        return;
      }
      k := k + 1;
    }
    ok := true;
  }

  method DropAll(book: Book, deleted: seq<string>, ghost all: seq<Write>, ghost before: Contacts, ghost n: nat)
    returns (ok: bool)
    requires n <= |all| && all[n..] == Drops(deleted) && book.contacts == WriteAll(before, all[..n])
    modifies book
    ensures book.token == old(book.token) && book.failed == old(book.failed)
    ensures ok ==> book.contacts == WriteAll(before, all)
    ensures Stopped(before, book.contacts, all)
    ensures old(book.faults) == [] ==> book.faults == [] && ok
  {
    var j := 0;
    assert |all| == n + |all[n..]|;
    while j < |deleted|
      invariant 0 <= j <= |deleted| && |all| == n + |deleted|
      invariant book.contacts == WriteAll(before, all[..n + j]) && book.token == old(book.token)
      invariant book.failed == old(book.failed)
      invariant old(book.faults) == [] ==> book.faults == []
    {
      NextWrite(before, all, n + j);
      ok := book.Perform(Drop(deleted[j]));
      if !ok {
        return;
      }
      j := j + 1;
    }
    assert all[..n + j] == all;
    ok := true;
  }

  lemma NextWrite(c: Contacts, ws: seq<Write>, k: nat)
    requires k < |ws|
    ensures WriteAll(c, ws[..k + 1]) == WriteOne(WriteAll(c, ws[..k]), ws[k])
  {
    assert ws[..k + 1][..k] == ws[..k];
  }

  /** syncAddressBook. `cancelled` and `cancelledLater` are what ctx.Err() says after
      the first and the second request; `emptied` tells that the book was cleared. */
  method SyncAddressBook(book: Book, first: Reply, cancelled: bool, second: Reply, cancelledLater: bool)
    returns (ok: bool, emptied: bool)
    modifies book
    ensures ok && !emptied ==>
      first.Answered? && book.contacts == WriteAll(old(book.contacts), WritesOf(first.report)) && book.token == first.report.token
    ensures ok && emptied ==>
      second.Answered? && book.contacts == WriteAll(map[], WritesOf(second.report)) && book.token == second.report.token
    ensures !ok ==> book.token == old(book.token)
    ensures !ok && !emptied ==> StoppedIn(old(book.contacts), book.contacts, first)
    ensures !ok && emptied ==> StoppedIn(map[], book.contacts, second)
    ensures emptied ==> !cancelled && old(book.token) != Blank
    ensures ok ==> !book.failed
    ensures old(book.faults) == [] && !ok ==>
      book.failed == (old(book.failed) || !(if emptied then cancelledLater else cancelled))
    ensures old(book.faults) == [] ==>
      && book.faults == []
      && (emptied <==> first == Refused && old(book.token) != Blank && !cancelled)
      && (ok <==> if emptied then second.Answered? else first.Answered?)
  {
    emptied := false;
    ok := SyncOnce(book, first);
    if !ok && book.token != Blank && !cancelled {
      var cleared := book.Clear();
      if !cleared {
        return;
      }
      emptied := true;
      ok := SyncOnce(book, second);
    }
    if !ok && !(if emptied then cancelledLater else cancelled) {
      var _ := book.Record(None);
    }
  }

  // ----- at two inputs

  function OneContact(now: Resource): seq<Change> {
    [Change("a", Some(now))]
  }

  lemma OneMember(now: Resource)
    ensures After(OneContact(now)) == map["a" := now]
  {
    assert OneContact(now)[..0] == [];
  }

  /** A full read that fails after the token was refused, then a sync on the token: it
      succeeds, and the contact is gone here while the server still has it. */
  method FailedFallbackLosesTheContact(card: string) returns (book: Book, ok: bool)
    ensures ok && book.contacts == map[] && book.token == At(1)
    ensures "a" in Copy(After(OneContact(Resource("1", Some(card)))))
  {
    ghost var log := OneContact(Resource("1", Some(card)));
    OneMember(Resource("1", Some(card)));
    book := new Book(map["a" := Contact(TrimQuotes("1"), card)], At(1), []);
    assert book.contacts == Copy(After(log));
    var emptied;
    ok, emptied := SyncAddressBook(book, Refused, false, Refused, false);
    assert emptied && StoppedIn(map[], book.contacts, Refused);
    var reply := Report([], [], At(1));
    assert Answers(log, At(1), reply) && WritesOf(reply) == [];
    ok, emptied := SyncAddressBook(book, Answered(reply), false, Refused, false);
  }

  /** A first full read of one member stores its card and its tag, without the quotes. */
  method FirstRead(card: string) returns (book: Book, ok: bool)
    ensures ok && book.contacts == map["a" := Contact("v1", card)] && book.token == At(1)
    ensures Answers(OneContact(Resource(Strong("v1"), Some(card))), Blank, Report([Object("a", Resource(Strong("v1"), Some(card)))], [], At(1)))
  {
    ghost var log := OneContact(Resource(Strong("v1"), Some(card)));
    OneMember(Resource(Strong("v1"), Some(card)));
    var reply := Report([Object("a", Resource(Strong("v1"), Some(card)))], [], At(1));
    assert reply.updated[0].path == "a" && reply.updated[0] in reply.updated;
    assert Reported(reply, "a");
    book := new Book(map[], Blank, []);
    var emptied;
    ok, emptied := SyncAddressBook(book, Answered(reply), false, Refused, false);
    TrimOfStrong("v1");
    assert reply.updated[1..] == [];
    assert FromObject(Resource(Strong("v1"), Some(card))) == Some(Contact("v1", card));
    assert Saves([]) == [] && Saves(reply.updated) == [Save("a", Contact("v1", card))] + Saves(reply.updated[1..]);
    assert Drops(reply.deleted) == [];
    assert WritesOf(reply) == [Save("a", Contact("v1", card))];
    assert WritesOf(reply)[..0] == [];
  }

  /** A card replaced on the server by one that cannot be read stays as it was here. */
  lemma UnreadableStays(card: string)
    ensures var log := OneContact(Resource("1", Some(card))) + OneContact(Resource("2", None));
            var c, r := map["a" := Contact(TrimQuotes("1"), card)], Report([Object("a", Resource("2", None))], [], At(2));
            && Resumable(c, log, 1) && Answers(log, At(1), r)
            && WriteAll(c, WritesOf(r)) == c && Copy(After(log)) == map[]
  {
    var first, second := OneContact(Resource("1", Some(card))), OneContact(Resource("2", None));
    var log := first + second;
    OneMember(Resource("1", Some(card)));
    assert log[..1] == first && log[1] == second[0];
    assert After(log) == map["a" := Resource("2", None)];
    assert Touched(log, 1, "a");
    forall p | !Touched(log, 1, p) ensures p != "a" {
    }
  }

  // ----- runs

  /** One attempt: what the log was when each request was made, and what the server
      answers to a token. */
  datatype Attempt = Attempt(log: seq<Change>, first: Token -> Reply, cancelled: bool, later: seq<Change>, second: Reply, cancelledLater: bool)

  ghost predicate Sound(a: Attempt) {
    && a.log <= a.later
    && (forall t: Token :: a.first(t).Answered? ==> Answers(a.log, t, a.first(t).report))
    && (a.second.Answered? ==> Answers(a.later, Blank, a.second.report))
  }

  ghost predicate Legible(log: seq<Change>) {
    forall k :: 0 <= k < |log| && log[k].now.Some? ==> log[k].now.value.card.Some?
  }

  ghost predicate InLine(contacts: Contacts, token: Token, log: seq<Change>) {
    token.At? && Resumable(contacts, log, token.version)
  }

  lemma {:induction false} LegibleMembers(log: seq<Change>)
    requires Legible(log)
    ensures forall p :: p in After(log) ==> After(log)[p].card.Some?
  {
    if log != [] {
      LegibleMembers(log[..|log| - 1]);
    }
  }

  /** An attempt on a book in line with an earlier log. Completed, it equals the
      server's at the token it recorded; stopped without emptying the book, it is
      still in line. */
  lemma AttemptOutcome(before: Contacts, token: Token, since: seq<Change>, a: Attempt, after: Contacts)
    requires InLine(before, token, since) && since <= a.log && Sound(a) && Legible(a.later)
    ensures var first := a.first(token);
            && (first.Answered? && after == WriteAll(before, WritesOf(first.report)) ==> after == Copy(After(a.log)) && first.report.token == At(|a.log|))
            && (StoppedIn(before, after, first) ==> InLine(after, token, a.log))
  {
    ResumableOn(before, since, a.log, token.version);
    LegibleMembers(a.log);
    var first := a.first(token);
    if first.Answered? {
      IncrementalCatchesUp(before, a.log, token.version, first.report);
      if StoppedIn(before, after, first) {
        var k :| 0 <= k <= |WritesOf(first.report)| && after == WriteAll(before, WritesOf(first.report)[..k]);
        StoppedStaysResumable(before, a.log, token.version, first.report, token, k);
      }
    }
  }

  ghost predicate Ordered(start: seq<Change>, attempts: seq<Attempt>) {
    && (forall k :: 0 <= k < |attempts| ==> Sound(attempts[k]) && Legible(attempts[k].later) && start <= attempts[k].log)
    && (forall j, k :: 0 <= j < k < |attempts| ==> attempts[j].later <= attempts[k].log)
  }

  /** Attempt after attempt, each completed or stopped anywhere, with the server
      changing in between. `whole` turns false when an attempt empties the book and
      does not read it again to the end, and true when one does read it to the end.
      While it is true the book stays in line, and a completed attempt leaves it
      equal to the server's at the token recorded. */
  method Keep(book: Book, attempts: seq<Attempt>, ghost start: seq<Change>)
    returns (ok: bool, whole: bool, ghost log: seq<Change>)
    requires InLine(book.contacts, book.token, start) && Ordered(start, attempts)
    modifies book
    ensures whole ==> InLine(book.contacts, book.token, log)
    ensures ok && whole ==> book.contacts == Copy(After(log)) && book.token == At(|log|)
    ensures ok && whole ==> Mirrors(book.contacts, After(log))
  {
    ok, whole, log := false, true, start;
    var k := 0;
    while k < |attempts|
      invariant 0 <= k <= |attempts|
      invariant k == 0 ==> log == start
      invariant k > 0 ==> log <= attempts[k - 1].later
      invariant whole ==> InLine(book.contacts, book.token, log)
      invariant ok && whole ==> book.contacts == Copy(After(log)) && book.token == At(|log|)
    {
      var a := attempts[k];
      ghost var before, token := book.contacts, book.token;
      var emptied;
      ok, emptied := SyncAddressBook(book, a.first(book.token), a.cancelled, a.second, a.cancelledLater);
      if whole {
        AttemptOutcome(before, token, log, a, book.contacts);
      }
      if ok && emptied {
        FullReadIsWhole(a.later, a.second.report);
      }
      log := if ok && emptied then a.later else a.log;
      whole := (ok && emptied) || (whole && !emptied);
      k := k + 1;
    }
    CopyMirrors(After(log));
  }
}
