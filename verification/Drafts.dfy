/** The local drafts: their ids, their Message-IDs and what of a sealed draft is
    stored (internal/desktop/bind_compose.go). Sealing itself, the clock and fresh
    Message-IDs come in as parameters. */
module Drafts {
  import Bytes
  import opened Options
  import Protection

  /** The largest id a JavaScript number holds exactly. */
  const MAX_SAFE_ID: int := 0x1f_ffff_ffff_ffff

  /** `rest` stands for the subject, the recipients, the text and the attachments. */
  datatype Request = Request(account: int, protection: string, messageId: string, rest: string)

  datatype Draft = Draft(id: int, savedAt: string, request: Request, sealed: string, account: int, protection: string)

  // ----- ids

  predicate Safe(d: Draft) {
    d.id <= MAX_SAFE_ID
  }

  predicate AllSafe(s: seq<Draft>) {
    forall k :: 0 <= k < |s| ==> Safe(s[k])
  }

  predicate DistinctIds(s: seq<Draft>) {
    forall i, j :: 0 <= i < j < |s| ==> s[i].id != s[j].id
  }

  predicate SafeIdsDistinct(s: seq<Draft>) {
    forall i, j :: 0 <= i < j < |s| && Safe(s[i]) && Safe(s[j]) ==> s[i].id != s[j].id
  }

  function Max(a: int, b: int): int {
    if a < b then b else a
  }

  function HighestSafe(s: seq<Draft>): int {
    if s == [] then 0
    else
      var last := s[|s| - 1];
      if Safe(last) then Max(HighestSafe(s[..|s| - 1]), last.id) else HighestSafe(s[..|s| - 1])
  }

  function Highest(s: seq<Draft>): int {
    if s == [] then 0 else Max(Highest(s[..|s| - 1]), s[|s| - 1].id)
  }

  function CountUnsafe(s: seq<Draft>): nat {
    if s == [] then 0 else CountUnsafe(s[..|s| - 1]) + if Safe(s[|s| - 1]) then 0 else 1
  }

  /** The k-th unsafe draft gets the id base + k; all else stays. */
  function Renumber(s: seq<Draft>, base: int): (r: seq<Draft>)
    ensures |r| == |s|
  {
    if s == [] then []
    else
      var last := s[|s| - 1];
      Renumber(s[..|s| - 1], base) + [if Safe(last) then last else last.(id := base + CountUnsafe(s))]
  }

  function Renumbered(s: seq<Draft>): seq<Draft> {
    Renumber(s, HighestSafe(s))
  }

  /** nextDraftID. */
  method NextDraftID(s: seq<Draft>) returns (next: int)
    ensures next == Highest(s) + 1
  {
    var highest, k := 0, 0;
    while k < |s|
      invariant 0 <= k <= |s|
      invariant highest == Highest(s[..k])
    {
      assert s[..k + 1][..k] == s[..k];
      highest := Max(highest, s[k].id);
      k := k + 1;
    }
    assert s[..k] == s;
    next := highest + 1;
  }

  /** The highest id a JavaScript number can hold. */
  method HighestSafeID(drafts: array<Draft>) returns (next: int)
    ensures next == HighestSafe(drafts[..])
  {
    next := 0;
    var k := 0;
    while k < drafts.Length
      invariant 0 <= k <= drafts.Length
      invariant next == HighestSafe(drafts[..k])
    {
      assert drafts[..k + 1][..k] == drafts[..k];
      if Safe(drafts[k]) {
        next := Max(next, drafts[k].id);
      }
      k := k + 1;
    }
    assert drafts[..k] == drafts[..];
  }

  function Fixed(d: Draft, id: int): Draft {
    if Safe(d) then d else d.(id := id)
  }

  lemma RenumberStep(s: seq<Draft>, k: nat, base: int)
    requires k < |s|
    ensures CountUnsafe(s[..k + 1]) == CountUnsafe(s[..k]) + if Safe(s[k]) then 0 else 1
    ensures Renumber(s[..k + 1], base) == Renumber(s[..k], base) + [Fixed(s[k], base + CountUnsafe(s[..k + 1]))]
    ensures AllSafe(s[..k + 1]) <==> AllSafe(s[..k]) && Safe(s[k])
  {
    assert s[..k + 1][..k] == s[..k];
    assert forall j :: 0 <= j < k ==> s[..k + 1][j] == s[..k][j];
    assert s[..k + 1][k] == s[k];
  }

  /** The loop after k drafts. */
  ghost predicate RenumberedTo(s: seq<Draft>, k: nat, base: int, now: seq<Draft>, next: int, changed: bool) {
    && k <= |s| && now == Renumber(s[..k], base) + s[k..]
    && next == base + CountUnsafe(s[..k]) && (changed <==> !AllSafe(s[..k]))
  }

  lemma NextRenumbered(s: seq<Draft>, k: nat, base: int, now: seq<Draft>, next: int, changed: bool)
    requires RenumberedTo(s, k, base, now, next, changed) && k < |s|
    ensures |now| == |s| && now[k] == s[k]
    ensures RenumberedTo(s, k + 1, base, now[k := Fixed(s[k], next + 1)], if Safe(s[k]) then next else next + 1, changed || !Safe(s[k]))
  {
    RenumberStep(s, k, base);
    var done, d := Renumber(s[..k], base), Fixed(s[k], next + 1);
    assert (done + s[k..])[k := d] == (done + [d]) + s[k + 1..];
  }

  lemma AllRenumbered(s: seq<Draft>, base: int, now: seq<Draft>, next: int, changed: bool)
    requires RenumberedTo(s, |s|, base, now, next, changed)
    ensures now == Renumber(s, base) && (changed <==> !AllSafe(s))
  {
    assert s[..|s|] == s && Renumber(s, base) + s[|s|..] == Renumber(s, base);
  }

  /** renumberUnsafeDraftIDs, in place. */
  method RenumberUnsafeDraftIDs(drafts: array<Draft>) returns (changed: bool)
    modifies drafts
    ensures drafts[..] == Renumbered(old(drafts[..]))
    ensures changed <==> !AllSafe(old(drafts[..]))
  {
    ghost var s := drafts[..];
    var next := HighestSafeID(drafts);
    ghost var base := next;
    var k := 0;
    changed := false;
    assert Renumber([], base) + s == s && s[..0] == [];
    while k < drafts.Length
      invariant 0 <= k <= drafts.Length
      invariant RenumberedTo(s, k, base, drafts[..], next, changed)
    {
      NextRenumbered(s, k, base, drafts[..], next, changed);
      ghost var now := drafts[..];
      assert drafts[k] == now[k];
      if !Safe(drafts[k]) {
        next := next + 1;
        drafts[k] := drafts[k].(id := next);
        changed := true;
      }
      assert drafts[..] == now[k := drafts[k]];
      k := k + 1;
    }
    AllRenumbered(s, base, drafts[..], next, changed);
  }

  lemma {:induction false} RenumberAt(s: seq<Draft>, base: int, k: nat)
    requires k < |s|
    ensures |Renumber(s, base)| == |s|
    ensures Renumber(s, base)[k] == if Safe(s[k]) then s[k] else s[k].(id := base + CountUnsafe(s[..k + 1]))
  {
    var init := s[..|s| - 1];
    if k < |init| {
      RenumberAt(init, base, k);
      assert init[..k + 1] == s[..k + 1];
    } else {
      assert s[..k + 1] == s;
      if init != [] {
        RenumberAt(init, base, 0);
      }
    }
  }

  lemma {:induction false} CountGrows(s: seq<Draft>, i: nat, j: nat)
    requires i <= j <= |s|
    ensures CountUnsafe(s[..i]) <= CountUnsafe(s[..j])
    ensures i < j && !Safe(s[j - 1]) ==> CountUnsafe(s[..i]) < CountUnsafe(s[..j])
    decreases j
  {
    if i < j {
      assert s[..j][..j - 1] == s[..j - 1];
      CountGrows(s, i, j - 1);
    }
  }

  lemma {:induction false} HighestSafeBounds(s: seq<Draft>)
    ensures 0 <= HighestSafe(s) <= MAX_SAFE_ID
    ensures forall k :: 0 <= k < |s| && Safe(s[k]) ==> s[k].id <= HighestSafe(s)
  {
    if s != [] {
      HighestSafeBounds(s[..|s| - 1]);
      assert forall k :: 0 <= k < |s| - 1 ==> s[..|s| - 1][k] == s[k];
    }
  }

  lemma {:induction false} HighestBounds(s: seq<Draft>)
    ensures 0 <= Highest(s)
    ensures forall k :: 0 <= k < |s| ==> s[k].id <= Highest(s)
    ensures Highest(s) == 0 || exists k :: 0 <= k < |s| && s[k].id == Highest(s)
  {
    if s != [] {
      var init := s[..|s| - 1];
      HighestBounds(init);
      assert forall k :: 0 <= k < |init| ==> init[k] == s[k];
    }
  }

  /** Renumbering keeps the length, the order, every other field and every safe id. */
  lemma RenumberedKeeps(s: seq<Draft>, k: nat)
    requires k < |s|
    ensures |Renumbered(s)| == |s|
    ensures Renumbered(s)[k].(id := s[k].id) == s[k]
    ensures Safe(s[k]) ==> Renumbered(s)[k] == s[k]
    ensures !Safe(s[k]) ==> HighestSafe(s) < Renumbered(s)[k].id <= HighestSafe(s) + CountUnsafe(s)
  {
    RenumberAt(s, HighestSafe(s), k);
    assert s[..|s|] == s;
    CountGrows(s, k + 1, |s|);
    CountGrows(s, 0, k + 1);
  }

  /** Afterwards all ids are distinct if and only if the safe ones were. */
  lemma RenumberedDistinctExactlyWhen(s: seq<Draft>)
    ensures DistinctIds(Renumbered(s)) <==> SafeIdsDistinct(s)
  {
    var r, base := Renumbered(s), HighestSafe(s);
    HighestSafeBounds(s);
    if s != [] {
      RenumberedKeeps(s, 0);
    }
    forall i, j | 0 <= i < j < |s| ensures r[i].id == r[j].id <==> Safe(s[i]) && Safe(s[j]) && s[i].id == s[j].id {
      RenumberAt(s, base, i);
      RenumberAt(s, base, j);
      RenumberedKeeps(s, i);
      RenumberedKeeps(s, j);
      CountGrows(s, i + 1, j + 1);
    }
  }

  /** Afterwards all ids are safe if and only if there was room above the highest. */
  lemma RenumberedSafeExactlyWhen(s: seq<Draft>)
    ensures AllSafe(Renumbered(s)) <==> HighestSafe(s) + CountUnsafe(s) <= MAX_SAFE_ID
  {
    var r := Renumbered(s);
    HighestSafeBounds(s);
    forall k | 0 <= k < |s| {
      RenumberedKeeps(s, k);
    }
    if s != [] {
      if MAX_SAFE_ID < HighestSafe(s) + CountUnsafe(s) {
        var k := LastUnsafe(s);
        RenumberAt(s, HighestSafe(s), k);
        assert !Safe(r[k]);
      }
    }
  }

  lemma {:induction false} LastUnsafe(s: seq<Draft>) returns (k: nat)
    requires CountUnsafe(s) > 0
    ensures k < |s| && !Safe(s[k]) && CountUnsafe(s[..k + 1]) == CountUnsafe(s)
  {
    if Safe(s[|s| - 1]) {
      k := LastUnsafe(s[..|s| - 1]);
      assert s[..|s| - 1][..k + 1] == s[..k + 1];
    } else {
      k := |s| - 1;
      assert s[..k + 1] == s;
    }
  }

  /** A second time changes nothing. */
  lemma RenumberedAgain(s: seq<Draft>)
    requires AllSafe(s)
    ensures Renumbered(s) == s
  {
    if s != [] {
      RenumberAt(s, HighestSafe(s), 0);
    }
    forall k | 0 <= k < |s| ensures Renumbered(s)[k] == s[k] {
      RenumberedKeeps(s, k);
    }
  }

  /** The next id is new, positive, and safe itself if and only if all ids are below
      the largest safe one. */
  lemma NextIsFresh(s: seq<Draft>)
    ensures forall k :: 0 <= k < |s| ==> s[k].id < Highest(s) + 1
    ensures 0 < Highest(s) + 1
    ensures Highest(s) + 1 <= MAX_SAFE_ID <==> forall k :: 0 <= k < |s| ==> s[k].id < MAX_SAFE_ID
  {
    HighestBounds(s);
  }

  // ----- what a draft keeps

  /** All that stays in the clear of a sealed draft. */
  function Bare(account: int, protection: string, messageId: string): Request {
    Request(account, protection, messageId, "")
  }

  /** A draft is sealed exactly when its protection encrypts; then its request is
      bare, and otherwise it has a Message-ID. */
  predicate Proper(d: Draft) {
    && (d.sealed != "" <==> Protection.Encrypts(d.protection))
    && d.request.account == d.account && d.request.protection == d.protection
    && (d.sealed != "" ==> d.request == Bare(d.account, d.protection, d.request.messageId))
    && (d.sealed == "" ==> d.request.messageId != "")
  }

  predicate Good(s: seq<Draft>) {
    && DistinctIds(s)
    && forall k :: 0 <= k < |s| ==> 0 < s[k].id <= MAX_SAFE_ID && Proper(s[k])
  }

  predicate Lists(s: seq<Draft>, id: int) {
    exists k :: 0 <= k < |s| && s[k].id == id
  }

  function IndexOf(s: seq<Draft>, id: int): (k: int)
    ensures k == -1 <==> !Lists(s, id)
    ensures k == -1 || (0 <= k < |s| && s[k].id == id)
  {
    if s == [] then -1
    else if s[0].id == id then 0
    else
      var k := IndexOf(s[1..], id);
      assert Lists(s, id) ==> Lists(s[1..], id) by {
        if Lists(s, id) {
          var j :| 0 <= j < |s| && s[j].id == id;
          assert s[1..][j - 1].id == id;
        }
      }
      assert k != -1 ==> s[k + 1].id == id;
      if k == -1 then -1 else k + 1
  }

  /** The list without the drafts of that id. */
  function Without(s: seq<Draft>, id: int): seq<Draft> {
    if s == [] then []
    else Without(s[..|s| - 1], id) + if s[|s| - 1].id == id then [] else [s[|s| - 1]]
  }

  lemma {:induction false} WithoutHolds(s: seq<Draft>, id: int)
    ensures forall d :: d in Without(s, id) <==> d in s && d.id != id
    ensures DistinctIds(s) ==> DistinctIds(Without(s, id))
  {
    if s != [] {
      var init, last := s[..|s| - 1], s[|s| - 1];
      assert s == init + [last];
      WithoutHolds(init, id);
      forall k | 0 <= k < |Without(init, id)| ensures DistinctIds(s) ==> Without(init, id)[k].id != last.id {
        assert Without(init, id)[k] in init;
      }
    }
  }

  // ----- a Message-ID from the composer

  predicate BadChar(c: char) {
    c <= ' ' || c == '\U{7f}' || c == '<' || c == '>' || c == '@'
  }

  predicate AllFine(s: string) {
    forall k :: 0 <= k < |s| ==> !BadChar(s[k])
  }

  /** checkMessageID: cut at the brackets, and then at the first @. */
  predicate CheckMessageID(id: string) {
    if id == "" || id[0] != '<' || |id| < 2 || id[|id| - 1] != '>' then false
    else
      var inner := id[1..|id| - 1];
      var at := Bytes.Index(inner, "@");
      0 < at && at + 1 < |inner| && AllFine(inner[..at]) && AllFine(inner[at + 1..])
  }

  function MessageId(local: string, domain: string): string {
    "<" + (local + ("@" + (domain + ">")))
  }

  predicate FineText(s: string) {
    s != "" && forall k :: 0 <= k < |s| ==> ' ' < s[k] && s[k] != '\U{7f}' && s[k] != '<' && s[k] != '>' && s[k] != '@'
  }

  lemma FirstAt(local: string, domain: string)
    requires '@' !in local
    ensures Bytes.Index(local + ("@" + domain), "@") == |local|
  {
    var inner := local + ("@" + domain);
    assert Bytes.OccursAt("@" + domain, "@", 0) by {
      assert Bytes.OccursAt("@", "@", 0);
      Bytes.OccursInLeft("@", domain, "@", 0);
    }
    Bytes.OccursInRight(local, "@" + domain, "@", |local|);
    Bytes.IndexFromIsFirst(inner, "@", 0, |local|);
    Bytes.IndexFromOccurs(inner, "@", 0);
    var at := Bytes.Index(inner, "@");
    Bytes.OccursPointwise(inner, "@", at);
    assert forall k :: 0 <= k < |local| ==> inner[k] == local[k] != '@';
    assert inner[at] == '@';
  }

  lemma CutAtFirst(inner: string)
    requires 0 <= Bytes.Index(inner, "@")
    ensures var at := Bytes.Index(inner, "@");
            at < |inner| && inner == inner[..at] + ("@" + inner[at + 1..])
  {
    Bytes.IndexFromOccurs(inner, "@", 0);
    Bytes.OccursPointwise(inner, "@", Bytes.Index(inner, "@"));
  }

  lemma Bracketed(inner: string)
    ensures var id := "<" + (inner + ">"); id[1..|id| - 1] == inner && id[0] == '<' && id[|id| - 1] == '>'
  {
    var id := "<" + (inner + ">");
    assert id[1..] == inner + ">";
    assert id[|id| - 1] == (inner + ">")[|inner|];
  }

  lemma MessageIdPasses(local: string, domain: string)
    requires FineText(local) && FineText(domain)
    ensures CheckMessageID(MessageId(local, domain))
  {
    var inner := local + ("@" + domain);
    Bytes.Assoc(local, "@" + domain, ">");
    Bytes.Assoc("@", domain, ">");
    assert MessageId(local, domain) == "<" + (inner + ">");
    Bracketed(inner);
    FirstAt(local, domain);
    assert inner[..|local|] == local && inner[|local| + 1..] == domain;
  }

  lemma PassedIsMessageId(id: string) returns (local: string, domain: string)
    requires CheckMessageID(id)
    ensures id == MessageId(local, domain) && FineText(local) && FineText(domain)
  {
    var inner := id[1..|id| - 1];
    var at := Bytes.Index(inner, "@");
    CutAtFirst(inner);
    local, domain := inner[..at], inner[at + 1..];
    assert id == "<" + (inner + ">");
    Bytes.Assoc(local, "@" + domain, ">");
    Bytes.Assoc("@", domain, ">");
  }

  ghost predicate Spells(id: string, local: string, domain: string) {
    id == MessageId(local, domain) && FineText(local) && FineText(domain)
  }

  /** What passes is <local@domain>, both without blanks, control characters, brackets
      or another @. */
  lemma MessageIdExactlyWhen(id: string)
    ensures CheckMessageID(id) <==> exists local, domain :: Spells(id, local, domain)
  {
    if CheckMessageID(id) {
      var local, domain := PassedIsMessageId(id);
      assert Spells(id, local, domain);
    }
    forall local, domain | Spells(id, local, domain) ensures CheckMessageID(id) {
      MessageIdPasses(local, domain);
    }
  }

  // ----- the list

  /** The settings entry. A write may fail. */
  class Box {
    var drafts: seq<Draft>
    var faults: seq<bool>

    constructor (faults: seq<bool>)
      ensures drafts == [] && this.faults == faults
    {
      drafts, this.faults := [], faults;
    }

    method SetJSON(s: seq<Draft>) returns (ok: bool)
      modifies this
      ensures drafts == if ok then s else old(drafts)
      ensures old(faults) == [] ==> faults == [] && ok
    {
      ok := true;
      if faults != [] {
        ok, faults := !faults[0], faults[1..];
      }
      if ok {
        drafts := s;
      }
    }

    /** loadDrafts. */
    method Load() returns (r: Option<array<Draft>>)
      modifies this
      ensures r.Some? ==> fresh(r.value) && r.value[..] == drafts == Renumbered(old(drafts))
      ensures r.None? ==> drafts == old(drafts) && !AllSafe(drafts)
      ensures old(faults) == [] ==> faults == [] && r.Some?
    {
      var s := drafts;
      var a := new Draft[|s|](i requires 0 <= i < |s| => s[i]);
      assert a[..] == s;
      var changed := RenumberUnsafeDraftIDs(a);
      if changed {
        var ok := SetJSON(a[..]);
        if !ok {
          return None;
        }
      } else {
        RenumberedAgain(s);
      }
      r := Some(a);
    }
  }

  function Text(o: Option<string>): string {
    if o.Some? then o.value else ""
  }

  /** What a save puts in the list for a new draft. */
  function Entry(id: int, savedAt: string, req: Request, sealed: string, newId: string): Draft {
    if Protection.Encrypts(req.protection) then
      Draft(id, savedAt, Bare(req.account, req.protection, req.messageId), sealed, req.account, req.protection)
    else
      Draft(id, savedAt, if req.messageId == "" then req.(messageId := newId) else req, "", req.account, req.protection)
  }

  /** And for one already listed: its Message-ID stays. */
  function Kept(before: Draft, e: Draft): Draft {
    if before.request.messageId != "" then e.(request := e.request.(messageId := before.request.messageId)) else e
  }

  function Saved(s: seq<Draft>, id: int, e: Draft): seq<Draft>
    requires id == 0 || Lists(s, id)
  {
    if id == 0 then s + [e.(id := Highest(s) + 1)] else s[IndexOf(s, id) := Kept(s[IndexOf(s, id)], e)]
  }

  /** The draft at one place of the list is the one asked for, in the clear or sealed, and
      every other is as it was: a new one at the end, a replaced one where it was. Its
      Message-ID is the one it had, or the request's, or a new one if it stays clear. */
  ghost predicate StoredAt(before: seq<Draft>, after: seq<Draft>, i: int, id: int, n: int, savedAt: string, req: Request,
                           sealed: string, newId: string) {
    && 0 <= i < |after| && |after| == |before| + (if id == 0 then 1 else 0)
    && (if id == 0 then i == |before| else before[i].id == id)
    && (forall j :: 0 <= j < |before| && j != i ==> after[j] == before[j])
    && (forall j :: 0 <= j < |before| ==> after[i].id == before[j].id ==> i == j)
    && after[i].id == n && after[i].savedAt == savedAt
    && after[i].account == after[i].request.account == req.account
    && after[i].protection == after[i].request.protection == req.protection
    && var encrypts := req.protection == "encrypt" || req.protection == "signencrypt";
       && after[i].sealed == (if encrypts then sealed else "")
       && after[i].request.rest == (if encrypts then "" else req.rest)
       && after[i].request.messageId ==
          if id != 0 && before[i].request.messageId != "" then before[i].request.messageId
          else if req.messageId != "" || encrypts then req.messageId else newId
  }

  lemma SavedIsStored(s: seq<Draft>, id: int, savedAt: string, req: Request, sealed: string, newId: string)
    requires Good(s) && (id == 0 || Lists(s, id))
    ensures var n, i := if id == 0 then Highest(s) + 1 else id, if id == 0 then |s| else IndexOf(s, id);
            StoredAt(s, Saved(s, id, Entry(id, savedAt, req, sealed, newId)), i, id, n, savedAt, req, sealed, newId)
  {
    NextIsFresh(s);
  }

  /** SaveDraft. `sealed` is what sealing gives and `newId` a fresh Message-ID, each
      unless it fails; neither is empty. */
  method SaveDraft(box: Box, id: int, req: Request, savedAt: string, sealed: Option<string>, newId: Option<string>)
    returns (r: Option<int>)
    requires sealed != Some("") && newId != Some("")
    modifies box
    ensures Good(old(box.drafts)) ==>
      match r
      case None => box.drafts == old(box.drafts)
      case Some(n) =>
        && (id == 0 || Lists(old(box.drafts), id))
        && n == (if id == 0 then Highest(old(box.drafts)) + 1 else id)
        && (if Protection.Encrypts(req.protection) then sealed.Some? else req.messageId != "" || newId.Some?)
        && box.drafts == Saved(old(box.drafts), id, Entry(id, savedAt, req, Text(sealed), Text(newId)))
        && exists i :: StoredAt(old(box.drafts), box.drafts, i, id, n, savedAt, req, Text(sealed), Text(newId))
    ensures Good(old(box.drafts)) && old(box.faults) == [] ==>
      (r.Some? <==>
        && (req.messageId != "" ==> CheckMessageID(req.messageId))
        && (if Protection.Encrypts(req.protection) then sealed.Some? else req.messageId != "" || newId.Some?)
        && (id == 0 || Lists(old(box.drafts), id)))
    ensures old(box.faults) == [] ==> box.faults == []
  {
    if req.messageId != "" && !CheckMessageID(req.messageId) {
      return None;
    }
    var entry := Draft(id, savedAt, req, "", req.account, req.protection);
    if Protection.Encrypts(req.protection) {
      if sealed.None? {
        return None;
      }
      entry := entry.(sealed := sealed.value, request := Bare(req.account, req.protection, req.messageId));
    } else if req.messageId == "" {
      if newId.None? {
        return None;
      }
      entry := entry.(request := req.(messageId := newId.value));
    }
    if Good(box.drafts) {
      RenumberedAgain(box.drafts);
    }
    var drafts := box.Load();
    if drafts.None? {
      return None;
    }
    var s, n := drafts.value[..], id;
    if id == 0 {
      n := NextDraftID(s);
      entry := entry.(id := n);
      s := s + [entry];
    } else {
      var i := IndexOf(s, id);
      if i < 0 {
        return None;
      }
      if s[i].request.messageId != "" {
        entry := entry.(request := entry.request.(messageId := s[i].request.messageId));
      }
      s := s[i := entry];
    }
    if Good(old(box.drafts)) {
      SavedIsStored(old(box.drafts), id, savedAt, req, Text(sealed), Text(newId));
    }
    var ok := box.SetJSON(s);
    r := if ok then Some(n) else None;
  }

  /** The in-place filter of DeleteDraft. */
  method Compact(drafts: array<Draft>, id: int) returns (kept: nat, gone: Option<Draft>)
    modifies drafts
    ensures kept <= drafts.Length && drafts[..kept] == Without(old(drafts[..]), id)
    ensures gone.Some? ==> gone.value in old(drafts[..]) && gone.value.id == id
    ensures gone.None? <==> !Lists(old(drafts[..]), id)
  {
    ghost var s := drafts[..];
    kept, gone := 0, None;
    var k := 0;
    while k < drafts.Length
      invariant 0 <= kept <= k <= drafts.Length
      invariant drafts[..kept] == Without(s[..k], id)
      invariant forall j :: k <= j < drafts.Length ==> drafts[j] == s[j]
      invariant gone.Some? ==> gone.value in s && gone.value.id == id
      invariant gone.None? <==> !Lists(s[..k], id)
    {
      var d := drafts[k];
      WithoutStep(s, k, id);
      ghost var done := drafts[..kept];
      if d.id != id {
        drafts[kept] := d;
        kept := kept + 1;
        assert drafts[..kept - 1] == done;
        assert drafts[..kept] == done + [d];
      } else {
        gone := Some(d);
      }
      ListsMore(s, k, id);
      k := k + 1;
    }
    assert s[..k] == s;
  }

  lemma ListsMore(s: seq<Draft>, k: nat, id: int)
    requires k < |s|
    ensures Lists(s[..k + 1], id) <==> Lists(s[..k], id) || s[k].id == id
  {
    if Lists(s[..k], id) {
      var j :| 0 <= j < k && s[..k][j].id == id;
      assert s[..k + 1][j].id == id;
    }
    if s[k].id == id {
      assert s[..k + 1][k].id == id;
    }
  }

  lemma WithoutStep(s: seq<Draft>, k: nat, id: int)
    requires k < |s|
    ensures Without(s[..k + 1], id) == Without(s[..k], id) + if s[k].id == id then [] else [s[k]]
  {
    assert s[..k + 1][..k] == s[..k];
  }

  /** DeleteDraft. The Message-ID of the server copy to remove comes back. */
  method DeleteDraft(box: Box, id: int) returns (ok: bool, copy: string)
    modifies box
    ensures Good(old(box.drafts)) ==> box.drafts == if ok then Without(old(box.drafts), id) else old(box.drafts)
    ensures Good(old(box.drafts)) && ok && Lists(old(box.drafts), id) ==>
      copy == old(box.drafts)[IndexOf(old(box.drafts), id)].request.messageId
    ensures old(box.faults) == [] ==> ok && box.faults == []
  {
    ghost var before := box.drafts;
    if Good(box.drafts) {
      RenumberedAgain(box.drafts);
    }
    copy := "";
    var drafts := box.Load();
    if drafts.None? {
      return false, "";
    }
    var a := drafts.value;
    var kept, gone := Compact(a, id);
    ok := box.SetJSON(a[..kept]);
    if ok && gone.Some? {
      copy := gone.value.request.messageId;
    }
    if Good(before) && gone.Some? {
      OneOfAnId(before, gone.value);
    }
  }

  lemma OneOfAnId(s: seq<Draft>, d: Draft)
    requires DistinctIds(s) && d in s
    ensures Lists(s, d.id) && s[IndexOf(s, d.id)] == d
  {
    var k :| 0 <= k < |s| && s[k] == d;
    assert Lists(s, d.id);
    assert IndexOf(s, d.id) == k;
  }

  // ----- what every step keeps

  /** A save keeps the list good if and only if, for a new draft, an id below the
      largest safe one was left. */
  lemma SaveKeepsExactlyWhen(s: seq<Draft>, id: int, e: Draft)
    requires Good(s) && Proper(e) && e.id == id && (id == 0 || Lists(s, id))
    ensures Good(Saved(s, id, e)) <==> id != 0 || Highest(s) < MAX_SAFE_ID
  {
    HighestBounds(s);
    var t := Saved(s, id, e);
    if id == 0 {
      assert t[|s|].id == Highest(s) + 1;
      assert forall k :: 0 <= k < |s| ==> t[k] == s[k];
    } else {
      var i := IndexOf(s, id);
      assert Proper(Kept(s[i], e));
      assert forall k :: 0 <= k < |s| && k != i ==> t[k] == s[k];
    }
  }

  lemma DeleteKeeps(s: seq<Draft>, id: int)
    requires Good(s)
    ensures Good(Without(s, id))
  {
    WithoutHolds(s, id);
    var t := Without(s, id);
    forall k | 0 <= k < |t| ensures 0 < t[k].id <= MAX_SAFE_ID && Proper(t[k]) {
      assert t[k] in s;
    }
  }

  /** Nothing listed before and after has lost or changed a Message-ID it had. */
  ghost predicate MessageIdsStay(s: seq<Draft>, t: seq<Draft>) {
    forall d, e :: d in s && e in t && d.id == e.id && d.request.messageId != "" ==> e.request.messageId == d.request.messageId
  }

  lemma SaveKeepsMessageIds(s: seq<Draft>, id: int, e: Draft)
    requires Good(s) && e.id == id && (id == 0 || Lists(s, id))
    ensures MessageIdsStay(s, Saved(s, id, e))
  {
    var t := Saved(s, id, e);
    HighestBounds(s);
    forall d, x | d in s && x in t && d.id == x.id && d.request.messageId != ""
      ensures x.request.messageId == d.request.messageId
    {
      OneOfAnId(s, d);
      if id == 0 {
        if x in s {
          OneOfAnId(s, x);
        }
      } else {
        var i := IndexOf(s, id);
        var k :| 0 <= k < |t| && t[k] == x;
        if k != i {
          assert x in s;
          OneOfAnId(s, x);
        }
      }
    }
  }

  lemma DeleteKeepsMessageIds(s: seq<Draft>, id: int)
    requires Good(s)
    ensures MessageIdsStay(s, Without(s, id))
  {
    WithoutHolds(s, id);
    forall d, x | d in s && x in Without(s, id) && d.id == x.id ensures x == d {
      OneOfAnId(s, d);
      OneOfAnId(s, x);
    }
  }

  // ----- runs

  ghost predicate Trace(states: seq<seq<Draft>>) {
    && states != []
    && (forall k :: 0 <= k < |states| ==> Good(states[k]))
    && (forall k :: 0 < k < |states| ==> MessageIdsStay(states[k - 1], states[k]))
  }

  /** Over a whole run a Message-ID, once there, stays while its draft is listed. */
  lemma {:induction false} MessageIdIsConstant(states: seq<seq<Draft>>, i: nat, j: nat, d: Draft, e: Draft)
    requires Trace(states) && i <= j < |states|
    requires d in states[i] && e in states[j] && d.id == e.id
    requires forall k :: i <= k <= j ==> Lists(states[k], d.id)
    requires d.request.messageId != ""
    ensures e.request.messageId == d.request.messageId
    decreases j - i
  {
    if i == j {
      OneOfAnId(states[i], d);
      OneOfAnId(states[i], e);
    } else {
      var before := states[j - 1];
      assert Lists(before, d.id);
      var k :| 0 <= k < |before| && before[k].id == d.id;
      MessageIdIsConstant(states, i, j - 1, d, before[k]);
      assert MessageIdsStay(before, states[j]);
    }
  }

  datatype Operation =
    | Save(id: int, req: Request, savedAt: string, sealed: Option<string>, newId: Option<string>)
    | Delete(id: int)

  /** Every list reached from the empty one by saves and deletes, with writes failing
      or not, is good, as long as ids stay below the largest safe one; and the run is
      a trace in which Message-IDs stay. */
  method Run(box: Box, ops: seq<Operation>) returns (ghost states: seq<seq<Draft>>)
    requires box.drafts == []
    requires forall op :: op in ops && op.Save? ==> op.sealed != Some("") && op.newId != Some("")
    modifies box
    ensures Trace(states) && states[|states| - 1] == box.drafts
  {
    states := [box.drafts];
    var k := 0;
    while k < |ops|
      invariant 0 <= k <= |ops|
      invariant Trace(states) && states[|states| - 1] == box.drafts
    {
      assert ops[k] in ops;
      Perform(box, ops[k]);
      states := states + [box.drafts];
      k := k + 1;
    }
  }

  method Perform(box: Box, op: Operation)
    requires Good(box.drafts)
    requires op.Save? ==> op.sealed != Some("") && op.newId != Some("")
    modifies box
    ensures Good(box.drafts) && MessageIdsStay(old(box.drafts), box.drafts)
  {
    ghost var s := box.drafts;
    SameKeepsMessageIds(s);
    match op {
      case Save(id, req, savedAt, sealed, newId) =>
        if id != 0 || Highest(box.drafts) < MAX_SAFE_ID {
          var r := SaveDraft(box, id, req, savedAt, sealed, newId);
          if r.Some? {
            ghost var e := Entry(id, savedAt, req, Text(sealed), Text(newId));
            SaveKeepsExactlyWhen(s, id, e);
            SaveKeepsMessageIds(s, id, e);
          }
        }
      case Delete(id) =>
        var _, _ := DeleteDraft(box, id);
        DeleteKeeps(s, id);
        DeleteKeepsMessageIds(s, id);
    }
  }

  lemma SameKeepsMessageIds(s: seq<Draft>)
    requires Good(s)
    ensures MessageIdsStay(s, s)
  {
    forall d, e | d in s && e in s && d.id == e.id ensures d == e {
      OneOfAnId(s, d);
      OneOfAnId(s, e);
    }
  }

  // ----- uploading

  datatype Upload = NotFound | StaysLocal | Nothing | Failed | Built(message: Draft)

  /** UploadDraft, as far as what goes up; `local` says whether the draft's account
      has no server, None that it cannot be read. */
  method UploadDraft(box: Box, id: int, local: Option<bool>) returns (u: Upload)
    modifies box
    ensures Good(old(box.drafts)) ==>
      && box.drafts == old(box.drafts)
      && (u == NotFound <==> !Lists(box.drafts, id))
      && (u == StaysLocal <==> Lists(box.drafts, id) && Protection.Encrypts(box.drafts[IndexOf(box.drafts, id)].protection))
      && (u.Built? ==> u.message in box.drafts && u.message.id == id && u.message.sealed == "" && !Protection.Encrypts(u.message.protection) && u.message.request.messageId != "")
      && (u.Built? <==> Lists(box.drafts, id) && !Protection.Encrypts(box.drafts[IndexOf(box.drafts, id)].protection) && local == Some(false))
  {
    if Good(box.drafts) {
      RenumberedAgain(box.drafts);
    }
    var drafts := box.Load();
    if drafts.None? {
      return Failed;
    }
    var s := drafts.value[..];
    var i := IndexOf(s, id);
    if i < 0 {
      return NotFound;
    }
    var draft := s[i];
    if draft.sealed != "" || Protection.Encrypts(draft.protection) {
      return StaysLocal;
    }
    if local.None? {
      return Failed;
    }
    u := if local.value then Nothing else Built(draft);
  }
}
