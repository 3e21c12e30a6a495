/** The two OpenPGP key rings (internal/crypto/keyring.go). A ring is one file,
    replaced whole; a key is told by its fingerprint. */
module KeyRings {
  import opened Bytes
  import opened Options

  /** Private key material, and the passphrase that locks it, if one does. */
  datatype Secret = Secret(material: string, passphrase: Option<string>)

  datatype Key = Key(fingerprint: string, emails: seq<string>, secret: Option<Secret>)

  type Ring = seq<Key>

  /** NormalizeFingerprint. */
  function Normalize(fp: string): string {
    Upper(ReplaceAll(TrimSpace(fp), " ", ""))
  }

  /** The text without its spaces. */
  function Unspaced(s: string): string {
    if s == "" then "" else (if s[0] == ' ' then "" else s[..1]) + Unspaced(s[1..])
  }

  lemma {:induction false} SpacesReplaced(s: string)
    ensures ReplaceAll(s, " ", "") == Unspaced(s)
  {
    if s != "" {
      assert HasPrefix(s, " ") <==> s[0] == ' ';
      SpacesReplaced(s[1..]);
    }
  }

  /** Two fingerprints are one if and only if they agree up to case, spaces and the blanks
      around them. */
  lemma SameFingerprintExactlyWhen(a: string, b: string)
    ensures Normalize(a) == Normalize(b) <==> SameFolded(Unspaced(TrimSpace(a)), Unspaced(TrimSpace(b)))
  {
    SpacesReplaced(TrimSpace(a));
    SpacesReplaced(TrimSpace(b));
    CaseIgnored(Unspaced(TrimSpace(a)), Unspaced(TrimSpace(b)));
  }

  function Id(k: Key): string {
    Normalize(k.fingerprint)
  }

  /** What the public ring keeps of a key. */
  function Public(k: Key): Key {
    k.(secret := None)
  }

  function AllPublic(s: Ring): (r: Ring)
    ensures |r| == |s| && forall i :: 0 <= i < |s| ==> r[i] == Public(s[i])
  {
    if s == [] then [] else [Public(s[0])] + AllPublic(s[1..])
  }

  function Ids(s: Ring): set<string> {
    set i | 0 <= i < |s| :: Id(s[i])
  }

  /** The keys whose fingerprint is not among `ids`, in order. */
  function Others(s: Ring, ids: set<string>): Ring {
    if s == [] then []
    else Others(s[..|s| - 1], ids) + if Id(s[|s| - 1]) in ids then [] else [s[|s| - 1]]
  }

  /** The keys with private material, in order. */
  function Privates(s: Ring): Ring {
    if s == [] then []
    else Privates(s[..|s| - 1]) + if s[|s| - 1].secret.Some? then [s[|s| - 1]] else []
  }

  function Merged(existing: Ring, incoming: Ring): Ring {
    Others(existing, Ids(incoming)) + incoming
  }

  lemma OthersStep(s: Ring, k: nat, ids: set<string>)
    requires k < |s|
    ensures Others(s[..k + 1], ids) == Others(s[..k], ids) + if Id(s[k]) in ids then [] else [s[k]]
  {
    assert s[..k + 1][..k] == s[..k];
  }

  lemma {:induction false} OthersHold(s: Ring, ids: set<string>)
    ensures forall k :: k in Others(s, ids) <==> k in s && Id(k) !in ids
    ensures |Others(s, ids)| <= |s|
    ensures |Others(s, ids)| == |s| ==> Others(s, ids) == s
    ensures |Others(s, ids)| == |s| <==> forall k :: k in s ==> Id(k) !in ids
  {
    if s != [] {
      var init, last := s[..|s| - 1], s[|s| - 1];
      assert s == init + [last] && last in s;
      OthersHold(init, ids);
    }
  }

  lemma {:induction false} OthersOfConcat(a: Ring, b: Ring, ids: set<string>)
    ensures Others(a + b, ids) == Others(a, ids) + Others(b, ids)
  {
    if b == [] {
      assert a + b == a;
      assert Others(a, ids) + [] == Others(a, ids);
    } else {
      var init := b[..|b| - 1];
      assert (a + b)[..|a + b| - 1] == a + init;
      OthersOfConcat(a, init, ids);
    }
  }

  lemma OthersAgain(s: Ring, ids: set<string>)
    ensures Others(Others(s, ids), ids) == Others(s, ids)
  {
    OthersHold(s, ids);
    OthersHold(Others(s, ids), ids);
  }

  lemma {:induction false} NoneOther(s: Ring, ids: set<string>)
    requires forall i :: 0 <= i < |s| ==> Id(s[i]) in ids
    ensures Others(s, ids) == []
  {
    if s != [] {
      NoneOther(s[..|s| - 1], ids);
    }
  }

  /** A merge leaves the keys with other fingerprints in place and order, puts the
      incoming ones after them, and done again changes nothing. */
  lemma MergedTwice(existing: Ring, incoming: Ring)
    ensures Others(Merged(existing, incoming), Ids(incoming)) == Others(existing, Ids(incoming))
    ensures Merged(Merged(existing, incoming), incoming) == Merged(existing, incoming)
  {
    var ids := Ids(incoming);
    OthersOfConcat(Others(existing, ids), incoming, ids);
    OthersAgain(existing, ids);
    NoneOther(incoming, ids);
    assert Others(existing, ids) + [] == Others(existing, ids);
  }

  lemma IdsIn(s: Ring, id: string)
    ensures id in Ids(s) <==> exists k :: k in s && Id(k) == id
  {
    if id in Ids(s) {
      var i :| 0 <= i < |s| && Id(s[i]) == id;
      assert s[i] in s;
    }
  }

  lemma IdsOfMerged(existing: Ring, incoming: Ring)
    ensures Ids(Merged(existing, incoming)) == Ids(existing) + Ids(incoming)
  {
    OthersHold(existing, Ids(incoming));
    forall id ensures id in Ids(Merged(existing, incoming)) <==> id in Ids(existing) + Ids(incoming) {
      IdsIn(Merged(existing, incoming), id);
      IdsIn(existing, id);
      IdsIn(incoming, id);
    }
  }

  lemma IdsOfOthers(s: Ring, ids: set<string>)
    ensures Ids(Others(s, ids)) == Ids(s) - ids
  {
    OthersHold(s, ids);
    forall id ensures id in Ids(Others(s, ids)) <==> id in Ids(s) - ids {
      IdsIn(Others(s, ids), id);
      IdsIn(s, id);
    }
  }

  lemma PublicIds(s: Ring)
    ensures Ids(AllPublic(s)) == Ids(s)
  {
    assert forall i :: 0 <= i < |s| ==> Id(AllPublic(s)[i]) == Id(s[i]);
  }

  // ----- the two rings

  datatype Rings = Rings(sec: Ring, pub: Ring)

  /** Each fingerprint in the private ring is in the public one. */
  predicate Included(r: Rings) {
    Ids(r.sec) <= Ids(r.pub)
  }

  predicate OnlyPublic(r: Rings) {
    forall i :: 0 <= i < |r.pub| ==> r.pub[i].secret == None
  }

  /** The first write of an import, and the second. */
  function SecImported(r: Rings, list: Ring): Rings {
    if Privates(list) == [] then r else r.(sec := Merged(r.sec, Privates(list)))
  }

  function PubImported(r: Rings, list: Ring): Rings {
    r.(pub := Merged(r.pub, AllPublic(list)))
  }

  function Imported(r: Rings, list: Ring): Rings {
    PubImported(SecImported(r, list), list)
  }

  function SecDeleted(r: Rings, id: string): Rings {
    r.(sec := Others(r.sec, {id}))
  }

  function PubDeleted(r: Rings, id: string): Rings {
    r.(pub := Others(r.pub, {id}))
  }

  function Deleted(r: Rings, id: string): Rings {
    PubDeleted(SecDeleted(r, id), id)
  }

  lemma {:induction false} PrivatesHold(s: Ring)
    ensures forall k :: k in Privates(s) <==> k in s && k.secret.Some?
  {
    if s != [] {
      var init, last := s[..|s| - 1], s[|s| - 1];
      assert s == init + [last];
      PrivatesHold(init);
    }
  }

  lemma PrivateIds(s: Ring)
    ensures Ids(Privates(s)) <= Ids(s)
  {
    PrivatesHold(s);
    forall id | id in Ids(Privates(s)) ensures id in Ids(s) {
      IdsIn(Privates(s), id);
      IdsIn(s, id);
    }
  }

  /** A completed import keeps the inclusion. */
  lemma ImportKeepsIncluded(r: Rings, list: Ring)
    requires Included(r)
    ensures Included(Imported(r, list))
  {
    IdsOfMerged(r.pub, AllPublic(list));
    PublicIds(list);
    PrivateIds(list);
    IdsOfMerged(r.sec, Privates(list));
  }

  /** Between its two writes an import keeps it if and only if every private key it
      brings is in the public ring already. */
  lemma HalfImportKeepsExactlyWhen(r: Rings, list: Ring)
    requires Included(r)
    ensures Included(SecImported(r, list)) <==> Ids(Privates(list)) <= Ids(r.pub)
  {
    IdsOfMerged(r.sec, Privates(list));
  }

  /** A deletion keeps it between its writes too. */
  lemma DeleteKeepsIncluded(r: Rings, id: string)
    requires Included(r)
    ensures Included(SecDeleted(r, id)) && Included(Deleted(r, id))
    ensures id !in Ids(Deleted(r, id).sec) && id !in Ids(Deleted(r, id).pub)
  {
    IdsOfOthers(r.sec, {id});
    IdsOfOthers(r.pub, {id});
  }

  /** Importing again, after an import that finished or stopped between its writes,
      comes to the import done once. */
  lemma ImportAgain(r: Rings, list: Ring)
    ensures Imported(SecImported(r, list), list) == Imported(r, list)
    ensures Imported(Imported(r, list), list) == Imported(r, list)
  {
    MergedTwice(r.sec, Privates(list));
    MergedTwice(r.pub, AllPublic(list));
  }

  lemma DeleteAgain(r: Rings, id: string)
    ensures Deleted(SecDeleted(r, id), id) == Deleted(r, id)
    ensures Deleted(Deleted(r, id), id) == Deleted(r, id)
  {
    OthersAgain(r.sec, {id});
    OthersAgain(r.pub, {id});
  }

  /** Neither touches a key of another fingerprint, nor its place among such keys. */
  lemma OtherKeysStay(r: Rings, list: Ring, id: string)
    ensures Others(Imported(r, list).sec, Ids(Privates(list))) == Others(r.sec, Ids(Privates(list)))
    ensures Others(Imported(r, list).pub, Ids(list)) == Others(r.pub, Ids(list))
    ensures Others(Deleted(r, id).sec, {id}) == Others(r.sec, {id})
    ensures Others(Deleted(r, id).pub, {id}) == Others(r.pub, {id})
  {
    MergedTwice(r.sec, Privates(list));
    MergedTwice(r.pub, AllPublic(list));
    PublicIds(list);
    OthersAgain(r.sec, {id});
    OthersAgain(r.pub, {id});
  }

  // ----- the files

  /** What a write comes to: an error before the ring is replaced, or after, or none. */
  datatype Fate = Fails | Replaces | Works

  datatype File = Secring | Pubring

  class Store {
    var sec: Ring
    var pub: Ring
    var fates: seq<Fate>

    constructor (fates: seq<Fate>)
      ensures Now() == Rings([], []) && this.fates == fates
    {
      sec, pub, this.fates := [], [], fates;
    }

    function Now(): Rings
      reads this
    {
      Rings(sec, pub)
    }

    method Write(file: File, list: Ring) returns (ok: bool)
      modifies this
      ensures Now() == old(Now()) ||
        Now() == (if file == Secring then old(Now()).(sec := list) else old(Now()).(pub := AllPublic(list)))
      ensures ok ==> Now() == if file == Secring then old(Now()).(sec := list) else old(Now()).(pub := AllPublic(list))
      ensures old(fates) == [] ==> fates == [] && ok
    {
      var fate := Works;
      if fates != [] {
        fate, fates := fates[0], fates[1..];
      }
      if fate != Fails {
        if file == Secring {
          sec := list;
        } else {
          pub := AllPublic(list);
        }
      }
      ok := fate == Works;
    }

    method Merge(file: File, incoming: Ring) returns (ok: bool)
      requires OnlyPublic(Now())
      modifies this
      ensures var after := if file == Secring then old(Now()).(sec := Merged(old(sec), incoming)) else old(Now()).(pub := Merged(old(pub), AllPublic(incoming)));
              && (Now() == old(Now()) || Now() == after) && (ok ==> Now() == after)
      ensures old(fates) == [] ==> fates == [] && ok
    {
      var existing := if file == Secring then sec else pub;
      PublicMerge(pub, incoming);
      var replacing := Fingerprints(incoming);
      var merged := Remaining(existing, replacing);
      ok := Write(file, merged + incoming);
    }

    /** Import. */
    method Import(list: Ring) returns (ok: bool)
      requires OnlyPublic(Now())
      modifies this
      ensures OnlyPublic(Now())
      ensures list == [] ==> !ok && Now() == old(Now())
      ensures ok ==> Now() == Imported(old(Now()), list)
      ensures Now() == old(Now()) || Now() == SecImported(old(Now()), list) || Now() == Imported(old(Now()), list)
      ensures old(fates) == [] ==> fates == [] && (ok <==> list != [])
    {
      if list == [] {
        return false;
      }
      var private, public, k := [], [], 0;
      while k < |list|
        invariant 0 <= k <= |list|
        invariant private == Privates(list[..k]) && public == list[..k]
      {
        assert list[..k + 1][..k] == list[..k];
        if list[k].secret.Some? {
          private := private + [list[k]];
        }
        public := public + [list[k]];
        k := k + 1;
      }
      assert list[..k] == list;
      if private != [] {
        ok := Merge(Secring, private);
        if !ok {
          return;
        }
      }
      MergedIsPublic(Now(), list);
      ok := Merge(Pubring, public);
    }

    /** Delete. A fingerprint in neither ring is an error after all. */
    method Delete(fingerprint: string) returns (ok: bool, notFound: bool)
      requires OnlyPublic(Now())
      modifies this
      ensures OnlyPublic(Now())
      ensures ok ==> Now() == Deleted(old(Now()), Normalize(fingerprint))
      ensures Now() == old(Now()) || Now() == SecDeleted(old(Now()), Normalize(fingerprint)) ||
        Now() == Deleted(old(Now()), Normalize(fingerprint))
      ensures notFound <==> Normalize(fingerprint) !in old(Ids(sec)) + old(Ids(pub))
      ensures notFound ==> !ok && Now() == old(Now())
      ensures old(fates) == [] ==> fates == [] && (ok <==> !notFound)
    {
      var want := Normalize(fingerprint);
      ghost var before := Now();
      OthersHold(sec, {want});
      OthersHold(pub, {want});
      IdsIn(sec, want);
      IdsIn(pub, want);
      PublicOthers(pub, {want});
      notFound := !(exists k | k in sec :: Id(k) == want) && !(exists k | k in pub :: Id(k) == want);
      var kept := Remaining(sec, {want});
      if |kept| != |sec| {
        ok := Write(Secring, kept);
        if !ok {
          return;
        }
      }
      kept := Remaining(pub, {want});
      if |kept| != |pub| {
        ok := Write(Pubring, kept);
        if !ok {
          return;
        }
      }
      ok := !notFound;
    }
  }

  method Fingerprints(incoming: Ring) returns (replacing: set<string>)
    ensures replacing == Ids(incoming)
  {
    replacing := {};
    var k := 0;
    while k < |incoming|
      invariant 0 <= k <= |incoming|
      invariant replacing == Ids(incoming[..k])
    {
      replacing, k := replacing + {Id(incoming[k])}, k + 1;
    }
    assert incoming[..k] == incoming;
  }

  method Remaining(existing: Ring, replacing: set<string>) returns (merged: Ring)
    ensures merged == Others(existing, replacing)
  {
    merged := [];
    var k := 0;
    while k < |existing|
      invariant 0 <= k <= |existing|
      invariant merged == Others(existing[..k], replacing)
    {
      OthersStep(existing, k, replacing);
      if Id(existing[k]) !in replacing {
        merged := merged + [existing[k]];
      }
      k := k + 1;
    }
    assert existing[..k] == existing;
  }

  lemma PublicOthers(pub: Ring, ids: set<string>)
    requires forall i :: 0 <= i < |pub| ==> pub[i].secret == None
    ensures AllPublic(Others(pub, ids)) == Others(pub, ids)
    ensures forall i :: 0 <= i < |Others(pub, ids)| ==> Others(pub, ids)[i].secret == None
  {
    OthersHold(pub, ids);
    var o := Others(pub, ids);
    forall i | 0 <= i < |o| ensures o[i].secret == None {
      assert o[i] in pub;
    }
  }

  lemma PublicMerge(pub: Ring, incoming: Ring)
    requires forall i :: 0 <= i < |pub| ==> pub[i].secret == None
    ensures AllPublic(Others(pub, Ids(incoming)) + incoming) == Merged(pub, AllPublic(incoming))
  {
    PublicOthers(pub, Ids(incoming));
    PublicIds(incoming);
    var o := Others(pub, Ids(incoming));
    assert AllPublic(o + incoming) == o + AllPublic(incoming);
  }

  lemma MergedIsPublic(r: Rings, list: Ring)
    requires OnlyPublic(r)
    ensures OnlyPublic(PubImported(r, list))
  {
    PublicOthers(r.pub, Ids(AllPublic(list)));
  }

  // ----- runs with stops

  /** What an operation came to: a stopped one may have done its first write only. */
  datatype Event = Nothing | HalfImport(list: Ring) | Import(list: Ring) | HalfDelete(id: string) | Delete(id: string)

  function Play(r: Rings, e: Event): Rings {
    match e
    case Nothing => r
    case HalfImport(list) => SecImported(r, list)
    case Import(list) => Imported(r, list)
    case HalfDelete(id) => SecDeleted(r, id)
    case Delete(id) => Deleted(r, id)
  }

  function After(events: seq<Event>): Rings {
    if events == [] then Rings([], []) else Play(After(events[..|events| - 1]), events[|events| - 1])
  }

  /** The private keys that are not in the public ring. */
  function Missing(r: Rings): set<string> {
    Ids(r.sec) - Ids(r.pub)
  }

  /** A stopped import brings a private key the public ring does not have. */
  predicate Strands(r: Rings, e: Event, id: string) {
    e.HalfImport? && id in Ids(Privates(e.list)) && id !in Ids(r.pub)
  }

  /** The key is imported whole, or deleted. */
  predicate Mends(e: Event, id: string) {
    match e
    case Import(list) => id in Ids(list)
    case HalfDelete(other) => id == other
    case Delete(other) => id == other
    case _ => false
  }

  lemma MissingStep(r: Rings, e: Event, id: string)
    ensures id in Missing(Play(r, e)) <==> Strands(r, e, id) || (id in Missing(r) && !Mends(e, id))
  {
    match e {
      case Nothing =>
      case HalfImport(list) => IdsOfMerged(r.sec, Privates(list));
      case Import(list) =>
        IdsOfMerged(r.sec, Privates(list));
        IdsOfMerged(r.pub, AllPublic(list));
        PublicIds(list);
        PrivateIds(list);
      case HalfDelete(other) => IdsOfOthers(r.sec, {other});
      case Delete(other) =>
        IdsOfOthers(r.sec, {other});
        IdsOfOthers(r.pub, {other});
    }
  }

  /** Some stopped import has stranded the key, and nothing has mended that since. */
  ghost predicate Stranded(events: seq<Event>, id: string) {
    exists k :: 0 <= k < |events| && StrandedAt(events, id, k)
  }

  ghost predicate StrandedAt(events: seq<Event>, id: string, k: nat)
    requires k < |events|
  {
    Strands(After(events[..k]), events[k], id) && forall j :: k < j < |events| ==> !Mends(events[j], id)
  }

  lemma StrandedStep(events: seq<Event>, id: string)
    requires events != []
    ensures var init, last := events[..|events| - 1], events[|events| - 1];
            Stranded(events, id) <==> Strands(After(init), last, id) || (Stranded(init, id) && !Mends(last, id))
  {
    var init, n := events[..|events| - 1], |events| - 1;
    forall k | 0 <= k < n ensures StrandedAt(events, id, k) <==> StrandedAt(init, id, k) && !Mends(events[n], id) {
      assert init[..k] == events[..k] && init[k] == events[k];
      assert forall j :: k < j < n ==> init[j] == events[j];
    }
    assert StrandedAt(events, id, n) <==> Strands(After(init), events[n], id);
  }

  /** Over any run, stopped anywhere, a private key is missing from the public ring if
      and only if a stopped import stranded it there and it has neither been imported
      whole nor deleted since. */
  lemma {:induction false} MissingExactlyWhen(events: seq<Event>, id: string)
    ensures id in Missing(After(events)) <==> Stranded(events, id)
  {
    if events != [] {
      MissingExactlyWhen(events[..|events| - 1], id);
      MissingStep(After(events[..|events| - 1]), events[|events| - 1], id);
      StrandedStep(events, id);
    }
  }

  datatype Operation = DoImport(list: Ring) | DoDelete(fingerprint: string)

  /** What an operation can come to. */
  predicate Fits(e: Event, op: Operation) {
    match e
    case Nothing => true
    case HalfImport(list) => op == DoImport(list)
    case Import(list) => op == DoImport(list)
    case HalfDelete(id) => op.DoDelete? && id == Normalize(op.fingerprint)
    case Delete(id) => op.DoDelete? && id == Normalize(op.fingerprint)
  }

  method Perform(store: Store, op: Operation) returns (ghost e: Event)
    requires OnlyPublic(store.Now())
    modifies store
    ensures OnlyPublic(store.Now()) && Fits(e, op) && store.Now() == Play(old(store.Now()), e)
    ensures old(store.fates) == [] ==> store.fates == [] && (e == Nothing || e.Import? || e.Delete?)
  {
    ghost var r := store.Now();
    match op {
      case DoImport(list) =>
        var ok := store.Import(list);
        e := if store.Now() == r then Nothing else if store.Now() == Imported(r, list) then Import(list) else HalfImport(list);
        assert ok ==> store.Now() == Imported(r, list);
      case DoDelete(fingerprint) =>
        var id := Normalize(fingerprint);
        var ok, notFound := store.Delete(fingerprint);
        e := if store.Now() == r then Nothing else if store.Now() == Deleted(r, id) then Delete(id) else HalfDelete(id);
        assert ok ==> store.Now() == Deleted(r, id);
    }
  }

  /** Every run of imports and deletions, each finished or stopped: the private ring is
      included in the public one if and only if no key is stranded; so always if none
      was stopped. */
  method Run(store: Store, ops: seq<Operation>) returns (ghost events: seq<Event>)
    requires store.Now() == Rings([], [])
    modifies store
    ensures |events| == |ops| && forall k :: 0 <= k < |ops| ==> Fits(events[k], ops[k])
    ensures store.Now() == After(events)
    ensures Included(store.Now()) <==> forall id :: !Stranded(events, id)
    ensures old(store.fates) == [] ==> Included(store.Now())
  {
    events := [];
    var k := 0;
    while k < |ops|
      invariant 0 <= k <= |ops| && |events| == k && forall j :: 0 <= j < k ==> Fits(events[j], ops[j])
      invariant store.Now() == After(events) && OnlyPublic(store.Now())
      invariant old(store.fates) == [] ==> store.fates == [] && forall j :: 0 <= j < k ==> !events[j].HalfImport?
    {
      ghost var e := Perform(store, ops[k]);
      assert (events + [e])[..k] == events;
      events, k := events + [e], k + 1;
    }
    IncludedExactlyWhen(events);
    if old(store.fates) == [] {
      NoneStopped(events);
    }
  }

  lemma IncludedExactlyWhen(events: seq<Event>)
    ensures Included(After(events)) <==> forall id :: !Stranded(events, id)
  {
    var r := After(events);
    if Included(r) {
      forall id ensures !Stranded(events, id) {
        MissingExactlyWhen(events, id);
      }
    }
    if forall id :: !Stranded(events, id) {
      NoneStranded(events);
    }
  }

  lemma NoneStranded(events: seq<Event>)
    requires forall id :: !Stranded(events, id)
    ensures Included(After(events))
  {
    forall id | id in Ids(After(events).sec) ensures id in Ids(After(events).pub) {
      MissingExactlyWhen(events, id);
    }
  }

  lemma NoneStopped(events: seq<Event>)
    requires forall j :: 0 <= j < |events| ==> !events[j].HalfImport?
    ensures Included(After(events))
  {
    NoneStranded(events);
  }
}
