/** Exporting mailboxes to a backup and importing them (internal/desktop/
    bind_backup.go). An account's row, its place in the profile and its credential are
    three separate writes, and an import can stop after any of them. */
module Backup {
  import Bytes
  import opened Options
  import opened Credentials

  /** What the file carries of a mailbox, its address and credential apart. */
  datatype Server = Server(displayName: string, localLabel: string, useLocalLabel: bool, username: string,
                           imapHost: string, imapPort: int, smtpHost: string, smtpPort: int,
                           trustedCerts: seq<string>, caPEM: string)

  /** `rest` is what it does not carry. */
  datatype Account = Account(id: int, email: string, server: Server, local: bool, rest: string)

  /** Stands for authenticated encryption under a password. */
  datatype Blob = Blob(password: string, text: string)

  function Decrypt(password: string, b: Blob): Option<string> {
    if b.password == password then Some(b.text) else None
  }

  datatype Entry = Entry(email: string, server: Server, secret: Option<Blob>)

  /** The accounts as listed, the rows in no profile, which nothing lists, and of the
      keyring what can be read of it. */
  datatype State = State(accounts: seq<Account>, unlinked: seq<Account>, nextId: int, creds: map<int, Secret>)

  /** Account ids are distinct and come from the counter. */
  ghost predicate Sane(s: State) {
    && (forall i :: 0 <= i < |s.accounts| ==> s.accounts[i].id < s.nextId)
    && (forall i, j :: 0 <= i < j < |s.accounts| ==> s.accounts[i].id != s.accounts[j].id)
  }

  /** No credential is filed under an id not yet given out. */
  ghost predicate Clean(s: State) {
    forall id :: id in s.creds ==> id < s.nextId
  }

  /** The account an address leads to: the last one listed with it. */
  function AccountOf(accounts: seq<Account>, email: string): Option<Account> {
    if accounts == [] then None
    else if accounts[|accounts| - 1].email == email then Some(accounts[|accounts| - 1])
    else AccountOf(accounts[..|accounts| - 1], email)
  }

  /** It is that one, and there is none only if none is listed with it. */
  lemma {:induction false} AccountOfExactlyWhen(accounts: seq<Account>, email: string, a: Account)
    ensures AccountOf(accounts, email) == Some(a) <==> exists k :: LastWith(accounts, email, k) && accounts[k] == a
  {
    if accounts != [] {
      var init, n := accounts[..|accounts| - 1], |accounts| - 1;
      AccountOfExactlyWhen(init, email, a);
      assert forall k :: 0 <= k < n ==> init[k] == accounts[k];
      assert accounts[n].email == email ==> LastWith(accounts, email, n);
      if k :| LastWith(init, email, k) && init[k] == a {
        assert accounts[n].email != email ==> LastWith(accounts, email, k);
      }
      if k :| LastWith(accounts, email, k) && accounts[k] == a {
        assert k < n ==> LastWith(init, email, k);
      }
    }
  }

  ghost predicate LastWith(accounts: seq<Account>, email: string, k: int) {
    0 <= k < |accounts| && accounts[k].email == email && forall j :: k < j < |accounts| ==> accounts[j].email != email
  }

  type Secrets = map<string, Secret>

  function Get(secrets: Secrets, email: string): Option<Secret> {
    if email in secrets then Some(secrets[email]) else None
  }

  /** Decrypting every credential up front; the last entry of an address wins. */
  function Opened(ms: seq<Entry>, password: string): Option<Secrets> {
    if ms == [] || password == "" then Some(map[])
    else
      var last := ms[|ms| - 1];
      match Opened(ms[..|ms| - 1], password)
      case None => None
      case Some(secrets) =>
        if last.secret == None then Some(secrets)
        else match Decrypt(password, last.secret.value)
             case None => None
             case Some(text) =>
               match Decode(text)
               case None => None
               case Some(secret) => Some(secrets[last.email := secret])
  }

  /** The entry carries this credential, sealed under this password. */
  predicate Seals(m: Entry, password: string, secret: Secret) {
    m.secret == Some(Blob(password, Encode(secret)))
  }

  /** It carries one that was sealed under another password, or is none. */
  ghost predicate Unopenable(m: Entry, password: string) {
    m.secret.Some? && forall secret :: !Seals(m, password, secret)
  }

  ghost predicate CannotOpen(ms: seq<Entry>, password: string) {
    password != "" && exists k :: 0 <= k < |ms| && Unopenable(ms[k], password)
  }

  /** The last entry of the address that carries a credential carries this one. */
  ghost predicate LastSeals(ms: seq<Entry>, password: string, email: string, secret: Secret, k: int) {
    && 0 <= k < |ms| && ms[k].email == email && Seals(ms[k], password, secret)
    && forall j :: k < j < |ms| && ms[j].email == email ==> ms[j].secret == None
  }

  lemma OpensExactlyWhen(m: Entry, password: string)
    requires m.secret.Some?
    ensures var text := Decrypt(password, m.secret.value);
            && (Unopenable(m, password) <==> text == None || Decode(text.value) == None)
            && forall secret :: Seals(m, password, secret) <==> text.Some? && Decode(text.value) == Some(secret)
  {
    var text := Decrypt(password, m.secret.value);
    forall secret ensures Seals(m, password, secret) <==> text.Some? && Decode(text.value) == Some(secret) {
      DecodeOfEncode(secret);
      if text.Some? && Decode(text.value) == Some(secret) {
        DecodedMeansEncoded(text.value, secret);
      }
    }
    if text.Some? && Decode(text.value).Some? {
      assert Seals(m, password, Decode(text.value).value);
    }
  }

  /** The credentials do not open if and only if there is a password and some entry's
      was not sealed under it. */
  lemma {:induction false} OpenedExactlyWhen(ms: seq<Entry>, password: string)
    ensures Opened(ms, password) == None <==> CannotOpen(ms, password)
  {
    if ms != [] && password != "" {
      var init, last := ms[..|ms| - 1], ms[|ms| - 1];
      OpenedExactlyWhen(init, password);
      assert forall k :: 0 <= k < |init| ==> init[k] == ms[k];
      if last.secret.Some? {
        OpensExactlyWhen(last, password);
      }
      assert CannotOpen(ms, password) <==> CannotOpen(init, password) || Unopenable(last, password);
    }
  }

  /** Otherwise each address has the credential of its last entry that carries one. */
  lemma {:induction false} OpenedSecret(ms: seq<Entry>, password: string, email: string, secret: Secret)
    requires Opened(ms, password).Some?
    ensures Get(Opened(ms, password).value, email) == Some(secret) <==>
            password != "" && exists k :: LastSeals(ms, password, email, secret, k)
  {
    if ms != [] && password != "" {
      var init, last := ms[..|ms| - 1], ms[|ms| - 1];
      OpenedSecret(init, password, email, secret);
      if last.secret.Some? {
        OpensExactlyWhen(last, password);
      }
      LastSealsSteps(ms, password, email, secret);
    }
  }

  lemma LastSealsSteps(ms: seq<Entry>, password: string, email: string, secret: Secret)
    requires ms != []
    ensures var init, last := ms[..|ms| - 1], ms[|ms| - 1];
            (exists k :: LastSeals(ms, password, email, secret, k)) <==>
            if last.email == email && last.secret.Some? then Seals(last, password, secret)
            else exists k :: LastSeals(init, password, email, secret, k)
  {
    var init, n := ms[..|ms| - 1], |ms| - 1;
    assert forall k :: 0 <= k < n ==> init[k] == ms[k];
    if k :| LastSeals(ms, password, email, secret, k) {
      assert k < n ==> LastSeals(init, password, email, secret, k);
    }
    if k :| LastSeals(init, password, email, secret, k) {
      assert (ms[n].email == email && ms[n].secret.Some?) || LastSeals(ms, password, email, secret, k);
    }
    assert ms[n].email == email && Seals(ms[n], password, secret) ==> LastSeals(ms, password, email, secret, n);
  }

  function NewAccount(s: State, m: Entry): Account {
    Account(s.nextId, m.email, m.server, false, "")
  }

  /** The row is in, and no profile shows it. */
  function Inserted(s: State, m: Entry): State {
    s.(unlinked := s.unlinked + [NewAccount(s, m)], nextId := s.nextId + 1)
  }

  function Created(s: State, m: Entry): State {
    s.(accounts := s.accounts + [NewAccount(s, m)], nextId := s.nextId + 1)
  }

  /** One entry imported to its end. `blind`: what the keyring holds could not be read
      at that moment. */
  function Step(s: State, m: Entry, secrets: Secrets, blind: bool): State {
    match AccountOf(s.accounts, m.email)
    case Some(a) =>
      if m.email in secrets && (blind || a.id !in s.creds) then s.(creds := s.creds[a.id := secrets[m.email]]) else s
    case None =>
      if m.email in secrets then Created(s, m).(creds := s.creds[s.nextId := secrets[m.email]]) else Created(s, m)
  }

  /** `blind` has the entries at which the keyring could not be read. */
  function Imported(s: State, ms: seq<Entry>, secrets: Secrets, blind: set<int>): State {
    if ms == [] then s
    else Step(Imported(s, ms[..|ms| - 1], secrets, blind), ms[|ms| - 1], secrets, |ms| - 1 in blind)
  }

  /** An import stopped between two writes, or finished. */
  ghost predicate StoppedAt(s: State, mid: State, ms: seq<Entry>, secrets: Secrets, blind: set<int>, k: int) {
    && 0 <= k <= |ms|
    && (|| mid == Imported(s, ms[..k], secrets, blind)
        || (k < |ms| && StoppedIn(Imported(s, ms[..k], secrets, blind), mid, ms[k])))
  }

  predicate StoppedIn(at: State, mid: State, m: Entry) {
    AccountOf(at.accounts, m.email) == None && (mid == Inserted(at, m) || mid == Created(at, m))
  }

  // ----- the methods

  /** Writing an account or a credential may fail; it then changes nothing. So may
      reading a credential. */
  class Install {
    var accounts: seq<Account>
    var unlinked: seq<Account>
    var nextId: int
    var creds: map<int, Secret>
    var faults: seq<bool>

    constructor (faults: seq<bool>)
      ensures Now() == State([], [], 1, map[]) && this.faults == faults
    {
      accounts, unlinked, nextId, creds, this.faults := [], [], 1, map[], faults;
    }

    function Now(): State
      reads this
    {
      State(accounts, unlinked, nextId, creds)
    }

    method Works() returns (ok: bool)
      modifies this`faults
      ensures ok <==> !FaultAt(old(faults), 0)
      ensures faults == After(old(faults), 1)
    {
      ok := true;
      if faults != [] {
        ok, faults := !faults[0], faults[1..];
      }
    }

    /** The row, and then its place in the profile. */
    method CreateAccount(m: Entry) returns (id: Option<int>)
      modifies this
      ensures id.None? ==> Now() == old(Now()) || Now() == Inserted(old(Now()), m)
      ensures id.Some? ==> id.value == old(nextId) && Now() == Created(old(Now()), m)
      ensures old(faults) == [] ==> faults == [] && id.Some?
    {
      id := None;
      var ok := Works();
      if ok {
        var row := NewAccount(Now(), m);
        unlinked, nextId := unlinked + [row], nextId + 1;
        ok := Works();
        if ok {
          unlinked, accounts := unlinked[..|unlinked| - 1], accounts + [row];
          id := Some(row.id);
        }
      }
    }

    /** credentials.Load without an error. */
    method Reads(id: int) returns (readable: bool)
      modifies this`faults
      ensures readable ==> id in creds
      ensures old(faults) == [] ==> faults == [] && (readable <==> id in creds)
    {
      readable := Works();
      readable := readable && id in creds;
    }

    method Store(id: int, secret: Secret) returns (ok: bool)
      modifies this
      ensures Now() == if ok then old(Now()).(creds := old(creds)[id := secret]) else old(Now())
      ensures old(faults) == [] ==> faults == [] && ok
    {
      ok := Works();
      if ok {
        creds := creds[id := secret];
      }
    }
  }

  method OpenSecrets(ms: seq<Entry>, password: string) returns (r: Option<Secrets>)
    ensures r == Opened(ms, password)
    ensures r == None <==> CannotOpen(ms, password)
  {
    OpenedExactlyWhen(ms, password);
    var secrets: Secrets := map[];
    if password == "" {
      return Some(secrets);
    }
    var k := 0;
    while k < |ms|
      invariant 0 <= k <= |ms|
      invariant Opened(ms[..k], password) == Some(secrets)
    {
      OpenedStep(ms, k, password);
      var m := ms[k];
      if m.secret.Some? {
        var plaintext := Decrypt(password, m.secret.value);
        if plaintext == None || Decode(plaintext.value) == None {
          OpenedFails(ms, k + 1, password);
          return None;
        }
        secrets := secrets[m.email := Decode(plaintext.value).value];
      }
      k := k + 1;
    }
    assert ms[..k] == ms;
    r := Some(secrets);
  }

  lemma OpenedStep(ms: seq<Entry>, k: nat, password: string)
    requires k < |ms|
    ensures ms[..k + 1][..k] == ms[..k] && ms[..k + 1][k] == ms[k]
  {
  }

  lemma {:induction false} OpenedFails(ms: seq<Entry>, k: nat, password: string)
    requires k <= |ms| && Opened(ms[..k], password) == None
    ensures Opened(ms, password) == None
    decreases |ms|
  {
    if k < |ms| {
      assert ms[..|ms| - 1][..k] == ms[..k];
      OpenedFails(ms[..|ms| - 1], k, password);
    } else {
      assert ms[..k] == ms;
    }
  }

  /** `have` in importMailboxes. */
  method Index(accounts: seq<Account>) returns (have: map<string, int>)
    ensures Knows(have, accounts)
  {
    have := map[];
    var k := 0;
    while k < |accounts|
      invariant 0 <= k <= |accounts|
      invariant Knows(have, accounts[..k])
    {
      assert accounts[..k + 1] == accounts[..k] + [accounts[k]];
      have := have[accounts[k].email := accounts[k].id];
      k := k + 1;
    }
    assert accounts[..k] == accounts;
  }

  ghost predicate Knows(have: map<string, int>, accounts: seq<Account>) {
    forall e :: (e in have <==> AccountOf(accounts, e).Some?) && (e in have ==> have[e] == AccountOf(accounts, e).value.id)
  }

  lemma AccountOfMore(accounts: seq<Account>, a: Account, e: string)
    ensures AccountOf(accounts + [a], e) == if a.email == e then Some(a) else AccountOf(accounts, e)
  {
    assert (accounts + [a])[..|accounts|] == accounts;
  }

  /** importMailboxes. A credential that cannot be decrypted leaves everything as it
      was. */
  method ImportMailboxes(i: Install, ms: seq<Entry>, password: string)
    returns (ok: bool, ghost blind: set<int>, ghost k: int)
    modifies i
    ensures CannotOpen(ms, password) ==> !ok && i.Now() == old(i.Now())
    ensures Opened(ms, password) == None <==> CannotOpen(ms, password)
    ensures !CannotOpen(ms, password) && ok ==>
      i.Now() == Imported(old(i.Now()), ms, Opened(ms, password).value, blind)
    ensures !CannotOpen(ms, password) ==> StoppedAt(old(i.Now()), i.Now(), ms, Opened(ms, password).value, blind, k)
    ensures old(i.faults) == [] ==> i.faults == [] && blind == {} && (ok <==> !CannotOpen(ms, password))
  {
    ghost var before := i.Now();
    blind, k := {}, 0;
    var unlocked := OpenSecrets(ms, password);
    if unlocked == None {
      return false, {}, 0;
    }
    var secrets := unlocked.value;
    var listed := i.Works();
    assert ms[..0] == [] && i.Now() == before;
    if !listed {
      return false, {}, 0;
    }
    var have := Index(i.accounts);
    var n := 0;
    while n < |ms|
      invariant 0 <= n <= |ms|
      invariant i.Now() == Imported(before, ms[..n], secrets, blind) && forall j :: j in blind ==> j < n
      invariant Knows(have, i.accounts)
      invariant old(i.faults) == [] ==> i.faults == [] && blind == {}
    {
      k := n;
      var id;
      ghost var unread;
      ok, id, unread := ImportOne(i, ms[n], secrets, have);
      if !ok {
        return;
      }
      ImportedStep(before, ms, secrets, blind, n, unread);
      blind := if unread then blind + {n} else blind;
      if ms[n].email !in have {
        have := have[ms[n].email := id];
      }
      n := n + 1;
    }
    assert ms[..n] == ms;
    k := n;
    ok := true;
  }

  lemma {:induction false} LaterBlind(s: State, ms: seq<Entry>, secrets: Secrets, blind: set<int>, more: set<int>)
    requires forall j :: 0 <= j < |ms| ==> (j in blind <==> j in more)
    ensures Imported(s, ms, secrets, blind) == Imported(s, ms, secrets, more)
  {
    if ms != [] {
      LaterBlind(s, ms[..|ms| - 1], secrets, blind, more);
    }
  }

  lemma ImportedStep(s: State, ms: seq<Entry>, secrets: Secrets, blind: set<int>, k: nat, unread: bool)
    requires k < |ms| && forall j :: j in blind ==> j < k
    ensures Imported(s, ms[..k + 1], secrets, if unread then blind + {k} else blind) ==
      Step(Imported(s, ms[..k], secrets, blind), ms[k], secrets, unread)
  {
    var more := if unread then blind + {k} else blind;
    assert ms[..k + 1][..k] == ms[..k];
    LaterBlind(s, ms[..k], secrets, blind, more);
  }

  lemma NewIsKnown(have: map<string, int>, s: State, m: Entry)
    requires Knows(have, s.accounts) && m.email !in have
    ensures AccountOf(s.accounts, m.email) == None
    ensures Knows(have[m.email := s.nextId], Created(s, m).accounts)
  {
    forall e | true ensures AccountOf(Created(s, m).accounts, e) == if m.email == e then Some(NewAccount(s, m)) else AccountOf(s.accounts, e) {
      AccountOfMore(s.accounts, NewAccount(s, m), e);
    }
  }

  /** One entry of the loop. */
  method ImportOne(i: Install, m: Entry, secrets: Secrets, have: map<string, int>)
    returns (ok: bool, id: int, ghost unread: bool)
    requires Knows(have, i.accounts)
    modifies i
    ensures ok ==>
      i.Now() == Step(old(i.Now()), m, secrets, unread) && Knows(if m.email in have then have else have[m.email := id], i.accounts)
    ensures !ok ==> i.Now() == old(i.Now()) || StoppedIn(old(i.Now()), i.Now(), m)
    ensures old(i.faults) == [] ==> i.faults == [] && ok && !unread
  {
    ok, id, unread := true, 0, false;
    if m.email in have {
      id := have[m.email];
      if m.email in secrets {
        var readable := i.Reads(id);
        unread := !readable && id in i.creds;
        if !readable {
          ok := i.Store(id, secrets[m.email]);
        }
      }
      return;
    }
    NewIsKnown(have, i.Now(), m);
    var created := i.CreateAccount(m);
    if created == None {
      return false, 0, false;
    }
    id := created.value;
    if m.email in secrets {
      ok := i.Store(id, secrets[m.email]);
    }
  }

  // ----- one entry

  lemma StepKeepsSane(s: State, m: Entry, secrets: Secrets, blind: bool)
    requires Sane(s) && Clean(s)
    ensures Sane(Step(s, m, secrets, blind)) && Clean(Step(s, m, secrets, blind))
  {
    match AccountOf(s.accounts, m.email) {
      case None =>
      case Some(a) => AccountIsListed(s.accounts, m.email);
    }
  }

  lemma {:induction false} AccountIsListed(accounts: seq<Account>, email: string)
    requires AccountOf(accounts, email).Some?
    ensures AccountOf(accounts, email).value in accounts && AccountOf(accounts, email).value.email == email
  {
    if accounts[|accounts| - 1].email != email {
      AccountIsListed(accounts[..|accounts| - 1], email);
    }
  }

  lemma {:induction false} ImportedSane(s: State, ms: seq<Entry>, secrets: Secrets, blind: set<int>)
    requires Sane(s) && Clean(s)
    ensures Sane(Imported(s, ms, secrets, blind)) && Clean(Imported(s, ms, secrets, blind))
  {
    if ms != [] {
      ImportedSane(s, ms[..|ms| - 1], secrets, blind);
      StepKeepsSane(Imported(s, ms[..|ms| - 1], secrets, blind), ms[|ms| - 1], secrets, |ms| - 1 in blind);
    }
  }

  /** An entry cut short after its account was created is finished by importing it
      again, exactly as if it had not been, if and only if the keyring did not hold
      another credential under the new id. */
  lemma CutShortExactlyWhen(s: State, m: Entry, secrets: Secrets)
    requires AccountOf(s.accounts, m.email) == None
    ensures Step(Created(s, m), m, secrets, false) == Step(s, m, secrets, false) <==>
            (m.email in secrets ==> s.nextId !in s.creds || s.creds[s.nextId] == secrets[m.email])
  {
    AccountOfMore(s.accounts, NewAccount(s, m), m.email);
    var again, once := Step(Created(s, m), m, secrets, false), Step(s, m, secrets, false);
    if m.email in secrets && s.nextId in s.creds {
      assert again.creds == s.creds;
      assert once.creds[s.nextId] == secrets[m.email];
      if s.creds[s.nextId] == secrets[m.email] {
        assert once.creds == s.creds;
      }
    }
  }

  /** In an empty install whose keyring still holds a credential under the first id,
      the account is left with that one. */
  lemma LeftoverStays(m: Entry, stale: Secret, given: Secret)
    requires stale != given
    ensures var s := State([], [], 1, map[1 := stale]);
            && View(Step(s, m, map[m.email := given], false), m.email) == Some((m.server, Some(given)))
            && View(Step(Created(s, m), m, map[m.email := given], false), m.email) == Some((m.server, Some(stale)))
  {
    var s := State([], [], 1, map[1 := stale]);
    AccountOfMore([], NewAccount(s, m), m.email);
  }

  // ----- importing twice

  /** The entry has nothing left to import. */
  ghost predicate Imports(s: State, m: Entry, secrets: Secrets) {
    var a := AccountOf(s.accounts, m.email);
    a.Some? && (m.email in secrets ==> a.value.id in s.creds)
  }

  lemma {:induction false} ImportedImports(s: State, ms: seq<Entry>, secrets: Secrets, blind: set<int>, j: nat)
    requires j < |ms|
    ensures Imports(Imported(s, ms, secrets, blind), ms[j], secrets)
  {
    var init, last := ms[..|ms| - 1], ms[|ms| - 1];
    if j < |init| {
      ImportedImports(s, init, secrets, blind, j);
    } else {
    }
  }

  /** Entries that have nothing left to import are passed over. */
  lemma {:induction false} PassedOver(s: State, ms: seq<Entry>, secrets: Secrets)
    requires forall j :: 0 <= j < |ms| ==> Imports(s, ms[j], secrets)
    ensures Imported(s, ms, secrets, {}) == s
  {
    if ms != [] {
      PassedOver(s, ms[..|ms| - 1], secrets);
    }
  }

  /** Importing twice is importing once. */
  lemma ImportTwice(s: State, ms: seq<Entry>, secrets: Secrets, blind: set<int>)
    ensures Imported(Imported(s, ms, secrets, blind), ms, secrets, {}) == Imported(s, ms, secrets, blind)
  {
    forall j | 0 <= j < |ms| ensures Imports(Imported(s, ms, secrets, blind), ms[j], secrets) {
      ImportedImports(s, ms, secrets, blind, j);
    }
    PassedOver(Imported(s, ms, secrets, blind), ms, secrets);
  }

  // ----- what an import gives, address by address

  /** The configuration and the credential an address leads to. */
  type Mailbox = Option<(Server, Option<Secret>)>

  function View(s: State, email: string): Mailbox {
    match AccountOf(s.accounts, email)
    case None => None
    case Some(a) => Some((a.server, if a.id in s.creds then Some(s.creds[a.id]) else None))
  }

  /** The configuration of the first entry for an address. */
  function FirstServer(ms: seq<Entry>, email: string): Option<Server> {
    if ms == [] then None
    else if FirstServer(ms[..|ms| - 1], email).Some? then FirstServer(ms[..|ms| - 1], email)
    else if ms[|ms| - 1].email == email then Some(ms[|ms| - 1].server)
    else None
  }

  /** The first entry of an address is meant, and there is none only if none is for it. */
  lemma {:induction false} FirstServerExactlyWhen(ms: seq<Entry>, email: string, server: Server)
    ensures FirstServer(ms, email) == Some(server) <==> exists k :: FirstFor(ms, email, k) && ms[k].server == server
    ensures FirstServer(ms, email) == None <==> forall k :: 0 <= k < |ms| ==> ms[k].email != email
  {
    if ms != [] {
      var init, n := ms[..|ms| - 1], |ms| - 1;
      FirstServerExactlyWhen(init, email, server);
      assert forall k :: 0 <= k < n ==> init[k] == ms[k];
      if k :| FirstFor(init, email, k) && init[k].server == server {
        assert FirstFor(ms, email, k);
      }
      if k :| FirstFor(ms, email, k) && ms[k].server == server {
        assert k < n ==> FirstFor(init, email, k);
      }
      assert (forall k :: 0 <= k < n ==> init[k].email != email) && ms[n].email == email ==> FirstFor(ms, email, n);
    }
  }

  ghost predicate FirstFor(ms: seq<Entry>, email: string, k: int) {
    0 <= k < |ms| && ms[k].email == email && forall j :: 0 <= j < k ==> ms[j].email != email
  }

  /** Some entry for the address found the keyring unreadable. */
  ghost predicate Unread(ms: seq<Entry>, blind: set<int>, email: string) {
    exists j :: 0 <= j < |ms| && j in blind && ms[j].email == email
  }

  /** What was there stays, with a credential filled in if there was none to read; what
      was not is as its first entry says. `unread`: what there was could not be read,
      and is written over. */
  function Expected(was: Mailbox, first: Option<Server>, secret: Option<Secret>, unread: bool): Mailbox {
    if first == None then was
    else match was
         case None => Some((first.value, secret))
         case Some((server, held)) => Some((server, if held == None || (unread && secret.Some?) then secret else held))
  }

  lemma StepView(s: State, m: Entry, secrets: Secrets, blind: bool, e: string)
    requires Sane(s) && Clean(s)
    ensures View(Step(s, m, secrets, blind), e) ==
      if e == m.email then Expected(View(s, e), Some(m.server), Get(secrets, e), blind) else View(s, e)
  {
    match AccountOf(s.accounts, m.email) {
      case None =>
        AccountOfMore(s.accounts, NewAccount(s, m), e);
        if AccountOf(s.accounts, e).Some? {
          AccountIsListed(s.accounts, e);
        }
      case Some(a) =>
        AccountIsListed(s.accounts, m.email);
        if AccountOf(s.accounts, e).Some? {
          AccountIsListed(s.accounts, e);
        }
    }
  }

  /** What an import gives an address. */
  lemma {:induction false} ImportView(s: State, ms: seq<Entry>, secrets: Secrets, blind: set<int>, e: string)
    requires Sane(s) && Clean(s)
    ensures View(Imported(s, ms, secrets, blind), e) ==
      Expected(View(s, e), FirstServer(ms, e), Get(secrets, e), Unread(ms, blind, e))
  {
    if ms != [] {
      var init, last := ms[..|ms| - 1], ms[|ms| - 1];
      ImportView(s, init, secrets, blind, e);
      ImportedSane(s, init, secrets, blind);
      StepView(Imported(s, init, secrets, blind), last, secrets, |init| in blind, e);
      UnreadMore(ms, blind, e);
      UnreadHasEntry(init, blind, e);
    }
  }

  lemma UnreadMore(ms: seq<Entry>, blind: set<int>, e: string)
    requires ms != []
    ensures Unread(ms, blind, e) <==> Unread(ms[..|ms| - 1], blind, e) || (ms[|ms| - 1].email == e && |ms| - 1 in blind)
  {
    var init := ms[..|ms| - 1];
    assert forall j :: 0 <= j < |init| ==> init[j] == ms[j];
  }

  lemma {:induction false} UnreadHasEntry(ms: seq<Entry>, blind: set<int>, e: string)
    ensures Unread(ms, blind, e) ==> FirstServer(ms, e).Some?
  {
    if ms != [] {
      UnreadMore(ms, blind, e);
      UnreadHasEntry(ms[..|ms| - 1], blind, e);
    }
  }

  /** No account is changed, and what an address had stays, unless its credential could
      not be read at that moment and the file has another. */
  lemma NothingOverwrittenExactlyWhen(s: State, ms: seq<Entry>, secrets: Secrets, blind: set<int>, e: string)
    requires Sane(s) && Clean(s) && View(s, e).Some? && View(s, e).value.1.Some?
    ensures s.accounts <= Imported(s, ms, secrets, blind).accounts
    ensures View(Imported(s, ms, secrets, blind), e) == View(s, e) <==>
            !(Unread(ms, blind, e) && e in secrets && Some(secrets[e]) != View(s, e).value.1)
  {
    ImportView(s, ms, secrets, blind, e);
    UnreadHasEntry(ms, blind, e);
    AccountsStay(s, ms, secrets, blind);
  }

  lemma {:induction false} AccountsStay(s: State, ms: seq<Entry>, secrets: Secrets, blind: set<int>)
    ensures s.accounts <= Imported(s, ms, secrets, blind).accounts
    ensures Imported(s, ms, secrets, blind).unlinked == s.unlinked
  {
    if ms != [] {
      AccountsStay(s, ms[..|ms| - 1], secrets, blind);
    }
  }

  /** An install of one mailbox: a read refused for a moment costs its credential. */
  lemma UnreadIsOverwritten(m: Entry, held: Secret, given: Secret)
    requires held != given
    ensures var s := State([Account(1, m.email, m.server, false, "")], [], 2, map[1 := held]);
            && View(s, m.email) == Some((m.server, Some(held)))
            && View(Imported(s, [m], map[m.email := given], {0}), m.email) == Some((m.server, Some(given)))
  {
    var s := State([Account(1, m.email, m.server, false, "")], [], 2, map[1 := held]);
    ImportView(s, [m], map[m.email := given], {0}, m.email);
    assert [m][..0] == [];
    assert [m][0] == m && 0 in {0};
    assert Unread([m], {0}, m.email);
  }

  // ----- convergence

  /** What imports, stopped or not, can have made of an address. */
  ghost predicate Between(was: Mailbox, now: Mailbox, first: Option<Server>, secret: Option<Secret>, unread: bool) {
    || now == was
    || Outcome(was, now, first, secret, unread)
    || (was == None && first.Some? && now == Some((first.value, None)))
  }

  /** What imports run to the end can. */
  ghost predicate Outcome(was: Mailbox, now: Mailbox, first: Option<Server>, secret: Option<Secret>, unread: bool) {
    now == Expected(was, first, secret, false) || (unread && now == Expected(was, first, secret, true))
  }

  lemma {:induction false} FirstOfPrefix(ms: seq<Entry>, k: nat, e: string)
    requires k <= |ms|
    ensures FirstServer(ms[..k], e).Some? ==> FirstServer(ms, e) == FirstServer(ms[..k], e)
    ensures k < |ms| && FirstServer(ms[..k], e) == None && ms[k].email == e ==> FirstServer(ms, e) == Some(ms[k].server)
    decreases |ms|
  {
    if k < |ms| {
      var init := ms[..|ms| - 1];
      assert init[..k] == ms[..k];
      FirstOfPrefix(init, k, e);
    } else {
      assert ms[..k] == ms;
    }
  }

  /** Of each address an import stopped anywhere has made what it had, what the whole
      import makes of it, or its configuration without a credential. */
  lemma StoppedView(s: State, mid: State, ms: seq<Entry>, secrets: Secrets, blind: set<int>, k: int, e: string)
    requires Sane(s) && Clean(s) && StoppedAt(s, mid, ms, secrets, blind, k)
    ensures Between(View(s, e), View(mid, e), FirstServer(ms, e), Get(secrets, e), Unread(ms, blind, e))
    ensures Sane(mid) && Clean(mid)
  {
    var at := Imported(s, ms[..k], secrets, blind);
    ImportView(s, ms[..k], secrets, blind, e);
    ImportedSane(s, ms[..k], secrets, blind);
    FirstOfPrefix(ms, k, e);
    if mid != at {
      CutShortView(at, ms[k], e);
    } else {
      UnreadHasEntry(ms[..k], blind, e);
    }
  }

  lemma CutShortView(at: State, m: Entry, e: string)
    requires Sane(at) && Clean(at) && AccountOf(at.accounts, m.email) == None
    ensures View(Inserted(at, m), e) == View(at, e)
    ensures View(Created(at, m), e) == if e == m.email then Some((m.server, None)) else View(at, e)
    ensures Sane(Inserted(at, m)) && Clean(Inserted(at, m)) && Sane(Created(at, m)) && Clean(Created(at, m))
  {
    AccountOfMore(at.accounts, NewAccount(at, m), e);
    if AccountOf(at.accounts, e).Some? {
      AccountIsListed(at.accounts, e);
    }
  }

  /** An import stopped after any write, or finished, and then run to its end gives
      every address what one uninterrupted import would have given it; a credential
      that could not be read on the way, by the one or the other, may be the file's. */
  lemma Converges(s: State, mid: State, ms: seq<Entry>, secrets: Secrets, blind: set<int>, k: int, again: set<int>,
                  e: string)
    requires Sane(s) && Clean(s) && StoppedAt(s, mid, ms, secrets, blind, k)
    ensures Outcome(View(s, e), View(Imported(mid, ms, secrets, again), e), FirstServer(ms, e), Get(secrets, e), Unread(ms, blind, e) || Unread(ms, again, e))
    ensures !Unread(ms, blind, e) && !Unread(ms, again, e) ==>
      View(Imported(mid, ms, secrets, again), e) == View(Imported(s, ms, secrets, {}), e)
  {
    StoppedView(s, mid, ms, secrets, blind, k, e);
    ImportView(mid, ms, secrets, again, e);
    ImportView(s, ms, secrets, {}, e);
  }

  /** A row that missed its profile stays behind: whatever is imported later, no
      account is ever made of it. */
  lemma UnlinkedStays(s: State, m: Entry, ms: seq<Entry>, secrets: Secrets, blind: set<int>)
    ensures Imported(Inserted(s, m), ms, secrets, blind).unlinked == s.unlinked + [NewAccount(s, m)]
  {
    AccountsStay(Inserted(s, m), ms, secrets, blind);
  }

  function Addresses(ms: seq<Entry>, blind: set<int>): set<string> {
    set j | 0 <= j < |ms| && j in blind :: ms[j].email
  }

  /** Imports, each stopped anywhere, until one runs to its end or the tries are up:
      the one that does gives every address what a single uninterrupted import would
      have given it, those apart whose credential could not be read at some point. */
  method ImportRetried(i: Install, ms: seq<Entry>, password: string, tries: nat)
    returns (ok: bool, ghost unread: set<string>)
    requires Sane(i.Now()) && Clean(i.Now())
    modifies i
    ensures CannotOpen(ms, password) ==> !ok && i.Now() == old(i.Now())
    ensures ok ==> !CannotOpen(ms, password)
    ensures Opened(ms, password) == None <==> CannotOpen(ms, password)
    ensures ok ==>
      forall e :: Outcome(View(old(i.Now()), e), View(i.Now(), e), FirstServer(ms, e), Get(Opened(ms, password).value, e), e in unread)
    ensures old(i.faults) == [] ==> unread == {} && (tries > 0 ==> (ok <==> !CannotOpen(ms, password)))
  {
    OpenedExactlyWhen(ms, password);
    ok, unread := false, {};
    ghost var start := i.Now();
    var k := 0;
    while k < tries && !ok
      invariant Sane(i.Now()) && Clean(i.Now())
      invariant CannotOpen(ms, password) ==> !ok && i.Now() == start
      invariant !CannotOpen(ms, password) ==> Underway(start, i.Now(), ms, Opened(ms, password).value, unread)
      invariant ok ==> !CannotOpen(ms, password)
      invariant ok ==>
        forall e :: Outcome(View(start, e), View(i.Now(), e), FirstServer(ms, e), Get(Opened(ms, password).value, e), e in unread)
      invariant old(i.faults) == [] ==>
        i.faults == [] && unread == {} && (k > 0 ==> (ok <==> !CannotOpen(ms, password)))
    {
      ghost var before, blind, n := i.Now(), {}, 0;
      ok, blind, n := ImportMailboxes(i, ms, password);
      if !CannotOpen(ms, password) {
        AttemptGoesOn(start, before, i.Now(), ms, Opened(ms, password).value, blind, n, unread);
        unread := unread + Addresses(ms, blind);
      }
      k := k + 1;
    }
  }

  ghost predicate Underway(start: State, now: State, ms: seq<Entry>, secrets: Secrets, unread: set<string>) {
    forall e :: Between(View(start, e), View(now, e), FirstServer(ms, e), Get(secrets, e), e in unread)
  }

  lemma AttemptGoesOn(start: State, before: State, now: State, ms: seq<Entry>, secrets: Secrets, blind: set<int>,
                      k: int, unread: set<string>)
    requires Sane(before) && Clean(before) && StoppedAt(before, now, ms, secrets, blind, k)
    requires Underway(start, before, ms, secrets, unread)
    ensures Sane(now) && Clean(now)
    ensures Underway(start, now, ms, secrets, unread + Addresses(ms, blind))
    ensures now == Imported(before, ms, secrets, blind) ==>
            forall e :: Outcome(View(start, e), View(now, e), FirstServer(ms, e), Get(secrets, e), e in unread + Addresses(ms, blind))
  {
    forall e
      ensures Sane(now) && Clean(now)
      ensures Between(View(start, e), View(now, e), FirstServer(ms, e), Get(secrets, e), e in unread + Addresses(ms, blind))
      ensures now == Imported(before, ms, secrets, blind) ==>
              Outcome(View(start, e), View(now, e), FirstServer(ms, e), Get(secrets, e), e in unread + Addresses(ms, blind))
    {
      AddressGoesOn(start, before, now, ms, secrets, blind, k, unread, e);
    }
    AddressGoesOn(start, before, now, ms, secrets, blind, k, unread, "");
  }

  lemma AddressGoesOn(start: State, before: State, now: State, ms: seq<Entry>, secrets: Secrets, blind: set<int>,
                      k: int, unread: set<string>, e: string)
    requires Sane(before) && Clean(before) && StoppedAt(before, now, ms, secrets, blind, k)
    requires Between(View(start, e), View(before, e), FirstServer(ms, e), Get(secrets, e), e in unread)
    ensures Sane(now) && Clean(now)
    ensures Between(View(start, e), View(now, e), FirstServer(ms, e), Get(secrets, e), e in unread + Addresses(ms, blind))
    ensures now == Imported(before, ms, secrets, blind) ==>
            Outcome(View(start, e), View(now, e), FirstServer(ms, e), Get(secrets, e), e in unread + Addresses(ms, blind))
  {
    StoppedView(before, now, ms, secrets, blind, k, e);
    assert Unread(ms, blind, e) <==> e in Addresses(ms, blind);
    if now == Imported(before, ms, secrets, blind) {
      ImportView(before, ms, secrets, blind, e);
    }
    Continues(View(start, e), View(before, e), View(now, e), FirstServer(ms, e), Get(secrets, e), e in unread,
              Unread(ms, blind, e));
  }

  lemma Continues(was: Mailbox, mid: Mailbox, now: Mailbox, first: Option<Server>, secret: Option<Secret>, once: bool,
                  again: bool)
    requires Between(was, mid, first, secret, once)
    ensures Between(mid, now, first, secret, again) ==> Between(was, now, first, secret, once || again)
    ensures Outcome(mid, now, first, secret, again) ==> Outcome(was, now, first, secret, once || again)
  {
  }

  // ----- export, then import

  /** exportMailboxes. */
  function Exported(s: State, password: string): seq<Entry> {
    ExportOf(s.accounts, s.creds, password)
  }

  function ExportOf(accounts: seq<Account>, creds: map<int, Secret>, password: string): seq<Entry> {
    if accounts == [] then []
    else
      var a := accounts[|accounts| - 1];
      ExportOf(accounts[..|accounts| - 1], creds, password) + if a.local then [] else [EntryOf(a, creds, password)]
  }

  function EntryOf(a: Account, creds: map<int, Secret>, password: string): Entry {
    Entry(a.email, a.server, if password != "" && a.id in creds then Some(Blob(password, Encode(creds[a.id]))) else None)
  }

  /** The calls an export makes: the list, and with a password one read a mailbox. */
  function Calls(exported: seq<Entry>, password: string): nat {
    1 + if password == "" then 0 else |exported|
  }

  /** A read that is refused, for any reason but that there is nothing, ends the export
      with an error; otherwise the file has every mailbox with a server. */
  method ExportMailboxes(i: Install, password: string) returns (r: Option<seq<Entry>>)
    modifies i`faults
    ensures r.Some? ==> r.value == Exported(i.Now(), password)
    ensures r == None <==> AnyFault(old(i.faults), Calls(Exported(i.Now(), password), password))
  {
    ghost var faults := i.faults;
    OneMoreCall(faults, 0);
    var listed := i.Works();
    if !listed {
      return None;
    }
    var out, k := [], 0;
    while k < |i.accounts|
      invariant 0 <= k <= |i.accounts|
      invariant out == ExportOf(i.accounts[..k], i.creds, password)
      invariant !AnyFault(faults, Calls(out, password)) && i.faults == After(faults, Calls(out, password))
    {
      assert i.accounts[..k + 1][..k] == i.accounts[..k];
      var a := i.accounts[k];
      if !a.local {
        var m := Entry(a.email, a.server, None);
        if password != "" {
          OneMoreCall(faults, Calls(out, password));
          var read := i.Works();
          if !read {
            ExportGrows(i.accounts, i.creds, password, k + 1);
            return None;
          }
          if a.id in i.creds {
            m := m.(secret := Some(Blob(password, Encode(i.creds[a.id]))));
          }
        }
        out := out + [m];
      }
      k := k + 1;
    }
    assert i.accounts[..k] == i.accounts;
    r := Some(out);
  }

  lemma {:induction false} ExportGrows(accounts: seq<Account>, creds: map<int, Secret>, password: string, k: nat)
    requires k <= |accounts|
    ensures |ExportOf(accounts[..k], creds, password)| <= |ExportOf(accounts, creds, password)|
    decreases |accounts|
  {
    if k < |accounts| {
      var init := accounts[..|accounts| - 1];
      assert init[..k] == accounts[..k];
      ExportGrows(init, creds, password, k);
    } else {
      assert accounts[..k] == accounts;
    }
  }

  function SecretOf(a: Account, creds: map<int, Secret>, password: string): Option<Secret> {
    if password != "" && a.id in creds then Some(creds[a.id]) else None
  }

  predicate IsMailbox(a: Account, e: string) {
    !a.local && a.email == e
  }

  /** The first mailbox of an address gives the server; */
  function FirstOf(accounts: seq<Account>, e: string): Option<Server> {
    if accounts == [] then None
    else
      var init, a := accounts[..|accounts| - 1], accounts[|accounts| - 1];
      if FirstOf(init, e).Some? then FirstOf(init, e) else if IsMailbox(a, e) then Some(a.server) else None
  }

  /** the last one that has a credential gives that. */
  function LastSecret(accounts: seq<Account>, creds: map<int, Secret>, password: string, e: string): Option<Secret> {
    if accounts == [] then None
    else
      var init, a := accounts[..|accounts| - 1], accounts[|accounts| - 1];
      if IsMailbox(a, e) && SecretOf(a, creds, password).Some? then SecretOf(a, creds, password)
      else LastSecret(init, creds, password, e)
  }

  lemma EntryAdds(ms: seq<Entry>, a: Account, creds: map<int, Secret>, password: string, e: string)
    requires Opened(ms, password).Some?
    ensures var more := ms + [EntryOf(a, creds, password)];
            && Opened(more, password).Some?
            && FirstServer(more, e) == (if FirstServer(ms, e).Some? then FirstServer(ms, e) else if a.email == e then Some(a.server) else None)
            && Get(Opened(more, password).value, e) == if a.email == e && SecretOf(a, creds, password).Some? then SecretOf(a, creds, password) else Get(Opened(ms, password).value, e)
  {
    var m := EntryOf(a, creds, password);
    assert (ms + [m])[..|ms|] == ms;
    if a.id in creds {
      DecodeOfEncode(creds[a.id]);
    }
  }

  /** What the file has for an address. */
  lemma {:induction false} ExportGives(accounts: seq<Account>, creds: map<int, Secret>, password: string, e: string)
    ensures var ms := ExportOf(accounts, creds, password);
            && Opened(ms, password).Some?
            && FirstServer(ms, e) == FirstOf(accounts, e)
            && Get(Opened(ms, password).value, e) == LastSecret(accounts, creds, password, e)
  {
    if accounts != [] {
      var init, a := accounts[..|accounts| - 1], accounts[|accounts| - 1];
      ExportGives(init, creds, password, e);
      EntryAdds(ExportOf(init, creds, password), a, creds, password, e);
      assert ExportOf(init, creds, password) + [] == ExportOf(init, creds, password);
    }
  }

  /** What an empty install has after importing an export. */
  function Restored(s: State, password: string): State {
    var ms := Exported(s, password);
    Imported(Empty, ms, if Opened(ms, password).Some? then Opened(ms, password).value else map[], {})
  }

  /** An address leads to the server of its first mailbox and the credential of the last
      that has one; one without a mailbox leads to nothing. */
  lemma AddressRestored(s: State, password: string, e: string)
    ensures Opened(Exported(s, password), password).Some?
    ensures View(Restored(s, password), e) ==
            if FirstOf(s.accounts, e) == None then None
            else Some((FirstOf(s.accounts, e).value, LastSecret(s.accounts, s.creds, password, e)))
  {
    var ms := Exported(s, password);
    ExportGives(s.accounts, s.creds, password, e);
    EmptyIsSane();
    ImportView(Empty, ms, Opened(ms, password).value, {}, e);
  }

  // ----- every mailbox comes back exactly when no two share an address

  /** A mailbox with a server. */
  datatype Box = Box(email: string, server: Server, secret: Option<Secret>)

  function Boxes(accounts: seq<Account>, creds: map<int, Secret>, password: string): seq<Box> {
    if accounts == [] then []
    else
      var a := accounts[|accounts| - 1];
      Boxes(accounts[..|accounts| - 1], creds, password)
      + if a.local then [] else [Box(a.email, a.server, SecretOf(a, creds, password))]
  }

  /** No two mailboxes with a server have the same address. */
  ghost predicate OwnAddresses(accounts: seq<Account>) {
    forall i, j :: 0 <= i < j < |accounts| && !accounts[i].local ==> !IsMailbox(accounts[j], accounts[i].email)
  }

  lemma OwnSteps(accounts: seq<Account>)
    requires accounts != []
    ensures var init, a := accounts[..|accounts| - 1], accounts[|accounts| - 1];
            OwnAddresses(accounts) <==> OwnAddresses(init) && (a.local || FirstOf(init, a.email) == None)
  {
    var init, a := accounts[..|accounts| - 1], accounts[|accounts| - 1];
    FirstOfNone(init, a.email);
    assert forall i :: 0 <= i < |init| ==> init[i] == accounts[i];
  }

  lemma {:induction false} FirstOfNone(accounts: seq<Account>, e: string)
    ensures FirstOf(accounts, e) == None <==> forall i :: 0 <= i < |accounts| ==> !IsMailbox(accounts[i], e)
  {
    if accounts != [] {
      var init := accounts[..|accounts| - 1];
      FirstOfNone(init, e);
      assert forall i :: 0 <= i < |init| ==> init[i] == accounts[i];
    }
  }

  lemma {:induction false} NoSecretOf(accounts: seq<Account>, creds: map<int, Secret>, password: string, e: string)
    ensures FirstOf(accounts, e) == None ==> LastSecret(accounts, creds, password, e) == None
  {
    if accounts != [] {
      NoSecretOf(accounts[..|accounts| - 1], creds, password, e);
    }
  }

  /** The one mailbox of an address is all there is to it. */
  lemma {:induction false} OwnSecret(accounts: seq<Account>, creds: map<int, Secret>, password: string, k: nat)
    requires OwnAddresses(accounts) && k < |accounts| && !accounts[k].local
    ensures LastSecret(accounts, creds, password, accounts[k].email) == SecretOf(accounts[k], creds, password)
  {
    var init := accounts[..|accounts| - 1];
    OwnSteps(accounts);
    if k < |init| {
      OwnSecret(init, creds, password, k);
      assert !IsMailbox(accounts[|init|], accounts[k].email);
    } else {
      NoSecretOf(init, creds, password, accounts[k].email);
    }
  }

  /** What the entries ask for. */
  function Wanted(ms: seq<Entry>, secrets: Secrets): seq<Box> {
    if ms == [] then []
    else
      var m := ms[|ms| - 1];
      Wanted(ms[..|ms| - 1], secrets) + [Box(m.email, m.server, Get(secrets, m.email))]
  }

  lemma {:induction false} ExportWants(accounts: seq<Account>, creds: map<int, Secret>, password: string,
                                       secrets: Secrets)
    requires forall a :: a in accounts && !a.local ==> Get(secrets, a.email) == SecretOf(a, creds, password)
    ensures Wanted(ExportOf(accounts, creds, password), secrets) == Boxes(accounts, creds, password)
  {
    if accounts != [] {
      var init, a := accounts[..|accounts| - 1], accounts[|accounts| - 1];
      ExportWants(init, creds, password, secrets);
      var ms, all := ExportOf(init, creds, password), ExportOf(accounts, creds, password);
      assert a in accounts;
      assert if a.local then all == ms else all[..|all| - 1] == ms && all[|all| - 1] == EntryOf(a, creds, password);
    }
  }

  /** No entry has the address of one before it. */
  predicate NoRepeat(ms: seq<Entry>) {
    ms == [] || (NoRepeat(ms[..|ms| - 1]) && FirstServer(ms[..|ms| - 1], ms[|ms| - 1].email) == None)
  }

  lemma {:induction false} OwnIsNoRepeat(accounts: seq<Account>, creds: map<int, Secret>, password: string)
    ensures NoRepeat(ExportOf(accounts, creds, password)) <==> OwnAddresses(accounts)
  {
    if accounts != [] {
      var init, a := accounts[..|accounts| - 1], accounts[|accounts| - 1];
      OwnIsNoRepeat(init, creds, password);
      OwnSteps(accounts);
      ExportGives(init, creds, password, a.email);
      var ms, all := ExportOf(init, creds, password), ExportOf(accounts, creds, password);
      assert if a.local then all == ms else all[..|all| - 1] == ms && all[|all| - 1].email == a.email;
    }
  }

  lemma {:induction false} BoxesKeep(accounts: seq<Account>, creds: map<int, Secret>, id: int, secret: Secret,
                                     password: string)
    requires forall i :: 0 <= i < |accounts| ==> accounts[i].id < id
    ensures Boxes(accounts, creds[id := secret], password) == Boxes(accounts, creds, password)
  {
    if accounts != [] {
      BoxesKeep(accounts[..|accounts| - 1], creds, id, secret, password);
    }
  }

  const Empty := State([], [], 1, map[])

  lemma EmptyIsSane()
    ensures Sane(Empty) && Clean(Empty)
  {
  }

  /** A step over a new address makes its box. */
  lemma NewBox(at: State, m: Entry, secrets: Secrets, password: string)
    requires Sane(at) && Clean(at) && AccountOf(at.accounts, m.email) == None && (password == "" ==> secrets == map[])
    ensures var after := Step(at, m, secrets, false);
            Boxes(after.accounts, after.creds, password) ==
            Boxes(at.accounts, at.creds, password) + [Box(m.email, m.server, Get(secrets, m.email))]
  {
    var after := Step(at, m, secrets, false);
    if m.email in secrets {
      BoxesKeep(at.accounts, at.creds, at.nextId, secrets[m.email], password);
    }
  }

  /** Entries without a repeated address are all made. */
  lemma {:induction false} AllMade(ms: seq<Entry>, secrets: Secrets, password: string)
    requires NoRepeat(ms) && (password == "" ==> secrets == map[])
    ensures var after := Imported(Empty, ms, secrets, {});
            Boxes(after.accounts, after.creds, password) == Wanted(ms, secrets)
  {
    if ms != [] {
      var init, m := ms[..|ms| - 1], ms[|ms| - 1];
      AllMade(init, secrets, password);
      EmptyIsSane();
      ImportedSane(Empty, init, secrets, {});
      ImportView(Empty, init, secrets, {}, m.email);
      NewBox(Imported(Empty, init, secrets, {}), m, secrets, password);
    }
  }

  /** No import makes two accounts for an address. */
  lemma {:induction false} OnePerAddress(ms: seq<Entry>, secrets: Secrets)
    ensures OwnAddresses(Imported(Empty, ms, secrets, {}).accounts)
  {
    if ms != [] {
      var init, m := ms[..|ms| - 1], ms[|ms| - 1];
      OnePerAddress(init, secrets);
      var at := Imported(Empty, init, secrets, {});
      if AccountOf(at.accounts, m.email) == None {
        var all := at.accounts + [NewAccount(at, m)];
        assert all[..|all| - 1] == at.accounts;
        NotListed(at.accounts, m.email);
        OwnSteps(all);
      }
    }
  }

  lemma {:induction false} NotListed(accounts: seq<Account>, e: string)
    requires AccountOf(accounts, e) == None
    ensures FirstOf(accounts, e) == None
  {
    if accounts != [] {
      NotListed(accounts[..|accounts| - 1], e);
    }
  }

  ghost predicate Apart(boxes: seq<Box>) {
    forall i, j :: 0 <= i < j < |boxes| ==> boxes[i].email != boxes[j].email
  }

  ghost predicate NoneAt(boxes: seq<Box>, e: string) {
    forall i :: 0 <= i < |boxes| ==> boxes[i].email != e
  }

  lemma OneMoreBox(boxes: seq<Box>, b: Box, e: string)
    ensures NoneAt(boxes + [b], e) <==> NoneAt(boxes, e) && b.email != e
    ensures Apart(boxes + [b]) <==> Apart(boxes) && NoneAt(boxes, b.email)
  {
    var all := boxes + [b];
    assert all[|boxes|] == b && forall i :: 0 <= i < |boxes| ==> all[i] == boxes[i];
  }

  lemma {:induction false} OwnIsApart(accounts: seq<Account>, creds: map<int, Secret>, password: string, e: string)
    ensures FirstOf(accounts, e) == None <==> NoneAt(Boxes(accounts, creds, password), e)
    ensures OwnAddresses(accounts) <==> Apart(Boxes(accounts, creds, password))
  {
    if accounts != [] {
      var init, a := accounts[..|accounts| - 1], accounts[|accounts| - 1];
      var boxes := Boxes(init, creds, password);
      OwnIsApart(init, creds, password, e);
      OwnIsApart(init, creds, password, a.email);
      OwnSteps(accounts);
      OneMoreBox(boxes, Box(a.email, a.server, SecretOf(a, creds, password)), e);
      Bytes.EmptyRight(boxes);
    }
  }

  /** An export imported into an empty install gives every mailbox with a server back,
      one for one and in order, with its own configuration and, under a password, its
      own credential, if and only if no two of them share an address. */
  lemma ExportImportRestoresExactlyWhen(s: State, password: string)
    ensures Boxes(Restored(s, password).accounts, Restored(s, password).creds, password) == Boxes(s.accounts, s.creds, password)
       <==> OwnAddresses(s.accounts)
  {
    var ms, restored := Exported(s, password), Restored(s, password);
    ExportGives(s.accounts, s.creds, password, "");
    var secrets := Opened(ms, password).value;
    OnePerAddress(ms, secrets);
    OwnIsApart(restored.accounts, restored.creds, password, "");
    OwnIsApart(s.accounts, s.creds, password, "");
    if OwnAddresses(s.accounts) {
      OwnIsNoRepeat(s.accounts, s.creds, password);
      forall a | a in s.accounts && !a.local ensures Get(secrets, a.email) == SecretOf(a, s.creds, password) {
        var k :| 0 <= k < |s.accounts| && s.accounts[k] == a;
        OwnSecret(s.accounts, s.creds, password, k);
        ExportGives(s.accounts, s.creds, password, a.email);
      }
      ExportWants(s.accounts, s.creds, password, secrets);
      NothingOpened(ms, password);
      AllMade(ms, secrets, password);
    }
  }

  lemma {:induction false} NothingOpened(ms: seq<Entry>, password: string)
    ensures password == "" ==> Opened(ms, password) == Some(map[])
  {
  }

  /** Two mailboxes at one address come back as one, with the server of the first and
      the credential of the second. */
  lemma SharedAddressMerges(e: string, one: Server, two: Server, x: Secret, y: Secret)
    ensures var s := State([Account(1, e, one, false, ""), Account(2, e, two, false, "")], [], 3, map[1 := x, 2 := y]);
            && View(Restored(s, "p"), e) == Some((one, Some(y)))
            && OwnAddresses(Restored(s, "p").accounts)
  {
    var a, b, creds := Account(1, e, one, false, ""), Account(2, e, two, false, ""), map[1 := x, 2 := y];
    var s := State([a, b], [], 3, creds);
    AddressRestored(s, "p", e);
    assert [a, b][..1] == [a] && [a][..0] == [];
    assert FirstOf([a], e) == Some(one);
    ExportGives(s.accounts, creds, "p", "");
    OnePerAddress(Exported(s, "p"), Opened(Exported(s, "p"), "p").value);
  }
}
