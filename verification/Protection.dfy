/** What the compose window suggests for a message and what sending it then needs
    (internal/desktop/bind_compose_pgp.go, internal/crypto/pgp.go, keys.go). */
module Protection {
  import opened Bytes
  import opened Options
  import opened KeyRings

  // ----- looking keys up

  predicate Carries(k: Key, email: string) {
    exists i :: 0 <= i < |k.emails| && Lower(k.emails[i]) == Clean(email)
  }

  function Clean(email: string): string {
    Lower(TrimSpace(email))
  }

  /** entityForEmail: the first key that carries the address. */
  function ForEmail(list: Ring, email: string): Option<Key> {
    if list == [] then None
    else if Carries(list[0], email) then Some(list[0])
    else ForEmail(list[1..], email)
  }

  /** An address is carried in any case, and with any blanks around it in the question. */
  lemma CarriesExactlyWhen(k: Key, email: string)
    ensures Carries(k, email) <==> exists i :: 0 <= i < |k.emails| && SameFolded(k.emails[i], TrimSpace(email))
  {
    forall i | 0 <= i < |k.emails| ensures Lower(k.emails[i]) == Clean(email) <==> SameFolded(k.emails[i], TrimSpace(email)) {
      CaseIgnored(k.emails[i], TrimSpace(email));
    }
  }

  /** The first key that carries it, and none only if none does. */
  lemma {:induction false} ForEmailIsFirst(list: Ring, email: string)
    ensures match ForEmail(list, email)
            case None => forall i :: 0 <= i < |list| ==> !Carries(list[i], email)
            case Some(k) => exists i :: 0 <= i < |list| && list[i] == k && Carries(k, email) && forall j :: 0 <= j < i ==> !Carries(list[j], email)
  {
    if list != [] && !Carries(list[0], email) {
      var rest := list[1..];
      ForEmailIsFirst(rest, email);
      assert forall i :: 0 < i < |list| ==> list[i] == rest[i - 1];
      if ForEmail(rest, email).Some? {
        var i :| 0 <= i < |rest| && rest[i] == ForEmail(rest, email).value && Carries(rest[i], email) && forall j :: 0 <= j < i ==> !Carries(rest[j], email);
        assert list[i + 1] == rest[i];
      }
    }
  }

  function RecipientKey(r: Rings, email: string): Option<Key> {
    ForEmail(r.pub, email)
  }

  function SenderKey(r: Rings, email: string): Option<Key> {
    match ForEmail(r.sec, email)
    case None => None
    case Some(k) => if k.secret == None then None else Some(k)
  }

  predicate KeyLocked(k: Key) {
    k.secret.Some? && k.secret.value.passphrase.Some?
  }

  /** The passphrases held for the session or remembered, by fingerprint. */
  type Passphrases = map<string, string>

  function PassphraseFor(held: Passphrases, k: Key): Option<string> {
    if Id(k) in held then Some(held[Id(k)]) else None
  }

  predicate Unlocks(k: Key, passphrase: Option<string>) {
    !KeyLocked(k) || passphrase == k.secret.value.passphrase
  }

  // ----- the suggestion

  const NONE: string := "none"
  const SIGN: string := "sign"
  const ENCRYPT: string := "encrypt"
  const SIGN_ENCRYPT: string := "signencrypt"

  predicate Encrypts(protection: string) {
    protection == ENCRYPT || protection == SIGN_ENCRYPT
  }

  predicate Signs(protection: string) {
    protection == SIGN || protection == SIGN_ENCRYPT
  }

  datatype Account = Account(email: string, pgpDefault: string)

  /** All that is possible when the account says auto, and never more than that. */
  function SuggestedProtection(accountDefault: string, canSign: bool, canEncrypt: bool): (p: string)
    ensures accountDefault == "auto" ==> (Encrypts(p) <==> canEncrypt) && (Signs(p) <==> canSign)
    ensures accountDefault == "sign" ==> !Encrypts(p) && (Signs(p) <==> canSign)
    ensures accountDefault != "auto" && accountDefault != "sign" ==> p == "none"
    ensures !Encrypts(p) && !Signs(p) ==> p == "none"
  {
    if accountDefault == "sign" then if canSign then SIGN else NONE
    else if accountDefault == "auto" then
      if canEncrypt && canSign then SIGN_ENCRYPT
      else if canEncrypt then ENCRYPT
      else if canSign then SIGN
      else NONE
    else NONE
  }

  datatype Checked = Checked(email: string, hasKey: bool)

  datatype Status = Status(canSign: bool, signerLocked: bool, canEncrypt: bool, recipients: seq<Checked>, suggested: string)

  predicate Reachable(r: Rings, email: string) {
    Clean(email) == "" || RecipientKey(r, Clean(email)).Some?
  }

  predicate AllReachable(r: Rings, emails: seq<string>) {
    forall i :: 0 <= i < |emails| ==> Reachable(r, emails[i])
  }

  function CheckAll(r: Rings, emails: seq<string>): seq<Checked> {
    if emails == [] then []
    else
      var email := Clean(emails[|emails| - 1]);
      CheckAll(r, emails[..|emails| - 1]) + if email == "" then [] else [Checked(email, RecipientKey(r, email).Some?)]
  }

  /** ComposeProtectionStatus; without a key store everything is off. */
  method ComposeProtectionStatus(account: Account, keys: Option<Rings>, held: Passphrases, emails: seq<string>)
    returns (s: Status)
    ensures keys == None ==> s == Status(false, false, false, [], NONE)
    ensures keys.Some? ==>
      && (s.canSign <==> SenderKey(keys.value, account.email).Some?)
      && (s.signerLocked <==> s.canSign && SignerLocked(account, keys.value, held))
      && (s.canEncrypt <==> emails != [] && AllReachable(keys.value, emails))
      && s.recipients == CheckAll(keys.value, emails)
      && s.suggested == SuggestedProtection(account.pgpDefault, s.canSign, s.canEncrypt)
  {
    if keys == None {
      return Status(false, false, false, [], NONE);
    }
    var signer := SenderKey(keys.value, account.email);
    var locked := signer.Some? && KeyLocked(signer.value) && PassphraseFor(held, signer.value) == None;
    var canEncrypt, recipients, k := emails != [], [], 0;
    while k < |emails|
      invariant 0 <= k <= |emails|
      invariant canEncrypt <==> emails != [] && AllReachable(keys.value, emails[..k])
      invariant recipients == CheckAll(keys.value, emails[..k])
    {
      assert emails[..k + 1][..k] == emails[..k];
      assert AllReachable(keys.value, emails[..k + 1]) <==> AllReachable(keys.value, emails[..k]) && Reachable(keys.value, emails[k]) by {
        assert emails[..k + 1] == emails[..k] + [emails[k]];
      }
      var email := Clean(emails[k]);
      if email != "" {
        var has := RecipientKey(keys.value, email).Some?;
        if !has {
          canEncrypt := false;
        }
        recipients := recipients + [Checked(email, has)];
      }
      k := k + 1;
    }
    assert emails[..k] == emails;
    s := Status(signer.Some?, locked, canEncrypt, recipients, SuggestedProtection(account.pgpDefault, signer.Some?, canEncrypt));
  }

  /** The signing key is locked and no passphrase for it is held. */
  predicate SignerLocked(account: Account, r: Rings, held: Passphrases) {
    var signer := SenderKey(r, account.email);
    signer.Some? && KeyLocked(signer.value) && Id(signer.value) !in held
  }

  // ----- what one send is given

  datatype Message = Message(protection: string, to: seq<string>, cc: seq<string>, bcc: seq<string>)

  datatype Mode = ModeNone | ModeSign | ModeEncrypt | ModeSignEncrypt

  function CryptoMode(protection: string): Mode {
    if protection == SIGN then ModeSign
    else if protection == ENCRYPT then ModeEncrypt
    else if protection == SIGN_ENCRYPT then ModeSignEncrypt
    else ModeNone
  }

  datatype Outcome =
    | Clear
    | BccRefused
    | NoKeyStore
    | MissingKeys(emails: seq<string>)
    | NoRecipients
    | NoSenderKey
    | PassphraseRequired
    | Given(mode: Mode, sender: string, recipients: seq<string>, passphrase: Option<string>)

  function Group(m: Message): seq<string> {
    m.to + m.cc + m.bcc
  }

  /** The addresses, cleaned, of those without a key or of those with one. */
  function Pick(r: Rings, emails: seq<string>, withKey: bool): seq<string> {
    if emails == [] then []
    else
      var email := Clean(emails[|emails| - 1]);
      Pick(r, emails[..|emails| - 1], withKey) + if email != "" && RecipientKey(r, email).Some? == withKey then [email] else []
  }

  /** The decision of protectionOptions, told without its loops. */
  function Decision(account: Account, keys: Option<Rings>, held: Passphrases, m: Message): Outcome {
    var mode := CryptoMode(m.protection);
    if mode == ModeNone then Clear
    else if Encrypts(m.protection) && m.bcc != [] then BccRefused
    else if keys == None then NoKeyStore
    else
      var r := keys.value;
      var recipients := if Encrypts(m.protection) then Pick(r, Group(m), true) else [];
      if Encrypts(m.protection) && Pick(r, Group(m), false) != [] then MissingKeys(Pick(r, Group(m), false))
      else if Encrypts(m.protection) && recipients == [] then NoRecipients
      else if !Signs(m.protection) then Given(mode, account.email, recipients, None)
      else match SenderKey(r, account.email)
           case None => NoSenderKey
           case Some(signer) =>
             if !KeyLocked(signer) then Given(mode, account.email, recipients, None)
             else match PassphraseFor(held, signer)
                  case None => PassphraseRequired
                  case Some(p) => Given(mode, account.email, recipients, Some(p))
  }

  /** Nothing is done if and only if the protection is none of the three words; the mode
      given encrypts if and only if the word does, and signs if and only if it does. */
  predicate ModeAsked(protection: string, o: Outcome) {
    && (o == Clear <==> protection != "sign" && protection != "encrypt" && protection != "signencrypt")
    && (o.Given? ==>
      && (o.mode == ModeEncrypt || o.mode == ModeSignEncrypt <==> protection == "encrypt" || protection == "signencrypt")
      && (o.mode == ModeSign || o.mode == ModeSignEncrypt <==> protection == "sign" || protection == "signencrypt"))
  }

  lemma ModeIsWhatWasAsked(account: Account, keys: Option<Rings>, held: Passphrases, m: Message)
    ensures ModeAsked(m.protection, Decision(account, keys, held, m))
  {
  }

  /** One of the three groups, after those before it. */
  method Resolve(r: Rings, before: seq<string>, group: seq<string>, missing0: seq<string>, found0: seq<string>)
    returns (missing: seq<string>, found: seq<string>)
    requires missing0 == Pick(r, before, false) && found0 == Pick(r, before, true)
    ensures missing == Pick(r, before + group, false) && found == Pick(r, before + group, true)
  {
    missing, found := missing0, found0;
    var k := 0;
    assert before + group[..0] == before;
    while k < |group|
      invariant 0 <= k <= |group|
      invariant missing == Pick(r, before + group[..k], false) && found == Pick(r, before + group[..k], true)
    {
      PickStep(r, before, group, k, false);
      PickStep(r, before, group, k, true);
      var email := Clean(group[k]);
      if email != "" {
        if RecipientKey(r, email) == None {
          missing := missing + [email];
        } else {
          found := found + [email];
        }
      }
      k := k + 1;
    }
    assert group[..k] == group;
  }

  lemma PickStep(r: Rings, before: seq<string>, group: seq<string>, k: nat, withKey: bool)
    requires k < |group|
    ensures var email := Clean(group[k]);
            Pick(r, before + group[..k + 1], withKey) == Pick(r, before + group[..k], withKey) + if email != "" && RecipientKey(r, email).Some? == withKey then [email] else []
  {
    var all := before + group[..k + 1];
    assert all[..|all| - 1] == before + group[..k];
    assert all[|all| - 1] == group[k];
  }

  /** protectionOptions. */
  method ProtectionOptions(account: Account, keys: Option<Rings>, held: Passphrases, m: Message) returns (o: Outcome)
    ensures o == Decision(account, keys, held, m)
    ensures ModeAsked(m.protection, o)
  {
    ModeIsWhatWasAsked(account, keys, held, m);
    var mode := CryptoMode(m.protection);
    if mode == ModeNone {
      return Clear;
    }
    if Encrypts(m.protection) && |m.bcc| > 0 {
      return BccRefused;
    }
    if keys == None {
      return NoKeyStore;
    }
    var r := keys.value;
    var recipients := [];
    if Encrypts(m.protection) {
      var missing, found := Resolve(r, [], m.to, [], []);
      assert [] + m.to == m.to;
      missing, found := Resolve(r, m.to, m.cc, missing, found);
      missing, found := Resolve(r, m.to + m.cc, m.bcc, missing, found);
      if missing != [] {
        return MissingKeys(missing);
      }
      if found == [] {
        return NoRecipients;
      }
      recipients := found;
    }
    var passphrase := None;
    if Signs(m.protection) {
      var signer := SenderKey(r, account.email);
      if signer == None {
        return NoSenderKey;
      }
      if KeyLocked(signer.value) {
        passphrase := PassphraseFor(held, signer.value);
        if passphrase == None {
          return PassphraseRequired;
        }
      }
    }
    o := Given(mode, account.email, recipients, passphrase);
  }

  // ----- the engine

  /** PGP.recipients: a key for every address, or nothing. */
  method Recipients(r: Rings, addresses: seq<string>) returns (keys: Option<seq<Key>>)
    ensures keys.Some? <==> addresses != [] && forall i :: 0 <= i < |addresses| ==> RecipientKey(r, addresses[i]).Some?
    ensures keys.Some? ==>
      |keys.value| == |addresses| && forall i :: 0 <= i < |addresses| ==> RecipientKey(r, addresses[i]) == Some(keys.value[i])
  {
    if addresses == [] {
      return None;
    }
    var out, k := [], 0;
    while k < |addresses|
      invariant 0 <= k <= |addresses| && |out| == k
      invariant forall i :: 0 <= i < k ==> RecipientKey(r, addresses[i]) == Some(out[i])
    {
      var key := RecipientKey(r, addresses[k]);
      if key == None {
        return None;
      }
      out, k := out + [key.value], k + 1;
    }
    keys := Some(out);
  }

  /** PGP.signer. */
  function Signer(r: Rings, sender: string, passphrase: Option<string>): Option<Key> {
    if sender == "" then None
    else match SenderKey(r, sender)
         case None => None
         case Some(k) => if Unlocks(k, passphrase) then Some(k) else None
  }

  predicate AllFound(r: Rings, addresses: seq<string>) {
    addresses != [] && forall i :: 0 <= i < |addresses| ==> RecipientKey(r, addresses[i]).Some?
  }

  /** Every key lookup of the engine succeeds. */
  predicate Sendable(r: Rings, o: Outcome) {
    && o.Given?
    && (o.mode == ModeEncrypt || o.mode == ModeSignEncrypt ==> AllFound(r, o.recipients))
    && (o.mode == ModeSign || o.mode == ModeSignEncrypt ==> Signer(r, o.sender, o.passphrase).Some?)
  }

  // ----- suggest and enforce agree

  lemma {:induction false} PickHolds(r: Rings, emails: seq<string>, withKey: bool)
    ensures forall e :: e in Pick(r, emails, withKey) ==> e != "" && RecipientKey(r, e).Some? == withKey
    ensures forall i ::
      0 <= i < |emails| && Clean(emails[i]) != "" && RecipientKey(r, Clean(emails[i])).Some? == withKey ==> Clean(emails[i]) in Pick(r, emails, withKey)
    ensures forall e :: e in Pick(r, emails, withKey) ==> exists i :: 0 <= i < |emails| && Clean(emails[i]) == e
  {
    if emails != [] {
      var init := emails[..|emails| - 1];
      PickHolds(r, init, withKey);
      forall e | e in Pick(r, emails, withKey) ensures exists i :: 0 <= i < |emails| && Clean(emails[i]) == e {
        if e in Pick(r, init, withKey) {
          var i :| 0 <= i < |init| && Clean(init[i]) == e;
          assert Clean(emails[i]) == e;
        } else {
          assert Clean(emails[|emails| - 1]) == e;
        }
      }
      forall i | 0 <= i < |emails| && Clean(emails[i]) != "" && RecipientKey(r, Clean(emails[i])).Some? == withKey
        ensures Clean(emails[i]) in Pick(r, emails, withKey)
      {
        if i < |init| {
          assert init[i] == emails[i];
        }
      }
    }
  }

  /** All addresses can be reached if and only if none is picked as missing. */
  lemma NoneMissing(r: Rings, emails: seq<string>)
    ensures Pick(r, emails, false) == [] <==> AllReachable(r, emails)
  {
    PickHolds(r, emails, false);
    var missing := Pick(r, emails, false);
    if missing != [] {
      assert missing[0] in missing;
      var i :| 0 <= i < |emails| && Clean(emails[i]) == missing[0];
      assert !Reachable(r, emails[i]);
    }
  }

  predicate SomeNonBlank(emails: seq<string>) {
    exists i :: 0 <= i < |emails| && Clean(emails[i]) != ""
  }

  lemma SomeFound(r: Rings, emails: seq<string>)
    requires AllReachable(r, emails)
    ensures Pick(r, emails, true) != [] <==> SomeNonBlank(emails)
  {
    PickHolds(r, emails, true);
    var found := Pick(r, emails, true);
    if found != [] {
      assert found[0] in found;
    }
  }

  /** Any success carries the mode asked for, and when encrypting it has no Bcc, and
      a key for every address that is not blank. */
  lemma GivenIsWhatWasAsked(account: Account, keys: Option<Rings>, held: Passphrases, m: Message)
    requires Decision(account, keys, held, m).Given?
    ensures var o := Decision(account, keys, held, m);
            && keys.Some? && ModeAsked(m.protection, o) && o.sender == account.email
            && (if Signs(m.protection) && KeyLocked(SenderKey(keys.value, account.email).value)
                then var id := Id(SenderKey(keys.value, account.email).value); id in held && o.passphrase == Some(held[id])
                else o.passphrase == None)
            && (Encrypts(m.protection) ==>
              && m.bcc == [] && AllFound(keys.value, o.recipients)
              && forall i :: 0 <= i < |Group(m)| && Clean(Group(m)[i]) != "" ==> Clean(Group(m)[i]) in o.recipients)
  {
    ModeIsWhatWasAsked(account, keys, held, m);
    GivenIsPicked(account, keys, held, m);
    if Encrypts(m.protection) {
      NoneMissing(keys.value, Group(m));
      FoundCoversAll(keys.value, Group(m));
    }
  }

  lemma FoundCoversAll(r: Rings, emails: seq<string>)
    requires AllReachable(r, emails)
    ensures var found := Pick(r, emails, true);
            && (forall i :: 0 <= i < |found| ==> RecipientKey(r, found[i]).Some?)
            && (forall i :: 0 <= i < |emails| && Clean(emails[i]) != "" ==> Clean(emails[i]) in found)
  {
    PickHolds(r, emails, true);
    var found := Pick(r, emails, true);
    assert forall i :: 0 <= i < |found| ==> found[i] in found;
    assert forall i :: 0 <= i < |emails| ==> Reachable(r, emails[i]);
  }

  /** Each outcome, told by the message, the keys and the passphrases held. */
  lemma OutcomeExactlyWhen(account: Account, keys: Option<Rings>, held: Passphrases, m: Message)
    ensures var o, encrypts, signs := Decision(account, keys, held, m), Encrypts(m.protection), Signs(m.protection);
            var reached := keys.Some? && !(encrypts && m.bcc != []);
            var found := reached && (encrypts ==> AllReachable(keys.value, Group(m)) && SomeNonBlank(Group(m)));
            && (o == BccRefused <==> encrypts && m.bcc != [])
            && (o == NoKeyStore <==> (encrypts || signs) && !(encrypts && m.bcc != []) && keys == None)
            && (o.MissingKeys? <==> reached && encrypts && !AllReachable(keys.value, Group(m)))
            && (o == NoRecipients <==>
                 reached && encrypts && AllReachable(keys.value, Group(m)) && !SomeNonBlank(Group(m)))
            && (o == NoSenderKey <==> found && signs && SenderKey(keys.value, account.email) == None)
            && (o == PassphraseRequired <==> found && signs && SignerLocked(account, keys.value, held))
  {
    if keys.Some? {
      FoundExactlyWhen(keys.value, Group(m));
    }
  }

  lemma FoundExactlyWhen(r: Rings, emails: seq<string>)
    ensures Pick(r, emails, false) == [] <==> AllReachable(r, emails)
    ensures AllReachable(r, emails) ==> (Pick(r, emails, true) != [] <==> SomeNonBlank(emails))
  {
    NoneMissing(r, emails);
    if AllReachable(r, emails) {
      SomeFound(r, emails);
    }
  }

  /** The addresses reported missing, and those given to encrypt to, are those of the
      message, cleaned, without a key and with one. */
  lemma AddressesExactly(account: Account, keys: Option<Rings>, held: Passphrases, m: Message, e: string)
    ensures var o := Decision(account, keys, held, m);
            && (o.MissingKeys? ==> (e in o.emails <==> Addressed(m, e) && RecipientKey(keys.value, e) == None))
            && (o.Given? ==> (e in o.recipients <==> Encrypts(m.protection) && Addressed(m, e)))
            && (o.Given? && e in o.recipients ==> RecipientKey(keys.value, e).Some?)
  {
    GivenIsPicked(account, keys, held, m);
    if keys.Some? {
      Picked(keys.value, m, false, e);
      Picked(keys.value, m, true, e);
    }
  }

  lemma GivenIsPicked(account: Account, keys: Option<Rings>, held: Passphrases, m: Message)
    ensures var o := Decision(account, keys, held, m);
            && (o.MissingKeys? || o.Given? ==> keys.Some?)
            && (o.MissingKeys? ==> o.emails == Pick(keys.value, Group(m), false))
            && (o.Given? && Encrypts(m.protection) ==> o.recipients == Pick(keys.value, Group(m), true))
            && (o.Given? && Encrypts(m.protection) ==>
                 Pick(keys.value, Group(m), false) == [] && m.bcc == [] && o.recipients != [])
            && (o.Given? && !Encrypts(m.protection) ==> o.recipients == [])
  {
  }

  lemma Picked(r: Rings, m: Message, withKey: bool, e: string)
    ensures e in Pick(r, Group(m), withKey) <==> Addressed(m, e) && RecipientKey(r, e).Some? == withKey
  {
    PickHolds(r, Group(m), withKey);
  }

  ghost predicate Addressed(m: Message, e: string) {
    e != "" && exists i :: 0 <= i < |Group(m)| && Clean(Group(m)[i]) == e
  }

  /** The same addresses, in any order and any number. */
  predicate SameAddresses(a: seq<string>, b: seq<string>) {
    (forall e :: e in a ==> e in b) && (forall e :: e in b ==> e in a)
  }

  lemma SameReach(r: Rings, a: seq<string>, b: seq<string>)
    requires SameAddresses(a, b)
    ensures AllReachable(r, a) <==> AllReachable(r, b)
    ensures SomeNonBlank(a) <==> SomeNonBlank(b)
  {
    SameReachOneWay(r, a, b);
    SameReachOneWay(r, b, a);
  }

  lemma SameReachOneWay(r: Rings, a: seq<string>, b: seq<string>)
    requires SameAddresses(a, b)
    ensures AllReachable(r, a) ==> AllReachable(r, b)
    ensures SomeNonBlank(a) ==> SomeNonBlank(b)
  {
    forall i | 0 <= i < |b| && AllReachable(r, a) ensures Reachable(r, b[i]) {
      assert b[i] in a;
    }
    if SomeNonBlank(a) {
      var i :| 0 <= i < |a| && Clean(a[i]) != "";
      assert a[i] in b;
      var j :| 0 <= j < |b| && b[j] == a[i];
      assert Clean(b[j]) != "";
    }
  }

  /** The suggestion for some recipients, asked of a message to the same ones without
      Bcc, is accepted if and only if it is not to encrypt to blanks alone and not to
      sign with a key that is still locked. */
  lemma SuggestionAcceptedExactlyWhen(account: Account, r: Rings, held: Passphrases, emails: seq<string>, m: Message)
    requires SameAddresses(emails, m.to + m.cc) && m.bcc == []
    requires m.protection ==
      SuggestedProtection(account.pgpDefault, SenderKey(r, account.email).Some?, emails != [] && AllReachable(r, emails))
    ensures var o := Decision(account, Some(r), held, m);
            o == Clear || o.Given? <==> (Encrypts(m.protection) ==> SomeNonBlank(emails)) && (Signs(m.protection) ==> !SignerLocked(account, r, held))
  {
    assert Group(m) == m.to + m.cc;
    SameReach(r, emails, m.to + m.cc);
    NoneMissing(r, Group(m));
    if AllReachable(r, Group(m)) {
      SomeFound(r, Group(m));
    }
  }

  /** To one blank recipient encryption is suggested, and refused. */
  lemma BlankRecipientRefused()
    ensures var account, r := Account("me@here", "auto"), Rings([], []); var m := Message(ENCRYPT, [" "], [], []);
            && SuggestedProtection("auto", SenderKey(r, account.email).Some?, [" "] != [] && AllReachable(r, [" "])) == m.protection
            && Decision(account, Some(r), map[], m) == NoRecipients
  {
    var account, r := Account("me@here", "auto"), Rings([], []);
    var m := Message(ENCRYPT, [" "], [], []);
    assert TrimSpace(" ") == "";
    assert Clean(" ") == "";
    assert Group(m) == [" "];
    assert Reachable(r, " ");
    NoneMissing(r, [" "]);
    SomeFound(r, [" "]);
  }

  /** The key is not locked, or the passphrase that locks it is the one held for it. */
  predicate Opens(k: Key, held: Passphrases) {
    k.secret.Some? && (k.secret.value.passphrase.Some? ==> Id(k) in held && held[Id(k)] == k.secret.value.passphrase.value)
  }

  /** And what is accepted finds every key it needs, if and only if a signer has an
      address and a passphrase that fits. */
  lemma AcceptedIsSendableExactlyWhen(account: Account, r: Rings, held: Passphrases, m: Message)
    requires Decision(account, Some(r), held, m).Given?
    ensures Sendable(r, Decision(account, Some(r), held, m)) <==>
            (Signs(m.protection) ==> account.email != "" && Opens(SenderKey(r, account.email).value, held))
  {
    GivenIsWhatWasAsked(account, Some(r), held, m);
  }

  /** An account without an address can still be told to sign: a private key that
      names no address carries it. What is suggested then is accepted, and the
      signer refuses it. */
  lemma NamelessSenderFails(secret: Secret)
    requires secret.passphrase == None
    ensures var r := Rings([Key("AB", [""], Some(secret))], []); var account := Account("", "sign");
            var m := Message(SuggestedProtection("sign", SenderKey(r, "").Some?, false), ["a@b"], [], []);
            && m.protection == SIGN
            && Decision(account, Some(r), map[], m).Given? && !Sendable(r, Decision(account, Some(r), map[], m))
  {
    var k := Key("AB", [""], Some(secret));
    assert Lower(k.emails[0]) == "" == Clean("");
    assert Carries(k, "");
    assert ForEmail([k], "") == Some(k);
  }
}
