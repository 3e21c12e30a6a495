/** The names secrets are filed under in the OS keyring (internal/credentials), and
    the decimal numbers they are built from. */
module EntryNames {

  import opened Options

  const MAX_INT: int := 0x7fff_ffff_ffff_ffff

  // ----- strconv

  predicate IsDigit(c: char) {
    '0' <= c <= '9'
  }

  function Digits(n: nat): (s: string)
    ensures s != "" && forall i :: 0 <= i < |s| ==> IsDigit(s[i])
  {
    var last := ['0' + (n % 10) as char];
    if n < 10 then last else Digits(n / 10) + last
  }

  function Itoa(n: int): string {
    if n < 0 then "-" + Digits(-n) else Digits(n)
  }

  function Value(s: string): Option<nat> {
    if s == "" then None
    else
      var c := s[|s| - 1];
      if !IsDigit(c) then None
      else
        var d := (c - '0') as int;
        if |s| == 1 then Some(d)
        else match Value(s[..|s| - 1])
             case None => None
             case Some(high) => Some(high * 10 + d)
  }

  /** An optional sign and decimal digits, in the range of a 64-bit int. */
  function Atoi(s: string): Option<int> {
    var signed := s != "" && (s[0] == '-' || s[0] == '+');
    match Value(if signed then s[1..] else s)
    case None => None
    case Some(v) =>
      var n: int := (if signed && s[0] == '-' then -1 else 1) * v;
      if -MAX_INT - 1 <= n <= MAX_INT then Some(n) else None
  }

  lemma {:induction false} ValueOfDigits(n: nat)
    ensures Value(Digits(n)) == Some(n)
  {
    var s := Digits(n);
    if 10 <= n {
      ValueOfDigits(n / 10);
      assert s[..|s| - 1] == Digits(n / 10);
    }
  }

  lemma AtoiOfItoa(n: int)
    requires -MAX_INT - 1 <= n <= MAX_INT
    ensures Atoi(Itoa(n)) == Some(n)
    ensures Itoa(n)[0] == '-' <==> n < 0
  {
    ValueOfDigits(if n < 0 then -n else n);
    if n < 0 {
      assert Itoa(n)[1..] == Digits(-n);
    }
  }

  lemma {:induction false} ValueExactlyWhen(s: string)
    ensures Value(s).Some? <==> s != "" && forall i :: 0 <= i < |s| ==> IsDigit(s[i])
  {
    if s != "" {
      var init := s[..|s| - 1];
      ValueExactlyWhen(init);
      assert forall i :: 0 <= i < |init| ==> init[i] == s[i];
    }
  }

  ghost predicate Spells(s: string, sign: string, digits: string, n: int) {
    && s == sign + digits && (sign == "" || sign == "+" || sign == "-")
    && Value(digits).Some? && n == (if sign == "-" then -1 else 1) * Value(digits).value
  }

  /** What is read as a number is that number with a sign or none, within 64 bits. */
  lemma AtoiExactlyWhen(s: string, n: int)
    ensures Atoi(s) == Some(n) <==> -MAX_INT - 1 <= n <= MAX_INT && exists sign, digits :: Spells(s, sign, digits, n)
  {
    var signed := s != "" && (s[0] == '-' || s[0] == '+');
    if Atoi(s) == Some(n) {
      var k := if signed then 1 else 0;
      assert s == s[..k] + s[k..];
      assert Spells(s, s[..k], s[k..], n);
    }
    if sign, digits :| Spells(s, sign, digits, n) {
      ValueExactlyWhen(digits);
      assert IsDigit(digits[0]) && s[|sign|..] == digits;
    }
  }

  lemma ItoaInjective(a: int, b: int)
    requires Itoa(a) == Itoa(b)
    ensures a == b
  {
    ValueOfDigits(if a < 0 then -a else a);
    ValueOfDigits(if b < 0 then -b else b);
    assert a < 0 ==> Itoa(a)[0] == '-';
    assert b < 0 ==> Itoa(b)[0] == '-';
    if a < 0 && b < 0 {
      assert Itoa(a)[1..] == Digits(-a) && Itoa(b)[1..] == Digits(-b);
    }
  }

  function Pow10(k: nat): nat {
    if k == 0 then 1 else 10 * Pow10(k - 1)
  }

  lemma {:induction false} DigitsLength(n: nat, k: nat)
    requires 0 < k && n < Pow10(k)
    ensures |Digits(n)| <= k
  {
    if 10 <= n {
      DigitsLength(n / 10, k - 1);
    }
  }

  /** A 64-bit int has at most 19 digits. */
  lemma IntLength(n: nat)
    requires n <= MAX_INT
    ensures |Digits(n)| <= 19
  {
    assert Pow10(3) == 1000;
    assert Pow10(5) == 100_000;
    assert Pow10(7) == 10_000_000;
    assert Pow10(9) == 1_000_000_000;
    assert Pow10(11) == 100_000_000_000;
    assert Pow10(13) == 10_000_000_000_000;
    assert Pow10(15) == 1_000_000_000_000_000;
    assert Pow10(17) == 100_000_000_000_000_000;
    assert Pow10(19) == 10_000_000_000_000_000_000;
    DigitsLength(n, 19);
  }

  // ----- entry names

  datatype EntryName =
    | Account(id: int)
    | Chunk(id: int, i: int)
    | AddressBook(id: int)
    | ProxyPassword
    | AccountProxyPassword(id: int)
    | VirusTotalKey
    | PGPPassphrase(fingerprint: string)

  function Render(e: EntryName): string {
    match e
    case Account(id) => Itoa(id)
    case Chunk(id, i) => Itoa(id) + ("." + Itoa(i))
    case AddressBook(id) => "addressbook-" + Itoa(id)
    case ProxyPassword => "proxy-password"
    case AccountProxyPassword(id) => "proxy-password" + ("-" + Itoa(id))
    case VirusTotalKey => "virustotal-api-key"
    case PGPPassphrase(fingerprint) => "pgp-passphrase-" + fingerprint
  }

  lemma NoDotInNumber(n: int)
    ensures '.' !in Itoa(n)
  {
  }

  lemma AtFirstDot(a: string, b: string, x: string, y: string)
    requires '.' !in a && '.' !in x && a + ("." + b) == x + ("." + y)
    ensures a == x && b == y
  {
    var s := a + ("." + b);
    assert s[|a|] == '.' && s[|x|] == '.';
    assert forall i :: 0 <= i < |a| ==> s[i] == a[i];
    assert forall i :: 0 <= i < |x| ==> s[i] == x[i];
    assert |a| == |x|;
    assert a == s[..|a|] && b == s[|a| + 1..];
  }

  /** The leading characters already tell most kinds of entry apart. */
  lemma Leads(e: EntryName)
    ensures var s := Render(e);
            && s != ""
            && (e.Account? || e.Chunk? ==> IsDigit(s[0]) || s[0] == '-')
            && (e.AddressBook? ==> s[0] == 'a')
            && (e.VirusTotalKey? ==> s[0] == 'v')
            && (e.Account? ==> '.' !in s)
            && (e.Chunk? ==> '.' in s)
            && (e.ProxyPassword? || e.AccountProxyPassword? ==> 1 < |s| && s[0] == 'p' && s[1] == 'r')
            && (e.ProxyPassword? ==> |s| == 14)
            && (e.AccountProxyPassword? ==> 14 < |s|)
            && (e.PGPPassphrase? ==> 1 < |s| && s[0] == 'p' && s[1] == 'g')
  {
    if e.Chunk? {
      assert Render(e)[|Itoa(e.id)|] == '.';
    }
  }

  lemma SuffixCancels(p: string, a: string, b: string)
    requires p + a == p + b
    ensures a == b
  {
    assert a == (p + a)[|p|..] && b == (p + b)[|p|..];
  }

  /** No two entries share a name: not two accounts, not a chunk and an account, not
      a secret and a password of another kind. */
  lemma NamesDistinct(e: EntryName, f: EntryName)
    requires Render(e) == Render(f)
    ensures e == f
  {
    Leads(e);
    Leads(f);
    match e
    case Account(id) =>
      ItoaInjective(id, f.id);
    case Chunk(id, i) =>
      NoDotInNumber(id);
      NoDotInNumber(f.id);
      AtFirstDot(Itoa(id), Itoa(i), Itoa(f.id), Itoa(f.i));
      ItoaInjective(id, f.id);
      ItoaInjective(i, f.i);
    case AddressBook(id) =>
      SuffixCancels("addressbook-", Itoa(id), Itoa(f.id));
      ItoaInjective(id, f.id);
    case ProxyPassword =>
    case AccountProxyPassword(id) =>
      SuffixCancels("proxy-password", "-" + Itoa(id), "-" + Itoa(f.id));
      SuffixCancels("-", Itoa(id), Itoa(f.id));
      ItoaInjective(id, f.id);
    case VirusTotalKey =>
    case PGPPassphrase(fingerprint) =>
      SuffixCancels("pgp-passphrase-", fingerprint, f.fingerprint);
  }
}
