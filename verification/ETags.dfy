/** Entity tags on the wire, in the store and back (internal/carddav/contact.go,
    internal/desktop/bind_contacts_edit.go; section 8.8.3 of RFC 9110). */
module ETags {
  import opened Bytes

  /** strings.Trim(s, "\""). */
  function TrimQuotes(s: string): string {
    if s == "" then ""
    else if s[0] == '"' then TrimQuotes(s[1..])
    else if s[|s| - 1] == '"' then TrimQuotes(s[..|s| - 1])
    else s
  }

  function QuoteETag(etag: string): string {
    if etag == "" || HasPrefix(etag, "\"") || HasPrefix(etag, "W/") then etag else "\"" + etag + "\""
  }

  function Strong(text: string): string {
    "\"" + text + "\""
  }

  function Weak(text: string): string {
    "W/" + Strong(text)
  }

  /** An entity tag; the opaque text holds no double quote. */
  ghost predicate IsTag(t: string) {
    exists text :: '"' !in text && (t == Strong(text) || t == Weak(text))
  }

  predicate IsStrong(t: string) {
    2 <= |t| && t[0] == '"' && t[|t| - 1] == '"'
  }

  /** If-Match with this one tag matches a resource that has the other: the strong
      comparison of section 8.8.3.2. */
  predicate Matches(header: string, tag: string) {
    header == tag && IsStrong(header)
  }

  /** Of the entity tags just the strong ones match, each itself. */
  lemma MatchesExactlyWhen(header: string, tag: string)
    requires IsTag(tag)
    ensures Matches(header, tag) <==> header == tag && exists text :: tag == Strong(text)
  {
    var text :| '"' !in text && (tag == Strong(text) || tag == Weak(text));
    assert tag == Weak(text) ==> tag[0] == 'W';
    assert Strong(text)[0] == '"' && Strong(text)[|Strong(text)| - 1] == '"';
    forall other | tag == Strong(other) ensures tag[0] == '"' {
      assert Strong(other)[0] == '"';
    }
  }

  lemma TrimStepLeft(s: string)
    ensures TrimQuotes("\"" + s) == TrimQuotes(s)
  {
    assert ("\"" + s)[1..] == s;
  }

  lemma TrimStepRight(s: string)
    requires s != "" && s[0] != '"'
    ensures TrimQuotes(s + "\"") == TrimQuotes(s)
  {
    var u := s + "\"";
    assert u[0] == s[0] && u[|u| - 1] == '"';
    assert u[..|u| - 1] == s;
  }

  lemma TrimOfStrong(text: string)
    requires '"' !in text
    ensures TrimQuotes(Strong(text)) == text
  {
    assert Strong(text) == "\"" + (text + "\"");
    TrimStepLeft(text + "\"");
    if text == "" {
      assert text + "\"" == "\"" + text;
      TrimStepLeft(text);
    } else {
      assert text[0] in text;
      TrimStepRight(text);
    }
  }

  lemma TrimOfWeak(text: string)
    requires '"' !in text
    ensures HasPrefix(TrimQuotes(Weak(text)), "W/")
    ensures |TrimQuotes(Weak(text))| < |Weak(text)|
  {
    var s := "W/\"" + text;
    assert Weak(text) == s + "\"";
    TrimStepRight(s);
    if text == "" {
      assert s == "W/" + "\"";
      TrimStepRight("W/");
    } else {
      assert s[|s| - 1] == text[|text| - 1] && text[|text| - 1] in text;
    }
  }

  /** Quoting restores a tag that was unquoted if and only if it is a strong tag whose
      text is not empty and does not start with W/. */
  lemma QuoteInvertsTrim(text: string)
    requires '"' !in text
    ensures QuoteETag(TrimQuotes(Strong(text))) == Strong(text) <==> text != "" && !HasPrefix(text, "W/")
    ensures QuoteETag(TrimQuotes(Weak(text))) != Weak(text)
  {
    TrimOfStrong(text);
    TrimOfWeak(text);
    PlainHasNoQuote(text);
  }

  lemma PlainHasNoQuote(s: string)
    requires '"' !in s
    ensures !HasPrefix(s, "\"")
  {
    assert s != "" ==> s[0] in s;
  }

  /** Quoting a second time changes nothing. */
  lemma QuotedOnce(etag: string)
    ensures QuoteETag(QuoteETag(etag)) == QuoteETag(etag)
  {
  }

  /** Whatever the tag looked like, what is sent for a stored one never matches a
      different tag. */
  lemma SentMatchesOnlyItself(from: string, held: string)
    requires IsTag(from) && IsTag(held)
    requires TrimQuotes(from) != "" && Matches(QuoteETag(TrimQuotes(from)), held)
    ensures from == held
  {
    var o :| '"' !in o && (from == Strong(o) || from == Weak(o));
    TrimOfStrong(o);
    TrimOfWeak(o);
    var e := TrimQuotes(from);
    assert "W/"[0] == 'W';
  }
}
