/** The mailboxes the app depends on, which are neither renamed nor deleted
    (internal/desktop/bind_folders.go, dto.go). */
module FolderRoles {
  import opened Bytes
  import opened FolderTree

  predicate AssignableRole(role: string) {
    || role == "normal" || role == "sent" || role == "drafts"
    || role == "trash" || role == "junk" || role == "archive"
  }

  predicate SpecialUse(attribute: string) {
    var use := Lower(TrimPrefix(attribute, "\\"));
    use == "sent" || use == "drafts" || use == "trash" || use == "junk" || use == "archive"
  }

  /** folderRole is not the normal one: the user's choice wins, then what the server
      says of the mailbox, then its name. */
  predicate Protected(r: Row) {
    if AssignableRole(r.role) then r.role != "normal"
    else if exists k :: 0 <= k < |r.attributes| && SpecialUse(r.attributes[k]) then true
    else
      var name := Upper(r.path);
      || name == "INBOX" || name == "SENT" || name == "DRAFTS"
      || name == "TRASH" || name == "JUNK" || name == "ARCHIVE"
  }

  // ----- told by the row

  const Uses: seq<string> := ["sent", "drafts", "trash", "junk", "archive"]

  predicate Named(text: string, names: seq<string>) {
    exists k :: 0 <= k < |names| && SameFolded(text, names[k])
  }

  /** The attribute is such a use in any case, with or without its backslash. */
  predicate Marks(attribute: string) {
    || Named(attribute, Uses)
    || (attribute != "" && attribute[0] == '\\' && Named(attribute[1..], Uses))
  }

  /** A role the user may assign decides alone; without one it is what some attribute
      marks, or the path names. */
  predicate Guarded(r: Row) {
    if r.role == "normal" then false
    else if r.role in Uses then true
    else (exists k :: 0 <= k < |r.attributes| && Marks(r.attributes[k])) || Named(r.path, ["inbox"] + Uses)
  }

  lemma NamedExactly(text: string)
    ensures Named(text, Uses) <==>
            || Lower(text) == "sent" || Lower(text) == "drafts" || Lower(text) == "trash"
            || Lower(text) == "junk" || Lower(text) == "archive"
  {
    LowerIs(text, "sent");
    LowerIs(text, "drafts");
    LowerIs(text, "trash");
    LowerIs(text, "junk");
    LowerIs(text, "archive");
    assert Uses[0] == "sent" && Uses[1] == "drafts" && Uses[2] == "trash" && Uses[3] == "junk" && Uses[4] == "archive";
  }

  lemma LowerIs(text: string, word: string)
    requires forall k :: 0 <= k < |word| ==> 'a' <= word[k] <= 'z'
    ensures Lower(text) == word <==> SameFolded(text, word)
  {
    CaseIgnored(text, word);
    assert Lower(word) == word;
  }

  lemma UpperIs(text: string, word: string, upper: string)
    requires |upper| == |word| && forall k :: 0 <= k < |word| ==> 'a' <= word[k] <= 'z' && upper[k] == 'A' + (word[k] - 'a')
    ensures Upper(text) == upper <==> SameFolded(text, word)
  {
    CaseIgnored(text, word);
    assert Upper(word) == upper;
  }

  lemma PathNamedExactly(path: string)
    ensures Named(path, ["inbox"] + Uses) <==>
            || Upper(path) == "INBOX" || Upper(path) == "SENT" || Upper(path) == "DRAFTS"
            || Upper(path) == "TRASH" || Upper(path) == "JUNK" || Upper(path) == "ARCHIVE"
  {
    UpperIs(path, "inbox", "INBOX");
    UpperIs(path, "sent", "SENT");
    UpperIs(path, "drafts", "DRAFTS");
    UpperIs(path, "trash", "TRASH");
    UpperIs(path, "junk", "JUNK");
    UpperIs(path, "archive", "ARCHIVE");
    var names := ["inbox"] + Uses;
    assert names[0] == "inbox" && names[1] == "sent" && names[2] == "drafts" && names[3] == "trash" && names[4] == "junk" && names[5] == "archive";
  }

  lemma NoBackslash(text: string)
    ensures text != "" && text[0] == '\\' ==> !Named(text, Uses)
  {
    assert forall k :: 0 <= k < |Uses| ==> Uses[k] != "" && Fold(Uses[k][0]) != '\\';
  }

  lemma SpecialUseExactlyWhen(attribute: string)
    ensures SpecialUse(attribute) <==> Marks(attribute)
  {
    NamedExactly(TrimPrefix(attribute, "\\"));
    NoBackslash(attribute);
    assert attribute != "" && attribute[0] == '\\' ==> attribute[..1] == "\\";
  }

  /** Which rows are protected, told by their role, attributes and path. */
  lemma ProtectedExactlyWhen(r: Row)
    ensures Protected(r) <==> Guarded(r)
  {
    assert AssignableRole(r.role) <==> r.role == "normal" || r.role in Uses;
    forall k | 0 <= k < |r.attributes| ensures SpecialUse(r.attributes[k]) <==> Marks(r.attributes[k]) {
      SpecialUseExactlyWhen(r.attributes[k]);
    }
    PathNamedExactly(r.path);
  }

  /** INBOX, in any case, left to itself. */
  predicate IsInbox(r: Row) {
    SameFolded(r.path, "inbox") && r.role != "normal" && r.role !in Uses
  }

  lemma InboxIsGuarded(r: Row)
    requires IsInbox(r)
    ensures Guarded(r)
  {
    assert (["inbox"] + Uses)[0] == "inbox";
  }
}
