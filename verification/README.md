# Pelton: proofs about its hardest state

Pelton is a desktop mail client. This project models the parts of it that hold
state across failures or work on raw bytes, and proves what those parts keep.
`dafny verify dfyconfig.toml` checks all of it. Nothing here runs the program; no
statement below rests on anything but the proofs.

| Files | What they model |
| --- | --- |
| `Bytes`, `LineEndings`, `Multipart`, `BlankLines`, `PgpMime`, `Relay`, `Smime` | printing and splitting signed and encrypted mail, canonical line endings, the second verification attempt |
| `EntryNames`, `Credentials` | account secrets spread over size-bounded keyring entries |
| `SqlText`, `FolderSql`, `SqlRename`, `RenameBreaks` | the statements that move and list a subtree of folders, with SQLite's LIKE, substr and length |
| `FolderPaths`, `FolderTree`, `FolderRoles`, `Folders`, `FolderRefresh`, `Sorting` | the stored folder tree, mailbox management, the refresh from the server's list |
| `QueueSync` | one background sync per burst of changes |
| `ETags`, `ContactSync`, `ContactWrites` | CardDAV sync tokens and conditional writes |
| `Drafts` | local drafts: ids, Message-IDs, sealing |
| `KeyRings`, `Protection` | the two OpenPGP rings; what compose suggests and what sending needs |
| `SearchIndex` | the index watermark |
| `Backup` | exporting and importing mailboxes |
| `Options` | `Option` |

## How to read it

A Go string or byte slice is a Dafny `string` with one char per byte. What the code
changes step by step is a class with methods, each tied by its `ensures` to a
specification function; the lemmas beside it say what that function means. Calls out
of the modelled code (the server, the OS keyring, SQLite, the OpenPGP and CMS
libraries, random ids, the clock) are parameters, or fields that hold what they will
answer. A class with a field `faults` may fail at any call that consults it: a list
of answers is consumed one per call and an empty list means success from then on, so
a method proved for all lists is proved for a stop at every point. Other clients and
threads act through fields of the same kind (`others`), before each request.

Two things are interleavings proper and are transition systems: `QueueSync`, whose
actions are the steps of the calls, goroutines and other holders of the mutex; and
the server of `ContactWrites`, whose history records who changed what.

## Where the code does less than it says

The member named states the exact condition.

* The comment on `Store` in `internal/credentials/credentials.go:75-78` promises that
  a failed write never leaves the secret unreadable. Over a chunked secret, a chunked
  one is written in place: that holds if and only if the two chunk lists agree
  wherever both have a chunk, or have the same length and differ in one chunk
  (`Credentials.AtomicExactlyWhen`, `Credentials.TornLetters`). Over an unchunked or
  absent secret, or with a new one that fits one entry, it always holds
  (`Credentials.StoppedStoreIsAtomic`).
* A deletion whose count read the keyring refuses removes the main entry, reports
  success and leaves every chunk, and no later deletion finds them
  (`Credentials.ChunksLeftForGood`; when none is left, in
  `Credentials.NoChunkLeftExactlyWhen`).
* `RenameFolderSubtree` cuts the old prefix off by its length in bytes where SQLite
  counts characters, and matches it without regard to the case of ASCII letters. It
  does what its comment says if and only if no row of the account matches only up to
  case (and would be moved), and the old path is ASCII or nothing goes on behind it
  (`FolderSql.SqlMovesSubtreeExactlyWhen`, `FolderSql.CutsWholeExactlyWhen`). Otherwise
  a rename that reports success leaves children under wrong names
  (`SqlRename.UmlautRename`); exactly when the tree stays well formed says
  `RenameBreaks.WellFormedExactlyWhen`.
* `FolderDescendants` matches in the same way: `DeleteFolder` takes mailboxes nested
  under a name that differs in case, if there are any (`SqlRename.TwinDeletion`,
  `SqlRename.SqlSubtreeExactlyWhen`).
* `RenameFolder` moves the subtree and then the row. If the second write fails, the
  tree is broken if and only if some row hangs under the renamed one
  (`SqlRename.HalfBreaksExactlyWhen`, `SqlRename.HalfRenameBreaks`); renaming again
  repairs it, provided the server takes the same rename twice
  (`SqlRename.RenameAgainRecovers`). With a store that works, this happens if and only
  if the server took a name that is stored for another folder
  (`Folders.RenameFolder`).
* The comment on `CreateFolder` (`internal/desktop/bind_folders.go:57-60`) promises that
  a name with the server's delimiter in it is rejected. At the root of an account
  without folders, or where the listing is refused, no delimiter is known: "a/b" is
  created nested on the server and stored as one segment (`Folders.FirstFolderNests`).
  A root folder gets the account's delimiter if and only if a folder is stored and the
  listing is not refused, or the server is flat (`Folders.CreateFolder`).
* `syncAddressBook` answers every error on a recorded token, a lost connection
  included, by emptying the book and reading it whole. If that read fails too, the old
  token stays, and the next sync on it is sure to restore the book if and only if every
  contact was touched since that token (`ContactSync.EmptiedBookExactlyWhen`,
  `ContactSync.FailedFallbackLosesTheContact`). A card that turns unreadable keeps its
  old local copy (`ContactSync.IncrementalCatchesUp`, `ContactSync.UnreadableStays`).
* `quoteETag` restores what was unquoted if and only if the tag is strong, not empty
  and does not start with `W/` (`ETags.QuoteInvertsTrim`). What it sends otherwise
  never matches a different version (`ETags.SentMatchesOnlyItself`), so no update is
  lost by that; but over a weak tag no unforced change is ever let through
  (`ContactWrites.UpToDateExactlyWhen`).
* "Every write is conditional" (`internal/desktop/bind_contacts_edit.go:12-18`), but a
  row without a tag is written without any condition, where the comment at lines 76-77
  expects a refusal. An unforced save or deletion replaces a card that its row did not
  come from if and only if the row has no tag (`ContactWrites.OverwritesExactlyWhen`);
  it has none if and only if the write was answered without one and asking again failed
  or found none (`ContactWrites.Settle`). `ContactWrites.LostEdit` is such a run.
* `Delete` in `internal/crypto/keyring.go:216-218` says that removing a key that is not
  there is no error; the code returns ErrKeyNotFound for a fingerprint in neither ring
  (`KeyRings.Store.Delete`).
* `splitHeaders` says that it divides at the first blank line, tolerating bare LF
  (`internal/crypto/smime.go:393-394`). A CRLF CRLF anywhere wins over an LF LF before
  it (`BlankLines.LateBlankLineWins`, and exactly when in
  `BlankLines.CutsAtFirstBlankExactlyWhen`): a signature whose headers a relay turned
  to LF and whose armor it left alone loses the armor's first line
  (`Relay.ArmorHeadLost`), and whether a relayed message comes apart depends on it
  (`Relay.ComesApartExactlyWhen`).
* An account without an address can be told to sign, with a private key that names no
  address; what is suggested is then accepted and cannot be sent
  (`Protection.NamelessSenderFails`, and exactly when in
  `Protection.AcceptedIsSendableExactlyWhen`). With nothing but blank recipients
  encryption is suggested and refused (`Protection.SuggestionAcceptedExactlyWhen`,
  `Protection.BlankRecipientRefused`).
* Rebuilding the index goes on when rewinding the watermark failed: the messages below
  it then stay out of the index, and the rebuild still reports success
  (`SearchIndex.EmptyIndex`, `SearchIndex.RewindFails`). It also goes on when removing
  the old index failed: documents of messages that are gone then stay in it
  (`SearchIndex.Rebuild`).
* A signature that fits but was made outside its certificate's validity is reported as
  an altered message if and only if the content it fits is not canonical
  (`Smime.WindowToldExactlyWhen`, `Smime.WindowUntold`).
* Nothing keeps two mailboxes from having one address, and a backup is imported by
  address: such mailboxes come back as one, with the server of the first and the
  credential of the last that has one (`Backup.SharedAddressMerges`,
  `Backup.AddressRestored`). Every mailbox comes back if and only if no two share an
  address (`Backup.ExportImportRestoresExactlyWhen`).
* `importMailboxes` stores a credential under the id of an account it has just created
  without looking whether one is there; an import cut short between those two writes
  is finished by repeating it if and only if none was (`Backup.CutShortExactlyWhen`,
  `Backup.LeftoverStays`). Cut short between the account's row and its place in the
  profile, it leaves a row nothing shows, and repeating it makes another
  (`Backup.UnlinkedStays`).
* `importMailboxes` takes a keyring that cannot be read for a moment for one without
  the credential, and writes the file's over it
  (`Backup.NothingOverwrittenExactlyWhen`, `Backup.UnreadIsOverwritten`).

## Model

| member | source | states |
|---|---|---|
| Multipart.TrimLineEnding | internal/crypto/smime.go:467-470 | never moves back or past the end of the body |
| Multipart.TrimTrailingLineEnding | internal/crypto/smime.go:473-478 | cuts within the section |
| Multipart.CollectSections | internal/crypto/smime.go:371-390 | the loop yields exactly the sections of the framing from where the first delimiter ended, and ends |
| Multipart.SplitOnBoundary | internal/crypto/smime.go:361-391 | for every body and delimiter: the sections of `Split`, nothing without a first delimiter |
| Multipart.FirstIsFirst | internal/crypto/smime.go:366-369 | the preamble is cut at the first delimiter, and none is found only if there is none |
| Multipart.SplitLosesNothing | internal/crypto/smime.go:361-391 | the sections are slices of a tiling of the body: delimiter, at most CRLF and LF, section, at most one line break, delimiter, in order, with no delimiter in between; what no delimiter follows is never returned |
| Multipart.TiledSectionsClean | internal/crypto/smime.go:361-391 | no section of such a tiling holds the delimiter |
| Multipart.SplitInvertsMixed | internal/crypto/smime.go:361-391 | any number of parts printed with CRLF or LF, each place for itself, split back into themselves if and only if each is free of the delimiter and does not start with the LF, or end in the CR, that would merge with the break beside it |
| Multipart.SplitInvertsPrint | internal/crypto/smime.go:361-391 | the same with CRLF, or LF, throughout |
| LineEndings.ToCRLFCanonical | internal/crypto/pgp.go:248-254 | every LF of the result follows a CR; canonical bytes, and only those, are left alone; idempotent |
| LineEndings.SecondAttemptSeesSignedBytes | internal/crypto/open.go:246-254 | rewriting any of the CRLFs to LF and canonicalising restores the bytes, for every rewriting, if and only if they are canonical without CR CR LF |
| LineEndings.SignedEntitySurvives | internal/crypto/pgp.go:80-92 | the same told of what was handed to sign: if and only if the entity holds no CR CR LF |
| PgpMime.WriteBoundary | internal/crypto/pgp.go:303-311 | appends one delimiter line, with two more dashes when it is the last |
| PgpMime.AssembleSigned | internal/crypto/pgp.go:266-282 | prints a two-part multipart of the entity and the signature under its headers |
| PgpMime.AssembleEncrypted | internal/crypto/pgp.go:284-301 | prints a two-part multipart of the version part and the ciphertext under its headers |
| PgpMime.TwoSections | internal/crypto/pgp.go:266-301 | the wire form of section 5.1.1 of RFC 2046 for two parts, delimiter line by delimiter line |
| PgpMime.HeadersSplitOff | internal/crypto/smime.go:393-404 | headers printed by hand end at their own blank line: the payload comes back |
| PgpMime.PairSplits | internal/crypto/smime.go:361-391 | a printed pair splits into that pair if and only if neither part holds the delimiter and the first does not start with LF |
| PgpMime.SignedPartsComeBack | internal/crypto/open.go:119-133 | the signed entity comes back byte for byte and the signature behind its headers, if and only if neither holds the delimiter and the entity does not start with LF |
| PgpMime.EncryptedPartsComeBack | internal/crypto/open.go:98-114 | the ciphertext handed to decryption is the one printed, if and only if it does not hold the delimiter |
| PgpMime.SignedMessageOpens | internal/crypto/pgp.go:72-98 | what sign prints opens on the canonical entity: valid by exactly the signer the library accepts over those bytes, unknown without keys or where the library does not know the key, and invalid otherwise |
| PgpMime.MalformedExactlyWhen | internal/crypto/open.go:98-133 | a signed or encrypted message is malformed if and only if there is no boundary, it splits into fewer than two sections, or the second is empty |
| PgpMime.VerdictExactlyWhen | internal/crypto/open.go:236-268 | any other opens on its first section; valid by a signer if and only if there are keys and the library accepts that signature over the content as it came or, failing that, over its canonical form; unknown if and only if there are no keys, or neither is accepted and the key of the first is unknown; invalid otherwise |
| PgpMime.RewrittenContentVerifies | internal/crypto/open.go:236-257 | content with rewritten line endings gets the verdict of the bytes that were signed, unless the library accepts it as it stands |
| Relay.RewritingHidesNothing | internal/crypto/smime.go:364-391 | rewriting any of the line ends makes no delimiter appear |
| BlankLines.CutsAtFirstBlankExactlyWhen | internal/crypto/smime.go:393-404 | headers end at the first blank line if and only if that is CRLF CRLF, or it is LF LF and no CRLF CRLF stands anywhere behind it |
| BlankLines.LateBlankLineWins | internal/crypto/smime.go:393-404 | a CRLF CRLF wins over an LF LF before it |
| BlankLines.AllHeadersExactlyWhen | internal/crypto/smime.go:393-404 | with neither anywhere an entity is all headers; only the empty one is refused |
| Relay.MessageArrives | internal/crypto/pgp.go:266-282 | whatever CRLFs of a signed message became LF, what arrives is the entity and the signature, rewritten, with a line break of either kind at each place |
| Relay.ArrivedSplitsExactlyWhen | internal/crypto/smime.go:361-391 | it splits into its parts as they arrived if and only if no part merges with a line break beside it |
| Relay.HeadersEndExactlyWhen | internal/crypto/smime.go:393-404 | the signature's headers end at their own blank line if and only if that arrived as CRLF CRLF, or ends in LF LF with no CRLF CRLF behind it |
| Relay.ComesApartExactlyWhen | internal/crypto/open.go:116-133 | so the message comes apart into the entity and the signature as they arrived if and only if both hold |
| Relay.RelayedAnyhowOpens | internal/crypto/open.go:116-133 | and then opens on that entity with exactly that verdict on that signature, valid if the library accepts it over the entity as signed |
| Relay.WhollyRelayedComesApart | internal/crypto/open.go:116-133 | where no CRLF at all is left it comes apart, unless the entity or the signature ends in a CR |
| Relay.ArmorHeadLost | internal/crypto/smime.go:393-404 | a signature part whose headers arrive with LF and whose armor with CRLF loses the armor's first line |
| Smime.DetachedParts | internal/crypto/smime.go:322-359 | the first section and the first later one that declares itself a signature, decoded; nothing if there is none or it does not decode |
| Smime.DetachedExactlyWhen | internal/crypto/smime.go:322-359 | there are two parts if and only if there is a boundary, two sections, and the first later section that declares itself a signature decodes; they are the first section and that |
| Smime.DetachedPartsComeBack | internal/crypto/smime.go:322-359 | the signed part of a printed message comes back verbatim with its signature |
| Smime.VerifyContent | internal/crypto/smime.go:164-180 | the check of the content as it came, or, when that fails and the canonical form differs, of that form, which is then what the structure holds; never a success on any other bytes |
| Smime.AcceptedExactlyWhen | internal/crypto/smime.go:164-180 | without content of its own the verdict is that on the embedded one; a success if and only if the library accepts what is held, or the canonical form of content that is not canonical; otherwise what it said last |
| Smime.RewrittenContentVerifies | internal/crypto/smime.go:164-180 | rewritten line endings do not cost a valid signature |
| Smime.WindowToldExactlyWhen | internal/crypto/smime.go:137-149 | a signature that fits but lies outside its certificate's validity is told from an altered message if and only if the content is canonical, given that a signature fits no two contents |
| Smime.WindowUntold | internal/crypto/smime.go:137-149 | over one bare line feed it is told as an altered message |
| Smime.RewrittenWindowTold | internal/crypto/smime.go:164-180 | over canonical content that comes with rewritten line endings it is told |
| EntryNames.AtoiOfItoa | internal/credentials/credentials.go:324-335 | a count written in decimal is read back |
| EntryNames.AtoiExactlyWhen | internal/credentials/credentials.go:324-335 | what is read as a count is a decimal number, with a sign or none, within 64 bits |
| EntryNames.ItoaInjective | internal/credentials/credentials.go:315-317 | different ids have different names |
| EntryNames.NamesDistinct | internal/credentials/credentials.go:147-193 | the names of accounts, chunks, address books, both kinds of proxy password, the VirusTotal key and PGP passphrases are pairwise distinct, whatever the ids |
| Credentials.ChunksJoin | internal/credentials/credentials.go:337-345 | chunks are at most 2000 bytes, none empty, and spell the data |
| Credentials.ChunkBytes | internal/credentials/credentials.go:337-345 | the loop cuts exactly those chunks |
| Credentials.MarkerRead | internal/credentials/credentials.go:324-335 | a marker is read back as its count and fits one entry |
| Credentials.SecretIsNoMarker | internal/credentials/credentials.go:117-126 | an encoded secret is never taken for a marker |
| Credentials.ReadChunkCount | internal/credentials/credentials.go:347-359 | the count the marker gives, or 0 without one or where the read is refused |
| Credentials.DeleteChunkRange | internal/credentials/credentials.go:361-366 | exactly the chunks of the range whose deletion is not refused go |
| Credentials.Store | internal/credentials/credentials.go:75-106 | for every keyring state and every pattern of failing calls, which states a store can leave; success, if and only if none of its writes is refused, means the main entry is the new one; without failures nothing of the old is left in its range |
| Credentials.Load | internal/credentials/credentials.go:108-134 | the secret the entries spell, or not found, or an error; an error also if and only if one of the reads it makes is refused |
| Credentials.LoadsExactlyWhen | internal/credentials/credentials.go:108-134 | not found if and only if there is no main entry; a secret if and only if the main entry is its encoding, or announces chunks that are all there and spell it; everything else is an error |
| Credentials.WrittenLoads | internal/credentials/credentials.go:79-134 | once the main entry is written the new secret loads, whatever became of stale chunks |
| Credentials.StoreThenLoad | internal/credentials/credentials.go:79-134 | a successful Store followed by Load gives the secret back, in every keyring state |
| Credentials.StoreStaysHome | internal/credentials/credentials.go:79-106 | no store, finished or stopped, touches any other entry, and what it writes is at most 2000 bytes |
| Credentials.StaleChunks | internal/credentials/credentials.go:79-106 | which chunks remain after a store without failures: the new ones and leftovers beyond both counts |
| Credentials.StoppedStoreIsAtomic | internal/credentials/credentials.go:75-106 | a store stopped at any call leaves the complete old secret or the complete new one when the old is unchunked or absent or the new fits one entry |
| Credentials.AtomicExactlyWhen | internal/credentials/credentials.go:75-106 | chunked over chunked: for every stop, if and only if the chunk lists agree where both have a chunk or differ in exactly one of equally many |
| Credentials.TornLetters | internal/credentials/credentials.go:75-106 | 2500 letters over 2500 others, stopped with the first new chunk in place: neither loads |
| Credentials.DeleteSecret | internal/credentials/credentials.go:136-145 | success exactly when deleting the main entry was not refused; the entries left, by which of the calls were; with none refused, all that the marker announces is gone |
| Credentials.DeletedIsPruned | internal/credentials/credentials.go:136-145 | whatever is refused, chunks below the count and the main entry are all that can have gone, the main entry on success only |
| Credentials.NoChunkLeftExactlyWhen | internal/credentials/credentials.go:136-145 | no chunk is left if and only if the count read was not refused, every chunk lay below the count, and none of their deletions was refused |
| Credentials.DeletingAgainFinishes | internal/credentials/credentials.go:136-145 | a deletion that failed is finished by deleting again, as if it had never failed; then nothing loads and nothing else has changed |
| Credentials.OrphansStay | internal/credentials/credentials.go:347-366 | without a main entry no deletion changes anything |
| Credentials.ChunksLeftForGood | internal/credentials/credentials.go:136-145 | a chunked secret deleted with the count read refused: success, nothing loads, every chunk stays, and deleting again changes nothing |
| Bytes.TrimmedExactly | internal/desktop/bind_folders.go:65-68 | what is trimmed off a name is blank, and no blank is left at either end |
| FolderPaths.CutParts | internal/desktop/bind_account_setup.go:388-396 | the parent path, the delimiter and the last segment make up the path, and the segment holds no delimiter |
| FolderPaths.RenamedPathCuts | internal/desktop/bind_folders.go:284-294 | a renamed path has the same parent and the new last segment |
| FolderPaths.DepthOfParent | internal/desktop/bind_account_setup.go:417-424 | a parent is exactly one level up |
| FolderPaths.ParentOfInside | internal/desktop/bind_folder_refresh.go:88-102 | a path lies under another if and only if its parent is that other or lies under it |
| SqlText.CutExactlyWhen | internal/storage/folders.go:172-178 | cutting a prefix off with substr by its length in bytes leaves what follows it if and only if it has as many characters as bytes, or nothing follows |
| SqlText.ASCIIExactlyWhen | internal/storage/folders.go:172-178 | well-formed UTF-8 has as many characters as bytes if and only if it is ASCII |
| SqlText.CountSplit | internal/storage/folders.go:188-195 | length() adds up where a character begins |
| FolderSql.SqlMovesSubtreeExactlyWhen | internal/storage/folders.go:164-186 | the statement replaces the prefix of the subtree and nothing else if and only if no row of the account matches only up to case, unless it stands already where it would be put, and the old prefix has as many characters as bytes or no row inside goes on behind it |
| FolderSql.SqlMovesRenamedExactlyWhen | internal/storage/folders.go:164-186 | for a new name that differs in more than case: if and only if no row matches only up to case, and the same |
| FolderSql.CutsWholeExactlyWhen | internal/storage/folders.go:172-178 | in well-formed UTF-8 the second half says that the old path is ASCII or no row inside goes on behind it |
| FolderSql.SqlListsSubtreeExactlyWhen | internal/storage/folders.go:188-195 | FolderDescendants returns what is nested under a folder if and only if no row matches only up to case |
| Sorting.SortSorts | internal/desktop/bind_folder_refresh.go:56-58 | the stable sort sorts by its key |
| Sorting.SortHolds | internal/desktop/bind_folder_refresh.go:56-58 | it keeps the elements |
| FolderTree.ChildPath | internal/desktop/bind_account_setup.go:388-406 | in a well formed tree a child's path is its parent's, the delimiter and its single-segment name |
| FolderTree.NoCycle | internal/desktop/bind_account_setup.go:371-415 | climbing from row to parent never returns |
| FolderTree.InsertKeeps | internal/desktop/bind_folders.go:102-113 | a row at a free path under its parent keeps the tree well formed |
| FolderTree.DropKeeps | internal/desktop/bind_folders.go:198-205 | so does dropping a row without children |
| FolderTree.CascadeExactlyWhen | internal/storage/migrations/0001_init.sql:24-24 | deleting rows takes exactly the rows from which climbing from row to parent leads to one of them |
| FolderTree.ChildlessGoesAlone | internal/storage/migrations/0001_init.sql:24-24 | deleting such a row cascades to nothing |
| SqlRename.RenamedExactlyWhen | internal/desktop/bind_folders.go:146-161 | a rename, after its first write and after both, is the prefix replaced if and only if the statement moves it exactly |
| SqlRename.SqlMovedDistinct | internal/storage/migrations/0001_init.sql:27-27 | whatever the statement does, no path is stored twice |
| SqlRename.ClashesAgree | internal/storage/folders.go:172-182 | where it moves exactly, it is refused if and only if a moved path is held by a row that does not move: the order of the rows does not matter |
| SqlRename.FirstLevelExactlyWhen | internal/desktop/bind_folders.go:146-161 | a row right under a folder whose path is the renamed one up to case is in place after a complete rename if and only if that folder is the renamed one or has the new path, and its prefix has as many characters as bytes or the name is empty |
| RenameBreaks.WellFormedExactlyWhen | internal/desktop/bind_folders.go:146-161 | a complete rename leaves the whole tree well formed if and only if, of every row that matches, what is cut off does not reach its name, if it has no parent or the renamed one, or its parent's path, if that matches too, and none hangs under any other row; where the delimiter is not a letter |
| SqlRename.CompleteKeeps | internal/desktop/bind_folders.go:117-162 | a complete rename that moves exactly keeps the tree well formed; every id and parent id stays |
| SqlRename.HalfBreaksExactlyWhen | internal/desktop/bind_folders.go:151-161 | stopped between its two writes it breaks the tree if and only if a row hangs under the renamed one |
| SqlRename.RenameAgainRecovers | internal/desktop/bind_folders.go:151-154 | renaming again then reaches what one whole rename would have, where the delimiter is not a letter |
| SqlRename.SqlSubtreeExactlyWhen | internal/desktop/bind_folders.go:254-266 | what a deletion takes is the folder and what is nested under it if and only if no row matches only up to case |
| SqlRename.UmlautRename | internal/desktop/bind_folders.go:146-161 | a child "Roman" of a parent written with one two-byte character, renamed to "Books": both writes succeed and the child is stored as "Books/oman" under the name "Roman" |
| SqlRename.TwinDeletion | internal/desktop/bind_folders.go:254-266 | deleting "work" takes "Work/A" along |
| SqlRename.HalfRenameBreaks | internal/desktop/bind_folders.go:151-161 | "a" with a child "b", renamed to "c" and stopped between the writes, leaves "c/b" under "a" |
| Folders.Store.Insert | internal/storage/folders.go:81-98 | a new id and the row, refused where the account has the path |
| Folders.Store.MoveSubtree | internal/storage/folders.go:164-186 | every path that matches up to case rewritten behind as many characters as the prefix has bytes, or none when a row would take a path held at that moment |
| Folders.Store.RenameRow | internal/storage/folders.go:152-162 | the row's name and path, refused where another row has the path |
| Folders.Store.DeleteRow | internal/storage/folders.go:347-354 | the row and all that hangs under it |
| Folders.AccountDelimiter | internal/desktop/bind_folders.go:268-282 | the account's delimiter where it has a folder and the listing is not refused, and otherwise "" |
| Folders.CreateFolder | internal/desktop/bind_folders.go:57-115 | succeeds exactly for a single free segment under a nestable parent of the account, or at its root by the delimiter known there, that the server and the store take; adds exactly that row; the tree stays well formed if and only if, at the root, the account has a folder and the listing was not refused, or its server is flat |
| Folders.NestsAtRoot | internal/desktop/bind_folders.go:268-282 | where no delimiter is known, a name with the delimiter in it is stored as one segment and the tree is not well formed |
| Folders.FirstFolderNests | internal/desktop/bind_folders.go:57-115 | "a/b" as the first folder of an account |
| FolderRoles.ProtectedExactlyWhen | internal/desktop/dto.go:333-366 | a row is protected by its role if the user assigned one, unless that is normal, and otherwise if and only if an attribute, with or without its backslash and in any case, is one of the five uses, or the path in any case is one of the six names |
| Folders.RenameFolder | internal/desktop/bind_folders.go:117-162 | a protected folder, an empty name, one with the delimiter in it and a refusal of the server change nothing; a success is the complete rename of the subtree if and only if the statement moves it exactly, and leaves the tree well formed exactly as `RenameBreaks.WellFormedExactlyWhen` says; a failure leaves the old rows or the moved subtree; with a working store and an exact move the tree breaks if and only if the server took a name stored for another folder, the subtree could move and a row hangs under the renamed one |
| Folders.NextIsChildless | internal/desktop/bind_folders.go:198-205 | in a list closed under children and with children later, a folder has no child left once all later ones are gone |
| Folders.FolderDescendants | internal/storage/folders.go:188-213 | exactly the rows whose path starts with the prefix up to case, each once, by length in characters |
| Folders.SubtreeFolders | internal/desktop/bind_folders.go:254-266 | the folder, then exactly what matches its prefix, shorter before longer |
| Folders.Drop | internal/desktop/bind_folders.go:198-205 | dropping a childless folder removes that row alone |
| Folders.TakeDown | internal/desktop/bind_folders.go:198-205 | a list closed under children goes from its end, no delete cascading; stopped anywhere, only some of it has gone |
| Folders.DeleteFolder | internal/desktop/bind_folders.go:164-207 | exactly the folder and what matches its prefix go, children first; that is its subtree if and only if no row matches only up to case; stopped anywhere, only some of them have gone and the tree is well formed; protected or refused, nothing changes |
| FolderRefresh.CreateFolderTree | internal/desktop/bind_account_setup.go:371-415 | every new row was listed, carries what the list says and hangs under its parent's row if one is stored or listed; stopped anywhere the tree is well formed; distinct new names always succeed |
| FolderRefresh.MarkedSentIsProtected | internal/desktop/dto.go:333-366 | what the server marks as sent mail is stored protected, whatever its name |
| FolderRefresh.FindListedDescendant | internal/desktop/bind_folder_refresh.go:88-102 | whether a listed name lies under the folder |
| FolderRefresh.DroppedWithChildren | internal/desktop/bind_folder_refresh.go:46-52 | a folder whose child is kept is kept: what is dropped is closed under descendants |
| FolderRefresh.ReadListing | internal/desktop/bind_folder_refresh.go:25-37 | the listed names that exist, and whether INBOX is among them in any case |
| FolderRefresh.FindGone | internal/desktop/bind_folder_refresh.go:43-52 | exactly the stored folders neither listed nor above a listed one, and an index of all that are stored |
| FolderRefresh.TakenFromDeepest | internal/desktop/bind_folder_refresh.go:54-69 | deepest first, each row is still there and childless when its turn comes |
| FolderRefresh.DropGone | internal/desktop/bind_folder_refresh.go:54-69 | exactly those rows go, each childless when it goes; stopped anywhere, only rows of them have gone and the others are as they were |
| FolderRefresh.FindAdded | internal/desktop/bind_folder_refresh.go:71-76 | exactly the listed folders that are not stored |
| FolderRefresh.Reconcile | internal/desktop/bind_folder_refresh.go:43-85 | a finished run satisfies `Refreshed`, and reports a change if and only if it made one; a stopped one satisfies `Underway`: only rows not kept have gone, only listed ones came, each under its parent's |
| FolderRefresh.RefreshFolders | internal/desktop/bind_folder_refresh.go:13-86 | an error or a list without INBOX drops nothing; a success keeps rows that stay as they were, drops the others, stores everything listed, links new rows; stopped anywhere the tree is well formed and changed only in that direction |
| FolderRefresh.PathsAfterRefresh | internal/desktop/bind_folder_refresh.go:13-86 | the stored paths are exactly the listed ones and those stored before with a listed descendant |
| FolderRefresh.RefreshedTwice | internal/desktop/bind_folder_refresh.go:13-86 | a second refresh on the same list leaves the very same rows |
| FolderRefresh.RefreshTwice | internal/desktop/bind_folder_refresh.go:13-86 | and reports no change |
| FolderRefresh.Run | internal/desktop/bind_folders.go:57-207 | every run of creating, renaming, deleting and refreshing, whatever the store and the servers refuse, keeps the tree well formed up to an operation that breaks it in one of two ways: a row at the root without the account's delimiter, or a rename that cut into what a row is told by, or stopped behind its first write; an INBOX without an assigned role keeps its row, name and path through every rename, deletion and creation, and every refresh that lists it |
| QueueSync.StepKeeps | internal/desktop/bind_sync.go:274-304 | the invariant holds after every step of every call, goroutine or other holder of syncMu |
| QueueSync.OneStageAtATime | internal/desktop/bind_sync.go:274-304 | a sync passes its stages one by one, whatever the others do, and only one that gives up leaves a stage out, the session |
| QueueSync.MovesExactlyWhen | internal/desktop/bind_sync.go:281-288 | a sync can move if and only if it is not over and does not wait for a syncMu that is held |
| QueueSync.ElsewhereExcludes | internal/desktop/bind_sync.go:19-21 | syncMu is taken elsewhere only when no sync holds it, and no sync takes it until it is released |
| QueueSync.NoChangeIsLost | internal/desktop/bind_sync.go:274-289 | in every interleaving a flag is set exactly when one goroutine has not cleared it, never two; each queueSync call has a syncAccount call that begins after it, or a goroutine bound to make one |
| QueueSync.CanMove | internal/desktop/bind_sync.go:281-288 | while a queued sync is unfinished and nothing else holds syncMu, some sync can move, using up work that only calls add |
| QueueSync.Drains | internal/desktop/bind_sync.go:274-304 | from every reachable state the syncs can be run out, after which every call has had a sync that began after it and no flag is set |
| ETags.QuoteInvertsTrim | internal/desktop/bind_contacts_edit.go:283-290 | quoting restores a trimmed tag if and only if it is strong, not empty and does not start with W/; never a weak one |
| ETags.SentMatchesOnlyItself | internal/desktop/bind_contacts_edit.go:272-290 | what is sent for a stored tag that is not empty matches no other tag |
| ContactSync.ReadUpdated | internal/carddav/carddav.go:181-200 | the readable cards of a report, in order; an unreadable one costs nothing else |
| ContactSync.ReportTruthful | internal/desktop/bind_contacts.go:412-421 | each write of a report by RFC 6578 makes the copy agree with the server there |
| ContactSync.WrittenAgrees | internal/desktop/bind_contacts.go:412-421 | after any such writes the copy agrees where something was written and is unchanged elsewhere |
| ContactSync.SyncOnce | internal/desktop/bind_contacts.go:400-423 | all writes and then the token, or some writes and the old token |
| ContactSync.SyncAddressBook | internal/desktop/bind_contacts.go:379-398 | an error on a recorded token that was not cancelled empties the book and reads it whole; the token changes only on success |
| ContactSync.StoppedStaysResumable | internal/desktop/bind_contacts.go:400-423 | stopped after any number of writes the copy still agrees wherever nothing changed since the token |
| ContactSync.ResumableOn | internal/desktop/bind_contacts.go:400-423 | and still does after other clients' changes |
| ContactSync.CompleteExactlyWhen | internal/desktop/bind_contacts.go:400-423 | from any copy, a completed attempt equals the server if and only if the copy agreed wherever nothing is written |
| ContactSync.IncrementalCatchesUp | internal/desktop/bind_contacts.go:400-423 | on a token the copy leads on from, a completed attempt equals the server in the same sense if and only if no member whose card is unreadable now is stored |
| ContactSync.UnreadableStays | internal/desktop/bind_contacts.go:400-423 | a card replaced by one that cannot be read stays as it was here |
| ContactSync.FullReadIsWhole | internal/desktop/bind_contacts.go:384-391 | a completed full read into an emptied book equals the server: a contact is stored if and only if it is a member with a readable card, with that card, and with a tag from which quoting gives the member's back |
| ContactSync.CopyMirrors | internal/carddav/contact.go:52-60 | a copy of a collection has each readable member's card as its card and its tag, unquoted, as its tag |
| ContactSync.FirstRead | internal/desktop/bind_contacts.go:379-423 | one member with tag "v1": its card and v1 are stored |
| ContactSync.EmptiedBookExactlyWhen | internal/desktop/bind_contacts.go:384-391 | a book emptied by a fallback that failed is made whole by the next completed attempt on its token, whatever the server answers, if and only if every contact was touched since the token |
| ContactSync.LeastReport | internal/carddav/carddav.go:178-200 | a server may report what was touched since the token and no more |
| ContactSync.FailedFallbackLosesTheContact | internal/desktop/bind_contacts.go:379-398 | a refused token, a failed full read, and a sync that succeeds: the contact is on the server and not here |
| ContactSync.AttemptOutcome | internal/desktop/bind_contacts.go:382-423 | a completed attempt equals the server at the token recorded; one stopped stays in line |
| ContactSync.Keep | internal/desktop/bind_contacts.go:379-423 | over any number of attempts, stopped or completed, with the server changing in between: in line as long as no attempt emptied the book without reading it whole, and equal to the server at the recorded token, card for card and tag for tag, after each completed one |
| ContactWrites.Server.Put | internal/carddav/carddav.go:228-262 | takes effect only where its precondition allows, once, and then answers the new tag or none; refused, only others have changed anything |
| ContactWrites.Server.Delete | internal/carddav/carddav.go:264-289 | the same for a removal; of what is missing it says so |
| ContactWrites.HeadersBack | internal/desktop/bind_contacts_edit.go:269-290 | the header sent makes good the condition the write claims |
| ContactWrites.UnconditionalExactlyWhen | internal/desktop/bind_contacts_edit.go:269-290 | a save or deletion goes out without a condition if and only if it is forced or of a row without a tag |
| ContactWrites.UpToDateExactlyWhen | internal/desktop/bind_contacts_edit.go:272-290 | where the server holds just the version a row came from, an unforced save or deletion meets its condition if and only if the tag is strong and its text does not start with W/: over a weak tag every one is told as a conflict |
| ContactWrites.OverwritesExactlyWhen | internal/desktop/bind_contacts_edit.go:12-18 | where the server holds another card than the row, an unforced save or deletion replaces it if and only if the row has no tag |
| ContactWrites.AllowedIsGuarded | internal/desktop/bind_contacts_edit.go:269-290 | a condition that holds means the server has the card the local copy came from, or nothing for a creation |
| ContactWrites.SaveContact | internal/desktop/bind_contacts_edit.go:38-93 | refused changes neither side; an error nothing here and at most the one write there; saved is exactly one write, stored with its tag, or as fetched, and without one exactly as `Settle` says where the answer carries none; with nobody interfering, saved if and only if the precondition holds, and otherwise refused if and only if both requests are answered and there is a card to show |
| ContactWrites.ShowConflict | internal/desktop/bind_contacts_edit.go:190-208 | showing the other version changes nothing; it is a refusal if and only if the request for it is answered with a card, and an error otherwise |
| ContactWrites.Settle | internal/desktop/bind_contacts_edit.go:74-82 | the stored row has the tag answered, or what the server is found to hold, or no tag; it ends without one if and only if none was answered and asking again fails or finds none |
| ContactWrites.UntaggedCreation | internal/desktop/bind_contacts_edit.go:74-80 | a creation answered without an ETag and a request for it that fails: the row has no tag |
| ContactWrites.LostEdit | internal/desktop/bind_contacts_edit.go:12-18 | then another client's card is replaced by the next unforced save, without a conflict |
| ContactWrites.DeleteContact | internal/desktop/bind_contacts_edit.go:95-139 | the local row goes exactly when the server's is gone; refused changes neither side, and is told from an error as for a save |
| ContactWrites.Run | internal/desktop/bind_contacts_edit.go:12-18 | in every run with other clients writing before any request and requests or answers lost, every conditional write replaced exactly what its local copy came from, and every conditional creation nothing |
| Drafts.MessageIdExactlyWhen | internal/desktop/bind_compose.go:664-677 | a Message-ID is accepted if and only if it is <local@domain>, neither part empty, and neither with a blank, a control character, a bracket or an @ |
| Drafts.NextDraftID | internal/desktop/bind_compose.go:299-306 | one above the highest id |
| Drafts.RenumberUnsafeDraftIDs | internal/desktop/bind_compose.go:308-326 | in place, the unsafe drafts numbered on from the highest safe id; reports whether there was one |
| Drafts.RenumberedKeeps | internal/desktop/bind_compose.go:308-326 | length, order, every other field and every safe id stay |
| Drafts.RenumberedDistinctExactlyWhen | internal/desktop/bind_compose.go:308-326 | afterwards all ids are distinct if and only if the safe ones were |
| Drafts.RenumberedSafeExactlyWhen | internal/desktop/bind_compose.go:308-326 | and all safe if and only if the highest safe id plus the number of unsafe drafts is at most 2^53-1 |
| Drafts.RenumberedAgain | internal/desktop/bind_compose.go:519-534 | a second time changes nothing |
| Drafts.NextIsFresh | internal/desktop/bind_compose.go:299-306 | the next id is new and positive, and safe if and only if all are below 2^53-1 |
| Drafts.Box.Load | internal/desktop/bind_compose.go:517-534 | the stored list, renumbered and written back if that changed it |
| Drafts.SaveDraft | internal/desktop/bind_compose.go:328-404 | exactly when it succeeds, and then the list with the one draft asked for: in its place or at the end, its text that of the request unless sealed, its Message-ID the one it had, the request's or a new one |
| Drafts.SavedIsStored | internal/desktop/bind_compose.go:339-396 | what a save makes of a list is that draft in its place, field by field, and every other as it was |
| Drafts.SaveKeepsExactlyWhen | internal/desktop/bind_compose.go:328-404 | the list stays good if and only if, for a new draft, an id at most 2^53-1 was left |
| Drafts.SaveKeepsMessageIds | internal/desktop/bind_compose.go:388-390 | no save changes a Message-ID that is there |
| Drafts.Compact | internal/desktop/bind_compose.go:492-500 | the in-place filter leaves the others in order and finds the one removed |
| Drafts.DeleteDraft | internal/desktop/bind_compose.go:481-515 | exactly that draft goes, and the Message-ID of its server copy comes back |
| Drafts.MessageIdIsConstant | internal/desktop/bind_compose.go:360-369 | over a whole run a Message-ID, once there, stays while its draft is listed |
| Drafts.Run | internal/desktop/bind_compose.go:328-515 | every list reached from the empty one has distinct positive ids up to 2^53-1; each draft is sealed exactly when its protection encrypts and is then bare, and otherwise has a Message-ID |
| Drafts.UploadDraft | internal/desktop/bind_compose.go:540-570 | only an unsealed draft that does not encrypt is ever built |
| KeyRings.SameFingerprintExactlyWhen | internal/crypto/keyring.go:414-418 | two fingerprints are one if and only if they agree up to case, spaces and the blanks around them |
| KeyRings.Store.Merge | internal/crypto/keyring.go:316-335 | the other keys in place and order, then the incoming ones; the public ring keeps no private material |
| KeyRings.Store.Import | internal/crypto/keyring.go:163-198 | both rings merged; stopped, neither, the private one, or both |
| KeyRings.Store.Delete | internal/crypto/keyring.go:216-246 | the key gone from both rings; stopped, from neither, the private one, or both; not found exactly when in neither |
| KeyRings.MergedTwice | internal/crypto/keyring.go:316-335 | keys of other fingerprints stay in place and order; merging again changes nothing |
| KeyRings.ImportKeepsIncluded | internal/crypto/keyring.go:163-198 | each private fingerprint is in the public ring after an import |
| KeyRings.HalfImportKeepsExactlyWhen | internal/crypto/keyring.go:184-191 | and between its two writes if and only if every private key it brings was there already |
| KeyRings.DeleteKeepsIncluded | internal/crypto/keyring.go:216-246 | a deletion keeps it between its writes too |
| KeyRings.ImportAgain | internal/crypto/keyring.go:163-198 | an import repeated after a stop between its writes, or after its end, comes to the import done once |
| KeyRings.DeleteAgain | internal/crypto/keyring.go:216-246 | so does a deletion |
| KeyRings.OtherKeysStay | internal/crypto/keyring.go:163-246 | neither moves or changes a key of another fingerprint |
| KeyRings.MissingExactlyWhen | internal/crypto/keyring.go:163-246 | a private key is missing from the public ring if and only if a stopped import brought it there and it has neither been imported whole nor deleted since |
| KeyRings.Run | internal/crypto/keyring.go:163-246 | over every run of imports and deletions, each finished or stopped at any write, the private ring is included in the public one if and only if no key is stranded |
| Protection.SuggestedProtection | internal/desktop/bind_compose_pgp.go:151-171 | auto encrypts and signs exactly when that is possible, sign never encrypts, off does neither |
| Protection.ComposeProtectionStatus | internal/desktop/bind_compose_pgp.go:106-149 | can sign, can encrypt, locked, and each address checked, in terms of the key lookups alone |
| Protection.CarriesExactlyWhen | internal/crypto/keys.go:119-135 | a key carries an address in any case, with blanks around it in the question |
| Protection.ForEmailIsFirst | internal/crypto/keys.go:119-135 | the key found is the first that carries the address, and none only if none does |
| Protection.ProtectionOptions | internal/desktop/bind_compose_pgp.go:173-232 | the loops come to the decision; nothing is done if and only if the protection is none of the three words, and the mode given encrypts, and signs, if and only if the word says so |
| Protection.Recipients | internal/crypto/pgp.go:171-186 | a key for every address in order, or nothing |
| Protection.GivenIsWhatWasAsked | internal/desktop/bind_compose_pgp.go:173-232 | any success has a mode that encrypts and signs as the word asked, the sender's address, the passphrase held for a locked key, no Bcc when encrypting, and a key for every address that is not blank |
| Protection.OutcomeExactlyWhen | internal/desktop/bind_compose_pgp.go:173-232 | each refusal, if and only if: Bcc with encryption, no key store, an address without a key, no address at all, no signing key, a locked one without passphrase; each where none before it applies |
| Protection.AddressesExactly | internal/desktop/bind_compose_pgp.go:190-214 | the addresses reported missing and those encrypted to are exactly the message's, cleaned and not blank, without a key and with one |
| Protection.SuggestionAcceptedExactlyWhen | internal/desktop/bind_compose_pgp.go:106-232 | what is suggested for some recipients is accepted for the same ones if and only if it does not encrypt to blanks alone and does not sign with a key still locked |
| Protection.BlankRecipientRefused | internal/desktop/bind_compose_pgp.go:106-232 | to one blank recipient encryption is suggested and refused |
| Protection.AcceptedIsSendableExactlyWhen | internal/crypto/pgp.go:155-186 | every key lookup of the engine then succeeds if and only if a signer has an address and a passphrase that fits |
| Protection.NamelessSenderFails | internal/crypto/pgp.go:157-160 | an account without an address, told to sign, is accepted and cannot be sent |
| SearchIndex.Search.ListAbove | internal/storage/messages.go:242-266 | the lowest live ids above the mark, ascending, none left out below the last |
| SearchIndex.IndexOne | internal/desktop/bind_search.go:98-110 | one batch extends what is covered to its highest id, and to every id there was if it was not full |
| SearchIndex.IndexNewMessages | internal/desktop/bind_search.go:74-117 | stopped anywhere, every live message at or below the stored watermark has its document; a success with no insert meanwhile leaves every live message indexed; undisturbed, it writes just the documents of the messages above the watermark and ends with the watermark at or above them all; it ends |
| SearchIndex.ReindexMessages | internal/desktop/bind_search.go:119-144 | repaired messages get their new documents and the invariant stays |
| SearchIndex.EmptyIndex | internal/desktop/bind_search.go:170-188 | after emptying, the invariant holds if and only if nothing was removed or no live message lies at or below the watermark left |
| SearchIndex.RewindFails | internal/desktop/bind_search.go:170-188 | one indexed message and a rewind that fails: no error, and the message is below the watermark and not in the index |
| SearchIndex.Rebuild | internal/desktop/bind_search.go:157-195 | a completed rebuild with no insert meanwhile leaves every live message indexed; undisturbed, the index is then exactly the live messages, over what a failed removal left, so only live messages have documents if and only if the removal succeeded or no other had one |
| SearchIndex.Run | internal/desktop/bind_search.go:74-195 | the invariant at every point between inserts, deletions, repairs, passes, reindexing and rebuilds |
| Backup.OpenSecrets | internal/desktop/bind_backup.go:393-408 | every credential decrypted up front, or none, if and only if there is a password and some entry's credential was not sealed under it |
| Backup.OpenedExactlyWhen | internal/desktop/bind_backup.go:386-408 | nothing opens if and only if there is a password and some entry carries a credential that was not sealed under it, or is none |
| Backup.OpenedSecret | internal/desktop/bind_backup.go:393-408 | otherwise an address has the credential that its last entry with one carries |
| Backup.Index | internal/desktop/bind_backup.go:413-416 | the account each address leads to |
| Backup.AccountOfExactlyWhen | internal/desktop/bind_backup.go:413-416 | that is the last one listed with the address, and there is none only if none is |
| Backup.ImportOne | internal/desktop/bind_backup.go:418-466 | one entry imported whole, or stopped before anything, between the row and its place in the profile, or between that and the credential; a credential that cannot be read at that moment is written over |
| Backup.ImportMailboxes | internal/desktop/bind_backup.go:377-469 | where some credential was not sealed under the password it fails and everything is as it was; otherwise a success is the import of every entry, and stopped, it is one of the states between two writes |
| Backup.CutShortExactlyWhen | internal/desktop/bind_backup.go:454-466 | an account created without its credential is finished by importing again if and only if the keyring held no other under its id |
| Backup.LeftoverStays | internal/desktop/bind_backup.go:454-466 | a credential left under the first id stays with the account imported under it |
| Backup.Converges | internal/desktop/bind_backup.go:377-469 | stopped after any write and run again to its end, an import gives every address what an uninterrupted one gives it; only where a credential could not be read on the way may it be the file's |
| Backup.StoppedView | internal/desktop/bind_backup.go:377-469 | of each address an import stopped anywhere has made what it had, what the whole import makes of it, or its configuration without a credential |
| Backup.UnlinkedStays | internal/storage/accounts.go:151-182 | a row that missed its place in the profile is never made an account of |
| Backup.ImportRetried | internal/desktop/bind_backup.go:377-469 | the same over any number of stopped attempts |
| Backup.ImportTwice | internal/desktop/bind_backup.go:377-381 | importing twice is importing once |
| Backup.NothingOverwrittenExactlyWhen | internal/desktop/bind_backup.go:419-432 | no account changes, and what an address had stays if and only if its credential could be read whenever it came up, or the file has none or the same |
| Backup.UnreadIsOverwritten | internal/desktop/bind_backup.go:429-434 | one mailbox whose credential cannot be read for a moment: it is replaced by the file's |
| Backup.ImportView | internal/desktop/bind_backup.go:389-469 | what each address leads to afterwards: what it did, its credential filled in if it had none; or its first entry with its last credential |
| Backup.FirstServerExactlyWhen | internal/desktop/bind_backup.go:435-459 | the configuration is that of the first entry of the address, and there is none only if none is for it |
| Backup.ExportMailboxes | internal/desktop/bind_backup.go:190-240 | the entries of the mailboxes with a server, in order; an error if and only if the list or, under a password, one of their keyring reads is refused |
| Backup.ExportImportRestoresExactlyWhen | internal/desktop/bind_backup.go:190-240 | an export imported into an empty install gives every mailbox with a server back, one for one, with its own configuration and credential, if and only if no two of them share an address |
| Backup.AddressRestored | internal/desktop/bind_backup.go:389-469 | an address leads to the server of its first mailbox and the credential of the last that has one; one without a mailbox leads to nothing |
| Backup.SharedAddressMerges | internal/desktop/bind_backup.go:389-469 | two mailboxes at one address come back as one, with the server of the first and the credential of the second |

## Left out

- FolderSql.SqlClashes: the statement takes the rows in id order, where SQLite may take them in another; `SqlRename.ClashesAgree` shows that the order matters only where it does not move exactly. LIKE takes paths as bytes, which for well-formed UTF-8 comes to the same.
- Folders.RenameFolder: what the server does with a rename or a deletion is only whether it accepts; a deletion refused halfway counts as refused.
- Folders.Store.ListFolders: lists by id; an order the user gave the sidebar is not modelled, and nothing proved depends on the order.
- FolderRefresh.RefreshFolders: an account whose server lists its mailboxes with different delimiters is outside the model.
- Folders.DeleteFolder: purging a folder's messages is only a call that may fail; messages are not rows of the model.
- Credentials.Encode: stands for JSON, of which injectivity and the leading brace are used, and, for the second half of `Credentials.AtomicExactlyWhen`, that decoding accepts nothing but what encoding writes; Go's decoder also takes other spacing, unknown keys and a repeated key.
- Bytes.TrimSpace: trims the ASCII blanks only; Upper and Lower fold ASCII letters only.
- Backup.Decrypt: stands for authenticated encryption under a password; scrypt and AES-GCM are not modelled. Of the keyring the import sees what Load can read; that Load reads several entries is left to `Credentials`, and one that can never be read is, for the export, one whose read is refused.
- Backup.ImportMailboxes: the list of accounts to sync afterwards is not returned. The other categories of a backup (settings, whitelist, signatures) are copied key by key and left out.
- ContactWrites.SaveContact: the vCard written is given; ToCard, setValue, setLabelled and FromCard, the check that a contact has a name or an address, and a local store that fails after the server accepted are left out.
- ContactSync.Answers: the server is taken to follow sections 3.4 and 3.5 of RFC 6578; one that returns no token, and a first full read stopped midway, are outside `ContactSync.Keep`, though `ContactSync.CompleteExactlyWhen` covers any copy.
- Multipart.CollectSections: where the code keeps a slice of the rest of the body, the model keeps the position it starts at; the sections are the same.
- PgpMime.CheckDetached: the OpenPGP library is a function of the signature and the bytes; inline armor, clearsigned text, unlockRing and decryption are left out.
- Smime.VerifyContent: the CMS library is a function in the same way; certificate chains, address checks and revocation are left out.
- Protection.ProtectionOptions: a key ring that cannot be parsed is not modelled; a store that cannot be opened is. sealDraft and unsealDraft are one library round trip each and appear only as the result of sealing in `Drafts.SaveDraft`.
- Drafts.Run: leaves out a save of a new draft once the id 2^53-1 is in use; `Drafts.SaveKeepsExactlyWhen` says what it does. Removing server copies in the background is not modelled.
- SearchIndex.Rebuild: takes opening the index again and rewinding the watermark as successful; `SearchIndex.EmptyIndex` says what happens otherwise. What text is indexed for an encrypted message is left out.
- QueueSync.StepKeeps: what a sync does inside its session is not modelled.
- KeyRings.Store.Write: the temporary file and its rename are one step that may fail before or after the ring is replaced.
- ensureFolders and StartAccountSync only call createFolderTree with no stored folders, which `FolderRefresh.CreateFolderTree` covers.
