/** Account secrets spread over size-bounded keyring entries
    (internal/credentials/credentials.go). The keyring is keyed by EntryName rather
    than by the rendered name, which NamesDistinct shows to be the same thing. */
module Credentials {
  import Bytes
  import opened EntryNames
  import opened Options

  const MAX_ENTRY_SIZE := 2000
  const CHUNK_MARKER: string := "pelton-chunked:v1:"

  type Entries = map<EntryName, string>

  // ----- the encoded secret

  /** Stands for encoding/json: injective, and every text starts with '{'. */
  datatype Secret = Secret(fields: string)

  function Encode(s: Secret): (text: string)
    ensures text != "" && text[0] == '{'
  {
    "{" + s.fields + "}"
  }

  function Decode(text: string): Option<Secret> {
    if 2 <= |text| && text[0] == '{' && text[|text| - 1] == '}' then Some(Secret(text[1..|text| - 1])) else None
  }

  lemma DecodeOfEncode(s: Secret)
    ensures Decode(Encode(s)) == Some(s)
  {
    assert Encode(s)[1..|Encode(s)| - 1] == s.fields;
  }

  lemma DecodedMeansEncoded(text: string, s: Secret)
    requires Decode(text) == Some(s)
    ensures text == Encode(s)
  {
  }

  // ----- chunks

  function Chunks(data: string): (c: seq<string>)
    ensures c != [] && (|data| <= MAX_ENTRY_SIZE ==> c == [data])
  {
    if |data| <= MAX_ENTRY_SIZE then [data]
    else [data[..MAX_ENTRY_SIZE]] + Chunks(data[MAX_ENTRY_SIZE..])
  }

  function Join(c: seq<string>): string {
    if c == [] then "" else c[0] + Join(c[1..])
  }

  /** Chunks only cuts: joining gives the data back, every chunk fits one entry and
      none is empty unless the data is. */
  lemma {:induction false} ChunksJoin(data: string)
    ensures Join(Chunks(data)) == data
    ensures forall p :: p in Chunks(data) ==> |p| <= MAX_ENTRY_SIZE
    ensures data != "" ==> forall p :: p in Chunks(data) ==> p != ""
    ensures |Chunks(data)| <= |data| + 1
    ensures data != "" ==> |Chunks(data)| <= |data|
    ensures MAX_ENTRY_SIZE < |data| ==> 2 <= |Chunks(data)|
  {
    if MAX_ENTRY_SIZE < |data| {
      var rest := data[MAX_ENTRY_SIZE..];
      ChunksJoin(rest);
      assert Chunks(data)[1..] == Chunks(rest);
      assert data == data[..MAX_ENTRY_SIZE] + rest;
    } else {
      assert Chunks(data)[1..] == [];
      assert data + "" == data;
    }
  }

  /** chunkBytes(data, maxEntrySize). */
  method ChunkBytes(data: string) returns (out: seq<string>)
    ensures out == Chunks(data)
  {
    out := [];
    var rest := data;
    while |rest| > MAX_ENTRY_SIZE
      invariant out + Chunks(rest) == Chunks(data)
      decreases |rest|
    {
      out := out + [rest[..MAX_ENTRY_SIZE]];
      rest := rest[MAX_ENTRY_SIZE..];
    }
    out := out + [rest];
  }

  // ----- reading

  function MarkerText(n: nat): string {
    CHUNK_MARKER + Itoa(n)
  }

  /** The number of chunks a main entry announces, if it is a marker at all. */
  function ChunkCount(raw: string): Option<int> {
    if CHUNK_MARKER <= raw then Atoi(raw[|CHUNK_MARKER|..]) else None
  }

  lemma MarkerRead(n: nat)
    requires n <= MAX_INT
    ensures ChunkCount(MarkerText(n)) == Some(n)
    ensures |MarkerText(n)| <= MAX_ENTRY_SIZE
  {
    assert MarkerText(n)[|CHUNK_MARKER|..] == Itoa(n);
    AtoiOfItoa(n);
    IntLength(n);
  }

  lemma SecretIsNoMarker(s: Secret)
    ensures ChunkCount(Encode(s)) == None
  {
    assert CHUNK_MARKER[0] == 'p';
  }

  function ExistingChunkCount(e: Entries, id: int): int {
    if Account(id) !in e then 0
    else match ChunkCount(e[Account(id)])
         case None => 0
         case Some(n) => n
  }

  datatype LoadResult = NotFound | Broken | Loaded(secret: Secret)

  /** Chunks [i, n) joined, unless one is missing. */
  function Gather(e: Entries, id: int, i: int, n: int): Option<string>
    decreases n - i
  {
    if n <= i then Some("")
    else if Chunk(id, i) !in e then None
    else match Gather(e, id, i + 1, n)
         case None => None
         case Some(rest) => Some(e[Chunk(id, i)] + rest)
  }

  /** The text an account's entries spell. */
  function RawText(e: Entries, id: int): Option<string>
    requires Account(id) in e
  {
    match ChunkCount(e[Account(id)])
    case None => Some(e[Account(id)])
    case Some(n) => Gather(e, id, 0, n)
  }

  function LoadFrom(e: Entries, id: int): LoadResult {
    if Account(id) !in e then NotFound
    else match RawText(e, id)
         case None => Broken
         case Some(text) =>
           match Decode(text)
           case None => Broken
           case Some(s) => Loaded(s)
  }

  // ----- writing

  /** The entries once the first k chunks of c are in. */
  function WithChunks(e: Entries, id: int, c: seq<string>, k: nat): Entries
    requires k <= |c|
  {
    if k == 0 then e else WithChunks(e, id, c, k - 1)[Chunk(id, k - 1) := c[k - 1]]
  }

  /** The entries once everything new is in and nothing stale is out. */
  function Written(e: Entries, id: int, text: string): Entries {
    if |text| <= MAX_ENTRY_SIZE then e[Account(id) := text]
    else
      var c := Chunks(text);
      WithChunks(e, id, c, |c|)[Account(id) := MarkerText(|c|)]
  }

  /** Where the stale chunks of a store begin. */
  function KeptChunks(text: string): nat {
    if |text| <= MAX_ENTRY_SIZE then 0 else |Chunks(text)|
  }

  /** `after` is `before` with some of the chunks [from, to) gone. */
  ghost predicate Pruned(before: Entries, after: Entries, id: int, from: int, to: int) {
    && after.Keys <= before.Keys
    && (forall n :: n in after ==> after[n] == before[n])
    && (forall n :: n in before && n !in after ==> n.Chunk? && n.id == id && from <= n.i < to)
  }

  /** A store stopped, for whatever reason, before its main entry was written. */
  ghost predicate StoppedEarly(before: Entries, after: Entries, id: int, text: string) {
    if |text| <= MAX_ENTRY_SIZE then after == before
    else exists k | 0 <= k <= |Chunks(text)| :: after == WithChunks(before, id, Chunks(text), k)
  }

  /** A store stopped at any keyring call at all, or finished. */
  ghost predicate StoppedStore(before: Entries, after: Entries, id: int, text: string) {
    || StoppedEarly(before, after, id, text)
    || Pruned(Written(before, id, text), after, id, KeptChunks(text), ExistingChunkCount(before, id))
  }

  // ----- the keyring

  datatype Reply = Refused | Absent | Held(value: string)

  /** The k-th call from now is refused. */
  predicate FaultAt(faults: seq<bool>, k: nat) {
    k < |faults| && faults[k]
  }

  /** What is left of the faults after k calls. */
  function After(faults: seq<bool>, k: nat): seq<bool> {
    if k <= |faults| then faults[k..] else []
  }

  /** The OS keyring. Each call may fail; which ones do is read off `faults`, one
      per call to come, with none left meaning that every call succeeds. A store
      that dies at a call is one for which that call and all later ones fail. */
  class Keyring {
    var entries: Entries
    var faults: seq<bool>

    constructor (entries: Entries, faults: seq<bool>)
      ensures this.entries == entries && this.faults == faults
    {
      this.entries, this.faults := entries, faults;
    }

    method NextFails() returns (fails: bool)
      modifies this`faults
      ensures fails <==> FaultAt(old(faults), 0)
      ensures faults == After(old(faults), 1)
    {
      fails := false;
      if faults != [] {
        fails, faults := faults[0], faults[1..];
      }
    }

    method Get(n: EntryName) returns (r: Reply)
      modifies this`faults
      ensures faults == After(old(faults), 1)
      ensures r == if FaultAt(old(faults), 0) then Refused else if n in entries then Held(entries[n]) else Absent
    {
      var fails := NextFails();
      r := if fails then Refused else if n in entries then Held(entries[n]) else Absent;
    }

    method Set(n: EntryName, value: string) returns (ok: bool)
      modifies this
      ensures faults == After(old(faults), 1) && (ok <==> !FaultAt(old(faults), 0))
      ensures entries == if ok then old(entries)[n := value] else old(entries)
    {
      var fails := NextFails();
      ok := !fails;
      if ok {
        entries := entries[n := value];
      }
    }

    method Delete(n: EntryName) returns (r: Reply)
      modifies this
      ensures faults == After(old(faults), 1) && (r == Refused <==> FaultAt(old(faults), 0))
      ensures entries == if r == Refused then old(entries) else old(entries) - {n}
      ensures r != Refused ==> (r == Absent <==> n !in old(entries))
    {
      var fails := NextFails();
      r := if fails then Refused else if n in entries then Held(entries[n]) else Absent;
      if !fails {
        entries := entries - {n};
      }
    }
  }

  /** The count a read that may be refused comes to. */
  function CountRead(e: Entries, id: int, faults: seq<bool>): int {
    if FaultAt(faults, 0) then 0 else ExistingChunkCount(e, id)
  }

  method ReadChunkCount(kr: Keyring, id: int) returns (n: int)
    modifies kr`faults
    ensures n == CountRead(kr.entries, id, old(kr.faults)) && kr.faults == After(old(kr.faults), 1)
  {
    var r := kr.Get(Account(id));
    match r
    case Held(raw) => n := match ChunkCount(raw) case None => 0 case Some(k) => k;
    case _ => n := 0;
  }

  /** The chunks of [from, to) whose call is not refused go. */
  predicate IsDropped(x: EntryName, id: int, from: int, to: int, faults: seq<bool>) {
    x.Chunk? && x.id == id && from <= x.i < to && !FaultAt(faults, x.i - from)
  }

  function RangeDropped(e: Entries, id: int, from: int, to: int, faults: seq<bool>): Entries {
    map x | x in e && !IsDropped(x, id, from, to, faults) :: e[x]
  }

  method DeleteChunkRange(kr: Keyring, id: int, from: nat, to: int)
    modifies kr
    ensures kr.entries == RangeDropped(old(kr.entries), id, from, to, old(kr.faults))
    ensures kr.faults == After(old(kr.faults), if from < to then to - from else 0)
  {
    ghost var before := kr.entries;
    var i: int := from;
    assert RangeDropped(before, id, from, from, kr.faults) == before;
    while i < to
      invariant from <= i && (i == from || i <= to)
      invariant kr.entries == RangeDropped(before, id, from, i, old(kr.faults))
      invariant kr.faults == After(old(kr.faults), i - from)
    {
      var _ := kr.Delete(Chunk(id, i));
      i := i + 1;
    }
    assert RangeDropped(before, id, from, to, old(kr.faults)) == kr.entries;
  }

  lemma RangePruned(e: Entries, id: int, from: int, to: int, faults: seq<bool>)
    ensures Pruned(e, RangeDropped(e, id, from, to, faults), id, from, to)
    ensures faults == [] ==> forall i :: from <= i < to ==> Chunk(id, i) !in RangeDropped(e, id, from, to, faults)
  {
  }

  /** The entries a store sets, behind its read of the old count. */
  function SetCalls(text: string): nat {
    if |text| <= MAX_ENTRY_SIZE then 1 else |Chunks(text)| + 1
  }

  lemma OneMoreCall(faults: seq<bool>, calls: nat)
    requires !AnyFault(faults, calls)
    ensures FaultAt(After(faults, calls), 0) <==> FaultAt(faults, calls)
    ensures AnyFault(faults, calls + 1) <==> FaultAt(faults, calls)
    ensures After(After(faults, calls), 1) == After(faults, calls + 1)
  {
  }

  lemma FaultStays(faults: seq<bool>, calls: nat, more: nat)
    requires AnyFault(faults, calls) && calls <= more
    ensures AnyFault(faults, more)
  {
  }

  method SetChunks(kr: Keyring, id: int, chunks: seq<string>) returns (ok: bool, ghost done: nat)
    modifies kr
    ensures done <= |chunks| && kr.entries == WithChunks(old(kr.entries), id, chunks, done)
    ensures ok <==> !AnyFault(old(kr.faults), |chunks|)
    ensures ok ==> done == |chunks| && kr.faults == After(old(kr.faults), |chunks|)
  {
    ghost var before, faults := kr.entries, kr.faults;
    var i := 0;
    while i < |chunks|
      invariant 0 <= i <= |chunks|
      invariant kr.entries == WithChunks(before, id, chunks, i)
      invariant kr.faults == After(faults, i) && !AnyFault(faults, i)
    {
      OneMoreCall(faults, i);
      ok := kr.Set(Chunk(id, i), chunks[i]);
      if !ok {
        FaultStays(faults, i + 1, |chunks|);
        return false, i;
      }
      i := i + 1;
    }
    ok, done := true, i;
  }

  /** Whatever fails and wherever it stops, Store leaves one of the states of
      StoppedStore; when it reports success the main entry is the new one, and when
      nothing fails no chunk between the new count and the old is left. */
  method Store(kr: Keyring, id: int, s: Secret) returns (ok: bool)
    requires |Encode(s)| <= MAX_INT
    modifies kr
    ensures ok <==> !AnyFault(After(old(kr.faults), 1), SetCalls(Encode(s)))
    ensures StoppedStore(old(kr.entries), kr.entries, id, Encode(s))
    ensures if ok
            then Pruned(Written(old(kr.entries), id, Encode(s)), kr.entries, id,
                        KeptChunks(Encode(s)), ExistingChunkCount(old(kr.entries), id))
            else StoppedEarly(old(kr.entries), kr.entries, id, Encode(s))
    ensures old(kr.faults) == [] ==>
      && ok && kr.faults == []
      && forall i :: KeptChunks(Encode(s)) <= i < ExistingChunkCount(old(kr.entries), id) ==> Chunk(id, i) !in kr.entries
  {
    var encoded := Encode(s);
    ghost var before := kr.entries;
    var oldChunks := ReadChunkCount(kr, id);
    ghost var faults := kr.faults;
    OneMoreCall(faults, 0);
    if |encoded| <= MAX_ENTRY_SIZE {
      ok := kr.Set(Account(id), encoded);
      if ok {
        RangePruned(kr.entries, id, 0, oldChunks, kr.faults);
        DeleteChunkRange(kr, id, 0, oldChunks);
      }
      return;
    }
    var chunks := ChunkBytes(encoded);
    ghost var done;
    ok, done := SetChunks(kr, id, chunks);
    if !ok {
      FaultStays(faults, |chunks|, |chunks| + 1);
      return;
    }
    OneMoreCall(faults, |chunks|);
    ok := kr.Set(Account(id), MarkerText(|chunks|));
    if ok {
      RangePruned(kr.entries, id, |chunks|, oldChunks, kr.faults);
      DeleteChunkRange(kr, id, |chunks|, oldChunks);
    }
  }

  /** The reads a load makes, unless one of them ends it. */
  function Reads(e: Entries, id: int): nat {
    if Account(id) !in e || ChunkCount(e[Account(id)]) == None || ChunkCount(e[Account(id)]).value < 0 then 1
    else 1 + ChunkCount(e[Account(id)]).value
  }

  ghost predicate AnyFault(faults: seq<bool>, calls: nat) {
    exists k :: 0 <= k < calls && FaultAt(faults, k)
  }

  /** Load is LoadFrom, unless one of its reads is refused, which is an error. */
  method Load(kr: Keyring, id: int) returns (r: LoadResult)
    modifies kr`faults
    ensures r == if AnyFault(old(kr.faults), Reads(kr.entries, id)) then Broken else LoadFrom(kr.entries, id)
    ensures old(kr.faults) == [] ==> kr.faults == []
  {
    ghost var faults := kr.faults;
    var main := kr.Get(Account(id));
    match main
    case Absent => r := NotFound;
    case Refused => r := Broken;
    case Held(value) =>
      var raw := value;
      match ChunkCount(value) {
        case None =>
        case Some(n) =>
          var i, sb := 0, "";
          PrependNothing(Gather(kr.entries, id, 0, n));
          while i < n
            invariant 0 <= i && (0 <= n ==> i <= n)
            invariant kr.faults == After(faults, 1 + i) && !AnyFault(faults, 1 + i)
            invariant Prepend(sb, Gather(kr.entries, id, i, n)) == Gather(kr.entries, id, 0, n)
          {
            assert FaultAt(After(faults, 1 + i), 0) <==> FaultAt(faults, 1 + i);
            var part := kr.Get(Chunk(id, i));
            if !part.Held? {
              return Broken;
            }
            PrependStep(sb, part.value, Gather(kr.entries, id, i + 1, n));
            sb := sb + part.value;
            i := i + 1;
          }
          AppendNothing(sb);
          raw := sb;
      }
      match Decode(raw) {
        case None => r := Broken;
        case Some(s) => r := Loaded(s);
      }
  }

  function Prepend(p: string, t: Option<string>): Option<string> {
    match t case None => None case Some(x) => Some(p + x)
  }

  lemma PrependNothing(t: Option<string>)
    ensures Prepend("", t) == t
  {
    if t.Some? {
      assert "" + t.value == t.value;
    }
  }

  lemma AppendNothing(p: string)
    ensures Prepend(p, Some("")) == Some(p)
  {
    assert p + "" == p;
  }

  lemma PrependStep(p: string, q: string, t: Option<string>)
    ensures Prepend(p, Prepend(q, t)) == Prepend(p + q, t)
  {
    if t.Some? {
      assert p + (q + t.value) == (p + q) + t.value;
    }
  }

  // ----- what a store leaves behind

  predicate IsChunkBelow(n: EntryName, id: int, k: int) {
    n.Chunk? && n.id == id && 0 <= n.i < k
  }

  lemma {:induction false} WithChunksHas(e: Entries, id: int, c: seq<string>, k: nat)
    requires k <= |c|
    ensures forall n: EntryName :: n in WithChunks(e, id, c, k) <==> n in e || IsChunkBelow(n, id, k)
    ensures forall n :: n in WithChunks(e, id, c, k) ==>
      WithChunks(e, id, c, k)[n] == if IsChunkBelow(n, id, k) then c[n.i] else e[n]
  {
    if k != 0 {
      WithChunksHas(e, id, c, k - 1);
    }
  }

  lemma {:induction false} GatherSpells(e: Entries, id: int, c: seq<string>, i: nat)
    requires i <= |c|
    requires forall j :: i <= j < |c| ==> Chunk(id, j) in e && e[Chunk(id, j)] == c[j]
    ensures Gather(e, id, i, |c|) == Some(Join(c[i..]))
    decreases |c| - i
  {
    if i < |c| {
      GatherSpells(e, id, c, i + 1);
      assert c[i..][1..] == c[i + 1..];
    }
  }

  lemma {:induction false} GatherNeedsAll(e: Entries, id: int, i: int, n: int)
    requires Gather(e, id, i, n).Some?
    ensures forall j :: i <= j < n ==> Chunk(id, j) in e
    decreases n - i
  {
    if i < n {
      GatherNeedsAll(e, id, i + 1, n);
    }
  }

  /** The main entry announces these chunks, and they are there. */
  ghost predicate Announces(e: Entries, id: int, c: seq<string>) {
    && Account(id) in e && ChunkCount(e[Account(id)]).Some?
    && |c| == (if ChunkCount(e[Account(id)]).value < 0 then 0 else ChunkCount(e[Account(id)]).value)
    && forall j :: 0 <= j < |c| ==> Chunk(id, j) in e && e[Chunk(id, j)] == c[j]
  }

  /** Nothing is found if and only if there is no main entry; a secret is loaded if and
      only if the main entry is its encoding, or announces chunks that are all there and
      spell it; everything else is an error. */
  lemma LoadsExactlyWhen(e: Entries, id: int, s: Secret)
    ensures LoadFrom(e, id) == NotFound <==> Account(id) !in e
    ensures LoadFrom(e, id) == Loaded(s) <==>
            && Account(id) in e
            && (e[Account(id)] == Encode(s) || exists c :: Announces(e, id, c) && Join(c) == Encode(s))
  {
    DecodeOfEncode(s);
    SecretIsNoMarker(s);
    if Account(id) in e && ChunkCount(e[Account(id)]).Some? {
      var n := ChunkCount(e[Account(id)]).value;
      forall c | Announces(e, id, c) ensures Gather(e, id, 0, n) == Some(Join(c)) {
        if 0 <= n {
          GatherSpells(e, id, c, 0);
          assert c[0..] == c;
        }
      }
      if Gather(e, id, 0, n).Some? {
        GatherNeedsAll(e, id, 0, n);
        var c := seq(if n < 0 then 0 else n, j requires 0 <= j < n => e[Chunk(id, j)]);
        assert Announces(e, id, c);
      }
    }
  }

  lemma ChunkedLoads(after: Entries, id: int, s: Secret, c: seq<string>)
    requires c == Chunks(Encode(s)) && |c| <= MAX_INT
    requires Account(id) in after && after[Account(id)] == MarkerText(|c|)
    requires forall j :: 0 <= j < |c| ==> Chunk(id, j) in after && after[Chunk(id, j)] == c[j]
    ensures LoadFrom(after, id) == Loaded(s)
  {
    DecodeOfEncode(s);
    ChunksJoin(Encode(s));
    MarkerRead(|c|);
    GatherSpells(after, id, c, 0);
    assert c[0..] == c;
  }

  /** Once the main entry is written the new secret is what loads, whatever became
      of the stale chunks. */
  lemma WrittenLoads(before: Entries, after: Entries, id: int, s: Secret, to: int)
    requires |Encode(s)| <= MAX_INT
    requires Pruned(Written(before, id, Encode(s)), after, id, KeptChunks(Encode(s)), to)
    ensures LoadFrom(after, id) == Loaded(s)
  {
    var text := Encode(s);
    assert Account(id) in Written(before, id, text);
    if |text| <= MAX_ENTRY_SIZE {
      DecodeOfEncode(s);
      SecretIsNoMarker(s);
    } else {
      var c := Chunks(text);
      WithChunksHas(before, id, c, |c|);
      forall j | 0 <= j < |c| ensures Chunk(id, j) in after && after[Chunk(id, j)] == c[j] {
        assert Chunk(id, j) in Written(before, id, text);
      }
      ChunkCountFits(text);
      ChunkedLoads(after, id, s, c);
    }
  }

  lemma ChunkCountFits(text: string)
    requires MAX_ENTRY_SIZE < |text| <= MAX_INT
    ensures |Chunks(text)| <= MAX_INT
  {
    ChunksJoin(text);
  }

  /** A successful Store is read back by Load, in every keyring state. */
  method StoreThenLoad(kr: Keyring, id: int, s: Secret) returns (ok: bool, r: LoadResult)
    requires |Encode(s)| <= MAX_INT
    modifies kr
    ensures ok ==> LoadFrom(kr.entries, id) == Loaded(s) && (r == Loaded(s) || r == Broken)
    ensures old(kr.faults) == [] ==> ok && r == Loaded(s)
  {
    ghost var before := kr.entries;
    ok := Store(kr, id, s);
    if ok {
      WrittenLoads(before, kr.entries, id, s, ExistingChunkCount(before, id));
    }
    r := Load(kr, id);
  }

  /** No store, finished or stopped, touches another account's entries, an address
      book's, a proxy password, the VirusTotal key or a PGP passphrase; and every
      entry it wrote fits the size cap. */
  lemma StoreStaysHome(before: Entries, after: Entries, id: int, s: Secret, n: EntryName)
    requires |Encode(s)| <= MAX_INT
    requires StoppedStore(before, after, id, Encode(s))
    ensures !((n.Account? || n.Chunk?) && n.id == id) ==>
      (n in after <==> n in before) && (n in after ==> after[n] == before[n])
    ensures n in after ==> (n in before && after[n] == before[n]) || |after[n]| <= MAX_ENTRY_SIZE
  {
    var text := Encode(s);
    var c := Chunks(text);
    ChunksJoin(text);
    MarkerRead(if |c| <= MAX_INT then |c| else 0);
    forall k: nat | k <= |c| {
      WithChunksHas(before, id, c, k);
    }
  }

  /** Which chunk entries a store with no failures leaves: the new ones, and those
      already beyond both the old count and the new. So a keyring without such
      leftovers is left with exactly the chunks of the new secret. */
  lemma StaleChunks(before: Entries, after: Entries, id: int, s: Secret, i: int)
    requires |Encode(s)| <= MAX_INT
    requires Pruned(Written(before, id, Encode(s)), after, id, KeptChunks(Encode(s)), ExistingChunkCount(before, id))
    requires forall j :: KeptChunks(Encode(s)) <= j < ExistingChunkCount(before, id) ==> Chunk(id, j) !in after
    ensures Chunk(id, i) in after <==>
      || 0 <= i < KeptChunks(Encode(s))
      || (Chunk(id, i) in before && !(0 <= i < ExistingChunkCount(before, id)))
  {
    var c := Chunks(Encode(s));
    WithChunksHas(before, id, c, |c|);
  }

  // ----- crash safety

  /** Stopped before the main entry is written, a store has changed nothing a load
      reads, unless the old secret is read from chunks and the new one is too. */
  lemma StoppedEarlyKeepsOld(before: Entries, after: Entries, id: int, s: Secret)
    requires StoppedEarly(before, after, id, Encode(s))
    requires |Encode(s)| <= MAX_ENTRY_SIZE || Account(id) !in before || ChunkCount(before[Account(id)]) == None
    ensures LoadFrom(after, id) == LoadFrom(before, id)
  {
    var c := Chunks(Encode(s));
    if MAX_ENTRY_SIZE < |Encode(s)| {
      var k :| 0 <= k <= |c| && after == WithChunks(before, id, c, k);
      WithChunksHas(before, id, c, k);
    }
  }

  /** A store stopped at any keyring call leaves the complete old secret or the
      complete new one, when the old was unchunked or absent or the new fits one
      entry. */
  lemma StoppedStoreIsAtomic(before: Entries, after: Entries, id: int, s: Secret)
    requires |Encode(s)| <= MAX_INT
    requires StoppedStore(before, after, id, Encode(s))
    requires |Encode(s)| <= MAX_ENTRY_SIZE || Account(id) !in before || ChunkCount(before[Account(id)]) == None
    ensures LoadFrom(after, id) == LoadFrom(before, id) || LoadFrom(after, id) == Loaded(s)
  {
    if StoppedEarly(before, after, id, Encode(s)) {
      StoppedEarlyKeepsOld(before, after, id, s);
    } else {
      WrittenLoads(before, after, id, s, ExistingChunkCount(before, id));
    }
  }

  // ----- chunked over chunked: exactly when a store is atomic

  /** The account holds `s`, spread over the chunks `c`. */
  ghost predicate HeldInChunks(e: Entries, id: int, s: Secret, c: seq<string>) {
    && MAX_ENTRY_SIZE < |Encode(s)| <= MAX_INT
    && c == Chunks(Encode(s))
    && Account(id) in e && e[Account(id)] == MarkerText(|c|)
    && forall j :: 0 <= j < |c| ==> Chunk(id, j) in e && e[Chunk(id, j)] == c[j]
  }

  /** The lists agree wherever both have a chunk. */
  predicate Agree(old_: seq<string>, new_: seq<string>) {
    forall i :: 0 <= i < |old_| && i < |new_| ==> old_[i] == new_[i]
  }

  predicate AgreeBut(old_: seq<string>, new_: seq<string>, j: int) {
    |old_| == |new_| && forall i :: 0 <= i < |old_| && i != j ==> old_[i] == new_[i]
  }

  /** What a caller can check beforehand: writing the new chunks in place over the
      old ones changes nothing the old marker covers, or everything in one step. */
  ghost predicate OverwritesAtomically(old_: seq<string>, new_: seq<string>) {
    Agree(old_, new_) || exists j :: 0 <= j < |new_| && AgreeBut(old_, new_, j)
  }

  /** What the old marker reads with the first k new chunks in place. */
  function Torn(old_: seq<string>, new_: seq<string>, k: nat): (c: seq<string>)
    requires k <= |new_|
    ensures |c| == |old_|
  {
    if |old_| <= k then new_[..|old_|] else new_[..k] + old_[k..]
  }

  lemma TornLoads(before: Entries, id: int, s0: Secret, c0: seq<string>, c: seq<string>, k: nat)
    requires HeldInChunks(before, id, s0, c0) && k <= |c|
    ensures LoadFrom(WithChunks(before, id, c, k), id) ==
            match Decode(Join(Torn(c0, c, k))) case None => Broken case Some(x) => Loaded(x)
  {
    var after := WithChunks(before, id, c, k);
    WithChunksHas(before, id, c, k);
    ChunkCountFits(Encode(s0));
    MarkerRead(|c0|);
    var mixed := Torn(c0, c, k);
    assert Account(id) in after && after[Account(id)] == MarkerText(|c0|);
    forall j | 0 <= j < |mixed| ensures Chunk(id, j) in after && after[Chunk(id, j)] == mixed[j] {
      assert Chunk(id, j) in before;
    }
    GatherSpells(after, id, mixed, 0);
    assert mixed[0..] == mixed;
  }

  lemma JoinStep(p: string, rest: seq<string>)
    ensures Join([p] + rest) == p + Join(rest)
  {
    assert ([p] + rest)[1..] == rest;
  }

  lemma {:induction false} JoinConcat(a: seq<string>, b: seq<string>)
    ensures Join(a + b) == Join(a) + Join(b)
  {
    if a == [] {
      assert a + b == b;
      assert Join(a) + Join(b) == Join(b);
    } else {
      var rest := a[1..];
      JoinConcat(rest, b);
      assert a + b == [a[0]] + (rest + b);
      JoinStep(a[0], rest + b);
      Bytes.Assoc(a[0], Join(rest), Join(b));
    }
  }

  /** The tail of a chunk list is the chunk list of the text it spells. */
  lemma {:induction false} ChunksTail(text: string, i: nat)
    requires text != "" && i < |Chunks(text)|
    ensures Join(Chunks(text)[i..]) != ""
    ensures Chunks(text)[i..] == Chunks(Join(Chunks(text)[i..]))
  {
    var c := Chunks(text);
    if i == 0 {
      assert c[0..] == c;
      ChunksJoin(text);
    } else {
      var rest := text[MAX_ENTRY_SIZE..];
      assert c[i..] == Chunks(rest)[i - 1..];
      ChunksTail(rest, i - 1);
    }
  }

  lemma TailsSpellTheSame(a: string, b: string, i: nat)
    requires a != "" && b != "" && i <= |Chunks(a)| && i <= |Chunks(b)|
    requires Join(Chunks(a)[i..]) == Join(Chunks(b)[i..])
    ensures Chunks(a)[i..] == Chunks(b)[i..]
  {
    if i < |Chunks(a)| {
      ChunksTail(a, i);
    }
    if i < |Chunks(b)| {
      ChunksTail(b, i);
    }
  }

  lemma MiddleCancels(p: string, a: string, b: string, q: string)
    requires p + (a + q) == p + (b + q)
    ensures a == b
  {
    SuffixCancels(p, a + q, b + q);
    assert |a| == |b|;
    assert a == (a + q)[..|a|] && b == (b + q)[..|a|];
  }

  lemma TornApart(c0: seq<string>, c: seq<string>, j: nat)
    requires j < |c0| && j < |c|
    requires forall i :: 0 <= i < j ==> c0[i] == c[i]
    ensures Torn(c0, c, j + 1) == c[..j] + ([c[j]] + c0[j + 1..])
    ensures c0 == c[..j] + ([c0[j]] + c0[j + 1..])
    ensures c == c[..j] + ([c[j]] + c[j + 1..])
  {
    Apart(c0, j);
    Apart(c, j);
    assert c0[..j] == c[..j];
    assert c[..j + 1] == c[..j] + [c[j]];
    assert (c[..j] + [c[j]]) + c0[j + 1..] == c[..j] + ([c[j]] + c0[j + 1..]);
  }

  lemma Apart(c: seq<string>, j: nat)
    requires j < |c|
    ensures c == c[..j] + ([c[j]] + c[j + 1..])
  {
  }

  lemma TornSpells(c0: seq<string>, c: seq<string>, j: nat)
    requires j < |c0| && j < |c|
    requires forall i :: 0 <= i < j ==> c0[i] == c[i]
    ensures Join(Torn(c0, c, j + 1)) == Join(c[..j]) + (c[j] + Join(c0[j + 1..]))
    ensures Join(c0) == Join(c[..j]) + (c0[j] + Join(c0[j + 1..]))
    ensures Join(c) == Join(c[..j]) + (c[j] + Join(c[j + 1..]))
  {
    var head, tail0, tail := c[..j], c0[j + 1..], c[j + 1..];
    TornApart(c0, c, j);
    Spelled(head, c[j], tail0);
    Spelled(head, c0[j], tail0);
    Spelled(head, c[j], tail);
  }

  /** With the first chunk that differs in place, what is read is not the old text;
      and it is the new one only if no other chunk differs. */
  lemma TornTextIsNeither(t0: string, t: string, j: nat)
    requires t0 != "" && t != ""
    requires j < |Chunks(t0)| && j < |Chunks(t)| && Chunks(t0)[j] != Chunks(t)[j]
    requires forall i :: 0 <= i < j ==> Chunks(t0)[i] == Chunks(t)[i]
    ensures Join(Torn(Chunks(t0), Chunks(t), j + 1)) != t0
    ensures Join(Torn(Chunks(t0), Chunks(t), j + 1)) == t ==> AgreeBut(Chunks(t0), Chunks(t), j)
  {
    var c0, c := Chunks(t0), Chunks(t);
    TornSpells(c0, c, j);
    ChunksJoin(t0);
    ChunksJoin(t);
    var text := Join(Torn(c0, c, j + 1));
    if text == t0 {
      MiddleCancels(Join(c[..j]), c[j], c0[j], Join(c0[j + 1..]));
    }
    if text == t {
      TornIntoNew(t0, t, j);
    }
  }

  lemma TornIntoNew(t0: string, t: string, j: nat)
    requires t0 != "" && t != ""
    requires j < |Chunks(t0)| && j < |Chunks(t)|
    requires forall i :: 0 <= i < j ==> Chunks(t0)[i] == Chunks(t)[i]
    requires Join(Chunks(t)[..j]) + (Chunks(t)[j] + Join(Chunks(t0)[j + 1..])) ==
      Join(Chunks(t)[..j]) + (Chunks(t)[j] + Join(Chunks(t)[j + 1..]))
    ensures AgreeBut(Chunks(t0), Chunks(t), j)
  {
    var c0, c := Chunks(t0), Chunks(t);
    SuffixCancels(Join(c[..j]), c[j] + Join(c0[j + 1..]), c[j] + Join(c[j + 1..]));
    SuffixCancels(c[j], Join(c0[j + 1..]), Join(c[j + 1..]));
    TailsSpellTheSame(t0, t, j + 1);
    TailsAgree(c0, c, j);
  }

  lemma Spelled(head: seq<string>, p: string, tail: seq<string>)
    ensures Join(head + ([p] + tail)) == Join(head) + (p + Join(tail))
  {
    JoinConcat(head, [p] + tail);
    assert ([p] + tail)[1..] == tail;
  }

  lemma TailsAgree(c0: seq<string>, c: seq<string>, j: nat)
    requires j < |c0| && j < |c| && c0[j + 1..] == c[j + 1..]
    requires forall i :: 0 <= i < j ==> c0[i] == c[i]
    ensures AgreeBut(c0, c, j)
  {
    assert |c0[j + 1..]| == |c[j + 1..]|;
    forall i | j < i < |c0| ensures c0[i] == c[i] {
      assert c0[j + 1..][i - j - 1] == c[j + 1..][i - j - 1];
    }
  }

  lemma FirstDisagreement(c0: seq<string>, c: seq<string>, upto: nat) returns (j: nat)
    requires upto <= |c0| && upto <= |c| && exists i :: 0 <= i < upto && c0[i] != c[i]
    ensures j < upto && c0[j] != c[j] && forall i :: 0 <= i < j ==> c0[i] == c[i]
  {
    j := 0;
    while c0[j] == c[j]
      invariant j < upto
      invariant forall i :: 0 <= i < j ==> c0[i] == c[i]
      decreases upto - j
    {
      j := j + 1;
    }
  }

  lemma TornNowhere(c0: seq<string>, c: seq<string>, k: nat)
    requires k <= |c| && OverwritesAtomically(c0, c)
    ensures Torn(c0, c, k) == c0 || Torn(c0, c, k) == c
  {
    if Agree(c0, c) {
      assert Torn(c0, c, k) == c0;
    } else {
      var j :| 0 <= j < |c| && AgreeBut(c0, c, j);
      assert Torn(c0, c, k) == if k <= j then c0 else c;
    }
  }

  lemma AtomicWhileEarly(before: Entries, id: int, s0: Secret, s: Secret, k: nat)
    requires HeldInChunks(before, id, s0, Chunks(Encode(s0)))
    requires k <= |Chunks(Encode(s))| && OverwritesAtomically(Chunks(Encode(s0)), Chunks(Encode(s)))
    ensures LoadFrom(WithChunks(before, id, Chunks(Encode(s)), k), id) in {Loaded(s0), Loaded(s)}
  {
    var c0, c := Chunks(Encode(s0)), Chunks(Encode(s));
    TornLoads(before, id, s0, c0, c, k);
    TornNowhere(c0, c, k);
    ChunksJoin(Encode(s0));
    ChunksJoin(Encode(s));
    DecodeOfEncode(s0);
    DecodeOfEncode(s);
  }

  lemma AtomicallyOverwritten(before: Entries, after: Entries, id: int, s0: Secret, s: Secret)
    requires HeldInChunks(before, id, s0, Chunks(Encode(s0)))
    requires MAX_ENTRY_SIZE < |Encode(s)| <= MAX_INT
    requires OverwritesAtomically(Chunks(Encode(s0)), Chunks(Encode(s)))
    requires StoppedStore(before, after, id, Encode(s))
    ensures LoadFrom(after, id) in {Loaded(s0), Loaded(s)}
  {
    if StoppedEarly(before, after, id, Encode(s)) {
      var k :| 0 <= k <= |Chunks(Encode(s))| && after == WithChunks(before, id, Chunks(Encode(s)), k);
      AtomicWhileEarly(before, id, s0, s, k);
    } else {
      WrittenLoads(before, after, id, s, ExistingChunkCount(before, id));
    }
  }

  /** With the first chunk that differs in place, the entries load as neither. */
  lemma TornStop(before: Entries, id: int, s0: Secret, s: Secret, j: nat)
    requires HeldInChunks(before, id, s0, Chunks(Encode(s0)))
    requires j < |Chunks(Encode(s0))| && j < |Chunks(Encode(s))| && Chunks(Encode(s0))[j] != Chunks(Encode(s))[j]
    requires forall i :: 0 <= i < j ==> Chunks(Encode(s0))[i] == Chunks(Encode(s))[i]
    requires !AgreeBut(Chunks(Encode(s0)), Chunks(Encode(s)), j)
    ensures LoadFrom(WithChunks(before, id, Chunks(Encode(s)), j + 1), id) !in {Loaded(s0), Loaded(s)}
  {
    TornLoads(before, id, s0, Chunks(Encode(s0)), Chunks(Encode(s)), j + 1);
    TornTextIsNeither(Encode(s0), Encode(s), j);
    var text := Join(Torn(Chunks(Encode(s0)), Chunks(Encode(s)), j + 1));
    match Decode(text) {
      case None =>
      case Some(x) => DecodedMeansEncoded(text, x);
    }
  }

  /** Otherwise there is a stop that leaves neither secret. */
  lemma TornOtherwise(before: Entries, id: int, s0: Secret, s: Secret) returns (after: Entries)
    requires HeldInChunks(before, id, s0, Chunks(Encode(s0)))
    requires MAX_ENTRY_SIZE < |Encode(s)| <= MAX_INT
    requires !OverwritesAtomically(Chunks(Encode(s0)), Chunks(Encode(s)))
    ensures StoppedStore(before, after, id, Encode(s))
    ensures LoadFrom(after, id) !in {Loaded(s0), Loaded(s)}
  {
    var c0, c := Chunks(Encode(s0)), Chunks(Encode(s));
    var j := FirstDisagreement(c0, c, if |c0| < |c| then |c0| else |c|);
    after := WithChunks(before, id, c, j + 1);
    TornStop(before, id, s0, s, j);
    assert StoppedEarly(before, after, id, Encode(s));
  }

  /** A chunked secret stored over a chunked one is atomic if and only if the two
      chunk lists agree wherever both have a chunk, or differ in a single one. */
  lemma AtomicExactlyWhen(before: Entries, id: int, s0: Secret, s: Secret)
    requires HeldInChunks(before, id, s0, Chunks(Encode(s0)))
    requires MAX_ENTRY_SIZE < |Encode(s)| <= MAX_INT
    ensures (forall after :: StoppedStore(before, after, id, Encode(s)) ==> LoadFrom(after, id) in {Loaded(s0), Loaded(s)})
       <==> OverwritesAtomically(Chunks(Encode(s0)), Chunks(Encode(s)))
  {
    if OverwritesAtomically(Chunks(Encode(s0)), Chunks(Encode(s))) {
      forall after | StoppedStore(before, after, id, Encode(s))
        ensures LoadFrom(after, id) in {Loaded(s0), Loaded(s)}
      {
        AtomicallyOverwritten(before, after, id, s0, s);
      }
    } else {
      var after := TornOtherwise(before, id, s0, s);
    }
  }

  // ----- at one input

  function Repeat(c: char, n: nat): string {
    seq(n, i => c)
  }

  lemma WrittenIsHeld(e: Entries, id: int, s: Secret)
    requires MAX_ENTRY_SIZE < |Encode(s)| <= MAX_INT
    ensures HeldInChunks(Written(e, id, Encode(s)), id, s, Chunks(Encode(s)))
  {
    WithChunksHas(e, id, Chunks(Encode(s)), |Chunks(Encode(s))|);
  }

  /** 2500 letters stored over 2500 others: stopped with the first new chunk in place,
      the store leaves neither. */
  lemma TornLetters(id: int) returns (after: Entries)
    ensures StoppedStore(Written(map[], id, Encode(Secret(Repeat('a', 2500)))), after, id, Encode(Secret(Repeat('b', 2500))))
    ensures LoadFrom(after, id) !in {Loaded(Secret(Repeat('a', 2500))), Loaded(Secret(Repeat('b', 2500)))}
  {
    var s0, s := Secret(Repeat('a', 2500)), Secret(Repeat('b', 2500));
    WrittenIsHeld(map[], id, s0);
    TwoChunksDiffer(Encode(s0), Encode(s));
    after := TornOtherwise(Written(map[], id, Encode(s0)), id, s0, s);
  }

  lemma TwoChunksDiffer(t0: string, t: string)
    requires 2001 < |t0| && 2001 < |t| && t0[1] != t[1] && t0[2000] != t[2000]
    ensures !OverwritesAtomically(Chunks(t0), Chunks(t))
  {
    var c0, c := Chunks(t0), Chunks(t);
    assert c0[0] == t0[..2000] && c[0] == t[..2000];
    assert c0[0][1] != c[0][1];
    FirstOfRest(t0[2000..]);
    FirstOfRest(t[2000..]);
    assert c0[1] == Chunks(t0[2000..])[0] && c[1] == Chunks(t[2000..])[0];
    assert c0[1][0] != c[1][0];
  }

  lemma FirstOfRest(text: string)
    requires text != ""
    ensures Chunks(text)[0] != "" && Chunks(text)[0][0] == text[0]
  {
  }

  // ----- deleting

  /** The entries without the account's secret. */
  function Cleared(e: Entries, id: int): Entries {
    var n := ExistingChunkCount(e, id);
    map x | x in e && x != Account(id) && !IsChunkBelow(x, id, n) :: e[x]
  }

  /** The call that deletes the main entry. */
  function LastCall(e: Entries, id: int, faults: seq<bool>): nat {
    var n := CountRead(e, id, faults);
    if 0 < n then 1 + n else 1
  }

  /** What a deletion leaves, told by which of its calls are refused: the count read
      is the first, the chunks follow, the main entry is last. */
  function Deleted(e: Entries, id: int, faults: seq<bool>): Entries {
    var rest := RangeDropped(e, id, 0, CountRead(e, id, faults), After(faults, 1));
    if FaultAt(faults, LastCall(e, id, faults)) then rest else rest - {Account(id)}
  }

  /** Delete. It succeeds exactly when the main entry could be deleted; with no
      refused call the marker's chunks have gone too. */
  method DeleteSecret(kr: Keyring, id: int) returns (ok: bool)
    modifies kr
    ensures ok <==> !FaultAt(old(kr.faults), LastCall(old(kr.entries), id, old(kr.faults)))
    ensures kr.entries == Deleted(old(kr.entries), id, old(kr.faults))
    ensures kr.faults == After(old(kr.faults), LastCall(old(kr.entries), id, old(kr.faults)) + 1)
    ensures old(kr.faults) == [] ==> ok && kr.faults == [] && kr.entries == Cleared(old(kr.entries), id)
  {
    ghost var before := kr.entries;
    var n := ReadChunkCount(kr, id);
    DeleteChunkRange(kr, id, 0, n);
    var r := kr.Delete(Account(id));
    ok := r != Refused;
    if old(kr.faults) == [] {
      assert kr.entries == Cleared(before, id);
    }
  }

  /** A successful deletion leaves no chunk of the account if and only if the count
      read was not refused, every chunk there was lay below the marker's count, and
      none of their deletions was refused. */
  lemma NoChunkLeftExactlyWhen(e: Entries, id: int, faults: seq<bool>)
    ensures (forall i :: Chunk(id, i) !in Deleted(e, id, faults)) <==>
            forall i :: Chunk(id, i) in e ==> !FaultAt(faults, 0) && 0 <= i < ExistingChunkCount(e, id) && !FaultAt(faults, 1 + i)
  {
    forall i ensures Chunk(id, i) in Deleted(e, id, faults) <==>
        Chunk(id, i) in e && !(!FaultAt(faults, 0) && 0 <= i < ExistingChunkCount(e, id) && !FaultAt(faults, 1 + i))
    {
      assert 0 <= i ==> (FaultAt(After(faults, 1), i) <==> FaultAt(faults, 1 + i));
    }
  }

  /** What a deletion that was refused something leaves is a pruned keyring, without
      the main entry if it succeeded. */
  lemma DeletedIsPruned(e: Entries, id: int, faults: seq<bool>)
    ensures exists mid :: Pruned(e, mid, id, 0, ExistingChunkCount(e, id))
              && Deleted(e, id, faults) == if FaultAt(faults, LastCall(e, id, faults)) then mid else mid - {Account(id)}
  {
    var mid := RangeDropped(e, id, 0, CountRead(e, id, faults), After(faults, 1));
    assert Pruned(e, mid, id, 0, ExistingChunkCount(e, id));
  }

  /** The main entry goes last, so a deletion that failed is finished by deleting
      again, as if it had never been cut short; the account then has no secret. */
  lemma DeletingAgainFinishes(before: Entries, id: int, faults: seq<bool>)
    requires FaultAt(faults, LastCall(before, id, faults))
    ensures Cleared(Deleted(before, id, faults), id) == Cleared(before, id)
    ensures LoadFrom(Cleared(before, id), id) == NotFound
    ensures forall n ::
      n in before && !((n.Account? || n.Chunk?) && n.id == id) ==> n in Cleared(before, id) && Cleared(before, id)[n] == before[n]
  {
    var mid := Deleted(before, id, faults);
    assert Account(id) in before <==> Account(id) in mid;
    assert forall n :: n in mid ==> mid[n] == before[n];
  }

  /** One that succeeded is not: with the main entry gone nothing says any more that
      there are chunks, and no deletion removes those left. */
  lemma OrphansStay(e: Entries, id: int, faults: seq<bool>)
    requires Account(id) !in e
    ensures Deleted(e, id, faults) == e
  {
  }

  /** A deletion whose count read is refused succeeds and leaves every chunk of the
      secret, and a second one with a sound keyring changes nothing. */
  method ChunksLeftForGood(kr: Keyring, id: int, ghost s: Secret) returns (first: bool, second: bool)
    requires HeldInChunks(kr.entries, id, s, Chunks(Encode(s))) && kr.faults == [true]
    modifies kr
    ensures first && second && LoadFrom(kr.entries, id) == NotFound
    ensures kr.entries == old(kr.entries) - {Account(id)}
  {
    ghost var before := kr.entries;
    first := DeleteSecret(kr, id);
    assert kr.entries == before - {Account(id)};
    OrphansStay(kr.entries, id, []);
    second := DeleteSecret(kr, id);
  }
}
