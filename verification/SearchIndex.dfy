/** The search index and the watermark that says how far it reaches
    (internal/desktop/bind_search.go). */
module SearchIndex {
  import opened Options

  const BATCH_SIZE := 500

  /** What else happens to the cached mail. Ids only go up and are never reused. */
  datatype Act = Insert(text: string) | Delete(id: int) | Repair(id: int, text: string)

  /** Before each listing and before each commit to the index others act on the mail.
      Each store, settings and index call may fail. */
  class Search {
    var messages: map<int, string>
    var nextId: int
    var index: map<int, string>
    var stored: int
    var others: seq<seq<Act>>
    var faults: seq<bool>
    /** Messages repaired since they were last indexed. */
    ghost var stale: set<int>

    constructor (others: seq<seq<Act>>, faults: seq<bool>)
      ensures Inv() && messages == map[] && nextId == 1
      ensures this.others == others && this.faults == faults
    {
      messages, nextId, index, stored, stale := map[], 1, map[], 0, {};
      this.others, this.faults := others, faults;
    }

    ghost predicate Sane()
      reads this
    {
      0 <= stored < nextId && forall id :: id in messages ==> 0 < id < nextId
    }

    /** Each live message up to `mark` has a document, and the right one unless it was
        repaired since. */
    ghost predicate Covered(mark: int)
      reads this
    {
      forall id :: id in messages && id <= mark ==> id in index && (id !in stale ==> index[id] == messages[id])
    }

    ghost predicate Inv()
      reads this
    {
      Sane() && Covered(stored)
    }

    method Works() returns (ok: bool)
      modifies this`faults
      ensures old(faults) == [] ==> faults == [] && ok
    {
      ok := true;
      if faults != [] {
        ok, faults := !faults[0], faults[1..];
      }
    }

    /** One of the others' acts. What is covered stays covered. */
    method Happen(act: Act)
      requires Sane()
      modifies this`messages, this`nextId, this`stale
      ensures Sane() && old(nextId) <= nextId
      ensures forall m :: m < old(nextId) && old(Covered(m)) ==> Covered(m)
      ensures forall id ::
        id in messages && id < old(nextId) ==> id in old(messages) && (id !in stale ==> messages[id] == old(messages)[id])
      ensures forall id :: id in old(stale) && id < old(nextId) ==> id in stale
      ensures act.Insert? ==> nextId == old(nextId) + 1 && messages == old(messages)[old(nextId) := act.text]
      ensures act.Delete? ==> nextId == old(nextId) && messages == old(messages) - {act.id}
      ensures act.Repair? ==> nextId == old(nextId)
      ensures act.Repair? ==>
        messages == if act.id in old(messages) then old(messages)[act.id := act.text] else old(messages)
    {
      match act
      case Insert(text) =>
        messages, nextId, stale := messages[nextId := text], nextId + 1, stale - {nextId};
      case Delete(id) =>
        messages := messages - {id};
      case Repair(id, text) =>
        if id in messages {
          messages, stale := messages[id := text], stale + {id};
        }
    }

    method Interfere()
      requires Sane()
      modifies this`messages, this`nextId, this`stale, this`others
      ensures Sane() && old(nextId) <= nextId
      ensures forall m :: m < old(nextId) && old(Covered(m)) ==> Covered(m)
      ensures nextId == old(nextId) ==> messages.Keys <= old(messages.Keys)
      ensures forall id ::
        id in messages && id < old(nextId) ==> id in old(messages) && (id !in stale ==> messages[id] == old(messages)[id])
      ensures forall id :: id in old(stale) && id < old(nextId) ==> id in stale
      ensures if old(others) == [] then messages == old(messages) && nextId == old(nextId) && others == [] else |others| < |old(others)|
    {
      var batch := [];
      if others != [] {
        batch, others := others[0], others[1..];
      }
      var k := 0;
      while k < |batch|
        invariant 0 <= k <= |batch| && Sane() && old(nextId) <= nextId
        invariant forall m :: m < old(nextId) && old(Covered(m)) ==> Covered(m)
        invariant nextId == old(nextId) ==> messages.Keys <= old(messages.Keys)
        invariant forall id ::
          id in messages && id < old(nextId) ==> id in old(messages) && (id !in stale ==> messages[id] == old(messages)[id])
        invariant forall id :: id in old(stale) && id < old(nextId) ==> id in stale
        invariant batch == [] ==> messages == old(messages) && nextId == old(nextId)
        invariant others == if old(others) == [] then [] else old(others)[1..]
      {
        Happen(batch[k]);
        k := k + 1;
      }
    }

    /** ListMessagesForIndex: the lowest ids above `after`, at most `limit` of them. */
    method ListAbove(after: int, limit: nat) returns (r: Option<seq<int>>)
      requires Sane() && 0 <= after && 0 < limit
      modifies this`messages, this`nextId, this`stale, this`others, this`faults
      ensures Sane() && old(nextId) <= nextId
      ensures forall m :: m < old(nextId) && old(Covered(m)) ==> Covered(m)
      ensures nextId == old(nextId) ==> messages.Keys <= old(messages.Keys)
      ensures |others| < |old(others)| ||
        (old(others) == [] && nextId == old(nextId) && messages == old(messages) && others == [])
      ensures r.Some? ==> IsBatch(messages, after, limit, r.value)
      ensures old(faults) == [] ==> faults == [] && r.Some?
    {
      Interfere();
      var ok := Works();
      if !ok {
        return None;
      }
      var ids, id := [], after + 1;
      while id < nextId && |ids| < limit
        invariant after < id
        invariant |ids| <= limit && Ascending(ids)
        invariant forall k :: 0 <= k < |ids| ==> after < ids[k] < id && ids[k] in messages
        invariant forall i :: i in messages && after < i < id ==> i in ids
        invariant ids != [] && |ids| == limit ==> id == ids[|ids| - 1] + 1
      {
        if id in messages {
          ids := ids + [id];
        }
        id := id + 1;
      }
      r := Some(ids);
    }

    /** One commit of documents, as they were read just before. */
    method IndexBatch(docs: map<int, string>) returns (ok: bool)
      requires Sane()
      requires forall id :: id in docs ==> id in messages && docs[id] == messages[id]
      modifies this`messages, this`nextId, this`stale, this`others, this`faults, this`index
      ensures Sane() && old(nextId) <= nextId
      ensures forall m :: m < old(nextId) && old(Covered(m)) ==> Covered(m)
      ensures nextId == old(nextId) ==> messages.Keys <= old(messages.Keys)
      ensures |others| < |old(others)| ||
        (old(others) == [] && nextId == old(nextId) && messages == old(messages) && others == [])
      ensures forall id :: id in messages && id < old(nextId) ==> id in old(messages)
      ensures index == if ok then old(index) + docs else old(index)
      ensures ok ==> forall id :: id in docs && id in messages && id !in stale ==> index[id] == messages[id]
      ensures ok && old(others) == [] ==> forall id :: id in docs ==> id !in stale
      ensures old(faults) == [] ==> faults == [] && ok
    {
      Interfere();
      ok := Works();
      if ok {
        index := index + docs;
        stale := stale - (set id | id in docs && id in messages && docs[id] == messages[id]);
      }
    }
  }

  ghost predicate Ascending(ids: seq<int>) {
    forall j, k :: 0 <= j < k < |ids| ==> ids[j] < ids[k]
  }

  /** Ascending live ids above `after`, with none left out below the last, and none at
      all if there was room for more. */
  ghost predicate IsBatch(messages: map<int, string>, after: int, limit: nat, ids: seq<int>) {
    && |ids| <= limit && Ascending(ids)
    && (forall k :: 0 <= k < |ids| ==> after < ids[k] && ids[k] in messages)
    && (forall i :: i in messages && after < i ==> i in ids || (|ids| == limit && ids != [] && ids[|ids| - 1] < i))
  }

  method Documents(messages: map<int, string>, ids: seq<int>) returns (docs: map<int, string>, highest: int)
    requires forall k :: 0 <= k < |ids| ==> ids[k] in messages
    requires ids != [] && Ascending(ids)
    ensures forall id :: id in docs <==> id in ids
    ensures forall id :: id in docs ==> id in messages && docs[id] == messages[id]
    ensures highest == ids[|ids| - 1]
  {
    docs, highest := map[], ids[0];
    var k := 0;
    while k < |ids|
      invariant 0 <= k <= |ids|
      invariant forall id :: id in docs <==> id in ids[..k]
      invariant forall id :: id in docs ==> id in messages && docs[id] == messages[id]
      invariant k > 0 ==> highest == ids[k - 1]
      invariant k == 0 ==> highest == ids[0]
    {
      assert ids[..k + 1] == ids[..k] + [ids[k]];
      docs := docs[ids[k] := messages[ids[k]]];
      if ids[k] > highest {
        highest := ids[k];
      }
      k := k + 1;
    }
    assert ids[..k] == ids;
  }

  /** The messages with ids above `low` and up to `high`. */
  function Between(messages: map<int, string>, low: int, high: int): map<int, string> {
    map id | id in messages && low < id <= high :: messages[id]
  }

  ghost predicate Extended(before: map<int, string>, after: map<int, string>, messages: map<int, string>, low: int,
                           high: int) {
    after == before + Between(messages, low, high)
  }

  lemma BatchIsBetween(messages: map<int, string>, after: int, limit: nat, ids: seq<int>, docs: map<int, string>)
    requires IsBatch(messages, after, limit, ids) && ids != []
    requires forall id :: id in docs <==> id in ids
    requires forall id :: id in docs ==> id in messages && docs[id] == messages[id]
    ensures docs == Between(messages, after, ids[|ids| - 1])
  {
    var between := Between(messages, after, ids[|ids| - 1]);
    forall id ensures id in docs <==> id in between {
      if id in docs {
        var k :| 0 <= k < |ids| && ids[k] == id;
      }
    }
    assert docs.Keys == between.Keys;
  }

  /** One batch: what was covered up to the watermark is covered up to the highest id
      of the batch, and up to every id there was, if the batch was not full. */
  method IndexOne(s: Search, ids: seq<int>, watermark: int) returns (ok: bool, highest: int)
    requires s.Sane() && 0 <= s.stored <= watermark < s.nextId && s.Covered(watermark)
    requires ids != [] && IsBatch(s.messages, watermark, BATCH_SIZE, ids)
    modifies s
    ensures s.Sane() && s.stored == old(s.stored) && old(s.nextId) <= s.nextId
    ensures watermark < highest < old(s.nextId)
    ensures s.Covered(if ok then highest else watermark)
    ensures ok && |ids| < BATCH_SIZE ==>
      s.Covered(old(s.nextId) - 1) && forall id :: id in s.messages && id < old(s.nextId) ==> id <= highest
    ensures |s.others| < |old(s.others)| || (s.others == old(s.others) && s.nextId == old(s.nextId))
    ensures old(s.others) == [] ==> s.others == [] && s.messages == old(s.messages) && s.nextId == old(s.nextId)
    ensures old(s.others) == [] && ok ==> Extended(old(s.index), s.index, s.messages, watermark, highest)
    ensures !ok ==> s.index == old(s.index)
    ensures old(s.faults) == [] ==> s.faults == [] && ok
  {
    var docs;
    docs, highest := Documents(s.messages, ids);
    ghost var live := s.messages;
    BatchIsBetween(live, watermark, BATCH_SIZE, ids, docs);
    assert highest in ids && highest in live;
    ok := s.IndexBatch(docs);
    if ok {
      forall id | id in s.messages && watermark < id && (id <= highest || (|ids| < BATCH_SIZE && id < old(s.nextId)))
        ensures id in s.index && (id !in s.stale ==> s.index[id] == s.messages[id])
      {
        assert id in live;
        assert id in docs;
      }
      forall id | id in s.messages && id < old(s.nextId) && |ids| < BATCH_SIZE ensures id <= highest {
        assert id in live;
        assert watermark < id ==> id in ids;
      }
      assert s.Covered(watermark);
    }
  }

  lemma NoneAbove(before: map<int, string>, after: map<int, string>, messages: map<int, string>, low: int, high: int,
                  end: int)
    requires high <= end
    requires forall id :: id in messages ==> id <= high
    ensures Extended(before, after, messages, low, high) ==> Extended(before, after, messages, low, end)
  {
  }

  datatype Next = Failed | Finished | More

  /** One turn of the loop of indexNewMessages. */
  method NextBatch(s: Search, watermark: int) returns (next: Next, mark: int)
    requires s.Sane() && s.stored <= watermark < s.nextId && s.Covered(watermark)
    modifies s
    ensures s.Sane() && old(s.nextId) <= s.nextId
    ensures s.stored <= mark && watermark <= mark < s.nextId && s.Covered(mark)
    ensures next == More ==> watermark < mark
    ensures next == Finished ==> s.Covered(old(s.nextId) - 1)
    ensures |s.others| < |old(s.others)| || (s.others == old(s.others) && s.nextId == old(s.nextId))
    ensures old(s.faults) == [] ==>
      s.faults == [] && next != Failed && (old(s.stored) == watermark ==> s.stored == mark)
    ensures old(s.others) == [] ==> s.others == [] && s.messages == old(s.messages) && s.nextId == old(s.nextId)
    ensures old(s.others) == [] ==> Extended(old(s.index), s.index, s.messages, watermark, mark)
    ensures old(s.others) == [] && next == Finished ==> forall id :: id in s.messages ==> id <= mark
  {
    next, mark := Failed, watermark;
    var listed := s.ListAbove(watermark, BATCH_SIZE);
    if listed == None {
      return;
    }
    var ids := listed.value;
    if ids == [] {
      return Finished, watermark;
    }
    var ok, highest := IndexOne(s, ids, watermark);
    if !ok {
      return;
    }
    mark := highest;
    var kept := s.Works();
    if kept {
      s.stored := mark;
    }
    next := if |ids| < BATCH_SIZE then Finished else More;
  }

  /** indexNewMessages. Wherever it stops the invariant holds; when it reports success
      and nothing was inserted meanwhile, every live message has a document, and if
      nothing happened at all, just those above the watermark were written. Each full
      batch raises the watermark, so it ends. */
  method IndexNewMessages(s: Search) returns (ok: bool)
    requires s.Inv()
    modifies s
    ensures s.Inv() && old(s.nextId) <= s.nextId
    ensures ok ==> s.Covered(old(s.nextId) - 1)
    ensures ok && s.nextId == old(s.nextId) ==> forall id :: id in s.messages ==> id in s.index
    ensures old(s.faults) == [] ==> ok && s.faults == []
    ensures old(s.others) == [] ==> s.messages == old(s.messages) && s.nextId == old(s.nextId)
    ensures old(s.others) == [] && ok ==> Extended(old(s.index), s.index, s.messages, old(s.stored), s.nextId)
    ensures old(s.others) == [] && old(s.faults) == [] ==> forall id :: id in s.messages ==> id <= s.stored
  {
    var watermark, next := s.stored, More;
    while next == More
      invariant s.Sane() && s.stored <= watermark < s.nextId && s.Covered(watermark)
      invariant old(s.nextId) <= s.nextId && old(s.stored) <= watermark
      invariant next == Finished ==> s.Covered(old(s.nextId) - 1)
      invariant old(s.faults) == [] ==> s.faults == [] && s.stored == watermark && next != Failed
      invariant old(s.others) == [] ==> s.others == [] && s.messages == old(s.messages) && s.nextId == old(s.nextId)
      invariant old(s.others) == [] ==> Extended(old(s.index), s.index, s.messages, old(s.stored), watermark)
      invariant old(s.others) == [] && next == Finished ==> forall id :: id in s.messages ==> id <= watermark
      decreases |s.others|, s.nextId - watermark, next == More
    {
      ghost var index, before := s.index, watermark;
      next, watermark := NextBatch(s, watermark);
    }
    ok := next == Finished;
    if ok && old(s.others) == [] {
      NoneAbove(old(s.index), s.index, s.messages, old(s.stored), watermark, s.nextId);
    }
  }

  /** reindexMessages: the documents of repaired messages replaced. */
  method ReindexMessages(s: Search, ids: seq<int>) returns (ok: bool)
    requires s.Inv()
    modifies s
    ensures s.Inv() && old(s.nextId) <= s.nextId
    ensures old(s.faults) == [] ==> s.faults == [] && ok
    ensures old(s.faults) == [] && old(s.others) == [] ==>
      forall id :: id in ids && id in s.messages ==> id in s.index && id !in s.stale && s.index[id] == s.messages[id]
  {
    var docs: map<int, string>, k := map[], 0;
    while k < |ids|
      invariant 0 <= k <= |ids|
      invariant s.Inv() && s.nextId == old(s.nextId) && s.messages == old(s.messages) && s.others == old(s.others)
      invariant forall id :: id in docs ==> id in ids[..k] && id in s.messages && docs[id] == s.messages[id]
      invariant old(s.faults) == [] ==> s.faults == [] && forall id :: id in ids[..k] && id in s.messages ==> id in docs
    {
      assert ids[..k + 1] == ids[..k] + [ids[k]];
      var read := s.Works();
      if read && ids[k] in s.messages {
        docs := docs[ids[k] := s.messages[ids[k]]];
      }
      k := k + 1;
    }
    assert ids[..k] == ids;
    ghost var live := s.messages;
    ok := s.IndexBatch(docs);
    assert s.Covered(s.stored);
  }

  /** The first half of rebuildSearchIndex: the index is removed, opened again and the
      watermark rewound, each unless it fails. Only a failure to open is an error;
      yet unless nothing was removed, the invariant survives if and only if no live
      message lies at or below the watermark that is left. */
  method EmptyIndex(s: Search, removes: bool, opens: bool, rewinds: bool) returns (ok: bool)
    requires s.Inv()
    modifies s
    ensures ok == opens && s.messages == old(s.messages) && s.nextId == old(s.nextId) && s.others == old(s.others)
    ensures s.faults == old(s.faults)
    ensures s.stored == if opens && rewinds then 0 else old(s.stored)
    ensures s.index == if removes then map[] else old(s.index)
    ensures s.Inv() <==> !removes || forall id :: id in s.messages ==> s.stored < id
    ensures opens && rewinds ==> s.Inv()
  {
    if removes {
      s.index := map[];
    }
    ok := opens;
    if opens && rewinds {
      s.stored := 0;
    }
  }

  /** One indexed message, and a rebuild whose rewind fails: it goes on without an
      error, with that message below the watermark and out of the index. */
  method RewindFails() returns (s: Search, ok: bool)
    ensures ok && 1 in s.messages && 1 <= s.stored && 1 !in s.index && !s.Inv()
  {
    s := new Search([], []);
    s.Happen(Insert("a"));
    ok := IndexNewMessages(s);
    ok := EmptyIndex(s, true, true, false);
    assert 1 in s.messages && 1 <= s.stored;
  }

  ghost predicate OnlyLive(index: map<int, string>, messages: map<int, string>) {
    forall id :: id in index ==> id in messages
  }

  /** rebuildSearchIndex, with opening the index again and rewinding successful. Left
      alone it ends with exactly the documents of the live messages, over whatever a
      failed removal left; so only live messages have documents if and only if the
      removal succeeded or there were no others. */
  method Rebuild(s: Search, removes: bool) returns (ok: bool)
    requires s.Inv()
    modifies s
    ensures s.Inv() && old(s.nextId) <= s.nextId
    ensures ok && s.nextId == old(s.nextId) ==> forall id :: id in s.messages ==> id in s.index
    ensures old(s.others) == [] ==> s.messages == old(s.messages)
    ensures ok && old(s.others) == [] ==>
      && s.index == (if removes then map[] else old(s.index)) + s.messages
      && (OnlyLive(s.index, s.messages) <==> removes || OnlyLive(old(s.index), s.messages))
    ensures old(s.faults) == [] ==> ok && s.faults == []
  {
    var _ := EmptyIndex(s, removes, true, true);
    ghost var left := s.index;
    ok := IndexNewMessages(s);
  }

  datatype Step = Elsewhere(act: Act) | Pass | Reindex(ids: seq<int>) | DoRebuild(removes: bool)

  /** At every point between inserts, deletions and repairs, passes stopped anywhere,
      reindexing and rebuilds, each live message at or below the stored watermark has
      a document, and its own text unless it was repaired since. */
  method Run(s: Search, steps: seq<Step>)
    requires s.Inv()
    modifies s
    ensures s.Inv()
  {
    var k := 0;
    while k < |steps|
      invariant s.Inv()
    {
      match steps[k] {
        case Elsewhere(act) =>
          s.Happen(act);
        case Pass =>
          var _ := IndexNewMessages(s);
        case Reindex(ids) =>
          var _ := ReindexMessages(s, ids);
        case DoRebuild(removes) =>
          var _ := Rebuild(s, removes);
      }
      k := k + 1;
    }
  }
}
