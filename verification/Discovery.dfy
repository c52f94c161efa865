/** Merging discovery batches: duplicates found through three dictionaries, their source records copied over. */
module Discovery {
  import opened Basics

  /** The fields the merge reads; an empty string counts as absent. */
  datatype Candidate = Candidate(run: Id, provider: Id, entity: Option<Id>, name: Id, address: Option<Id>, url: Option<Id>)

  /** A source record; its own fresh id is left out, so saving a new record appends it. */
  datatype Source = Source(candidate: Id, payload: Id)

  datatype Key = ByEntity(provider: Id, entity: Id) | ByPlace(name: Id, address: Id) | ByUrl(url: Id)

  datatype MergeError = UnknownCandidate | AllProvidersUnavailable

  /** What identifies a candidate, in the order the keys are looked up. */
  function Keys(c: Candidate): seq<Key> {
    (if c.entity.Some? then [ByEntity(c.provider, c.entity.value)] else [])
    + (if c.address.Some? then [ByPlace(c.name, c.address.value)] else [])
    + (if c.url.Some? then [ByUrl(c.url.value)] else [])
  }

  predicate Holds(pool: map<Id, Candidate>, cid: Id, k: Key) {
    cid in pool && k in Keys(pool[cid])
  }

  // ---------------------------------------------------------------------------------------------
  // The merge by linear scan

  /** The first selected candidate that holds the key. */
  function Holder(pool: map<Id, Candidate>, selected: seq<Id>, k: Key): Option<Id> {
    if selected == [] then None
    else
      var n := |selected| - 1;
      if Holder(pool, selected[..n], k).Some? then Holder(pool, selected[..n], k)
      else if Holds(pool, selected[n], k) then Some(selected[n])
      else None
  }

  function FirstHeld(pool: map<Id, Candidate>, selected: seq<Id>, keys: seq<Key>): Option<Id> {
    if keys == [] then None
    else if Holder(pool, selected, keys[0]).Some? then Holder(pool, selected, keys[0])
    else FirstHeld(pool, selected, keys[1..])
  }

  /** The selected candidate this one duplicates. */
  function Duplicated(pool: map<Id, Candidate>, selected: seq<Id>, c: Candidate): Option<Id> {
    FirstHeld(pool, selected, Keys(c))
  }

  function SourcesOf(sources: seq<Source>, cid: Id): seq<Source> {
    if sources == [] then []
    else
      var n := |sources| - 1;
      SourcesOf(sources[..n], cid) + (if sources[n].candidate == cid then [sources[n]] else [])
  }

  function Retarget(copied: seq<Source>, cid: Id): seq<Source> {
    seq(|copied|, i requires 0 <= i < |copied| => copied[i].(candidate := cid))
  }

  datatype Progress = Progress(selected: seq<Id>, sources: seq<Source>)

  function Step(pool: map<Id, Candidate>, run: Id, p: Progress, cid: Id): Progress
    requires cid in pool
  {
    if pool[cid].run != run then p
    else
      match Duplicated(pool, p.selected, pool[cid])
      case Some(twin) => p.(sources := p.sources + Retarget(SourcesOf(p.sources, cid), twin))
      case None => p.(selected := p.selected + [cid])
  }

  predicate AllKnown(pool: map<Id, Candidate>, ids: seq<Id>) {
    forall i :: 0 <= i < |ids| ==> ids[i] in pool
  }

  function Merged(pool: map<Id, Candidate>, run: Id, sources: seq<Source>, ids: seq<Id>): Progress
    requires AllKnown(pool, ids)
  {
    if ids == [] then Progress([], sources)
    else Step(pool, run, Merged(pool, run, sources, ids[..|ids| - 1]), ids[|ids| - 1])
  }

  lemma MergedSnoc(pool: map<Id, Candidate>, run: Id, sources: seq<Source>, ids: seq<Id>, cid: Id)
    requires AllKnown(pool, ids) && cid in pool
    ensures AllKnown(pool, ids + [cid])
    ensures Merged(pool, run, sources, ids + [cid]) == Step(pool, run, Merged(pool, run, sources, ids), cid)
  {
    assert (ids + [cid])[..|ids|] == ids;
  }

  function Listed(batches: map<Id, seq<Id>>, refs: seq<Id>): seq<Id> {
    if refs == [] then []
    else Listed(batches, refs[..|refs| - 1]) + Get(batches, refs[|refs| - 1]).GetOr([])
  }

  /** The ids before the first one the repository does not know. */
  function KnownPrefix(pool: map<Id, Candidate>, ids: seq<Id>): (known: seq<Id>)
    ensures AllKnown(pool, known)
    ensures known <= ids && (known == ids || ids[|known|] !in pool)
  {
    if ids == [] || ids[0] !in pool then [] else [ids[0]] + KnownPrefix(pool, ids[1..])
  }

  lemma {:induction false} KnownPrefixIs(pool: map<Id, Candidate>, ids: seq<Id>, n: nat)
    requires n <= |ids| && AllKnown(pool, ids[..n]) && (n == |ids| || ids[n] !in pool)
    ensures KnownPrefix(pool, ids) == ids[..n]
  {
    var known := KnownPrefix(pool, ids);
    forall k | 0 <= k < n ensures ids[k] in pool {
      assert ids[k] == ids[..n][k];
    }
    forall k | 0 <= k < |known| ensures ids[k] in pool {
      assert ids[k] == known[k];
    }
  }

  lemma {:induction false} ListedPrefix(batches: map<Id, seq<Id>>, refs: seq<Id>, n: nat)
    requires n <= |refs|
    ensures Listed(batches, refs[..n]) <= Listed(batches, refs)
  {
    if n == |refs| {
      assert refs[..n] == refs;
    } else {
      assert refs[..|refs| - 1][..n] == refs[..n];
      ListedPrefix(batches, refs[..|refs| - 1], n);
    }
  }

  // ---------------------------------------------------------------------------------------------
  // The three dictionaries agree with the scan

  ghost function Lookup(entities: map<(Id, Id), Id>, places: map<(Id, Id), Id>, urls: map<Id, Id>, k: Key): Option<Id> {
    match k
    case ByEntity(provider, entity) => Get(entities, (provider, entity))
    case ByPlace(name, address) => Get(places, (name, address))
    case ByUrl(url) => Get(urls, url)
  }

  ghost predicate Indexed(pool: map<Id, Candidate>, selected: seq<Id>,
                          entities: map<(Id, Id), Id>, places: map<(Id, Id), Id>, urls: map<Id, Id>)
  {
    forall k: Key :: Lookup(entities, places, urls, k) == Holder(pool, selected, k)
  }

  lemma {:induction false} HolderMeaning(pool: map<Id, Candidate>, selected: seq<Id>, k: Key)
    ensures match Holder(pool, selected, k)
            case Some(c) => c in selected && Holds(pool, c, k)
            case None => forall c <- selected :: !Holds(pool, c, k)
  {
    if selected != [] {
      HolderMeaning(pool, selected[..|selected| - 1], k);
      assert selected == selected[..|selected| - 1] + [selected[|selected| - 1]];
    }
  }

  lemma {:induction false} FirstHeldMeaning(pool: map<Id, Candidate>, selected: seq<Id>, keys: seq<Key>)
    ensures match FirstHeld(pool, selected, keys)
            case Some(c) => c in selected && exists k <- keys :: Holds(pool, c, k)
            case None => forall k <- keys :: Holder(pool, selected, k).None?
  {
    if keys != [] {
      HolderMeaning(pool, selected, keys[0]);
      FirstHeldMeaning(pool, selected, keys[1..]);
      assert keys == [keys[0]] + keys[1..];
    }
  }

  class Repository {
    var pool: map<Id, Candidate>
    var batches: map<Id, seq<Id>>
    var sources: seq<Source>

    /** merge_discovery up to the saved candidate set; failed says which of the run's discovery calls failed. */
    method MergeDiscovery(run: Id, refs: seq<Id>, failed: seq<bool>, maxCandidates: nat)
      returns (r: Result<seq<Id>, MergeError>)
      modifies this`sources
      ensures
        var listed := Listed(batches, refs);
        var known := KnownPrefix(pool, listed);
        var merged := Merged(pool, run, old(sources), known);
        && sources == merged.sources
        && r == if known != listed then Failure(UnknownCandidate)
                else if merged.selected == [] && failed != [] && (forall f <- failed :: f) then Failure(AllProvidersUnavailable)
                else Success(if |merged.selected| <= maxCandidates then merged.selected else merged.selected[..maxCandidates])
    {
      ghost var initial := sources;
      ghost var listed := Listed(batches, refs);
      var entities: map<(Id, Id), Id>, places: map<(Id, Id), Id>, urls: map<Id, Id> := map[], map[], map[];
      var selected: seq<Id> := [];
      ghost var done: seq<Id> := [];
      for r' := 0 to |refs|
        invariant done == Listed(batches, refs[..r']) && AllKnown(pool, done)
        invariant Progress(selected, sources) == Merged(pool, run, initial, done)
        invariant Indexed(pool, selected, entities, places, urls)
      {
        var batch := Get(batches, refs[r']).GetOr([]);
        ghost var before := done;
        assert refs[..r' + 1][..r'] == refs[..r'];
        ListedPrefix(batches, refs, r' + 1);
        assert before + batch[..0] == before;
        for i := 0 to |batch|
          invariant done == before + batch[..i] && AllKnown(pool, done)
          invariant Progress(selected, sources) == Merged(pool, run, initial, done)
          invariant Indexed(pool, selected, entities, places, urls)
        {
          var cid := batch[i];
          assert done + [cid] == before + batch[..i + 1];
          assert done + [cid] <= before + batch <= listed;
          if cid !in pool {
            assert listed[..|done|] == done && listed[|done|] == cid;
            KnownPrefixIs(pool, listed, |done|);
            return Failure(UnknownCandidate);
          }
          MergedSnoc(pool, run, initial, done, cid);
          done := done + [cid];
          var item := pool[cid];
          if item.run != run {
            continue;
          }
          var duplicate := if item.entity.Some? then Get(entities, (item.provider, item.entity.value)) else None;
          if duplicate.None? && item.address.Some? {
            duplicate := Get(places, (item.name, item.address.value));
          }
          if duplicate.None? && item.url.Some? {
            duplicate := Get(urls, item.url.value);
          }
          LookupsAgree(pool, selected, entities, places, urls, item);
          assert duplicate == Duplicated(pool, selected, item);
          if duplicate.Some? {
            CopySources(cid, duplicate.value);
            continue;
          }
          IndexesGrow(pool, selected, entities, places, urls, cid);
          selected := selected + [cid];
          entities := if item.entity.Some? then entities[(item.provider, item.entity.value) := cid] else entities;
          places := if item.address.Some? then places[(item.name, item.address.value) := cid] else places;
          urls := if item.url.Some? then urls[item.url.value := cid] else urls;
        }
        assert batch[..|batch|] == batch;
      }
      assert refs[..|refs|] == refs;
      KnownPrefixIs(pool, listed, |listed|);
      assert listed[..|listed|] == listed;
      if selected == [] && failed != [] && forall f <- failed :: f {
        return Failure(AllProvidersUnavailable);
      }
      return Success(if |selected| <= maxCandidates then selected else selected[..maxCandidates]);
    }

    /** The records are read before the first copy is saved. */
    method CopySources(cid: Id, twin: Id)
      modifies this`sources
      ensures sources == old(sources) + Retarget(SourcesOf(old(sources), cid), twin)
    {
      var records := SourcesOf(sources, cid);
      for i := 0 to |records|
        invariant sources == old(sources) + Retarget(records[..i], twin)
      {
        assert Retarget(records[..i + 1], twin) == Retarget(records[..i], twin) + [records[i].(candidate := twin)];
        sources := sources + [records[i].(candidate := twin)];
      }
      assert records[..|records|] == records;
    }
  }

  /** Looking the keys up dictionary by dictionary finds what the scan finds. */
  lemma LookupsAgree(pool: map<Id, Candidate>, selected: seq<Id>,
                     entities: map<(Id, Id), Id>, places: map<(Id, Id), Id>, urls: map<Id, Id>, c: Candidate)
    requires Indexed(pool, selected, entities, places, urls)
    ensures
      var byEntity := if c.entity.Some? then Get(entities, (c.provider, c.entity.value)) else None;
      var byPlace := if c.address.Some? then Get(places, (c.name, c.address.value)) else None;
      var byUrl := if c.url.Some? then Get(urls, c.url.value) else None;
      Duplicated(pool, selected, c) ==
      if byEntity.Some? then byEntity else if byPlace.Some? then byPlace else byUrl
  {
    if c.entity.Some? {
      assert Get(entities, (c.provider, c.entity.value)) == Holder(pool, selected, ByEntity(c.provider, c.entity.value)) by {
        assert Lookup(entities, places, urls, ByEntity(c.provider, c.entity.value))
            == Holder(pool, selected, ByEntity(c.provider, c.entity.value));
      }
    }
    if c.address.Some? {
      assert Lookup(entities, places, urls, ByPlace(c.name, c.address.value))
          == Holder(pool, selected, ByPlace(c.name, c.address.value));
    }
    if c.url.Some? {
      assert Lookup(entities, places, urls, ByUrl(c.url.value)) == Holder(pool, selected, ByUrl(c.url.value));
    }
    FirstHeldUnrolled(pool, selected, c);
  }

  lemma FirstHeldUnrolled(pool: map<Id, Candidate>, selected: seq<Id>, c: Candidate)
    ensures
      var byEntity := if c.entity.Some? then Holder(pool, selected, ByEntity(c.provider, c.entity.value)) else None;
      var byPlace := if c.address.Some? then Holder(pool, selected, ByPlace(c.name, c.address.value)) else None;
      var byUrl := if c.url.Some? then Holder(pool, selected, ByUrl(c.url.value)) else None;
      Duplicated(pool, selected, c) ==
      if byEntity.Some? then byEntity else if byPlace.Some? then byPlace else byUrl
  {
    var third := if c.url.Some? then [ByUrl(c.url.value)] else [];
    var second := (if c.address.Some? then [ByPlace(c.name, c.address.value)] else []) + third;
    var first := (if c.entity.Some? then [ByEntity(c.provider, c.entity.value)] else []) + second;
    assert Keys(c) == first;
    assert c.entity.Some? ==> first[1..] == second;
    assert c.address.Some? ==> second[1..] == third;
    assert c.url.Some? ==> third[1..] == [];
    var byPlace := if c.address.Some? then Holder(pool, selected, ByPlace(c.name, c.address.value)) else None;
    var byUrl := if c.url.Some? then Holder(pool, selected, ByUrl(c.url.value)) else None;
    assert FirstHeld(pool, selected, third) == byUrl;
    assert FirstHeld(pool, selected, second) == if byPlace.Some? then byPlace else byUrl;
  }

  /** Entering a candidate that duplicates nothing keeps the dictionaries in step with the scan. */
  lemma IndexesGrow(pool: map<Id, Candidate>, selected: seq<Id>,
                    entities: map<(Id, Id), Id>, places: map<(Id, Id), Id>, urls: map<Id, Id>, cid: Id)
    requires Indexed(pool, selected, entities, places, urls)
    requires cid in pool && Duplicated(pool, selected, pool[cid]).None?
    ensures
      var c := pool[cid];
      Indexed(pool, selected + [cid],
              if c.entity.Some? then entities[(c.provider, c.entity.value) := cid] else entities,
              if c.address.Some? then places[(c.name, c.address.value) := cid] else places,
              if c.url.Some? then urls[c.url.value := cid] else urls)
  {
    var c := pool[cid];
    FirstHeldMeaning(pool, selected, Keys(c));
    var entities' := if c.entity.Some? then entities[(c.provider, c.entity.value) := cid] else entities;
    var places' := if c.address.Some? then places[(c.name, c.address.value) := cid] else places;
    var urls' := if c.url.Some? then urls[c.url.value := cid] else urls;
    forall k: Key ensures Lookup(entities', places', urls', k) == Holder(pool, selected + [cid], k) {
      assert (selected + [cid])[..|selected|] == selected;
      assert Lookup(entities, places, urls, k) == Holder(pool, selected, k);
      match k {
        case ByEntity(_, _) => assert k in Keys(c) <==> c.entity.Some? && k == ByEntity(c.provider, c.entity.value);
        case ByPlace(_, _) => assert k in Keys(c) <==> c.address.Some? && k == ByPlace(c.name, c.address.value);
        case ByUrl(_) => assert k in Keys(c) <==> c.url.Some? && k == ByUrl(c.url.value);
      }
    }
  }

  // ---------------------------------------------------------------------------------------------
  // What the merge guarantees

  ghost predicate NoSharedKey(pool: map<Id, Candidate>, selected: seq<Id>) {
    forall i, j, k: Key :: 0 <= i < j < |selected| && Holds(pool, selected[i], k) ==> !Holds(pool, selected[j], k)
  }

  /** Selected candidates are listed candidates of the run, and no two of them share a key. */
  lemma {:induction false} SelectedShareNoKey(pool: map<Id, Candidate>, run: Id, sources: seq<Source>, ids: seq<Id>)
    requires AllKnown(pool, ids)
    ensures NoSharedKey(pool, Merged(pool, run, sources, ids).selected)
    ensures forall c <- Merged(pool, run, sources, ids).selected :: c in ids && pool[c].run == run
  {
    if ids != [] {
      var n := |ids| - 1;
      SelectedShareNoKey(pool, run, sources, ids[..n]);
      var selected := Merged(pool, run, sources, ids[..n]).selected;
      FirstHeldMeaning(pool, selected, Keys(pool[ids[n]]));
      if Duplicated(pool, selected, pool[ids[n]]).None? {
        forall i, k: Key | 0 <= i < |selected| && Holds(pool, selected[i], k) ensures !Holds(pool, ids[n], k) {
          HolderMeaning(pool, selected, k);
        }
      }
    }
  }

  /** So each key has one holder among them: the dictionaries lose nothing by keeping only one. */
  lemma HolderIsUnique(pool: map<Id, Candidate>, run: Id, sources: seq<Source>, ids: seq<Id>, c: Id, k: Key)
    requires AllKnown(pool, ids)
    ensures
      var selected := Merged(pool, run, sources, ids).selected;
      Holder(pool, selected, k) == Some(c) <==> c in selected && Holds(pool, c, k)
  {
    var selected := Merged(pool, run, sources, ids).selected;
    SelectedShareNoKey(pool, run, sources, ids);
    HolderMeaning(pool, selected, k);
    if c in selected && Holds(pool, c, k) {
      var i :| 0 <= i < |selected| && selected[i] == c;
      var j :| 0 <= j < |selected| && Some(selected[j]) == Holder(pool, selected, k);
    }
  }

  /** Merging more candidates only adds to the selection and to the records. */
  lemma {:induction false} MergedExtends(pool: map<Id, Candidate>, run: Id, sources: seq<Source>, ids: seq<Id>, n: nat)
    requires AllKnown(pool, ids) && n <= |ids|
    ensures Merged(pool, run, sources, ids[..n]).selected <= Merged(pool, run, sources, ids).selected
    ensures Merged(pool, run, sources, ids[..n]).sources <= Merged(pool, run, sources, ids).sources
  {
    if n == |ids| {
      assert ids[..n] == ids;
    } else {
      var last := |ids| - 1;
      assert ids[..last][..n] == ids[..n];
      MergedExtends(pool, run, sources, ids[..last], n);
    }
  }

  lemma {:induction false} SourcesOfMember(sources: seq<Source>, cid: Id, s: Source)
    ensures s in SourcesOf(sources, cid) <==> s in sources && s.candidate == cid
  {
    if sources != [] {
      var n := |sources| - 1;
      SourcesOfMember(sources[..n], cid, s);
      assert sources == sources[..n] + [sources[n]];
    }
  }

  ghost predicate SharesKey(pool: map<Id, Candidate>, a: Id, b: Id) {
    exists k: Key :: Holds(pool, a, k) && Holds(pool, b, k)
  }

  /** Every listed candidate of the run is selected, or shares a key with a selected one that received a copy of each
      of its records; nothing recorded before is lost. */
  lemma NothingIsLost(pool: map<Id, Candidate>, run: Id, sources: seq<Source>, ids: seq<Id>, i: nat)
    requires AllKnown(pool, ids) && i < |ids| && pool[ids[i]].run == run
    ensures
      var final := Merged(pool, run, sources, ids);
      && sources <= final.sources
      && (ids[i] in final.selected
          || exists twin <- final.selected :: SharesKey(pool, ids[i], twin)
              && forall s <- sources :: s.candidate == ids[i] ==> s.(candidate := twin) in final.sources)
  {
    var cid, final := ids[i], Merged(pool, run, sources, ids);
    var before, after := Merged(pool, run, sources, ids[..i]), Merged(pool, run, sources, ids[..i + 1]);
    assert ids[..i + 1][..i] == ids[..i];
    assert after == Step(pool, run, before, cid);
    MergedExtends(pool, run, sources, ids, i + 1);
    MergedExtends(pool, run, sources, ids, 0);
    MergedExtends(pool, run, sources, ids[..i], 0);
    assert ids[..0] == ids[..i][..0] == [];
    FirstHeldMeaning(pool, before.selected, Keys(pool[cid]));
    match Duplicated(pool, before.selected, pool[cid])
    case None =>
      assert after.selected[|before.selected|] == cid;
      assert final.selected[|before.selected|] == cid;
    case Some(twin) =>
      assert twin in final.selected;
      var records := SourcesOf(before.sources, cid);
      forall s | s in sources && s.candidate == cid ensures s.(candidate := twin) in final.sources {
        SourcesOfMember(before.sources, cid, s);
        var j :| 0 <= j < |records| && records[j] == s;
        assert Retarget(records, twin)[j] == s.(candidate := twin);
        assert s.(candidate := twin) in after.sources;
      }
  }

  /** Nothing is invented: a record of the merged repository is an old one, or an old one handed to a selected
      candidate that shares a key with its owner. Candidates that are not selected gain no record. */
  lemma {:induction false} NothingIsInvented(pool: map<Id, Candidate>, run: Id, sources: seq<Source>, ids: seq<Id>,
                                             s: Source)
    requires AllKnown(pool, ids) && s in Merged(pool, run, sources, ids).sources
    ensures s in sources
            || (s.candidate in Merged(pool, run, sources, ids).selected
                && exists owner: Id :: CopiedFrom(pool, sources, ids, owner, s))
  {
    if ids != [] {
      var n := |ids| - 1;
      var before := Merged(pool, run, sources, ids[..n]);
      MergedExtends(pool, run, sources, ids, n);
      if s in before.sources {
        NothingIsInvented(pool, run, sources, ids[..n], s);
        if s !in sources {
          var owner: Id :| CopiedFrom(pool, sources, ids[..n], owner, s);
          assert CopiedFrom(pool, sources, ids, owner, s);
        }
      } else {
        var cid, twin := ids[n], Duplicated(pool, before.selected, pool[ids[n]]).value;
        FirstHeldMeaning(pool, before.selected, Keys(pool[cid]));
        var records := SourcesOf(before.sources, cid);
        assert s in Retarget(records, twin);
        var j :| 0 <= j < |records| && Retarget(records, twin)[j] == s;
        assert records[j] in records;
        SourcesOfMember(before.sources, cid, records[j]);
        NothingIsInvented(pool, run, sources, ids[..n], records[j]);
        if records[j] in sources {
          assert CopiedFrom(pool, sources, ids, cid, s);
        } else {
          SelectedIsItsOwnTwin(pool, run, sources, ids[..n], cid, twin);
        }
      }
    }
  }

  ghost predicate CopiedFrom(pool: map<Id, Candidate>, sources: seq<Source>, ids: seq<Id>, owner: Id, s: Source) {
    owner in ids && SharesKey(pool, owner, s.candidate) && s.(candidate := owner) in sources
  }

  /** A selected candidate that is listed again duplicates only itself. */
  lemma SelectedIsItsOwnTwin(pool: map<Id, Candidate>, run: Id, sources: seq<Source>, ids: seq<Id>, cid: Id, twin: Id)
    requires AllKnown(pool, ids)
    requires cid in pool && cid in Merged(pool, run, sources, ids).selected
    requires Duplicated(pool, Merged(pool, run, sources, ids).selected, pool[cid]) == Some(twin)
    ensures twin == cid
  {
    var selected := Merged(pool, run, sources, ids).selected;
    FirstHeldMeaning(pool, selected, Keys(pool[cid]));
    var k :| k in Keys(pool[cid]) && Holds(pool, twin, k);
    HolderIsUnique(pool, run, sources, ids, cid, k);
    HolderIsUnique(pool, run, sources, ids, twin, k);
  }

  // ---------------------------------------------------------------------------------------------
  // Which twin, which records, in which order

  predicate SameEntity(c: Candidate, d: Candidate) { c.entity.Some? && c.provider == d.provider && c.entity == d.entity }

  predicate SamePlace(c: Candidate, d: Candidate) { c.address.Some? && c.name == d.name && c.address == d.address }

  predicate SameUrl(c: Candidate, d: Candidate) { c.url.Some? && c.url == d.url }

  lemma KeysOf(c: Candidate, k: Key)
    ensures k in Keys(c) <==>
            match k
            case ByEntity(provider, entity) => c.provider == provider && c.entity == Some(entity)
            case ByPlace(name, address) => c.name == name && c.address == Some(address)
            case ByUrl(url) => c.url == Some(url)
  {
    var ks := Keys(c);
    assert c.entity.Some? ==> ks[0] == ByEntity(c.provider, c.entity.value);
    assert c.address.Some? ==> ByPlace(c.name, c.address.value) in ks;
    assert c.url.Some? ==> ks[|ks| - 1] == ByUrl(c.url.value);
  }

  /** Candidates share a key when they are one provider's entity, or have one name and address, or one url. */
  lemma SharesKeyIff(pool: map<Id, Candidate>, a: Id, b: Id)
    requires a in pool && b in pool
    ensures SharesKey(pool, a, b) <==>
            SameEntity(pool[a], pool[b]) || SamePlace(pool[a], pool[b]) || SameUrl(pool[a], pool[b])
  {
    var c, d := pool[a], pool[b];
    if k: Key :| Holds(pool, a, k) && Holds(pool, b, k) {
      KeysOf(c, k);
      KeysOf(d, k);
    }
    if SameEntity(c, d) || SamePlace(c, d) || SameUrl(c, d) {
      var k := if SameEntity(c, d) then ByEntity(c.provider, c.entity.value)
               else if SamePlace(c, d) then ByPlace(c.name, c.address.value) else ByUrl(c.url.value);
      KeysOf(c, k);
      KeysOf(d, k);
      hide Keys;
      assert Holds(pool, a, k) && Holds(pool, b, k);
    }
  }

  /** The next listed candidate of the run is selected exactly when it shares no key with those selected before. */
  lemma SelectedIff(pool: map<Id, Candidate>, run: Id, sources: seq<Source>, ids: seq<Id>, i: nat)
    requires AllKnown(pool, ids) && i < |ids| && pool[ids[i]].run == run
    ensures
      var before, after := Merged(pool, run, sources, ids[..i]).selected, Merged(pool, run, sources, ids[..i + 1]).selected;
      after == if exists twin <- before :: SharesKey(pool, ids[i], twin) then before else before + [ids[i]]
  {
    assert ids[..i + 1][..i] == ids[..i];
    var selected := Merged(pool, run, sources, ids[..i]).selected;
    FirstHeldMeaning(pool, selected, Keys(pool[ids[i]]));
    if twin :| twin in selected && SharesKey(pool, ids[i], twin) {
      var k: Key :| Holds(pool, ids[i], k) && Holds(pool, twin, k);
      HolderMeaning(pool, selected, k);
    }
  }

  /** Of several twins the provider's own entity comes first, then the one of the same name and address, then the url's. */
  lemma TwinByPriority(pool: map<Id, Candidate>, run: Id, sources: seq<Source>, ids: seq<Id>, cid: Id, twin: Id)
    requires AllKnown(pool, ids) && cid in pool && twin in Merged(pool, run, sources, ids).selected && twin in pool
    ensures
      var selected, c, d := Merged(pool, run, sources, ids).selected, pool[cid], pool[twin];
      Duplicated(pool, selected, c) == Some(twin) <==>
        || SameEntity(c, d)
        || (SamePlace(c, d) && forall other <- selected :: other in pool ==> !SameEntity(c, pool[other]))
        || (SameUrl(c, d) && forall other <- selected :: other in pool ==>
              !SameEntity(c, pool[other]) && !SamePlace(c, pool[other]))
  {
    var selected, c := Merged(pool, run, sources, ids).selected, pool[cid];
    var byEntity := if c.entity.Some? then Holder(pool, selected, ByEntity(c.provider, c.entity.value)) else None;
    var byPlace := if c.address.Some? then Holder(pool, selected, ByPlace(c.name, c.address.value)) else None;
    var byUrl := if c.url.Some? then Holder(pool, selected, ByUrl(c.url.value)) else None;
    FirstOfThree(pool, selected, c);
    HoldersOf(pool, run, sources, ids, c);
    hide Merged, Holder, Duplicated;
    var d := pool[twin];
    if byEntity.Some? {
      var v := byEntity.value;
      assert v in selected && v in pool && SameEntity(c, pool[v]);
    } else {
      assert forall other <- selected :: other in pool ==> !SameEntity(c, pool[other]);
      assert !SameEntity(c, d);
      if byPlace.Some? {
        var v := byPlace.value;
        assert v in selected && v in pool && SamePlace(c, pool[v]);
      } else {
        assert forall other <- selected :: other in pool ==> !SamePlace(c, pool[other]);
      }
    }
  }

  /** Each of the three lookups finds the selected candidate that agrees, if there is one. */
  lemma HoldersOf(pool: map<Id, Candidate>, run: Id, sources: seq<Source>, ids: seq<Id>, c: Candidate)
    requires AllKnown(pool, ids)
    ensures
      var selected := Merged(pool, run, sources, ids).selected;
      var byEntity := if c.entity.Some? then Holder(pool, selected, ByEntity(c.provider, c.entity.value)) else None;
      var byPlace := if c.address.Some? then Holder(pool, selected, ByPlace(c.name, c.address.value)) else None;
      var byUrl := if c.url.Some? then Holder(pool, selected, ByUrl(c.url.value)) else None;
      && (forall d <- selected :: d in pool ==> (byEntity == Some(d) <==> SameEntity(c, pool[d])))
      && (forall d <- selected :: d in pool ==> (byPlace == Some(d) <==> SamePlace(c, pool[d])))
      && (forall d <- selected :: d in pool ==> (byUrl == Some(d) <==> SameUrl(c, pool[d])))
      && (byEntity.Some? ==> byEntity.value in selected && byEntity.value in pool && SameEntity(c, pool[byEntity.value]))
      && (byPlace.Some? ==> byPlace.value in selected && byPlace.value in pool && SamePlace(c, pool[byPlace.value]))
  {
    if c.entity.Some? {
      HeldBy(pool, run, sources, ids, ByEntity(c.provider, c.entity.value));
    }
    if c.address.Some? {
      HeldBy(pool, run, sources, ids, ByPlace(c.name, c.address.value));
    }
    if c.url.Some? {
      HeldBy(pool, run, sources, ids, ByUrl(c.url.value));
    }
    hide Merged, Holder, Duplicated, Keys, Holds;
  }

  lemma FirstOfThree(pool: map<Id, Candidate>, selected: seq<Id>, c: Candidate)
    ensures
      var byEntity := if c.entity.Some? then Holder(pool, selected, ByEntity(c.provider, c.entity.value)) else None;
      var byPlace := if c.address.Some? then Holder(pool, selected, ByPlace(c.name, c.address.value)) else None;
      var byUrl := if c.url.Some? then Holder(pool, selected, ByUrl(c.url.value)) else None;
      Duplicated(pool, selected, c) == if byEntity.Some? then byEntity else if byPlace.Some? then byPlace else byUrl
  {
    LookupsInOrder(pool, selected, Keys(c));
  }

  lemma LookupsInOrder(pool: map<Id, Candidate>, selected: seq<Id>, keys: seq<Key>)
    requires |keys| <= 3
    ensures FirstHeld(pool, selected, keys) ==
            if |keys| > 0 && Holder(pool, selected, keys[0]).Some? then Holder(pool, selected, keys[0])
            else if |keys| > 1 && Holder(pool, selected, keys[1]).Some? then Holder(pool, selected, keys[1])
            else if |keys| > 2 then Holder(pool, selected, keys[2])
            else None
  {
    hide Holder;
    if |keys| > 1 {
      assert keys[1..][0] == keys[1];
      if |keys| > 2 {
        assert keys[1..][1..][0] == keys[2] && keys[1..][1..][1..] == [];
      }
    }
  }

  /** The holder of a key is the selected candidate that has it. */
  lemma HeldBy(pool: map<Id, Candidate>, run: Id, sources: seq<Source>, ids: seq<Id>, k: Key)
    requires AllKnown(pool, ids)
    ensures
      var selected := Merged(pool, run, sources, ids).selected;
      && (forall d <- selected | d in pool ::
            Holder(pool, selected, k) == Some(d) <==>
            match k
            case ByEntity(provider, entity) => pool[d].provider == provider && pool[d].entity == Some(entity)
            case ByPlace(name, address) => pool[d].name == name && pool[d].address == Some(address)
            case ByUrl(url) => pool[d].url == Some(url))
      && (Holder(pool, selected, k).Some? ==> Holder(pool, selected, k).value in selected && Holder(pool, selected, k).value in pool)
  {
    var selected := Merged(pool, run, sources, ids).selected;
    HolderMeaning(pool, selected, k);
    forall d | d in selected && d in pool
      ensures Holder(pool, selected, k) == Some(d) <==>
              match k
              case ByEntity(provider, entity) => pool[d].provider == provider && pool[d].entity == Some(entity)
              case ByPlace(name, address) => pool[d].name == name && pool[d].address == Some(address)
              case ByUrl(url) => pool[d].url == Some(url)
    {
      HolderIsUnique(pool, run, sources, ids, d, k);
      KeysOf(pool[d], k);
    }
  }

  /** A duplicate's records are all copied, each as often as it occurs, in their order, and nothing else is added. */
  lemma CopiesAreExact(pool: map<Id, Candidate>, run: Id, sources: seq<Source>, ids: seq<Id>, i: nat, s: Source)
    requires AllKnown(pool, ids) && i < |ids|
    ensures
      var before, after := Merged(pool, run, sources, ids[..i]), Merged(pool, run, sources, ids[..i + 1]);
      if pool[ids[i]].run == run && Duplicated(pool, before.selected, pool[ids[i]]).Some? then
        var own, twin := SourcesOf(before.sources, ids[i]), Duplicated(pool, before.selected, pool[ids[i]]).value;
        && |after.sources| == |before.sources| + |own| && after.sources[..|before.sources|] == before.sources
        && (forall k :: 0 <= k < |own| ==> after.sources[|before.sources| + k] == own[k].(candidate := twin))
        && multiset(own)[s] == if s.candidate == ids[i] then multiset(before.sources)[s] else 0
      else after.sources == before.sources
  {
    assert ids[..i + 1][..i] == ids[..i];
    SourcesOfCount(Merged(pool, run, sources, ids[..i]).sources, ids[i], s);
    hide Merged, SourcesOf, Duplicated;
    var before := Merged(pool, run, sources, ids[..i]);
    MergedSnoc(pool, run, sources, ids[..i], ids[i]);
    assert ids[..i] + [ids[i]] == ids[..i + 1];
  }

  lemma {:induction false} SourcesOfCount(sources: seq<Source>, cid: Id, s: Source)
    ensures multiset(SourcesOf(sources, cid))[s] == if s.candidate == cid then multiset(sources)[s] else 0
  {
    if sources != [] {
      var n := |sources| - 1;
      SourcesOfCount(sources[..n], cid, s);
      assert sources == sources[..n] + [sources[n]];
    }
  }

  /** The records of a candidate keep their order. */
  lemma {:induction false} SourcesOfAppend(before: seq<Source>, after: seq<Source>, cid: Id)
    ensures SourcesOf(before + after, cid) == SourcesOf(before, cid) + SourcesOf(after, cid)
  {
    if after == [] {
      assert before + after == before && SourcesOf(before, cid) + [] == SourcesOf(before, cid);
    } else {
      var n := |after| - 1;
      assert (before + after)[..|before + after| - 1] == before + after[..n];
      SourcesOfAppend(before, after[..n], cid);
    }
  }

  /** The listed candidates are the batches' in the order of the references; an unknown reference stands for none. */
  lemma {:induction false} ListedAppend(batches: map<Id, seq<Id>>, refs: seq<Id>, more: seq<Id>)
    ensures Listed(batches, refs + more) == Listed(batches, refs) + Listed(batches, more)
    ensures |more| == 1 ==> Listed(batches, more) == if more[0] in batches then batches[more[0]] else []
  {
    if more == [] {
      assert refs + more == refs && Listed(batches, refs) + [] == Listed(batches, refs);
    } else {
      var n := |more| - 1;
      assert (refs + more)[..|refs + more| - 1] == refs + more[..n];
      ListedAppend(batches, refs, more[..n]);
    }
  }
}
