/** Entity resolution: blocking, the credit-code rule, and clustering candidates into enterprises. */
module Resolution {
  import opened Basics
  import opened UnionFind

  /** The empty base name. */
  const NO_NAME: Id := 0

  /** A raw candidate with its name, website and phone already normalised; an empty field is None. */
  datatype Candidate = Candidate(
    id: Id, name: Id, nameLength: nat, baseName: Id, domain: Option<Id>, phone: Option<Id>, providerGroup: Option<Id>,
    region: Option<Id>, code: Option<Id>, branchName: bool, officeName: bool)

  datatype BlockKey = ByName(base: Id) | ByDomain(domain: Id) | ByPhone(phone: Id) | ByProvider(group: Id) | ByRegion(region: Id, base: Id)

  datatype Reason = NORMALIZED_BASE_NAME | SAME_DOMAIN | SAME_PHONE | PROVIDER_GROUP | REGION_STRONG_NAME

  datatype Group = Group(ids: seq<Id>, reason: Reason)

  // ---------------------------------------------------------------------------------------------
  // Blocking

  function Keys(c: Candidate): seq<(BlockKey, Reason)> {
    [(ByName(c.baseName), NORMALIZED_BASE_NAME)]
    + (if c.domain.Some? then [(ByDomain(c.domain.value), SAME_DOMAIN)] else [])
    + (if c.phone.Some? then [(ByPhone(c.phone.value), SAME_PHONE)] else [])
    + (if c.providerGroup.Some? then [(ByProvider(c.providerGroup.value), PROVIDER_GROUP)] else [])
    + (if c.region.Some? && c.baseName != NO_NAME then [(ByRegion(c.region.value, c.baseName), REGION_STRONG_NAME)] else [])
  }

  function KeySet(keys: seq<(BlockKey, Reason)>): set<BlockKey> {
    set kr | kr in keys :: kr.0
  }

  /** Candidates that can be blocked together: same name, domain, phone, provider group, or region and name. */
  predicate SharesKey(c: Candidate, d: Candidate) {
    || c.baseName == d.baseName
    || (c.domain.Some? && c.domain == d.domain)
    || (c.phone.Some? && c.phone == d.phone)
    || (c.providerGroup.Some? && c.providerGroup == d.providerGroup)
  }

  function Members(candidates: seq<Candidate>, k: BlockKey): set<Id> {
    set c | c in candidates && k in KeySet(Keys(c)) :: c.id
  }

  lemma HasKeyIff(c: Candidate, k: BlockKey)
    ensures k in KeySet(Keys(c)) <==>
            (match k
             case ByName(b) => c.baseName == b
             case ByDomain(d) => c.domain == Some(d)
             case ByPhone(p) => c.phone == Some(p)
             case ByProvider(g) => c.providerGroup == Some(g)
             case ByRegion(r, b) => c.region == Some(r) && c.baseName == b && b != NO_NAME)
  {
    var ks := Keys(c);
    assert ks[0] == (ByName(c.baseName), NORMALIZED_BASE_NAME);
    assert c.domain.Some? ==> (ByDomain(c.domain.value), SAME_DOMAIN) in ks;
    assert c.phone.Some? ==> (ByPhone(c.phone.value), SAME_PHONE) in ks;
    assert c.providerGroup.Some? ==> (ByProvider(c.providerGroup.value), PROVIDER_GROUP) in ks;
    assert c.region.Some? && c.baseName != NO_NAME ==> (ByRegion(c.region.value, c.baseName), REGION_STRONG_NAME) in ks;
  }

  /** The region key never adds a pair: it implies an equal base name. */
  lemma SharesKeyIff(c: Candidate, d: Candidate)
    ensures SharesKey(c, d) <==> exists k :: k in KeySet(Keys(c)) && k in KeySet(Keys(d))
  {
    forall k ensures k in KeySet(Keys(c)) && k in KeySet(Keys(d)) ==> SharesKey(c, d) {
      HasKeyIff(c, k);
      HasKeyIff(d, k);
    }
    if SharesKey(c, d) {
      var k :=
        if c.baseName == d.baseName then ByName(c.baseName)
        else if c.domain.Some? && c.domain == d.domain then ByDomain(c.domain.value)
        else if c.phone.Some? && c.phone == d.phone then ByPhone(c.phone.value)
        else ByProvider(c.providerGroup.value);
      HasKeyIff(c, k);
      HasKeyIff(d, k);
    }
  }

  /** The sorted ids of a key's block, when it holds at least two candidates. */
  ghost predicate BlockIds(candidates: seq<Candidate>, k: BlockKey, ids: seq<Id>) {
    |Members(candidates, k)| >= 2 && ids == Sorted(Members(candidates, k))
  }

  ghost predicate HasGroup(groups: seq<Group>, ids: seq<Id>) {
    exists i :: 0 <= i < |groups| && groups[i].ids == ids
  }

  function ReasonOf(k: BlockKey): Reason {
    match k
    case ByName(_) => NORMALIZED_BASE_NAME
    case ByDomain(_) => SAME_DOMAIN
    case ByPhone(_) => SAME_PHONE
    case ByProvider(_) => PROVIDER_GROUP
    case ByRegion(_, _) => REGION_STRONG_NAME
  }

  /** The group is some key's block, and gives that key's reason. */
  ghost predicate IsBlock(candidates: seq<Candidate>, g: Group) {
    exists k :: BlockIds(candidates, k, g.ids) && g.reason == ReasonOf(k)
  }

  /** One group for every set of at least two candidates that some key blocks together, and no group twice. */
  ghost predicate GroupsExactly(candidates: seq<Candidate>, groups: seq<Group>) {
    && (forall i :: 0 <= i < |groups| ==> IsBlock(candidates, groups[i]))
    && (forall k, ids :: BlockIds(candidates, k, ids) ==> HasGroup(groups, ids))
    && (forall i, j :: 0 <= i < j < |groups| ==> groups[i].ids != groups[j].ids)
  }

  function BlockOf(blocks: map<BlockKey, set<Id>>, k: BlockKey): set<Id> {
    if k in blocks then blocks[k] else {}
  }

  /** blocks, as a dictionary with its keys in insertion order, after filing the keys of some candidates. */
  ghost predicate Filed(candidates: seq<Candidate>, blocks: map<BlockKey, set<Id>>, order: seq<BlockKey>) {
    && (forall k :: k in blocks <==> k in order)
    && (forall k :: BlockOf(blocks, k) == Members(candidates, k))
  }

  lemma MembersAppend(candidates: seq<Candidate>, c: Candidate, k: BlockKey)
    ensures Members(candidates + [c], k) == Members(candidates, k) + (if k in KeySet(Keys(c)) then {c.id} else {})
  {
  }

  /** The id was put into the blocks of exactly these keys. */
  ghost predicate Added(blocks: map<BlockKey, set<Id>>, blocks': map<BlockKey, set<Id>>, keys: set<BlockKey>, id: Id) {
    forall k :: BlockOf(blocks', k) == BlockOf(blocks, k) + (if k in keys then {id} else {})
  }

  lemma AddedOne(blocks: map<BlockKey, set<Id>>, blocks': map<BlockKey, set<Id>>, keys: set<BlockKey>, id: Id, key: BlockKey)
    requires Added(blocks, blocks', keys, id)
    ensures Added(blocks, blocks'[key := BlockOf(blocks', key) + {id}], keys + {key}, id)
  {
    var after := blocks'[key := BlockOf(blocks', key) + {id}];
    forall k ensures BlockOf(after, k) == BlockOf(blocks, k) + (if k in keys + {key} then {id} else {}) {
      if k != key {
        assert BlockOf(after, k) == BlockOf(blocks', k);
      }
    }
  }

  lemma KeySetAppend(keys: seq<(BlockKey, Reason)>, kr: (BlockKey, Reason))
    ensures KeySet(keys + [kr]) == KeySet(keys) + {kr.0}
  {
  }

  /** Every block has the reason of its key. */
  ghost predicate Explained(blocks: map<BlockKey, set<Id>>, reasons: map<BlockKey, Reason>) {
    reasons.Keys == blocks.Keys && forall k <- reasons :: reasons[k] == ReasonOf(k)
  }

  lemma KeysExplained(c: Candidate, j: nat)
    requires j < |Keys(c)|
    ensures Keys(c)[j].1 == ReasonOf(Keys(c)[j].0)
  {
  }

  /** The inner loop over one candidate's keys. */
  method FileCandidate(c: Candidate, blocks: map<BlockKey, set<Id>>, order: seq<BlockKey>, reasons: map<BlockKey, Reason>)
    returns (blocks': map<BlockKey, set<Id>>, order': seq<BlockKey>, reasons': map<BlockKey, Reason>)
    requires (forall k :: k in blocks <==> k in order) && Explained(blocks, reasons)
    ensures (forall k :: k in blocks' <==> k in order') && Explained(blocks', reasons')
    ensures Added(blocks, blocks', KeySet(Keys(c)), c.id)
  {
    blocks', order', reasons' := blocks, order, reasons;
    var keys := Keys(c);
    for j := 0 to |keys|
      invariant (forall k :: k in blocks' <==> k in order') && Explained(blocks', reasons')
      invariant Added(blocks, blocks', KeySet(keys[..j]), c.id)
    {
      var (key, reason) := keys[j];
      KeysExplained(c, j);
      KeySetAppend(keys[..j], keys[j]);
      assert keys[..j + 1] == keys[..j] + [keys[j]];
      AddedOne(blocks, blocks', KeySet(keys[..j]), c.id, key);
      if key !in blocks' {
        order' := order' + [key];
      }
      blocks' := blocks'[key := BlockOf(blocks', key) + {c.id}];
      reasons' := reasons'[key := reason];
    }
    assert keys[..|keys|] == keys;
  }

  method FileKeys(candidates: seq<Candidate>)
    returns (blocks: map<BlockKey, set<Id>>, order: seq<BlockKey>, reasons: map<BlockKey, Reason>)
    ensures Filed(candidates, blocks, order) && Explained(blocks, reasons)
  {
    blocks, order, reasons := map[], [], map[];
    for i := 0 to |candidates|
      invariant Filed(candidates[..i], blocks, order) && Explained(blocks, reasons)
    {
      forall k {
        MembersAppend(candidates[..i], candidates[i], k);
      }
      assert candidates[..i + 1] == candidates[..i] + [candidates[i]];
      blocks, order, reasons := FileCandidate(candidates[i], blocks, order, reasons);
    }
    assert candidates[..|candidates|] == candidates;
  }

  /** One group for each covered signature. */
  ghost predicate GroupsCover(covered: set<seq<Id>>, groups: seq<Group>) {
    && (forall i :: 0 <= i < |groups| ==> groups[i].ids in covered)
    && (forall ids <- covered :: HasGroup(groups, ids))
    && (forall i, j :: 0 <= i < j < |groups| ==> groups[i].ids != groups[j].ids)
  }

  lemma GroupsCoverSnoc(covered: set<seq<Id>>, groups: seq<Group>, g: Group)
    requires GroupsCover(covered, groups) && g.ids !in covered
    ensures GroupsCover(covered + {g.ids}, groups + [g])
  {
    var more := groups + [g];
    forall i, j | 0 <= i < j < |more| ensures more[i].ids != more[j].ids {
      assert more[i] == groups[i] && (j < |groups| ==> more[j] == groups[j]);
    }
    forall ids <- covered + {g.ids} ensures HasGroup(more, ids) {
      if ids == g.ids {
        assert more[|groups|].ids == ids;
      } else {
        var i :| 0 <= i < |groups| && groups[i].ids == ids;
        assert more[i].ids == ids;
      }
    }
  }

  /** Progress of the deduplication over the first keys of the block dictionary. */
  ghost predicate Deduplicated(candidates: seq<Candidate>, keys: seq<BlockKey>, covered: set<seq<Id>>, groups: seq<Group>) {
    && GroupsCover(covered, groups)
    && (forall i :: 0 <= i < |groups| ==> IsBlock(candidates, groups[i]))
    && (forall k <- keys | |Members(candidates, k)| >= 2 :: Sorted(Members(candidates, k)) in covered)
  }

  lemma DeduplicatedSnoc(candidates: seq<Candidate>, keys: seq<BlockKey>, covered: set<seq<Id>>, groups: seq<Group>,
                         k: BlockKey, g: Group)
    requires Deduplicated(candidates, keys, covered, groups) && BlockIds(candidates, k, g.ids) && g.ids !in covered
    requires g.reason == ReasonOf(k)
    ensures Deduplicated(candidates, keys + [k], covered + {g.ids}, groups + [g])
  {
    assert IsBlock(candidates, g) && Sorted(Members(candidates, k)) == g.ids;
    GroupsCoverSnoc(covered, groups, g);
    hide IsBlock, BlockIds, Members, Sorted, GroupsCover;
  }

  lemma DeduplicatedSkip(candidates: seq<Candidate>, keys: seq<BlockKey>, covered: set<seq<Id>>, groups: seq<Group>, k: BlockKey)
    requires Deduplicated(candidates, keys, covered, groups)
    requires |Members(candidates, k)| < 2 || Sorted(Members(candidates, k)) in covered
    ensures Deduplicated(candidates, keys + [k], covered, groups)
  {
  }

  lemma DeduplicatedAll(candidates: seq<Candidate>, keys: seq<BlockKey>, covered: set<seq<Id>>, groups: seq<Group>)
    requires Deduplicated(candidates, keys, covered, groups)
    requires forall k :: Members(candidates, k) != {} ==> k in keys
    ensures GroupsExactly(candidates, groups)
  {
  }

  method BuildGroups(candidates: seq<Candidate>) returns (groups: seq<Group>)
    ensures GroupsExactly(candidates, groups)
  {
    var blocks, order, reasons := FileKeys(candidates);
    var covered: set<seq<Id>> := {};
    groups := [];
    for i := 0 to |order|
      invariant Deduplicated(candidates, order[..i], covered, groups)
    {
      assert order[..i + 1] == order[..i] + [order[i]];
      var ids := blocks[order[i]];
      assert ids == BlockOf(blocks, order[i]) == Members(candidates, order[i]);
      var signature := Sorted(ids);
      if |ids| < 2 || signature in covered {
        DeduplicatedSkip(candidates, order[..i], covered, groups, order[i]);
        continue;
      }
      DeduplicatedSnoc(candidates, order[..i], covered, groups, order[i], Group(signature, reasons[order[i]]));
      covered, groups := covered + {signature}, groups + [Group(signature, reasons[order[i]])];
    }
    assert order[..|order|] == order;
    forall k ensures Members(candidates, k) != {} ==> k in order {
      assert BlockOf(blocks, k) == Members(candidates, k);
    }
    DeduplicatedAll(candidates, order, covered, groups);
  }

  /** combinations(group.candidate_ids, 2) over all groups. */
  ghost predicate Compared(groups: seq<Group>, a: Id, b: Id) {
    exists i :: 0 <= i < |groups| && (a, b) in Combinations(groups[i].ids)
  }

  ghost predicate BlockedTogether(candidates: seq<Candidate>, a: Id, b: Id) {
    exists c <- candidates, d <- candidates :: c.id == a && d.id == b && SharesKey(c, d)
  }

  lemma TwoMembers(s: set<Id>, a: Id, b: Id)
    requires a in s && b in s && a != b
    ensures |s| >= 2
  {
    var rest := s - {a, b};
    assert s == {a, b} + rest;
  }

  lemma BlockedIffMembers(candidates: seq<Candidate>, a: Id, b: Id)
    ensures BlockedTogether(candidates, a, b) <==>
            exists k :: a in Members(candidates, k) && b in Members(candidates, k)
  {
    if BlockedTogether(candidates, a, b) {
      var c, d :| c in candidates && d in candidates && c.id == a && d.id == b && SharesKey(c, d);
      SharesKeyIff(c, d);
      var k :| k in KeySet(Keys(c)) && k in KeySet(Keys(d));
      assert a in Members(candidates, k) && b in Members(candidates, k);
    }
    if k :| a in Members(candidates, k) && b in Members(candidates, k) {
      var c :| c in candidates && k in KeySet(Keys(c)) && c.id == a;
      var d :| d in candidates && k in KeySet(Keys(d)) && d.id == b;
      SharesKeyIff(c, d);
    }
  }

  lemma PairsOfSorted(s: set<Id>, a: Id, b: Id)
    ensures (a, b) in Combinations(Sorted(s)) <==> a in s && b in s && a < b
  {
    SortedFacts(s);
    AscendingPairs(Sorted(s), a, b);
  }

  /** A pair is compared exactly when its candidates share a key, and always smaller id first; dropping repeated
      signatures loses none. */
  lemma ComparedIff(candidates: seq<Candidate>, groups: seq<Group>, a: Id, b: Id)
    requires GroupsExactly(candidates, groups)
    ensures Compared(groups, a, b) <==> a < b && BlockedTogether(candidates, a, b)
  {
    BlockedIffMembers(candidates, a, b);
    if Compared(groups, a, b) {
      var i :| 0 <= i < |groups| && (a, b) in Combinations(groups[i].ids);
      assert IsBlock(candidates, groups[i]);
      var k :| BlockIds(candidates, k, groups[i].ids);
      PairsOfSorted(Members(candidates, k), a, b);
    }
    if a < b && BlockedTogether(candidates, a, b) {
      var k :| a in Members(candidates, k) && b in Members(candidates, k);
      TwoMembers(Members(candidates, k), a, b);
      PairsOfSorted(Members(candidates, k), a, b);
      var ids := Sorted(Members(candidates, k));
      assert BlockIds(candidates, k, ids);
      assert HasGroup(groups, ids);
    }
  }

  // ---------------------------------------------------------------------------------------------
  // Matching

  datatype Relation = SAME_ENTITY | DIFFERENT | BRANCH_OF | SUBSIDIARY_OF | OFFICE_OF | STORE_OF | POSSIBLY_RELATED

  datatype Decision = Decision(left: Id, right: Id, relation: Relation)

  /** Two credit codes decide the pair; `rest` stands for every later rule of the matcher. */
  function Match(rest: (Candidate, Candidate) -> Relation, left: Candidate, right: Candidate): Relation {
    if left.code.Some? && right.code.Some? then
      if left.code.value != right.code.value then DIFFERENT else SAME_ENTITY
    else rest(left, right)
  }

  /** The repository keys candidates by id, so equal ids are one candidate. */
  ghost predicate Coherent(candidates: seq<Candidate>) {
    forall c <- candidates, d <- candidates :: c.id == d.id ==> c == d
  }

  function Ids(candidates: seq<Candidate>): set<Id> {
    set c | c in candidates :: c.id
  }

  /** The last candidate with the id, as the by_id dictionary finds it. */
  function ById(candidates: seq<Candidate>, id: Id): (c: Candidate)
    requires id in Ids(candidates)
    ensures c in candidates && c.id == id
  {
    if candidates[|candidates| - 1].id == id then candidates[|candidates| - 1] else ById(candidates[..|candidates| - 1], id)
  }

  /** The pairs that ought to be united: candidates sharing a key, smaller id first, that the matcher calls the same. */
  ghost predicate Same(candidates: seq<Candidate>, rest: (Candidate, Candidate) -> Relation, a: Id, b: Id) {
    a < b && exists c <- candidates, d <- candidates ::
      c.id == a && d.id == b && SharesKey(c, d) && Match(rest, c, d) == SAME_ENTITY
  }

  ghost function SamePairs(candidates: seq<Candidate>, rest: (Candidate, Candidate) -> Relation): set<(Id, Id)> {
    set a, b | a in Ids(candidates) && b in Ids(candidates) && Same(candidates, rest, a, b) :: (a, b)
  }

  /** Same-enterprise means connected by such pairs. */
  ghost predicate SameEntity(candidates: seq<Candidate>, rest: (Candidate, Candidate) -> Relation, a: Id, b: Id) {
    Connected(SamePairs(candidates, rest), a, b)
  }

  function United(decisions: seq<Decision>): set<(Id, Id)> {
    set d | d in decisions && d.relation == SAME_ENTITY :: (d.left, d.right)
  }

  /** The decisions taken so far are the matcher's on the pairs compared so far. */
  ghost predicate DecidedExactly(candidates: seq<Candidate>, rest: (Candidate, Candidate) -> Relation,
                                 compared: set<(Id, Id)>, decisions: seq<Decision>)
  {
    && (forall d <- decisions ::
          (d.left, d.right) in compared && d.left in Ids(candidates) && d.right in Ids(candidates)
          && d.relation == Match(rest, ById(candidates, d.left), ById(candidates, d.right)))
    && (forall p <- compared :: exists d <- decisions :: d.left == p.0 && d.right == p.1)
  }

  lemma UnitedAppend(decisions: seq<Decision>, d: Decision)
    ensures United(decisions + [d]) == United(decisions) + (if d.relation == SAME_ENTITY then {(d.left, d.right)} else {})
  {
  }

  lemma GroupPairs(candidates: seq<Candidate>, groups: seq<Group>, i: nat, a: Id, b: Id)
    requires GroupsExactly(candidates, groups) && i < |groups| && (a, b) in Combinations(groups[i].ids)
    ensures a in Ids(candidates) && b in Ids(candidates)
  {
    assert Compared(groups, a, b);
    ComparedIff(candidates, groups, a, b);
  }

  /** All groups compared: the united pairs are exactly the same-entity pairs, however often a pair came up. */
  lemma UnitedAll(candidates: seq<Candidate>, rest: (Candidate, Candidate) -> Relation, groups: seq<Group>,
                  compared: set<(Id, Id)>, decisions: seq<Decision>)
    requires Coherent(candidates) && GroupsExactly(candidates, groups)
    requires forall a, b :: (a, b) in compared <==> Compared(groups, a, b)
    requires DecidedExactly(candidates, rest, compared, decisions)
    ensures United(decisions) == SamePairs(candidates, rest)
  {
    hide GroupsExactly, Compared, SharesKey, Match;
    forall a, b ensures (a, b) in United(decisions) <==> (a, b) in SamePairs(candidates, rest) {
      ComparedIff(candidates, groups, a, b);
      if (a, b) in United(decisions) {
        var d :| d in decisions && d.relation == SAME_ENTITY && (d.left, d.right) == (a, b);
        assert (a, b) in compared;
        var c, e :| c in candidates && e in candidates && c.id == a && e.id == b && SharesKey(c, e);
        assert ById(candidates, a) == c && ById(candidates, b) == e;
        assert Same(candidates, rest, a, b);
      }
      if (a, b) in SamePairs(candidates, rest) {
        assert Same(candidates, rest, a, b);
        var c, e :| c in candidates && e in candidates && c.id == a && e.id == b && SharesKey(c, e)
                    && Match(rest, c, e) == SAME_ENTITY;
        assert BlockedTogether(candidates, a, b);
        assert (a, b) in compared;
        var p := (a, b);
        var d :| d in decisions && d.left == p.0 && d.right == p.1;
        assert ById(candidates, a) == c && ById(candidates, b) == e;
      }
    }
  }

  /** One pair: match it, record the decision, unite the candidates if they are the same. */
  method DecidePair(candidates: seq<Candidate>, rest: (Candidate, Candidate) -> Relation, clusters: Clusters,
                    decisions: seq<Decision>, left: Id, right: Id) returns (decision: Decision)
    requires clusters.Valid() && clusters.RepOf().Keys == Ids(candidates)
    requires left in Ids(candidates) && right in Ids(candidates)
    requires Exact(clusters.RepOf(), United(decisions))
    modifies clusters
    ensures decision == Decision(left, right, Match(rest, ById(candidates, left), ById(candidates, right)))
    ensures clusters.Valid() && clusters.RepOf().Keys == Ids(candidates)
    ensures Exact(clusters.RepOf(), United(decisions + [decision]))
  {
    decision := Decision(left, right, Match(rest, ById(candidates, left), ById(candidates, right)));
    UnitedAppend(decisions, decision);
    if decision.relation == SAME_ENTITY {
      ghost var before := clusters.RepOf();
      clusters.Union(left, right);
      ExactAfterUnion(before, clusters.RepOf(), United(decisions), left, right);
    } else {
      assert United(decisions + [decision]) == United(decisions);
    }
  }

  lemma ComparedSnoc(groups: seq<Group>, i: nat)
    requires i < |groups|
    ensures forall a, b :: Compared(groups[..i + 1], a, b) <==>
                           Compared(groups[..i], a, b) || (a, b) in Combinations(groups[i].ids)
  {
    forall a, b ensures Compared(groups[..i + 1], a, b) <==>
                        Compared(groups[..i], a, b) || (a, b) in Combinations(groups[i].ids)
    {
      if Compared(groups[..i + 1], a, b) {
        var k :| 0 <= k < i + 1 && (a, b) in Combinations(groups[..i + 1][k].ids);
        assert k < i ==> groups[..i][k] == groups[..i + 1][k];
      }
      if Compared(groups[..i], a, b) {
        var k :| 0 <= k < i && (a, b) in Combinations(groups[..i][k].ids);
        assert groups[..i + 1][k] == groups[..i][k];
      }
      assert groups[..i + 1][i] == groups[i];
    }
  }

  lemma DecidedSnoc(candidates: seq<Candidate>, rest: (Candidate, Candidate) -> Relation,
                    compared: set<(Id, Id)>, decisions: seq<Decision>, d: Decision)
    requires DecidedExactly(candidates, rest, compared, decisions)
    requires d.left in Ids(candidates) && d.right in Ids(candidates)
    requires d.relation == Match(rest, ById(candidates, d.left), ById(candidates, d.right))
    ensures DecidedExactly(candidates, rest, compared + {(d.left, d.right)}, decisions + [d])
  {
    var more := decisions + [d];
    forall p <- compared + {(d.left, d.right)} ensures exists e <- more :: e.left == p.0 && e.right == p.1 {
      if p in compared {
        var e :| e in decisions && e.left == p.0 && e.right == p.1;
        assert e in more;
      } else {
        assert d in more;
      }
    }
  }

  function PairSet<T>(pairs: seq<T>): set<T> {
    set p | p in pairs
  }

  lemma PairSetAppend<T>(pairs: seq<T>, j: nat)
    requires j < |pairs|
    ensures PairSet(pairs[..j + 1]) == PairSet(pairs[..j]) + {pairs[j]}
  {
    assert pairs[..j + 1] == pairs[..j] + [pairs[j]];
  }

  /** All pairs of one group. */
  method CompareGroup(candidates: seq<Candidate>, rest: (Candidate, Candidate) -> Relation, clusters: Clusters,
                      pairs: seq<(Id, Id)>, decisions: seq<Decision>, ghost compared: set<(Id, Id)>) returns (more: seq<Decision>)
    requires clusters.Valid() && clusters.RepOf().Keys == Ids(candidates)
    requires Exact(clusters.RepOf(), United(decisions)) && DecidedExactly(candidates, rest, compared, decisions)
    requires forall p <- pairs :: p.0 in Ids(candidates) && p.1 in Ids(candidates)
    modifies clusters
    ensures clusters.Valid() && clusters.RepOf().Keys == Ids(candidates)
    ensures Exact(clusters.RepOf(), United(more))
    ensures DecidedExactly(candidates, rest, compared + PairSet(pairs), more)
  {
    more := decisions;
    ghost var done := compared;
    for j := 0 to |pairs|
      invariant clusters.Valid() && clusters.RepOf().Keys == Ids(candidates)
      invariant Exact(clusters.RepOf(), United(more))
      invariant DecidedExactly(candidates, rest, done, more)
      invariant done == compared + PairSet(pairs[..j])
    {
      var pair := pairs[j];
      PairSetAppend(pairs, j);
      var decision := DecidePair(candidates, rest, clusters, more, pair.0, pair.1);
      DecidedSnoc(candidates, rest, done, more, decision);
      more := more + [decision];
      done := done + {pair};
    }
    assert pairs[..|pairs|] == pairs;
  }

  /** Match every pair of every group and unite the SAME_ENTITY ones. */
  method UniteAll(candidates: seq<Candidate>, rest: (Candidate, Candidate) -> Relation)
    returns (clusters: Clusters, decisions: seq<Decision>)
    requires Coherent(candidates)
    ensures fresh(clusters) && clusters.Valid() && clusters.RepOf().Keys == Ids(candidates)
    ensures Exact(clusters.RepOf(), SamePairs(candidates, rest))
    ensures United(decisions) == SamePairs(candidates, rest)
  {
    clusters := new Clusters(Ids(candidates));
    decisions := [];
    ghost var compared: set<(Id, Id)> := {};
    ExactAtStart(clusters.RepOf());
    assert United(decisions) == {};
    var groups := BuildGroups(candidates);
    for i := 0 to |groups|
      invariant fresh(clusters) && clusters.Valid() && clusters.RepOf().Keys == Ids(candidates)
      invariant Exact(clusters.RepOf(), United(decisions))
      invariant DecidedExactly(candidates, rest, compared, decisions)
      invariant forall a, b :: (a, b) in compared <==> Compared(groups[..i], a, b)
    {
      forall p <- Combinations(groups[i].ids) ensures p.0 in Ids(candidates) && p.1 in Ids(candidates) {
        GroupPairs(candidates, groups, i, p.0, p.1);
      }
      decisions := CompareGroup(candidates, rest, clusters, Combinations(groups[i].ids), decisions, compared);
      compared := compared + PairSet(Combinations(groups[i].ids));
      ComparedSnoc(groups, i);
    }
    assert groups[..|groups|] == groups;
    UnitedAll(candidates, rest, groups, compared, decisions);
  }

  // ---------------------------------------------------------------------------------------------
  // Enterprises

  datatype EntityType = BRANCH | OFFICE | LEGAL_ENTITY

  datatype Enterprise = Enterprise(
    name: Id, code: Option<Id>, region: Option<Id>, entityType: EntityType, members: seq<Id>)

  /** The clusters in dictionary order, one enterprise each, and every candidate's cluster. */
  datatype Resolved = Resolved(clusters: seq<seq<Candidate>>, enterprises: seq<Enterprise>, enterpriseOf: map<Id, nat>)

  /** Tuple order on (has a credit code, name length). */
  predicate Better(c: Candidate, d: Candidate) {
    if c.code.Some? != d.code.Some? then c.code.Some? else c.nameLength > d.nameLength
  }

  /** max(cluster, key=...): the first of the best. */
  function Primary(cluster: seq<Candidate>): (c: Candidate)
    requires cluster != []
    ensures c in cluster && forall d <- cluster :: !Better(d, c)
  {
    if |cluster| == 1 then cluster[0]
    else
      var n := |cluster| - 1;
      var best := Primary(cluster[..n]);
      assert cluster == cluster[..n] + [cluster[n]];
      if Better(cluster[n], best) then cluster[n] else best
  }

  function EnterpriseFor(cluster: seq<Candidate>): Enterprise
    requires cluster != []
  {
    var primary := Primary(cluster);
    Enterprise(
      primary.name, primary.code, primary.region,
      if exists c <- cluster :: c.branchName then BRANCH
      else if exists c <- cluster :: c.officeName then OFFICE else LEGAL_ENTITY,
      seq(|cluster|, i requires 0 <= i < |cluster| => cluster[i].id))
  }

  /** The candidates with a representative, in input order. */
  function ClassOf(candidates: seq<Candidate>, reps: map<Id, Id>, r: Id): seq<Candidate> {
    if candidates == [] then []
    else
      var n := |candidates| - 1;
      var c := candidates[n];
      ClassOf(candidates[..n], reps, r) + (if c.id in reps && reps[c.id] == r then [c] else [])
  }

  lemma {:induction false} ClassOfMember(candidates: seq<Candidate>, reps: map<Id, Id>, r: Id, c: Candidate)
    ensures c in ClassOf(candidates, reps, r) <==> c in candidates && c.id in reps && reps[c.id] == r
  {
    if candidates != [] {
      var n := |candidates| - 1;
      ClassOfMember(candidates[..n], reps, r, c);
      assert candidates == candidates[..n] + [candidates[n]];
    }
  }

  function ListAt(byRoot: map<Id, seq<Candidate>>, r: Id): seq<Candidate> {
    if r in byRoot then byRoot[r] else []
  }

  /** The dictionary of clusters after filing some candidates: non-empty classes by representative, keys in order. */
  ghost predicate Gathered(candidates: seq<Candidate>, reps: map<Id, Id>, byRoot: map<Id, seq<Candidate>>, order: seq<Id>) {
    && KeysInOrder(byRoot, order)
    && (forall r :: ListAt(byRoot, r) == ClassOf(candidates, reps, r))
    && (forall r <- byRoot :: byRoot[r] != [])
    && FirstComeFirst(candidates, reps, order)
  }

  /** The candidate at this place belongs to the class. */
  predicate InClass(candidates: seq<Candidate>, reps: map<Id, Id>, n: int, r: Id)
    requires 0 <= n < |candidates|
  {
    candidates[n].id in reps && reps[candidates[n].id] == r
  }

  /** Before every candidate of class q comes one of class r. */
  ghost predicate Precedes(candidates: seq<Candidate>, of: map<Id, Id>, r: Id, q: Id) {
    forall n :: 0 <= n < |candidates| && InClass(candidates, of, n, q) ==> HasEarlier(candidates, of, n, r)
  }

  ghost predicate HasEarlier(candidates: seq<Candidate>, of: map<Id, Id>, n: int, r: Id)
    requires 0 <= n <= |candidates|
  {
    exists m :: 0 <= m < n && InClass(candidates, of, m, r)
  }

  /** Keys come in the order of their first candidates. */
  ghost predicate FirstComeFirst(candidates: seq<Candidate>, reps: map<Id, Id>, order: seq<Id>) {
    forall i, j :: 0 <= i < j < |order| ==> Precedes(candidates, reps, order[i], order[j])
  }

  lemma ClassOfSnoc(candidates: seq<Candidate>, reps: map<Id, Id>, r: Id, c: Candidate)
    ensures ClassOf(candidates + [c], reps, r)
            == ClassOf(candidates, reps, r) + (if c.id in reps && reps[c.id] == r then [c] else [])
  {
    assert (candidates + [c])[..|candidates|] == candidates;
  }

  /** A dictionary's keys in insertion order. */
  ghost predicate KeysInOrder(byRoot: map<Id, seq<Candidate>>, order: seq<Id>) {
    && (forall r :: r in byRoot <==> r in order)
    && (forall i, j :: 0 <= i < j < |order| ==> order[i] != order[j])
  }

  lemma KeysInOrderSnoc(byRoot: map<Id, seq<Candidate>>, order: seq<Id>, r: Id, members: seq<Candidate>)
    requires KeysInOrder(byRoot, order)
    ensures KeysInOrder(byRoot[r := members], if r in byRoot then order else order + [r])
  {
    var order' := if r in byRoot then order else order + [r];
    forall i, j | 0 <= i < j < |order'| ensures order'[i] != order'[j] {
      assert order'[i] == order[i] && order[i] in order;
    }
  }

  lemma ClassAt(candidates: seq<Candidate>, reps: map<Id, Id>, r: Id)
    ensures ClassOf(candidates, reps, r) != [] <==> HasEarlier(candidates, reps, |candidates|, r)
  {
    if ClassOf(candidates, reps, r) != [] {
      var c := ClassOf(candidates, reps, r)[0];
      ClassOfMember(candidates, reps, r, c);
      var m :| 0 <= m < |candidates| && candidates[m] == c;
      assert InClass(candidates, reps, m, r);
    }
    if m :| 0 <= m < |candidates| && InClass(candidates, reps, m, r) {
      ClassOfMember(candidates, reps, r, candidates[m]);
    }
  }

  lemma StillEarlier(candidates: seq<Candidate>, of: map<Id, Id>, n: nat, r: Id, c: Candidate)
    requires n <= |candidates| && HasEarlier(candidates, of, n, r)
    ensures HasEarlier(candidates + [c], of, n, r)
  {
    var m :| 0 <= m < n && InClass(candidates, of, m, r);
    assert InClass(candidates + [c], of, m, r);
  }

  /** One candidate more, of a class that comes after r or has candidates already. */
  lemma StillPrecedes(candidates: seq<Candidate>, of: map<Id, Id>, r: Id, q: Id, c: Candidate)
    requires HasEarlier(candidates, of, |candidates|, r)
    requires HasEarlier(candidates, of, |candidates|, q) ==> Precedes(candidates, of, r, q)
    ensures Precedes(candidates + [c], of, r, q)
  {
    var more := candidates + [c];
    forall n | 0 <= n < |more| && InClass(more, of, n, q) ensures HasEarlier(more, of, n, r) {
      if n < |candidates| {
        assert InClass(candidates, of, n, q);
        StillEarlier(candidates, of, n, r, c);
      } else {
        StillEarlier(candidates, of, |candidates|, r, c);
      }
    }
  }

  lemma FirstComeFirstSnoc(candidates: seq<Candidate>, reps: map<Id, Id>, order: seq<Id>, c: Candidate)
    requires FirstComeFirst(candidates, reps, order) && c.id in reps
    requires forall r :: r in order <==> ClassOf(candidates, reps, r) != []
    ensures FirstComeFirst(candidates + [c], reps, if reps[c.id] in order then order else order + [reps[c.id]])
  {
    var order' := if reps[c.id] in order then order else order + [reps[c.id]];
    hide ClassOf, Precedes, HasEarlier;
    forall i, j | 0 <= i < j < |order'| ensures Precedes(candidates + [c], reps, order'[i], order'[j]) {
      assert order'[i] == order[i] && order[i] in order;
      ClassAt(candidates, reps, order'[i]);
      ClassAt(candidates, reps, order'[j]);
      StillPrecedes(candidates, reps, order'[i], order'[j], c);
    }
  }

  lemma GatheredSnoc(candidates: seq<Candidate>, reps: map<Id, Id>, byRoot: map<Id, seq<Candidate>>, order: seq<Id>, c: Candidate)
    requires Gathered(candidates, reps, byRoot, order) && c.id in reps
    ensures var r := reps[c.id];
            Gathered(candidates + [c], reps, byRoot[r := ListAt(byRoot, r) + [c]], if r in byRoot then order else order + [r])
  {
    var r := reps[c.id];
    KeysInOrderSnoc(byRoot, order, r, ListAt(byRoot, r) + [c]);
    ListedWhenFilled(candidates, reps, byRoot, order);
    hide ClassOf, KeysInOrder, FirstComeFirst;
    FirstComeFirstSnoc(candidates, reps, order, c);
    FiledInClass(candidates, reps, byRoot, c);
    assert r in byRoot <==> r in order;
    hide ListAt;
  }

  lemma ListedWhenFilled(candidates: seq<Candidate>, reps: map<Id, Id>, byRoot: map<Id, seq<Candidate>>, order: seq<Id>)
    requires Gathered(candidates, reps, byRoot, order)
    ensures forall q :: q in order <==> ClassOf(candidates, reps, q) != []
    ensures forall q :: q in order <==> q in byRoot
  {
    hide ClassOf, FirstComeFirst;
    forall q ensures q in order <==> ClassOf(candidates, reps, q) != [] {
      assert ListAt(byRoot, q) == ClassOf(candidates, reps, q);
    }
  }

  lemma FiledInClass(candidates: seq<Candidate>, reps: map<Id, Id>, byRoot: map<Id, seq<Candidate>>, c: Candidate)
    requires c.id in reps && forall q :: ListAt(byRoot, q) == ClassOf(candidates, reps, q)
    requires forall q <- byRoot :: byRoot[q] != []
    ensures var r := reps[c.id];
            var byRoot' := byRoot[r := ListAt(byRoot, r) + [c]];
            (forall q :: ListAt(byRoot', q) == ClassOf(candidates + [c], reps, q)) && forall q <- byRoot' :: byRoot'[q] != []
  {
    hide ClassOf;
    var r := reps[c.id];
    var byRoot' := byRoot[r := ListAt(byRoot, r) + [c]];
    forall q ensures ListAt(byRoot', q) == ClassOf(candidates + [c], reps, q) {
      ClassOfSnoc(candidates, reps, q, c);
      assert q != r ==> ListAt(byRoot', q) == ListAt(byRoot, q);
    }
  }

  lemma NothingGathered(reps: map<Id, Id>)
    ensures Gathered([], reps, map[], [])
  {
  }

  /** clusters.setdefault(find(id), []).append(item), with the dictionary's key order. */
  method Gather(candidates: seq<Candidate>, clusters: Clusters) returns (byRoot: map<Id, seq<Candidate>>, order: seq<Id>)
    requires clusters.Valid() && clusters.RepOf().Keys == Ids(candidates)
    modifies clusters
    ensures clusters.Valid() && clusters.RepOf() == old(clusters.RepOf())
    ensures Gathered(candidates, clusters.RepOf(), byRoot, order)
  {
    ghost var reps := clusters.RepOf();
    byRoot, order := map[], [];
    NothingGathered(reps);
    assert forall i :: 0 <= i < |candidates| ==> candidates[i].id in reps;
    assert candidates[..0] == [];
    hide *;
    for i := 0 to |candidates|
      invariant clusters.Valid() && clusters.RepOf() == reps
      invariant Gathered(candidates[..i], reps, byRoot, order)
    {
      assert candidates[..i + 1] == candidates[..i] + [candidates[i]];
      GatheredSnoc(candidates[..i], reps, byRoot, order, candidates[i]);
      var r := clusters.Find(candidates[i].id);
      if r !in byRoot {
        order := order + [r];
      }
      byRoot := byRoot[r := ListAt(byRoot, r) + [candidates[i]]];
    }
    assert candidates[..|candidates|] == candidates;
  }

  /** One more cluster: its enterprise, and every member's entry in enterprise_by_candidate. */
  function WithCluster(res: Resolved, cluster: seq<Candidate>): Resolved
    requires cluster != []
  {
    Resolved(res.clusters + [cluster], res.enterprises + [EnterpriseFor(cluster)],
             res.enterpriseOf + map x | x in Ids(cluster) :: |res.clusters|)
  }

  /** What is known of the enterprises built for the first clusters. */
  ghost predicate Built(candidates: seq<Candidate>, reps: map<Id, Id>, order: seq<Id>, res: Resolved) {
    && |res.clusters| == |res.enterprises| == |order|
    && (forall i :: 0 <= i < |order| ==>
          res.clusters[i] == ClassOf(candidates, reps, order[i]) && res.clusters[i] != []
          && res.enterprises[i] == EnterpriseFor(res.clusters[i]))
    && (forall x :: x in res.enterpriseOf <==> x in reps && reps[x] in order)
    && (forall x <- res.enterpriseOf :: res.enterpriseOf[x] < |order| && order[res.enterpriseOf[x]] == reps[x])
  }

  lemma ClassIds(candidates: seq<Candidate>, reps: map<Id, Id>, r: Id)
    requires reps.Keys == Ids(candidates)
    ensures forall x :: x in Ids(ClassOf(candidates, reps, r)) <==> x in reps && reps[x] == r
  {
    forall x ensures x in Ids(ClassOf(candidates, reps, r)) <==> x in reps && reps[x] == r {
      if x in Ids(ClassOf(candidates, reps, r)) {
        var c :| c in ClassOf(candidates, reps, r) && c.id == x;
        ClassOfMember(candidates, reps, r, c);
      }
      if x in reps && reps[x] == r {
        var c :| c in candidates && c.id == x;
        ClassOfMember(candidates, reps, r, c);
      }
    }
  }

  lemma BuiltSnoc(candidates: seq<Candidate>, reps: map<Id, Id>, order: seq<Id>, r: Id, res: Resolved)
    requires Built(candidates, reps, order, res) && reps.Keys == Ids(candidates) && r !in order
    requires ClassOf(candidates, reps, r) != []
    ensures Built(candidates, reps, order + [r], WithCluster(res, ClassOf(candidates, reps, r)))
  {
    var cluster, more := ClassOf(candidates, reps, r), order + [r];
    var Resolved(clusters, enterprises, enterpriseOf) := WithCluster(res, cluster);
    var of := map x | x in Ids(cluster) :: |order|;
    ClassIds(candidates, reps, r);
    forall x ensures x in enterpriseOf <==> x in reps && reps[x] in more {
      assert x in of <==> x in reps && reps[x] == r;
    }
    forall x <- enterpriseOf ensures enterpriseOf[x] < |more| && more[enterpriseOf[x]] == reps[x] {
      assert x in of <==> reps[x] == r;
    }
    forall i | 0 <= i < |more|
      ensures clusters[i] == ClassOf(candidates, reps, more[i]) && clusters[i] != []
              && enterprises[i] == EnterpriseFor(clusters[i])
    {
      if i < |order| {
        assert clusters[i] == res.clusters[i] && enterprises[i] == res.enterprises[i] && more[i] == order[i];
      }
    }
  }

  /** Every candidate has exactly one enterprise; two candidates share it exactly when SAME_ENTITY decisions connect
      them; and each enterprise is made from precisely its candidates. */
  ghost predicate Resolves(candidates: seq<Candidate>, rest: (Candidate, Candidate) -> Relation, res: Resolved) {
    && res.enterpriseOf.Keys == Ids(candidates) && |res.clusters| == |res.enterprises|
    && (forall x <- res.enterpriseOf :: res.enterpriseOf[x] < |res.enterprises|)
    && (forall x <- res.enterpriseOf, y <- res.enterpriseOf ::
          res.enterpriseOf[x] == res.enterpriseOf[y] <==> SameEntity(candidates, rest, x, y))
    && (forall i :: 0 <= i < |res.clusters| ==>
          res.clusters[i] != [] && res.enterprises[i] == EnterpriseFor(res.clusters[i]))
    && (forall i, c :: 0 <= i < |res.clusters| ==>
          (c in res.clusters[i] <==> c in candidates && c.id in res.enterpriseOf && res.enterpriseOf[c.id] == i))
    && (forall i :: 0 <= i < |res.clusters| ==> res.clusters[i] == ClassOf(candidates, res.enterpriseOf, i))
    && ByFirstMember(candidates, res)
  }

  /** Enterprises come in the order of their first candidates. */
  ghost predicate ByFirstMember(candidates: seq<Candidate>, res: Resolved) {
    forall i, j :: 0 <= i < j < |res.enterprises| ==> Precedes(candidates, res.enterpriseOf, i, j)
  }

  /** EntityResolutionService.resolve. */
  method Resolve(candidates: seq<Candidate>, rest: (Candidate, Candidate) -> Relation) returns (res: Resolved)
    requires Coherent(candidates)
    ensures Resolves(candidates, rest, res)
  {
    var clusters, decisions := UniteAll(candidates, rest);
    var byRoot, order := Gather(candidates, clusters);
    ghost var reps := clusters.RepOf();
    res := Resolved([], [], map[]);
    for i := 0 to |order|
      invariant Built(candidates, reps, order[..i], res)
    {
      hide *;
      GatheredAt(candidates, reps, byRoot, order, i);
      BuiltSnoc(candidates, reps, order[..i], order[i], res);
      res := WithCluster(res, byRoot[order[i]]);
    }
    assert order[..|order|] == order;
    hide *;
    BuiltResolves(candidates, rest, reps, byRoot, order, res);
  }

  lemma GatheredAt(candidates: seq<Candidate>, reps: map<Id, Id>, byRoot: map<Id, seq<Candidate>>, order: seq<Id>, i: nat)
    requires Gathered(candidates, reps, byRoot, order) && i < |order|
    ensures order[..i + 1] == order[..i] + [order[i]] && order[i] !in order[..i]
    ensures order[i] in byRoot && byRoot[order[i]] == ClassOf(candidates, reps, order[i]) && byRoot[order[i]] != []
  {
    assert order[i] in order && ListAt(byRoot, order[i]) == ClassOf(candidates, reps, order[i]);
  }

  lemma BuiltComplete(candidates: seq<Candidate>, reps: map<Id, Id>, byRoot: map<Id, seq<Candidate>>, order: seq<Id>, res: Resolved)
    requires Built(candidates, reps, order, res) && reps.Keys == Ids(candidates)
    requires Gathered(candidates, reps, byRoot, order)
    ensures res.enterpriseOf.Keys == reps.Keys
  {
    forall x <- reps ensures x in res.enterpriseOf {
      var c :| c in candidates && c.id == x;
      ClassOfMember(candidates, reps, reps[x], c);
      assert ListAt(byRoot, reps[x]) != [];
    }
    assert forall x :: x in res.enterpriseOf <==> x in reps;
  }

  lemma BuiltMembers(candidates: seq<Candidate>, reps: map<Id, Id>, order: seq<Id>, res: Resolved)
    requires Built(candidates, reps, order, res) && reps.Keys == Ids(candidates) == res.enterpriseOf.Keys
    requires forall i, j :: 0 <= i < j < |order| ==> order[i] != order[j]
    ensures forall i, c :: 0 <= i < |res.clusters| ==>
              (c in res.clusters[i] <==> c in candidates && c.id in res.enterpriseOf && res.enterpriseOf[c.id] == i)
  {
    hide EnterpriseFor;
    forall i, c | 0 <= i < |res.clusters|
      ensures c in res.clusters[i] <==> c in candidates && c.id in res.enterpriseOf && res.enterpriseOf[c.id] == i
    {
      ClassOfMember(candidates, reps, order[i], c);
    }
  }

  lemma BuiltShares(candidates: seq<Candidate>, rest: (Candidate, Candidate) -> Relation, reps: map<Id, Id>,
                    order: seq<Id>, res: Resolved)
    requires Built(candidates, reps, order, res) && reps.Keys == Ids(candidates)
    requires forall i, j :: 0 <= i < j < |order| ==> order[i] != order[j]
    requires Exact(reps, SamePairs(candidates, rest))
    ensures forall x <- res.enterpriseOf, y <- res.enterpriseOf ::
              res.enterpriseOf[x] == res.enterpriseOf[y] <==> SameEntity(candidates, rest, x, y)
  {
    hide EnterpriseFor, ClassOf;
    forall x <- res.enterpriseOf, y <- res.enterpriseOf
      ensures res.enterpriseOf[x] == res.enterpriseOf[y] <==> SameEntity(candidates, rest, x, y)
    {
      assert reps[x] == reps[y] <==> Connected(SamePairs(candidates, rest), x, y);
    }
  }

  lemma BuiltResolves(candidates: seq<Candidate>, rest: (Candidate, Candidate) -> Relation, reps: map<Id, Id>,
                      byRoot: map<Id, seq<Candidate>>, order: seq<Id>, res: Resolved)
    requires Built(candidates, reps, order, res) && reps.Keys == Ids(candidates)
    requires Gathered(candidates, reps, byRoot, order) && Exact(reps, SamePairs(candidates, rest))
    ensures Resolves(candidates, rest, res)
  {
    hide *;
    BuiltFacts(candidates, reps, byRoot, order, res);
    BuiltComplete(candidates, reps, byRoot, order, res);
    BuiltInOrder(candidates, reps, order, res);
    BuiltMembers(candidates, reps, order, res);
    BuiltShares(candidates, rest, reps, order, res);
    ResolvesIs(candidates, rest, res);
  }

  lemma BuiltFacts(candidates: seq<Candidate>, reps: map<Id, Id>, byRoot: map<Id, seq<Candidate>>, order: seq<Id>, res: Resolved)
    requires Built(candidates, reps, order, res) && Gathered(candidates, reps, byRoot, order)
    ensures FirstComeFirst(candidates, reps, order) && forall i, j :: 0 <= i < j < |order| ==> order[i] != order[j]
    ensures |res.clusters| == |res.enterprises| && (forall x <- res.enterpriseOf :: res.enterpriseOf[x] < |res.enterprises|)
    ensures forall i :: 0 <= i < |res.clusters| ==>
              res.clusters[i] != [] && res.enterprises[i] == EnterpriseFor(res.clusters[i])
  {
  }

  lemma ResolvesIs(candidates: seq<Candidate>, rest: (Candidate, Candidate) -> Relation, res: Resolved)
    requires res.enterpriseOf.Keys == Ids(candidates) && |res.clusters| == |res.enterprises|
    requires forall x <- res.enterpriseOf :: res.enterpriseOf[x] < |res.enterprises|
    requires forall x <- res.enterpriseOf, y <- res.enterpriseOf ::
               res.enterpriseOf[x] == res.enterpriseOf[y] <==> SameEntity(candidates, rest, x, y)
    requires forall i :: 0 <= i < |res.clusters| ==>
               res.clusters[i] != [] && res.enterprises[i] == EnterpriseFor(res.clusters[i])
    requires forall i, c :: 0 <= i < |res.clusters| ==>
               (c in res.clusters[i] <==> c in candidates && c.id in res.enterpriseOf && res.enterpriseOf[c.id] == i)
    requires forall i :: 0 <= i < |res.clusters| ==> res.clusters[i] == ClassOf(candidates, res.enterpriseOf, i)
    requires ByFirstMember(candidates, res)
    ensures Resolves(candidates, rest, res)
  {
    hide SameEntity, EnterpriseFor, ClassOf, ByFirstMember;
  }

  lemma {:induction false} ClassOfAgrees(candidates: seq<Candidate>, reps: map<Id, Id>, r: Id, of: map<Id, Id>, i: Id)
    requires forall c <- candidates :: (c.id in reps && reps[c.id] == r <==> c.id in of && of[c.id] == i)
    ensures ClassOf(candidates, reps, r) == ClassOf(candidates, of, i)
  {
    if candidates != [] {
      assert candidates[|candidates| - 1] in candidates && forall c <- candidates[..|candidates| - 1] :: c in candidates;
      ClassOfAgrees(candidates[..|candidates| - 1], reps, r, of, i);
    }
  }

  lemma BuiltInOrder(candidates: seq<Candidate>, reps: map<Id, Id>, order: seq<Id>, res: Resolved)
    requires Built(candidates, reps, order, res) && FirstComeFirst(candidates, reps, order)
    requires res.enterpriseOf.Keys == reps.Keys == Ids(candidates)
    requires forall i, j :: 0 <= i < j < |order| ==> order[i] != order[j]
    ensures forall i :: 0 <= i < |res.clusters| ==> res.clusters[i] == ClassOf(candidates, res.enterpriseOf, i)
    ensures ByFirstMember(candidates, res)
  {
    hide ClassOf, EnterpriseFor;
    forall i | 0 <= i < |res.clusters| ensures res.clusters[i] == ClassOf(candidates, res.enterpriseOf, i) {
      ClassOfAgrees(candidates, reps, order[i], res.enterpriseOf, i);
    }
    forall i, j | 0 <= i < j < |order| ensures Precedes(candidates, res.enterpriseOf, i, j) {
      assert Precedes(candidates, reps, order[i], order[j]);
      SameClass(candidates, reps, order, res, i);
      SameClass(candidates, reps, order, res, j);
      SamePrecedes(candidates, reps, order[i], order[j], res.enterpriseOf, i, j);
    }
  }

  lemma SameClass(candidates: seq<Candidate>, reps: map<Id, Id>, order: seq<Id>, res: Resolved, i: nat)
    requires Built(candidates, reps, order, res) && i < |order|
    requires res.enterpriseOf.Keys == reps.Keys == Ids(candidates)
    requires forall i, j :: 0 <= i < j < |order| ==> order[i] != order[j]
    ensures forall n :: 0 <= n < |candidates| ==>
              (InClass(candidates, reps, n, order[i]) <==> InClass(candidates, res.enterpriseOf, n, i))
  {
    hide ClassOf, EnterpriseFor;
    forall n | 0 <= n < |candidates|
      ensures InClass(candidates, reps, n, order[i]) <==> InClass(candidates, res.enterpriseOf, n, i)
    {
      assert candidates[n] in candidates && candidates[n].id in Ids(candidates);
    }
  }

  lemma SamePrecedes(candidates: seq<Candidate>, reps: map<Id, Id>, r: Id, q: Id, of: map<Id, Id>, i: Id, j: Id)
    requires Precedes(candidates, reps, r, q)
    requires forall n :: 0 <= n < |candidates| ==> (InClass(candidates, reps, n, r) <==> InClass(candidates, of, n, i))
    requires forall n :: 0 <= n < |candidates| ==> (InClass(candidates, reps, n, q) <==> InClass(candidates, of, n, j))
    ensures Precedes(candidates, of, i, j)
  {
    hide InClass;
    forall n | 0 <= n < |candidates| && InClass(candidates, of, n, j) ensures HasEarlier(candidates, of, n, i) {
      assert HasEarlier(candidates, reps, n, r);
      var m :| 0 <= m < n && InClass(candidates, reps, m, r);
      assert InClass(candidates, of, m, i);
    }
  }

  /** What links two candidates: a shared key, smaller id first, and equal codes if both have one, else the matcher's
      later rules. Linked candidates share an enterprise. */
  lemma LinkedIff(candidates: seq<Candidate>, rest: (Candidate, Candidate) -> Relation, res: Resolved, c: Candidate, d: Candidate)
    requires Coherent(candidates) && Resolves(candidates, rest, res) && c in candidates && d in candidates
    ensures (c.id, d.id) in SamePairs(candidates, rest) <==>
            c.id < d.id && SharesKey(c, d)
            && if c.code.Some? && d.code.Some? then c.code == d.code else rest(c, d) == SAME_ENTITY
    ensures (c.id, d.id) in SamePairs(candidates, rest) ==> res.enterpriseOf[c.id] == res.enterpriseOf[d.id]
  {
    hide SharesKey, ClassOf, EnterpriseFor, ByFirstMember, Connected;
    assert c.id in Ids(candidates) && d.id in Ids(candidates);
    if (c.id, d.id) in SamePairs(candidates, rest) {
      assert Same(candidates, rest, c.id, d.id);
      assert Linked(SamePairs(candidates, rest), c.id, d.id);
      ConnectedLink(SamePairs(candidates, rest), c.id, d.id);
    }
  }

  // ---------------------------------------------------------------------------------------------
  // What an enterprise shows of its candidates

  /** An enterprise's members are exactly the candidates filed under it. */
  lemma EnterpriseMembers(candidates: seq<Candidate>, rest: (Candidate, Candidate) -> Relation, res: Resolved, i: nat, x: Id)
    requires Resolves(candidates, rest, res) && i < |res.enterprises|
    ensures x in res.enterprises[i].members <==> x in res.enterpriseOf && res.enterpriseOf[x] == i
  {
    var cluster, members := res.clusters[i], res.enterprises[i].members;
    if x in members {
      var k :| 0 <= k < |members| && members[k] == x;
      assert cluster[k] in cluster && cluster[k].id == x;
    }
    if x in res.enterpriseOf && res.enterpriseOf[x] == i {
      var c :| c in candidates && c.id == x;
      var k :| 0 <= k < |cluster| && cluster[k] == c;
      assert members[k] == x;
    }
  }

  /** The places of a class's candidates in the input, in ascending order. */
  ghost predicate PlacesOf(candidates: seq<Candidate>, of: map<Id, Id>, i: Id, places: seq<nat>) {
    && (forall k :: 0 <= k < |places| ==> places[k] < |candidates|)
    && (forall k, l :: 0 <= k < l < |places| ==> places[k] < places[l])
    && (forall n :: 0 <= n < |candidates| ==> (InClass(candidates, of, n, i) <==> n in places))
  }

  ghost predicate ListsAt(candidates: seq<Candidate>, members: seq<Candidate>, places: seq<nat>) {
    |places| == |members| && forall k :: 0 <= k < |places| ==> places[k] < |candidates| && members[k] == candidates[places[k]]
  }

  lemma ListsAtSnoc(front: seq<Candidate>, members: seq<Candidate>, places: seq<nat>, c: Candidate)
    requires ListsAt(front, members, places)
    ensures ListsAt(front + [c], members, places) && ListsAt(front + [c], members + [c], places + [|front|])
  {
  }

  lemma {:induction false} ClassInOrder(candidates: seq<Candidate>, of: map<Id, Id>, i: Id) returns (places: seq<nat>)
    ensures PlacesOf(candidates, of, i, places) && ListsAt(candidates, ClassOf(candidates, of, i), places)
  {
    places := [];
    if candidates != [] {
      var n := |candidates| - 1;
      var front, c := candidates[..n], candidates[n];
      assert front + [c] == candidates && (InClass(candidates, of, n, i) <==> c.id in of && of[c.id] == i);
      hide *;
      places := ClassInOrder(front, of, i);
      PlacesSnoc(front, c, of, i, places);
      ListsAtSnoc(front, ClassOf(front, of, i), places, c);
      ClassOfSnoc(front, of, i, c);
      if InClass(candidates, of, n, i) {
        places := places + [n];
      } else {
        assert ClassOf(front, of, i) + [] == ClassOf(front, of, i);
      }
    }
  }

  lemma PlacesSnoc(front: seq<Candidate>, c: Candidate, of: map<Id, Id>, i: Id, places: seq<nat>)
    requires PlacesOf(front, of, i, places)
    ensures var all := front + [c];
            PlacesOf(all, of, i, if InClass(all, of, |front|, i) then places + [|front|] else places)
            && forall k :: 0 <= k < |places| ==> places[k] < |front|
  {
    var all, n := front + [c], |front|;
    var more := if InClass(all, of, n, i) then places + [n] else places;
    forall m | 0 <= m < |all| ensures InClass(all, of, m, i) <==> m in more {
      if m < n {
        assert InClass(front, of, m, i) <==> InClass(all, of, m, i);
      }
    }
  }

  /** An enterprise lists its candidates in input order, one entry for every one of them. */
  lemma EnterpriseListsInOrder(candidates: seq<Candidate>, rest: (Candidate, Candidate) -> Relation, res: Resolved, i: nat)
    requires Resolves(candidates, rest, res) && i < |res.enterprises|
    ensures exists places: seq<nat> ::
              && PlacesOf(candidates, res.enterpriseOf, i, places) && |places| == |res.enterprises[i].members|
              && forall k :: 0 <= k < |places| ==> res.enterprises[i].members[k] == candidates[places[k]].id
  {
    var places := ClassInOrder(candidates, res.enterpriseOf, i);
    hide PlacesOf, ClassOf, SameEntity, ByFirstMember, Primary;
  }

  /** It takes name, code and region from one candidate: one with a code if any has, of those the first with the longest
      name. */
  lemma EnterpriseName(candidates: seq<Candidate>, rest: (Candidate, Candidate) -> Relation, res: Resolved, i: nat)
    requires Resolves(candidates, rest, res) && i < |res.enterprises|
    ensures var cluster, e := res.clusters[i], res.enterprises[i];
            exists k ::
              && 0 <= k < |cluster| && cluster[k].name == e.name && cluster[k].code == e.code && cluster[k].region == e.region
              && (e.code.None? ==> forall c <- cluster :: c.code.None?)
              && (forall c <- cluster :: c.code.Some? == e.code.Some? ==> c.nameLength <= cluster[k].nameLength)
              && (forall j :: 0 <= j < k && cluster[j].code.Some? == e.code.Some? ==> cluster[j].nameLength < cluster[k].nameLength)
  {
    var k := PrimaryAt(res.clusters[i]);
  }

  lemma {:induction false} PrimaryAt(cluster: seq<Candidate>) returns (k: nat)
    requires cluster != []
    ensures k < |cluster| && cluster[k] == Primary(cluster)
    ensures forall j :: 0 <= j < k ==> Better(cluster[k], cluster[j])
  {
    k := 0;
    if |cluster| > 1 {
      var n := |cluster| - 1;
      k := PrimaryAt(cluster[..n]);
      assert forall j :: 0 <= j < n ==> cluster[j] in cluster[..n];
      if Better(cluster[n], cluster[k]) {
        k := n;
      }
    }
  }

  /** It is a branch exactly when some candidate's name is a branch's, and an office exactly when none is and some name is
      an office's. */
  lemma EnterpriseTypeIff(candidates: seq<Candidate>, rest: (Candidate, Candidate) -> Relation, res: Resolved, i: nat)
    requires Resolves(candidates, rest, res) && i < |res.enterprises|
    ensures var of, kind := res.enterpriseOf, res.enterprises[i].entityType;
            && (kind == BRANCH <==> exists n :: 0 <= n < |candidates| && InClass(candidates, of, n, i) && candidates[n].branchName)
            && (kind == OFFICE <==>
                  && (forall n :: 0 <= n < |candidates| && InClass(candidates, of, n, i) ==> !candidates[n].branchName)
                  && (exists n :: 0 <= n < |candidates| && InClass(candidates, of, n, i) && candidates[n].officeName))
  {
    var cluster, of := res.clusters[i], res.enterpriseOf;
    assert res.enterprises[i] == EnterpriseFor(cluster);
    hide ClassOf, ByFirstMember, Primary, SameEntity;
    forall c <- cluster ensures exists n :: 0 <= n < |candidates| && InClass(candidates, of, n, i) && candidates[n] == c {
      var n :| 0 <= n < |candidates| && candidates[n] == c;
      assert InClass(candidates, of, n, i);
    }
    forall n | 0 <= n < |candidates| && InClass(candidates, of, n, i) ensures candidates[n] in cluster {
    }
  }

  // ---------------------------------------------------------------------------------------------
  // Credit codes

  /** Two candidates that both carry a code are only ever called the same when the codes agree. */
  lemma SameNeedsEqualCodes(candidates: seq<Candidate>, rest: (Candidate, Candidate) -> Relation, c: Candidate, d: Candidate)
    requires Coherent(candidates) && c in candidates && d in candidates && c.code.Some? && d.code.Some?
    requires Linked(SamePairs(candidates, rest), c.id, d.id)
    ensures c.code == d.code
  {
  }

  lemma {:induction false} WalkKeepsCode(candidates: seq<Candidate>, rest: (Candidate, Candidate) -> Relation,
                                         w: seq<Id>, c: Candidate, d: Candidate)
    requires Coherent(candidates) && c in candidates && d in candidates
    requires WalksFromTo(SamePairs(candidates, rest), w, c.id, d.id)
    requires forall e <- candidates :: SameEntity(candidates, rest, c.id, e.id) ==> e.code.Some?
    ensures c.code == d.code
    decreases |w|
  {
    if |w| > 1 {
      var pairs := SamePairs(candidates, rest);
      assert Linked(pairs, w[0], w[1]);
      ConnectedLink(pairs, w[0], w[1]);
      var m :| m in candidates && m.id == w[1];
      ConnectedReflexive(pairs, c.id);
      assert c.code.Some? && m.code.Some?;
      SameNeedsEqualCodes(candidates, rest, c, m);
      forall e <- candidates | SameEntity(candidates, rest, m.id, e.id) ensures e.code.Some? {
        ConnectedTransitive(pairs, c.id, m.id, e.id);
      }
      assert WalksFromTo(pairs, w[1..], m.id, d.id);
      WalkKeepsCode(candidates, rest, w[1..], m, d);
    }
  }

  /** A cluster whose members all carry a credit code has exactly one code, and its enterprise bears it. */
  lemma CodedClusterHasOneCode(candidates: seq<Candidate>, rest: (Candidate, Candidate) -> Relation, cluster: seq<Candidate>, c: Candidate)
    requires Coherent(candidates) && c in candidates
    requires cluster != [] && forall d :: d in cluster <==> d in candidates && SameEntity(candidates, rest, c.id, d.id)
    requires forall d <- cluster :: d.code.Some?
    ensures forall d <- cluster :: d.code == EnterpriseFor(cluster).code
  {
    var primary := Primary(cluster);
    var v :| WalksFromTo(SamePairs(candidates, rest), v, c.id, primary.id);
    WalkKeepsCode(candidates, rest, v, c, primary);
    forall d <- cluster ensures d.code == primary.code {
      var w :| WalksFromTo(SamePairs(candidates, rest), w, c.id, d.id);
      WalkKeepsCode(candidates, rest, w, c, d);
    }
  }

  /** Read off a resolution: an enterprise has a code exactly when one of its candidates has, and then it is one of
      theirs; when all of them carry a code it is the code of each. */
  lemma EnterpriseCode(candidates: seq<Candidate>, rest: (Candidate, Candidate) -> Relation, res: Resolved, i: nat)
    requires Coherent(candidates) && Resolves(candidates, rest, res) && i < |res.enterprises|
    ensures var cluster, code := res.clusters[i], res.enterprises[i].code;
            (code.Some? <==> exists c <- cluster :: c.code.Some?)
            && (exists c <- cluster :: c.code == code)
            && ((forall c <- cluster :: c.code.Some?) ==> forall c <- cluster :: c.code == code)
  {
    var cluster := res.clusters[i];
    var c := cluster[0];
    if forall d <- cluster :: d.code.Some? {
      forall d ensures d in cluster <==> d in candidates && SameEntity(candidates, rest, c.id, d.id) {
        assert c in cluster;
        if d in candidates {
          assert d.id in res.enterpriseOf;
        }
      }
      CodedClusterHasOneCode(candidates, rest, cluster, c);
    }
  }

  /** The code an id stands for. */
  function CodeOf(candidates: seq<Candidate>, id: Id): Option<Id> {
    if id in Ids(candidates) then ById(candidates, id).code else None
  }

  /** A walk of same-entity pairs from one code to another, through candidates that all lack a code. */
  ghost predicate Bridge(candidates: seq<Candidate>, rest: (Candidate, Candidate) -> Relation, w: seq<Id>) {
    && Walk(SamePairs(candidates, rest), w)
    && CodeOf(candidates, w[0]).Some? && CodeOf(candidates, w[|w| - 1]).Some?
    && CodeOf(candidates, w[0]) != CodeOf(candidates, w[|w| - 1])
    && forall i :: 0 < i < |w| - 1 ==> CodeOf(candidates, w[i]).None?
  }

  /** The first coded candidate after the start of a walk that ends at one. */
  lemma {:induction false} NextCoded(candidates: seq<Candidate>, w: seq<Id>, n: nat) returns (i: nat)
    requires n < |w| && CodeOf(candidates, w[|w| - 1]).Some?
    ensures n <= i < |w| && CodeOf(candidates, w[i]).Some? && forall j :: n <= j < i ==> CodeOf(candidates, w[j]).None?
    decreases |w| - n
  {
    i := n;
    if CodeOf(candidates, w[n]).None? {
      i := NextCoded(candidates, w, n + 1);
    }
  }

  /** Any walk between two codes has a bridge on it. */
  lemma {:induction false} WalkHasBridge(candidates: seq<Candidate>, rest: (Candidate, Candidate) -> Relation, w: seq<Id>)
    requires Walk(SamePairs(candidates, rest), w)
    requires CodeOf(candidates, w[0]).Some? && CodeOf(candidates, w[|w| - 1]).Some?
    requires CodeOf(candidates, w[0]) != CodeOf(candidates, w[|w| - 1])
    ensures exists v :: Bridge(candidates, rest, v)
    decreases |w|
  {
    var i := NextCoded(candidates, w, 1);
    if CodeOf(candidates, w[i]) != CodeOf(candidates, w[0]) {
      assert Bridge(candidates, rest, w[..i + 1]);
    } else {
      WalkHasBridge(candidates, rest, w[i..]);
    }
  }

  /** Two different codes in one enterprise. */
  ghost predicate Mixed(cluster: seq<Candidate>) {
    exists c <- cluster, d <- cluster :: c.code.Some? && d.code.Some? && c.code != d.code
  }

  lemma CodeOfMember(candidates: seq<Candidate>, c: Candidate)
    requires Coherent(candidates) && c in candidates
    ensures c.id in Ids(candidates) && CodeOf(candidates, c.id) == c.code
  {
    var _ := ById(candidates, c.id);
  }

  /** Exactly when the decisions bridge two codes does some enterprise mix codes: not one of its links is wrong by the
      code rule, but candidates without a code carry the identity across. */
  lemma MixedCodesIff(candidates: seq<Candidate>, rest: (Candidate, Candidate) -> Relation, res: Resolved)
    requires Coherent(candidates) && Resolves(candidates, rest, res)
    ensures (exists i :: 0 <= i < |res.clusters| && Mixed(res.clusters[i])) <==> exists w :: Bridge(candidates, rest, w)
  {
    if i :| 0 <= i < |res.clusters| && Mixed(res.clusters[i]) {
      var c, d :| c in res.clusters[i] && d in res.clusters[i] && c.code.Some? && d.code.Some? && c.code != d.code;
      CodeOfMember(candidates, c);
      CodeOfMember(candidates, d);
      assert SameEntity(candidates, rest, c.id, d.id);
      var w :| WalksFromTo(SamePairs(candidates, rest), w, c.id, d.id);
      WalkHasBridge(candidates, rest, w);
    }
    if w :| Bridge(candidates, rest, w) {
      var c, d := ById(candidates, w[0]), ById(candidates, w[|w| - 1]);
      assert WalksFromTo(SamePairs(candidates, rest), w, c.id, d.id);
      assert SameEntity(candidates, rest, c.id, d.id);
      var i := res.enterpriseOf[c.id];
      assert c in res.clusters[i] && d in res.clusters[i];
      assert Mixed(res.clusters[i]);
    }
  }

  /** One of the matcher's later rules: similar names and one domain. */
  function SameNameAndDomain(c: Candidate, d: Candidate): Relation {
    if c.baseName == d.baseName && c.domain.Some? && c.domain == d.domain then SAME_ENTITY else DIFFERENT
  }

  /** Such a bridge: three candidates of one name and domain, the middle one without a code. */
  lemma CodelessCandidateBridgesCodes()
    ensures var candidate := (id: Id, code: Option<Id>) =>
              Candidate(id, 5, 4, 1, Some(7), None, None, None, code, false, false);
            Bridge([candidate(1, Some(10)), candidate(2, None), candidate(3, Some(30))], SameNameAndDomain, [1, 2, 3])
  {
    var candidate := (id: Id, code: Option<Id>) => Candidate(id, 5, 4, 1, Some(7), None, None, None, code, false, false);
    var c1, c2, c3 := candidate(1, Some(10)), candidate(2, None), candidate(3, Some(30));
    var candidates := [c1, c2, c3];
    assert candidates[0] == c1 && candidates[1] == c2 && candidates[2] == c3;
    assert c1 in candidates && c2 in candidates && c3 in candidates;
    assert Same(candidates, SameNameAndDomain, 1, 2) && Same(candidates, SameNameAndDomain, 2, 3);
    var pairs := SamePairs(candidates, SameNameAndDomain);
    assert (1, 2) in pairs && (2, 3) in pairs;
    forall c <- candidates ensures CodeOf(candidates, c.id) == c.code {
      CodeOfMember(candidates, c);
    }
  }
}
