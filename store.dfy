/**
 * The taxonomy's state as a value, and the eight mutators of `Taxonomy` as functions
 * from one state to the next. A mutator that raises leaves the state as it was, so
 * each one is `Result<Store, ErrorKind>`: the new state, or the exception it raises.
 */
module Store {
  import opened Wrappers

  type Id = nat

  /** The exceptions the loader records, under their class names in the source. */
  datatype ErrorKind =
    | InvalidEcosystem
    | InvalidParentEcosystem
    | InvalidChildEcosystem
    | InvalidSourceRepo
    | InvalidSourceEcosystem
    | DestinationEcosystemAlreadyExists
    | InvalidRepo
    | EcosystemHasNoRepos
    | ParentEcosystemHasNoChildren
    | EcoAddRequiresOneParameter
    | EcoConRequiresExactlyTwoParameters
    | EcoDisRequiresExactlyTwoParameters
    | EcoRemRequiresExactlyTwoParameters
    | RepAddRequiresAtLeastTwoParameters
    | RepMovRequiresExactlyTwoParameters
    | EcoMovRequiresExactlyTwoParameters
    | RepRemRequiresExactlyTwoParameters
    | ValueError

  /** One recorded error: the exception's class name, the 1-based line and the file path. */
  datatype TaxonomyError = TaxonomyError(message: ErrorKind, lineNum: nat, path: string)

  /** The fields of a `Taxonomy` object. */
  datatype Store = Store(
    ecoAutoId: nat,
    repoAutoId: nat,
    tagAutoId: nat,
    migrationCount: nat,
    ecoIds: map<string, Id>,
    repoIds: map<string, Id>,
    tagIds: map<string, Id>,
    tagIdToName: map<Id, string>,
    repoIdToUrl: map<Id, string>,
    ecoIdToName: map<Id, string>,
    ecoToRepos: map<Id, set<Id>>,
    parentToChildren: map<Id, set<Id>>,
    childToParents: map<Id, set<Id>>,
    ecoRepoToTags: map<(Id, Id), set<Id>>,
    errors: seq<TaxonomyError>)

  /** A freshly constructed taxonomy. */
  const Empty: Store := Store(0, 0, 0, 0, map[], map[], map[], map[], map[], map[], map[], map[], map[], map[], [])

  /** The set stored under `k`, or the empty set when there is no entry. */
  function Lookup<K>(m: map<K, set<Id>>, k: K): set<Id> {
    if k in m then m[k] else {}
  }

  type Outcome = Result<Store, ErrorKind>

  // ----- Invariants -----

  /**
   * Interning: every name maps to an id in 1..counter whose reverse entry gives the name back.
   * Repo and tag tables are bijections; the eco reverse table keeps ids of removed ecosystems.
   */
  predicate Interned(s: Store) {
    (forall n :: n in s.ecoIds ==> 1 <= s.ecoIds[n] && s.ecoIds[n] in s.ecoIdToName && s.ecoIdToName[s.ecoIds[n]] == n)
    && (forall id :: id in s.ecoIdToName ==> 1 <= id <= s.ecoAutoId)
    && (forall u :: u in s.repoIds ==> s.repoIds[u] in s.repoIdToUrl && s.repoIdToUrl[s.repoIds[u]] == u)
    && (forall id :: id in s.repoIdToUrl ==> 1 <= id <= s.repoAutoId && s.repoIdToUrl[id] in s.repoIds && s.repoIds[s.repoIdToUrl[id]] == id)
    && (forall t :: t in s.tagIds ==> s.tagIds[t] in s.tagIdToName && s.tagIdToName[s.tagIds[t]] == t)
    && (forall id :: id in s.tagIdToName ==> 1 <= id <= s.tagAutoId && s.tagIdToName[id] in s.tagIds && s.tagIds[s.tagIdToName[id]] == id)
  }

  /** A parent's children entry is mirrored by the child's parents entry. */
  predicate Linked(s: Store) {
    forall p, c :: p in s.parentToChildren && c in s.parentToChildren[p] ==>
      c in s.childToParents && p in s.childToParents[c]
  }

  /** Every id the exporter looks up has a name: member repos, child ecosystems and tags. */
  predicate Exportable(s: Store) {
    (forall e, r :: e in s.ecoToRepos && r in s.ecoToRepos[e] ==> r in s.repoIdToUrl)
    && (forall p, c :: p in s.parentToChildren && c in s.parentToChildren[p] ==> c in s.ecoIdToName)
    && (forall k, t :: k in s.ecoRepoToTags && t in s.ecoRepoToTags[k] ==> t in s.tagIdToName)
  }

  predicate Valid(s: Store) {
    Interned(s) && Linked(s) && Exportable(s)
  }

  lemma EmptyValid()
    ensures Valid(Empty)
  {
  }

  // ----- Relations read off the maps -----

  predicate HasChild(s: Store, p: Id, c: Id) {
    p in s.parentToChildren && c in s.parentToChildren[p]
  }

  predicate HasParent(s: Store, c: Id, p: Id) {
    c in s.childToParents && p in s.childToParents[c]
  }

  predicate IsMember(s: Store, e: Id, r: Id) {
    e in s.ecoToRepos && r in s.ecoToRepos[e]
  }

  /** Tag name `t` is recorded for repo `r` in ecosystem `e`. */
  predicate Tagged(s: Store, e: Id, r: Id, t: string) {
    t in s.tagIds && (e, r) in s.ecoRepoToTags && s.tagIds[t] in s.ecoRepoToTags[(e, r)]
  }

  // ----- `_add_eco` -----

  /** Interns an ecosystem name; an existing name keeps its id. */
  function AddEco(s: Store, name: string): (r: Store)
    ensures name in r.ecoIds
    ensures name in s.ecoIds ==> r == s
    ensures name !in s.ecoIds ==> r.ecoIds[name] == s.ecoAutoId + 1 && r.ecoAutoId == s.ecoAutoId + 1
  {
    if name in s.ecoIds then s
    else
      var id := s.ecoAutoId + 1;
      s.(ecoAutoId := id, ecoIds := s.ecoIds[name := id], ecoIdToName := s.ecoIdToName[id := name])
  }

  // ----- `_connect_eco` -----

  function ConnectEco(s: Store, parent: string, child: string): (r: Outcome)
    ensures r.Err? <==> parent !in s.ecoIds || child !in s.ecoIds
    ensures parent !in s.ecoIds ==> r == Err(InvalidParentEcosystem)
    ensures parent in s.ecoIds && child !in s.ecoIds ==> r == Err(InvalidChildEcosystem)
  {
    if parent !in s.ecoIds then Err(InvalidParentEcosystem)
    else if child !in s.ecoIds then Err(InvalidChildEcosystem)
    else
      var p := s.ecoIds[parent];
      var c := s.ecoIds[child];
      Ok(s.(parentToChildren := s.parentToChildren[p := Lookup(s.parentToChildren, p) + {c}],
            childToParents := s.childToParents[c := Lookup(s.childToParents, c) + {p}]))
  }

  // ----- `_disconnect_eco` -----

  function DisconnectEco(s: Store, parent: string, child: string): (r: Outcome)
    ensures r.Err? <==> parent !in s.ecoIds || child !in s.ecoIds || s.ecoIds[parent] !in s.parentToChildren
    ensures parent !in s.ecoIds ==> r == Err(InvalidParentEcosystem)
    ensures parent in s.ecoIds && child !in s.ecoIds ==> r == Err(InvalidChildEcosystem)
    ensures parent in s.ecoIds && child in s.ecoIds && s.ecoIds[parent] !in s.parentToChildren ==>
      r == Err(ParentEcosystemHasNoChildren)
  {
    if parent !in s.ecoIds then Err(InvalidParentEcosystem)
    else if child !in s.ecoIds then Err(InvalidChildEcosystem)
    else
      var p := s.ecoIds[parent];
      var c := s.ecoIds[child];
      if p !in s.parentToChildren then Err(ParentEcosystemHasNoChildren)
      else
        var c2p := if c in s.childToParents then s.childToParents[c := s.childToParents[c] - {p}] else s.childToParents;
        Ok(s.(parentToChildren := s.parentToChildren[p := s.parentToChildren[p] - {c}], childToParents := c2p))
  }

  // ----- `_remove_eco_by_id` and `_remove_eco` -----

  /** `parent_to_children` after `_remove_eco_by_id`: `id` leaves its parents' sets, and its own entry goes. */
  function DetachFromParents(p2c: map<Id, set<Id>>, parents: set<Id>, id: Id): (r: map<Id, set<Id>>)
    ensures r.Keys == p2c.Keys
    ensures forall k :: k in p2c && k !in parents ==> r[k] == p2c[k]
    ensures forall k :: k in p2c && k in parents ==> r[k] == p2c[k] - {id}
  {
    map k | k in p2c :: if k in parents then p2c[k] - {id} else p2c[k]
  }

  function RemoveEcoById(s: Store, id: Id): (r: Store)
    ensures id !in r.parentToChildren && id !in r.childToParents
  {
    var parents := Lookup(s.childToParents, id);
    s.(parentToChildren := DetachFromParents(s.parentToChildren, parents, id) - {id},
       childToParents := s.childToParents - {id})
  }

  function RemoveEco(s: Store, name: string): (r: Outcome)
    ensures r.Err? <==> name !in s.ecoIds
    ensures r.Err? ==> r.error == InvalidEcosystem
    ensures r.Ok? ==> name !in r.value.ecoIds && r.value.ecoIds.Keys == s.ecoIds.Keys - {name}
  {
    if name !in s.ecoIds then Err(InvalidEcosystem)
    else Ok(RemoveEcoById(s, s.ecoIds[name]).(ecoIds := s.ecoIds - {name}))
  }

  // ----- `_add_repo` -----

  /** Interns a repo URL; an existing URL keeps its id. */
  function InternRepo(s: Store, url: string): (r: Store)
    ensures url in r.repoIds
    ensures url in s.repoIds ==> r == s
    ensures url !in s.repoIds ==> r.repoIds[url] == s.repoAutoId + 1 && r.repoAutoId == s.repoAutoId + 1
  {
    if url in s.repoIds then s
    else
      var id := s.repoAutoId + 1;
      s.(repoAutoId := id, repoIds := s.repoIds[url := id], repoIdToUrl := s.repoIdToUrl[id := url])
  }

  /** One iteration of the tag loop: intern `tag` and add its id to the `(e, r)` entry. */
  function AddTag(s: Store, e: Id, rid: Id, tag: string): (r: Store)
    ensures tag in r.tagIds && (e, rid) in r.ecoRepoToTags && r.tagIds[tag] in r.ecoRepoToTags[(e, rid)]
  {
    var s1 := if tag in s.tagIds then s
      else
        var id := s.tagAutoId + 1;
        s.(tagAutoId := id, tagIds := s.tagIds[tag := id], tagIdToName := s.tagIdToName[id := tag]);
    var t := s1.tagIds[tag];
    s1.(ecoRepoToTags := s1.ecoRepoToTags[(e, rid) := Lookup(s1.ecoRepoToTags, (e, rid)) + {t}])
  }

  /** The tag loop over `tags`, written from the back so that it follows the loop's progress. */
  function AddTags(s: Store, e: Id, rid: Id, tags: seq<string>): (r: Store)
    ensures r.ecoIds == s.ecoIds && r.repoIds == s.repoIds && r.ecoToRepos == s.ecoToRepos
    ensures r.errors == s.errors && r.migrationCount == s.migrationCount
    decreases |tags|
  {
    if tags == [] then s
    else AddTag(AddTags(s, e, rid, tags[..|tags| - 1]), e, rid, tags[|tags| - 1])
  }

  function AddRepo(s: Store, eco: string, url: string, tags: seq<string>): (r: Outcome)
    ensures r.Err? <==> eco !in s.ecoIds
    ensures r.Err? ==> r.error == InvalidEcosystem
    ensures r.Ok? ==> url in r.value.repoIds && IsMember(r.value, s.ecoIds[eco], r.value.repoIds[url])
  {
    if eco !in s.ecoIds then Err(InvalidEcosystem)
    else
      var e := s.ecoIds[eco];
      var s2 := JoinRepo(s, e, url);
      Ok(AddTags(s2, e, s2.repoIds[url], tags))
  }

  // ----- `_move_repo` -----

  /** Every membership set holding `src` holds `dst` instead. */
  function Substitute(m: map<Id, set<Id>>, src: Id, dst: Id): (r: map<Id, set<Id>>)
    ensures r.Keys == m.Keys
    ensures forall e :: e in m && src in m[e] ==> r[e] == m[e] - {src} + {dst}
    ensures forall e :: e in m && src !in m[e] ==> r[e] == m[e]
  {
    map e | e in m :: if src in m[e] then m[e] - {src} + {dst} else m[e]
  }

  function MoveRepo(s: Store, src: string, dst: string): (r: Outcome)
    ensures r.Err? <==> src !in s.repoIds
    ensures r.Err? ==> r.error == InvalidSourceRepo
    ensures r.Ok? && src != dst ==> src !in r.value.repoIds && dst in r.value.repoIds
  {
    if src !in s.repoIds then Err(InvalidSourceRepo)
    else
      var sid := s.repoIds[src];
      if dst in s.repoIds then
        var did := s.repoIds[dst];
        Ok(s.(ecoToRepos := Substitute(s.ecoToRepos, sid, did),
              repoIds := s.repoIds - {src},
              repoIdToUrl := s.repoIdToUrl - {sid}))
      else
        Ok(s.(repoIds := (s.repoIds - {src})[dst := sid], repoIdToUrl := s.repoIdToUrl[sid := dst]))
  }

  // ----- `_move_eco` -----

  function MoveEco(s: Store, src: string, dst: string): (r: Outcome)
    ensures r.Err? <==> src !in s.ecoIds || dst in s.ecoIds
    ensures src !in s.ecoIds ==> r == Err(InvalidSourceEcosystem)
    ensures src in s.ecoIds && dst in s.ecoIds ==> r == Err(DestinationEcosystemAlreadyExists)
    ensures r.Ok? ==> src !in r.value.ecoIds && dst in r.value.ecoIds && r.value.ecoIds[dst] == s.ecoIds[src]
  {
    if src !in s.ecoIds then Err(InvalidSourceEcosystem)
    else if dst in s.ecoIds then Err(DestinationEcosystemAlreadyExists)
    else
      var sid := s.ecoIds[src];
      Ok(s.(ecoIds := (s.ecoIds - {src})[dst := sid], ecoIdToName := s.ecoIdToName[sid := dst]))
  }

  // ----- `_remove_repo_from_ecosystem` -----

  function RemoveRepoFromEcosystem(s: Store, eco: string, url: string): (r: Outcome)
    ensures r.Err? <==> eco !in s.ecoIds || s.ecoIds[eco] !in s.ecoToRepos || url !in s.repoIds
    ensures eco !in s.ecoIds ==> r == Err(InvalidEcosystem)
    ensures eco in s.ecoIds && s.ecoIds[eco] !in s.ecoToRepos ==> r == Err(EcosystemHasNoRepos)
    ensures eco in s.ecoIds && s.ecoIds[eco] in s.ecoToRepos && url !in s.repoIds ==> r == Err(InvalidRepo)
  {
    if eco !in s.ecoIds then Err(InvalidEcosystem)
    else
      var e := s.ecoIds[eco];
      if e !in s.ecoToRepos then Err(EcosystemHasNoRepos)
      else if url !in s.repoIds then Err(InvalidRepo)
      else
        var rid := s.repoIds[url];
        Ok(s.(ecoToRepos := s.ecoToRepos[e := s.ecoToRepos[e] - {rid}],
              ecoRepoToTags := s.ecoRepoToTags - {(e, rid)}))
  }

  // ----- `stats` -----

  datatype TaxonomyStats = TaxonomyStats(migrationCount: nat, ecoCount: nat, repoCount: nat, tagCount: nat, ecoConnectionsCount: nat)

  function Stats(s: Store): (r: TaxonomyStats)
    ensures r.ecoCount == |s.ecoIds| && r.repoCount == |s.repoIds| && r.tagCount == |s.tagIds|
    ensures r.migrationCount == s.migrationCount && r.ecoConnectionsCount == 0
  {
    TaxonomyStats(s.migrationCount, |s.ecoIds|, |s.repoIds|, |s.tagIds|, 0)
  }

  // ----- Properties: interning -----

  /** A new name gets the next id, which no ecosystem ever had; existing names keep theirs. */
  lemma AddEcoInterns(s: Store, name: string)
    requires Interned(s)
    ensures Interned(AddEco(s, name))
    ensures name !in s.ecoIds ==> s.ecoAutoId + 1 !in s.ecoIdToName
    ensures forall n :: n in s.ecoIds ==> AddEco(s, name).ecoIds[n] == s.ecoIds[n]
    ensures AddEco(AddEco(s, name), name) == AddEco(s, name)
  {
  }

  lemma AddEcoValid(s: Store, name: string)
    requires Valid(s)
    ensures Valid(AddEco(s, name))
  {
    AddEcoInterns(s, name);
  }

  // ----- Properties: connecting and disconnecting -----

  /** `ecocon` adds exactly the edge between the two ids, in both directions. */
  lemma ConnectAddsEdge(s: Store, parent: string, child: string, p: Id, c: Id)
    requires ConnectEco(s, parent, child).Ok?
    ensures HasChild(ConnectEco(s, parent, child).value, p, c) <==>
      HasChild(s, p, c) || (p == s.ecoIds[parent] && c == s.ecoIds[child])
    ensures HasParent(ConnectEco(s, parent, child).value, c, p) <==>
      HasParent(s, c, p) || (p == s.ecoIds[parent] && c == s.ecoIds[child])
  {
  }

  /** Repeating an `ecocon` changes nothing. */
  lemma ConnectIdempotent(s: Store, parent: string, child: string)
    requires ConnectEco(s, parent, child).Ok?
    ensures ConnectEco(ConnectEco(s, parent, child).value, parent, child) == ConnectEco(s, parent, child)
  {
    var r := ConnectEco(s, parent, child).value;
    var p, c := s.ecoIds[parent], s.ecoIds[child];
    assert r.parentToChildren[p := Lookup(r.parentToChildren, p) + {c}] == r.parentToChildren;
    assert r.childToParents[c := Lookup(r.childToParents, c) + {p}] == r.childToParents;
  }

  lemma ConnectValid(s: Store, parent: string, child: string)
    requires Valid(s) && ConnectEco(s, parent, child).Ok?
    ensures Valid(ConnectEco(s, parent, child).value)
  {
    var r := ConnectEco(s, parent, child).value;
    forall p, c | p in r.parentToChildren && c in r.parentToChildren[p]
      ensures c in r.childToParents && p in r.childToParents[c] && c in r.ecoIdToName
    {
      ConnectAddsEdge(s, parent, child, p, c);
    }
  }

  /** `ecodis` removes exactly the edge between the two ids, in both directions. */
  lemma DisconnectRemovesEdge(s: Store, parent: string, child: string, p: Id, c: Id)
    requires DisconnectEco(s, parent, child).Ok?
    ensures HasChild(DisconnectEco(s, parent, child).value, p, c) <==>
      HasChild(s, p, c) && !(p == s.ecoIds[parent] && c == s.ecoIds[child])
    ensures HasParent(DisconnectEco(s, parent, child).value, c, p) <==>
      HasParent(s, c, p) && !(p == s.ecoIds[parent] && c == s.ecoIds[child])
  {
  }

  lemma DisconnectValid(s: Store, parent: string, child: string)
    requires Valid(s) && DisconnectEco(s, parent, child).Ok?
    ensures Valid(DisconnectEco(s, parent, child).value)
  {
    var r := DisconnectEco(s, parent, child).value;
    forall p, c | p in r.parentToChildren && c in r.parentToChildren[p]
      ensures c in r.childToParents && p in r.childToParents[c] && c in r.ecoIdToName
    {
      DisconnectRemovesEdge(s, parent, child, p, c);
    }
  }

  // ----- Properties: removing an ecosystem -----

  /**
   * `ecorem` removes every edge that touches the ecosystem: it is no longer anyone's child,
   * its children are no longer reachable through it, and every other edge stays.
   */
  lemma RemoveEcoDropsEdges(s: Store, name: string, p: Id, c: Id)
    requires Linked(s) && RemoveEco(s, name).Ok?
    ensures HasChild(RemoveEco(s, name).value, p, c) <==>
      HasChild(s, p, c) && p != s.ecoIds[name] && c != s.ecoIds[name]
  {
    var id := s.ecoIds[name];
    var r := RemoveEco(s, name).value;
    if HasChild(s, p, c) && c == id && p != id {
      assert p in Lookup(s.childToParents, id);
    }
  }

  /** The other ecosystems keep their names and ids, and the removed id keeps its reverse entry. */
  lemma RemoveEcoKeepsOthers(s: Store, name: string)
    requires RemoveEco(s, name).Ok?
    ensures forall n :: n in s.ecoIds && n != name ==>
      n in RemoveEco(s, name).value.ecoIds && RemoveEco(s, name).value.ecoIds[n] == s.ecoIds[n]
    ensures RemoveEco(s, name).value.ecoIdToName == s.ecoIdToName
    ensures RemoveEco(s, name).value.ecoToRepos == s.ecoToRepos
  {
  }

  lemma RemoveEcoValid(s: Store, name: string)
    requires Valid(s) && RemoveEco(s, name).Ok?
    ensures Valid(RemoveEco(s, name).value)
  {
    var r := RemoveEco(s, name).value;
    forall p, c | p in r.parentToChildren && c in r.parentToChildren[p]
      ensures c in r.childToParents && p in r.childToParents[c] && c in r.ecoIdToName
    {
      RemoveEcoDropsEdges(s, name, p, c);
    }
  }

  // ----- Properties: adding a repo -----

  /** A tag already recorded stays recorded when another tag is added. */
  lemma AddTagMonotone(s: Store, e: Id, rid: Id, tag: string, e': Id, r': Id, t: string)
    requires Tagged(s, e', r', t)
    ensures Tagged(AddTag(s, e, rid, tag), e', r', t)
  {
  }

  /** After the tag loop, every tag of the command is recorded for the pair. */
  lemma {:induction false} AddTagsRecordsAll(s: Store, e: Id, rid: Id, tags: seq<string>)
    ensures forall i :: 0 <= i < |tags| ==> Tagged(AddTags(s, e, rid, tags), e, rid, tags[i])
    decreases |tags|
  {
    if tags != [] {
      var front := tags[..|tags| - 1];
      AddTagsRecordsAll(s, e, rid, front);
      forall i | 0 <= i < |tags|
        ensures Tagged(AddTags(s, e, rid, tags), e, rid, tags[i])
      {
        if i < |tags| - 1 {
          assert tags[i] == front[i];
          AddTagMonotone(AddTags(s, e, rid, front), e, rid, tags[|tags| - 1], e, rid, tags[i]);
        }
      }
    }
  }

  /** Adding tags that are all recorded already changes nothing. */
  lemma {:induction false} AddTagsNoop(s: Store, e: Id, rid: Id, tags: seq<string>)
    requires forall i :: 0 <= i < |tags| ==> Tagged(s, e, rid, tags[i])
    ensures AddTags(s, e, rid, tags) == s
    decreases |tags|
  {
    if tags != [] {
      var front := tags[..|tags| - 1];
      AddTagsNoop(s, e, rid, front);
      var tag := tags[|tags| - 1];
      assert Tagged(s, e, rid, tag);
      assert Lookup(s.ecoRepoToTags, (e, rid)) + {s.tagIds[tag]} == s.ecoRepoToTags[(e, rid)];
      assert s.ecoRepoToTags[(e, rid) := s.ecoRepoToTags[(e, rid)]] == s.ecoRepoToTags;
    }
  }

  /** One tag: it is interned with a fresh id if new, and recorded for the pair and nothing else. */
  lemma AddTagEffect(s: Store, e: Id, rid: Id, tag: string)
    requires Valid(s)
    ensures Valid(AddTag(s, e, rid, tag))
    ensures forall e', r', t :: Tagged(AddTag(s, e, rid, tag), e', r', t) <==>
      Tagged(s, e', r', t) || (e' == e && r' == rid && t == tag)
    ensures tag !in s.tagIds ==> AddTag(s, e, rid, tag).tagIds[tag] == s.tagAutoId + 1
  {
    var r := AddTag(s, e, rid, tag);
    if tag !in s.tagIds {
      assert s.tagAutoId + 1 !in s.tagIdToName;
      forall e', r', t | Tagged(r, e', r', t) && t != tag
        ensures Tagged(s, e', r', t)
      {
        assert r.tagIds[t] == s.tagIds[t];
      }
    }
  }

  /** The tag loop adds exactly the command's tags to the pair, and keeps the invariants. */
  lemma {:induction false} AddTagsEffect(s: Store, e: Id, rid: Id, tags: seq<string>)
    requires Valid(s)
    ensures Valid(AddTags(s, e, rid, tags))
    ensures forall e', r', t :: Tagged(AddTags(s, e, rid, tags), e', r', t) <==>
      Tagged(s, e', r', t) || (e' == e && r' == rid && t in tags)
    decreases |tags|
  {
    if tags != [] {
      var front := tags[..|tags| - 1];
      AddTagsEffect(s, e, rid, front);
      AddTagEffect(AddTags(s, e, rid, front), e, rid, tags[|tags| - 1]);
      assert forall t :: t in tags <==> t in front || t == tags[|tags| - 1];
    }
  }

  /** The state before the tag loop: the URL interned and made a member of ecosystem `e`. */
  function JoinRepo(s: Store, e: Id, url: string): (r: Store)
    ensures url in r.repoIds && IsMember(r, e, r.repoIds[url])
  {
    var s1 := InternRepo(s, url);
    s1.(ecoToRepos := s1.ecoToRepos[e := Lookup(s1.ecoToRepos, e) + {s1.repoIds[url]}])
  }

  lemma InternRepoValid(s: Store, url: string)
    requires Valid(s)
    ensures Valid(InternRepo(s, url))
    ensures forall u :: u in s.repoIds ==> InternRepo(s, url).repoIds[u] == s.repoIds[u]
  {
    if url !in s.repoIds {
      var r := InternRepo(s, url);
      assert s.repoAutoId + 1 !in s.repoIdToUrl;
      assert Interned(r);
      assert Linked(r) by { assert r.parentToChildren == s.parentToChildren && r.childToParents == s.childToParents; }
      assert Exportable(r);
    }
  }

  lemma JoinRepoEffect(s: Store, e: Id, url: string)
    requires Valid(s)
    ensures Valid(JoinRepo(s, e, url))
    ensures url !in s.repoIds ==> JoinRepo(s, e, url).repoIds[url] == s.repoAutoId + 1
    ensures url in s.repoIds ==> JoinRepo(s, e, url).repoIds[url] == s.repoIds[url]
    ensures forall e', x :: IsMember(JoinRepo(s, e, url), e', x) <==>
      IsMember(s, e', x) || (e' == e && x == JoinRepo(s, e, url).repoIds[url])
    ensures forall e', x, t :: Tagged(JoinRepo(s, e, url), e', x, t) <==> Tagged(s, e', x, t)
  {
    var s1 := InternRepo(s, url);
    InternRepoValid(s, url);
    var r := JoinRepo(s, e, url);
    assert r == s1.(ecoToRepos := s1.ecoToRepos[e := Lookup(s1.ecoToRepos, e) + {s1.repoIds[url]}]);
    assert Interned(r) by { assert Interned(s1); }
    assert Linked(r) by { assert Linked(s1); }
    assert Exportable(r) by { assert Exportable(s1); }
  }

  /**
   * `repadd`: the repo becomes a member of the ecosystem (a new URL getting the next id) and
   * the tags are added to that pair; nothing else changes membership or tags.
   */
  lemma AddRepoEffect(s: Store, eco: string, url: string, tags: seq<string>)
    requires Valid(s) && AddRepo(s, eco, url, tags).Ok?
    ensures Valid(AddRepo(s, eco, url, tags).value)
    ensures url !in s.repoIds ==> AddRepo(s, eco, url, tags).value.repoIds[url] == s.repoAutoId + 1
    ensures url in s.repoIds ==> AddRepo(s, eco, url, tags).value.repoIds[url] == s.repoIds[url]
    ensures forall e, x :: IsMember(AddRepo(s, eco, url, tags).value, e, x) <==>
      IsMember(s, e, x) || (e == s.ecoIds[eco] && x == AddRepo(s, eco, url, tags).value.repoIds[url])
    ensures forall e, x, t :: Tagged(AddRepo(s, eco, url, tags).value, e, x, t) <==>
      Tagged(s, e, x, t) || (e == s.ecoIds[eco] && x == AddRepo(s, eco, url, tags).value.repoIds[url] && t in tags)
  {
    var e := s.ecoIds[eco];
    var s2 := JoinRepo(s, e, url);
    assert AddRepo(s, eco, url, tags) == Ok(AddTags(s2, e, s2.repoIds[url], tags));
    JoinRepoEffect(s, e, url);
    AddTagsEffect(s2, e, s2.repoIds[url], tags);
  }

  /** Repeating the same `repadd` changes nothing. */
  lemma AddRepoIdempotent(s: Store, eco: string, url: string, tags: seq<string>)
    requires AddRepo(s, eco, url, tags).Ok?
    ensures AddRepo(AddRepo(s, eco, url, tags).value, eco, url, tags) == AddRepo(s, eco, url, tags)
  {
    var r := AddRepo(s, eco, url, tags).value;
    var e := s.ecoIds[eco];
    var s2 := JoinRepo(s, e, url);
    var rid := s2.repoIds[url];
    AddTagsRecordsAll(s2, e, rid, tags);
    assert r.ecoIds == s.ecoIds && r.repoIds[url] == rid;
    assert Lookup(r.ecoToRepos, e) + {rid} == r.ecoToRepos[e];
    assert JoinRepo(r, e, url) == r;
    AddTagsNoop(r, e, rid, tags);
  }

  // ----- Properties: renaming and merging repos -----

  /** Renaming a repo to a fresh URL and back restores the state exactly. */
  lemma MoveRepoRenameRoundTrip(s: Store, a: string, b: string)
    requires Interned(s) && a in s.repoIds && b !in s.repoIds
    ensures MoveRepo(s, a, b).Ok? && MoveRepo(MoveRepo(s, a, b).value, b, a) == Ok(s)
  {
    var sid := s.repoIds[a];
    var r := MoveRepo(s, a, b).value;
    assert ((r.repoIds - {b})[a := sid]) == s.repoIds;
    assert r.repoIdToUrl[sid := a] == s.repoIdToUrl;
  }

  /** A rename to a fresh URL rebinds the same id: memberships and tags are untouched. */
  lemma MoveRepoRenameKeepsId(s: Store, a: string, b: string)
    requires Valid(s) && a in s.repoIds && b !in s.repoIds
    ensures Valid(MoveRepo(s, a, b).value)
    ensures MoveRepo(s, a, b).value.repoIds[b] == s.repoIds[a]
    ensures forall u :: u in s.repoIds && u != a ==> MoveRepo(s, a, b).value.repoIds[u] == s.repoIds[u]
    ensures MoveRepo(s, a, b).value.ecoToRepos == s.ecoToRepos
    ensures MoveRepo(s, a, b).value.ecoRepoToTags == s.ecoRepoToTags
  {
    var r := MoveRepo(s, a, b).value;
    assert Interned(r);
    assert Linked(r) by { assert r.parentToChildren == s.parentToChildren && r.childToParents == s.childToParents; }
  }

  /**
   * A move onto an existing URL merges: every ecosystem that had the source now has the
   * destination instead, and the source URL and its id are gone.
   */
  lemma MoveRepoMerges(s: Store, a: string, b: string)
    requires Valid(s) && a in s.repoIds && b in s.repoIds && a != b
    ensures Valid(MoveRepo(s, a, b).value)
    ensures a !in MoveRepo(s, a, b).value.repoIds && MoveRepo(s, a, b).value.repoIds[b] == s.repoIds[b]
    ensures s.repoIds[a] !in MoveRepo(s, a, b).value.repoIdToUrl
    ensures forall e, x :: IsMember(MoveRepo(s, a, b).value, e, x) <==>
      (IsMember(s, e, x) && x != s.repoIds[a]) || (x == s.repoIds[b] && IsMember(s, e, s.repoIds[a]))
  {
    var sid, did := s.repoIds[a], s.repoIds[b];
    assert sid != did by { assert s.repoIdToUrl[sid] == a && s.repoIdToUrl[did] == b; }
    var r := MoveRepo(s, a, b).value;
    assert Interned(r);
    assert Linked(r) by { assert r.parentToChildren == s.parentToChildren && r.childToParents == s.childToParents; }
    assert Exportable(r) by {
      forall e, x | e in r.ecoToRepos && x in r.ecoToRepos[e] ensures x in r.repoIdToUrl {
        assert x != sid;
      }
    }
  }

  /**
   * `repmov X X` on a member repo: the URL and its id are deleted while memberships still
   * hold the id, so the exporter's lookup of its URL would fail.
   */
  lemma MoveRepoOntoItselfBreaksExport(s: Store, a: string, e: Id)
    requires Valid(s) && a in s.repoIds && IsMember(s, e, s.repoIds[a])
    ensures MoveRepo(s, a, a).Ok? && !Exportable(MoveRepo(s, a, a).value)
  {
    var r := MoveRepo(s, a, a).value;
    var sid := s.repoIds[a];
    assert IsMember(r, e, sid) && sid !in r.repoIdToUrl;
  }

  // ----- Properties: renaming ecosystems -----

  /** Renaming an ecosystem to a fresh name and back restores the state exactly. */
  lemma MoveEcoRoundTrip(s: Store, a: string, b: string)
    requires Interned(s) && a in s.ecoIds && b !in s.ecoIds
    ensures MoveEco(s, a, b).Ok? && MoveEco(MoveEco(s, a, b).value, b, a) == Ok(s)
  {
    var sid := s.ecoIds[a];
    var r := MoveEco(s, a, b).value;
    assert ((r.ecoIds - {b})[a := sid]) == s.ecoIds;
    assert r.ecoIdToName[sid := a] == s.ecoIdToName;
  }

  /** A rename keeps the id, so every relationship of the ecosystem carries over. */
  lemma MoveEcoKeepsRelations(s: Store, a: string, b: string)
    requires Valid(s) && MoveEco(s, a, b).Ok?
    ensures Valid(MoveEco(s, a, b).value)
    ensures forall n :: n in s.ecoIds && n != a ==> MoveEco(s, a, b).value.ecoIds[n] == s.ecoIds[n]
    ensures forall p, c :: HasChild(MoveEco(s, a, b).value, p, c) <==> HasChild(s, p, c)
    ensures forall e, x :: IsMember(MoveEco(s, a, b).value, e, x) <==> IsMember(s, e, x)
    ensures forall e, x, t :: Tagged(MoveEco(s, a, b).value, e, x, t) <==> Tagged(s, e, x, t)
  {
    var r := MoveEco(s, a, b).value;
    assert Interned(r);
    assert Linked(r) by { assert r.parentToChildren == s.parentToChildren && r.childToParents == s.childToParents; }
  }

  // ----- Properties: removing a repo from an ecosystem -----

  /** `reprem` removes exactly one membership and that pair's tags; other ecosystems are untouched. */
  lemma RemoveRepoEffect(s: Store, eco: string, url: string)
    requires Valid(s) && RemoveRepoFromEcosystem(s, eco, url).Ok?
    ensures Valid(RemoveRepoFromEcosystem(s, eco, url).value)
    ensures forall e, x :: IsMember(RemoveRepoFromEcosystem(s, eco, url).value, e, x) <==>
      IsMember(s, e, x) && !(e == s.ecoIds[eco] && x == s.repoIds[url])
    ensures forall e, x, t :: Tagged(RemoveRepoFromEcosystem(s, eco, url).value, e, x, t) <==>
      Tagged(s, e, x, t) && !(e == s.ecoIds[eco] && x == s.repoIds[url])
  {
    var r := RemoveRepoFromEcosystem(s, eco, url).value;
    assert Linked(r) by { assert r.parentToChildren == s.parentToChildren && r.childToParents == s.childToParents; }
  }

  /** Removing a repo that is not a member is silent: memberships stay as they were. */
  lemma RemoveNonMemberKeepsMembers(s: Store, eco: string, url: string)
    requires RemoveRepoFromEcosystem(s, eco, url).Ok?
    requires !IsMember(s, s.ecoIds[eco], s.repoIds[url])
    ensures RemoveRepoFromEcosystem(s, eco, url).value.ecoToRepos == s.ecoToRepos
  {
    var e := s.ecoIds[eco];
    assert s.ecoToRepos[e] - {s.repoIds[url]} == s.ecoToRepos[e];
  }

  // ----- Properties: `stats` -----

  lemma MapUpdateCard<K, V>(m: map<K, V>, k: K, v: V)
    ensures |m[k := v]| == if k in m then |m| else |m| + 1
  {
    if k in m {
      assert m[k := v].Keys == m.Keys;
    } else {
      assert m[k := v].Keys == m.Keys + {k};
    }
  }

  lemma MapRemoveCard<K, V>(m: map<K, V>, k: K)
    requires k in m
    ensures |m - {k}| == |m| - 1
  {
    assert (m - {k}).Keys == m.Keys - {k};
  }

  /** `ecoadd` counts one more ecosystem exactly when the name is new. */
  lemma StatsAddEco(s: Store, name: string)
    ensures Stats(AddEco(s, name)).ecoCount == Stats(s).ecoCount + (if name in s.ecoIds then 0 else 1)
  {
    MapUpdateCard(s.ecoIds, name, s.ecoAutoId + 1);
  }

  /** `ecorem` counts one ecosystem fewer; `ecomov` keeps the count. */
  lemma StatsRemoveAndMoveEco(s: Store, a: string, b: string)
    ensures RemoveEco(s, a).Ok? ==> Stats(RemoveEco(s, a).value).ecoCount == Stats(s).ecoCount - 1
    ensures MoveEco(s, a, b).Ok? ==> Stats(MoveEco(s, a, b).value).ecoCount == Stats(s).ecoCount
  {
    if a in s.ecoIds {
      MapRemoveCard(s.ecoIds, a);
      MapUpdateCard(s.ecoIds - {a}, b, s.ecoIds[a]);
    }
  }

  /** `repmov` keeps the repo count on a rename and counts one repo fewer on a merge. */
  lemma StatsMoveRepo(s: Store, a: string, b: string)
    requires MoveRepo(s, a, b).Ok?
    ensures b !in s.repoIds ==> Stats(MoveRepo(s, a, b).value).repoCount == Stats(s).repoCount
    ensures b in s.repoIds ==> Stats(MoveRepo(s, a, b).value).repoCount == Stats(s).repoCount - 1
  {
    MapRemoveCard(s.repoIds, a);
    if b !in s.repoIds {
      MapUpdateCard(s.repoIds - {a}, b, s.repoIds[a]);
    }
  }
}
