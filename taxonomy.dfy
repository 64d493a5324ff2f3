/**
 * The `Taxonomy` object: the source's fields, updated in place by its mutators, its loader
 * and its exporter. Each method is proved against the functions of `Store`, `Migrations`
 * and `Export`, which carry the properties.
 */
module Taxonomy {
  import opened Wrappers
  import opened Text
  import Store
  import ShlexParser
  import Timestamp
  import Migrations
  import Export

  type Id = Store.Id
  type ErrorKind = Store.ErrorKind

  /**
   * How a mutator that may raise left things: on success the new state is the function's,
   * and nothing was raised; on failure the exception is the function's and the state is untouched.
   */
  predicate Follows(r: Store.Outcome, err: Option<ErrorKind>, before: Store.Store, after: Store.Store) {
    match r
    case Ok(s) => err == None && after == s
    case Err(k) => err == Some(k) && after == before
  }

  class Taxonomy {
    var ecoAutoId: nat
    var repoAutoId: nat
    var tagAutoId: nat
    var migrationCount: nat
    var ecoIds: map<string, Id>
    var repoIds: map<string, Id>
    var tagIds: map<string, Id>
    var tagIdToName: map<Id, string>
    var repoIdToUrl: map<Id, string>
    var ecoIdToName: map<Id, string>
    var ecoToRepos: map<Id, set<Id>>
    var parentToChildren: map<Id, set<Id>>
    var childToParents: map<Id, set<Id>>
    var ecoRepoToTags: map<(Id, Id), set<Id>>
    var errors: seq<Store.TaxonomyError>

    /** The object's fields as a value. */
    function Model(): Store.Store
      reads this
    {
      Store.Store(ecoAutoId, repoAutoId, tagAutoId, migrationCount, ecoIds, repoIds, tagIds,
        tagIdToName, repoIdToUrl, ecoIdToName, ecoToRepos, parentToChildren, childToParents,
        ecoRepoToTags, errors)
    }

    constructor ()
      ensures Model() == Store.Empty
    {
      ecoAutoId, repoAutoId, tagAutoId, migrationCount := 0, 0, 0, 0;
      ecoIds, repoIds, tagIds := map[], map[], map[];
      tagIdToName, repoIdToUrl, ecoIdToName := map[], map[], map[];
      ecoToRepos, parentToChildren, childToParents := map[], map[], map[];
      ecoRepoToTags := map[];
      errors := [];
    }

    // ----- Mutators -----

    method AddEco(name: string)
      modifies this
      ensures Model() == Store.AddEco(old(Model()), name)
    {
      if name !in ecoIds {
        ecoAutoId := ecoAutoId + 1;
        ecoIds := ecoIds[name := ecoAutoId];
        ecoIdToName := ecoIdToName[ecoAutoId := name];
      }
    }

    method ConnectEco(parent: string, child: string) returns (err: Option<ErrorKind>)
      modifies this
      ensures Follows(Store.ConnectEco(old(Model()), parent, child), err, old(Model()), Model())
    {
      if parent !in ecoIds {
        return Some(Store.InvalidParentEcosystem);
      }
      if child !in ecoIds {
        return Some(Store.InvalidChildEcosystem);
      }
      var p := ecoIds[parent];
      var c := ecoIds[child];
      if p !in parentToChildren {
        parentToChildren := parentToChildren[p := {}];
      }
      parentToChildren := parentToChildren[p := parentToChildren[p] + {c}];
      assert parentToChildren == old(parentToChildren)[p := Store.Lookup(old(parentToChildren), p) + {c}];
      if c !in childToParents {
        childToParents := childToParents[c := {}];
      }
      childToParents := childToParents[c := childToParents[c] + {p}];
      assert childToParents == old(childToParents)[c := Store.Lookup(old(childToParents), c) + {p}];
      assert Model() == old(Model()).(parentToChildren := parentToChildren, childToParents := childToParents);
      return None;
    }

    method DisconnectEco(parent: string, child: string) returns (err: Option<ErrorKind>)
      modifies this
      ensures Follows(Store.DisconnectEco(old(Model()), parent, child), err, old(Model()), Model())
    {
      if parent !in ecoIds {
        return Some(Store.InvalidParentEcosystem);
      }
      if child !in ecoIds {
        return Some(Store.InvalidChildEcosystem);
      }
      var p := ecoIds[parent];
      var c := ecoIds[child];
      if p !in parentToChildren {
        return Some(Store.ParentEcosystemHasNoChildren);
      }
      parentToChildren := parentToChildren[p := parentToChildren[p] - {c}];
      if c in childToParents {
        childToParents := childToParents[c := childToParents[c] - {p}];
      }
      return None;
    }

    /** `_remove_eco_by_id`: the loop over the ecosystem's parents, then the two deletions. */
    method RemoveEcoById(id: Id)
      modifies this
      ensures Model() == Store.RemoveEcoById(old(Model()), id)
    {
      ghost var parents := Store.Lookup(childToParents, id);
      var p2c := parentToChildren;
      if id in childToParents {
        var parentSet := childToParents[id];
        var remaining := parentSet;
        while remaining != {}
          invariant remaining <= parentSet
          invariant p2c == Store.DetachFromParents(parentToChildren, parentSet - remaining, id)
          decreases |remaining|
        {
          var p :| p in remaining;
          if p in p2c {
            p2c := p2c[p := p2c[p] - {id}];
          }
          remaining := remaining - {p};
        }
        childToParents := childToParents - {id};
      } else {
        assert p2c == Store.DetachFromParents(p2c, parents, id);
      }
      parentToChildren := p2c - {id};
    }

    method RemoveEco(name: string) returns (err: Option<ErrorKind>)
      modifies this
      ensures Follows(Store.RemoveEco(old(Model()), name), err, old(Model()), Model())
    {
      if name !in ecoIds {
        return Some(Store.InvalidEcosystem);
      }
      RemoveEcoById(ecoIds[name]);
      ecoIds := ecoIds - {name};
      return None;
    }

    /** The part of `_add_repo` before the tag loop: intern the URL and make it a member. */
    method JoinRepo(e: Id, url: string) returns (rid: Id)
      modifies this
      ensures Model() == Store.JoinRepo(old(Model()), e, url)
      ensures url in repoIds && rid == repoIds[url]
    {
      if url !in repoIds {
        repoAutoId := repoAutoId + 1;
        repoIds := repoIds[url := repoAutoId];
        repoIdToUrl := repoIdToUrl[repoAutoId := url];
      }
      assert Model() == Store.InternRepo(old(Model()), url);
      rid := repoIds[url];
      if e !in ecoToRepos {
        ecoToRepos := ecoToRepos[e := {}];
      }
      ecoToRepos := ecoToRepos[e := ecoToRepos[e] + {rid}];
    }

    /** One pass of `_add_repo`'s tag loop. */
    method AddTag(e: Id, rid: Id, tag: string)
      modifies this
      ensures Model() == Store.AddTag(old(Model()), e, rid, tag)
    {
      if tag !in tagIds {
        tagAutoId := tagAutoId + 1;
        tagIds := tagIds[tag := tagAutoId];
        tagIdToName := tagIdToName[tagAutoId := tag];
      }
      ghost var interned := Model();
      var tagId := tagIds[tag];
      var key := (e, rid);
      if key !in ecoRepoToTags {
        ecoRepoToTags := ecoRepoToTags[key := {}];
      }
      ecoRepoToTags := ecoRepoToTags[key := ecoRepoToTags[key] + {tagId}];
      assert ecoRepoToTags == interned.ecoRepoToTags[key := Store.Lookup(interned.ecoRepoToTags, key) + {tagId}];
      assert Model() == interned.(ecoRepoToTags := ecoRepoToTags);
    }

    /** `_add_repo`: intern the URL, join the ecosystem, then the loop over the tags. */
    method AddRepo(eco: string, url: string, tags: seq<string>) returns (err: Option<ErrorKind>)
      modifies this
      ensures Follows(Store.AddRepo(old(Model()), eco, url, tags), err, old(Model()), Model())
    {
      if eco !in ecoIds {
        return Some(Store.InvalidEcosystem);
      }
      var e := ecoIds[eco];
      var rid := JoinRepo(e, url);
      ghost var joined := Model();
      var i := 0;
      while i < |tags|
        invariant 0 <= i <= |tags|
        invariant Model() == Store.AddTags(joined, e, rid, tags[..i])
      {
        AddTag(e, rid, tags[i]);
        assert tags[..i + 1][..i] == tags[..i];
        i := i + 1;
      }
      assert tags[..i] == tags;
      return None;
    }

    /** The loop of a `_move_repo` merge: every membership set holding `srcId` holds `dstId` instead. */
    method SubstituteMember(srcId: Id, dstId: Id) returns (e2r: map<Id, set<Id>>)
      ensures e2r == Store.Substitute(ecoToRepos, srcId, dstId)
    {
      e2r := ecoToRepos;
      var todo := ecoToRepos.Keys;
      while todo != {}
        invariant todo <= ecoToRepos.Keys && e2r.Keys == ecoToRepos.Keys
        invariant forall e :: e in ecoToRepos && e in todo ==> e2r[e] == ecoToRepos[e]
        invariant forall e :: e in ecoToRepos && e !in todo ==>
          e2r[e] == if srcId in ecoToRepos[e] then ecoToRepos[e] - {srcId} + {dstId} else ecoToRepos[e]
        decreases |todo|
      {
        var e :| e in todo;
        if srcId in e2r[e] {
          e2r := e2r[e := e2r[e] - {srcId} + {dstId}];
        }
        todo := todo - {e};
      }
    }

    /** `_move_repo`: a merge into an existing URL, or a rename. */
    method MoveRepo(src: string, dst: string) returns (err: Option<ErrorKind>)
      modifies this
      ensures Follows(Store.MoveRepo(old(Model()), src, dst), err, old(Model()), Model())
    {
      if src !in repoIds {
        return Some(Store.InvalidSourceRepo);
      }
      var srcId := repoIds[src];
      if dst in repoIds {
        var dstId := repoIds[dst];
        ecoToRepos := SubstituteMember(srcId, dstId);
        repoIds := repoIds - {src};
        repoIdToUrl := repoIdToUrl - {srcId};
      } else {
        repoIds := repoIds - {src};
        repoIdToUrl := repoIdToUrl[srcId := dst];
        repoIds := repoIds[dst := srcId];
      }
      return None;
    }

    method MoveEco(src: string, dst: string) returns (err: Option<ErrorKind>)
      modifies this
      ensures Follows(Store.MoveEco(old(Model()), src, dst), err, old(Model()), Model())
    {
      if src !in ecoIds {
        return Some(Store.InvalidSourceEcosystem);
      }
      if dst in ecoIds {
        return Some(Store.DestinationEcosystemAlreadyExists);
      }
      var srcId := ecoIds[src];
      ecoIds := ecoIds - {src};
      ecoIdToName := ecoIdToName[srcId := dst];
      ecoIds := ecoIds[dst := srcId];
      return None;
    }

    method RemoveRepoFromEcosystem(eco: string, url: string) returns (err: Option<ErrorKind>)
      modifies this
      ensures Follows(Store.RemoveRepoFromEcosystem(old(Model()), eco, url), err, old(Model()), Model())
    {
      if eco !in ecoIds {
        return Some(Store.InvalidEcosystem);
      }
      var e := ecoIds[eco];
      if e !in ecoToRepos {
        return Some(Store.EcosystemHasNoRepos);
      }
      if url !in repoIds {
        return Some(Store.InvalidRepo);
      }
      var rid := repoIds[url];
      ecoToRepos := ecoToRepos[e := ecoToRepos[e] - {rid}];
      var key := (e, rid);
      if key in ecoRepoToTags {
        ecoRepoToTags := ecoRepoToTags - {key};
      }
      return None;
    }

    // ----- Replaying migrations -----

    /**
     * The keyword dispatch of `_load_file` with the `_cmd_*` handlers: an unknown keyword does
     * nothing, a wrong argument count raises the handler's exception, otherwise the mutator runs.
     */
    method RunCommand(keyword: string, tokens: seq<string>) returns (err: Option<ErrorKind>)
      modifies this
      ensures Follows(Handle(old(Model()), keyword, tokens), err, old(Model()), Model())
    {
      match Migrations.ParseCommand(keyword, tokens)
      case Ignore => return None;
      case Reject(k) => return Some(k);
      case Run(c) => err := Execute(c);
    }

    /** The mutator a well-formed command line calls, with the exception it raises, if any. */
    method Execute(c: Migrations.Command) returns (err: Option<ErrorKind>)
      modifies this
      ensures Follows(Migrations.Execute(old(Model()), c), err, old(Model()), Model())
    {
      match c
      case EcoAdd(name) => AddEco(name); return None;
      case RepAdd(eco, url, tags) => err := AddRepo(eco, url, tags);
      case EcoCon(parent, child) => err := ConnectEco(parent, child);
      case EcoDis(parent, child) => err := DisconnectEco(parent, child);
      case EcoRem(name) => err := RemoveEco(name);
      case RepMov(src, dst) => err := MoveRepo(src, dst);
      case EcoMov(src, dst) => err := MoveEco(src, dst);
      case RepRem(eco, url) => err := RemoveRepoFromEcosystem(eco, url);
    }

    /** One pass of `_load_file`'s loop: skip, or tokenize and dispatch, recording what is raised. */
    method RunLine(line: string, lineNum: nat, path: string)
      modifies this
      ensures Model() == Migrations.ApplyLine(old(Model()), line, lineNum, path)
    {
      if Migrations.IsComment(line) || |line| < 6 {
        return;
      }
      var keyword := line[..6];
      var split := ShlexParser.Split(line[6..]);
      var err: Option<ErrorKind>;
      if split.UnterminatedQuote? {
        err := Some(Store.ValueError);
      } else {
        err := RunCommand(keyword, split.tokens);
      }
      if err.Some? {
        errors := errors + [Store.TaxonomyError(err.value, lineNum, path)];
      }
    }

    /** `_load_file` on the file's content: every line in turn, numbered from 1. */
    method LoadFile(path: string, content: string)
      modifies this
      ensures Model() == Migrations.LoadFile(old(Model()), path, content)
    {
      var lines := Migrations.SplitLines(content);
      var i := 0;
      while i < |lines|
        invariant 0 <= i <= |lines|
        invariant Model() == Migrations.ApplyLines(old(Model()), lines[..i], path)
      {
        RunLine(lines[i], i + 1, path);
        assert lines[..i + 1][..i] == lines[..i];
        i := i + 1;
      }
      assert lines[..i] == lines;
    }

    /** The processing loop of `load`: replay each file, then count it. */
    method LoadFiles(root: string, files: seq<Migrations.DirEntry>)
      modifies this
      ensures Model() == Migrations.LoadFiles(old(Model()), root, files)
    {
      var j := 0;
      while j < |files|
        invariant 0 <= j <= |files|
        invariant Model() == Migrations.LoadFiles(old(Model()), root, files[..j])
      {
        var f := files[j];
        ghost var before := Model();
        LoadFile(Migrations.JoinPath(root, f.name), f.content);
        ghost var replayed := Model();
        assert replayed == Migrations.LoadFile(before, Migrations.JoinPath(root, f.name), f.content);
        migrationCount := migrationCount + 1;
        assert Model() == replayed.(migrationCount := replayed.migrationCount + 1);
        assert files[..j + 1][..j] == files[..j] && files[..j + 1][j] == f;
        assert Migrations.LoadFiles(old(Model()), root, files[..j + 1]) == Model();
        j := j + 1;
      }
      assert files[..j] == files;
    }

    /**
     * `load` over a directory listing: keep the stamped files before `maxDate`, sort them by
     * their first 19 characters, replay each and count it; `failed` is whether
     * `ValidationFailed` is raised at the end.
     */
    method Load(root: string, listing: seq<Migrations.DirEntry>, maxDate: Option<string>) returns (failed: bool)
      modifies this
      ensures Model() == Migrations.Load(old(Model()), root, listing, maxDate).store
      ensures failed <==> Migrations.Load(old(Model()), root, listing, maxDate).ValidationFailed?
    {
      var migrationFiles := FilterFiles(listing, maxDate);
      migrationFiles := Migrations.SortByKey(migrationFiles);
      LoadFiles(root, migrationFiles);
      failed := errors != [];
    }

    // ----- Export -----

    /** The repo loop of `_emit_ecosystem_json`: one record per member repo, in case-insensitive URL order. */
    method EmitRepos(top: string, branch: seq<string>, e: Id) returns (out: seq<Export.Record>)
      requires Store.Exportable(Model())
      ensures out == Export.OwnRecords(Model(), top, branch, e)
    {
      var repos := Export.Enumerate(Export.RepoEntries(Model(), e));
      out := [];
      var i := 0;
      while i < |repos|
        invariant 0 <= i <= |repos|
        invariant |out| == i
        invariant forall k :: 0 <= k < i ==>
          out[k] == Export.Record(top, branch, repos[k].name, Export.TagList(Model(), e, repos[k].id))
      {
        var tags := Export.TagStrings(Model(), e, repos[i].id);
        out := out + [Export.Record(top, branch, repos[i].name, if tags.Some? then tags.value else [])];
        i := i + 1;
      }
    }

    /**
     * `_emit_ecosystem_json`: the node's repos in case-insensitive URL order at the current
     * branch, then each child, in case-insensitive name order, with its name pushed on the
     * branch while its subtree is emitted. The branch is as it was when the call returns.
     */
    method EmitEcosystem(top: string, branch: Branch, e: Id, ghost rank: Id -> nat) returns (out: seq<Export.Record>)
      requires Store.Exportable(Model()) && Export.RankedBy(Model(), rank)
      modifies branch
      ensures branch.items == old(branch.items)
      ensures out == Export.Emit(Model(), top, old(branch.items), e, rank)
      decreases rank(e), 2
    {
      var own := EmitRepos(top, branch.items, e);
      var below := EmitChildren(top, branch, e, rank);
      out := own + below;
    }

    /** The child loop of `_emit_ecosystem_json`, over the children in name order. */
    method EmitChildren(top: string, branch: Branch, e: Id, ghost rank: Id -> nat) returns (out: seq<Export.Record>)
      requires Store.Exportable(Model()) && Export.RankedBy(Model(), rank)
      modifies branch
      ensures branch.items == old(branch.items)
      ensures out == Export.EmitChildren(Model(), top, old(branch.items), e, |Export.Children(Model(), e)|, rank)
      decreases rank(e), 1
    {
      ghost var s := Model();
      ghost var items := branch.items;
      var kids := Export.Children(Model(), e);
      out := [];
      var j := 0;
      while j < |kids|
        invariant 0 <= j <= |kids| && kids == Export.Children(s, e)
        invariant branch.items == items && Model() == s
        invariant out == Export.EmitChildren(s, top, items, e, j, rank)
      {
        var kid := kids[j];
        var sub := EmitChild(top, branch, e, kid, rank);
        Export.EmitChildrenStep(s, top, items, e, j, rank);
        out := out + sub;
        j := j + 1;
      }
    }

    /** One pass of the child loop of `_emit_ecosystem_json`: push the child's name, emit its subtree, pop. */
    method EmitChild(top: string, branch: Branch, e: Id, kid: Export.Entry, ghost rank: Id -> nat) returns (sub: seq<Export.Record>)
      requires Store.Exportable(Model()) && Export.RankedBy(Model(), rank) && Store.HasChild(Model(), e, kid.id)
      modifies branch
      ensures branch.items == old(branch.items)
      ensures sub == Export.Emit(Model(), top, old(branch.items) + [kid.name], kid.id, rank)
      decreases rank(e), 0
    {
      branch.Push(kid.name);
      sub := EmitEcosystem(top, branch, kid.id, rank);
      branch.Pop();
      assert (old(branch.items) + [kid.name])[..|old(branch.items)|] == old(branch.items);
    }

    /**
     * `export_json`: the named ecosystem (an unknown one raises `InvalidEcosystem`), or, with no
     * name or an empty one, every ecosystem in case-insensitive name order; each root is emitted
     * with an empty branch. The records are what the source writes to the output file.
     */
    method ExportJson(filter: Option<string>, ghost rank: Id -> nat) returns (r: Result<seq<Export.Record>, ErrorKind>)
      requires Store.Interned(Model()) && Store.Exportable(Model()) && Export.RankedBy(Model(), rank)
      ensures r == Export.ExportJson(Model(), filter, rank)
    {
      var keys: seq<Export.Entry>;
      if filter.Some? && filter.value != [] {
        if filter.value !in ecoIds {
          return Err(Store.InvalidEcosystem);
        }
        keys := [Export.Entry(ecoIds[filter.value], filter.value)];
      } else {
        keys := Export.Enumerate(Export.AllRoots(Model()));
      }
      assert Export.Roots(Model(), filter) == Ok(keys);
      var out := EmitRoots(keys, rank);
      return Ok(out);
    }

    /** The loop of `export_json`: each root emitted with a fresh, empty branch. */
    method EmitRoots(keys: seq<Export.Entry>, ghost rank: Id -> nat) returns (out: seq<Export.Record>)
      requires Store.Exportable(Model()) && Export.RankedBy(Model(), rank)
      ensures out == Export.EmitRoots(Model(), keys, rank)
    {
      out := [];
      var i := 0;
      while i < |keys|
        invariant 0 <= i <= |keys|
        invariant out == Export.EmitRoots(Model(), keys[..i], rank)
      {
        var branch := new Branch();
        var sub := EmitEcosystem(keys[i].name, branch, keys[i].id, rank);
        assert keys[..i + 1][..i] == keys[..i];
        out := out + sub;
        i := i + 1;
      }
      assert keys[..i] == keys;
    }
  }

  /** The `branch` list of the exporter, extended and shortened in place. */
  class Branch {
    var items: seq<string>

    constructor ()
      ensures items == []
    {
      items := [];
    }

    /** `branch.append(name)`. */
    method Push(name: string)
      modifies this
      ensures items == old(items) + [name]
    {
      items := items + [name];
    }

    /** `branch.pop()`. */
    method Pop()
      requires items != []
      modifies this
      ensures items == old(items)[..|old(items)| - 1]
    {
      items := items[..|items| - 1];
    }
  }

  /** The filtering loop of `load`: stamped files, before `maxDate` when one is given, in listing order. */
  method FilterFiles(listing: seq<Migrations.DirEntry>, maxDate: Option<string>) returns (files: seq<Migrations.DirEntry>)
    ensures files == Migrations.Filter(listing, maxDate)
  {
    files := [];
    var i := 0;
    while i < |listing|
      invariant 0 <= i <= |listing|
      invariant files == Migrations.Filter(listing[..i], maxDate)
    {
      var f := listing[i];
      if f.isFile && Timestamp.HasValidTimestamp(f.name) {
        if maxDate.None? || Less(f.name, maxDate.value) {
          files := files + [f];
        }
      }
      assert listing[..i + 1][..i] == listing[..i];
      i := i + 1;
    }
    assert listing[..i] == listing;
  }

  /** What the dispatch of a line's keyword and tokens does to a state. */
  function Handle(s: Store.Store, keyword: string, tokens: seq<string>): Store.Outcome {
    match Migrations.ParseCommand(keyword, tokens)
    case Ignore => Ok(s)
    case Reject(k) => Err(k)
    case Run(c) => Migrations.Execute(s, c)
  }
}
