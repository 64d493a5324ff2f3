/**
 * The JSON Lines export as a sequence of records: for each root, depth first, a node's
 * repos in case-insensitive URL order, then its children in case-insensitive name order,
 * each child's name pushed onto the branch while it is visited.
 */
module Export {
  import opened Wrappers
  import opened Text
  import opened Store

  // ----- Ordering named ids -----

  /** An id with its name: a repo with its URL, an ecosystem with its name, a tag with its text. */
  datatype Entry = Entry(id: Id, name: string)

  /**
   * The order the exporter sorts by: the case-folded name first. Names that fold alike are
   * ordered by the name itself and then by id, so that the order is total.
   */
  predicate Before(a: Entry, b: Entry) {
    || Less(Fold(a.name), Fold(b.name))
    || (Fold(a.name) == Fold(b.name) && (Less(a.name, b.name) || (a.name == b.name && a.id < b.id)))
  }

  lemma BeforeIrreflexive(a: Entry)
    ensures !Before(a, a)
  {
    LessIrreflexive(Fold(a.name));
    LessIrreflexive(a.name);
  }

  lemma BeforeTransitive(a: Entry, b: Entry, c: Entry)
    requires Before(a, b) && Before(b, c)
    ensures Before(a, c)
  {
    var fa, fb, fc := Fold(a.name), Fold(b.name), Fold(c.name);
    if Less(fa, fb) && Less(fb, fc) {
      LessTransitive(fa, fb, fc);
    } else if a.name != b.name && b.name != c.name && fa == fb && fb == fc {
      LessTransitive(a.name, b.name, c.name);
    }
  }

  lemma BeforeTotal(a: Entry, b: Entry)
    ensures a == b || Before(a, b) || Before(b, a)
  {
    LessTotal(Fold(a.name), Fold(b.name));
    LessTotal(a.name, b.name);
  }

  lemma BeforeAsymmetric(a: Entry, b: Entry)
    requires Before(a, b)
    ensures !Before(b, a)
  {
    if Before(b, a) {
      BeforeTransitive(a, b, a);
      BeforeIrreflexive(a);
    }
  }

  /** The order is by case-folded name first. */
  lemma BeforeFoldOrdered(a: Entry, b: Entry)
    requires Before(a, b)
    ensures LessEq(Fold(a.name), Fold(b.name))
  {
  }

  predicate IsLeast(m: Entry, s: set<Entry>) {
    m in s && forall x :: x in s && x != m ==> Before(m, x)
  }

  lemma {:induction false} LeastExists(s: set<Entry>)
    requires s != {}
    ensures exists m :: IsLeast(m, s)
    decreases |s|
  {
    var x :| x in s;
    if s == {x} {
      assert IsLeast(x, s);
    } else {
      LeastExists(s - {x});
      var m :| IsLeast(m, s - {x});
      BeforeTotal(m, x);
      if Before(m, x) {
        assert IsLeast(m, s);
      } else {
        forall y | y in s && y != x ensures Before(x, y) {
          if y != m {
            BeforeTransitive(x, m, y);
          }
        }
        assert IsLeast(x, s);
      }
    }
  }

  lemma LeastUnique(s: set<Entry>)
    ensures forall a, b :: IsLeast(a, s) && IsLeast(b, s) ==> a == b
  {
    forall a, b | IsLeast(a, s) && IsLeast(b, s) ensures a == b {
      if a != b {
        BeforeAsymmetric(a, b);
      }
    }
  }

  predicate Ascending(r: seq<Entry>) {
    forall i, j :: 0 <= i < j < |r| ==> Before(r[i], r[j])
  }

  /** The entries of a set in ascending order: the `sort(key=casefold)` of the exporter. */
  function Enumerate(s: set<Entry>): (r: seq<Entry>)
    ensures |r| == |s|
    ensures forall x :: x in r <==> x in s
    ensures Ascending(r)
    decreases |s|
  {
    if s == {} then []
    else
      LeastExists(s);
      LeastUnique(s);
      var m :| IsLeast(m, s);
      [m] + Enumerate(s - {m})
  }

  /** Consecutive exported names are in case-insensitive order. */
  lemma EnumerateFoldOrdered(s: set<Entry>, i: nat, j: nat)
    requires i < j < |s|
    ensures LessEq(Fold(Enumerate(s)[i].name), Fold(Enumerate(s)[j].name))
  {
    BeforeFoldOrdered(Enumerate(s)[i], Enumerate(s)[j]);
  }

  // ----- What each node contributes -----

  /** One line of the export. */
  datatype Record = Record(ecoName: string, branch: seq<string>, repoUrl: string, tags: seq<string>)

  function RepoEntries(s: Store, e: Id): set<Entry>
    requires Exportable(s)
  {
    set r | r in Lookup(s.ecoToRepos, e) :: Entry(r, s.repoIdToUrl[r])
  }

  function ChildEntries(s: Store, e: Id): set<Entry>
    requires Exportable(s)
  {
    set c | c in Lookup(s.parentToChildren, e) :: Entry(c, s.ecoIdToName[c])
  }

  /** A node's children with their names, in the order the exporter visits them. */
  function Children(s: Store, e: Id): (r: seq<Entry>)
    requires Exportable(s)
    ensures forall i :: 0 <= i < |r| ==> HasChild(s, e, r[i].id) && r[i].name == s.ecoIdToName[r[i].id]
  {
    var r := Enumerate(ChildEntries(s, e));
    assert forall i :: 0 <= i < |r| ==> r[i] in ChildEntries(s, e);
    r
  }

  /** Every child is visited, in case-insensitive name order. */
  lemma ChildrenComplete(s: Store, e: Id)
    requires Exportable(s)
    ensures forall c :: HasChild(s, e, c) ==> Entry(c, s.ecoIdToName[c]) in Children(s, e)
    ensures forall i, j :: 0 <= i < j < |Children(s, e)| ==>
      LessEq(Fold(Children(s, e)[i].name), Fold(Children(s, e)[j].name))
  {
    var kids := Children(s, e);
    forall c | HasChild(s, e, c) ensures Entry(c, s.ecoIdToName[c]) in kids {
      assert Entry(c, s.ecoIdToName[c]) in ChildEntries(s, e);
    }
    forall i, j | 0 <= i < j < |kids| ensures LessEq(Fold(kids[i].name), Fold(kids[j].name)) {
      EnumerateFoldOrdered(ChildEntries(s, e), i, j);
    }
  }

  /** `_tag_strings_for_eco_repo`: the tag names of a pair, or None when the pair has no entry. */
  function TagStrings(s: Store, e: Id, r: Id): (res: Option<seq<string>>)
    requires Exportable(s)
    ensures res.None? <==> (e, r) !in s.ecoRepoToTags
    ensures res.Some? ==> |res.value| == |s.ecoRepoToTags[(e, r)]|
  {
    if (e, r) in s.ecoRepoToTags then
      var tags := Enumerate(set t | t in s.ecoRepoToTags[(e, r)] :: Entry(t, s.tagIdToName[t]));
      assert |set t | t in s.ecoRepoToTags[(e, r)] :: Entry(t, s.tagIdToName[t])| == |s.ecoRepoToTags[(e, r)]| by {
        IdsCard(s.ecoRepoToTags[(e, r)], s.tagIdToName);
      }
      Some(seq(|tags|, i requires 0 <= i < |tags| => tags[i].name))
    else None
  }

  /** Tagging entries by distinct ids keeps the count. */
  lemma {:induction false} IdsCard(ids: set<Id>, names: map<Id, string>)
    requires forall t :: t in ids ==> t in names
    ensures |set t | t in ids :: Entry(t, names[t])| == |ids|
    decreases |ids|
  {
    if ids != {} {
      var t :| t in ids;
      IdsCard(ids - {t}, names);
      assert (set u | u in ids :: Entry(u, names[u])) == (set u | u in ids - {t} :: Entry(u, names[u])) + {Entry(t, names[t])};
    }
  }

  /** The `tags` field: the tag names, or `[]` when there are none. */
  function TagList(s: Store, e: Id, r: Id): seq<string>
    requires Exportable(s)
  {
    var t := TagStrings(s, e, r);
    if t.Some? then t.value else []
  }

  /** With interning in place, a record lists exactly the tags recorded for its pair. */
  lemma TagListIsRecordedTags(s: Store, e: Id, r: Id, t: string)
    requires Valid(s)
    ensures t in TagList(s, e, r) <==> Tagged(s, e, r, t)
  {
    if (e, r) in s.ecoRepoToTags {
      var set_ := set x | x in s.ecoRepoToTags[(e, r)] :: Entry(x, s.tagIdToName[x]);
      var tags := Enumerate(set_);
      var names := TagList(s, e, r);
      assert |names| == |tags| && forall i :: 0 <= i < |names| ==> names[i] == tags[i].name;
      if t in names {
        var i :| 0 <= i < |names| && names[i] == t;
        assert tags[i] in set_;
      }
      if Tagged(s, e, r, t) {
        var x := s.tagIds[t];
        assert Entry(x, t) in set_;
        var i :| 0 <= i < |tags| && tags[i] == Entry(x, t);
        assert names[i] == t;
      }
    }
  }

  /** The records of a node's own repos, in the order given. */
  function RepoRecords(s: Store, top: string, branch: seq<string>, e: Id, repos: seq<Entry>): (r: seq<Record>)
    requires Exportable(s)
    ensures |r| == |repos|
    ensures forall i :: 0 <= i < |r| ==> r[i].ecoName == top && r[i].branch == branch && r[i].repoUrl == repos[i].name
  {
    seq(|repos|, i requires 0 <= i < |repos| => Record(top, branch, repos[i].name, TagList(s, e, repos[i].id)))
  }

  // ----- Depth-first emission -----

  /**
   * A rank that strictly decreases from parent to child. The source has no guard against
   * cycles (`ecocon` accepts them, and the exporter would recurse forever); the model exports
   * only graphs that have such a rank.
   */
  ghost predicate RankedBy(s: Store, rank: Id -> nat) {
    forall p, c :: HasChild(s, p, c) ==> rank(c) < rank(p)
  }

  /** `_emit_ecosystem_json`: a node's repos, then each child's subtree with its name on the branch. */
  function Emit(s: Store, top: string, branch: seq<string>, e: Id, ghost rank: Id -> nat): seq<Record>
    requires Exportable(s) && RankedBy(s, rank)
    decreases rank(e), 1
  {
    OwnRecords(s, top, branch, e) + EmitChildren(s, top, branch, e, |Children(s, e)|, rank)
  }

  /** The child loop of `_emit_ecosystem_json` after its first `n` passes. */
  function EmitChildren(s: Store, top: string, branch: seq<string>, e: Id, n: nat, ghost rank: Id -> nat): seq<Record>
    requires Exportable(s) && RankedBy(s, rank)
    requires n <= |Children(s, e)|
    decreases rank(e), 0, n
  {
    if n == 0 then []
    else
      var kid := Children(s, e)[n - 1];
      EmitChildren(s, top, branch, e, n - 1, rank) + Emit(s, top, branch + [kid.name], kid.id, rank)
  }

  /** One more pass of the child loop appends the next child's subtree. */
  lemma EmitChildrenStep(s: Store, top: string, branch: seq<string>, e: Id, n: nat, rank: Id -> nat)
    requires Exportable(s) && RankedBy(s, rank)
    requires n < |Children(s, e)|
    ensures EmitChildren(s, top, branch, e, n + 1, rank)
      == EmitChildren(s, top, branch, e, n, rank) + Emit(s, top, branch + [Children(s, e)[n].name], Children(s, e)[n].id, rank)
  {
  }

  /** Every record under a node names the root it was reached from and extends the node's branch. */
  lemma {:induction false} EmitShape(s: Store, top: string, branch: seq<string>, e: Id, rank: Id -> nat)
    requires Exportable(s) && RankedBy(s, rank)
    ensures forall rec :: rec in Emit(s, top, branch, e, rank) ==>
      rec.ecoName == top && |rec.branch| >= |branch| && rec.branch[..|branch|] == branch
    decreases rank(e), 1
  {
    var own := OwnRecords(s, top, branch, e);
    var rest := EmitChildren(s, top, branch, e, |Children(s, e)|, rank);
    assert Emit(s, top, branch, e, rank) == own + rest;
    EmitChildrenShape(s, top, branch, e, |Children(s, e)|, rank);
    forall rec | rec in own ensures rec.ecoName == top && rec.branch == branch {
      var i :| 0 <= i < |own| && own[i] == rec;
    }
  }

  lemma {:induction false} EmitChildrenShape(s: Store, top: string, branch: seq<string>, e: Id, n: nat, rank: Id -> nat)
    requires Exportable(s) && RankedBy(s, rank)
    requires n <= |Children(s, e)|
    ensures forall rec :: rec in EmitChildren(s, top, branch, e, n, rank) ==>
      rec.ecoName == top && |rec.branch| > |branch| && rec.branch[..|branch|] == branch
    decreases rank(e), 0, n
  {
    if n != 0 {
      var kid := Children(s, e)[n - 1];
      EmitChildrenShape(s, top, branch, e, n - 1, rank);
      EmitShape(s, top, branch + [kid.name], kid.id, rank);
      forall rec | rec in Emit(s, top, branch + [kid.name], kid.id, rank)
        ensures rec.branch[..|branch|] == branch
      {
        assert rec.branch[..|branch|] == rec.branch[..|branch| + 1][..|branch|];
      }
    }
  }

  lemma RepoEntriesCard(s: Store, e: Id)
    requires Exportable(s)
    ensures |RepoEntries(s, e)| == |Lookup(s.ecoToRepos, e)|
  {
    IdsCard(Lookup(s.ecoToRepos, e), s.repoIdToUrl);
  }

  lemma RepoEntriesMembers(s: Store, e: Id)
    requires Exportable(s)
    ensures forall r :: r in Lookup(s.ecoToRepos, e) ==> Entry(r, s.repoIdToUrl[r]) in RepoEntries(s, e)
    ensures forall x :: x in RepoEntries(s, e) ==> x.id in Lookup(s.ecoToRepos, e) && x.name == s.repoIdToUrl[x.id]
  {
  }

  /** The records of a node's own repos, in the exporter's order. */
  function OwnRecords(s: Store, top: string, branch: seq<string>, e: Id): (r: seq<Record>)
    requires Exportable(s)
    ensures |r| == |Lookup(s.ecoToRepos, e)|
    ensures forall i :: 0 <= i < |r| ==> r[i].ecoName == top && r[i].branch == branch
  {
    RepoEntriesCard(s, e);
    RepoRecords(s, top, branch, e, Enumerate(RepoEntries(s, e)))
  }

  /** Own records come in case-insensitive URL order. */
  lemma OwnRecordsOrdered(s: Store, top: string, branch: seq<string>, e: Id)
    requires Exportable(s)
    ensures var own := OwnRecords(s, top, branch, e);
      forall i, j :: 0 <= i < j < |own| ==> LessEq(Fold(own[i].repoUrl), Fold(own[j].repoUrl))
  {
    var own := OwnRecords(s, top, branch, e);
    forall i, j | 0 <= i < j < |own| ensures LessEq(Fold(own[i].repoUrl), Fold(own[j].repoUrl)) {
      EnumerateFoldOrdered(RepoEntries(s, e), i, j);
    }
  }

  /** Every member repo has an own record. */
  lemma OwnRecordsCover(s: Store, top: string, branch: seq<string>, e: Id, r: Id)
    requires Exportable(s)
    requires r in Lookup(s.ecoToRepos, e)
    ensures exists i :: 0 <= i < |OwnRecords(s, top, branch, e)| && OwnRecords(s, top, branch, e)[i].repoUrl == s.repoIdToUrl[r]
  {
    var entries := Enumerate(RepoEntries(s, e));
    var x := Entry(r, s.repoIdToUrl[r]);
    RepoEntriesMembers(s, e);
    assert x in entries;
    var i :| 0 <= i < |entries| && entries[i] == x;
    assert OwnRecords(s, top, branch, e)[i].repoUrl == s.repoIdToUrl[r];
  }

  /** Every own record is a member repo's. */
  lemma OwnRecordsMembers(s: Store, top: string, branch: seq<string>, e: Id, i: nat)
    requires Exportable(s)
    requires i < |OwnRecords(s, top, branch, e)|
    ensures exists r :: r in Lookup(s.ecoToRepos, e) && OwnRecords(s, top, branch, e)[i].repoUrl == s.repoIdToUrl[r]
  {
    var entries := Enumerate(RepoEntries(s, e));
    RepoEntriesMembers(s, e);
    assert entries[i] in RepoEntries(s, e);
    assert OwnRecords(s, top, branch, e)[i].repoUrl == s.repoIdToUrl[entries[i].id];
  }

  lemma SuffixBelow(own: seq<Record>, rest: seq<Record>, depth: nat)
    requires forall rec :: rec in rest ==> |rec.branch| > depth
    ensures forall i :: |own| <= i < |own + rest| ==> |(own + rest)[i].branch| > depth
  {
    forall i | |own| <= i < |own + rest| ensures |(own + rest)[i].branch| > depth {
      assert (own + rest)[i] == rest[i - |own|];
    }
  }

  /** The record lies under one of `kids`: its branch is longer than `branch` and continues with that child's name. */
  predicate UnderChild(rec: Record, branch: seq<string>, kids: seq<Entry>) {
    exists k :: 0 <= k < |kids| && |rec.branch| > |branch| && rec.branch[..|branch| + 1] == branch + [kids[k].name]
  }

  lemma UnderChildIntro(rec: Record, branch: seq<string>, kids: seq<Entry>, k: nat)
    requires k < |kids| && |rec.branch| > |branch| && rec.branch[..|branch| + 1] == branch + [kids[k].name]
    ensures UnderChild(rec, branch, kids)
  {
  }

  lemma SuffixUnderChild(own: seq<Record>, rest: seq<Record>, branch: seq<string>, kids: seq<Entry>)
    requires forall rec :: rec in rest ==> UnderChild(rec, branch, kids)
    ensures forall i :: |own| <= i < |own + rest| ==> UnderChild((own + rest)[i], branch, kids)
  {
    forall i | |own| <= i < |own + rest| ensures UnderChild((own + rest)[i], branch, kids) {
      assert (own + rest)[i] == rest[i - |own|];
    }
  }

  /** After n passes of the child loop, each record lies under the k-th child for some k < n, returned as `k`. */
  lemma {:induction false} EmitChildrenBelow(s: Store, top: string, branch: seq<string>, e: Id, n: nat, rank: Id -> nat, rec: Record)
    returns (k: nat)
    requires Exportable(s) && RankedBy(s, rank)
    requires n <= |Children(s, e)|
    requires rec in EmitChildren(s, top, branch, e, n, rank)
    ensures k < n && |rec.branch| > |branch| && rec.branch[..|branch| + 1] == branch + [Children(s, e)[k].name]
    decreases n
  {
    var kid := Children(s, e)[n - 1];
    var below := branch + [kid.name];
    EmitChildrenStep(s, top, branch, e, n - 1, rank);
    if rec in EmitChildren(s, top, branch, e, n - 1, rank) {
      k := EmitChildrenBelow(s, top, branch, e, n - 1, rank, rec);
    } else {
      EmitShape(s, top, below, kid.id, rank);
      assert rec in Emit(s, top, below, kid.id, rank);
      assert rec.branch[..|branch| + 1] == rec.branch[..|below|];
      k := n - 1;
    }
  }

  /** Past a node's own records, every record lies below one of its children: deeper, and under that child's name. */
  lemma BelowChildren(s: Store, top: string, branch: seq<string>, e: Id, rank: Id -> nat)
    requires Exportable(s) && RankedBy(s, rank)
    ensures var out := Emit(s, top, branch, e, rank);
      forall i :: |OwnRecords(s, top, branch, e)| <= i < |out| ==> |out[i].branch| > |branch|
    ensures var out := Emit(s, top, branch, e, rank);
      forall i :: |OwnRecords(s, top, branch, e)| <= i < |out| ==> UnderChild(out[i], branch, Children(s, e))
  {
    var own := OwnRecords(s, top, branch, e);
    var rest := EmitChildren(s, top, branch, e, |Children(s, e)|, rank);
    assert Emit(s, top, branch, e, rank) == own + rest;
    EmitChildrenShape(s, top, branch, e, |Children(s, e)|, rank);
    SuffixBelow(own, rest, |branch|);
    forall rec | rec in rest ensures UnderChild(rec, branch, Children(s, e)) {
      var k := EmitChildrenBelow(s, top, branch, e, |Children(s, e)|, rank, rec);
      UnderChildIntro(rec, branch, Children(s, e), k);
    }
    SuffixUnderChild(own, rest, branch, Children(s, e));
  }

  /**
   * A node's output begins with its own records, one per member repo at the node's own
   * branch; every later record lies below a child.
   */
  lemma EmitOwnReposFirst(s: Store, top: string, branch: seq<string>, e: Id, rank: Id -> nat)
    requires Exportable(s) && RankedBy(s, rank)
    ensures var out := Emit(s, top, branch, e, rank);
      var n := |Lookup(s.ecoToRepos, e)|;
      && |out| >= n
      && out[..n] == OwnRecords(s, top, branch, e)
      && (forall i :: n <= i < |out| ==> |out[i].branch| > |branch|)
  {
    var own := OwnRecords(s, top, branch, e);
    var rest := EmitChildren(s, top, branch, e, |Children(s, e)|, rank);
    assert Emit(s, top, branch, e, rank) == own + rest;
    assert (own + rest)[..|own|] == own;
    BelowChildren(s, top, branch, e, rank);
  }

  // ----- `export_json` -----

  /** The roots `export_json` starts from, in order, or the error for an unknown filter. */
  function Roots(s: Store, filter: Option<string>): (r: Result<seq<Entry>, ErrorKind>)
    requires Interned(s)
    ensures filter.Some? && filter.value != [] && filter.value !in s.ecoIds <==> r.Err?
    ensures r.Err? ==> r.error == InvalidEcosystem
  {
    if filter.Some? && filter.value != [] then
      if filter.value !in s.ecoIds then Err(InvalidEcosystem)
      else Ok([Entry(s.ecoIds[filter.value], filter.value)])
    else Ok(Enumerate(AllRoots(s)))
  }

  /** Every live ecosystem name with its id. */
  function AllRoots(s: Store): set<Entry> {
    set n | n in s.ecoIds :: Entry(s.ecoIds[n], n)
  }

  /** A root is determined by its name. */
  lemma AllRootsNamed(s: Store, a: Entry, b: Entry)
    requires a in AllRoots(s) && b in AllRoots(s)
    ensures a.name == b.name ==> a == b
  {
  }

  /** The output of the loop over roots, each starting with an empty branch. */
  function EmitRoots(s: Store, roots: seq<Entry>, ghost rank: Id -> nat): seq<Record>
    requires Exportable(s) && RankedBy(s, rank)
    decreases |roots|
  {
    if roots == [] then []
    else
      var last := roots[|roots| - 1];
      EmitRoots(s, roots[..|roots| - 1], rank) + Emit(s, last.name, [], last.id, rank)
  }

  function ExportJson(s: Store, filter: Option<string>, ghost rank: Id -> nat): (r: Result<seq<Record>, ErrorKind>)
    requires Interned(s) && Exportable(s) && RankedBy(s, rank)
    ensures r.Err? <==> Roots(s, filter).Err?
  {
    var roots := Roots(s, filter);
    if roots.Err? then Err(roots.error) else Ok(EmitRoots(s, roots.value, rank))
  }

  /** The records whose root is `name`. */
  function RecordsOf(records: seq<Record>, name: string): (r: seq<Record>)
    ensures forall rec :: rec in r <==> rec in records && rec.ecoName == name
    decreases |records|
  {
    if records == [] then []
    else
      var front := RecordsOf(records[..|records| - 1], name);
      var last := records[|records| - 1];
      assert forall rec :: rec in records <==> rec in records[..|records| - 1] || rec == last;
      if last.ecoName == name then front + [last] else front
  }

  lemma {:induction false} RecordsOfConcat(a: seq<Record>, b: seq<Record>, name: string)
    ensures RecordsOf(a + b, name) == RecordsOf(a, name) + RecordsOf(b, name)
    decreases |b|
  {
    if b == [] {
      assert a + b == a;
    } else {
      assert (a + b)[..|a + b| - 1] == a + b[..|b| - 1];
      RecordsOfConcat(a, b[..|b| - 1], name);
    }
  }

  lemma {:induction false} RecordsOfAll(records: seq<Record>, name: string)
    requires forall rec :: rec in records ==> rec.ecoName == name
    ensures RecordsOf(records, name) == records
    decreases |records|
  {
    if records != [] {
      RecordsOfAll(records[..|records| - 1], name);
      assert records[..|records| - 1] + [records[|records| - 1]] == records;
    }
  }

  lemma {:induction false} RecordsOfNone(records: seq<Record>, name: string)
    requires forall rec :: rec in records ==> rec.ecoName != name
    ensures RecordsOf(records, name) == []
    decreases |records|
  {
    if records != [] {
      RecordsOfNone(records[..|records| - 1], name);
    }
  }

  /** Over roots with distinct names, picking one root's records gives that root's subtree. */
  lemma {:induction false} EmitRootsRestrict(s: Store, roots: seq<Entry>, rank: Id -> nat, root: Entry)
    requires Exportable(s) && RankedBy(s, rank)
    requires forall i, j :: 0 <= i < j < |roots| ==> roots[i].name != roots[j].name
    ensures root in roots ==> RecordsOf(EmitRoots(s, roots, rank), root.name) == Emit(s, root.name, [], root.id, rank)
    ensures (forall i :: 0 <= i < |roots| ==> roots[i].name != root.name) ==> RecordsOf(EmitRoots(s, roots, rank), root.name) == []
    decreases |roots|
  {
    if roots != [] {
      var front := roots[..|roots| - 1];
      var last := roots[|roots| - 1];
      EmitRootsRestrict(s, front, rank, root);
      RecordsOfConcat(EmitRoots(s, front, rank), Emit(s, last.name, [], last.id, rank), root.name);
      EmitShape(s, last.name, [], last.id, rank);
      if last.name == root.name {
        RecordsOfAll(Emit(s, last.name, [], last.id, rank), root.name);
        assert forall i :: 0 <= i < |front| ==> front[i].name != root.name;
        assert root !in front;
      } else {
        RecordsOfNone(Emit(s, last.name, [], last.id, rank), root.name);
        assert RecordsOf(EmitRoots(s, roots, rank), root.name) == RecordsOf(EmitRoots(s, front, rank), root.name) + [];
        if root in roots {
          assert root in front;
        }
      }
    }
  }

  /**
   * Exporting one ecosystem gives exactly the records of that ecosystem in the full export,
   * in the same order.
   */
  lemma FilteredExportIsRestriction(s: Store, name: string, rank: Id -> nat)
    requires Interned(s) && Exportable(s) && RankedBy(s, rank)
    requires name in s.ecoIds && name != []
    ensures ExportJson(s, Some(name), rank).Ok? && ExportJson(s, None, rank).Ok?
    ensures ExportJson(s, Some(name), rank).value == RecordsOf(ExportJson(s, None, rank).value, name)
  {
    var all := Enumerate(AllRoots(s));
    var root := Entry(s.ecoIds[name], name);
    assert root in AllRoots(s);
    forall i, j | 0 <= i < j < |all| ensures all[i].name != all[j].name {
      assert all[i] in AllRoots(s) && all[j] in AllRoots(s);
      AllRootsNamed(s, all[i], all[j]);
      BeforeIrreflexive(all[i]);
    }
    EmitRootsRestrict(s, all, rank, root);
    assert EmitRoots(s, [root], rank) == [] + Emit(s, name, [], root.id, rank);
  }

  /** Without a filter, or with an empty one, the roots are every live ecosystem in case-insensitive order. */
  lemma UnfilteredRoots(s: Store, filter: Option<string>)
    requires Interned(s)
    requires filter.None? || filter.value == []
    ensures Roots(s, filter).Ok?
    ensures forall n :: n in s.ecoIds <==> exists i :: 0 <= i < |Roots(s, filter).value| && Roots(s, filter).value[i].name == n
    ensures forall i, j :: 0 <= i < j < |Roots(s, filter).value| ==>
      LessEq(Fold(Roots(s, filter).value[i].name), Fold(Roots(s, filter).value[j].name))
  {
    var roots := Roots(s, filter).value;
    forall n ensures n in s.ecoIds <==> exists i :: 0 <= i < |roots| && roots[i].name == n {
      if n in s.ecoIds {
        assert Entry(s.ecoIds[n], n) in AllRoots(s);
        var i :| 0 <= i < |roots| && roots[i] == Entry(s.ecoIds[n], n);
      }
      if exists i :: 0 <= i < |roots| && roots[i].name == n {
        var i :| 0 <= i < |roots| && roots[i].name == n;
        assert roots[i] in AllRoots(s);
      }
    }
    forall i, j | 0 <= i < j < |roots| ensures LessEq(Fold(roots[i].name), Fold(roots[j].name)) {
      EnumerateFoldOrdered(AllRoots(s), i, j);
    }
  }
}
