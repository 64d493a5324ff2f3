/**
 * Replaying migrations: a line is a six-character keyword followed by arguments in the
 * tokenizer's syntax; a file is replayed line by line, recording errors and carrying on;
 * a directory contributes its timestamped files in stamp order.
 */
module Migrations {
  import opened Wrappers
  import opened Text
  import opened Store
  import ShlexParser
  import Timestamp

  // ----- Commands -----

  datatype Command =
    | EcoAdd(name: string)
    | RepAdd(eco: string, url: string, tags: seq<string>)
    | EcoCon(parent: string, child: string)
    | EcoDis(parent: string, child: string)
    | EcoRem(name: string)
    | RepMov(src: string, dst: string)
    | EcoMov(src: string, dst: string)
    | RepRem(eco: string, url: string)

  /** What a line's keyword and tokens ask for: nothing, a command, or an arity error. */
  datatype Dispatch = Ignore | Run(cmd: Command) | Reject(error: ErrorKind)

  /** The eight keywords the loader acts on. */
  predicate IsKeyword(k: string) {
    k in {"ecoadd", "repadd", "ecocon", "ecodis", "ecorem", "repmov", "ecomov", "reprem"}
  }

  /** How many arguments each keyword takes: exactly one, exactly two, or (`repadd`) at least two. */
  predicate ArityOk(k: string, n: nat) {
    if k == "ecoadd" || k == "ecorem" then n == 1
    else if k == "repadd" then n >= 2
    else n == 2
  }

  /** The `_cmd_*` handlers' arity checks and the keyword dispatch of `_load_file`. */
  function ParseCommand(keyword: string, tokens: seq<string>): (r: Dispatch)
    ensures r.Ignore? <==> !IsKeyword(keyword)
    ensures r.Run? <==> IsKeyword(keyword) && ArityOk(keyword, |tokens|)
  {
    if keyword == "ecoadd" then
      if |tokens| != 1 then Reject(EcoAddRequiresOneParameter) else Run(EcoAdd(tokens[0]))
    else if keyword == "repadd" then
      if |tokens| < 2 then Reject(RepAddRequiresAtLeastTwoParameters) else Run(RepAdd(tokens[0], tokens[1], tokens[2..]))
    else if keyword == "ecocon" then
      if |tokens| != 2 then Reject(EcoConRequiresExactlyTwoParameters) else Run(EcoCon(tokens[0], tokens[1]))
    else if keyword == "ecodis" then
      if |tokens| != 2 then Reject(EcoDisRequiresExactlyTwoParameters) else Run(EcoDis(tokens[0], tokens[1]))
    else if keyword == "ecorem" then
      if |tokens| != 1 then Reject(EcoRemRequiresExactlyTwoParameters) else Run(EcoRem(tokens[0]))
    else if keyword == "repmov" then
      if |tokens| != 2 then Reject(RepMovRequiresExactlyTwoParameters) else Run(RepMov(tokens[0], tokens[1]))
    else if keyword == "ecomov" then
      if |tokens| != 2 then Reject(EcoMovRequiresExactlyTwoParameters) else Run(EcoMov(tokens[0], tokens[1]))
    else if keyword == "reprem" then
      if |tokens| != 2 then Reject(RepRemRequiresExactlyTwoParameters) else Run(RepRem(tokens[0], tokens[1]))
    else Ignore
  }

  function Keyword(c: Command): string {
    match c
    case EcoAdd(_) => "ecoadd"
    case RepAdd(_, _, _) => "repadd"
    case EcoCon(_, _) => "ecocon"
    case EcoDis(_, _) => "ecodis"
    case EcoRem(_) => "ecorem"
    case RepMov(_, _) => "repmov"
    case EcoMov(_, _) => "ecomov"
    case RepRem(_, _) => "reprem"
  }

  function Arguments(c: Command): seq<string> {
    match c
    case EcoAdd(n) => [n]
    case RepAdd(e, u, ts) => [e, u] + ts
    case EcoCon(p, ch) => [p, ch]
    case EcoDis(p, ch) => [p, ch]
    case EcoRem(n) => [n]
    case RepMov(a, b) => [a, b]
    case EcoMov(a, b) => [a, b]
    case RepRem(e, u) => [e, u]
  }

  /** Every command is read back from its keyword and arguments. */
  lemma ParseCommandRoundTrip(c: Command)
    ensures ParseCommand(Keyword(c), Arguments(c)) == Run(c)
  {
    if c.RepAdd? {
      assert Arguments(c)[2..] == c.tags;
    }
  }

  /** Running a command: the mutator the handler calls. */
  function Execute(s: Store, c: Command): (r: Outcome)
    ensures r.Ok? ==> r.value.errors == s.errors && r.value.migrationCount == s.migrationCount
  {
    match c
    case EcoAdd(n) => Ok(AddEco(s, n))
    case RepAdd(e, u, ts) => AddRepo(s, e, u, ts)
    case EcoCon(p, ch) => ConnectEco(s, p, ch)
    case EcoDis(p, ch) => DisconnectEco(s, p, ch)
    case EcoRem(n) => RemoveEco(s, n)
    case RepMov(a, b) => MoveRepo(s, a, b)
    case EcoMov(a, b) => MoveEco(s, a, b)
    case RepRem(e, u) => RemoveRepoFromEcosystem(s, e, u)
  }

  /** `repmov X X`: the one command that can break the exporter's lookups. */
  predicate IsSelfMove(c: Command) {
    c.RepMov? && c.src == c.dst
  }

  /** Every command other than a self-move keeps the store's invariants. */
  lemma ExecuteValid(s: Store, c: Command)
    requires Valid(s) && !IsSelfMove(c) && Execute(s, c).Ok?
    ensures Valid(Execute(s, c).value)
  {
    match c
    case EcoAdd(n) => AddEcoValid(s, n);
    case RepAdd(e, u, ts) => AddRepoEffect(s, e, u, ts);
    case EcoCon(p, ch) => ConnectValid(s, p, ch);
    case EcoDis(p, ch) => DisconnectValid(s, p, ch);
    case EcoRem(n) => RemoveEcoValid(s, n);
    case RepMov(a, b) =>
      if b in s.repoIds { MoveRepoMerges(s, a, b); } else { MoveRepoRenameKeepsId(s, a, b); }
    case EcoMov(a, b) => MoveEcoKeepsRelations(s, a, b);
    case RepRem(e, u) => RemoveRepoEffect(s, e, u);
  }

  // ----- Lines -----

  /** `str.lstrip()`: drops leading whitespace. */
  function LStrip(s: string): (r: string)
    ensures |r| <= |s| && r == s[|s| - |r|..]
    ensures r == [] || !IsSpace(r[0])
    ensures forall i :: 0 <= i < |s| - |r| ==> IsSpace(s[i])
    decreases |s|
  {
    if s != [] && IsSpace(s[0]) then LStrip(s[1..]) else s
  }

  /** `_is_comment`: blank, whitespace-only, or `#` as the first non-whitespace character. */
  predicate IsComment(line: string) {
    var stripped := LStrip(line);
    |stripped| == 0 || stripped[0] == '#'
  }

  function Record(s: Store, k: ErrorKind, lineNum: nat, path: string): Store {
    s.(errors := s.errors + [TaxonomyError(k, lineNum, path)])
  }

  /** What a line comes to before it touches the taxonomy: skipped, an error, or a command. */
  datatype LineAction = Skip | Fail(error: ErrorKind) | Do(cmd: Command)

  /**
   * The store-independent part of one iteration of `_load_file`: comment and length checks,
   * tokenizing the remainder (a `ValueError` on an unterminated quote), then the keyword dispatch.
   */
  function Classify(line: string): (r: LineAction)
    ensures IsComment(line) || |line| < 6 ==> r == Skip
    ensures !IsComment(line) && |line| >= 6 && ShlexParser.Lex(line[6..]).UnterminatedQuote? ==> r == Fail(ValueError)
    ensures r.Do? ==> IsKeyword(line[..6])
  {
    if IsComment(line) || |line| < 6 then Skip
    else match ShlexParser.Lex(line[6..])
      case UnterminatedQuote => Fail(ValueError)
      case Tokens(tokens) =>
        match ParseCommand(line[..6], tokens)
        case Ignore => Skip
        case Reject(k) => Fail(k)
        case Run(c) => Do(c)
  }

  /** One iteration of `_load_file`'s loop. */
  function ApplyLine(s: Store, line: string, lineNum: nat, path: string): (r: Store)
    ensures r.migrationCount == s.migrationCount
    ensures r.errors == s.errors
      || (|r.errors| == |s.errors| + 1 && r.errors == s.errors + [TaxonomyError(r.errors[|s.errors|].message, lineNum, path)])
  {
    match Classify(line)
    case Skip => s
    case Fail(k) => Record(s, k, lineNum, path)
    case Do(c) =>
      match Execute(s, c)
      case Ok(s') => s'
      case Err(k) => Record(s, k, lineNum, path)
  }

  lemma RecordValid(s: Store, k: ErrorKind, lineNum: nat, path: string)
    requires Valid(s)
    ensures Valid(Record(s, k, lineNum, path))
  {
    var r := Record(s, k, lineNum, path);
    assert r.(errors := s.errors) == s;
  }

  /** Lines that are skipped leave the taxonomy exactly as it was: comments, short lines, unknown keywords. */
  lemma SkippedLinesChangeNothing(s: Store, line: string, lineNum: nat, path: string)
    requires IsComment(line) || |line| < 6
      || (!IsKeyword(line[..6]) && ShlexParser.Lex(line[6..]).Tokens?)
    ensures ApplyLine(s, line, lineNum, path) == s
  {
  }

  /** A line whose arguments have an unterminated quote records `ValueError`, whatever its keyword. */
  lemma UnterminatedQuoteRecorded(s: Store, line: string, lineNum: nat, path: string)
    requires !IsComment(line) && |line| >= 6 && ShlexParser.Lex(line[6..]) == ShlexParser.UnterminatedQuote
    ensures ApplyLine(s, line, lineNum, path).errors == s.errors + [TaxonomyError(ValueError, lineNum, path)]
  {
  }

  /** A command line either runs its command or records exactly one error, and never both. */
  lemma LineRunsOrRecords(s: Store, line: string, lineNum: nat, path: string)
    requires Classify(line).Do?
    ensures Execute(s, Classify(line).cmd).Ok? ==> ApplyLine(s, line, lineNum, path) == Execute(s, Classify(line).cmd).value
    ensures Execute(s, Classify(line).cmd).Err? ==>
      ApplyLine(s, line, lineNum, path) == Record(s, Execute(s, Classify(line).cmd).error, lineNum, path)
  {
  }

  /** Replaying a line keeps the invariants unless the line is `repmov X X`. */
  lemma ApplyLineValid(s: Store, line: string, lineNum: nat, path: string)
    requires Valid(s)
    requires Classify(line).Do? ==> !IsSelfMove(Classify(line).cmd)
    ensures Valid(ApplyLine(s, line, lineNum, path))
  {
    var a := Classify(line);
    var r := ApplyLine(s, line, lineNum, path);
    if a.Do? && Execute(s, a.cmd).Ok? {
      ExecuteValid(s, a.cmd);
    } else if r != s {
      RecordValid(s, r.errors[|s.errors|].message, lineNum, path);
    }
  }

  /** `_load_file`'s loop over `lines`, numbered from 1; written from the back so it follows the loop. */
  function ApplyLines(s: Store, lines: seq<string>, path: string): (r: Store)
    ensures r.migrationCount == s.migrationCount
    decreases |lines|
  {
    if lines == [] then s
    else ApplyLine(ApplyLines(s, lines[..|lines| - 1], path), lines[|lines| - 1], |lines|, path)
  }

  /** Errors recorded for a file carry its path and strictly increasing line numbers within it. */
  predicate ErrorsFrom(added: seq<TaxonomyError>, path: string, count: nat) {
    && (forall i :: 0 <= i < |added| ==> added[i].path == path && 1 <= added[i].lineNum <= count)
    && (forall i, j :: 0 <= i < j < |added| ==> added[i].lineNum < added[j].lineNum)
  }

  /** One more line either leaves the errors alone or appends one naming that line. */
  lemma ErrorsFromStep(base: seq<TaxonomyError>, mid: seq<TaxonomyError>, r: seq<TaxonomyError>, path: string, n: nat)
    requires 1 <= n && |base| <= |mid| && mid[..|base|] == base && ErrorsFrom(mid[|base|..], path, n - 1)
    requires r == mid || (|r| == |mid| + 1 && r == mid + [TaxonomyError(r[|mid|].message, n, path)])
    ensures |base| <= |r| && r[..|base|] == base && ErrorsFrom(r[|base|..], path, n)
  {
    if r != mid {
      var added := r[|base|..];
      assert added == mid[|base|..] + [r[|mid|]];
      assert forall i :: 0 <= i < |added| - 1 ==> added[i] == mid[|base|..][i];
    }
  }

  /** Replaying a file only appends errors, each naming the file and one of its lines, in line order. */
  lemma {:induction false} ApplyLinesAppendsErrors(s: Store, lines: seq<string>, path: string)
    ensures |ApplyLines(s, lines, path).errors| >= |s.errors|
    ensures ApplyLines(s, lines, path).errors[..|s.errors|] == s.errors
    ensures ErrorsFrom(ApplyLines(s, lines, path).errors[|s.errors|..], path, |lines|)
    decreases |lines|
  {
    if lines != [] {
      var front := lines[..|lines| - 1];
      var mid := ApplyLines(s, front, path);
      ApplyLinesAppendsErrors(s, front, path);
      var r := ApplyLine(mid, lines[|lines| - 1], |lines|, path);
      ErrorsFromStep(s.errors, mid.errors, r.errors, path, |lines|);
    } else {
      assert s.errors[|s.errors|..] == [];
    }
  }

  lemma {:induction false} ApplyLinesValid(s: Store, lines: seq<string>, path: string)
    requires Valid(s)
    requires forall i :: 0 <= i < |lines| && Classify(lines[i]).Do? ==> !IsSelfMove(Classify(lines[i]).cmd)
    ensures Valid(ApplyLines(s, lines, path))
    decreases |lines|
  {
    if lines != [] {
      var front := lines[..|lines| - 1];
      ApplyLinesValid(s, front, path);
      ApplyLineValid(ApplyLines(s, front, path), lines[|lines| - 1], |lines|, path);
    }
  }

  /** `content.split("\n")`: always at least one line; the separators are dropped. */
  function SplitLines(content: string): (r: seq<string>)
    ensures |r| >= 1
    ensures forall i, j :: 0 <= i < |r| && 0 <= j < |r[i]| ==> r[i][j] != '\n'
    decreases |content|
  {
    if content == [] then [[]]
    else
      var rest := SplitLines(content[1..]);
      if content[0] == '\n' then [[]] + rest
      else [[content[0]] + rest[0]] + rest[1..]
  }

  /** `"\n".join(lines)`. */
  function JoinLines(lines: seq<string>): string
    requires |lines| >= 1
    decreases |lines|
  {
    if |lines| == 1 then lines[0] else lines[0] + "\n" + JoinLines(lines[1..])
  }

  /** Splitting loses nothing: joining the lines with newlines gives the content back. */
  lemma {:induction false} SplitLinesJoin(content: string)
    ensures JoinLines(SplitLines(content)) == content
    decreases |content|
  {
    if content != [] {
      var rest := SplitLines(content[1..]);
      SplitLinesJoin(content[1..]);
      if content[0] == '\n' {
        assert SplitLines(content)[1..] == rest;
      } else {
        var r := SplitLines(content);
        if |rest| == 1 {
          assert r == [[content[0]] + rest[0]];
        } else {
          assert r[1..] == rest[1..];
          assert JoinLines(rest) == rest[0] + "\n" + JoinLines(rest[1..]);
        }
      }
    }
  }

  /** `_load_file` on a file's content. */
  function LoadFile(s: Store, path: string, content: string): (r: Store)
    ensures r.migrationCount == s.migrationCount
  {
    ApplyLines(s, SplitLines(content), path)
  }

  // ----- Directories -----

  /**
   * One directory entry as `os.listdir` and `os.path.isfile` see it, with the file's content as
   * `f.read()` returns it in text mode: `"\r\n"` and a lone `"\r"` already read as `"\n"`.
   */
  datatype DirEntry = DirEntry(name: string, isFile: bool, content: string)

  /** `os.path.join(root, name)` for a name that is not absolute. */
  function JoinPath(root: string, name: string): string {
    if root == [] || root[|root| - 1] == '/' then root + name else root + "/" + name
  }

  /** Whether `load` takes a directory entry: a file with a valid stamp, before `max_date` if one is given. */
  predicate Selected(f: DirEntry, maxDate: Option<string>) {
    f.isFile && Timestamp.HasValidTimestamp(f.name) && (maxDate.None? || Less(f.name, maxDate.value))
  }

  /** The filtering loop of `load`, in listing order. */
  function Filter(files: seq<DirEntry>, maxDate: Option<string>): (r: seq<DirEntry>)
    ensures forall i :: 0 <= i < |r| ==> Selected(r[i], maxDate)
    ensures multiset(r) <= multiset(files)
    decreases |files|
  {
    if files == [] then []
    else
      var front := Filter(files[..|files| - 1], maxDate);
      var last := files[|files| - 1];
      assert files == files[..|files| - 1] + [last];
      if Selected(last, maxDate) then front + [last] else front
  }

  /** Every selected entry was kept by the filter, and only those. */
  lemma {:induction false} FilterKeepsSelected(files: seq<DirEntry>, maxDate: Option<string>, f: DirEntry)
    ensures f in Filter(files, maxDate) <==> f in files && Selected(f, maxDate)
    decreases |files|
  {
    if files != [] {
      FilterKeepsSelected(files[..|files| - 1], maxDate, f);
      assert files == files[..|files| - 1] + [files[|files| - 1]];
    }
  }

  /** The sort key `x[0:19]`. */
  function SortKey(name: string): (r: string)
    ensures |r| == (if |name| <= 19 then |name| else 19) && r == name[..|r|]
  {
    if |name| <= 19 then name else name[..19]
  }

  predicate SortedByKey(files: seq<DirEntry>) {
    forall i, j :: 0 <= i < j < |files| ==> LessEq(SortKey(files[i].name), SortKey(files[j].name))
  }

  /** Inserts `f` before the first entry whose key is not smaller than its own. */
  function Insert(f: DirEntry, sorted: seq<DirEntry>): (r: seq<DirEntry>)
    ensures multiset(r) == multiset(sorted) + multiset{f}
    decreases |sorted|
  {
    if sorted == [] || LessEq(SortKey(f.name), SortKey(sorted[0].name)) then [f] + sorted
    else
      assert sorted == [sorted[0]] + sorted[1..];
      [sorted[0]] + Insert(f, sorted[1..])
  }

  /** `list.sort(key=lambda x: x[0:19])`, by insertion. */
  function SortByKey(files: seq<DirEntry>): (r: seq<DirEntry>)
    ensures multiset(r) == multiset(files)
    decreases |files|
  {
    if files == [] then []
    else
      assert files == [files[0]] + files[1..];
      Insert(files[0], SortByKey(files[1..]))
  }

  lemma {:induction false} InsertSorted(f: DirEntry, sorted: seq<DirEntry>)
    requires SortedByKey(sorted)
    ensures SortedByKey(Insert(f, sorted))
    decreases |sorted|
  {
    var k := SortKey(f.name);
    var r := Insert(f, sorted);
    if sorted == [] || LessEq(k, SortKey(sorted[0].name)) {
      forall j | 0 < j < |r| ensures LessEq(k, SortKey(r[j].name)) {
        LessEqTransitive(k, SortKey(sorted[0].name), SortKey(r[j].name));
      }
    } else {
      InsertSorted(f, sorted[1..]);
      var rest := Insert(f, sorted[1..]);
      var head := SortKey(sorted[0].name);
      LessEqTotal(k, head);
      forall j | 0 <= j < |rest| ensures LessEq(head, SortKey(rest[j].name)) {
        assert rest[j] in multiset(rest);
        assert rest[j] == f || rest[j] in multiset(sorted[1..]);
        if rest[j] != f {
          var m :| 0 <= m < |sorted[1..]| && sorted[1..][m] == rest[j];
          assert sorted[m + 1] == rest[j];
        }
      }
    }
  }

  /** The files are processed in the order of their first 19 characters. */
  lemma {:induction false} SortByKeySorted(files: seq<DirEntry>)
    ensures SortedByKey(SortByKey(files))
    decreases |files|
  {
    if files != [] {
      SortByKeySorted(files[1..]);
      InsertSorted(files[0], SortByKey(files[1..]));
    }
  }

  /** The files `load` processes, in processing order. */
  function Select(files: seq<DirEntry>, maxDate: Option<string>): seq<DirEntry> {
    SortByKey(Filter(files, maxDate))
  }

  /** Selection keeps exactly the selected entries, each as often as listed, in key order. */
  lemma SelectSpec(files: seq<DirEntry>, maxDate: Option<string>)
    ensures SortedByKey(Select(files, maxDate))
    ensures forall f :: f in Select(files, maxDate) <==> f in files && Selected(f, maxDate)
    ensures multiset(Select(files, maxDate)) == multiset(Filter(files, maxDate))
  {
    SortByKeySorted(Filter(files, maxDate));
    forall f ensures f in Select(files, maxDate) <==> f in files && Selected(f, maxDate) {
      FilterKeepsSelected(files, maxDate, f);
      assert f in Select(files, maxDate) <==> f in multiset(Select(files, maxDate));
    }
  }

  /** The processing loop of `load`: each file is replayed, then counted. */
  function LoadFiles(s: Store, root: string, files: seq<DirEntry>): (r: Store)
    ensures r.migrationCount == s.migrationCount + |files|
    decreases |files|
  {
    if files == [] then s
    else
      var mid := LoadFiles(s, root, files[..|files| - 1]);
      var f := files[|files| - 1];
      var after := LoadFile(mid, JoinPath(root, f.name), f.content);
      after.(migrationCount := after.migrationCount + 1)
  }

  /** What `load` ends with: the state, and whether it raised `ValidationFailed`. */
  datatype LoadResult = Loaded(store: Store) | ValidationFailed(store: Store)

  function Load(s: Store, root: string, listing: seq<DirEntry>, maxDate: Option<string>): (r: LoadResult)
    ensures r.store.migrationCount == s.migrationCount + |Select(listing, maxDate)|
    ensures r.ValidationFailed? <==> r.store.errors != []
  {
    var after := LoadFiles(s, root, Select(listing, maxDate));
    if after.errors != [] then ValidationFailed(after) else Loaded(after)
  }

  /** Loading only appends errors; earlier errors stay, so a failed load stays failed. */
  lemma {:induction false} LoadFilesAppendsErrors(s: Store, root: string, files: seq<DirEntry>)
    ensures |LoadFiles(s, root, files).errors| >= |s.errors|
    ensures LoadFiles(s, root, files).errors[..|s.errors|] == s.errors
    decreases |files|
  {
    if files != [] {
      var front := files[..|files| - 1];
      var mid := LoadFiles(s, root, front);
      LoadFilesAppendsErrors(s, root, front);
      var f := files[|files| - 1];
      ApplyLinesAppendsErrors(mid, SplitLines(f.content), JoinPath(root, f.name));
    }
  }

  /** No line of the file is `repmov X X`. */
  predicate NoSelfMoves(content: string) {
    var lines := SplitLines(content);
    forall i :: 0 <= i < |lines| && Classify(lines[i]).Do? ==> !IsSelfMove(Classify(lines[i]).cmd)
  }

  /** Replaying files without self-moves keeps the invariants, so the result can be exported. */
  lemma {:induction false} LoadFilesValid(s: Store, root: string, files: seq<DirEntry>)
    requires Valid(s)
    requires forall k :: 0 <= k < |files| ==> NoSelfMoves(files[k].content)
    ensures Valid(LoadFiles(s, root, files))
    decreases |files|
  {
    if files != [] {
      var front := files[..|files| - 1];
      LoadFilesValid(s, root, front);
      var f := files[|files| - 1];
      ApplyLinesValid(LoadFiles(s, root, front), SplitLines(f.content), JoinPath(root, f.name));
    }
  }

  /** A load whose selected files hold no self-move ends in a state that satisfies the invariants. */
  lemma LoadValid(s: Store, root: string, listing: seq<DirEntry>, maxDate: Option<string>)
    requires Valid(s)
    requires forall f :: f in listing && Selected(f, maxDate) ==> NoSelfMoves(f.content)
    ensures Valid(Load(s, root, listing, maxDate).store)
  {
    var files := Select(listing, maxDate);
    SelectSpec(listing, maxDate);
    assert forall k :: 0 <= k < |files| ==> files[k] in files;
    LoadFilesValid(s, root, files);
  }

  /** A load that starts with errors already recorded fails. */
  lemma EarlierErrorsFailLoad(s: Store, root: string, listing: seq<DirEntry>, maxDate: Option<string>)
    requires s.errors != []
    ensures Load(s, root, listing, maxDate).ValidationFailed?
  {
    LoadFilesAppendsErrors(s, root, Select(listing, maxDate));
  }
}
