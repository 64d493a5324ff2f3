# Crypto ecosystems taxonomy: a verified model of the migration engine

The taxonomy of crypto ecosystems is not stored as a snapshot. It is rebuilt by replaying
a directory of small, time-stamped migration files. Each line of a file holds one command
(`ecoadd`, `repadd`, `ecocon`, `ecodis`, `ecorem`, `repmov`, `ecomov`, `reprem`). The result
is a graph: ecosystems with child ecosystems, member repositories, and tags per
(ecosystem, repository) pair. That graph is flattened into JSON Lines records.

This project models four parts of that engine in Dafny and proves their properties:

- `timestamp.dfy` (module `Timestamp`): which file names start with a valid
  `YYYY-MM-DDThhmmss` stamp, and the Gregorian leap-year rule.
- `shlex.dfy` (module `ShlexParser`): the quote- and backslash-aware line tokenizer. It is
  an imperative method with a cursor, proved equal to a functional definition `Lex`.
- `store.dfy`, `migrations.dfy`, `export.dfy` and `taxonomy.dfy`: the `Taxonomy` object.
  - `Taxonomy.Taxonomy` is a class with the object's own fields (id counters, the name↔id
    maps, the relationship maps, the error list, the migration count). Its mutators, loader
    and exporter update those fields in place.
  - Each method is proved against a function on a `Store` value that mirrors the fields:
    - `Store` holds the eight mutations and their invariants;
    - `Migrations` holds line dispatch, file replay, file selection and ordering;
    - `Export` holds the depth-first export.
  - A mutator that can raise returns the exception as an `Option<ErrorKind>`. The predicate
    `Follows` states that on success the new state is the function's, and on failure the
    state is untouched.
- `duckify.dfy` (module `Duckify`): `sanitize_table_name`, the SQL table-name normaliser.

`text.dfy` holds the character classes and the string order:
- Python's whitespace set, exactly as `str.isspace` defines it;
- ASCII digits and letters;
- an ASCII case-folding key;
- code-point lexicographic `<`.

`wrappers.dfy` holds `Option` and `Result`.

Behaviour of the code that the model keeps as written:
- `repmov` onto a URL that already exists merges the two repositories: the source id is
  replaced by the destination's in every membership set (python/taxonomy.py:312-324).
- `ecodis` checks that the child exists as well as the parent (python/taxonomy.py:226-243).
- A tokenizer error on a line is recorded as `ValueError`, and scanning goes on
  (python/taxonomy.py:459-486).
- The tokenizer reads the whole remainder of the line (src/shlex_parser.py:28-71).
- An empty export filter is falsy, so it exports every root (python/taxonomy.py:590-598).
- The exporter recurses with no cycle guard (python/taxonomy.py:545-580). The export is
  therefore modelled under a ranking of the parent→child graph (`Export.RankedBy`). Such a
  ranking exists exactly when the graph is acyclic.

## Model

| member | source | states |
|---|---|---|
| Timestamp.HasValidTimestamp | src/timestamp.py:6-74 | the source's checks in order: length, template, field ranges, calendar date. The lemmas below show a name is valid exactly when its first 17 characters print a valid instant |
| Timestamp.IsLeapYear | src/timestamp.py:77-79 | the Gregorian rule; `Timestamp.LeapDay` shows 29 February is accepted exactly in leap years from year 1 |
| Timestamp.ShortNamesInvalid | src/timestamp.py:27-29 | a name shorter than 17 characters never has a valid stamp |
| Timestamp.ValidHasTemplateShape | src/timestamp.py:31-43 | a valid name has '-' at positions 4 and 7, 'T' at 10, and an ASCII digit at every other position below 17 |
| Timestamp.SuffixIgnored | src/timestamp.py:6-74 | appending anything to a name of at least 17 characters does not change its validity |
| Timestamp.ValidFieldsInRange | src/timestamp.py:56-72 | in a valid name, year ≥ 1, month 1..12, day 1..days of that month, hour ≤ 23, minute ≤ 59, second ≤ 59 |
| Timestamp.LeapDay | src/timestamp.py:68-79 | 29 February of a year is accepted exactly when the year is at least 1 and a leap year by `is_leap_year` |
| Timestamp.ValidIffPrintsValidStamp | src/timestamp.py:6-74 | a name is valid exactly when its first 17 characters are the zero-padded printing of a valid calendar instant |
| Timestamp.PrintedStampIsValid | src/timestamp.py:6-74 | every valid calendar instant, printed and followed by anything, is accepted |
| Timestamp.ParseFormats | src/timestamp.py:45-54 | a template-shaped name is the printing of the fields `int` reads from it |
| Timestamp.FormatParses | src/timestamp.py:45-54 | a printed stamp has the template's shape and the six slices read back as its fields |
| Timestamp.ParsedFieldsPrint | src/timestamp.py:45-54 | each field read from a template-shaped name prints back as its own slice |
| Timestamp.FormatSlices | src/timestamp.py:45-54 | where each field and separator sits in a printed stamp |
| Timestamp.DigitsRoundTrip | src/timestamp.py:47-52 | reading a zero-padded printing of n gives n back |
| Timestamp.ValueRoundTrip | src/timestamp.py:47-52 | a run of digits is the zero-padded printing of its value, which fits the width |
| Timestamp.Digits | src/timestamp.py:47-52 | a zero-padded printing has exactly the requested width and only digits |
| Timestamp.Format | src/timestamp.py:33 | a printed stamp has the stamp's 17 characters |
| ShlexParser.Lex | src/shlex_parser.py:4-73 | what `split` returns, as a function of the rest of the line. `Split` is proved equal to it, and the lemmas below state its rules |
| ShlexParser.Split | src/shlex_parser.py:4-73 | the cursor loop's result is exactly `Lex(line)`: the tokens, or the unterminated-quote error |
| ShlexParser.ReadQuoted | src/shlex_parser.py:37-57 | the quoted-token loop: on a closing quote, the token read and the rest of the line lexed after it; otherwise the line ends in an unterminated quote |
| ShlexParser.ReadBare | src/shlex_parser.py:59-71 | the unquoted-token loop stops at whitespace or the end of the line, and the line lexes as that token followed by the rest |
| ShlexParser.NoTokensIffBlank | src/shlex_parser.py:28-34 | a line yields no tokens exactly when it is empty or all whitespace |
| ShlexParser.UnterminatedQuoteRaises | src/shlex_parser.py:53-54 | an opening quote whose character never occurs again raises the unterminated-quote error |
| ShlexParser.QuoteNeverCloses | src/shlex_parser.py:44-54 | a quoted body without its quote character has no closing quote |
| ShlexParser.QuotedTokenRead | src/shlex_parser.py:37-57 | a quoted body without its quote and without backslashes becomes one token, possibly empty, with whitespace and the other quote kept, and lexing resumes right after the closing quote |
| ShlexParser.QuotedLiteral | src/shlex_parser.py:44-51 | such a body is read literally up to the closing quote |
| ShlexParser.LexQuoted | src/shlex_parser.py:37-57 | how a line that starts with a quote is lexed |
| ShlexParser.EscapedQuotedBody | src/shlex_parser.py:45-48 | inside quotes, a backslash is dropped and the next character kept, whatever it is |
| ShlexParser.EscapedBareBody | src/shlex_parser.py:63-66 | outside quotes, a backslash is dropped and the next character kept, whitespace included |
| ShlexParser.TrailingBackslashKept | src/shlex_parser.py:63-68 | a backslash that is the last character of the line is kept literally |
| ShlexParser.BareLiteral | src/shlex_parser.py:59-71 | an unquoted word without whitespace or backslashes, quotes included, is read literally up to whitespace or the end |
| ShlexParser.BareWordRead | src/shlex_parser.py:59-71 | an unquoted word without whitespace or backslashes is one token, with quotes after its first character kept, and lexing resumes at the whitespace |
| ShlexParser.BareTokenNonEmpty | src/shlex_parser.py:59-71 | an unquoted token is never empty |
| ShlexParser.SplitJoinRoundTrip | src/shlex_parser.py:4-73 | splitting the single-space join of plain tokens gives the tokens back |
| ShlexParser.SplitQuoteAllRoundTrip | src/shlex_parser.py:4-73 | any tokens, each written quoted with every character escaped, split back to themselves |
| ShlexParser.BareToken | src/shlex_parser.py:59-71 | an unquoted token consumes at least one character of a non-blank line |
| ShlexParser.QuotedToken | src/shlex_parser.py:44-57 | a closed quoted token consumes at least its closing quote |
| ShlexParser.SkipSpaceStep | src/shlex_parser.py:29-31 | skipping one whitespace character does not change the tokens |
| ShlexParser.QuotedStep | src/shlex_parser.py:44-51 | one pass of the quoted loop appends the escaped or the plain character |
| ShlexParser.BareStep | src/shlex_parser.py:62-69 | one pass of the unquoted loop appends the escaped or the plain character |
| ShlexParser.QuotedClosed | src/shlex_parser.py:53-57 | reaching the closing quote completes the token and the rest is lexed after it |
| ShlexParser.QuotedUnclosed | src/shlex_parser.py:53-54 | running off the end inside quotes is the unterminated-quote error |
| ShlexParser.BareEnded | src/shlex_parser.py:62-71 | stopping at whitespace or the end completes the unquoted token |
| Duckify.SanitizeTableName | src/open_dev_data/duckify.py:15-34 | the prefix is the beginning of the result |
| Duckify.RemoveExtension | src/open_dev_data/duckify.py:17-18 | removing `.parquet` never lengthens the name and only keeps characters of it. The lemmas below show every occurrence goes, inside the name as well as at its end |
| Duckify.ExtensionDropped | src/open_dev_data/duckify.py:17-18 | a trailing `.parquet` is removed as if it were never there |
| Duckify.ParquetSuffixIgnored | src/open_dev_data/duckify.py:15-34 | a name with `.parquet` appended gives the same table name as without it |
| Duckify.MiddleOccurrenceRemoved | src/open_dev_data/duckify.py:17-18 | a `.parquet` after a dot-free start is removed wherever it sits, and scanning goes on after it (`a.parquetb` becomes `ab`) |
| Duckify.RemoveExtensionIdentity | src/open_dev_data/duckify.py:17-18 | a name without a dot is left as it is |
| Duckify.HyphensToUnderscores | src/open_dev_data/duckify.py:20-21 | same length; every `-` becomes `_` and every other character stays in place |
| Duckify.KeepAllowed | src/open_dev_data/duckify.py:23-24 | the substitution leaves only ASCII letters, digits and underscores |
| Duckify.KeepAllowedChar | src/open_dev_data/duckify.py:23-24 | one character is kept exactly when `[a-zA-Z0-9_]` matches it |
| Duckify.KeepAllowedConcat | src/open_dev_data/duckify.py:23-24 | the substitution distributes over concatenation, so with `KeepAllowedChar` it keeps exactly the allowed characters, in order (`a!b` becomes `ab`) |
| Duckify.KeepAllowedIdentity | src/open_dev_data/duckify.py:23-24 | a name that is all allowed characters is left as it is |
| Duckify.KeepAllowedEmpty | src/open_dev_data/duckify.py:23-24 | a name with no allowed character becomes empty |
| Duckify.GuardLeadingDigit | src/open_dev_data/duckify.py:26-28 | the result never starts with a digit, and a name not starting with one is unchanged |
| Duckify.UnprefixedIsTableName | src/open_dev_data/duckify.py:15-34 | without a prefix, the name holds only ASCII letters, digits and `_` and does not start with a digit |
| Duckify.PrefixPrependedVerbatim | src/open_dev_data/duckify.py:30-32 | a prefix is prepended as given, not sanitised |
| Duckify.SanitizeIdempotent | src/open_dev_data/duckify.py:15-34 | sanitising an unprefixed result again changes nothing |
| Duckify.NothingSurvives | src/open_dev_data/duckify.py:23-28 | a name without letters, digits, `_` or `-`, the empty name included, becomes "" |
| Store.AddEco | python/taxonomy.py:199-204 | the name is interned; an existing name leaves the state as it was; a new one gets the counter + 1 |
| Store.AddEcoInterns | python/taxonomy.py:199-204 | the name↔id maps stay mutual inverses, a new id was never used, existing ids are kept, and adding twice is adding once |
| Store.AddEcoValid | python/taxonomy.py:199-204 | `ecoadd` keeps the store's invariants |
| Store.EmptyValid | python/taxonomy.py:157-182 | the empty taxonomy satisfies the invariants |
| Store.ConnectEco | python/taxonomy.py:206-224 | fails exactly when a name is missing, with `InvalidParentEcosystem` checked before `InvalidChildEcosystem` |
| Store.ConnectAddsEdge | python/taxonomy.py:213-224 | the parent→child and child→parent relations gain exactly the one edge |
| Store.ConnectIdempotent | python/taxonomy.py:206-224 | connecting twice is connecting once |
| Store.ConnectValid | python/taxonomy.py:206-224 | connecting keeps the invariants, mirrored edges among them |
| Store.DisconnectEco | python/taxonomy.py:226-243 | fails exactly when a name is missing or the parent has no children entry, with the three exceptions in the source's order |
| Store.DisconnectRemovesEdge | python/taxonomy.py:233-243 | both relations lose exactly the one edge |
| Store.DisconnectValid | python/taxonomy.py:226-243 | disconnecting keeps the invariants |
| Store.DetachFromParents | python/taxonomy.py:248-253 | the loop over the parents removes the id from each parent's children set and touches no other entry |
| Store.RemoveEcoById | python/taxonomy.py:245-257 | the id has neither a children nor a parents entry afterwards |
| Store.RemoveEco | python/taxonomy.py:259-266 | fails with `InvalidEcosystem` exactly when the name is missing; otherwise only that name leaves the name map |
| Store.RemoveEcoDropsEdges | python/taxonomy.py:245-266 | the parent→child relation loses exactly the edges touching the removed id |
| Store.RemoveEcoKeepsOthers | python/taxonomy.py:245-266 | other names keep their ids; the id→name map and the memberships are untouched |
| Store.RemoveEcoValid | python/taxonomy.py:245-266 | removal keeps the invariants |
| Store.InternRepo | python/taxonomy.py:277-283 | the URL is interned; an existing URL keeps its id, a new one gets the counter + 1 |
| Store.InternRepoValid | python/taxonomy.py:277-283 | interning keeps the invariants and every existing URL's id |
| Store.JoinRepo | python/taxonomy.py:277-288 | afterwards the URL is interned and a member of the ecosystem |
| Store.JoinRepoEffect | python/taxonomy.py:277-288 | exactly one membership is added and no tag changes |
| Store.AddTag | python/taxonomy.py:293-303 | afterwards the tag is interned and recorded for the pair |
| Store.AddTagEffect | python/taxonomy.py:293-303 | exactly that tag is added for that pair; a new tag gets the counter + 1 |
| Store.AddTagMonotone | python/taxonomy.py:293-303 | a tag already recorded stays recorded |
| Store.AddTags | python/taxonomy.py:290-303 | the tag loop leaves names, URLs, memberships, errors and the count alone |
| Store.AddTagsRecordsAll | python/taxonomy.py:290-303 | after the loop every tag of the command is recorded for the pair |
| Store.AddTagsNoop | python/taxonomy.py:290-303 | adding tags that are all recorded changes nothing |
| Store.AddTagsEffect | python/taxonomy.py:290-303 | the recorded tags become the old ones plus exactly the command's tags for that pair, and the invariants hold |
| Store.AddRepo | python/taxonomy.py:268-303 | fails with `InvalidEcosystem` exactly when the ecosystem is missing, before any change; otherwise the URL is a member |
| Store.AddRepoEffect | python/taxonomy.py:268-303 | set-insert of the membership and set-union of the tags, nothing more, and the invariants hold |
| Store.AddRepoIdempotent | python/taxonomy.py:268-303 | repeating the same `repadd` changes nothing |
| Store.Substitute | python/taxonomy.py:316-320 | every membership set holding the source id holds the destination id instead; the others are unchanged |
| Store.MoveRepo | python/taxonomy.py:305-329 | fails with `InvalidSourceRepo` exactly when the source is missing; otherwise the source URL is gone and the destination present |
| Store.MoveRepoRenameKeepsId | python/taxonomy.py:325-329 | a move to a fresh URL rebinds the same id, so memberships and tags stay |
| Store.MoveRepoRenameRoundTrip | python/taxonomy.py:325-329 | renaming to a fresh URL and back restores the state exactly |
| Store.MoveRepoMerges | python/taxonomy.py:312-324 | a move onto an existing URL replaces the source id by the destination's in every membership and deletes the source from both maps |
| Store.MoveRepoOntoItselfBreaksExport | python/taxonomy.py:312-324 | `repmov X X` on a member URL leaves a membership whose id has no URL |
| Store.MoveEco | python/taxonomy.py:331-345 | fails exactly on a missing source or an existing destination, in that order; otherwise the id moves to the new name |
| Store.MoveEcoKeepsRelations | python/taxonomy.py:340-345 | a rename keeps every edge, membership and tag, and the invariants |
| Store.MoveEcoRoundTrip | python/taxonomy.py:331-345 | renaming to a fresh name and back restores the state exactly |
| Store.RemoveRepoFromEcosystem | python/taxonomy.py:347-366 | fails exactly as the source does, with `InvalidEcosystem`, `EcosystemHasNoRepos` and `InvalidRepo` checked in that order |
| Store.RemoveRepoEffect | python/taxonomy.py:360-366 | exactly one membership and that pair's tags are removed, and the invariants hold |
| Store.RemoveNonMemberKeepsMembers | python/taxonomy.py:360-361 | removing a non-member leaves the memberships as they were |
| Store.Stats | python/taxonomy.py:184-197 | the counts are the sizes of the three name maps and the migration count; connections are 0 |
| Store.StatsAddEco | python/taxonomy.py:184-204 | `ecoadd` adds one to the ecosystem count exactly when the name is new |
| Store.StatsRemoveAndMoveEco | python/taxonomy.py:184-197 | `ecorem` counts one ecosystem fewer; `ecomov` keeps the count |
| Store.StatsMoveRepo | python/taxonomy.py:184-197 | `repmov` keeps the repo count on a rename and lowers it by one on a merge |
| Migrations.ParseCommand | python/taxonomy.py:369-433 | a keyword is ignored exactly when it is not one of the eight; it runs exactly when the argument count fits the handler |
| Migrations.ParseCommandRoundTrip | python/taxonomy.py:369-433 | every command is read back from its keyword and arguments |
| Migrations.Execute | python/taxonomy.py:369-433 | a successful command leaves the errors and the migration count alone |
| Migrations.ExecuteValid | python/taxonomy.py:199-366 | every command except a self-move keeps the invariants |
| Migrations.IsComment | python/taxonomy.py:435-438 | blank after `lstrip`, or `#` first; `Migrations.SkippedLinesChangeNothing` shows such lines change nothing |
| Migrations.LStrip | python/taxonomy.py:437 | the result is a suffix that does not start with whitespace, and only whitespace was dropped |
| Migrations.Classify | python/taxonomy.py:446-481 | comments and short lines are skipped, an unterminated quote is `ValueError`, and only the eight keywords run |
| Migrations.ApplyLine | python/taxonomy.py:446-486 | one line either leaves the errors alone or appends exactly one naming that line and file |
| Migrations.SkippedLinesChangeNothing | python/taxonomy.py:447-480 | blank, comment, short and unknown-keyword lines change nothing |
| Migrations.UnterminatedQuoteRecorded | python/taxonomy.py:459-486 | an unterminated quote records `ValueError` at that line, whatever the keyword |
| Migrations.LineRunsOrRecords | python/taxonomy.py:459-486 | a command line either runs its command or records its exception, never both |
| Migrations.ApplyLineValid | python/taxonomy.py:446-486 | replaying a line keeps the invariants unless it is `repmov X X` |
| Migrations.Record | python/taxonomy.py:482-486 | appends one error with the exception's name, the line number and the path. `UnterminatedQuoteRecorded` and `LineRunsOrRecords` use it |
| Migrations.RecordValid | python/taxonomy.py:482-486 | recording an error keeps the invariants |
| Migrations.ApplyLines | python/taxonomy.py:446-486 | replaying lines does not change the migration count |
| Migrations.ErrorsFromStep | python/taxonomy.py:446-486 | one more line keeps earlier errors and the per-file order of line numbers |
| Migrations.ApplyLinesAppendsErrors | python/taxonomy.py:446-486 | replaying a file only appends errors, each naming that file and one of its lines, in increasing line order |
| Migrations.ApplyLinesValid | python/taxonomy.py:446-486 | replaying lines without self-moves keeps the invariants |
| Migrations.SplitLines | python/taxonomy.py:445 | the split gives at least one line and no line holds a newline |
| Migrations.SplitLinesJoin | python/taxonomy.py:445 | joining the lines with newlines gives the content back |
| Migrations.LoadFile | python/taxonomy.py:440-486 | replaying a file does not change the migration count |
| Migrations.JoinPath | python/taxonomy.py:508 | `os.path.join` of the directory and a relative name; it is the path that recorded errors carry |
| Migrations.Selected | python/taxonomy.py:509-511 | a file with a valid stamp, and before `max_date` by plain string order when one is given; `FilterKeepsSelected` shows the filter keeps exactly these |
| Migrations.Filter | python/taxonomy.py:505-512 | every kept entry is a file with a valid stamp before the cut-off, and nothing was added |
| Migrations.FilterKeepsSelected | python/taxonomy.py:505-512 | an entry is kept exactly when it is listed and selected |
| Migrations.SortKey | python/taxonomy.py:515 | the key is the first 19 characters, or the whole name if shorter |
| Migrations.Insert | python/taxonomy.py:515 | insertion adds exactly the one entry |
| Migrations.InsertSorted | python/taxonomy.py:515 | inserting into a key-sorted list keeps it sorted |
| Migrations.SortByKey | python/taxonomy.py:515 | the sort is a permutation |
| Migrations.SortByKeySorted | python/taxonomy.py:515 | the sorted files are in key order |
| Migrations.SelectSpec | python/taxonomy.py:505-515 | the processed files are exactly the selected ones, each as often as listed, in key order |
| Migrations.Select | python/taxonomy.py:505-515 | the files `load` processes: `SelectSpec` shows they are exactly the selected ones, each as often as listed, in key order |
| Migrations.LoadFiles | python/taxonomy.py:517-521 | the migration count rises by the number of files processed |
| Migrations.LoadFilesAppendsErrors | python/taxonomy.py:517-521 | processing files only appends errors |
| Migrations.Load | python/taxonomy.py:488-526 | the count rises by the number of selected files, and the load fails exactly when errors were recorded |
| Migrations.LoadFilesValid | python/taxonomy.py:517-521 | replaying files with no `repmov X X` line keeps the invariants |
| Migrations.LoadValid | python/taxonomy.py:488-526 | after a load whose selected files have no self-move, the state satisfies the invariants, so it can be exported |
| Migrations.EarlierErrorsFailLoad | python/taxonomy.py:523-526 | a load that starts with errors recorded fails |
| Export.Enumerate | python/taxonomy.py:554 | a set's entries listed once each, in ascending case-insensitive order |
| Export.EnumerateFoldOrdered | python/taxonomy.py:554 | listed names are in case-insensitive order |
| Export.BeforeTotal | python/taxonomy.py:554 | the sort order relates any two distinct entries |
| Export.BeforeTransitive | python/taxonomy.py:554 | the sort order is transitive |
| Export.BeforeFoldOrdered | python/taxonomy.py:554 | the sort order sorts by the case-folded name first |
| Export.LeastExists | python/taxonomy.py:554 | a non-empty set has a least entry |
| Export.Children | python/taxonomy.py:567-574 | every listed child is a child of the node, under its name |
| Export.ChildrenComplete | python/taxonomy.py:567-574 | every child is listed, in case-insensitive name order |
| Export.TagStrings | python/taxonomy.py:535-543 | no list exactly when the pair has no tag entry; otherwise one name per tag id |
| Export.TagList | python/taxonomy.py:558-563 | `tags if tags else []`; `TagListIsRecordedTags` shows its names are exactly the tags recorded for the pair |
| Export.TagListIsRecordedTags | python/taxonomy.py:535-563 | a record's tags are exactly the tags recorded for its pair, or none |
| Export.IdsCard | python/taxonomy.py:542 | naming distinct tag ids keeps their number |
| Export.RepoRecords | python/taxonomy.py:556-565 | one record per repo, with the root's name, the branch and that repo's URL |
| Export.RepoEntriesCard | python/taxonomy.py:549-553 | a node has as many (id, URL) pairs as member repos |
| Export.RepoEntriesMembers | python/taxonomy.py:549-553 | the pairs are exactly the members with their URLs |
| Export.OwnRecords | python/taxonomy.py:547-565 | one record per member repo, each with the root's name and the current branch |
| Export.OwnRecordsOrdered | python/taxonomy.py:554 | a node's own records are in case-insensitive URL order |
| Export.OwnRecordsCover | python/taxonomy.py:547-565 | every member repo has a record |
| Export.OwnRecordsMembers | python/taxonomy.py:547-565 | every own record is a member repo's |
| Export.Emit | python/taxonomy.py:545-580 | `_emit_ecosystem_json`: the node's own records, then each child's subtree. `EmitOwnReposFirst`, `EmitShape` and `BelowChildren` state its shape |
| Export.EmitChildren | python/taxonomy.py:567-580 | the child loop after its first n passes. `EmitChildrenStep` and `EmitChildrenShape` state each pass and the depth of the records |
| Export.EmitChildrenStep | python/taxonomy.py:577-580 | one more pass of the child loop appends the next child's subtree, with its name on the branch |
| Export.EmitShape | python/taxonomy.py:545-580 | every record under a node names the root and has the node's branch as a prefix of its own |
| Export.EmitChildrenShape | python/taxonomy.py:567-580 | every record from the child loop lies strictly below the node |
| Export.EmitChildrenBelow | python/taxonomy.py:567-580 | a record from the first n passes of the child loop has the node's branch followed by the name of the k-th child, for the returned k < n |
| Export.BelowChildren | python/taxonomy.py:545-580 | past a node's own records, every record is deeper than the node and its branch continues with one child's name |
| Export.SuffixBelow | python/taxonomy.py:576-580 | records appended after the own records keep their depth |
| Export.EmitOwnReposFirst | python/taxonomy.py:545-580 | a node's output starts with its own repos' records, and everything after is deeper |
| Export.Roots | python/taxonomy.py:590-598 | an unknown non-empty filter is `InvalidEcosystem`, and nothing else fails |
| Export.AllRoots | python/taxonomy.py:596-598 | every live name with its id; `UnfilteredRoots` shows the unfiltered roots list every live name, in case-insensitive order, and `AllRootsNamed` that a root is determined by its name |
| Export.AllRootsNamed | python/taxonomy.py:596-597 | a root is determined by its name |
| Export.UnfilteredRoots | python/taxonomy.py:595-598 | without a filter, or with an empty one, the roots are every live name, in case-insensitive order |
| Export.EmitRoots | python/taxonomy.py:600-604 | each root's subtree with an empty branch, in root order. `EmitRootsRestrict` shows one root's records are its subtree |
| Export.ExportJson | python/taxonomy.py:582-604 | the export fails exactly when the roots do |
| Export.RecordsOf | python/taxonomy.py:600-604 | picking the records of one root keeps exactly those |
| Export.RecordsOfConcat | python/taxonomy.py:600-604 | picking distributes over concatenation |
| Export.RecordsOfAll | python/taxonomy.py:600-604 | picking from records that are all one root's keeps them all |
| Export.RecordsOfNone | python/taxonomy.py:600-604 | picking from records of other roots gives nothing |
| Export.EmitRootsRestrict | python/taxonomy.py:600-604 | over roots with distinct names, one root's records are that root's subtree |
| Export.FilteredExportIsRestriction | python/taxonomy.py:582-604 | exporting one named ecosystem gives exactly its records in the full export |
| Taxonomy.Taxonomy.constructor | python/taxonomy.py:157-182 | a new object is the empty taxonomy |
| Taxonomy.Taxonomy.AddEco | python/taxonomy.py:199-204 | the fields become `Store.AddEco` of the old ones |
| Taxonomy.Taxonomy.ConnectEco | python/taxonomy.py:206-224 | the exception or the new fields are those of `Store.ConnectEco`, and a failure changes nothing |
| Taxonomy.Taxonomy.DisconnectEco | python/taxonomy.py:226-243 | the same, against `Store.DisconnectEco` |
| Taxonomy.Taxonomy.RemoveEcoById | python/taxonomy.py:245-257 | the loop over the parents and the two deletions give `Store.RemoveEcoById` |
| Taxonomy.Taxonomy.RemoveEco | python/taxonomy.py:259-266 | the same as `Store.RemoveEco`, with `InvalidEcosystem` changing nothing |
| Taxonomy.Taxonomy.JoinRepo | python/taxonomy.py:277-288 | the fields become `Store.JoinRepo` of the old ones, and the returned id is the URL's |
| Taxonomy.Taxonomy.AddTag | python/taxonomy.py:293-303 | one pass of the tag loop gives `Store.AddTag` |
| Taxonomy.Taxonomy.AddRepo | python/taxonomy.py:268-303 | the exception or the new fields are those of `Store.AddRepo` |
| Taxonomy.Taxonomy.SubstituteMember | python/taxonomy.py:316-320 | the loop over the memberships computes `Store.Substitute` |
| Taxonomy.Taxonomy.MoveRepo | python/taxonomy.py:305-329 | the exception or the new fields are those of `Store.MoveRepo` |
| Taxonomy.Taxonomy.MoveEco | python/taxonomy.py:331-345 | the exception or the new fields are those of `Store.MoveEco` |
| Taxonomy.Taxonomy.RemoveRepoFromEcosystem | python/taxonomy.py:347-366 | the exception or the new fields are those of `Store.RemoveRepoFromEcosystem` |
| Taxonomy.Taxonomy.RunCommand | python/taxonomy.py:369-433 | the keyword dispatch with the arity checks does what `ParseCommand` and `Execute` say |
| Taxonomy.Taxonomy.Execute | python/taxonomy.py:369-433 | each command calls its mutator, with `Migrations.Execute`'s result |
| Taxonomy.Taxonomy.RunLine | python/taxonomy.py:446-486 | one pass of the line loop gives `Migrations.ApplyLine` |
| Taxonomy.Taxonomy.LoadFile | python/taxonomy.py:440-486 | the line loop gives `Migrations.LoadFile` |
| Taxonomy.Taxonomy.LoadFiles | python/taxonomy.py:517-521 | the file loop gives `Migrations.LoadFiles` |
| Taxonomy.Taxonomy.Load | python/taxonomy.py:488-526 | the fields become `Migrations.Load`'s store, and `ValidationFailed` is reported exactly when errors were recorded |
| Taxonomy.FilterFiles | python/taxonomy.py:505-512 | the filtering loop computes `Migrations.Filter` |
| Taxonomy.Taxonomy.EmitRepos | python/taxonomy.py:547-565 | the repo loop produces `Export.OwnRecords` |
| Taxonomy.Taxonomy.EmitEcosystem | python/taxonomy.py:545-580 | the recursion produces `Export.Emit` and leaves the shared branch as it found it |
| Taxonomy.Taxonomy.EmitChildren | python/taxonomy.py:567-580 | the child loop produces every child's subtree in order and leaves the branch as it was |
| Taxonomy.Taxonomy.EmitChild | python/taxonomy.py:577-580 | push, recurse, pop: the child's subtree under the extended branch, with the branch restored |
| Taxonomy.Taxonomy.ExportJson | python/taxonomy.py:582-604 | the records written, or the exception, are `Export.ExportJson`'s |
| Taxonomy.Taxonomy.EmitRoots | python/taxonomy.py:600-604 | the root loop, each root with a fresh empty branch, produces `Export.EmitRoots` |
| Taxonomy.Branch.Push | python/taxonomy.py:578 | appends a name to the branch |
| Taxonomy.Branch.Pop | python/taxonomy.py:580 | removes the last name of the branch |

## Left out

- File-system access: `os.listdir`, `os.path.isfile` and file reading. A file's content is taken as text-mode `f.read()` returns it, with newlines already translated to `"\n"`. `load` takes the
  listing as a sequence of entries, each with a name, an is-file flag and its content.
  `os.path.join` is modelled for relative names only.
- An unreadable directory raising `TaxonomyException`, and `_print_errors` writing to
  stderr, are not modelled.
- `export_json` returns the records instead of writing them to a file. The JSON
  serialisation (`json.dumps` escaping and separators) is not modelled.
- The `repo_to_eco` field is never written by the source, so it is not part of the model.
- `str.casefold` is modelled as ASCII case folding. `str.isdigit` is modelled as the ASCII
  digits, so `int` is only read on ASCII digit runs. `str.isspace` is modelled exactly.
- `datetime.date` is modelled by its rules for years 1..9999: Gregorian month lengths and
  leap years.
- Export.Roots, Export.Enumerate: `export_json` sorts `eco_ids.items()` with a stable sort.
  Names equal under case folding therefore keep dict insertion order: after `ecoadd bitcoin`
  and then `ecoadd Bitcoin`, the source emits `bitcoin` first. The model's name map has no
  insertion order. It breaks such ties by the name and then the id, so it emits `Bitcoin`
  first. Children and repos come from sets in the source, so ties among them keep hash-set
  order; the model breaks those ties the same way. Only the case-insensitive order is claimed.
- Export.TagStrings: the source returns tags in hash-set order. The model lists them
  sorted, and the lemmas claim only which tags appear (`Export.TagListIsRecordedTags`).
- Migrations.SortByKey: `list.sort` is stable, so files sharing a 19-character key keep
  their listing order. The model's insertion sort is stable too, but only the key order and
  the permutation are proved.
- Export.Emit: the source recurses without a cycle guard and does not terminate on a cyclic
  graph. The export is modelled only under a ranking of the parent→child graph
  (`Export.RankedBy`), which exists exactly for acyclic graphs.
- Export.ExportJson: the ranking is required of the whole parent→child graph. A filtered
  export whose subtree is acyclic terminates in the source even when a cycle lies elsewhere.
  The model covers a filtered export only when the whole graph is acyclic.
- Store.MoveRepoOntoItselfBreaksExport: `repmov X X` deletes X while memberships still hold
  its id, so a later export would fail on the missing URL. The invariant lemmas exclude a
  self-move.
- Integer widths: the ids and counters are Python integers and never overflow, so they are
  modelled as unbounded naturals.
