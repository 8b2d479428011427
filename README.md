# REAPER Toolkit release tools, modelled in Dafny

This project models the two build tools of the REAPER Toolkit repository and proves properties of the model.

- **luaknit** (`tools/luaknit.py`) bundles a tree of Lua modules into one file. It starts from the modules named on the command line. A module's source is *stripped*: comments go, the line is trimmed, and on quote-free lines the spaces around operators are squeezed out. The module is then wrapped in `SYMBOL=(function() … end)()`. Depth first, every static `require 'x.y'` is resolved to a file through the alias table and the `.lua` / `/init.lua` probes, and the required module is inlined before the requiring line. An assigned require becomes `lhs=SYMBOL`; a bare one disappears. A dynamic `x = require(expr)` becomes a `load("return __mod_" .. …)()` expression.
- **mkreapack** (`tools/mkreapack.py`) adds a release to a ReaPack `index.xml`. It ages out old `<version>` blocks, picks the new version from `MANIFEST` and the newest released version, lists the source files under the repository root, and builds a changelog from the MANIFEST files and each major's `CHANGELOG.md`. The new `<version>` block goes in below the `<reapack>` line.

Layout, one module per file:

| file | module | models |
|---|---|---|
| `outcomes.dfy` | `Outcomes` | `Option` |
| `text.dfy` | `Text` | Python string operations: `strip`, `find`, `replace`, `splitlines`, `join`, `int`/`str` of naturals, string ordering |
| `scan.dfy` | `Scan` | `re.sub` and `re.search` as scans of a prefix matcher, with general lemmas about both |
| `knit_names.dfy` | `KnitNames` | `get_global_module_name`, `print_conditional_newline` |
| `knit_normalize.dfy` | `KnitNormalize` | `get_stripped_source` |
| `knit_require.dfy` | `KnitRequire` | the static and dynamic `require` regexes and rewrites of `process` |
| `knit_resolve.dfy` | `KnitResolve` | the module resolver of `process` (search bases, probing, symbol suffix) |
| `knit_bundle.dfy` | `KnitBundle` | `process` as a `Bundler` class with the global tables as fields, and `main`'s argument, alias and return-symbol handling |
| `reapack_version.dfy` | `ReapackVersion` | `parsever`, `get_latest_from_manifest`, `gen_reapack_version` |
| `reapack_changelog.dfy` | `ReapackChangelog` | `get_manifest_versions`, `gen_changelog` |
| `reapack_index.dfy` | `ReapackIndex` | the ageing-out `re.sub`, source lines, the `<version>` block and its insertion, `main` as a whole |

Each regular expression is a hand-written prefix matcher (`string -> Option<Hit>`). `Scan.SubAll` and `Scan.Search` apply one the way `re.sub` and `re.search` scan the subject from left to right.

The file system is a value `FileSystem(dirs, files)`: the set of directory paths and a map from file path to decoded contents.

The resolver compares the requested module with the alias table's key. In `main` that key is the symbol: the user's `SYMBOL=`, or the mangled module name. It is not the alias's logical module name. The model follows the code here (`tools/luaknit.py:106-107`, `tools/luaknit.py:182`).

## Model

| member | source | states |
|---|---|---|
| `KnitNames.Mangle` | tools/luaknit.py:33-34 | the global name is `__mod_` followed by the name with each non-word character turned into `_`: six characters longer, and made only of word characters |
| `KnitNames.MangleKeepsWordNames` | tools/luaknit.py:33-34 | the name is kept verbatim after `__mod_` exactly when it is made of letters, digits and `_` |
| `KnitNames.MangleMergesSeparators` | tools/luaknit.py:33-34 | replacing any non-word character by `_` gives the same global name, so distinct module names can collide |
| `KnitNames.ConditionalNewline` | tools/luaknit.py:76-78 | a newline is written exactly when the previous line exists, is non-empty and does not end in one of the operator characters; at most one newline |
| `KnitNames.NewlineAfterLine` | tools/luaknit.py:76-78 | for a line whose last character is not whitespace, the newline is needed iff that character is not an operator |
| `KnitNormalize.TrailingCommentStart` | tools/luaknit.py:60 | the end-of-line comment starts at the first `--` with no quote after it; no earlier `--` qualifies |
| `KnitNormalize.Squeezed` | tools/luaknit.py:63-70 | the squeezing steps only remove spaces: apart from spaces, the result equals the line |
| `KnitNormalize.NormalizeLine` | tools/luaknit.py:55-70 | a stripped line neither starts nor ends with whitespace |
| `KnitNormalize.QuotedLineKept` | tools/luaknit.py:63-70 | a line with a quote that is not a simple `foo = "bar"` assignment, or that has no `=` at all, passes the squeezing unchanged |
| `KnitNormalize.SqueezedKeepsEnds` | tools/luaknit.py:63-70 | squeezing a trimmed non-empty line keeps its first and last characters |
| `KnitNormalize.OperatorPassTight` | tools/luaknit.py:66-67 | after the single-character operator substitution, whatever its input, no space is left next to any character of `OperatorChars` |
| `KnitNormalize.SqueezedOperatorsTight` | tools/luaknit.py:63-67 | a squeezed line that holds no quote has no space next to any character of `OperatorChars` |
| `KnitNormalize.NormalizedOperatorsTight` | tools/luaknit.py:55-67 | a normalised line whose trimmed text holds no quote has no space next to any character of `OperatorChars` |
| `KnitNormalize.SpacedAssignmentIsSimple` | tools/luaknit.py:68 | `lhs`, spaces, `=`, spaces, `rhs` with a non-empty quote-free `lhs` and a non-empty `rhs` without `=` is what the simple-assignment pattern accepts |
| `KnitNormalize.EqualsRunSqueezed` | tools/luaknit.py:70 | the `' *= *'` substitution turns spaces, `=`, spaces and a `=`-free text starting with a non-space into `=` followed by that text |
| `KnitNormalize.SimpleAssignmentSqueezed` | tools/luaknit.py:68-70 | a quoted simple assignment `lhs = rhs` (no quote or `=` in `lhs`, no `=` in `rhs`, no space at their inner ends) comes out exactly as `lhs=rhs`: only the spaces around `=` go |
| `KnitNormalize.QuotedTailKept` | tools/luaknit.py:63-70 | everything from a quote on survives to the end of the stripped line: string literals are never altered |
| `KnitNormalize.CommentLineDropped` | tools/luaknit.py:55 | a line whose first non-space characters are `--` strips to the empty line |
| `KnitNormalize.NormalizeAll` | tools/luaknit.py:53-71 | each raw line is normalised independently, in order |
| `KnitNormalize.StrippedSound` | tools/luaknit.py:53-73 | each yielded pair is a 1-based line number in range, with the non-empty normalised text of that line |
| `KnitNormalize.StrippedOrdered` | tools/luaknit.py:53-73 | line numbers are yielded in strictly increasing order |
| `KnitNormalize.StrippedComplete` | tools/luaknit.py:72-73 | every line whose normalised text is non-empty is yielded with its number |
| `KnitNormalize.StripLines` | tools/luaknit.py:53-73 | the loop over the lines yields exactly the specified numbered non-empty lines |
| `KnitNormalize.GetStrippedSource` | tools/luaknit.py:37-73 | the stripped source of a file is the numbered non-empty normalised lines of its `splitlines()` |
| `KnitRequire.MatchStaticRequire` | tools/luaknit.py:95 | a static match names a module of non-whitespace characters, and its head is a prefix of the line ending in `require` |
| `KnitRequire.MatchDynamicRequire` | tools/luaknit.py:147 | a dynamic match starts at an `=` and its expression has at least two characters, does not start with a quote, and has no whitespace after its first character |
| `KnitRequire.Classify` | tools/luaknit.py:95-147 | a line with no quote is never static; a static line names a valid module; a dynamic line carries an expression as the dynamic pattern demands |
| `KnitRequire.RewriteStatic` | tools/luaknit.py:143 | a line without `=` is left unchanged by the assigned-require rewrite |
| `KnitRequire.RewriteDynamic` | tools/luaknit.py:148-150 | a line without `=` is left unchanged by the dynamic-require rewrite |
| `KnitRequire.QuotedName` | tools/luaknit.py:95 | a quoted module name runs from a quote to a later quote with no whitespace between them |
| `KnitRequire.BareRequireIsStatic` | tools/luaknit.py:95 | `require 'x'`, `require "x"` and `require('x')` with any indentation are static requires of `x` whose head holds no `=` |
| `KnitRequire.AssignedRequireRewritten` | tools/luaknit.py:95-143 | `lhs = require 'x'` in every call form is a static, assigned require of `x`, and the rewrite turns the line into `lhs=SYMBOL` |
| `KnitRequire.StaticNeedsQuote` | tools/luaknit.py:95 | for any line, having no quotes means it is not a static require |
| `KnitRequire.DynamicRequireRewritten` | tools/luaknit.py:144-150 | `lhs = require(expr)` with an unquoted expression is classified dynamic, and the line becomes `lhs` followed by the `load(...)` expression for `expr` |
| `KnitRequire.DynamicFoundAfter` | tools/luaknit.py:147 | the search finds a dynamic require that follows text without `=` |
| `Scan.Search` | tools/luaknit.py:95 | `re.search` finds a match iff the pattern matches at some position |
| `Scan.SearchFirst` | tools/luaknit.py:95 | `re.search` returns the match at the leftmost matching position |
| `Scan.SubAllNoMatch` | tools/luaknit.py:65-67 | `re.sub` leaves a string where the pattern never matches unchanged |
| `Scan.SubAllKeepsTail` | tools/mkreapack.py:165 | text after the last place a match can reach passes through `re.sub` unchanged |
| `Scan.SubAllOnlyRemovesSpaces` | tools/luaknit.py:65-67 | if each replacement differs from its match only in spaces, so does the whole `re.sub` result |
| `KnitResolve.PathJoin` | tools/luaknit.py:115 | `os.path.join` ends with its last component |
| `KnitResolve.DirnameOfJoin` | tools/luaknit.py:111 | `dirname(join(a, b))` is `a` for a single-component `b` |
| `KnitResolve.SplitextOfLua` | tools/luaknit.py:121 | `splitext(base + ".lua")[0]` is `base` |
| `KnitResolve.ModulePath` | tools/luaknit.py:104 | dots become path separators and nothing else changes |
| `KnitResolve.SearchBases` | tools/luaknit.py:104-121 | the first search base is always the naive path of the module |
| `KnitResolve.NoMatchingAlias` | tools/luaknit.py:104-107 | with no matching alias, the naive path is the only base |
| `KnitResolve.DirectoryAliasBase` | tools/luaknit.py:107-117 | a directory alias `S` matches `S.rest`, and its one base is the alias path joined with `rest` as a path |
| `KnitResolve.SymbolSuffixValues` | tools/luaknit.py:128 | the symbol suffix is empty for `.lua` and `_init` for `/init.lua` |
| `KnitResolve.FirstHit` | tools/luaknit.py:123-133 | the probe picks the first base with an existing `.lua` or `/init.lua` path, preferring `.lua`; none iff no base has either |
| `KnitResolve.ResolveSpec` | tools/luaknit.py:104-133 | a resolved module names a path that exists, and its symbol starts with the module's mangled name |
| `KnitResolve.ResolvedShape` | tools/luaknit.py:123-129 | a resolved module names an existing path, with symbol `Mangle(m)` for `.lua` and `Mangle(m)_init` for `/init.lua` |
| `KnitResolve.UnresolvedIff` | tools/luaknit.py:123-136 | resolution fails exactly when no search base has either file |
| `KnitResolve.NaivePathFirst` | tools/luaknit.py:104-131 | an existing naive `.lua` path is always the one taken, whatever the aliases |
| `KnitResolve.NaiveInitSecond` | tools/luaknit.py:125-131 | without a naive `.lua`, an existing naive `/init.lua` is taken, with the `_init` symbol |
| `KnitBundle.Target` | tools/luaknit.py:82-83 | a directory is processed as its `init.lua`; any other path as given |
| `KnitBundle.Emitted` | tools/luaknit.py:141-150 | a line is dropped exactly when it is a bare static require; plain lines pass unchanged |
| `KnitBundle.BareRequireDropped` | tools/luaknit.py:141-142 | a bare require line leaves nothing in the output |
| `KnitBundle.AssignedRequireEmitted` | tools/luaknit.py:141-143 | an assigned require is emitted as `lhs=SYMBOL` |
| `KnitBundle.DynamicRequireEmitted` | tools/luaknit.py:147-150 | a dynamic require is emitted with the `load(...)` expression |
| `KnitBundle.AliasTablePutSpec` | tools/luaknit.py:182 | storing an alias keeps symbols unique, makes the symbol map to the new alias, and leaves other entries in their insertion order |
| `KnitBundle.ParseFileArg` | tools/luaknit.py:175-181 | `SYM=PATH` gives a named alias split at the `=`; a plain path gives the mangled module name as symbol; the module name is the argument with `.lua` removed and `/` turned into `.` |
| `KnitBundle.ParseFileArgFails` | tools/luaknit.py:178 | an argument is rejected iff it holds two or more `=` (the tuple unpacking fails) |
| `KnitBundle.ReturnSymbolStep` | tools/luaknit.py:174-179 | the return symbol is the symbol of the last named argument |
| `KnitBundle.CommentLines` | tools/luaknit.py:171-172 | the header has one `-- line` per line of the comment, after `\n` becomes a newline |
| `KnitBundle.ProcessSpec` | tools/luaknit.py:81-157 | a seen path gives back the state unchanged and returns None; otherwise the header follows the output so far, the target is seen, earlier bindings and the new one are kept, and a finished block is closed |
| `KnitBundle.FreshSpec` | tools/luaknit.py:84-157 | a fresh path is marked seen and bound, its header follows the conditional newline, and a finished block ends with `end)()` |
| `KnitBundle.BlockSpec` | tools/luaknit.py:91-156 | the loop only extends the state, never reports a bad argument, and a finished block ends with the footer |
| `KnitBundle.LineSpec` | tools/luaknit.py:92-154 | one line's handling only extends the state and never reports a bad argument |
| `KnitBundle.Written` | tools/luaknit.py:152-154 | an emitted line is appended after the conditional newline and becomes `last`; no emission changes nothing |
| `KnitBundle.RequireSpec` | tools/luaknit.py:97-136 | handling a require only extends the state and never reports a bad argument |
| `KnitBundle.RunSpec` | tools/luaknit.py:185-186 | the run only appends, and a run that finishes has processed the target of every alias entry |
| `KnitBundle.ResolvedLine` | tools/luaknit.py:97-154 | for an unbound module that resolves: the file is processed first; its failure is the line's result; otherwise the rewritten line follows what processing wrote and becomes `last` |
| `KnitBundle.ResolvedRequireInlinedFirst` | tools/luaknit.py:97-152 | a module not yet inlined has its header written after the output so far, is bound to its symbol, and its block precedes the requiring line |
| `KnitBundle.LineAfterRequire` | tools/luaknit.py:97-154 | the line of a resolved require is the processing's failure, or is written after the processing's output |
| `KnitBundle.RequireCases` | tools/luaknit.py:97-136 | a bound module is used unchanged; an unresolvable one fails with this file and module; a resolved one is processed and its symbol returned |
| `KnitBundle.SeenRequireRewritten` | tools/luaknit.py:125-152 | a require of a file already inlined only writes the rewritten line, with no newline before it |
| `KnitBundle.UnresolvedRequireStops` | tools/luaknit.py:134-136 | an unresolvable require ends the block with that failure and writes nothing |
| `KnitBundle.BlockFailureIsLineFailure` | tools/luaknit.py:91-154 | a failed block returns one of its lines' failed steps unchanged |
| `KnitBundle.RunFailureIsEntryFailure` | tools/luaknit.py:185-186 | a failed run returns one alias entry's failed processing unchanged |
| `KnitBundle.LinesCopied` | tools/luaknit.py:91-156 | lines with no static require are written in order, each after its conditional newline, and then the footer |
| `KnitBundle.CopiedModuleBlock` | tools/luaknit.py:81-157 | a fresh file with no static require becomes its header, its stripped lines in order and the footer |
| `KnitBundle.Bundler.constructor` | tools/luaknit.py:172-184 | a run starts with empty tables and the comment header as output |
| `KnitBundle.Bundler.EmitConditionalNewline` | tools/luaknit.py:76-78 | appends the conditional newline and changes nothing else |
| `KnitBundle.Bundler.AddAlias` | tools/luaknit.py:182 | the alias table becomes the table with the alias stored under its symbol |
| `KnitBundle.Bundler.CollectBases` | tools/luaknit.py:104-121 | the loop over the aliases builds exactly the specified search bases |
| `KnitBundle.Bundler.ProbeBases` | tools/luaknit.py:123-133 | the probing loops find exactly the specified first hit |
| `KnitBundle.Bundler.Resolve` | tools/luaknit.py:104-133 | resolving a module gives exactly the specified path and symbol, or nothing |
| `KnitBundle.Bundler.Open` | tools/luaknit.py:84-89 | a fresh path is marked seen, bound under its module name, and its header is written after the conditional newline |
| `KnitBundle.Bundler.Process` | tools/luaknit.py:81-157 | the new state and status are exactly `ProcessSpec`'s: a seen path returns with no effect; otherwise its header follows the output so far, earlier bindings are kept, the block ends with the footer, and the alias table never changes |
| `KnitBundle.Bundler.ProcessFresh` | tools/luaknit.py:84-157 | the new state and status are exactly `FreshSpec`'s: the path is marked seen and bound, its header is written, and a finished block ends with `end)()` |
| `KnitBundle.Bundler.InlineAll` | tools/luaknit.py:91-156 | the loop over the stripped lines produces exactly `BlockSpec`'s state and status from the first line on |
| `KnitBundle.Bundler.Require` | tools/luaknit.py:97-136 | a bound module reuses its symbol with no effect; an unresolvable one stops with an error for this file and module and no effect; a resolved one is processed exactly as `ProcessSpec` says, after the output so far, and its symbol is returned |
| `KnitBundle.Bundler.InlineLine` | tools/luaknit.py:92-154 | a plain or dynamic line is written after the conditional newline; a static require of a bound module writes its rewrite, or nothing when bare; an unresolvable one stops the run; a resolved one has its module processed first, and the rewritten line follows that output and becomes `last`, unless the processing failed |
| `KnitBundle.Bundler.AddFiles` | tools/luaknit.py:175-182 | every argument is stored as an alias and the return symbol is the last named one; otherwise the first bad argument is reported |
| `KnitBundle.Bundler.ProcessAll` | tools/luaknit.py:184-186 | the loop over the alias entries produces exactly `RunSpec`'s state, fails exactly with its failure, and on success every entry's target was processed |
| `KnitBundle.Knit` | tools/luaknit.py:160-192 | a bundle starts with the comment header, ends in a newline, and ends with `return SYMBOL` when a symbol was named; the run aborts on arguments iff one holds two `=`; otherwise it aborts exactly with the run's failure, and a bundle is the run's output with the return line, every entry processed |
| `ReapackVersion.ParseVersion` | tools/mkreapack.py:33-34 | a parsed version is a non-empty list of non-negative numbers |
| `ReapackVersion.ParseVersionPieces` | tools/mkreapack.py:33-34 | parsing succeeds exactly when every `.`/`-`-separated part is an integer, and then gives one value per part, in order |
| `ReapackVersion.IntToStringRoundTrip` | tools/mkreapack.py:34 | `int(str(n)) == n` |
| `ReapackVersion.SplitVersionAppend` | tools/mkreapack.py:34 | splitting at a separator splits the two sides independently |
| `ReapackVersion.VersionRoundTrip` | tools/mkreapack.py:33-34 | parsing the dotted rendering of a list of numbers gives the list back |
| `ReapackVersion.VersionWithSuffix` | tools/mkreapack.py:52-54 | appending `-n` appends `n` to the parsed version |
| `ReapackVersion.ParseVersionExample` | tools/mkreapack.py:33-34 | `2.3.0-1` parses to `[2, 3, 0, 1]` |
| `ReapackVersion.ListLessExtend` | tools/mkreapack.py:45 | a version is older than any extension of it, as Python compares lists |
| `ReapackVersion.Major` | tools/mkreapack.py:30 | the major part is the text before the first `.` |
| `ReapackVersion.LastLargest` | tools/mkreapack.py:30 | the last element of a stable sort is the last one with the largest key |
| `ReapackVersion.LatestFromManifest` | tools/mkreapack.py:28-30 | a latest version exists iff the MANIFEST has lines and every major parses; it is one of the lines |
| `ReapackVersion.LatestHasLargestMajor` | tools/mkreapack.py:28-30 | the latest line has the largest major and no later line has as large a major |
| `ReapackVersion.FindVersionName` | tools/mkreapack.py:39 | a found version name is non-empty and holds no `"` |
| `ReapackVersion.FindsFirstVersionName` | tools/mkreapack.py:39-43 | the name of the first `<version name="…"` in the index is returned |
| `ReapackVersion.FirstReleaseUsesManifest` | tools/mkreapack.py:38-41 | with no previous version in the index, the MANIFEST version is used |
| `ReapackVersion.NextVersion` | tools/mkreapack.py:45-54 | the new version always starts with the MANIFEST version; it exists iff both versions parse |
| `ReapackVersion.NextVersionNumbers` | tools/mkreapack.py:45-54 | a newer MANIFEST is used as is; otherwise `-1` is added after a three-part version, or the last part plus one |
| `ReapackVersion.NextVersionIsNewer` | tools/mkreapack.py:45-54 | when the index's version is the MANIFEST version or a revision of it, the new version compares greater |
| `ReapackVersion.GenReapackVersion` | tools/mkreapack.py:37-54 | a version is produced only when the MANIFEST gives one, and it starts with it |
| `ReapackChangelog.ChangelogLines` | tools/mkreapack.py:69-92 | the lines start with the intro and end with the outro, with two or three lines per MANIFEST version between them |
| `ReapackChangelog.FileLines` | tools/mkreapack.py:64 | iterating a file gives non-empty lines that join back into its text |
| `ReapackChangelog.ManifestVersions` | tools/mkreapack.py:57-66 | the loop collects the stripped lines of the file, or nothing when it is absent |
| `ReapackChangelog.ManifestVersionsRoundTrip` | tools/mkreapack.py:57-66 | reading a MANIFEST written one stripped version per line gives back exactly the versions written |
| `ReapackChangelog.LargestUnique` | tools/mkreapack.py:74 | a set has at most one largest version |
| `ReapackChangelog.SortDescending` | tools/mkreapack.py:74 | `sorted(…, reverse=True)` is strictly descending and holds exactly the set's versions |
| `ReapackChangelog.Changes` | tools/mkreapack.py:79-83 | a major's changelog text is stripped, and empty when the file is missing |
| `ReapackChangelog.Section` | tools/mkreapack.py:75-89 | each version contributes two or three lines, the last one empty |
| `ReapackChangelog.SectionAt` | tools/mkreapack.py:74-89 | each version's section appears in the changelog after those of the larger versions |
| `ReapackChangelog.AddSection` | tools/mkreapack.py:75-89 | the loop body appends the version's section |
| `ReapackChangelog.AddSections` | tools/mkreapack.py:73-89 | the loop builds the intro followed by every section, in the given order |
| `ReapackChangelog.GenChangelog` | tools/mkreapack.py:69-92 | the changelog is the intro, the sections in descending version order and the outro, joined with newlines |
| `ReapackIndex.FindFromFirst` | tools/mkreapack.py:140 | the search for the closing tag finds its first occurrence |
| `ReapackIndex.BlockEndsAtFirstClose` | tools/mkreapack.py:140 | a version block ends at the first `</version>` followed by a line break after it opens (non-greedy match); a `</version>` without a line break after it does not end the block |
| `ReapackIndex.BlockAtIsBlock` | tools/mkreapack.py:140 | a matched block is indentation, `<version `, anything, `</version>` and a newline |
| `ReapackIndex.BlocksJoined` | tools/mkreapack.py:140 | cutting the index into gaps and version blocks loses nothing |
| `ReapackIndex.BlocksAreBlocks` | tools/mkreapack.py:140 | every piece cut out is a version block |
| `ReapackIndex.Find` | tools/mkreapack.py:128-139 | a block is kept whole or removed; it is kept iff it is empty or its number is within the maximum and it does not contain the tag |
| `ReapackIndex.Pruned` | tools/mkreapack.py:127-140 | ageing out never makes the index longer |
| `ReapackIndex.FilterPiecesAt` | tools/mkreapack.py:128-139 | the k-th block is kept unless k exceeds the maximum or it contains the tag; gaps are kept |
| `ReapackIndex.Prune` | tools/mkreapack.py:127-140 | the scanning loop produces exactly the pruned index |
| `ReapackIndex.PruneKeepsRecentReleases` | tools/mkreapack.py:136 | with no more blocks than the maximum and none naming the tag, the index is unchanged |
| `ReapackIndex.PruneAllWhenNoneKept` | tools/mkreapack.py:136 | with a maximum of zero or less, every version block is removed and everything else is kept |
| `ReapackIndex.RelPathAsWritten` | tools/mkreapack.py:151-154 | as written, a path is accepted iff it starts with the root, and the relative path is what follows one further character |
| `ReapackIndex.SiblingDirectoryAccepted` | tools/mkreapack.py:151-154 | the as-written test accepts a file in a sibling directory that shares the root's name as prefix |
| `ReapackIndex.RelPath` | tools/mkreapack.py:151-154 | a path is accepted iff it lies strictly under the root followed by `/`, and the relative path is the remainder |
| `ReapackIndex.RelPathRoundTrip` | tools/mkreapack.py:154 | the relative path of a file under the root is recovered exactly |
| `ReapackIndex.SiblingDirectoryRejected` | tools/mkreapack.py:151-154 | the corrected test rejects the sibling-directory file |
| `ReapackIndex.Sources` | tools/mkreapack.py:148-155 | at most one source line per file argument |
| `ReapackIndex.SourceLines` | tools/mkreapack.py:148-155 | the loop builds exactly the specified source lines |
| `ReapackIndex.SourcesOfFilesInside` | tools/mkreapack.py:149-155 | with every file under the root, there is one source line per file, in order, naming its relative path |
| `ReapackIndex.SourcesSkipOutside` | tools/mkreapack.py:151-153 | a file outside the root adds no line |
| `ReapackIndex.Indented` | tools/mkreapack.py:161 | every line gets the six-space indent |
| `ReapackIndex.VerXml` | tools/mkreapack.py:146-161 | the new block starts with the indented `<version name="…"` line and ends with the indented `</version>` |
| `ReapackIndex.InsertBlock` | tools/mkreapack.py:165 | an index with no `<reapack` anywhere is left unchanged |
| `ReapackIndex.InsertBelowReapack` | tools/mkreapack.py:165 | when the index has exactly one `<reapack…` line, the new block and a newline go right after it, and the rest of the index is unchanged; `re.sub` would put a copy after each of several such lines, as `InsertBlock` does |
| `ReapackIndex.Release` | tools/mkreapack.py:124-168 | a new index is produced exactly when a version can be worked out from the pruned index and the MANIFEST |
| `ReapackIndex.MakeRelease` | tools/mkreapack.py:124-168 | `main` writes the pruned index with the new release block inserted, or stops when no version can be worked out |

## Left out

- The two whole-file `re.S` passes of `get_stripped_source` (multi-line comments and the `_VERSION`/`_DESCRIPTION`/`_URL`/`_LICENSE` fields, `tools/luaknit.py:44-52`) are not modelled. File contents are taken as already passed through them.
- File reading is a map from path to decoded text. Python's newline translation is taken as already applied. `open()` of a path that is not a file ends the run with `Unreadable`.
- Paths are compared as exact strings. `os.path.exists`, `isfile` and `isdir` look the path up in the file-system value, with no normalisation of `//`, `.` or `..`. `os.path.abspath` and `os.chdir` in mkreapack are not modelled: file arguments are taken as absolute paths.
- Escapes in `re.sub` replacement templates are not modelled. Symbols, versions and changelog text are inserted literally, so a backslash in them behaves differently in the source.
- `\d` and `\S` are modelled as ASCII digits and the Python whitespace set used by `str.strip`. `int()` accepts surrounding whitespace, a sign and ASCII digits; underscores and non-ASCII digits are not modelled.
- `sys.exit(1)` on an unresolved module, and the exceptions raised on malformed versions or arguments, become `Error` values or `None` results. Logging and `print(opts)` are left out.
- Argument parsing, the output file, the git tag timestamp (`get_tag_timestamp`, a parameter `tagtime`), the current time and the `$GITHUB_REPOSITORY` fallback for `--repo` are not modelled: the values are parameters.
- The module name of a `SYM=PATH` argument is computed from the whole argument, `SYM=` included, as the source does (`tools/luaknit.py:176`). The model keeps this.
- `KnitRequire.DynamicRequireRewritten`: stated only for a left-hand side and an expression without quotes. Lines with quotes on the left would also need the static regex ruled out, which the lemma does not attempt.
- `KnitBundle.Knit`: the bundle text is stated as the output of `RunSpec`. The text of a module that has static requires is described case by case (`ResolvedLine`, `SeenRequireRewritten`, `UnresolvedRequireStops`). Only modules without static requires have a closed-form text (`CopiedModuleBlock`).
- `ReapackIndex.SourceLines`: uses the corrected root test `RelPath`, not the source's `startswith`. Three results differ from the source. With root `/src/rtk`, the file `/src/rtk2/a.lua` gets a `file="..//a.lua"` line in the source and no line in the model. A file equal to the root gets `file="../"` in the source and is skipped by the model. With root `/`, the source's relative path drops the file's first character after the `/`; the model's does not.
- `ReapackIndex.MakeRelease`: builds its source lines with `SourceLines`, so it has the same three differences from the source: the `..//a.lua` line for a sibling directory, the `file="../"` line for the root itself, and the dropped character under root `/`.
- `ReapackIndex.Sources` and `ReapackIndex.Release`: use the corrected `RelPath` as well, with the same three differences.
- `ReapackIndex.Pruned`: states only that the index does not grow; which blocks go is stated per block by `FilterPiecesAt`.
- `ReapackChangelog.Section`: its own contract states only the shape; the lines themselves are what its definition gives, and `GenChangelog` is proved equal to that definition.

## Findings

| source | as written | input that shows it | evidently intended | confidence | as-written member | corrected member |
|---|---|---|---|---|---|---|
| tools/mkreapack.py:151-154 | a file is taken to be inside the repository root when its absolute path merely starts with the root string | root `/src/rtk`, file `/src/rtk2/a.lua`: accepted, with relative path `/a.lua`, so a file of another directory is listed as `..//a.lua` | accept only paths under the root followed by `/` | not executed | `ReapackIndex.SiblingDirectoryAccepted` | `ReapackIndex.SiblingDirectoryRejected` |

`ReapackIndex.RelPathAsWritten` models the check as written. `ReapackIndex.RelPath` is the corrected check, and `ReapackIndex.RelPathRoundTrip` proves it recovers the relative path of every file under the root. `ReapackIndex.SourceLines` and `ReapackIndex.MakeRelease` use the corrected check.
