# Visual Studio project files: path algebra, queries, readers and the reference reconciler

This Dafny project models the core of a C++ tool that reads and edits
Visual Studio project files (`.vcxproj`). It has four parts, and each is
written as pure functions over immutable values:

- **Path algebra** (`Paths`, `StringUtil`): lexical normal form, lexical
  relative paths (the full algorithm and the simplified "fast" one), the
  path `/` operator, absolutisation against a working directory,
  backslash/forward-slash conversion, and path equality that can ignore
  letter case. The string helpers it uses are substring tests, blank
  stripping, splitting, and split-and-strip.
- **Query cardinality** (`XmlQuery`): the single-result and multi-result
  queries over node texts and attribute values. Each kind of query has its
  own rule about zero, one, or several matches. Typed attributes are
  accepted only when the parse consumes the whole text.
- **Project readers** (`ProjectModel`, `ProjectRaw`):
  - The resolved reader takes each field with its cardinality rule: the
    source lists, the search paths, IntDir, OutDir, ProjectName,
    TargetName, TargetExt, and the braced ProjectGuid.
  - Its text rendering has a fixed section order.
  - The raw reader keeps paths as forward-slash literals and drops
    search-path entries that use a build variable (`%(`).
  - The raw reader also derives the tool-log name, which is at most 22
    bytes long. It is measured and cut in UTF-8 bytes, as the source's
    `std::string` operations do.
- **Reference reconciler** (`AddRemove`):
  - Converting a source path to the backslashed literal stored in the
    project, and back.
  - Deciding whether a stored literal references a source file. The
    comparison ignores case and slash direction.
  - Finding every referencing `ClCompile` node, adding a reference, and
    removing every reference.

Errors that the source raises as exceptions are `Err` values of one error
type (`Errors.Error`):

- `Cardinality`: a query has the wrong number of matches.
- `Format`: a ProjectGuid is not braced.
- `DuplicateReference`: the source file is already referenced.
- `NotFound`: there is nothing to remove.
- `Persist`: the document could not be saved.

A query's matches are an input sequence: the model does not evaluate the
query language. A project document is the `Project` element's child groups,
each with its ordered child nodes. The project directory and the working
directory are parameters. Saving is a boolean outcome.

## Model

| member | source | states |
|---|---|---|
| StringUtil.Contains | util/string-util.hpp:17-18 | true exactly when `what` occurs at some position of `s` |
| StringUtil.StartsWith | util/string-util.hpp:20-21 | true exactly when s is `what` followed by some text |
| StringUtil.EndsWith | util/string-util.hpp:23-24 | true exactly when s is some text followed by `what` |
| StringUtil.StartsWithContains | util/string-util.hpp:17-21 | a string contains every prefix it starts with |
| StringUtil.EndsWithContains | util/string-util.hpp:17-24 | a string contains every suffix it ends with |
| StringUtil.Strip | util/string-util.hpp:26-28 | the result has no blank at either end, and it is the substring of the input left after removing a blank prefix and a blank suffix |
| StringUtil.StripKeepsAbsent | util/string-util.hpp:26-28 | stripping introduces no character that the input lacked |
| StringUtil.StripOfStripped | util/string-util.hpp:26-28 | a string with no blank at either end is its own strip |
| StringUtil.StripIdempotent | util/string-util.hpp:26-28 | stripping twice equals stripping once |
| StringUtil.Split | util/string-util.hpp:30-32 | there is at least one piece, no piece contains the separator, and joining the pieces with the separator gives back the input |
| StringUtil.SplitJoin | util/string-util.hpp:30-32 | splitting undoes joining when the pieces contain no separator |
| StringUtil.SplitStrip | util/string-util.hpp:34-37 | every element is non-empty, has no blank at either end, and contains no separator |
| StringUtil.StripNonEmptyAppend | util/string-util.hpp:34-37 | stripping and dropping empty pieces distributes over concatenation, so the surviving pieces keep their order |
| StringUtil.StripNonEmptySingle | util/string-util.hpp:34-37 | a piece survives exactly when it is not blank, and then in its stripped form |
| StringUtil.Utf8Char | project/project_raw.cpp:223-231 | one to four bytes per character: one exactly for ASCII, otherwise a lead byte whose range gives the length, then continuation bytes 10xxxxxx |
| StringUtil.Utf8CharInjective | project/project_raw.cpp:223-231 | different characters have different encodings |
| StringUtil.Utf8Injective | project/project_raw.cpp:223-231 | equal bytes mean equal text, so a byte-level comparison of names is a comparison of the names |
| StringUtil.Utf8Append | project/project_raw.cpp:223-231 | the bytes of a concatenation are the concatenated bytes |
| StringUtil.Utf8Ascii | project/project_raw.cpp:223-231 | ASCII text is one byte per character, each the character's code |
| StringUtil.Utf8Longer | project/project_raw.cpp:223-231 | text with a non-ASCII character is longer in bytes than in characters |
| Paths.Normal | util/fs.hpp:28-35 | keeps the absolute/relative kind; the result is in normal form (no ".", no ".." after a name, no ".." below a root) |
| Paths.NormalOfNormal | util/fs.hpp:28-35 | a path already in normal form is unchanged |
| Paths.NormalIdempotent | util/fs.hpp:28-35 | lexical normalisation is idempotent |
| Paths.CommonPrefix | util/fs.hpp:37-47 | the length of the longest common prefix: the prefixes agree, and the next components differ |
| Paths.Relative | util/fs.hpp:37-47 | the relative path is never absolute |
| Paths.RelativeSelf | util/fs.hpp:37-47 | every path is "." relative to itself |
| Paths.RelativeRoundTrip | util/fs.hpp:37-47 | normalising base / relative(p, base) gives back p, for normal p and base of the same kind where base holds only names |
| Paths.AbsoluteRoundTrip | util/fs.hpp:37-47 | the same round trip for any two normal absolute paths |
| Paths.RelativeFast | util/fs.hpp:49-58 | the simplified relative path is never absolute |
| Paths.RelativeFastAgrees | util/fs.hpp:49-58 | under the stated assumptions (same kind, both normal, no ".." in base), the fast variant equals the full relative path |
| Paths.FwdSlashes | util/fs.hpp:60-61 | same length, no backslash left, every backslash becomes '/', and every other character is unchanged |
| Paths.FwdSlashesAll | util/fs.hpp:63-64 | the vector form flips each element, keeping length and order |
| Paths.FwdSlashesIdempotent | util/fs.hpp:60-61 | flipping twice equals flipping once |
| Paths.BackSlashes | project/add-remove.cpp:24-35 | same length, no '/' left, and the same forward-slash form as the input: every separator becomes a backslash and every other character is unchanged |
| Paths.FwdAfterBack | project/add-remove.cpp:24-50 | on text without backslashes, flipping to backslashes and back gives the text again |
| Paths.Slash | project/add-remove.cpp:45-50 | the result is absolute exactly when either operand is; an absolute right operand replaces the left one, and a relative one is appended to the left operand's components. Its textual meaning (one '/' between the two texts) is proved in Paths.SlashRender |
| Paths.SlashRender | project/add-remove.cpp:45-50 | in text, `/` writes a relative operand after the left one with exactly one '/' between them, or none when either side has no components; an absolute operand is written alone |
| Paths.Parse | project/add-remove.cpp:45-47 | the parsed path has non-empty components without separators, and it is absolute exactly when the text starts with '/' |
| Paths.ParseRender | project/add-remove.cpp:45-47 | reading back the text of a well-formed path gives the same path |
| Paths.LexicallyAbsolute | project/add-remove.cpp:63-71 | the result is absolute and in normal form: the normal form of an absolute path, or of a relative one appended to the working directory |
| Paths.LexicallyAbsoluteStable | project/add-remove.cpp:63-71 | a normal absolute path is its own absolute form, and making a path absolute twice changes nothing |
| Paths.LexicallyAbsoluteDot | project/add-remove.cpp:146-153 | a leading "./" does not change a relative path's absolute form |
| Paths.NormalComponents | util/fs.hpp:28-35 | every component of the normal form comes from the path, except a lone "." |
| Paths.NormalWellFormed | util/fs.hpp:28-35 | normalisation keeps a path well-formed |
| Paths.PathEquals | util/fs.hpp:73-80 | case-sensitive equality is equality; case-insensitive equality holds exactly when the lower-cased paths are equal |
| Paths.PathEqualsReflexive | util/fs.hpp:73-80 | every path equals itself under either sensitivity |
| Paths.PathEqualsSymmetric | util/fs.hpp:73-80 | the comparison is symmetric |
| Paths.PathEqualsTransitive | util/fs.hpp:73-80 | the comparison is transitive |
| Paths.PathEqualsCaseExample | util/fs.hpp:73-80 | "A/B" equals "a/b" when case is ignored, and differs when case matters |
| Paths.NormalLower | util/fs.hpp:28-35 | normalisation commutes with lower-casing |
| Paths.ParseLower | project/add-remove.cpp:45-47 | parsing commutes with lower-casing |
| XmlQuery.Texts | xml/xml-util.hpp:78-82 | an error exactly when there are no matches and that is not allowed; otherwise one result per match, stripped when asked |
| XmlQuery.Text | xml/xml-util.hpp:84-91 | none exactly for zero allowed matches; a value exactly for one match; an error for several matches, whatever allowEmpty says |
| XmlQuery.TextRefinesTexts | xml/xml-util.hpp:78-91 | the single-result query yields v exactly when the multi-result query yields [v], and nothing exactly when that yields [] |
| XmlQuery.Attrs | xml/xml-util.hpp:67-70 | every attribute value, unstripped; an error only for zero matches when those are not allowed |
| XmlQuery.Attr | xml/xml-util.hpp:72-76 | the Text rule without stripping: none, the one value, or an error for several matches |
| XmlQuery.Attribute | xml/xml-util.hpp:32-47 | none for an absent attribute; a value exactly when the reader parses one and consumes the whole text |
| XmlQuery.StringAttribute | xml/xml-util.hpp:35-37 | with the whole-text reader, the typed attribute is the raw attribute: its text when present, none when absent |
| XmlQuery.DecimalAttributeExamples | xml/xml-util.hpp:39-44 | "42" reads as 42; "42x" is refused because the text is not exhausted; an absent attribute is none |
| ProjectModel.Required | project/project.cpp:118-123 | ok exactly for one match, with the stripped value; otherwise a cardinality error |
| ProjectModel.Optional | project/project.cpp:126-131 | none for zero matches, the stripped value for one, a cardinality error for several |
| ProjectModel.ClCompiles | project/project.cpp:67-71 | a cardinality error exactly when there is no ClCompile Include; otherwise all of them in order |
| ProjectModel.ClIncludes | project/project.cpp:73-77 | a cardinality error exactly when there is no ClInclude Include; otherwise all of them in order |
| ProjectModel.SearchPaths | project/project.cpp:79-94 | ok exactly for one match, although the query allows zero; the entries are the stripped, non-empty pieces between semicolons |
| ProjectModel.IntDir | project/project.cpp:96-105 | ok exactly for one per-platform match, with the stripped value |
| ProjectModel.OutDir | project/project.cpp:107-116 | ok exactly for one per-platform match, with the stripped value |
| ProjectModel.ProjectName | project/project.cpp:118-124 | ok exactly for one match, with the stripped value |
| ProjectModel.TargetName | project/project.cpp:126-131 | absent for zero matches, the value for one, an error for several |
| ProjectModel.TargetExt | project/project.cpp:133-138 | absent for zero matches, the value for one, an error for several |
| ProjectModel.BraceCheckAsWritten | project/project.cpp:145-147 | the brace test as written reads the first and last character; on non-empty text it holds exactly for braced text |
| ProjectModel.StripBraces | project/project.cpp:145-149 | ok exactly for braced text (an empty value is a format error); the result, put back between braces, is the input, and it is 2 characters shorter |
| ProjectModel.Uuid | project/project.cpp:140-150 | a cardinality error unless there is one match, then a format error unless it is braced; otherwise the text inside the braces |
| ProjectModel.BlankGuidReachesBraceCheck | project/project.cpp:140-147 | a blank ProjectGuid passes the cardinality check and reaches the brace test as an empty value; the corrected reader reports a format error |
| ProjectModel.UuidExamples | project/project.cpp:145-149 | "{ABCD-1234}" gives "ABCD-1234"; a missing closing brace is a format error |
| ProjectModel.Read | project/project.cpp:173-191 | ok exactly when every field's cardinality rule and the brace rule hold; each field of the snapshot is the value its reader gives, the optional ones none when absent; every error is a cardinality or a format error; in any evaluation order, a format error comes only from an unbraced GUID and is the error whenever the brace rule alone fails; in the textual order the model fixes, it occurs exactly then |
| ProjectModel.QuoteUnquote | project/project.cpp:197-199 | a quoted item line is recognised and its value recovered |
| ProjectModel.QuoteAll | project/project.cpp:201-204 | one quoted line per value, in order |
| ProjectModel.Sections | project/project.cpp:206-223 | nine sections whose headers follow the fixed order |
| ProjectModel.UnrenderLines | project/project.cpp:193-226 | the rendered lines split back into exactly the sections they came from |
| ProjectModel.ToString | project/project.cpp:193-226 | the rendering splits back into the snapshot's nine sections, with headers in the order search paths, ClCompile, ClInclude, IntDir, OutDir, ProjectName, TargetName, TargetExt, UUID |
| ProjectRaw.RawSearchPaths | project/project_raw.cpp:78-89 | an empty list for zero matches, a cardinality error exactly for several, otherwise the split-and-stripped entries |
| ProjectRaw.DropVariables | project/project_raw.cpp:163-166 | keeps exactly the entries without "%(": every kept entry comes from the input, and every variable-free input entry is kept |
| ProjectRaw.DropVariablesAppend | project/project_raw.cpp:163-166 | dropping distributes over concatenation, so the kept entries keep their order |
| ProjectRaw.Read | project/project_raw.cpp:153-179 | ok exactly when every field's rule holds (search paths may be absent); path fields are the forward-slash forms and contain no backslash; the name, target name and extension and the UUID are the resolved reader's values; a format error exactly when only the brace rule fails |
| ProjectRaw.TlogName | project/project_raw.cpp:223-231 | on UTF-8 bytes: ends in ".tlog" and is at most 22 bytes; a name of up to 16 bytes is used whole; otherwise the name's first 8 bytes, '.', and up to 8 bytes of the UUID |
| ProjectRaw.TlogNameDistinguishes | project/project_raw.cpp:223-231 | equal tool-log names (for names on the same side of 16 bytes) mean equal short names, or equal 8-byte name and UUID prefixes |
| ProjectRaw.TlogNameAscii | project/project_raw.cpp:223-231 | for ASCII names and UUIDs, the tool-log name is the text of the name, or of its first 8 characters, '.', and up to 8 UUID characters, followed by ".tlog" |
| ProjectRaw.TlogNameExample | project/project_raw.cpp:223-231 | "VeryLongProjectName12345" with UUID "ABCDEFGH-1234" gives "VeryLong.ABCDEFGH.tlog" |
| ProjectRaw.TlogNameShortExample | project/project_raw.cpp:223-231 | "App" gives "App.tlog" |
| ProjectRaw.TlogNameLongPrefix | project/project_raw.cpp:223-231 | a long name keeps exactly the characters that fill its first 8 bytes |
| ProjectRaw.Utf8Repeat | project/project_raw.cpp:223-231 | n copies of a character are n times its width in bytes |
| ProjectRaw.TlogNameTwoByteName | project/project_raw.cpp:225-229 | ten two-byte characters (20 bytes) are cut to four characters |
| ProjectRaw.TlogNameMultiByteExample | project/project_raw.cpp:225-229 | ten 'Ä' give "ÄÄÄÄ.ABCDEFGH.tlog", although the name has only 10 characters |
| ProjectRaw.TlogNameSplitsCharacter | project/project_raw.cpp:228-229 | six three-byte characters are cut one byte into the third, so the name is not valid UTF-8 |
| ProjectRaw.TlogNameSplitsEuro | project/project_raw.cpp:228-229 | for instance six '€' |
| ProjectRaw.DropsVariableEntry | project/project_raw.cpp:161-171 | a field "a;b" whose second entry uses a build variable reads as the forward-slash form of a alone |
| ProjectRaw.VariableExamples | project/project_raw.cpp:163 | "%(AdditionalIncludeDirectories)" is a build variable and "..\inc" is not |
| AddRemove.ToPrj | project/add-remove.cpp:28-36 | the stored literal contains no forward slash |
| AddRemove.FromPrj | project/add-remove.cpp:45-50 | an absolute literal is kept, and a relative one is anchored at the project directory; either way the result is absolute and normal |
| AddRemove.MatchSrc | project/add-remove.cpp:59-66 | true exactly when the source's absolute normal form and the path the literal denotes agree after lower-casing |
| AddRemove.AbsoluteStorable | project/add-remove.cpp:28-35 | the absolute form of a well-formed, backslash-free source is well-formed and backslash-free |
| AddRemove.FromToPrj | project/add-remove.cpp:20-50 | reading back the stored literal gives the source's absolute form, for a well-formed source when neither it nor the working directory has a backslash in a component |
| AddRemove.MatchToPrj | project/add-remove.cpp:59-66 | a stored literal references the source it was computed from, under the same condition on backslashes |
| AddRemove.MatchIgnoresCase | project/add-remove.cpp:59-66 | lower-casing the stored literal does not change what it matches |
| AddRemove.MatchIgnoresSlashDirection | project/add-remove.cpp:59-66 | flipping the stored literal's slashes either way does not change what it matches |
| AddRemove.MatchIgnoresCaseAndSlashes | project/add-remove.cpp:59-66 | lower-casing and backslashing together do not change what it matches |
| AddRemove.MatchCaseAndSlashExample | project/add-remove.cpp:59-66 | "a\b" and "A/B" match the same sources |
| AddRemove.ToPrjExample | project/add-remove.cpp:28-36 | with the project in /repo/proj, /repo/src/a.cpp is stored as "..\src\a.cpp" |
| AddRemove.MatchExample | project/add-remove.cpp:59-66 | the same project finds /repo/src/a.cpp behind "..\src\a.cpp" |
| AddRemove.FindInGroup | project/add-remove.cpp:72-81 | the matching nodes of one group at and after an index, in order |
| AddRemove.FindFrom | project/add-remove.cpp:72-81 | the matching nodes of the groups from an index on, in document order |
| AddRemove.FindSrc | project/add-remove.cpp:72-81 | a location is returned exactly when it holds a ClCompile with an Include that matches; the locations are in strict document order |
| AddRemove.FirstCompileGroup | project/add-remove.cpp:106-114 | the first ItemGroup that holds a ClCompile, or none when there is no such group |
| AddRemove.Insert | project/add-remove.cpp:111-119 | the new ClCompile is appended to the first compile group, or to a new ItemGroup at the end; every other group is unchanged |
| AddRemove.InsertedAt | project/add-remove.cpp:111-119 | the new node sits at this location |
| AddRemove.InsertNodes | project/add-remove.cpp:111-119 | every other node of the updated document is at the same location in the original |
| AddRemove.InsertKeepsNodes | project/add-remove.cpp:111-119 | every original node keeps its location and is not the new one |
| AddRemove.AddToVcxproj | project/add-remove.cpp:94-124 | a duplicate-reference error exactly when the source is already referenced; a persist error when the save fails; otherwise the document with the stored literal inserted |
| AddRemove.AddThenFind | project/add-remove.cpp:99-119 | after a successful add of a well-formed source without backslashes (in it or in the working directory), the source is referenced by exactly the new node |
| AddRemove.AddTwiceFails | project/add-remove.cpp:99-101 | adding the same such source again fails with a duplicate-reference error |
| AddRemove.FindSrcSame | project/add-remove.cpp:68-81 | two sources with the same absolute form, such as "./a.cpp" and "a.cpp", find the same references |
| AddRemove.AddDotThenPlainFails | project/add-remove.cpp:91-101 | after "./" + a path is added, adding the path is a duplicate |
| AddRemove.AddToProject | project/add-remove.cpp:126-144 | the project document is updated as add_2_vcxproj does; the filters document comes back unchanged |
| AddRemove.KeepNodes | project/add-remove.cpp:168-172 | keeps exactly the nodes that do not reference the source |
| AddRemove.KeepNodesAppend | project/add-remove.cpp:168-172 | removal distributes over concatenation, so the kept nodes keep their order |
| AddRemove.RemoveRefs | project/add-remove.cpp:168-172 | every group keeps its name and, in order, its nodes that do not reference the source |
| AddRemove.RemoveRefsLeavesNone | project/add-remove.cpp:168-172 | afterwards nothing references the source |
| AddRemove.RmFrom | project/add-remove.cpp:158-177 | a not-found error exactly when nothing references the source; a persist error exactly when something does and the save fails; success exactly when something does and the save succeeds, with every referencing node removed, and only those |
| AddRemove.RemoveTwiceFails | project/add-remove.cpp:163-166 | removing the same source again fails with a not-found error |
| AddRemove.AddThenRemove | project/add-remove.cpp:94-177 | removing a freshly added source (well-formed, no backslashes in it or the working directory) restores the document; the exception is an ItemGroup created for the new node, which stays behind empty |

## Left out

- Reading and saving files (`xml::parse`, `doc.save_file`): the document is a value, and the outcome of a save is a boolean parameter. A failed save reports `Persist`; what is then on disk is not modelled.
- XPath evaluation, including substitution of the platform variable: every query is represented by its ordered matches.
- `normpath` and `absnormpath` touch the filesystem and resolve symbolic links. The project directory is a given absolute, normal path (`AddRemove.Env`).
- Paths.LexicallyAbsolute: fs.cpp, which defines it, is not part of this model. The model appends a relative path to the working directory and normalises the result, as the comments at project/add-remove.cpp:68-71 and 146-153 say the compared paths are. The symlink-resolving branch for existing files is left out; it also yields a normal absolute path.
- Paths.PathEquals: fs.cpp, which defines `path_equals`, is not part of this model. util/fs.hpp:73-80 says only that it compares two paths lexicographically, optionally ignoring case. The model compares component by component. Under `No` it folds ASCII letters only, so "Ä.cpp" and "ä.cpp" are different references for `find_src`, for add's duplicate check and for remove's not-found check.
- Paths.Slash: `util::slash` (project/add-remove.cpp:49) is declared in no file of this model. It is taken to be the C++17 path `/` operator on POSIX-style paths.
- AddRemove.FromToPrj: holds only for a well-formed source when no component of it or of the working directory contains a backslash. The source has the same limit: to_prj turns every backslash into a separator, so such a file name cannot be stored faithfully.
- AddRemove.MatchToPrj: the same backslash condition as FromToPrj, for the same reason.
- AddRemove.AddThenFind: the same backslash condition as FromToPrj, for the same reason.
- AddRemove.AddTwiceFails: the same backslash condition as FromToPrj, for the same reason.
- AddRemove.AddThenRemove: the same backslash condition as FromToPrj, for the same reason.
- AddRemove.AddDotThenPlainFails: the same backslash condition as FromToPrj, for the same reason.
- Paths.RelativeFast: fs.cpp is not part of this model. The fast variant is modelled from its documented assumptions, so it has no kind check and counts the base's remaining non-"." components as ".." steps.
- Paths.Relative: follows the C++17 wording of `lexically_relative`, including the empty path when the base climbs above the common prefix.
- Windows root names, trailing separators and native separators are not modelled: paths are POSIX-style, with '/' as the only separator.
- The platform-dependent `CaseSensitive::DEFAULT` is left out: sensitivity is always an explicit `Yes` or `No`.
- The `std::hash<fs::path>` specialisation (util/fs.hpp:94-102) and the `operator<<` stream operators are output plumbing.
- `to_strings`, `to_string`, `to_path` and `to_paths` (util/string-util.hpp:39-56) convert between string types that are the same value here.
- `path_` (util/fs.hpp:66-71) is left out because the model never slices iterator ranges of paths.
- ProjectModel.ToString: the text of an optional value (`util::to_string` of an `optional`) is not shown, so it is a parameter. In the source, a value that contains a line break adds lines to the output; the model keeps every value on one line.
- `ProjectRaw::to_string` (project/project_raw.cpp:181-221) is left out. It is the same rendering as the resolved reader's, with path lines written by the path inserter, plus the tool-log name.
- StringUtil.Strip: string-util.cpp, which defines `strip`, is not part of this model. util/string-util.hpp:26-28 says only that it removes "blank space". The model takes that to mean the six `isspace` characters of the C locale (space, tab, newline, vertical tab, form feed, carriage return), not just the space and tab of `isblank`. Every field reader depends on this choice.
- ProjectModel.Read: the C++ evaluation order of the constructor arguments in `read` (project/project.cpp:173-191) is unspecified. Success, the field values, which error kinds can occur, and "a format error only from the brace rule, and always when that rule alone fails" hold in every order. The clause "a format error exactly when every cardinality rule holds and the GUID is unbraced" depends on the textual order the model fixes. With right-to-left evaluation, an unbraced GUID would report a format error before an empty ClCompile list is seen.
- The document tree is two levels deep: the `Project` element's groups and their child nodes. `find_src` scans the whole tree in the source, but ClCompile references sit at this depth.
- `add_2_filters` is an explicit no-op, reflected in `AddRemove.AddToProject`.
- project/solution.hpp (solution file scanning) is not part of this model.
- Two results that are easy to get wrong:
  - For /repo/src/a.cpp and a project in /repo/proj, to_prj stores `..\src\a.cpp`: one level up from the project directory (AddRemove.ToPrjExample).
  - The raw reader turns the kept search-path entry `..\inc` into `../inc`, because it converts path fields to forward slashes (ProjectRaw.DropsVariableEntry).

## Findings

| source | as written | input that shows it | evidently intended | confidence | as-written member | corrected member |
|---|---|---|---|---|---|---|
| project/project.cpp:145-147 | `uuid` reads `sv[0]` without checking that the stripped ProjectGuid is non-empty (project/project_raw.cpp:140-142 is the same) | one ProjectGuid whose text is blank, such as `<ProjectGuid> </ProjectGuid>`: it passes the one-match check and strips to "" | report the "not surrounded in { }" error | not executed | ProjectModel.BraceCheckAsWritten, ProjectModel.BlankGuidReachesBraceCheck | ProjectModel.StripBraces |
