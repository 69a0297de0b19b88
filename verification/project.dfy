/** The resolved project reader: one query per field of a project file, each
    with its cardinality rule, combined into a read-only snapshot, and the
    snapshot's fixed-order text rendering.

    Values the source turns into filesystem paths are kept as their text:
    constructing a path from a string and reading its string back gives the
    same characters. */
module ProjectModel {
  import opened Wrappers
  import opened Errors
  import opened StringUtil
  import opened XmlQuery

  /** What each of the reader's queries selects in one project document. The
      per-platform fields (search paths, IntDir, OutDir, TargetName, TargetExt)
      hold only the matches whose Condition names the requested platform. */
  datatype Matches = Matches(
    clCompiles: seq<string>,
    clIncludes: seq<string>,
    searchPaths: seq<string>,
    intDir: seq<string>,
    outDir: seq<string>,
    projectName: seq<string>,
    projectGuid: seq<string>,
    targetName: seq<string>,
    targetExt: seq<string>)

  /** The snapshot of one project's build metadata. */
  datatype Project = Project(
    clIncludes: seq<string>,
    clCompiles: seq<string>,
    searchPaths: seq<string>,
    intDir: string,
    outDir: string,
    projectName: string,
    targetName: Option<string>,
    targetExt: Option<string>,
    uuid: string)

  /** A field that must have exactly one value (stripped of blanks). */
  function Required(matches: seq<string>): (r: Result<string, Error>)
    ensures r.Ok? <==> |matches| == 1
    ensures r.Ok? ==> r.value == Strip(matches[0])
    ensures r.Err? ==> r.error == Cardinality
  {
    var v :- Text(matches, false, true);
    if v.None? then Err(Cardinality) else Ok(v.value)
  }

  /** A field that may be absent but must not have more than one value. */
  function Optional(matches: seq<string>): (r: Result<Option<string>, Error>)
    ensures r == Ok(None) <==> |matches| == 0
    ensures |matches| == 1 ==> r == Ok(Some(Strip(matches[0])))
    ensures r.Err? <==> |matches| > 1
    ensures r.Err? ==> r.error == Cardinality
  {
    Text(matches, true, true)
  }

  /** The Include attributes of the compiled sources; there must be at least one. */
  function ClCompiles(m: Matches): (r: Result<seq<string>, Error>)
    ensures r.Err? <==> |m.clCompiles| == 0
    ensures r.Err? ==> r.error == Cardinality
    ensures r.Ok? ==> r.value == m.clCompiles
  {
    Attrs(m.clCompiles, false)
  }

  /** The Include attributes of the headers; there must be at least one. */
  function ClIncludes(m: Matches): (r: Result<seq<string>, Error>)
    ensures r.Err? <==> |m.clIncludes| == 0
    ensures r.Err? ==> r.error == Cardinality
    ensures r.Ok? ==> r.value == m.clIncludes
  {
    Attrs(m.clIncludes, false)
  }

  /** The include search paths: exactly one (semicolon-separated) value for
      the platform, although the query itself tolerates zero; the entries are
      the stripped, non-empty pieces between semicolons, in order. */
  function SearchPaths(m: Matches): (r: Result<seq<string>, Error>)
    ensures r.Ok? <==> |m.searchPaths| == 1
    ensures r.Err? ==> r.error == Cardinality
    ensures r.Ok? ==> r.value == SplitStrip(Strip(m.searchPaths[0]), ';')
    ensures r.Ok? ==> forall k :: 0 <= k < |r.value| ==>
      |r.value[k]| > 0 && IsStripped(r.value[k]) && ';' !in r.value[k]
  {
    var path :- Text(m.searchPaths, true, true);
    if path.None? then Err(Cardinality) else Ok(SplitStrip(path.value, ';'))
  }

  /** The intermediate directory: exactly one value for the platform. */
  function IntDir(m: Matches): (r: Result<string, Error>)
    ensures r.Ok? <==> |m.intDir| == 1
    ensures r.Ok? ==> r.value == Strip(m.intDir[0])
  {
    Required(m.intDir)
  }

  /** The output directory: exactly one value for the platform. */
  function OutDir(m: Matches): (r: Result<string, Error>)
    ensures r.Ok? <==> |m.outDir| == 1
    ensures r.Ok? ==> r.value == Strip(m.outDir[0])
  {
    Required(m.outDir)
  }

  /** The project name: exactly one value in the whole document. */
  function ProjectName(m: Matches): (r: Result<string, Error>)
    ensures r.Ok? <==> |m.projectName| == 1
    ensures r.Ok? ==> r.value == Strip(m.projectName[0])
  {
    Required(m.projectName)
  }

  /** The target base name: absent for zero matches, an error for several. */
  function TargetName(m: Matches): (r: Result<Option<string>, Error>)
    ensures r == Ok(None) <==> |m.targetName| == 0
    ensures r.Err? <==> |m.targetName| > 1
    ensures |m.targetName| == 1 ==> r == Ok(Some(Strip(m.targetName[0])))
  {
    Optional(m.targetName)
  }

  /** The target extension: absent for zero matches, an error for several. */
  function TargetExt(m: Matches): (r: Result<Option<string>, Error>)
    ensures r == Ok(None) <==> |m.targetExt| == 0
    ensures r.Err? <==> |m.targetExt| > 1
    ensures |m.targetExt| == 1 ==> r == Ok(Some(Strip(m.targetExt[0])))
  {
    Optional(m.targetExt)
  }

  /** Text surrounded by braces, at least the two braces long. */
  predicate Braced(v: string) {
    |v| >= 2 && v[0] == '{' && v[|v| - 1] == '}'
  }

  /** The brace check exactly as the source writes it: it reads the first and
      the last character without checking the value is non-empty, so it is
      only meaningful for non-empty text. */
  function BraceCheckAsWritten(sv: string): (ok: bool)
    requires |sv| > 0
    ensures ok <==> Braced(sv)
  {
    sv[0] == '{' && sv[|sv| - 1] == '}'
  }

  /** The brace check with the empty value handled: a format error unless the
      text is braced; otherwise the text between the braces, which put back
      between braces gives the input again. */
  function StripBraces(v: string): (r: Result<string, Error>)
    ensures r.Ok? <==> Braced(v)
    ensures r.Err? ==> r.error == Format
    ensures r.Ok? ==> "{" + r.value + "}" == v && |r.value| == |v| - 2
  {
    if |v| > 0 && v[0] == '{' && v[|v| - 1] == '}' then
      var inner := v[1..|v| - 1];
      assert "{" + inner + "}" == v;
      Ok(inner)
    else Err(Format)
  }

  /** The project GUID with its braces removed: a cardinality error unless
      there is exactly one value, then a format error unless it is braced. */
  function Uuid(m: Matches): (r: Result<string, Error>)
    ensures |m.projectGuid| != 1 ==> r == Err(Cardinality)
    ensures |m.projectGuid| == 1 && !Braced(Strip(m.projectGuid[0])) ==> r == Err(Format)
    ensures r.Ok? <==> |m.projectGuid| == 1 && Braced(Strip(m.projectGuid[0]))
    ensures r.Ok? ==> "{" + r.value + "}" == Strip(m.projectGuid[0])
    ensures r.Ok? ==> |r.value| == |Strip(m.projectGuid[0])| - 2
  {
    var v :- Required(m.projectGuid);
    StripBraces(v)
  }

  /** A blank ProjectGuid passes the cardinality check and reaches the brace
      check as an empty value, where the check as written reads outside it;
      the corrected check reports a format error instead. */
  lemma BlankGuidReachesBraceCheck()
    ensures Required([" "]) == Ok("")
    ensures !(|Required([" "]).value| > 0)
    ensures Uuid(Matches([], [], [], [], [], [], [" "], [], [])) == Err(Format)
  {
    assert Strip(" ") == "" by {
      assert BlanksEnd(" ", 1) == 1;
    }
  }

  /** "{ABCD-1234}" reads as "ABCD-1234"; a value without the closing brace is a format error. */
  lemma UuidExamples()
    ensures StripBraces("{ABCD-1234}") == Ok("ABCD-1234")
    ensures StripBraces("{ABCD-1234") == Err(Format)
  {
    assert "{ABCD-1234}"[1..10] == "ABCD-1234";
  }

  /** Reads the whole snapshot, failing on the first field that fails. */
  function Read(m: Matches): (r: Result<Project, Error>)
    ensures r.Ok? <==>
      && |m.clIncludes| > 0 && |m.clCompiles| > 0
      && |m.searchPaths| == 1 && |m.intDir| == 1 && |m.outDir| == 1 && |m.projectName| == 1
      && |m.targetName| <= 1 && |m.targetExt| <= 1
      && |m.projectGuid| == 1 && Braced(Strip(m.projectGuid[0]))
    ensures r.Ok? ==>
      && r.value.clIncludes == m.clIncludes
      && r.value.clCompiles == m.clCompiles
      && r.value.searchPaths == SplitStrip(Strip(m.searchPaths[0]), ';')
      && r.value.intDir == Strip(m.intDir[0])
      && r.value.outDir == Strip(m.outDir[0])
      && r.value.projectName == Strip(m.projectName[0])
      && r.value.targetName == (if |m.targetName| == 1 then Some(Strip(m.targetName[0])) else None)
      && r.value.targetExt == (if |m.targetExt| == 1 then Some(Strip(m.targetExt[0])) else None)
      && "{" + r.value.uuid + "}" == Strip(m.projectGuid[0])
    ensures r.Err? && r.error != Format ==> r.error == Cardinality
    // Whatever order the field readers run in: a format error comes only
    // from the brace rule, and it is the error when that rule alone fails.
    ensures r == Err(Format) ==> |m.projectGuid| == 1 && !Braced(Strip(m.projectGuid[0]))
    ensures
      && |m.clIncludes| > 0 && |m.clCompiles| > 0
      && |m.searchPaths| == 1 && |m.intDir| == 1 && |m.outDir| == 1 && |m.projectName| == 1
      && |m.targetName| <= 1 && |m.targetExt| <= 1
      && |m.projectGuid| == 1 && !Braced(Strip(m.projectGuid[0]))
      ==> r == Err(Format)
    // With the readers run in the textual order this model fixes: a format
    // error exactly when every cardinality rule holds.
    ensures r == Err(Format) <==>
      && |m.clIncludes| > 0 && |m.clCompiles| > 0
      && |m.searchPaths| == 1 && |m.intDir| == 1 && |m.outDir| == 1 && |m.projectName| == 1
      && |m.targetName| <= 1 && |m.targetExt| <= 1
      && |m.projectGuid| == 1 && !Braced(Strip(m.projectGuid[0]))
  {
    var clIncludes :- ClIncludes(m);
    var clCompiles :- ClCompiles(m);
    var searchPaths :- SearchPaths(m);
    var intDir :- IntDir(m);
    var outDir :- OutDir(m);
    var projectName :- ProjectName(m);
    var targetName :- TargetName(m);
    var targetExt :- TargetExt(m);
    var uuid :- Uuid(m);
    Ok(Project(clIncludes, clCompiles, searchPaths, intDir, outDir, projectName,
               targetName, targetExt, uuid))
  }

  // The text rendering: a header line per section, then one quoted line per value.

  datatype Section = Section(header: string, items: seq<string>)

  /** The section headers, in the order they are emitted (the first keeps the
      source's spelling). */
  const SectionOrder: seq<string> := [
    "AdditionaIncludeDirectories: ", "ClCompile: ", "ClInclude: ", "IntDir: ",
    "OutDir: ", "ProjectName: ", "TargetName: ", "TargetExt: ", "UUID: "]

  const ItemPrefix: string := "  | \""

  function Quote(s: string): string {
    ItemPrefix + s + "\""
  }

  predicate IsItemLine(l: string) {
    |l| >= 6 && l[..5] == ItemPrefix && l[|l| - 1] == '"'
  }

  function Unquote(l: string): string
    requires IsItemLine(l)
  {
    l[5..|l| - 1]
  }

  lemma QuoteUnquote(s: string)
    ensures IsItemLine(Quote(s)) && Unquote(Quote(s)) == s
  {
    var q := Quote(s);
    assert q[..5] == ItemPrefix;
    assert q[5..|q| - 1] == s;
  }

  function QuoteAll(items: seq<string>): (r: seq<string>)
    ensures |r| == |items|
    ensures forall k :: 0 <= k < |items| ==> r[k] == Quote(items[k])
  {
    seq(|items|, k requires 0 <= k < |items| => Quote(items[k]))
  }

  /** The sections of a snapshot in emission order. How an optional value is
      shown is not part of this model, so it is a parameter. */
  function Sections(p: Project, showOpt: Option<string> -> string): (r: seq<Section>)
    ensures |r| == |SectionOrder|
    ensures forall k :: 0 <= k < |r| ==> r[k].header == SectionOrder[k]
  {
    [ Section(SectionOrder[0], p.searchPaths),
      Section(SectionOrder[1], p.clCompiles),
      Section(SectionOrder[2], p.clIncludes),
      Section(SectionOrder[3], [p.intDir]),
      Section(SectionOrder[4], [p.outDir]),
      Section(SectionOrder[5], [p.projectName]),
      Section(SectionOrder[6], [showOpt(p.targetName)]),
      Section(SectionOrder[7], [showOpt(p.targetExt)]),
      Section(SectionOrder[8], [p.uuid]) ]
  }

  /** The lines of a sequence of sections. */
  function Lines(secs: seq<Section>): seq<string>
  {
    if |secs| == 0 then []
    else
      var last := secs[|secs| - 1];
      Lines(secs[..|secs| - 1]) + [last.header] + QuoteAll(last.items)
  }

  /** Splits lines back into sections: a line that is not a quoted item starts
      a new section, and each quoted item belongs to the section above it. */
  function Unrender(lines: seq<string>): seq<Section>
  {
    if |lines| == 0 then []
    else
      var init := Unrender(lines[..|lines| - 1]);
      var l := lines[|lines| - 1];
      if IsItemLine(l) then
        if |init| == 0 then []
        else
          var cur := init[|init| - 1];
          init[..|init| - 1] + [Section(cur.header, cur.items + [Unquote(l)])]
      else init + [Section(l, [])]
  }

  lemma {:induction false} UnrenderItems(pre: seq<string>, h: string, items: seq<string>)
    requires !IsItemLine(h)
    ensures Unrender(pre + [h] + QuoteAll(items)) == Unrender(pre) + [Section(h, items)]
    decreases |items|
  {
    var front := pre + [h];
    if |items| == 0 {
      assert QuoteAll(items) == [];
      AppendEmpty(front);
      PrefixOfAppend(pre, [h]);
    } else {
      var init, l := items[..|items| - 1], items[|items| - 1];
      InitLast(items);
      assert QuoteAll(items) == QuoteAll(init) + [Quote(l)];
      AppendAssoc(front, QuoteAll(init), [Quote(l)]);
      PrefixOfAppend(front + QuoteAll(init), [Quote(l)]);
      QuoteUnquote(l);
      UnrenderItems(pre, h, init);
      var secs := Unrender(pre);
      PrefixOfAppend(secs, [Section(h, init)]);
    }
  }

  /** The rendering can be split back into exactly the sections it came from,
      provided no header looks like a quoted item. */
  lemma {:induction false} UnrenderLines(secs: seq<Section>)
    requires forall k :: 0 <= k < |secs| ==> !IsItemLine(secs[k].header)
    ensures Unrender(Lines(secs)) == secs
    decreases |secs|
  {
    if |secs| > 0 {
      var init := secs[..|secs| - 1];
      var last := secs[|secs| - 1];
      UnrenderLines(init);
      UnrenderItems(Lines(init), last.header, last.items);
      assert init + [last] == secs;
    }
  }

  /** Project::to_string as lines: the nine sections in the fixed order search
      paths, ClCompile, ClInclude, IntDir, OutDir, ProjectName, TargetName,
      TargetExt, UUID, each value on its own quoted line, such that the lines
      split back into exactly those sections. */
  function ToString(p: Project, showOpt: Option<string> -> string): (lines: seq<string>)
    ensures Unrender(lines) == Sections(p, showOpt)
    ensures |Unrender(lines)| == 9
    ensures forall k :: 0 <= k < 9 ==> Unrender(lines)[k].header == SectionOrder[k]
  {
    var secs := Sections(p, showOpt);
    assert forall k :: 0 <= k < |secs| ==> !IsItemLine(secs[k].header) by {
      forall k | 0 <= k < |secs| ensures !IsItemLine(secs[k].header) {
        assert secs[k].header[0] != ' ';
      }
    }
    UnrenderLines(secs);
    Lines(secs)
  }
}
