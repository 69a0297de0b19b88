/** The raw project reader: the same fields as the resolved reader, but path
    fields stay literal text, converted to forward slashes and never resolved;
    search-path entries that use a build variable are dropped; and a
    length-bounded tool-log name is derived from the project name and UUID.

    Its per-field readers for IntDir, OutDir, ProjectName, TargetName,
    TargetExt, the UUID and the source lists are the same code as the
    resolved reader's, and are modelled by the same functions. */
module ProjectRaw {
  import opened Wrappers
  import opened Errors
  import opened StringUtil
  import opened XmlQuery
  import opened Paths
  import opened ProjectModel

  datatype RawProject = RawProject(
    clIncludes: seq<string>,
    clCompiles: seq<string>,
    searchPaths: seq<string>,
    intDir: string,
    outDir: string,
    projectName: string,
    targetName: Option<string>,
    targetExt: Option<string>,
    uuid: string)

  /** The raw search paths: an empty list when the platform has no value, an
      error for several values, otherwise the stripped non-empty pieces
      between semicolons. */
  function RawSearchPaths(m: Matches): (r: Result<seq<string>, Error>)
    ensures |m.searchPaths| == 0 ==> r == Ok([])
    ensures r.Err? <==> |m.searchPaths| > 1
    ensures r.Err? ==> r.error == Cardinality
    ensures |m.searchPaths| == 1 ==> r == Ok(SplitStrip(Strip(m.searchPaths[0]), ';'))
  {
    var path :- Text(m.searchPaths, true, true);
    if path.None? then Ok([]) else Ok(SplitStrip(path.value, ';'))
  }

  /** The marker of an unresolved build variable such as %(AdditionalIncludeDirectories). */
  const VariableMarker: string := "%("

  predicate IsVariable(s: string) {
    Contains(s, VariableMarker)
  }

  /** Drops the entries that use a build variable and keeps the others in order. */
  function DropVariables(paths: seq<string>): (r: seq<string>)
    ensures forall k :: 0 <= k < |r| ==> !IsVariable(r[k])
    ensures forall x :: x in r ==> x in paths
    ensures forall x :: x in paths && !IsVariable(x) ==> x in r
    ensures |r| <= |paths|
  {
    if |paths| == 0 then []
    else
      var rest := DropVariables(paths[1..]);
      assert forall x :: x in paths ==> x == paths[0] || x in paths[1..];
      if IsVariable(paths[0]) then rest else [paths[0]] + rest
  }

  /** Dropping distributes over concatenation, so the kept entries stay in
      their original order. */
  lemma {:induction false} DropVariablesAppend(a: seq<string>, b: seq<string>)
    ensures DropVariables(a + b) == DropVariables(a) + DropVariables(b)
    decreases |a|
  {
    if |a| == 0 {
      assert a + b == b;
    } else {
      assert (a + b)[0] == a[0];
      assert (a + b)[1..] == a[1..] + b;
      DropVariablesAppend(a[1..], b);
    }
  }

  /** Reads the raw snapshot: the search paths first, then the fields in
      declaration order, failing on the first field that fails. */
  function Read(m: Matches): (r: Result<RawProject, Error>)
    ensures r.Ok? <==>
      && |m.clIncludes| > 0 && |m.clCompiles| > 0
      && |m.searchPaths| <= 1 && |m.intDir| == 1 && |m.outDir| == 1 && |m.projectName| == 1
      && |m.targetName| <= 1 && |m.targetExt| <= 1
      && |m.projectGuid| == 1 && Braced(Strip(m.projectGuid[0]))
    ensures r.Ok? ==>
      && r.value.clIncludes == FwdSlashesAll(m.clIncludes)
      && r.value.clCompiles == FwdSlashesAll(m.clCompiles)
      && r.value.searchPaths == FwdSlashesAll(DropVariables(RawSearchPaths(m).value))
      && r.value.intDir == FwdSlashes(Strip(m.intDir[0]))
      && r.value.outDir == FwdSlashes(Strip(m.outDir[0]))
      && r.value.projectName == Strip(m.projectName[0])
      && r.value.targetName == (if |m.targetName| == 1 then Some(Strip(m.targetName[0])) else None)
      && r.value.targetExt == (if |m.targetExt| == 1 then Some(Strip(m.targetExt[0])) else None)
      && "{" + r.value.uuid + "}" == Strip(m.projectGuid[0])
    ensures r.Err? && r.error != Format ==> r.error == Cardinality
    ensures r == Err(Format) <==>
      && |m.clIncludes| > 0 && |m.clCompiles| > 0
      && |m.searchPaths| <= 1 && |m.intDir| == 1 && |m.outDir| == 1 && |m.projectName| == 1
      && |m.targetName| <= 1 && |m.targetExt| <= 1
      && |m.projectGuid| == 1 && !Braced(Strip(m.projectGuid[0]))
    ensures r.Ok? ==>
      && (forall k :: 0 <= k < |r.value.clIncludes| ==> '\\' !in r.value.clIncludes[k])
      && (forall k :: 0 <= k < |r.value.clCompiles| ==> '\\' !in r.value.clCompiles[k])
      && (forall k :: 0 <= k < |r.value.searchPaths| ==> '\\' !in r.value.searchPaths[k])
      && '\\' !in r.value.intDir && '\\' !in r.value.outDir
  {
    var searchPaths :- RawSearchPaths(m);
    var kept := DropVariables(searchPaths);
    var clIncludes :- ClIncludes(m);
    var clCompiles :- ClCompiles(m);
    var intDir :- IntDir(m);
    var outDir :- OutDir(m);
    var projectName :- ProjectName(m);
    var targetName :- TargetName(m);
    var targetExt :- TargetExt(m);
    var uuid :- Uuid(m);
    Ok(RawProject(FwdSlashesAll(clIncludes), FwdSlashesAll(clCompiles), FwdSlashesAll(kept),
                  FwdSlashes(intDir), FwdSlashes(outDir), projectName, targetName, targetExt, uuid))
  }

  const TlogSuffix: string := ".tlog"

  function Min(a: nat, b: nat): nat {
    if a <= b then a else b
  }

  const DotByte: Byte := '.' as int

  /** The tool-log base name, measured and cut in UTF-8 bytes as the source's
      std::string size and substr are: the project name when it has at most 16
      bytes, otherwise its first 8 bytes, a dot and the first 8 bytes of the
      UUID (fewer if the UUID is shorter); then ".tlog". A cut can fall inside
      a multi-byte character. */
  function TlogName(p: RawProject): (r: seq<Byte>)
    ensures var n, u := Utf8(p.projectName), Utf8(p.uuid);
      && |r| == 5 + (if |n| <= 16 then |n| else 9 + Min(8, |u|))
      && r[|r| - 5..] == Utf8(TlogSuffix)
      && (|n| <= 16 ==> r[..|r| - 5] == n)
      && (|n| > 16 ==> r[..8] == n[..8] && r[8] == DotByte && r[9..|r| - 5] == u[..Min(8, |u|)])
    ensures |r| <= 22
  {
    var n, u := Utf8(p.projectName), Utf8(p.uuid);
    var res := if |n| <= 16 then n else n[..8] + [DotByte] + u[..Min(8, |u|)];
    Utf8Ascii(TlogSuffix);
    var r := res + Utf8(TlogSuffix);
    assert r[..|r| - 5] == res;
    assert r[|r| - 5..] == Utf8(TlogSuffix);
    r
  }

  /** Two projects get the same tool-log name only if their names agree (short
      names) or agree in the first 8 bytes and their UUIDs agree in the first
      8 bytes (long names). */
  lemma TlogNameDistinguishes(p: RawProject, q: RawProject)
    requires TlogName(p) == TlogName(q)
    requires (|Utf8(p.projectName)| <= 16) == (|Utf8(q.projectName)| <= 16)
    ensures |Utf8(p.projectName)| <= 16 ==> p.projectName == q.projectName
    ensures |Utf8(p.projectName)| > 16 ==>
      && Utf8(p.projectName)[..8] == Utf8(q.projectName)[..8]
      && Utf8(p.uuid)[..Min(8, |Utf8(p.uuid)|)] == Utf8(q.uuid)[..Min(8, |Utf8(q.uuid)|)]
  {
    if |Utf8(p.projectName)| <= 16 {
      Utf8Injective(p.projectName, q.projectName);
    }
  }

  /** The prefix of an ASCII text's bytes is the bytes of its prefix. */
  lemma Utf8AsciiPrefix(s: string, k: nat)
    requires AllAscii(s) && k <= |s|
    ensures Utf8(s[..k]) == Utf8(s)[..k]
  {
    Utf8Ascii(s);
    Utf8Ascii(s[..k]);
  }

  /** For ASCII names and UUIDs bytes and characters coincide: the tool-log
      name is the text of the name (whole, or its first 8 characters, a dot
      and up to 8 characters of the UUID) followed by ".tlog". */
  lemma TlogNameAscii(p: RawProject)
    requires AllAscii(p.projectName) && AllAscii(p.uuid)
    ensures |p.projectName| <= 16 ==> TlogName(p) == Utf8(p.projectName + TlogSuffix)
    ensures |p.projectName| > 16 ==>
      TlogName(p) == Utf8(p.projectName[..8] + "." + p.uuid[..Min(8, |p.uuid|)] + TlogSuffix)
  {
    var name, uuid := p.projectName, p.uuid;
    Utf8Ascii(name);
    Utf8Ascii(uuid);
    var r := TlogName(p);
    if |name| <= 16 {
      Utf8Append(name, TlogSuffix);
      assert r == r[..|r| - 5] + r[|r| - 5..];
    } else {
      var m := Min(8, |uuid|);
      Utf8AsciiPrefix(name, 8);
      Utf8AsciiPrefix(uuid, m);
      Utf8Append(name[..8], ".");
      Utf8Append(name[..8] + ".", uuid[..m]);
      Utf8Append(name[..8] + "." + uuid[..m], TlogSuffix);
      assert Utf8(".") == [DotByte];
      assert r == r[..8] + [r[8]] + r[9..|r| - 5] + r[|r| - 5..];
    }
  }

  lemma TlogNameOfText(p: RawProject, t: string)
    requires AllAscii(p.projectName) && AllAscii(p.uuid)
    requires |p.projectName| <= 16 ==> t == p.projectName + TlogSuffix
    requires |p.projectName| > 16 ==> t == p.projectName[..8] + "." + p.uuid[..Min(8, |p.uuid|)] + TlogSuffix
    ensures TlogName(p) == Utf8(t)
  {
    TlogNameAscii(p);
  }

  /** A 24-character project name with UUID "ABCDEFGH-1234" gives "VeryLong.ABCDEFGH.tlog". */
  lemma TlogNameExample()
    ensures TlogName(RawProject([], [], [], "", "", "VeryLongProjectName12345", None, None, "ABCDEFGH-1234"))
      == Utf8("VeryLong.ABCDEFGH.tlog")
  {
    var p := RawProject([], [], [], "", "", "VeryLongProjectName12345", None, None, "ABCDEFGH-1234");
    assert AllAscii(p.projectName) && AllAscii(p.uuid);
    assert p.projectName[..8] + "." + p.uuid[..8] + TlogSuffix == "VeryLong.ABCDEFGH.tlog";
    TlogNameOfText(p, "VeryLong.ABCDEFGH.tlog");
  }

  /** "App" is short enough to be used whole: "App.tlog". */
  lemma TlogNameShortExample()
    ensures TlogName(RawProject([], [], [], "", "", "App", None, None, "ABCDEFGH-1234")) == Utf8("App.tlog")
  {
    var p := RawProject([], [], [], "", "", "App", None, None, "ABCDEFGH-1234");
    assert AllAscii(p.projectName) && AllAscii(p.uuid);
    TlogNameOfText(p, "App.tlog");
  }

  /** A long name whose first characters a fill exactly 8 bytes: the tool-log
      name keeps a, however few characters that is. */
  lemma TlogNameLongPrefix(p: RawProject, a: string, b: string)
    requires p.projectName == a + b && |Utf8(a)| == 8 && |Utf8(p.projectName)| > 16
    requires AllAscii(p.uuid) && |p.uuid| >= 8
    ensures TlogName(p) == Utf8(a + "." + p.uuid[..8] + TlogSuffix)
  {
    Utf8Append(a, b);
    Utf8AsciiPrefix(p.uuid, 8);
    Utf8Append(a, ".");
    Utf8Append(a + ".", p.uuid[..8]);
    Utf8Append(a + "." + p.uuid[..8], TlogSuffix);
    assert Utf8(".") == [DotByte];
    var r := TlogName(p);
    assert r == r[..8] + [r[8]] + r[9..|r| - 5] + r[|r| - 5..];
  }

  /** n copies of c. */
  function Repeat(c: char, n: nat): (s: string)
    ensures |s| == n && forall k :: 0 <= k < n ==> s[k] == c
  {
    seq(n, _ => c)
  }

  /** n copies of a character take n times its width in bytes, its encoding
      repeated. */
  lemma {:induction false} Utf8Repeat(c: char, n: nat)
    ensures |Utf8(Repeat(c, n))| == n * |Utf8Char(c)|
    ensures n > 0 ==> Utf8(Repeat(c, n)) == Utf8Char(c) + Utf8(Repeat(c, n - 1))
    decreases n
  {
    if n > 0 {
      var s, w := Repeat(c, n), |Utf8Char(c)|;
      assert s[0] == c && s[1..] == Repeat(c, n - 1);
      Utf8Repeat(c, n - 1);
      assert |Utf8(s)| == w + (n - 1) * w;
      assert w + (n - 1) * w == n * w;
    }
  }

  /** Ten two-byte characters are 20 bytes, more than 16, so the name is cut
      after its first 8 bytes, which are four characters. */
  lemma TlogNameTwoByteName(p: RawProject, c: char)
    requires p.projectName == Repeat(c, 10) && |Utf8Char(c)| == 2
    requires AllAscii(p.uuid) && |p.uuid| >= 8
    ensures TlogName(p) == Utf8(Repeat(c, 4) + "." + p.uuid[..8] + TlogSuffix)
  {
    assert Repeat(c, 10) == Repeat(c, 4) + Repeat(c, 6);
    Utf8Repeat(c, 4);
    Utf8Repeat(c, 10);
    TlogNameLongPrefix(p, Repeat(c, 4), Repeat(c, 6));
  }

  /** Ten characters 'Ä' (U+00C4) give the tool-log name "ÄÄÄÄ.ABCDEFGH.tlog". */
  lemma TlogNameMultiByteExample()
    ensures TlogName(RawProject([], [], [], "", "", Repeat('Ä', 10), None, None, "ABCDEFGH-1234"))
      == Utf8(Repeat('Ä', 4) + "." + "ABCDEFGH" + TlogSuffix)
  {
    var uuid := "ABCDEFGH-1234";
    assert |Utf8Char('Ä')| == 2;
    assert AllAscii(uuid);
    assert uuid[..8] == "ABCDEFGH";
    TlogNameTwoByteName(RawProject([], [], [], "", "", Repeat('Ä', 10), None, None, uuid), 'Ä');
  }

  /** Six three-byte characters are 18 bytes; the 8-byte cut ends one byte
      into the third character, so a lead byte announcing three bytes is
      followed by one continuation byte and then the '.': the tool-log name
      is not valid UTF-8. */
  lemma TlogNameSplitsCharacter(p: RawProject, c: char)
    requires p.projectName == Repeat(c, 6) && |Utf8Char(c)| == 3
    ensures var r := TlogName(p); |r| > 8 && 0xE0 <= r[6] < 0xF0 && 0x80 <= r[7] < 0xC0 && r[8] == DotByte
  {
    var e := Utf8Char(c);
    Utf8Repeat(c, 6);
    Utf8Repeat(c, 5);
    Utf8Repeat(c, 4);
    Utf8Repeat(c, 3);
    assert Utf8(Repeat(c, 6)) == e + e + Utf8(Repeat(c, 4));
    assert Utf8(Repeat(c, 6))[6] == e[0] && Utf8(Repeat(c, 6))[7] == e[1];
  }

  /** For instance six characters '€' (U+20AC). */
  lemma TlogNameSplitsEuro()
    ensures var r := TlogName(RawProject([], [], [], "", "", Repeat('€', 6), None, None, "ABCDEFGH-1234"));
      |r| > 8 && 0xE0 <= r[6] < 0xF0 && 0x80 <= r[7] < 0xC0 && r[8] == DotByte
  {
    assert |Utf8Char('€')| == 3;
    TlogNameSplitsCharacter(RawProject([], [], [], "", "", Repeat('€', 6), None, None, "ABCDEFGH-1234"), '€');
  }

  lemma {:induction false} StripNonEmptyOfStripped(pieces: seq<string>)
    requires forall k :: 0 <= k < |pieces| ==> |pieces[k]| > 0 && IsStripped(pieces[k])
    ensures StripNonEmpty(pieces) == pieces
    decreases |pieces|
  {
    if |pieces| > 0 {
      StripOfStripped(pieces[0]);
      StripNonEmptyOfStripped(pieces[1..]);
      HeadTail(pieces);
    }
  }

  /** A two-entry search-path field "a;b" whose second entry uses a build
      variable reads as the first entry alone, with forward slashes. */
  lemma {:induction false} DropsVariableEntry(a: string, b: string)
    requires ';' !in a && ';' !in b
    requires |a| > 0 && IsStripped(a) && |b| > 0 && IsStripped(b)
    requires !IsVariable(a) && IsVariable(b)
    ensures FwdSlashesAll(DropVariables(SplitStrip(a + [';'] + b, ';'))) == [FwdSlashes(a)]
  {
    assert Join([a, b], ';') == a + [';'] + Join([b], ';');
    SplitJoin([a, b], ';');
    StripNonEmptyOfStripped([a, b]);
    assert [a, b][1..] == [b];
    assert [b][1..] == [];
    assert DropVariables([a, b]) == [a];
  }

  lemma VariableExamples()
    ensures IsVariable("%(AdditionalIncludeDirectories)")
    ensures !IsVariable("..\\inc")
  {
    var a, b := "..\\inc", "%(AdditionalIncludeDirectories)";
    assert OccursAt(b, VariableMarker, 0);
    forall i: nat ensures !OccursAt(a, VariableMarker, i) {
      if i + 2 <= |a| {
        assert a[i] != '%';
        assert a[i..i + 2][0] == a[i];
      }
    }
  }
}
