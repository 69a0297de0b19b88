/** The reference reconciler: deciding whether a literal path stored in a
    project document denotes a given source file, and adding and removing
    ClCompile references on that basis.

    A document is the Project element's children (groups such as ItemGroup),
    each holding an ordered list of child nodes; a node has a name and an
    optional Include attribute. Document order is group by group, node by
    node. The project directory is given as a normal absolute path and the
    working directory as an absolute path; saving the document is an outcome
    flag. */
module AddRemove {
  import opened Wrappers
  import opened Errors
  import opened StringUtil
  import opened Paths

  datatype Node = Node(name: string, includeAttr: Option<string>)
  datatype Group = Group(name: string, nodes: seq<Node>)
  datatype Doc = Doc(groups: seq<Group>)

  /** The position of a node: its group and its index within that group. */
  datatype Loc = Loc(group: nat, index: nat)

  /** Where relative paths are anchored: the directory holding the project
      file, and the working directory against which a relative source path is
      made absolute. */
  datatype Env = Env(prjDir: Path, cwd: Path)

  predicate ValidEnv(env: Env) {
    && env.prjDir.absolute && IsNormal(env.prjDir) && WellFormed(env.prjDir)
    && env.cwd.absolute && WellFormed(env.cwd)
  }

  const ClCompile: string := "ClCompile"
  const ItemGroup: string := "ItemGroup"

  predicate NoBackslash(p: Path) {
    forall k :: 0 <= k < |p.comps| ==> '\\' !in p.comps[k]
  }

  /** A source path whose text survives being stored: well-formed, and no
      component of it or of the working directory holds a backslash, which
      the stored literal could not tell apart from a separator. */
  predicate Storable(env: Env, src: Path) {
    WellFormed(src) && NoBackslash(src) && NoBackslash(env.cwd)
  }

  // ---------------------------------------------------------------------
  // Converting between source paths and project literals

  /** The literal stored in the project for src: its absolute form made
      relative to the project directory, written with backslashes. */
  function ToPrj(env: Env, src: Path): (r: string)
    requires env.cwd.absolute
    ensures '/' !in r
  {
    BackSlashes(Render(Relative(LexicallyAbsolute(env.cwd, src), env.prjDir)))
  }

  /** The absolute path a project literal denotes: read as forward-slash text,
      anchored at the project directory unless absolute, then normalised. */
  function FromPrj(env: Env, lit: string): (r: Path)
    ensures Parse(FwdSlashes(lit)).absolute ==> r == Normal(Parse(FwdSlashes(lit)))
    ensures !Parse(FwdSlashes(lit)).absolute ==>
      r == Normal(Path(env.prjDir.absolute, env.prjDir.comps + Parse(FwdSlashes(lit)).comps))
    ensures env.prjDir.absolute ==> r.absolute
    ensures IsNormal(r)
  {
    Normal(Slash(env.prjDir, Parse(FwdSlashes(lit))))
  }

  /** Would the literal lit, inside the project, reference the source file
      src? Both sides are compared as absolute normal paths, ignoring letter
      case. */
  function MatchSrc(env: Env, src: Path, lit: string): (r: bool)
    requires env.cwd.absolute
    ensures r <==> LowerPath(LexicallyAbsolute(env.cwd, src)) == LowerPath(FromPrj(env, lit))
  {
    PathEquals(LexicallyAbsolute(env.cwd, src), FromPrj(env, lit), No)
  }

  /** The absolute form of a storable source is well-formed and backslash-free. */
  lemma AbsoluteStorable(env: Env, src: Path)
    requires ValidEnv(env) && Storable(env, src)
    ensures var a := LexicallyAbsolute(env.cwd, src); WellFormed(a) && NoBackslash(a)
  {
    var j := Slash(env.cwd, src);
    var a := LexicallyAbsolute(env.cwd, src);
    NormalComponents(j);
    forall k | 0 <= k < |a.comps| ensures IsComponent(a.comps[k]) && '\\' !in a.comps[k] {
      var x := a.comps[k];
      assert x in a.comps;
      if x != Dot {
        var i :| 0 <= i < |j.comps| && j.comps[i] == x;
        if !src.absolute && i < |env.cwd.comps| {
          assert x == env.cwd.comps[i];
        } else if !src.absolute {
          assert x == src.comps[i - |env.cwd.comps|];
        }
      }
    }
  }

  /** Storing a source path and reading the literal back gives the source's
      absolute form, for a source whose components hold no backslash. */
  lemma FromToPrj(env: Env, src: Path)
    requires ValidEnv(env) && Storable(env, src)
    ensures FromPrj(env, ToPrj(env, src)) == LexicallyAbsolute(env.cwd, src)
  {
    var a := LexicallyAbsolute(env.cwd, src);
    AbsoluteStorable(env, src);
    var rel := Relative(a, env.prjDir);
    RelativeWellFormed(a, env.prjDir);
    var text := Render(rel);
    RenderNoBackslash(rel);
    FwdAfterBack(text);
    ParseRender(rel);
    AbsoluteRoundTrip(a, env.prjDir);
  }

  /** A stored source path is recognised as referencing that source. */
  lemma MatchToPrj(env: Env, src: Path)
    requires ValidEnv(env) && Storable(env, src)
    ensures MatchSrc(env, src, ToPrj(env, src))
  {
    FromToPrj(env, src);
    PathEqualsReflexive(LexicallyAbsolute(env.cwd, src), No);
  }

  lemma RelativeWellFormed(p: Path, base: Path)
    requires WellFormed(p) && NoBackslash(p)
    ensures WellFormed(Relative(p, base)) && NoBackslash(Relative(p, base))
  {
    var r := Relative(p, base);
    if p.absolute == base.absolute {
      var k := CommonPrefix(p.comps, base.comps);
      forall j | 0 <= j < |r.comps| ensures IsComponent(r.comps[j]) && '\\' !in r.comps[j] {
        if r.comps != [Dot] {
          var n := |r.comps| - (|p.comps| - k);
          if j >= n {
            assert r.comps[j] == p.comps[k + j - n];
          }
        }
      }
    }
  }

  lemma {:induction false} JoinNoBackslash(cs: seq<string>)
    requires forall k :: 0 <= k < |cs| ==> '\\' !in cs[k]
    ensures '\\' !in Join(cs, '/')
    decreases |cs|
  {
    if |cs| > 1 {
      JoinNoBackslash(cs[1..]);
    }
  }

  lemma RenderNoBackslash(p: Path)
    requires NoBackslash(p)
    ensures '\\' !in Render(p)
  {
    JoinNoBackslash(p.comps);
  }

  /** Matching ignores letter case in the stored literal. */
  lemma MatchIgnoresCase(env: Env, src: Path, lit: string)
    requires env.cwd.absolute
    ensures MatchSrc(env, src, Lower(lit)) == MatchSrc(env, src, lit)
  {
    FromPrjLower(env, lit);
  }

  /** Lower-casing the literal changes what it denotes only in letter case. */
  lemma FromPrjLower(env: Env, lit: string)
    ensures LowerPath(FromPrj(env, Lower(lit))) == LowerPath(FromPrj(env, lit))
  {
    var p := Parse(FwdSlashes(lit));
    FwdSlashesLower(lit);
    ParseLower(FwdSlashes(lit));
    assert Parse(FwdSlashes(Lower(lit))) == LowerPath(p);
    LowerSeqIdempotent(p.comps);
    NormalLower(Slash(env.prjDir, LowerPath(p)));
    NormalLower(Slash(env.prjDir, p));
    SlashLower(env.prjDir, LowerPath(p));
    SlashLower(env.prjDir, p);
  }

  /** Matching ignores the slash direction of the stored literal. */
  lemma MatchIgnoresSlashDirection(env: Env, src: Path, lit: string)
    requires env.cwd.absolute
    ensures MatchSrc(env, src, BackSlashes(lit)) == MatchSrc(env, src, lit)
    ensures MatchSrc(env, src, FwdSlashes(lit)) == MatchSrc(env, src, lit)
  {
    FwdAfterBack(lit);
    FwdSlashesIdempotent(lit);
  }

  /** With the project in /repo/proj, the source file /repo/src/a.cpp is
      stored as "..\src\a.cpp". */
  lemma ToPrjExample()
    ensures ToPrj(Env(Path(true, ["repo", "proj"]), Path(true, ["repo"])), Path(true, ["repo", "src", "a.cpp"]))
      == "..\\src\\a.cpp"
  {
    var cwd, p := Path(true, ["repo"]), Path(true, ["repo", "src", "a.cpp"]);
    assert IsNormal(p);
    LexicallyAbsoluteStable(cwd, p);
    RelativeExample();
    RenderExample();
  }

  /** /repo/src/a.cpp seen from /repo/proj is ../src/a.cpp. */
  lemma RelativeExample()
    ensures Relative(Path(true, ["repo", "src", "a.cpp"]), Path(true, ["repo", "proj"]))
      == Path(false, [DotDot, "src", "a.cpp"])
  {
    var p, base := Path(true, ["repo", "src", "a.cpp"]), Path(true, ["repo", "proj"]);
    assert CommonPrefix(p.comps, base.comps) == 1;
    assert base.comps[1..] == ["proj"];
    assert Climb(["proj"]) == 1;
    assert Ups(1) == [DotDot];
  }

  /** ../src/a.cpp is written as ..\src\a.cpp. */
  lemma RenderExample()
    ensures BackSlashes(Render(Path(false, [DotDot, "src", "a.cpp"]))) == "..\\src\\a.cpp"
  {
    var text := "../src/a.cpp";
    assert Join(["a.cpp"], '/') == "a.cpp";
    assert Join(["src", "a.cpp"], '/') == "src/a.cpp";
    assert Join([DotDot, "src", "a.cpp"], '/') == text;
    assert BackSlashes(text) == "..\\src\\a.cpp";
  }

  /** The same project finds /repo/src/a.cpp behind the literal "..\src\a.cpp". */
  lemma MatchExample()
    ensures MatchSrc(Env(Path(true, ["repo", "proj"]), Path(true, ["repo"])), Path(true, ["repo", "src", "a.cpp"]),
                     "..\\src\\a.cpp")
  {
    var env := Env(Path(true, ["repo", "proj"]), Path(true, ["repo"]));
    var src := Path(true, ["repo", "src", "a.cpp"]);
    assert Storable(env, src);
    assert IsNormal(env.prjDir) && WellFormed(env.prjDir) && WellFormed(env.cwd);
    ToPrjExample();
    MatchToPrj(env, src);
  }

  /** Lower-casing the literal and flipping it to backslashes together
      leave what it references unchanged. */
  lemma MatchIgnoresCaseAndSlashes(env: Env, src: Path, lit: string)
    requires env.cwd.absolute
    ensures MatchSrc(env, src, BackSlashes(Lower(lit))) == MatchSrc(env, src, lit)
  {
    MatchIgnoresSlashDirection(env, src, Lower(lit));
    MatchIgnoresCase(env, src, lit);
  }

  lemma CaseAndSlashText()
    ensures BackSlashes(Lower("A/B")) == "a\\b"
  {
    assert Lower("A/B") == "a/b";
  }

  /** "a\b" and "A/B" are interchangeable as stored literals: whatever one
      references, so does the other. */
  lemma MatchCaseAndSlashExample(env: Env, src: Path)
    requires env.cwd.absolute
    ensures MatchSrc(env, src, "a\\b") == MatchSrc(env, src, "A/B")
  {
    CaseAndSlashText();
    MatchIgnoresCaseAndSlashes(env, src, "A/B");
  }

  // ---------------------------------------------------------------------
  // Finding references

  /** A node references src when it is a ClCompile whose Include matches. */
  predicate IsRef(env: Env, src: Path, n: Node)
    requires env.cwd.absolute
  {
    n.includeAttr.Some? && n.name == ClCompile && MatchSrc(env, src, n.includeAttr.value)
  }

  predicate ValidLoc(doc: Doc, l: Loc) {
    l.group < |doc.groups| && l.index < |doc.groups[l.group].nodes|
  }

  function At(doc: Doc, l: Loc): Node
    requires ValidLoc(doc, l)
  {
    doc.groups[l.group].nodes[l.index]
  }

  /** a comes strictly before b in document order. */
  predicate Before(a: Loc, b: Loc) {
    a.group < b.group || (a.group == b.group && a.index < b.index)
  }

  predicate InOrder(ls: seq<Loc>) {
    forall a, b :: 0 <= a < b < |ls| ==> Before(ls[a], ls[b])
  }

  /** One flag per node: does it reference src? */
  function RefMask(env: Env, src: Path, nodes: seq<Node>): (m: seq<bool>)
    requires env.cwd.absolute
    ensures |m| == |nodes|
    ensures forall k :: 0 <= k < |m| ==> (m[k] <==> IsRef(env, src, nodes[k]))
  {
    seq(|nodes|, k requires 0 <= k < |nodes| => IsRef(env, src, nodes[k]))
  }

  /** The flagged positions of mask at and after i, as locations of group g,
      in order. */
  function Marked(mask: seq<bool>, g: nat, i: nat): (r: seq<Loc>)
    requires i <= |mask|
    ensures forall l :: l in r <==> l.group == g && i <= l.index < |mask| && mask[l.index]
    ensures forall a, b :: 0 <= a < b < |r| ==> r[a].group == g && r[a].index < r[b].index
    decreases |mask| - i
  {
    if i == |mask| then []
    else
      var rest := Marked(mask, g, i + 1);
      if mask[i] then
        ConsLoc(Loc(g, i), rest);
        [Loc(g, i)] + rest
      else rest
  }

  /** The references among nodes[i..] of group g, in order. */
  function FindInGroup(env: Env, src: Path, nodes: seq<Node>, g: nat, i: nat): (r: seq<Loc>)
    requires env.cwd.absolute
    requires i <= |nodes|
    ensures forall l :: l in r <==> l.group == g && i <= l.index < |nodes| && IsRef(env, src, nodes[l.index])
    ensures forall a, b :: 0 <= a < b < |r| ==> r[a].group == g && r[a].index < r[b].index
  {
    Marked(RefMask(env, src, nodes), g, i)
  }

  /** A location of group g put before later locations of the same group,
      in order, keeps them in order. */
  lemma ConsLoc(l0: Loc, rest: seq<Loc>)
    requires forall l :: l in rest ==> l.group == l0.group && l0.index < l.index
    requires forall a, b :: 0 <= a < b < |rest| ==> rest[a].group == l0.group && rest[a].index < rest[b].index
    ensures forall a, b :: 0 <= a < b < |[l0] + rest| ==>
      ([l0] + rest)[a].group == l0.group && ([l0] + rest)[a].index < ([l0] + rest)[b].index
    ensures forall l :: l in [l0] + rest <==> l == l0 || l in rest
  {
    var r := [l0] + rest;
    forall a, b | 0 <= a < b < |r| ensures r[a].group == l0.group && r[a].index < r[b].index {
      assert r[b] == rest[b - 1] && r[b] in rest;
      if a > 0 {
        assert r[a] == rest[a - 1];
      }
    }
  }

  /** The references in groups g.. of doc, in document order. */
  function FindFrom(env: Env, src: Path, doc: Doc, g: nat): (r: seq<Loc>)
    requires env.cwd.absolute
    requires g <= |doc.groups|
    ensures forall l :: l in r <==> g <= l.group && ValidLoc(doc, l) && IsRef(env, src, At(doc, l))
    ensures InOrder(r)
    decreases |doc.groups| - g
  {
    if g == |doc.groups| then []
    else
      var here := FindInGroup(env, src, doc.groups[g].nodes, g, 0);
      var rest := FindFrom(env, src, doc, g + 1);
      var r := here + rest;
      InOrderAppend(here, rest, g);
      forall l ensures l in r <==> g <= l.group && ValidLoc(doc, l) && IsRef(env, src, At(doc, l)) {
        if l.group == g {
          assert l !in rest;
        } else {
          assert l !in here;
        }
      }
      r
  }

  /** The locations of group g, in order, followed by locations in ordered
      later groups are in order. */
  lemma InOrderAppend(here: seq<Loc>, rest: seq<Loc>, g: nat)
    requires forall a, b :: 0 <= a < b < |here| ==> here[a].group == g && here[a].index < here[b].index
    requires forall l :: l in here ==> l.group == g
    requires forall l :: l in rest ==> g < l.group
    requires InOrder(rest)
    ensures InOrder(here + rest)
    ensures forall l :: l in here + rest <==> l in here || l in rest
  {
    var r := here + rest;
    forall a, b | 0 <= a < b < |r| ensures Before(r[a], r[b]) {
      if b < |here| {
        assert r[a] == here[a] && r[b] == here[b];
      } else if a < |here| {
        assert r[a] == here[a] && r[a] in here && r[b] == rest[b - |here|] && r[b] in rest;
      } else {
        assert r[a] == rest[a - |here|] && r[b] == rest[b - |here|];
      }
    }
  }

  /** Every node of doc that references src, in document order: exactly the
      ClCompile nodes with a matching Include, and no other node. */
  function FindSrc(env: Env, src: Path, doc: Doc): (r: seq<Loc>)
    requires env.cwd.absolute
    ensures forall l :: l in r <==> ValidLoc(doc, l) && IsRef(env, src, At(doc, l))
    ensures InOrder(r)
  {
    FindFrom(env, src, doc, 0)
  }

  lemma {:induction false} MarkedNone(mask: seq<bool>, g: nat, i: nat)
    requires i <= |mask|
    requires forall k :: i <= k < |mask| ==> !mask[k]
    ensures Marked(mask, g, i) == []
    decreases |mask| - i
  {
    if i < |mask| {
      MarkedNone(mask, g, i + 1);
    }
  }

  lemma FindInGroupNone(env: Env, src: Path, nodes: seq<Node>, g: nat, i: nat)
    requires env.cwd.absolute
    requires i <= |nodes|
    requires forall k :: i <= k < |nodes| ==> !IsRef(env, src, nodes[k])
    ensures FindInGroup(env, src, nodes, g, i) == []
  {
    MarkedNone(RefMask(env, src, nodes), g, i);
  }

  /** Nothing is found in groups without a referencing node. */
  lemma {:induction false} FindFromNone(env: Env, src: Path, doc: Doc, g: nat)
    requires env.cwd.absolute
    requires g <= |doc.groups|
    requires forall j, k :: g <= j < |doc.groups| && 0 <= k < |doc.groups[j].nodes| ==>
      !IsRef(env, src, doc.groups[j].nodes[k])
    ensures FindFrom(env, src, doc, g) == []
    decreases |doc.groups| - g
  {
    if g < |doc.groups| {
      FindInGroupNone(env, src, doc.groups[g].nodes, g, 0);
      FindFromNone(env, src, doc, g + 1);
    }
  }

  /** Appending one referencing node to nodes that hold none: the search
      finds exactly the appended node. */
  lemma FindInGroupLast(env: Env, src: Path, nodes: seq<Node>, n: Node, g: nat, i: nat)
    requires env.cwd.absolute
    requires i <= |nodes|
    requires forall k :: i <= k < |nodes| ==> !IsRef(env, src, nodes[k])
    requires IsRef(env, src, n)
    ensures FindInGroup(env, src, nodes + [n], g, i) == [Loc(g, |nodes|)]
  {
    var all := nodes + [n];
    var r := FindInGroup(env, src, all, g, i);
    var l0 := Loc(g, |nodes|);
    assert all[|nodes|] == n;
    assert l0 in r;
    assert forall l :: l in r ==> l == l0;
    assert r[0] in r && r[|r| - 1] in r;
    assert |r| == 1 && r[0] == l0;
  }

  /** When group g0 is the only one from j on that may hold references, the
      search from j finds exactly what group g0 holds. */
  lemma {:induction false} FindFromOne(env: Env, src: Path, doc: Doc, g0: nat, j: nat)
    requires env.cwd.absolute
    requires j <= g0 < |doc.groups|
    requires forall h, k :: j <= h < |doc.groups| && h != g0 && 0 <= k < |doc.groups[h].nodes| ==>
      !IsRef(env, src, doc.groups[h].nodes[k])
    ensures FindFrom(env, src, doc, j) == FindInGroup(env, src, doc.groups[g0].nodes, g0, 0)
    decreases g0 - j
  {
    var here := FindInGroup(env, src, doc.groups[j].nodes, j, 0);
    assert FindFrom(env, src, doc, j) == here + FindFrom(env, src, doc, j + 1);
    if j == g0 {
      FindFromNone(env, src, doc, g0 + 1);
      AppendEmpty(here);
    } else {
      FindInGroupNone(env, src, doc.groups[j].nodes, j, 0);
      FindFromOne(env, src, doc, g0, j + 1);
      assert [] + FindFrom(env, src, doc, j + 1) == FindFrom(env, src, doc, j + 1);
    }
  }

  // ---------------------------------------------------------------------
  // Adding a reference

  predicate HasCompile(gr: Group) {
    exists k :: 0 <= k < |gr.nodes| && gr.nodes[k].name == ClCompile
  }

  /** An ItemGroup that already holds a ClCompile. */
  predicate IsCompileGroup(gr: Group) {
    gr.name == ItemGroup && HasCompile(gr)
  }

  /** The first compile group at or after g, if any. */
  function FirstCompileGroup(doc: Doc, g: nat): (r: Option<nat>)
    requires g <= |doc.groups|
    ensures r.Some? ==> g <= r.value < |doc.groups| && IsCompileGroup(doc.groups[r.value])
    ensures r.Some? ==> forall j :: g <= j < r.value ==> !IsCompileGroup(doc.groups[j])
    ensures r.None? ==> forall j :: g <= j < |doc.groups| ==> !IsCompileGroup(doc.groups[j])
    decreases |doc.groups| - g
  {
    if g == |doc.groups| then None
    else if IsCompileGroup(doc.groups[g]) then Some(g)
    else FirstCompileGroup(doc, g + 1)
  }

  function NewRef(lit: string): Node {
    Node(ClCompile, Some(lit))
  }

  /** Appends a ClCompile with Include lit to the first compile group, or,
      when there is none, to a new ItemGroup appended under the Project
      element. Nothing else changes. */
  function Insert(doc: Doc, lit: string): (r: Doc)
    ensures FirstCompileGroup(doc, 0).Some? ==>
      var g := FirstCompileGroup(doc, 0).value;
      && |r.groups| == |doc.groups|
      && r.groups[g] == Group(ItemGroup, doc.groups[g].nodes + [NewRef(lit)])
      && (forall j :: 0 <= j < |doc.groups| && j != g ==> r.groups[j] == doc.groups[j])
    ensures FirstCompileGroup(doc, 0).None? ==>
      r.groups == doc.groups + [Group(ItemGroup, [NewRef(lit)])]
  {
    match FirstCompileGroup(doc, 0)
    case Some(g) =>
      Doc(doc.groups[g := Group(ItemGroup, doc.groups[g].nodes + [NewRef(lit)])])
    case None =>
      Doc(doc.groups + [Group(ItemGroup, [NewRef(lit)])])
  }

  /** The location Insert puts the new node at. */
  function InsertedAt(doc: Doc): (l: Loc)
    ensures forall lit :: ValidLoc(Insert(doc, lit), l) && At(Insert(doc, lit), l) == NewRef(lit)
  {
    match FirstCompileGroup(doc, 0)
    case Some(g) => Loc(g, |doc.groups[g].nodes|)
    case None => Loc(|doc.groups|, 0)
  }

  /** Every node of the inserted document other than the new one sits at the
      same location in the original; the new one is at InsertedAt. */
  lemma InsertNodes(doc: Doc, lit: string, l: Loc)
    requires ValidLoc(Insert(doc, lit), l)
    ensures l != InsertedAt(doc) ==> ValidLoc(doc, l) && At(Insert(doc, lit), l) == At(doc, l)
  {
  }

  lemma InsertKeepsNodes(doc: Doc, lit: string, l: Loc)
    requires ValidLoc(doc, l)
    ensures ValidLoc(Insert(doc, lit), l) && At(Insert(doc, lit), l) == At(doc, l)
    ensures l != InsertedAt(doc)
  {
  }

  /** add_2_vcxproj on the document: fails with DuplicateReference when src
      is already referenced, otherwise inserts the stored literal of src;
      a failed save fails with Persist. */
  function AddToVcxproj(env: Env, src: Path, doc: Doc, saved: bool): (r: Result<Doc, Error>)
    requires env.cwd.absolute
    ensures r == Err(DuplicateReference) <==> FindSrc(env, src, doc) != []
    ensures r == Err(Persist) <==> FindSrc(env, src, doc) == [] && !saved
    ensures r.Ok? <==> FindSrc(env, src, doc) == [] && saved
    ensures r.Ok? ==> r.value == Insert(doc, ToPrj(env, src))
  {
    if FindSrc(env, src, doc) != [] then Err(DuplicateReference)
    else
      var updated := Insert(doc, ToPrj(env, src));
      if !saved then Err(Persist) else Ok(updated)
  }

  /** A document in which src is not referenced has no referencing node. */
  lemma NoRefs(env: Env, src: Path, doc: Doc)
    requires env.cwd.absolute
    requires FindSrc(env, src, doc) == []
    ensures forall g, k :: 0 <= g < |doc.groups| && 0 <= k < |doc.groups[g].nodes| ==>
      !IsRef(env, src, doc.groups[g].nodes[k])
  {
    forall g, k | 0 <= g < |doc.groups| && 0 <= k < |doc.groups[g].nodes|
      ensures !IsRef(env, src, doc.groups[g].nodes[k])
    {
      assert Loc(g, k) !in FindSrc(env, src, doc);
    }
  }

  /** Inserting a referencing node into a document without references: the
      search finds exactly the inserted node. */
  lemma InsertFinds(env: Env, src: Path, doc: Doc, lit: string)
    requires env.cwd.absolute
    requires FindSrc(env, src, doc) == []
    requires IsRef(env, src, NewRef(lit))
    ensures FindSrc(env, src, Insert(doc, lit)) == [InsertedAt(doc)]
  {
    NoRefs(env, src, doc);
    if FirstCompileGroup(doc, 0).Some? {
      InsertFindsExisting(env, src, doc, lit);
    } else {
      InsertFindsNew(env, src, doc, lit);
    }
  }

  lemma InsertFindsExisting(env: Env, src: Path, doc: Doc, lit: string)
    requires env.cwd.absolute
    requires forall g, k :: 0 <= g < |doc.groups| && 0 <= k < |doc.groups[g].nodes| ==>
      !IsRef(env, src, doc.groups[g].nodes[k])
    requires IsRef(env, src, NewRef(lit))
    requires FirstCompileGroup(doc, 0).Some?
    ensures FindSrc(env, src, Insert(doc, lit)) == [InsertedAt(doc)]
  {
    var g := FirstCompileGroup(doc, 0).value;
    var d := Insert(doc, lit);
    FindInGroupLast(env, src, doc.groups[g].nodes, NewRef(lit), g, 0);
    FindFromOne(env, src, d, g, 0);
  }

  lemma InsertFindsNew(env: Env, src: Path, doc: Doc, lit: string)
    requires env.cwd.absolute
    requires forall g, k :: 0 <= g < |doc.groups| && 0 <= k < |doc.groups[g].nodes| ==>
      !IsRef(env, src, doc.groups[g].nodes[k])
    requires IsRef(env, src, NewRef(lit))
    requires FirstCompileGroup(doc, 0).None?
    ensures FindSrc(env, src, Insert(doc, lit)) == [InsertedAt(doc)]
  {
    var d := Insert(doc, lit);
    FindInGroupLast(env, src, [], NewRef(lit), |doc.groups|, 0);
    EmptyAppend([NewRef(lit)]);
    FindFromOne(env, src, d, |doc.groups|, 0);
  }

  /** After a successful add, src is referenced by exactly the new node. */
  lemma AddThenFind(env: Env, src: Path, doc: Doc, saved: bool)
    requires ValidEnv(env) && Storable(env, src)
    requires AddToVcxproj(env, src, doc, saved).Ok?
    ensures FindSrc(env, src, AddToVcxproj(env, src, doc, saved).value) == [InsertedAt(doc)]
  {
    MatchToPrj(env, src);
    InsertFinds(env, src, doc, ToPrj(env, src));
  }

  /** Adding the same source twice fails the second time. */
  lemma AddTwiceFails(env: Env, src: Path, doc: Doc, saved: bool, saved2: bool)
    requires ValidEnv(env) && Storable(env, src)
    requires AddToVcxproj(env, src, doc, saved).Ok?
    ensures AddToVcxproj(env, src, AddToVcxproj(env, src, doc, saved).value, saved2) == Err(DuplicateReference)
  {
    AddThenFind(env, src, doc, saved);
  }

  lemma FindInGroupSame(env: Env, s1: Path, s2: Path, nodes: seq<Node>, g: nat, i: nat)
    requires env.cwd.absolute && i <= |nodes|
    requires LexicallyAbsolute(env.cwd, s1) == LexicallyAbsolute(env.cwd, s2)
    ensures FindInGroup(env, s1, nodes, g, i) == FindInGroup(env, s2, nodes, g, i)
  {
    var m1, m2 := RefMask(env, s1, nodes), RefMask(env, s2, nodes);
    forall k | 0 <= k < |nodes| ensures m1[k] == m2[k] {
      assert IsRef(env, s1, nodes[k]) == IsRef(env, s2, nodes[k]);
    }
    EqualByIndex(m1, m2);
  }

  lemma {:induction false} FindFromSame(env: Env, s1: Path, s2: Path, doc: Doc, g: nat)
    requires env.cwd.absolute && g <= |doc.groups|
    requires LexicallyAbsolute(env.cwd, s1) == LexicallyAbsolute(env.cwd, s2)
    ensures FindFrom(env, s1, doc, g) == FindFrom(env, s2, doc, g)
    decreases |doc.groups| - g
  {
    if g < |doc.groups| {
      FindInGroupSame(env, s1, s2, doc.groups[g].nodes, g, 0);
      FindFromSame(env, s1, s2, doc, g + 1);
    }
  }

  /** Two spellings of a source with the same absolute form, such as
      "./a.cpp" and "a.cpp", find the same references. */
  lemma FindSrcSame(env: Env, s1: Path, s2: Path, doc: Doc)
    requires env.cwd.absolute
    requires LexicallyAbsolute(env.cwd, s1) == LexicallyAbsolute(env.cwd, s2)
    ensures FindSrc(env, s1, doc) == FindSrc(env, s2, doc)
  {
    FindFromSame(env, s1, s2, doc, 0);
  }

  /** After "./" + cs is added, adding cs is a duplicate. */
  lemma AddDotThenPlainFails(env: Env, cs: seq<string>, doc: Doc, saved: bool, saved2: bool)
    requires ValidEnv(env) && Storable(env, Path(false, [Dot] + cs))
    requires AddToVcxproj(env, Path(false, [Dot] + cs), doc, saved).Ok?
    ensures AddToVcxproj(env, Path(false, cs), AddToVcxproj(env, Path(false, [Dot] + cs), doc, saved).value, saved2)
      == Err(DuplicateReference)
  {
    var dotted := Path(false, [Dot] + cs);
    AddThenFind(env, dotted, doc, saved);
    LexicallyAbsoluteDot(env.cwd, cs);
    FindSrcSame(env, dotted, Path(false, cs), AddToVcxproj(env, dotted, doc, saved).value);
  }

  /** add_2_project: adds to the project document, then to the filters
      document, where adding does nothing, so the filters document comes
      back as it was. */
  function AddToProject(env: Env, src: Path, prj: Doc, filters: Doc, saved: bool): (r: Result<(Doc, Doc), Error>)
    requires env.cwd.absolute
    ensures r.Ok? <==> AddToVcxproj(env, src, prj, saved).Ok?
    ensures r.Ok? ==> r.value == (AddToVcxproj(env, src, prj, saved).value, filters)
    ensures r.Err? ==> r.error == AddToVcxproj(env, src, prj, saved).error
  {
    var updated :- AddToVcxproj(env, src, prj, saved);
    Ok((updated, filters))
  }

  // ---------------------------------------------------------------------
  // Removing references

  /** The nodes that do not reference src, in their original order. */
  function KeepNodes(env: Env, src: Path, nodes: seq<Node>): (r: seq<Node>)
    requires env.cwd.absolute
    ensures forall n :: n in r <==> n in nodes && !IsRef(env, src, n)
    ensures |r| <= |nodes|
  {
    if |nodes| == 0 then []
    else
      var rest := KeepNodes(env, src, nodes[1..]);
      assert forall n :: n in nodes <==> n == nodes[0] || n in nodes[1..];
      if IsRef(env, src, nodes[0]) then rest else [nodes[0]] + rest
  }

  /** Removal works node by node, so the kept nodes stay in order. */
  lemma {:induction false} KeepNodesAppend(env: Env, src: Path, a: seq<Node>, b: seq<Node>)
    requires env.cwd.absolute
    ensures KeepNodes(env, src, a + b) == KeepNodes(env, src, a) + KeepNodes(env, src, b)
    decreases |a|
  {
    if |a| == 0 {
      assert a + b == b;
    } else {
      TailOfAppend(a, b);
      KeepNodesAppend(env, src, a[1..], b);
      if !IsRef(env, src, a[0]) {
        AppendAssoc([a[0]], KeepNodes(env, src, a[1..]), KeepNodes(env, src, b));
      }
    }
  }

  /** Nodes none of which references src are all kept. */
  lemma {:induction false} KeepNodesNone(env: Env, src: Path, nodes: seq<Node>)
    requires env.cwd.absolute
    requires forall k :: 0 <= k < |nodes| ==> !IsRef(env, src, nodes[k])
    ensures KeepNodes(env, src, nodes) == nodes
    decreases |nodes|
  {
    if |nodes| > 0 {
      KeepNodesNone(env, src, nodes[1..]);
    }
  }

  /** Every group with its referencing nodes detached. */
  function RemoveRefs(env: Env, src: Path, doc: Doc): (r: Doc)
    requires env.cwd.absolute
    ensures |r.groups| == |doc.groups|
    ensures forall g :: 0 <= g < |doc.groups| ==>
      r.groups[g] == Group(doc.groups[g].name, KeepNodes(env, src, doc.groups[g].nodes))
  {
    Doc(seq(|doc.groups|, g requires 0 <= g < |doc.groups| =>
      Group(doc.groups[g].name, KeepNodes(env, src, doc.groups[g].nodes))))
  }

  /** After removal nothing references src. */
  lemma RemoveRefsLeavesNone(env: Env, src: Path, doc: Doc)
    requires env.cwd.absolute
    ensures FindSrc(env, src, RemoveRefs(env, src, doc)) == []
  {
    var d := RemoveRefs(env, src, doc);
    var found := FindSrc(env, src, d);
    forall g, k | 0 <= g < |d.groups| && 0 <= k < |d.groups[g].nodes|
      ensures !IsRef(env, src, d.groups[g].nodes[k])
    {
      assert d.groups[g].nodes[k] in KeepNodes(env, src, doc.groups[g].nodes);
    }
    FindFromNone(env, src, d, 0);
  }

  /** rm_from on the document: fails with NotFound when nothing references
      src, otherwise detaches every referencing node; a failed save fails
      with Persist. */
  function RmFrom(env: Env, src: Path, doc: Doc, saved: bool): (r: Result<Doc, Error>)
    requires env.cwd.absolute
    ensures r == Err(NotFound) <==> FindSrc(env, src, doc) == []
    ensures r == Err(Persist) <==> FindSrc(env, src, doc) != [] && !saved
    ensures r.Ok? <==> FindSrc(env, src, doc) != [] && saved
    ensures r.Ok? ==> r.value == RemoveRefs(env, src, doc) && FindSrc(env, src, r.value) == []
  {
    if FindSrc(env, src, doc) == [] then Err(NotFound)
    else
      var updated := RemoveRefs(env, src, doc);
      RemoveRefsLeavesNone(env, src, doc);
      if !saved then Err(Persist) else Ok(updated)
  }

  /** Removal is not idempotent: removing the same source again fails. */
  lemma RemoveTwiceFails(env: Env, src: Path, doc: Doc, saved: bool, saved2: bool)
    requires env.cwd.absolute
    ensures RmFrom(env, src, doc, saved).Ok? ==>
      RmFrom(env, src, RmFrom(env, src, doc, saved).value, saved2) == Err(NotFound)
  {
  }

  /** Removal keeps every group in which nothing references src. */
  lemma RemoveKeepsClean(env: Env, src: Path, doc: Doc)
    requires env.cwd.absolute
    requires FindSrc(env, src, doc) == []
    ensures forall j :: 0 <= j < |doc.groups| ==> KeepNodes(env, src, doc.groups[j].nodes) == doc.groups[j].nodes
  {
    NoRefs(env, src, doc);
    forall j | 0 <= j < |doc.groups| ensures KeepNodes(env, src, doc.groups[j].nodes) == doc.groups[j].nodes {
      KeepNodesNone(env, src, doc.groups[j].nodes);
    }
  }

  /** Removing src from a document that referenced it only through a node
      just inserted into an existing compile group gives back the document. */
  lemma RemoveInsertedExisting(env: Env, src: Path, doc: Doc, lit: string)
    requires env.cwd.absolute
    requires FindSrc(env, src, doc) == []
    requires IsRef(env, src, NewRef(lit))
    requires FirstCompileGroup(doc, 0).Some?
    ensures RemoveRefs(env, src, Insert(doc, lit)) == doc
  {
    RemoveKeepsClean(env, src, doc);
    var g := FirstCompileGroup(doc, 0).value;
    var ins := Insert(doc, lit);
    var removed := RemoveRefs(env, src, ins);
    forall j | 0 <= j < |doc.groups| ensures removed.groups[j] == doc.groups[j] {
      if j == g {
        KeepNodesAppend(env, src, doc.groups[g].nodes, [NewRef(lit)]);
        assert KeepNodes(env, src, [NewRef(lit)]) == [];
        AppendEmpty(doc.groups[g].nodes);
      }
    }
    EqualByIndex(removed.groups, doc.groups);
  }

  /** The same when the node went into a new ItemGroup: that group stays, empty. */
  lemma RemoveInsertedNew(env: Env, src: Path, doc: Doc, lit: string)
    requires env.cwd.absolute
    requires FindSrc(env, src, doc) == []
    requires IsRef(env, src, NewRef(lit))
    requires FirstCompileGroup(doc, 0).None?
    ensures RemoveRefs(env, src, Insert(doc, lit)) == Doc(doc.groups + [Group(ItemGroup, [])])
  {
    RemoveKeepsClean(env, src, doc);
    assert KeepNodes(env, src, [NewRef(lit)]) == [];
    RemoveFromNewGroup(env, src, doc, lit);
  }

  /** The group-by-group step of RemoveInsertedNew. */
  lemma RemoveFromNewGroup(env: Env, src: Path, doc: Doc, lit: string)
    requires env.cwd.absolute
    requires forall j :: 0 <= j < |doc.groups| ==> KeepNodes(env, src, doc.groups[j].nodes) == doc.groups[j].nodes
    requires KeepNodes(env, src, [NewRef(lit)]) == []
    requires FirstCompileGroup(doc, 0).None?
    ensures RemoveRefs(env, src, Insert(doc, lit)) == Doc(doc.groups + [Group(ItemGroup, [])])
  {
    var ins := Insert(doc, lit);
    var removed := RemoveRefs(env, src, ins);
    var want := doc.groups + [Group(ItemGroup, [])];
    forall j | 0 <= j < |want| ensures removed.groups[j] == want[j] {
      if j < |doc.groups| {
        assert ins.groups[j] == doc.groups[j];
      } else {
        assert ins.groups[j] == Group(ItemGroup, [NewRef(lit)]);
      }
    }
    EqualByIndex(removed.groups, want);
  }

  /** Removing a freshly added source restores the document, except that an
      ItemGroup created for the new node stays behind, empty. */
  lemma AddThenRemove(env: Env, src: Path, doc: Doc, saved: bool, saved2: bool)
    requires ValidEnv(env) && Storable(env, src)
    requires AddToVcxproj(env, src, doc, saved).Ok?
    ensures saved2 ==>
      RmFrom(env, src, AddToVcxproj(env, src, doc, saved).value, saved2) ==
        if FirstCompileGroup(doc, 0).Some? then Ok(doc) else Ok(Doc(doc.groups + [Group(ItemGroup, [])]))
  {
    AddThenFind(env, src, doc, saved);
    MatchToPrj(env, src);
    if FirstCompileGroup(doc, 0).Some? {
      RemoveInsertedExisting(env, src, doc, ToPrj(env, src));
    } else {
      RemoveInsertedNew(env, src, doc, ToPrj(env, src));
    }
  }
}
