/** Lexical path algebra: normalisation, relative paths, slash flipping and
    case-aware equality, all without consulting a filesystem.

    A path is an absolute flag (a leading root directory) and its sequence of
    filename components. Normalisation follows the "normal form" of section
    30.10.8.1 [fs.path.generic] of ISO/IEC 14882:2017 and relative paths follow
    lexically_relative of section 30.10.8.4.11 [fs.path.gen] of the same standard. */
module Paths {
  import opened StringUtil

  datatype Path = Path(absolute: bool, comps: seq<string>)

  const Dot: string := "."
  const DotDot: string := ".."

  /** A component that is neither "." nor "..". */
  predicate IsName(c: string) {
    c != Dot && c != DotDot
  }

  predicate AllNames(cs: seq<string>) {
    forall k :: 0 <= k < |cs| ==> IsName(cs[k])
  }

  predicate NoDotDot(cs: seq<string>) {
    forall k :: 0 <= k < |cs| ==> cs[k] != DotDot
  }

  /** The components of a normal path other than the lone ".": no ".", every
      ".." ahead of every name, and no ".." at all below a root directory. */
  predicate Canonical(absolute: bool, cs: seq<string>) {
    && (forall k :: 0 <= k < |cs| ==> cs[k] != Dot)
    && (forall j, k :: 0 <= j < k < |cs| && cs[k] == DotDot ==> cs[j] == DotDot)
    && (absolute ==> NoDotDot(cs))
  }

  /** A path in normal form: the empty path, the lone ".", or canonical components. */
  predicate IsNormal(p: Path) {
    if p.absolute then Canonical(true, p.comps)
    else p.comps == [] || p.comps == [Dot] || Canonical(false, p.comps)
  }

  /** One step of normalisation: the stack of components kept so far meets the
      next component. "." is dropped; ".." cancels a preceding name, is dropped
      at a root directory, and is otherwise kept. */
  function Step(absolute: bool, st: seq<string>, c: string): seq<string>
  {
    if c == Dot then st
    else if c == DotDot then
      if |st| > 0 && st[|st| - 1] != DotDot then st[..|st| - 1]
      else if absolute then st
      else st + [DotDot]
    else st + [c]
  }

  /** Feeds the components cs, in order, through Step starting from the stack st. */
  function NormFrom(absolute: bool, st: seq<string>, cs: seq<string>): seq<string>
    decreases |cs|
  {
    if |cs| == 0 then st else NormFrom(absolute, Step(absolute, st, cs[0]), cs[1..])
  }

  lemma StepCanonical(absolute: bool, st: seq<string>, c: string)
    requires Canonical(absolute, st)
    ensures Canonical(absolute, Step(absolute, st, c))
  {
    if c == DotDot && !(|st| > 0 && st[|st| - 1] != DotDot) && !absolute {
      var r := st + [DotDot];
      assert forall j :: 0 <= j < |st| ==> st[j] == DotDot;
      assert forall j :: 0 <= j < |r| ==> r[j] == DotDot;
    }
  }

  lemma {:induction false} NormFromCanonical(absolute: bool, st: seq<string>, cs: seq<string>)
    requires Canonical(absolute, st)
    ensures Canonical(absolute, NormFrom(absolute, st, cs))
    decreases |cs|
  {
    if |cs| > 0 {
      StepCanonical(absolute, st, cs[0]);
      NormFromCanonical(absolute, Step(absolute, st, cs[0]), cs[1..]);
    }
  }

  /** Normalisation consumes components left to right, so it can be split at any point. */
  lemma {:induction false} NormFromAppend(absolute: bool, st: seq<string>, xs: seq<string>, ys: seq<string>)
    ensures NormFrom(absolute, st, xs + ys) == NormFrom(absolute, NormFrom(absolute, st, xs), ys)
    decreases |xs|
  {
    if |xs| == 0 {
      assert xs + ys == ys;
    } else {
      assert (xs + ys)[0] == xs[0];
      assert (xs + ys)[1..] == xs[1..] + ys;
      NormFromAppend(absolute, Step(absolute, st, xs[0]), xs[1..], ys);
    }
  }

  /** Components that are already canonical pass through normalisation unchanged. */
  lemma {:induction false} NormFromOfCanonical(absolute: bool, st: seq<string>, cs: seq<string>)
    requires Canonical(absolute, st + cs)
    ensures NormFrom(absolute, st, cs) == st + cs
    decreases |cs|
  {
    if |cs| > 0 {
      var all := st + cs;
      assert all[|st|] == cs[0];
      if cs[0] == DotDot {
        assert !absolute;
        assert forall j :: 0 <= j < |st| ==> all[j] == DotDot;
        assert |st| > 0 ==> st[|st| - 1] == all[|st| - 1];
      }
      assert Step(absolute, st, cs[0]) == st + [cs[0]];
      assert st + [cs[0]] + cs[1..] == all;
      NormFromOfCanonical(absolute, st + [cs[0]], cs[1..]);
    }
  }

  /** Lexical normal form of p. It never consults a filesystem, is defined for
      every path, keeps the absolute/relative kind, and its result is normal:
      no "." unless the whole path is ".", no ".." after a name, no ".."
      directly below a root directory. The empty path stays empty. */
  function Normal(p: Path): (r: Path)
    ensures r.absolute == p.absolute
    ensures IsNormal(r)
  {
    if !p.absolute && |p.comps| == 0 then p
    else
      var st := NormFrom(p.absolute, [], p.comps);
      NormFromCanonical(p.absolute, [], p.comps);
      if !p.absolute && |st| == 0 then Path(false, [Dot]) else Path(p.absolute, st)
  }

  /** Normalising an already normal path returns it unchanged. */
  lemma NormalOfNormal(p: Path)
    requires IsNormal(p)
    ensures Normal(p) == p
  {
    if p.absolute || |p.comps| > 0 {
      if p.comps == [Dot] {
        assert NormFrom(p.absolute, [], p.comps) == [];
      } else {
        assert [] + p.comps == p.comps;
        NormFromOfCanonical(p.absolute, [], p.comps);
      }
    }
  }

  /** lexically_normal is idempotent. */
  lemma NormalIdempotent(p: Path)
    ensures Normal(Normal(p)) == Normal(p)
  {
    NormalOfNormal(Normal(p));
  }

  /** The path operator `/`: a relative right operand is appended, an absolute
      one replaces the left operand. */
  function Slash(base: Path, r: Path): (q: Path)
    ensures q.absolute <==> r.absolute || base.absolute
    ensures r.absolute ==> q == r
    ensures !r.absolute ==> q == Path(base.absolute, base.comps + r.comps)
  {
    if r.absolute then r else Path(base.absolute, base.comps + r.comps)
  }

  /** What `/` does to text: a relative operand is written after the left
      operand with one separator between them (none is needed when either
      side has no components), and an absolute operand is written alone. */
  lemma SlashRender(base: Path, r: Path)
    ensures r.absolute ==> Render(Slash(base, r)) == Render(r)
    ensures !r.absolute && base.comps != [] && r.comps != [] ==>
      Render(Slash(base, r)) == Render(base) + "/" + Render(r)
    ensures !r.absolute && r.comps == [] ==> Render(Slash(base, r)) == Render(base)
    ensures !r.absolute && base.comps == [] ==> Render(Slash(base, r)) == Render(base) + Render(r)
  {
    if !r.absolute {
      var lead: string := if base.absolute then "/" else "";
      if base.comps != [] && r.comps != [] {
        JoinAppend(base.comps, r.comps, '/');
        assert Render(Slash(base, r)) == lead + (Join(base.comps, '/') + "/" + Join(r.comps, '/'));
      } else if r.comps == [] {
        AppendEmpty(base.comps);
      } else {
        EmptyAppend(r.comps);
      }
    }
  }

  /** Length of the longest common prefix of a and b. */
  function CommonPrefix(a: seq<string>, b: seq<string>): (k: nat)
    ensures k <= |a| && k <= |b|
    ensures a[..k] == b[..k]
    ensures k < |a| && k < |b| ==> a[k] != b[k]
  {
    if |a| == 0 || |b| == 0 || a[0] != b[0] then 0
    else
      var k := 1 + CommonPrefix(a[1..], b[1..]);
      assert a[..k] == [a[0]] + a[1..][..k - 1];
      assert b[..k] == [b[0]] + b[1..][..k - 1];
      k
  }

  /** The number of names in cs minus the number of ".." in cs ("." counts for nothing). */
  function Climb(cs: seq<string>): int
  {
    if |cs| == 0 then 0
    else (if cs[0] == DotDot then -1 else if cs[0] == Dot then 0 else 1) + Climb(cs[1..])
  }

  /** n ".." components. */
  function Ups(n: nat): (r: seq<string>)
    ensures |r| == n && forall k :: 0 <= k < n ==> r[k] == DotDot
  {
    seq(n, _ => DotDot)
  }

  /** p made relative to base, lexically. Different kinds give the empty path;
      identical component sequences give "."; otherwise one ".." per level base
      descends below the common prefix, then the rest of p; when base climbs
      above the common prefix the result is the empty path. */
  function Relative(p: Path, base: Path): (r: Path)
    ensures !r.absolute
  {
    if p.absolute != base.absolute then Path(false, [])
    else
      var k := CommonPrefix(p.comps, base.comps);
      if k == |p.comps| && k == |base.comps| then Path(false, [Dot])
      else
        var n := Climb(base.comps[k..]);
        if n < 0 then Path(false, []) else Path(false, Ups(n) + p.comps[k..])
  }

  /** Every path is "." relative to itself. */
  lemma RelativeSelf(p: Path)
    ensures Relative(p, p) == Path(false, [Dot])
  {
  }

  /** Removing k names from the top of the stack with k "..". */
  lemma {:induction false} PopNames(absolute: bool, st: seq<string>, xs: seq<string>)
    requires AllNames(xs)
    ensures NormFrom(absolute, st + xs, Ups(|xs|)) == st
    decreases |xs|
  {
    if |xs| > 0 {
      var last := |xs| - 1;
      var init := xs[..last];
      assert st + xs == (st + init) + [xs[last]];
      assert Step(absolute, st + xs, DotDot) == st + init;
      assert Ups(|xs|)[1..] == Ups(|init|);
      PopNames(absolute, st, init);
    } else {
      assert st + xs == st;
    }
  }

  lemma {:induction false} ClimbNames(cs: seq<string>)
    requires AllNames(cs)
    ensures Climb(cs) == |cs|
    decreases |cs|
  {
    if |cs| > 0 {
      ClimbNames(cs[1..]);
    }
  }

  lemma CanonicalNames(absolute: bool, cs: seq<string>)
    requires AllNames(cs)
    ensures Canonical(absolute, cs)
  {
  }

  lemma NormFromNames(absolute: bool, cs: seq<string>)
    requires AllNames(cs)
    ensures NormFrom(absolute, [], cs) == cs
  {
    CanonicalNames(absolute, cs);
    assert [] + cs == cs;
    NormFromOfCanonical(absolute, [], cs);
  }

  /** Names followed by as many ".." as there are names past position k
      normalise to the first k names. */
  lemma ClimbDown(absolute: bool, bc: seq<string>, k: nat)
    requires AllNames(bc) && k <= |bc|
    ensures NormFrom(absolute, [], bc + Ups(|bc| - k)) == bc[..k]
  {
    NormFromAppend(absolute, [], bc, Ups(|bc| - k));
    NormFromNames(absolute, bc);
    assert bc == bc[..k] + bc[k..];
    PopNames(absolute, bc[..k], bc[k..]);
  }

  /** Normal components (other than the lone ".") re-normalise to themselves
      from any prefix of themselves. */
  lemma ResumeNormal(p: Path, k: nat)
    requires IsNormal(p) && p.comps != [Dot] && k <= |p.comps|
    ensures NormFrom(p.absolute, p.comps[..k], p.comps[k..]) == p.comps
  {
    assert Canonical(p.absolute, p.comps);
    assert p.comps[..k] + p.comps[k..] == p.comps;
    NormFromOfCanonical(p.absolute, p.comps[..k], p.comps[k..]);
  }

  /** Resolving the relative path against base and normalising gives back p,
      for normal p and base of the same kind where base consists of names only
      (the empty relative path is the one normal p excluded: it comes back as "."). */
  lemma {:induction false} RelativeRoundTrip(p: Path, base: Path)
    requires IsNormal(p) && IsNormal(base) && p.absolute == base.absolute
    requires AllNames(base.comps)
    requires p.absolute || p.comps != []
    ensures Normal(Slash(base, Relative(p, base))) == p
  {
    var k := CommonPrefix(p.comps, base.comps);
    if k == |p.comps| && k == |base.comps| {
      RoundTripEqual(p, base);
    } else {
      RoundTripClimb(p, base);
    }
  }

  /** RelativeRoundTrip when p and base are the same path: the relative path is ".". */
  lemma RoundTripEqual(p: Path, base: Path)
    requires IsNormal(p) && IsNormal(base) && p.absolute == base.absolute
    requires AllNames(base.comps)
    requires p.absolute || p.comps != []
    requires CommonPrefix(p.comps, base.comps) == |p.comps| == |base.comps|
    ensures Normal(Slash(base, Relative(p, base))) == p
  {
    var abs := p.absolute;
    var pc, bc := p.comps, base.comps;
    var k := |pc|;
    var q := Slash(base, Relative(p, base));
    assert pc == pc[..k] == bc[..k] == bc;
    assert q.comps == bc + [Dot];
    NormFromAppend(abs, [], bc, [Dot]);
    NormFromNames(abs, bc);
  }

  /** RelativeRoundTrip when p and base differ: the relative path climbs out of
      base to the common prefix and descends into the rest of p. */
  lemma RoundTripClimb(p: Path, base: Path)
    requires IsNormal(p) && IsNormal(base) && p.absolute == base.absolute
    requires AllNames(base.comps)
    requires p.absolute || p.comps != []
    requires var k := CommonPrefix(p.comps, base.comps); !(k == |p.comps| && k == |base.comps|)
    ensures Normal(Slash(base, Relative(p, base))) == p
  {
    var abs := p.absolute;
    var pc, bc := p.comps, base.comps;
    var k := CommonPrefix(pc, bc);
    var q := Slash(base, Relative(p, base));
    var n := |bc| - k;
    ClimbNames(bc[k..]);
    var rest := pc[k..];
    assert q.comps == bc + Ups(n) + rest;
    NormFromAppend(abs, [], bc + Ups(n), rest);
    ClimbDown(abs, bc, k);
    if pc == [Dot] {
      assert k == 0 && rest == [Dot];
    } else {
      ResumeNormal(p, k);
    }
  }

  /** The same round trip for absolute paths, where normal already means names only:
      lexically_normal(base / lexically_relative(p, base)) == p. */
  lemma AbsoluteRoundTrip(p: Path, base: Path)
    requires p.absolute && base.absolute && IsNormal(p) && IsNormal(base)
    ensures Normal(Slash(base, Relative(p, base))) == p
  {
    RelativeRoundTrip(p, base);
  }

  /** The number of components in cs that are not ".". */
  function StepsUp(cs: seq<string>): nat
  {
    if |cs| == 0 then 0 else (if cs[0] == Dot then 0 else 1) + StepsUp(cs[1..])
  }

  /** The simplified relative path: no kind check and no accounting for ".."
      in base, which it assumes cannot occur. */
  function RelativeFast(p: Path, base: Path): (r: Path)
    ensures !r.absolute
  {
    var k := CommonPrefix(p.comps, base.comps);
    if k == |p.comps| && k == |base.comps| then Path(false, [Dot])
    else Path(false, Ups(StepsUp(base.comps[k..])) + p.comps[k..])
  }

  lemma {:induction false} ClimbWithoutDotDot(cs: seq<string>)
    requires NoDotDot(cs)
    ensures Climb(cs) == StepsUp(cs)
    decreases |cs|
  {
    if |cs| > 0 {
      ClimbWithoutDotDot(cs[1..]);
    }
  }

  /** Under its documented assumptions (same kind, both normal, no ".." in base)
      the simplified relative path agrees with the full one. */
  lemma RelativeFastAgrees(p: Path, base: Path)
    requires p.absolute == base.absolute
    requires IsNormal(p) && IsNormal(base)
    requires NoDotDot(base.comps)
    ensures RelativeFast(p, base) == Relative(p, base)
  {
    var k := CommonPrefix(p.comps, base.comps);
    ClimbWithoutDotDot(base.comps[k..]);
  }

  /** Flips every backslash to a forward slash. */
  function FwdSlashes(s: string): (r: string)
    ensures |r| == |s| && '\\' !in r
    ensures forall k :: 0 <= k < |s| && s[k] != '\\' ==> r[k] == s[k]
    ensures forall k :: 0 <= k < |s| && s[k] == '\\' ==> r[k] == '/'
  {
    seq(|s|, k requires 0 <= k < |s| => if s[k] == '\\' then '/' else s[k])
  }

  /** Flips every forward slash to a backslash (the project file's convention):
      the same path text with the other separator, so the forward-slash forms
      agree, and no forward slash is left. */
  function BackSlashes(s: string): (r: string)
    ensures |r| == |s| && '/' !in r
    ensures FwdSlashes(r) == FwdSlashes(s)
  {
    seq(|s|, k requires 0 <= k < |s| => if s[k] == '/' then '\\' else s[k])
  }

  lemma FwdSlashesIdempotent(s: string)
    ensures FwdSlashes(FwdSlashes(s)) == FwdSlashes(s)
  {
  }

  /** Flipping to backslashes first makes no difference to the forward-slash
      form, and on text without backslashes the two flips undo each other. */
  lemma FwdAfterBack(s: string)
    ensures '\\' !in s ==> FwdSlashes(BackSlashes(s)) == s
  {
  }

  /** The vector overload: every element flipped, length and order kept. */
  function FwdSlashesAll(v: seq<string>): (r: seq<string>)
    ensures |r| == |v|
    ensures forall k :: 0 <= k < |v| ==> r[k] == FwdSlashes(v[k]) && '\\' !in r[k]
  {
    seq(|v|, k requires 0 <= k < |v| => FwdSlashes(v[k]))
  }

  /** A component as it appears in a parsed path: non-empty and without a separator. */
  predicate IsComponent(c: string) {
    |c| > 0 && '/' !in c
  }

  predicate WellFormed(p: Path) {
    forall k :: 0 <= k < |p.comps| ==> IsComponent(p.comps[k])
  }

  function DropEmpty(pieces: seq<string>): (r: seq<string>)
    ensures forall x :: x in r ==> x in pieces && |x| > 0
  {
    if |pieces| == 0 then []
    else if |pieces[0]| == 0 then DropEmpty(pieces[1..])
    else [pieces[0]] + DropEmpty(pieces[1..])
  }

  lemma {:induction false} DropEmptyOfNonEmpty(pieces: seq<string>)
    requires forall k :: 0 <= k < |pieces| ==> |pieces[k]| > 0
    ensures DropEmpty(pieces) == pieces
    decreases |pieces|
  {
    if |pieces| > 0 {
      DropEmptyOfNonEmpty(pieces[1..]);
    }
  }

  /** Reads a path from its forward-slash text: a leading '/' makes it
      absolute, and runs of separators collapse. */
  function Parse(s: string): (r: Path)
    ensures WellFormed(r)
    ensures r.absolute <==> |s| > 0 && s[0] == '/'
  {
    Path(|s| > 0 && s[0] == '/', DropEmpty(Split(s, '/')))
  }

  /** The forward-slash text of a path. */
  function Render(p: Path): string
  {
    (if p.absolute then "/" else "") + Join(p.comps, '/')
  }

  /** The separator-joined text of well-formed components splits back into them. */
  lemma ParseComponents(cs: seq<string>)
    requires forall k :: 0 <= k < |cs| ==> IsComponent(cs[k])
    ensures DropEmpty(Split(Join(cs, '/'), '/')) == cs
    ensures |cs| > 0 ==> Join(cs, '/')[0] != '/'
  {
    if |cs| == 0 {
      assert Join(cs, '/') == "";
    } else {
      SplitJoin(cs, '/');
      DropEmptyOfNonEmpty(cs);
      if |cs| > 1 {
        assert Join(cs, '/')[0] == cs[0][0];
      }
    }
  }

  /** Reading back the text of a well-formed path gives the same path. */
  lemma ParseRender(p: Path)
    requires WellFormed(p)
    ensures Parse(Render(p)) == p
  {
    var j := Join(p.comps, '/');
    ParseComponents(p.comps);
    if p.absolute {
      var s := "/" + j;
      assert s[1..] == j;
      assert Split(s, '/') == [""] + Split(j, '/');
      assert DropEmpty(Split(s, '/')) == DropEmpty(Split(j, '/'));
    } else {
      assert Render(p) == j;
    }
  }

  /** Absolutisation against the working directory without touching the
      filesystem: a relative path is appended to cwd, and the result is put
      into normal form, so that it can be compared component by component. */
  function LexicallyAbsolute(cwd: Path, p: Path): (r: Path)
    requires cwd.absolute
    ensures r.absolute && IsNormal(r)
    ensures p.absolute ==> r == Normal(p)
    ensures !p.absolute ==> r == Normal(Path(true, cwd.comps + p.comps))
  {
    Normal(Slash(cwd, p))
  }

  /** An absolute path already in normal form is its own absolute form, and
      making a path absolute twice changes nothing. */
  lemma LexicallyAbsoluteStable(cwd: Path, p: Path)
    requires cwd.absolute
    ensures p.absolute && IsNormal(p) ==> LexicallyAbsolute(cwd, p) == p
    ensures LexicallyAbsolute(cwd, LexicallyAbsolute(cwd, p)) == LexicallyAbsolute(cwd, p)
  {
    if p.absolute && IsNormal(p) {
      NormalOfNormal(p);
    }
    NormalOfNormal(LexicallyAbsolute(cwd, p));
  }

  /** A leading "./" does not change a relative path's absolute form. */
  lemma LexicallyAbsoluteDot(cwd: Path, cs: seq<string>)
    requires cwd.absolute
    ensures LexicallyAbsolute(cwd, Path(false, [Dot] + cs)) == LexicallyAbsolute(cwd, Path(false, cs))
  {
    assert cwd.comps + ([Dot] + cs) == (cwd.comps + [Dot]) + cs;
    NormFromAppend(true, [], cwd.comps + [Dot], cs);
    NormFromAppend(true, [], cwd.comps, [Dot]);
    assert NormFrom(true, NormFrom(true, [], cwd.comps), [Dot]) == NormFrom(true, [], cwd.comps);
    NormFromAppend(true, [], cwd.comps, cs);
  }

  lemma {:induction false} NormFromComponents(absolute: bool, st: seq<string>, cs: seq<string>)
    ensures forall x :: x in NormFrom(absolute, st, cs) ==> x in st || x in cs
    decreases |cs|
  {
    if |cs| > 0 {
      var st' := Step(absolute, st, cs[0]);
      assert forall x :: x in st' ==> x in st || x == cs[0];
      NormFromComponents(absolute, st', cs[1..]);
      assert forall x :: x in cs[1..] ==> x in cs;
    }
  }

  /** Normalisation only drops components: every component of the normal
      form comes from the path, except the lone "." of an empty relative result. */
  lemma NormalComponents(p: Path)
    ensures forall x :: x in Normal(p).comps ==> x in p.comps || x == Dot
  {
    NormFromComponents(p.absolute, [], p.comps);
  }

  /** Hence normalisation keeps a path well-formed. */
  lemma NormalWellFormed(p: Path)
    requires WellFormed(p)
    ensures WellFormed(Normal(p))
  {
    NormalComponents(p);
    var n := Normal(p);
    forall k | 0 <= k < |n.comps| ensures IsComponent(n.comps[k]) {
      assert n.comps[k] in n.comps;
      if n.comps[k] != Dot {
        var j :| 0 <= j < |p.comps| && p.comps[j] == n.comps[k];
      }
    }
  }

  /** Whether a comparison folds letter case. */
  datatype CaseSensitive = Yes | No

  /** ASCII lower-casing of one character. */
  function LowerChar(c: char): char
  {
    if 'A' <= c <= 'Z' then (c as int - 'A' as int + 'a' as int) as char else c
  }

  function Lower(s: string): (r: string)
    ensures |r| == |s|
    ensures forall k :: 0 <= k < |s| ==> r[k] == LowerChar(s[k])
  {
    seq(|s|, k requires 0 <= k < |s| => LowerChar(s[k]))
  }

  function LowerSeq(cs: seq<string>): (r: seq<string>)
    ensures |r| == |cs|
    ensures forall k :: 0 <= k < |cs| ==> r[k] == Lower(cs[k])
  {
    seq(|cs|, k requires 0 <= k < |cs| => Lower(cs[k]))
  }

  function LowerPath(p: Path): Path
  {
    Path(p.absolute, LowerSeq(p.comps))
  }

  predicate SameComponent(x: string, y: string, sen: CaseSensitive) {
    if sen == Yes then x == y else Lower(x) == Lower(y)
  }

  /** Component-wise comparison of two paths, optionally ignoring letter case.
      Case-sensitive equality is plain equality; case-insensitive equality
      holds exactly when the lower-cased paths are equal. */
  function PathEquals(a: Path, b: Path, sen: CaseSensitive): (r: bool)
    ensures sen == Yes ==> (r <==> a == b)
    ensures sen == No ==> (r <==> LowerPath(a) == LowerPath(b))
  {
    var r := a.absolute == b.absolute && |a.comps| == |b.comps|
      && forall k :: 0 <= k < |a.comps| ==> SameComponent(a.comps[k], b.comps[k], sen);
    assert sen == Yes && r ==> a.comps == b.comps;
    assert sen == No && LowerPath(a) == LowerPath(b) ==> r by {
      if sen == No && LowerPath(a) == LowerPath(b) {
        assert LowerSeq(a.comps) == LowerSeq(b.comps);
        forall k | 0 <= k < |a.comps| ensures SameComponent(a.comps[k], b.comps[k], sen) {
          assert LowerSeq(a.comps)[k] == LowerSeq(b.comps)[k];
        }
      }
    }
    assert sen == No && r ==> LowerPath(a) == LowerPath(b) by {
      if sen == No && r {
        assert LowerSeq(a.comps) == LowerSeq(b.comps);
      }
    }
    r
  }

  lemma PathEqualsReflexive(a: Path, sen: CaseSensitive)
    ensures PathEquals(a, a, sen)
  {
  }

  lemma PathEqualsSymmetric(a: Path, b: Path, sen: CaseSensitive)
    ensures PathEquals(a, b, sen) == PathEquals(b, a, sen)
  {
  }

  lemma PathEqualsTransitive(a: Path, b: Path, c: Path, sen: CaseSensitive)
    requires PathEquals(a, b, sen) && PathEquals(b, c, sen)
    ensures PathEquals(a, c, sen)
  {
  }

  /** "A/B" and "a/b" are the same path when case is ignored and different paths otherwise. */
  lemma PathEqualsCaseExample()
    ensures PathEquals(Path(false, ["A", "B"]), Path(false, ["a", "b"]), No)
    ensures !PathEquals(Path(false, ["A", "B"]), Path(false, ["a", "b"]), Yes)
  {
    assert Lower("A") == "a" == Lower("a") by {
      assert Lower("A")[0] == 'a';
    }
    assert Lower("B") == "b" == Lower("b") by {
      assert Lower("B")[0] == 'b';
    }
    assert LowerSeq(["A", "B"]) == ["a", "b"] == LowerSeq(["a", "b"]);
  }

  // Lower-casing commutes with the lexical operations: letters are never
  // separators, dots or backslashes.

  lemma LowerDots(c: string)
    ensures Lower(c) == Dot <==> c == Dot
    ensures Lower(c) == DotDot <==> c == DotDot
  {
    if Lower(c) == Dot {
      assert c[0] == '.';
    }
    if Lower(c) == DotDot {
      assert c[0] == '.' && c[1] == '.';
    }
  }

  lemma LowerIdempotent(s: string)
    ensures Lower(Lower(s)) == Lower(s)
  {
  }

  lemma LowerSeqIdempotent(cs: seq<string>)
    ensures LowerSeq(LowerSeq(cs)) == LowerSeq(cs)
  {
    forall k | 0 <= k < |cs| ensures LowerSeq(LowerSeq(cs))[k] == LowerSeq(cs)[k] {
      LowerIdempotent(cs[k]);
    }
  }

  lemma LowerSeqAppend(a: seq<string>, b: seq<string>)
    ensures LowerSeq(a + b) == LowerSeq(a) + LowerSeq(b)
  {
  }

  lemma StepLower(absolute: bool, st: seq<string>, c: string)
    ensures Step(absolute, LowerSeq(st), Lower(c)) == LowerSeq(Step(absolute, st, c))
  {
    LowerDots(c);
    if |st| > 0 {
      LowerDots(st[|st| - 1]);
      assert LowerSeq(st)[..|st| - 1] == LowerSeq(st[..|st| - 1]);
    }
    LowerSeqAppend(st, [c]);
    LowerSeqAppend(st, [DotDot]);
    LowerDots(DotDot);
  }

  lemma {:induction false} NormFromLower(absolute: bool, st: seq<string>, cs: seq<string>)
    ensures NormFrom(absolute, LowerSeq(st), LowerSeq(cs)) == LowerSeq(NormFrom(absolute, st, cs))
    decreases |cs|
  {
    if |cs| > 0 {
      StepLower(absolute, st, cs[0]);
      assert LowerSeq(cs)[1..] == LowerSeq(cs[1..]);
      NormFromLower(absolute, Step(absolute, st, cs[0]), cs[1..]);
    }
  }

  /** Normalisation commutes with lower-casing. */
  lemma NormalLower(p: Path)
    ensures Normal(LowerPath(p)) == LowerPath(Normal(p))
  {
    NormFromLower(p.absolute, [], p.comps);
    LowerDots(Dot);
    assert LowerSeq([]) == [];
    assert LowerSeq([Dot]) == [Dot];
  }

  lemma SlashLower(a: Path, b: Path)
    ensures LowerPath(Slash(a, b)) == Slash(LowerPath(a), LowerPath(b))
  {
    LowerSeqAppend(a.comps, b.comps);
  }

  lemma FwdSlashesLower(s: string)
    ensures FwdSlashes(Lower(s)) == Lower(FwdSlashes(s))
  {
  }

  lemma LowerCons(ch: char, s: string)
    ensures Lower([ch] + s) == [LowerChar(ch)] + Lower(s)
  {
  }

  lemma LowerSeqCons(x: string, xs: seq<string>)
    ensures LowerSeq([x] + xs) == [Lower(x)] + LowerSeq(xs)
  {
  }

  lemma {:induction false} SplitLower(s: string, c: char)
    requires !('A' <= c <= 'Z') && !('a' <= c <= 'z')
    ensures Split(Lower(s), c) == LowerSeq(Split(s, c))
    decreases |s|
  {
    if |s| > 0 {
      var l := Lower(s);
      assert l == [LowerChar(s[0])] + Lower(s[1..]) by {
        assert s == [s[0]] + s[1..];
        LowerCons(s[0], s[1..]);
      }
      assert l[0] == LowerChar(s[0]) && l[1..] == Lower(s[1..]);
      assert (LowerChar(s[0]) == c) == (s[0] == c);
      SplitLower(s[1..], c);
      var rest := Split(s[1..], c);
      if s[0] != c {
        LowerCons(s[0], rest[0]);
        LowerSeqCons([s[0]] + rest[0], rest[1..]);
        assert LowerSeq(rest)[1..] == LowerSeq(rest[1..]);
      } else {
        LowerSeqCons("", rest);
        assert Lower("") == "";
      }
    }
  }

  lemma {:induction false} DropEmptyLower(pieces: seq<string>)
    ensures DropEmpty(LowerSeq(pieces)) == LowerSeq(DropEmpty(pieces))
    decreases |pieces|
  {
    if |pieces| > 0 {
      assert LowerSeq(pieces)[1..] == LowerSeq(pieces[1..]);
      DropEmptyLower(pieces[1..]);
      LowerSeqAppend([pieces[0]], DropEmpty(pieces[1..]));
    }
  }

  /** Parsing commutes with lower-casing. */
  lemma ParseLower(s: string)
    ensures Parse(Lower(s)) == LowerPath(Parse(s))
  {
    SplitLower(s, '/');
    DropEmptyLower(Split(s, '/'));
  }
}
