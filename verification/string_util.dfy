/** The small string kit the path algebra and the project readers rest on:
    substring tests, blank stripping and splitting on a separator, and the
    UTF-8 bytes of a text.

    A std::string or string_view holds the UTF-8 bytes of its text, and a
    Dafny string holds its characters. The operations here look only at ASCII
    characters (blanks, separators, letters), each of which is one byte that
    never occurs inside the encoding of another character, so they give the
    same answer on either view. Where the source measures or cuts a string by
    size, the model works on Utf8 of it. */
module StringUtil {

  // ---------------------------------------------------------------------
  // Sequence facts, stated for any element type so that proving them never
  // compares the elements themselves (comparing strings element by element
  // is what makes such steps expensive on sequences of strings)

  lemma AppendAssoc<T>(x: seq<T>, y: seq<T>, z: seq<T>)
    ensures x + y + z == x + (y + z)
  {
  }

  lemma AppendEmpty<T>(x: seq<T>)
    ensures x + [] == x
  {
  }

  /** Dropping the head of x + y, for a non-empty x, drops the head of x. */
  lemma TailOfAppend<T>(x: seq<T>, y: seq<T>)
    requires |x| > 0
    ensures (x + y)[0] == x[0] && (x + y)[1..] == x[1..] + y
  {
  }

  lemma EmptyAppend<T>(x: seq<T>)
    ensures [] + x == x
  {
  }

  /** Sequences that agree at every index are equal. */
  lemma EqualByIndex<T>(x: seq<T>, y: seq<T>)
    requires |x| == |y|
    requires forall k :: 0 <= k < |x| ==> x[k] == y[k]
    ensures x == y
  {
  }

  /** A non-empty sequence is its head followed by its tail. */
  lemma HeadTail<T>(s: seq<T>)
    requires |s| > 0
    ensures [s[0]] + s[1..] == s
  {
  }

  /** A non-empty sequence is its front followed by its last element. */
  lemma InitLast<T>(s: seq<T>)
    requires |s| > 0
    ensures s[..|s| - 1] + [s[|s| - 1]] == s
  {
  }

  /** Taking the front of x + y gives back x. */
  lemma PrefixOfAppend<T>(x: seq<T>, y: seq<T>)
    ensures (x + y)[..|x|] == x
  {
  }


  /** w occurs in s starting at position i. */
  predicate OccursAt(s: string, w: string, i: nat) {
    i + |w| <= |s| && s[i..i + |w|] == w
  }

  /** True when w occurs somewhere in s; the empty string occurs in every string. */
  function Contains(s: string, w: string): (r: bool)
    ensures r <==> exists i: nat :: OccursAt(s, w, i)
    decreases |s|
  {
    if |w| <= |s| && s[..|w|] == w then
      assert OccursAt(s, w, 0);
      true
    else if |s| == 0 then
      false
    else
      var r := Contains(s[1..], w);
      assert forall i: nat :: OccursAt(s[1..], w, i) <==> OccursAt(s, w, i + 1) by {
        forall i: nat ensures OccursAt(s[1..], w, i) <==> OccursAt(s, w, i + 1) {
          if i + 1 + |w| <= |s| {
            assert s[1..][i..i + |w|] == s[i + 1..i + 1 + |w|];
          }
        }
      }
      assert r ==> exists i: nat :: OccursAt(s, w, i) by {
        if r {
          var i: nat :| OccursAt(s[1..], w, i);
          assert OccursAt(s, w, i + 1);
        }
      }
      assert (exists i: nat :: OccursAt(s, w, i)) ==> r by {
        if exists i: nat :: OccursAt(s, w, i) {
          var i: nat :| OccursAt(s, w, i);
          assert i != 0;
          assert OccursAt(s[1..], w, i - 1);
        }
      }
      r
  }

  /** s begins with w: s is w followed by something. */
  function StartsWith(s: string, w: string): (r: bool)
    ensures r <==> exists u :: s == w + u
  {
    if |w| <= |s| && s[..|w|] == w then
      assert s == w + s[|w|..];
      true
    else
      false
  }

  /** s ends with w: s is something followed by w. */
  function EndsWith(s: string, w: string): (r: bool)
    ensures r <==> exists u :: s == u + w
  {
    if |w| <= |s| && s[|s| - |w|..] == w then
      assert s == s[..|s| - |w|] + w;
      true
    else
      false
  }

  lemma StartsWithContains(s: string, w: string)
    requires StartsWith(s, w)
    ensures Contains(s, w)
  {
    assert OccursAt(s, w, 0);
  }

  lemma EndsWithContains(s: string, w: string)
    requires EndsWith(s, w)
    ensures Contains(s, w)
  {
    assert OccursAt(s, w, |s| - |w|);
  }

  /** The white-space characters (`isspace` in the C locale): space, tab,
      newline, vertical tab, form feed and carriage return. */
  predicate IsBlank(c: char) {
    c == ' ' || c == '\t' || c == '\n' || c == '\U{000B}' || c == '\U{000C}' || c == '\r'
  }

  predicate AllBlank(s: string) {
    forall k :: 0 <= k < |s| ==> IsBlank(s[k])
  }

  /** Neither end of s is blank. */
  predicate IsStripped(s: string) {
    |s| == 0 || (!IsBlank(s[0]) && !IsBlank(s[|s| - 1]))
  }

  /** r is s with a blank prefix of length i and a blank suffix removed. */
  predicate TrimmedAt(s: string, r: string, i: nat) {
    i + |r| <= |s| && s[i..i + |r|] == r && AllBlank(s[..i]) && AllBlank(s[i + |r|..])
  }

  /** The end of the run of blanks in s that starts at i. */
  function BlanksEnd(s: string, i: nat): (n: nat)
    requires i <= |s|
    ensures i <= n <= |s|
    ensures forall k :: i <= k < n ==> IsBlank(s[k])
    ensures n == |s| || !IsBlank(s[n])
    decreases |s| - i
  {
    if i < |s| && IsBlank(s[i]) then BlanksEnd(s, i + 1) else i
  }

  /** The start of the run of blanks in s that ends at j, not going below lo. */
  function BlanksStart(s: string, lo: nat, j: nat): (n: nat)
    requires lo <= j <= |s|
    ensures lo <= n <= j
    ensures forall k :: n <= k < j ==> IsBlank(s[k])
    ensures n == lo || !IsBlank(s[n - 1])
    decreases j
  {
    if lo < j && IsBlank(s[j - 1]) then BlanksStart(s, lo, j - 1) else j
  }

  /** Where strip cuts s: the first non-blank character, and one past the
      last non-blank character. */
  function StripStart(s: string): nat
    ensures StripStart(s) <= |s|
  {
    BlanksEnd(s, 0)
  }

  /** Removes all blank space from both ends of s. The result is the one
      substring of s that has no blank at either end and is surrounded by
      blanks only. */
  function Strip(s: string): (r: string)
    ensures IsStripped(r)
    ensures TrimmedAt(s, r, StripStart(s))
  {
    var i := StripStart(s);
    var j := BlanksStart(s, i, |s|);
    var r := s[i..j];
    assert |r| > 0 ==> r[0] == s[i] && r[|r| - 1] == s[j - 1];
    assert forall k :: 0 <= k < i ==> s[..i][k] == s[k];
    assert forall k :: 0 <= k < |s| - j ==> s[j..][k] == s[j + k];
    r
  }

  /** A stripped string is a substring of the original, so it has no
      character the original lacks. */
  lemma StripKeepsAbsent(s: string, c: char)
    requires c !in s
    ensures c !in Strip(s)
  {
    var r := Strip(s);
    var i := StripStart(s);
    assert r == s[i..i + |r|];
  }

  lemma StripOfStripped(s: string)
    requires IsStripped(s)
    ensures Strip(s) == s
  {
  }

  /** strip is idempotent. */
  lemma StripIdempotent(s: string)
    ensures Strip(Strip(s)) == Strip(s)
  {
    StripOfStripped(Strip(s));
  }

  /** Joins pieces with the separator c between consecutive pieces. */
  function Join(pieces: seq<string>, c: char): string
  {
    if |pieces| == 0 then ""
    else if |pieces| == 1 then pieces[0]
    else pieces[0] + [c] + Join(pieces[1..], c)
  }

  /** Joining two non-empty lists is joining each and putting c between them. */
  lemma {:induction false} JoinAppend(a: seq<string>, b: seq<string>, c: char)
    requires |a| > 0 && |b| > 0
    ensures Join(a + b, c) == Join(a, c) + [c] + Join(b, c)
    decreases |a|
  {
    var ab := a + b;
    TailOfAppend(a, b);
    if |a| == 1 {
      assert ab[1..] == b;
    } else {
      JoinAppend(a[1..], b, c);
      assert Join(ab, c) == a[0] + [c] + (Join(a[1..], c) + [c] + Join(b, c));
    }
  }

  /** Splits s at every occurrence of c. There is always one more piece than
      there are separators, so the empty string gives one empty piece; joining
      the pieces back with c gives s, so the pieces appear in input order. */
  function Split(s: string, c: char): (r: seq<string>)
    ensures |r| >= 1
    ensures forall k :: 0 <= k < |r| ==> c !in r[k]
    ensures Join(r, c) == s
  {
    if |s| == 0 then
      [""]
    else if s[0] == c then
      var rest := Split(s[1..], c);
      assert [s[0]] + s[1..] == s;
      [""] + rest
    else
      var rest := Split(s[1..], c);
      var r := [[s[0]] + rest[0]] + rest[1..];
      assert r[1..] == rest[1..];
      assert [s[0]] + s[1..] == s;
      r
  }

  lemma SplitNoSeparator(p: string, c: char)
    requires c !in p
    ensures Split(p, c) == [p]
  {
    if |p| > 0 {
      SplitNoSeparator(p[1..], c);
      assert [p[0]] + p[1..] == p;
    }
  }

  lemma {:induction false} SplitPrefix(p: string, c: char, rest: string)
    requires c !in p
    ensures Split(p + [c] + rest, c) == [p] + Split(rest, c)
    decreases |p|
  {
    var s := p + [c] + rest;
    if |p| == 0 {
      assert s[0] == c && s[1..] == rest;
    } else {
      SplitPrefix(p[1..], c, rest);
      assert s[0] == p[0] != c;
      assert s[1..] == p[1..] + [c] + rest;
      var tail := Split(s[1..], c);
      assert tail == [p[1..]] + Split(rest, c);
      assert Split(s, c) == [[p[0]] + tail[0]] + tail[1..];
      assert [p[0]] + p[1..] == p;
    }
  }

  /** split undoes Join on pieces free of the separator. */
  lemma {:induction false} SplitJoin(pieces: seq<string>, c: char)
    requires |pieces| >= 1
    requires forall k :: 0 <= k < |pieces| ==> c !in pieces[k]
    ensures Split(Join(pieces, c), c) == pieces
    decreases |pieces|
  {
    if |pieces| == 1 {
      SplitNoSeparator(pieces[0], c);
    } else {
      SplitJoin(pieces[1..], c);
      SplitPrefix(pieces[0], c, Join(pieces[1..], c));
      assert [pieces[0]] + pieces[1..] == pieces;
    }
  }

  /** Strips every piece and keeps the non-empty results, in order. */
  function StripNonEmpty(pieces: seq<string>): (r: seq<string>)
    ensures forall k :: 0 <= k < |r| ==> |r[k]| > 0 && IsStripped(r[k])
    ensures |r| <= |pieces|
  {
    if |pieces| == 0 then []
    else
      var t := Strip(pieces[0]);
      var rest := StripNonEmpty(pieces[1..]);
      if |t| == 0 then rest
      else
        var r := [t] + rest;
        assert forall k :: 0 <= k < |r| ==> |r[k]| > 0 && IsStripped(r[k]) by {
          forall k | 0 <= k < |r| ensures |r[k]| > 0 && IsStripped(r[k]) {
            if k > 0 {
              assert r[k] == rest[k - 1];
            }
          }
        }
        r
  }

  lemma {:induction false} StripNonEmptyKeepsAbsent(pieces: seq<string>, c: char)
    requires forall j :: 0 <= j < |pieces| ==> c !in pieces[j]
    ensures forall k :: 0 <= k < |StripNonEmpty(pieces)| ==> c !in StripNonEmpty(pieces)[k]
    decreases |pieces|
  {
    if |pieces| > 0 {
      var t := Strip(pieces[0]);
      var rest := StripNonEmpty(pieces[1..]);
      StripKeepsAbsent(pieces[0], c);
      StripNonEmptyKeepsAbsent(pieces[1..], c);
      if |t| > 0 {
        ConsKeepsAbsent(t, rest, c);
      }
    }
  }

  lemma ConsKeepsAbsent(t: string, rest: seq<string>, c: char)
    requires c !in t
    requires forall k :: 0 <= k < |rest| ==> c !in rest[k]
    ensures forall k :: 0 <= k < |[t] + rest| ==> c !in ([t] + rest)[k]
  {
    forall k | 0 <= k < |[t] + rest| ensures c !in ([t] + rest)[k] {
      if k > 0 {
        assert ([t] + rest)[k] == rest[k - 1];
      }
    }
  }

  /** Splits s on c, strips every piece and drops the pieces that are empty
      after stripping. */
  function SplitStrip(s: string, c: char): (r: seq<string>)
    ensures forall k :: 0 <= k < |r| ==> |r[k]| > 0 && IsStripped(r[k]) && c !in r[k]
  {
    StripNonEmptyKeepsAbsent(Split(s, c), c);
    StripNonEmpty(Split(s, c))
  }

  /** One step of StripNonEmpty, on a and on a followed by b. */
  lemma StripNonEmptyStep(a: seq<string>, b: seq<string>)
    requires |a| > 0
    ensures StripNonEmpty(a) ==
      (if |Strip(a[0])| == 0 then StripNonEmpty(a[1..]) else [Strip(a[0])] + StripNonEmpty(a[1..]))
    ensures StripNonEmpty(a + b) ==
      (if |Strip(a[0])| == 0 then StripNonEmpty(a[1..] + b) else [Strip(a[0])] + StripNonEmpty(a[1..] + b))
  {
    assert (a + b)[0] == a[0];
    assert (a + b)[1..] == a[1..] + b;
  }

  /** Stripping then dropping empties distributes over concatenation, so
      split_strip keeps the order of the surviving pieces. */
  lemma {:induction false} StripNonEmptyAppend(a: seq<string>, b: seq<string>)
    ensures StripNonEmpty(a + b) == StripNonEmpty(a) + StripNonEmpty(b)
    decreases |a|
  {
    if |a| > 0 {
      var t, restA, restB := Strip(a[0]), StripNonEmpty(a[1..]), StripNonEmpty(b);
      var restAB := StripNonEmpty(a[1..] + b);
      assert restAB == restA + restB by { StripNonEmptyAppend(a[1..], b); }
      if |t| == 0 {
        assert StripNonEmpty(a) == restA && StripNonEmpty(a + b) == restAB by { StripNonEmptyStep(a, b); }
      } else {
        assert StripNonEmpty(a) == [t] + restA && StripNonEmpty(a + b) == [t] + restAB by { StripNonEmptyStep(a, b); }
        AppendAssoc([t], restA, restB);
      }
    } else {
      assert a + b == b;
    }
  }

  /** A piece survives split_strip exactly when it is not blank, and then as its stripped form. */
  lemma StripNonEmptySingle(p: string)
    ensures StripNonEmpty([p]) == (if Strip(p) == "" then [] else [Strip(p)])
  {
    assert [p][1..] == [];
  }

  // ---------------------------------------------------------------------
  // UTF-8

  type Byte = b: int | 0 <= b < 0x100

  predicate IsAscii(c: char) {
    c as int < 0x80
  }

  /** The UTF-8 encoding of one character: one byte for ASCII, otherwise two
      to four bytes, a lead byte that announces the length followed by
      continuation bytes 10xxxxxx. */
  function Utf8Char(c: char): (r: seq<Byte>)
    ensures 1 <= |r| <= 4
    ensures |r| == 1 <==> IsAscii(c)
    ensures IsAscii(c) ==> r == [c as int]
    ensures forall k :: 1 <= k < |r| ==> 0x80 <= r[k] < 0xC0
    ensures |r| == 2 <==> 0xC0 <= r[0] < 0xE0
    ensures |r| == 3 <==> 0xE0 <= r[0] < 0xF0
    ensures |r| == 4 <==> 0xF0 <= r[0]
  {
    var n := c as int;
    var q1 := n / 0x40;
    var q2 := q1 / 0x40;
    var q3 := q2 / 0x40;
    if n < 0x80 then [n]
    else if n < 0x800 then [0xC0 + q1, 0x80 + n % 0x40]
    else if n < 0x1_0000 then [0xE0 + q2, 0x80 + q1 % 0x40, 0x80 + n % 0x40]
    else [0xF0 + q3, 0x80 + q2 % 0x40, 0x80 + q1 % 0x40, 0x80 + n % 0x40]
  }

  /** Six low bits and the rest: x is recovered from x / 64 and x % 64. */
  lemma SixBits(x: int)
    requires x >= 0
    ensures x == (x / 0x40) * 0x40 + x % 0x40
  {
  }

  /** The UTF-8 bytes of s, character by character. */
  function Utf8(s: string): (r: seq<Byte>)
    ensures |r| >= |s|
  {
    if |s| == 0 then [] else Utf8Char(s[0]) + Utf8(s[1..])
  }

  /** Different characters have different encodings. */
  lemma Utf8CharInjective(c: char, d: char)
    requires Utf8Char(c) == Utf8Char(d)
    ensures c == d
  {
    var n, m := c as int, d as int;
    var r := Utf8Char(c);
    SixBits(n);
    SixBits(m);
    SixBits(n / 0x40);
    SixBits(m / 0x40);
    SixBits(n / 0x40 / 0x40);
    SixBits(m / 0x40 / 0x40);
    if |r| == 1 {
    } else if |r| == 2 {
      assert n / 0x40 == m / 0x40 && n % 0x40 == m % 0x40;
    } else if |r| == 3 {
      assert n / 0x40 / 0x40 == m / 0x40 / 0x40;
      assert (n / 0x40) % 0x40 == (m / 0x40) % 0x40 && n % 0x40 == m % 0x40;
    } else {
      assert n / 0x40 / 0x40 / 0x40 == m / 0x40 / 0x40 / 0x40;
      assert (n / 0x40 / 0x40) % 0x40 == (m / 0x40 / 0x40) % 0x40;
      assert (n / 0x40) % 0x40 == (m / 0x40) % 0x40 && n % 0x40 == m % 0x40;
    }
  }

  /** The encoding loses nothing: equal bytes mean equal text, because each
      lead byte says how many bytes its character takes. */
  lemma {:induction false} Utf8Injective(a: string, b: string)
    requires Utf8(a) == Utf8(b)
    ensures a == b
    decreases |a|
  {
    if |a| > 0 && |b| > 0 {
      var x, y := Utf8Char(a[0]), Utf8Char(b[0]);
      assert Utf8(a)[0] == x[0] && Utf8(b)[0] == y[0];
      assert |x| == |y|;
      assert x == Utf8(a)[..|x|] == Utf8(b)[..|y|] == y;
      Utf8CharInjective(a[0], b[0]);
      assert Utf8(a[1..]) == Utf8(a)[|x|..] == Utf8(b)[|y|..] == Utf8(b[1..]);
      Utf8Injective(a[1..], b[1..]);
      assert a == [a[0]] + a[1..] && b == [b[0]] + b[1..];
    }
  }

  predicate AllAscii(s: string) {
    forall k :: 0 <= k < |s| ==> IsAscii(s[k])
  }

  /** Encoding is compatible with concatenation. */
  lemma {:induction false} Utf8Append(a: string, b: string)
    ensures Utf8(a + b) == Utf8(a) + Utf8(b)
    decreases |a|
  {
    if |a| == 0 {
      assert a + b == b;
    } else {
      TailOfAppend(a, b);
      Utf8Append(a[1..], b);
      AppendAssoc(Utf8Char(a[0]), Utf8(a[1..]), Utf8(b));
    }
  }

  /** ASCII text is its own encoding: one byte per character, the character's code. */
  lemma {:induction false} Utf8Ascii(s: string)
    requires AllAscii(s)
    ensures |Utf8(s)| == |s|
    ensures forall k :: 0 <= k < |s| ==> Utf8(s)[k] == s[k] as int
    decreases |s|
  {
    if |s| > 0 {
      Utf8Ascii(s[1..]);
    }
  }

  /** Every non-ASCII character takes more than one byte, so text with one
      is longer in bytes than in characters. */
  lemma {:induction false} Utf8Longer(s: string)
    requires !AllAscii(s)
    ensures |Utf8(s)| > |s|
    decreases |s|
  {
    if IsAscii(s[0]) {
      Utf8Longer(s[1..]);
    }
  }
}
