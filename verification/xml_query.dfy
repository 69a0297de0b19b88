/** The cardinality contract of the document query layer. A query's matches
    arrive as the ordered sequence of node texts or attribute values the query
    selected; how they were selected (the query language, the substitution of
    the platform variable) is not part of this model. */
module XmlQuery {
  import opened Wrappers
  import opened Errors
  import opened StringUtil

  /** All text results, optionally stripped; zero matches are an error unless allowed. */
  function Texts(matches: seq<string>, allowEmpty: bool, strip: bool): (r: Result<seq<string>, Error>)
    ensures r.Err? <==> |matches| == 0 && !allowEmpty
    ensures r.Err? ==> r.error == Cardinality
    ensures r.Ok? ==> |r.value| == |matches|
    ensures r.Ok? && strip ==> forall k :: 0 <= k < |matches| ==> r.value[k] == Strip(matches[k])
    ensures r.Ok? && !strip ==> r.value == matches
  {
    if |matches| == 0 && !allowEmpty then Err(Cardinality)
    else if strip then Ok(seq(|matches|, k requires 0 <= k < |matches| => Strip(matches[k])))
    else Ok(matches)
  }

  /** At most one text result: none for zero matches when that is allowed, the
      (optionally stripped) text for exactly one, an error for more than one
      whatever allowEmpty says. */
  function Text(matches: seq<string>, allowEmpty: bool, strip: bool): (r: Result<Option<string>, Error>)
    ensures r == Ok(None) <==> |matches| == 0 && allowEmpty
    ensures (r.Ok? && r.value.Some?) <==> |matches| == 1
    ensures |matches| == 1 ==> r.value.value == if strip then Strip(matches[0]) else matches[0]
    ensures r.Err? ==> r.error == Cardinality
  {
    var all :- Texts(matches, allowEmpty, strip);
    if |all| == 0 then Ok(None)
    else if |all| == 1 then Ok(Some(all[0]))
    else Err(Cardinality)
  }

  /** The single-result query is the multi-result query restricted to at most
      one result: it yields a value exactly when the multi-result query yields
      that one value, and nothing exactly when it yields nothing. */
  lemma TextRefinesTexts(matches: seq<string>, allowEmpty: bool, strip: bool, v: string)
    ensures Text(matches, allowEmpty, strip) == Ok(Some(v)) <==> Texts(matches, allowEmpty, strip) == Ok([v])
    ensures Text(matches, allowEmpty, strip) == Ok(None) <==> Texts(matches, allowEmpty, strip) == Ok([])
  {
    var t := Texts(matches, allowEmpty, strip);
    if t.Ok? && |t.value| == 1 {
      assert t.value == [t.value[0]];
    }
  }

  /** All attribute values; attribute values are never stripped. */
  function Attrs(matches: seq<string>, allowEmpty: bool): (r: Result<seq<string>, Error>)
    ensures r.Err? <==> |matches| == 0 && !allowEmpty
    ensures r.Err? ==> r.error == Cardinality
    ensures r.Ok? ==> r.value == matches
  {
    Texts(matches, allowEmpty, false)
  }

  /** At most one attribute value, with the same rule as Text. */
  function Attr(matches: seq<string>, allowEmpty: bool): (r: Result<Option<string>, Error>)
    ensures r == Ok(None) <==> |matches| == 0 && allowEmpty
    ensures |matches| == 1 ==> r == Ok(Some(matches[0]))
    ensures r.Err? <==> |matches| > 1 || (|matches| == 0 && !allowEmpty)
    ensures r.Err? ==> r.error == Cardinality
  {
    Text(matches, allowEmpty, false)
  }

  /** A reader for a typed attribute: the value it parsed and how many
      characters it consumed, or None when nothing parsed. */
  type Reader<T> = string -> Option<(T, nat)>

  /** A typed attribute of a node: none when the attribute is absent; a value
      only when the reader parses one and consumes the whole attribute text. */
  function Attribute<T>(raw: Option<string>, read: Reader<T>): (r: Option<T>)
    ensures raw.None? ==> r.None?
    ensures r.Some? <==> raw.Some? && read(raw.value).Some? && read(raw.value).value.1 == |raw.value|
    ensures r.Some? ==> r.value == read(raw.value).value.0
  {
    match raw
    case None => None
    case Some(s) =>
      match read(s)
      case Some((v, used)) => if used == |s| then Some(v) else None
      case None => None
  }

  /** The reader of a type the text converts to directly: all of the text,
      whole. */
  function WholeText(s: string): Option<(string, nat)> {
    Some((s, |s|))
  }

  /** A string attribute needs no conversion: it is the text itself exactly
      when the attribute is present, and absent otherwise. */
  lemma StringAttribute(raw: Option<string>)
    ensures Attribute(raw, WholeText) == raw
  {
  }

  predicate IsDigit(c: char) {
    '0' <= c <= '9'
  }

  /** Number of leading decimal digits of s. */
  function DigitRun(s: string): (n: nat)
    ensures n <= |s|
    ensures forall k :: 0 <= k < n ==> IsDigit(s[k])
    ensures n < |s| ==> !IsDigit(s[n])
  {
    if |s| > 0 && IsDigit(s[0]) then 1 + DigitRun(s[1..]) else 0
  }

  function DigitsValue(s: string): nat
    requires forall k :: 0 <= k < |s| ==> IsDigit(s[k])
  {
    if |s| == 0 then 0
    else
      assert IsDigit(s[|s| - 1]);
      DigitsValue(s[..|s| - 1]) * 10 + (s[|s| - 1] as int - '0' as int)
  }

  /** An unsigned decimal reader: the longest run of leading digits, if any. */
  function ReadDecimal(s: string): (r: Option<(nat, nat)>)
    ensures r.Some? ==> 0 < r.value.1 <= |s|
  {
    var n := DigitRun(s);
    if n == 0 then None else Some((DigitsValue(s[..n]), n))
  }

  /** A numeric attribute "42" reads as 42; "42x" is refused because the
      parse does not consume the whole text; an absent one is none. */
  lemma DecimalAttributeExamples()
    ensures Attribute(Some("42"), ReadDecimal) == Some(42)
    ensures Attribute(Some("42x"), ReadDecimal) == None
    ensures Attribute(None, ReadDecimal) == None
  {
    assert DigitRun("42") == 2 by {
      assert "42"[1..] == "2";
      assert "2"[1..] == "";
    }
    assert "42"[..2] == "42";
    assert "42"[..1] == "4";
    assert DigitsValue("42") == 42;
    assert DigitRun("42x") == 2 by {
      assert "42x"[1..] == "2x";
      assert "2x"[1..] == "x";
    }
  }
}
