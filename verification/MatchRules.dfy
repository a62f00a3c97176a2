/** D-Bus match rules (D-Bus Specification, section "Match Rules"): a rule is a
    comma-separated list of `key='value'` criteria. `Format` writes a rule the
    way the bindings' `fmt.Sprintf` templates do; `Parse` is an independent
    reader of the same grammar, used to state what a built rule says. Values
    are written without the apostrophe escaping the specification allows, so
    a criterion is well formed only when its value holds no apostrophe. */
module MatchRules {
  import opened Results

  datatype Criterion = Criterion(key: string, value: string)

  predicate WellFormed(c: Criterion) {
    && 1 <= |c.key|
    && '=' !in c.key && ',' !in c.key && '\'' !in c.key
    && '\'' !in c.value
  }

  function FormatCriterion(c: Criterion): string {
    c.key + "='" + c.value + "'"
  }

  /** The text of a rule: its criteria in order, separated by `,`. */
  function Format(cs: seq<Criterion>): string {
    if |cs| == 0 then ""
    else if |cs| == 1 then FormatCriterion(cs[0])
    else FormatCriterion(cs[0]) + "," + Format(cs[1..])
  }

  lemma FormatCons(c: Criterion, rest: seq<Criterion>)
    requires 1 <= |rest|
    ensures Format([c] + rest) == FormatCriterion(c) + "," + Format(rest)
  {
    assert ([c] + rest)[1..] == rest;
  }

  /** The length of the longest prefix of `s` free of `stop`. */
  function TakeUntil(s: string, stop: char): (n: nat)
    ensures n <= |s|
    ensures stop !in s[..n]
    ensures n < |s| ==> s[n] == stop
  {
    if |s| == 0 || s[0] == stop then 0
    else
      var n := 1 + TakeUntil(s[1..], stop);
      assert s[..n] == [s[0]] + s[1..][..n - 1];
      n
  }

  lemma {:induction false} TakeUntilPrefix(a: string, b: string, stop: char)
    requires stop !in a
    requires 1 <= |b| && b[0] == stop
    ensures TakeUntil(a + b, stop) == |a|
  {
    if |a| > 0 {
      assert (a + b)[1..] == a[1..] + b;
      TakeUntilPrefix(a[1..], b, stop);
    }
  }

  /** Reads an apostrophe-quoted value from the front of `t`; returns it
      with the text after the closing apostrophe. */
  function ParseQuoted(t: string): (r: Option<(string, string)>)
    ensures r.Some? ==> '\'' !in r.value.0 && |r.value.1| < |t|
  {
    if |t| == 0 || t[0] != '\'' then None
    else
      var body := t[1..];
      var v := TakeUntil(body, '\'');
      if v == |body| then None else Some((body[..v], body[v + 1..]))
  }

  /** Reads one `key='value'` criterion from the front of `s`; returns it
      with the text that follows the closing apostrophe. */
  function ParseCriterion(s: string): (r: Option<(Criterion, string)>)
    ensures r.Some? ==> WellFormed(r.value.0) && |r.value.1| < |s|
  {
    var k := TakeUntil(s, '=');
    if k == 0 || k == |s| || ',' in s[..k] || '\'' in s[..k] then None
    else
      match ParseQuoted(s[k + 1..])
      case None => None
      case Some((value, after)) => Some((Criterion(s[..k], value), after))
  }

  /** Reads one or more criteria; `None` when `s` does not follow the grammar. */
  function ParseCriteria(s: string): (r: Option<seq<Criterion>>)
    ensures r.Some? ==> 1 <= |r.value|
    ensures r.Some? ==> forall i :: 0 <= i < |r.value| ==> WellFormed(r.value[i])
    decreases |s|
  {
    match ParseCriterion(s)
    case None => None
    case Some((c, after)) =>
      if |after| == 0 then Some([c])
      else if after[0] != ',' then None
      else
        match ParseCriteria(after[1..])
        case None => None
        case Some(cs) => Some([c] + cs)
  }

  /** Reads a rule; the empty text is the empty rule. */
  function Parse(s: string): (r: Option<seq<Criterion>>)
    ensures r.Some? ==> forall i :: 0 <= i < |r.value| ==> WellFormed(r.value[i])
  {
    if |s| == 0 then Some([]) else ParseCriteria(s)
  }

  /** The value of the first criterion with the given key. */
  function Lookup(cs: seq<Criterion>, key: string): (r: Option<string>)
    ensures r.Some? <==> exists i :: 0 <= i < |cs| && cs[i].key == key
  {
    if |cs| == 0 then None
    else if cs[0].key == key then Some(cs[0].value)
    else Lookup(cs[1..], key)
  }

  lemma ParseQuotedOfFormat(value: string, tail: string)
    requires '\'' !in value
    ensures ParseQuoted("'" + value + "'" + tail) == Some((value, tail))
  {
    var t := "'" + value + "'" + tail;
    var body := t[1..];
    assert body == value + ("'" + tail);
    TakeUntilPrefix(value, "'" + tail, '\'');
    assert body[..|value|] == value;
    assert body[|value| + 1..] == tail;
  }

  lemma KeyOfFormat(key: string, rest: string)
    requires 1 <= |key| && '=' !in key
    ensures TakeUntil(key + ("=" + rest), '=') == |key|
    ensures (key + ("=" + rest))[..|key|] == key
    ensures (key + ("=" + rest))[|key| + 1..] == rest
  {
    TakeUntilPrefix(key, "=" + rest, '=');
  }

  /** A formatted criterion is read back whole, and reading resumes right
      after its closing apostrophe. */
  lemma ParseCriterionOfFormat(c: Criterion, tail: string)
    requires WellFormed(c)
    ensures ParseCriterion(FormatCriterion(c) + tail) == Some((c, tail))
  {
    var quoted := "'" + c.value + "'" + tail;
    assert FormatCriterion(c) + tail == c.key + ("=" + quoted);
    KeyOfFormat(c.key, quoted);
    ParseQuotedOfFormat(c.value, tail);
  }

  /** A formatted criterion followed by `,` and more text is read, and
      reading continues with that text. */
  lemma ParseCriteriaCons(c: Criterion, more: string)
    requires WellFormed(c)
    ensures ParseCriteria(FormatCriterion(c) + "," + more) ==
      match ParseCriteria(more)
      case None => None
      case Some(cs) => Some([c] + cs)
  {
    var after := "," + more;
    assert FormatCriterion(c) + "," + more == FormatCriterion(c) + after;
    ParseCriterionOfFormat(c, after);
    assert after[1..] == more;
  }

  lemma ParseCriteriaSingle(c: Criterion)
    requires WellFormed(c)
    ensures ParseCriteria(FormatCriterion(c)) == Some([c])
  {
    ParseCriterionOfFormat(c, "");
    assert FormatCriterion(c) + "" == FormatCriterion(c);
  }

  lemma {:induction false} ParseFormatCriteria(cs: seq<Criterion>)
    requires 1 <= |cs|
    requires forall i :: 0 <= i < |cs| ==> WellFormed(cs[i])
    ensures ParseCriteria(Format(cs)) == Some(cs)
  {
    if |cs| == 1 {
      ParseCriteriaSingle(cs[0]);
      assert cs == [cs[0]];
    } else {
      var more := Format(cs[1..]);
      ParseFormatCriteria(cs[1..]);
      ParseCriteriaCons(cs[0], more);
      assert cs == [cs[0]] + cs[1..];
    }
  }

  /** Reading a rule built from well-formed criteria gives back those
      criteria, in order. */
  lemma ParseFormat(cs: seq<Criterion>)
    requires forall i :: 0 <= i < |cs| ==> WellFormed(cs[i])
    ensures Parse(Format(cs)) == Some(cs)
  {
    if |cs| > 0 {
      ParseFormatCriteria(cs);
    }
  }
}
