/**
 * The converter from the JSON-lines output of the `typos` spell checker to a
 * GitLab Code Quality report: each line is decoded, lines that are not typo
 * records are skipped, and each typo record becomes one issue with a fixed
 * check name and severity, a readable description and a fingerprint.
 *
 * JSON decoding happens outside the model: a line arrives already decoded as
 * a `Decoded` value. MD5 is a parameter, so every statement about the
 * fingerprint is about the text that gets hashed.
 */
module TyposCodeQuality {
  import opened Wrappers
  import opened PyText

  /** `hashlib.md5(text.encode("utf-8")).hexdigest()`, left uninterpreted. */
  type Hasher = string -> string

  /** The five severities of the Code Quality report format. */
  datatype Severity = Info | Minor | Major | Critical | Blocker

  datatype Lines = Lines(begin: int)

  datatype Location = Location(path: string, lines: Lines)

  /** One entry of the Code Quality report. */
  datatype GitlabIssue = GitlabIssue(
    description: string,
    checkName: string,
    fingerprint: string,
    severity: Severity,
    location: Location)

  /** A typo record as `typos` reports it; `lineNum` is absent for typos in a
      file name rather than in file contents. */
  datatype TypoIssue = TypoIssue(
    byteOffset: int,
    typo: string,
    corrections: seq<string>,
    lineNum: Option<int>,
    path: string)

  /** A decoded JSON object, each field present or absent. */
  datatype RawRecord = RawRecord(
    kind: Option<string>,
    typo: Option<string>,
    corrections: Option<seq<string>>,
    path: Option<string>,
    byteOffset: Option<int>,
    lineNum: Option<int>)

  /** What `json.loads` makes of one input line: a `JSONDecodeError`, bytes
      that cannot be decoded in the encoding it detects (`UnicodeDecodeError`,
      which is not caught), a JSON value that is not an object, or an object. */
  datatype Decoded = NotJson | Undecodable | NotObject | Object(record: RawRecord)

  /** The exceptions that escape `parse_issue`. */
  datatype ParseError = UnicodeDecodeError | AttributeError | KeyError(key: string)

  const CheckName := "typos"

  /** A correction wrapped in backticks. */
  function Quoted(c: string): string {
    "`" + c + "`"
  }

  /** `typo: `<typo>` should be ` followed by the quoted corrections joined
      with `, `. */
  function Description(typo: string, corrections: seq<string>): string {
    "typo: `" + typo + "` should be "
      + JoinWith(", ", seq(|corrections|, k requires 0 <= k < |corrections| => Quoted(corrections[k])))
  }

  /** The description for a single correction. */
  lemma DescriptionSingle(typo: string, c: string)
    ensures Description(typo, [c]) == "typo: `" + typo + "` should be `" + c + "`"
  {
  }

  /** One more correction adds `, ` and that correction, quoted, at the end. */
  lemma DescriptionSnoc(typo: string, corrections: seq<string>, c: string)
    requires |corrections| > 0
    ensures Description(typo, corrections + [c]) == Description(typo, corrections) + ", `" + c + "`"
  {
    var q := seq(|corrections|, k requires 0 <= k < |corrections| => Quoted(corrections[k]));
    var cs := corrections + [c];
    assert seq(|cs|, k requires 0 <= k < |cs| => Quoted(cs[k])) == q + [Quoted(c)];
    JoinWithSnoc(", ", q, Quoted(c));
  }

  /** `typos::<path>::<byte_offset>::<typo>`, the text that gets hashed. */
  function FingerprintText(path: string, byteOffset: int, typo: string): string {
    "typos::" + path + "::" + IntToStr(byteOffset) + "::" + typo
  }

  /** `_make_fingerprint`: the hash of the fingerprint text. */
  function MakeFingerprint(issue: TypoIssue, md5: Hasher): string {
    md5(FingerprintText(issue.path, issue.byteOffset, issue.typo))
  }

  /** The fingerprint depends on the path, the offset and the typo only. */
  lemma FingerprintIgnoresRest(a: TypoIssue, b: TypoIssue, md5: Hasher)
    requires a.path == b.path && a.byteOffset == b.byteOffset && a.typo == b.typo
    ensures MakeFingerprint(a, md5) == MakeFingerprint(b, md5)
  {
  }

  /** Splitting at the first colon: a colon-free head is determined. */
  lemma SplitAtColon(a: string, b: string, c: string, d: string)
    requires ':' !in a && ':' !in c
    requires a + ":" + b == c + ":" + d
    ensures a == c && b == d
  {
    var s := a + ":" + b;
    assert forall k :: 0 <= k < |a| ==> s[k] == a[k] != ':';
    assert s[|a|] == ':';
    assert forall k :: 0 <= k < |c| ==> s[k] == c[k] != ':';
    assert s[|c|] == ':';
    assert |a| == |c|;
    assert a == s[..|a|] == c;
    assert b == s[|a| + 1..] == d;
  }

  /** A common prefix can be dropped. */
  lemma DropPrefix(x: string, y: string, z: string)
    requires x + y == x + z
    ensures y == z
  {
    assert y == (x + y)[|x|..];
    assert z == (x + z)[|x|..];
  }

  /** `str(n)` holds no colon. */
  lemma IntToStrNoColon(n: int)
    ensures ':' !in IntToStr(n)
  {
    var r := IntToStr(n);
    var digits := NatToStr(if n < 0 then -n else n);
    assert r == if n < 0 then "-" + digits else digits;
    forall k | 0 <= k < |r|
      ensures r[k] != ':'
    {
      if n < 0 && k > 0 {
        assert r[k] == digits[k - 1];
      }
    }
  }

  /** The fingerprint text regrouped from the right. */
  lemma FingerprintTextShape(path: string, byteOffset: int, typo: string)
    ensures FingerprintText(path, byteOffset, typo)
         == "typos::" + (path + ":" + (":" + (IntToStr(byteOffset) + ":" + (":" + typo))))
  {
  }

  /** For paths without a colon, different (path, offset, typo) triples give
      different fingerprint texts. */
  lemma FingerprintTextInjective(
    p1: string, o1: int, t1: string, p2: string, o2: int, t2: string)
    requires ':' !in p1 && ':' !in p2
    requires FingerprintText(p1, o1, t1) == FingerprintText(p2, o2, t2)
    ensures p1 == p2 && o1 == o2 && t1 == t2
  {
    var s1, s2 := IntToStr(o1), IntToStr(o2);
    IntToStrNoColon(o1);
    IntToStrNoColon(o2);
    var u1, u2 := s1 + ":" + (":" + t1), s2 + ":" + (":" + t2);
    FingerprintTextShape(p1, o1, t1);
    FingerprintTextShape(p2, o2, t2);
    DropPrefix("typos::", p1 + ":" + (":" + u1), p2 + ":" + (":" + u2));
    SplitAtColon(p1, ":" + u1, p2, ":" + u2);
    DropPrefix(":", u1, u2);
    SplitAtColon(s1, ":" + t1, s2, ":" + t2);
    DropPrefix(":", t1, t2);
    IntToStrInjective(o1, o2);
  }

  /** A path that contains `::` can make two different typos share a
      fingerprint text. */
  lemma FingerprintTextAmbiguous()
    ensures FingerprintText("a::1", 2, "x") == FingerprintText("a", 1, "2::x")
  {
    assert IntToStr(2) == "2" && IntToStr(1) == "1";
  }

  /** The required fields, read in the order the source reads them: `typo`,
      `corrections` and `path` in `parse_issue`, then `byte_offset` in
      `_make_fingerprint`; the first missing one raises `KeyError`. */
  function RequiredFields(rec: RawRecord): (r: Result<TypoIssue, ParseError>)
    ensures r.Ok? <==> rec.typo.Some? && rec.corrections.Some? && rec.path.Some? && rec.byteOffset.Some?
    ensures r.Ok? ==> r.value == TypoIssue(rec.byteOffset.value, rec.typo.value, rec.corrections.value, rec.lineNum, rec.path.value)
    ensures r.Err? ==> r.error == KeyError(
      if rec.typo.None? then "typo"
      else if rec.corrections.None? then "corrections"
      else if rec.path.None? then "path"
      else "byte_offset")
  {
    if rec.typo.None? then Err(KeyError("typo"))
    else if rec.corrections.None? then Err(KeyError("corrections"))
    else if rec.path.None? then Err(KeyError("path"))
    else if rec.byteOffset.None? then Err(KeyError("byte_offset"))
    else Ok(TypoIssue(rec.byteOffset.value, rec.typo.value, rec.corrections.value, rec.lineNum, rec.path.value))
  }

  /** `issue.get("line_num", 1)`. */
  function LineNum(issue: TypoIssue): int {
    if issue.lineNum.Some? then issue.lineNum.value else 1
  }

  /** The issue built from a complete typo record. */
  function ToGitlab(issue: TypoIssue, md5: Hasher): GitlabIssue {
    GitlabIssue(
      Description(issue.typo, issue.corrections),
      CheckName,
      MakeFingerprint(issue, md5),
      Minor,
      Location(issue.path, Lines(LineNum(issue))))
  }

  /** `parse_issue`: no issue for a line that is not JSON or not a typo record,
      an exception for undecodable bytes, a non-object, or a typo record that
      lacks a required field, and otherwise the converted issue. */
  function ParseIssue(d: Decoded, md5: Hasher): (r: Result<Option<GitlabIssue>, ParseError>)
    ensures r == Ok(None) <==> d.NotJson? || (d.Object? && d.record.kind != Some("typo"))
    ensures r.Err? <==>
      d.Undecodable? || d.NotObject? || (d.Object? && d.record.kind == Some("typo") && RequiredFields(d.record).Err?)
    ensures r.Err? ==>
              r.error == (if d.Undecodable? then UnicodeDecodeError
                          else if d.NotObject? then AttributeError
                          else RequiredFields(d.record).error)
  {
    match d
    case NotJson => Ok(None)
    case Undecodable => Err(UnicodeDecodeError)
    case NotObject => Err(AttributeError)
    case Object(rec) =>
      if rec.kind != Some("typo") then Ok(None)
      else
        match RequiredFields(rec)
        case Err(e) => Err(e)
        case Ok(issue) => Ok(Some(ToGitlab(issue, md5)))
  }

  /** Every produced issue has the fixed check name and severity, the path
      and line of the record (line 1 when absent), the description of its
      typo and corrections, and the hash of its fingerprint text. */
  lemma ParseIssueFields(d: Decoded, md5: Hasher)
    requires ParseIssue(d, md5).Ok? && ParseIssue(d, md5).value.Some?
    ensures d.Object? && d.record.kind == Some("typo")
    ensures d.record.typo.Some? && d.record.corrections.Some? && d.record.path.Some? && d.record.byteOffset.Some?
    ensures var issue := ParseIssue(d, md5).value.value;
      && issue.checkName == "typos" && issue.severity == Minor
      && issue.location.path == d.record.path.value
      && issue.location.lines.begin == (if d.record.lineNum.Some? then d.record.lineNum.value else 1)
      && issue.description == Description(d.record.typo.value, d.record.corrections.value)
      && issue.fingerprint
         == md5(FingerprintText(d.record.path.value, d.record.byteOffset.value, d.record.typo.value))
  {
  }

  /** `str(15)`. */
  lemma IntToStrFifteen()
    ensures IntToStr(15) == "15"
  {
    assert NatToStr(1) == ['1'];
    assert NatToStr(15) == NatToStr(1) + [DigitChar(5)];
  }

  /** The fingerprint text of the test case. */
  lemma FingerprintTextExample()
    ensures FingerprintText("./module.py", 15, "issu") == "typos::./module.py::15::issu"
  {
    IntToStrFifteen();
    assert "typos::" + "./module.py" + "::" + "15" + "::" + "issu" == "typos::./module.py::15::issu";
  }

  /** The description of the test case. */
  lemma DescriptionExample()
    ensures Description("issu", ["issue"]) == "typo: `issu` should be `issue`"
  {
    DescriptionSingle("issu", "issue");
    assert "typo: `" + "issu" + "` should be `" + "issue" + "`" == "typo: `issu` should be `issue`";
  }

  /** The record of the test case: `issu` at byte 15 of line 4 of
      `./module.py`, corrected to `issue`. */
  lemma ParseIssueExample(md5: Hasher)
    ensures var r := ParseIssue(Object(RawRecord(Some("typo"), Some("issu"), Some(["issue"]),
                                                 Some("./module.py"), Some(15), Some(4))), md5);
      && r.Ok? && r.value.Some?
      && r.value.value.description == "typo: `issu` should be `issue`"
      && r.value.value.checkName == "typos"
      && r.value.value.fingerprint == md5("typos::./module.py::15::issu")
      && r.value.value.severity == Minor
      && r.value.value.location == Location("./module.py", Lines(4))
  {
    var rec := RawRecord(Some("typo"), Some("issu"), Some(["issue"]), Some("./module.py"), Some(15), Some(4));
    var issue := TypoIssue(15, "issu", ["issue"], Some(4), "./module.py");
    assert ParseIssue(Object(rec), md5) == Ok(Some(ToGitlab(issue, md5)));
    assert MakeFingerprint(issue, md5) == md5("typos::./module.py::15::issu") by {
      FingerprintTextExample();
    }
    assert Description("issu", ["issue"]) == "typo: `issu` should be `issue`" by {
      DescriptionExample();
    }
  }

  /** The list of issues for one line's outcome. */
  function Kept(o: Option<GitlabIssue>): seq<GitlabIssue> {
    if o.Some? then [o.value] else []
  }

  /** `_parse_lines`: the issues of the lines in input order, skipping lines
      without one; the first line that raises makes the whole call raise. */
  function ParseLines(ds: seq<Decoded>, md5: Hasher): (r: Result<seq<GitlabIssue>, ParseError>)
    ensures r.Ok? <==> forall k :: 0 <= k < |ds| ==> ParseIssue(ds[k], md5).Ok?
    ensures r.Ok? ==> |r.value| <= |ds|
    decreases |ds|
  {
    if ds == [] then Ok([])
    else
      match ParseIssue(ds[0], md5)
      case Err(e) => Err(e)
      case Ok(o) =>
        match ParseLines(ds[1..], md5)
        case Err(e) => Err(e)
        case Ok(rest) => Ok(Kept(o) + rest)
  }

  /** The outcome of running one list of lines after another: the first
      exception, or both lists of issues in order. */
  function Then(x: Result<seq<GitlabIssue>, ParseError>, y: Result<seq<GitlabIssue>, ParseError>)
    : Result<seq<GitlabIssue>, ParseError>
  {
    if x.Err? then x else if y.Err? then y else Ok(x.value + y.value)
  }

  /** `_parse_lines` of a concatenation: the issues of the first part followed
      by those of the second, unless one of them raises, the first part's
      exception taking precedence. */
  lemma {:induction false} ParseLinesAppend(a: seq<Decoded>, b: seq<Decoded>, md5: Hasher)
    ensures ParseLines(a + b, md5) == Then(ParseLines(a, md5), ParseLines(b, md5))
    decreases |a|
  {
    if a == [] {
      assert a + b == b;
      if ParseLines(b, md5).Ok? {
        assert [] + ParseLines(b, md5).value == ParseLines(b, md5).value;
      }
    } else {
      assert (a + b)[0] == a[0];
      assert (a + b)[1..] == a[1..] + b;
      ParseLinesAppend(a[1..], b, md5);
      var ra, rb := ParseLines(a[1..], md5), ParseLines(b, md5);
      if ParseIssue(a[0], md5).Ok? && ra.Ok? && rb.Ok? {
        var x := Kept(ParseIssue(a[0], md5).value);
        assert x + (ra.value + rb.value) == (x + ra.value) + rb.value;
      }
    }
  }

  /** A single line gives its own outcome, as a list of at most one issue. */
  lemma ParseLinesSingle(d: Decoded, md5: Hasher)
    ensures ParseIssue(d, md5).Err? ==> ParseLines([d], md5) == Err(ParseIssue(d, md5).error)
    ensures ParseIssue(d, md5).Ok? ==> ParseLines([d], md5) == Ok(Kept(ParseIssue(d, md5).value))
  {
    assert [d][1..] == [];
    if ParseIssue(d, md5).Ok? {
      var x := Kept(ParseIssue(d, md5).value);
      assert x + [] == x;
    }
  }

  /** The exception raised is the one of the first line that raises. */
  lemma {:induction false} ParseLinesFirstError(ds: seq<Decoded>, md5: Hasher, k: nat)
    requires k < |ds| && ParseIssue(ds[k], md5).Err?
    requires forall j :: 0 <= j < k ==> ParseIssue(ds[j], md5).Ok?
    ensures ParseLines(ds, md5) == Err(ParseIssue(ds[k], md5).error)
    decreases k
  {
    if k > 0 {
      assert ds[1..][k - 1] == ds[k];
      ParseLinesFirstError(ds[1..], md5, k - 1);
    }
  }

  /** Every produced issue is the issue of some input line, and every line
      that has an issue contributes it. */
  lemma {:induction false} ParseLinesMembers(ds: seq<Decoded>, md5: Hasher)
    requires ParseLines(ds, md5).Ok?
    ensures forall x :: x in ParseLines(ds, md5).value ==>
      exists k :: 0 <= k < |ds| && ParseIssue(ds[k], md5) == Ok(Some(x))
    ensures forall k :: 0 <= k < |ds| && ParseIssue(ds[k], md5).Ok? && ParseIssue(ds[k], md5).value.Some? ==>
      ParseIssue(ds[k], md5).value.value in ParseLines(ds, md5).value
    decreases |ds|
  {
    if ds != [] {
      var tail := ds[1..];
      ParseLinesMembers(tail, md5);
      var rest := ParseLines(tail, md5).value;
      var head := Kept(ParseIssue(ds[0], md5).value);
      assert ParseLines(ds, md5).value == head + rest;
      forall x | x in head + rest
        ensures exists k :: 0 <= k < |ds| && ParseIssue(ds[k], md5) == Ok(Some(x))
      {
        if x in rest {
          var k :| 0 <= k < |tail| && ParseIssue(tail[k], md5) == Ok(Some(x));
          assert ds[k + 1] == tail[k];
        } else {
          assert ParseIssue(ds[0], md5) == Ok(Some(x));
        }
      }
      forall k | 0 <= k < |ds| && ParseIssue(ds[k], md5).Ok? && ParseIssue(ds[k], md5).value.Some?
        ensures ParseIssue(ds[k], md5).value.value in head + rest
      {
        if k > 0 {
          assert ds[k] == tail[k - 1];
        }
      }
    }
  }
}
