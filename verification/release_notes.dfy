/**
 * The release-notes script: cut the section of one version out of a changelog
 * (a sequence of lines, each keeping its line terminator), turn its heading
 * into a level-one heading, add a "Release Notes" sub-heading, and optionally
 * append a "Full Changelog" link comparing the previous tag with this one.
 */
module ReleaseNotes {
  import opened Wrappers
  import opened PyText

  /** The sub-heading inserted after the section's first line. */
  const ReleaseNotesHeading: string := "## Release Notes"

  /** The three list items spliced in after the first captured line. */
  const Inserted: seq<string> := ["\n", ReleaseNotesHeading, "\n"]

  /** The text that opens the section of `version`; the version is compared
      literally, never as a pattern. */
  function StartHeading(version: string): string {
    "## [" + version + "]"
  }

  /** The start pattern `^## \[<escaped version>\]`. */
  predicate IsStart(line: string, version: string) {
    StartHeading(version) <= line
  }

  /** The end pattern `^## `: any level-two heading. */
  predicate IsEnd(line: string) {
    "## " <= line
  }

  /** The `RuntimeError` raised when no line opens the version's section. */
  datatype ExtractError = NoMatch(version: string) {
    function Message(): string {
      "No match for version `" + version + "`"
    }
  }

  /** The index of the earliest line at or after `from` that opens the
      section of `version`, if there is one. */
  function FirstStart(doc: seq<string>, version: string, from: nat): (r: Option<nat>)
    requires from <= |doc|
    ensures r.Some? ==> from <= r.value < |doc| && IsStart(doc[r.value], version)
    ensures r.Some? ==> forall k :: from <= k < r.value ==> !IsStart(doc[k], version)
    ensures r.None? ==> forall k :: from <= k < |doc| ==> !IsStart(doc[k], version)
    decreases |doc| - from
  {
    if from == |doc| then None
    else if IsStart(doc[from], version) then Some(from)
    else FirstStart(doc, version, from + 1)
  }

  /** The index of the earliest level-two heading at or after `from`, or the
      length of the document when there is none. */
  function SectionEnd(doc: seq<string>, from: nat): (e: nat)
    requires from <= |doc|
    ensures from <= e <= |doc|
    ensures forall k :: from <= k < e ==> !IsEnd(doc[k])
    ensures e < |doc| ==> IsEnd(doc[e])
    decreases |doc| - from
  {
    if from == |doc| || IsEnd(doc[from]) then from else SectionEnd(doc, from + 1)
  }

  /** `doc[i..e]` is the section of `version`: line `i` is the first line that
      opens it, and it runs up to the next level-two heading after line `i`, or
      to the end of the document. */
  ghost predicate IsSection(doc: seq<string>, version: string, i: nat, e: nat) {
    && i < e <= |doc|
    && IsStart(doc[i], version)
    && (forall k :: 0 <= k < i ==> !IsStart(doc[k], version))
    && (forall k :: i < k < e ==> !IsEnd(doc[k]))
    && (e < |doc| ==> IsEnd(doc[e]))
  }

  /** Demote the first line by dropping its first character and splice the
      release-notes sub-heading in right after it. */
  function Headed(section: seq<string>): (r: seq<string>)
    requires |section| > 0 && |section[0]| > 0
    ensures |r| == |section| + 3
    ensures [section[0][0]] + r[0] == section[0]
    ensures r[1..4] == Inserted && r[4..] == section[1..]
  {
    [section[0][1..]] + Inserted + section[1..]
  }

  /** The text made of a captured section: demote and insert, join, strip. */
  function Render(section: seq<string>): string
    requires |section| > 0 && |section[0]| > 0
  {
    Strip(Concat(Headed(section)))
  }

  /** The rendered text of a section whose first line is a heading: that line
      without its first character, a line break and the release-notes
      sub-heading, then the rest of the section with trailing white space
      removed. */
  lemma RenderShape(section: seq<string>)
    requires |section| > 0 && |section[0]| > 1 && !IsSpace(section[0][1])
    ensures Render(section)
         == section[0][1..] + "\n" + ReleaseNotesHeading + RStrip("\n" + Concat(section[1..]))
  {
    var first := section[0][1..];
    var rest := section[1..];
    var a := first + "\n" + ReleaseNotesHeading;
    var b := "\n" + Concat(rest);
    assert Concat(Headed(section)) == a + b by {
      assert Headed(section) == [first] + ["\n", ReleaseNotesHeading] + (["\n"] + rest);
      ConcatAppend([first] + ["\n", ReleaseNotesHeading], ["\n"] + rest);
      ConcatAppend([first], ["\n", ReleaseNotesHeading]);
      assert ["\n", ReleaseNotesHeading][1..] == [ReleaseNotesHeading];
      assert [ReleaseNotesHeading][1..] == [];
      assert [first][1..] == [];
      assert (["\n"] + rest)[1..] == rest;
    }
    assert (a + b)[0] == section[0][1];
    assert a[|a| - 1] == ReleaseNotesHeading[|ReleaseNotesHeading| - 1];
    calc {
      Render(section);
      Strip(a + b);
      { LStripNonSpace(a + b); }
      RStrip(a + b);
      { RStripAppend(a, b); }
      a + RStrip(b);
    }
  }

  /** What `_extract` returns or raises for a changelog read as `doc`. */
  function ExtractSpec(doc: seq<string>, version: string): (r: Result<string, ExtractError>)
    ensures r.Err? <==> forall k :: 0 <= k < |doc| ==> !IsStart(doc[k], version)
    ensures r.Err? ==> r.error == NoMatch(version)
  {
    match FirstStart(doc, version, 0)
    case None => Err(NoMatch(version))
    case Some(i) =>
      Ok(Render(doc[i..SectionEnd(doc, i + 1)]))
  }

  /** `dropwhile(not start, lines)`: the index of the first line that opens
      the section of `version`, or the length of the document. */
  method SkipToStart(doc: seq<string>, version: string) returns (i: nat)
    ensures i <= |doc|
    ensures FirstStart(doc, version, 0) == if i < |doc| then Some(i) else None
  {
    i := 0;
    while i < |doc| && !IsStart(doc[i], version)
      invariant i <= |doc|
      invariant FirstStart(doc, version, i) == FirstStart(doc, version, 0)
    {
      i := i + 1;
    }
  }

  /** `takewhile(not end, lines)`: the lines from `from` up to the next
      level-two heading or the end of the document. */
  method TakeToEnd(doc: seq<string>, from: nat) returns (taken: seq<string>)
    requires from <= |doc|
    ensures taken == doc[from..SectionEnd(doc, from)]
  {
    taken := [];
    var j := from;
    while j < |doc| && !IsEnd(doc[j])
      invariant from <= j <= |doc|
      invariant taken == doc[from..j]
      invariant SectionEnd(doc, j) == SectionEnd(doc, from)
    {
      assert doc[from..j + 1] == doc[from..j] + [doc[j]];
      taken := taken + [doc[j]];
      j := j + 1;
    }
  }

  /** `_extract`: skip to the first start line, capture it and the lines
      after it up to the next level-two heading, demote, insert, join, strip. */
  method Extract(doc: seq<string>, version: string) returns (r: Result<string, ExtractError>)
    ensures r == ExtractSpec(doc, version)
  {
    var i := SkipToStart(doc, version);
    if i == |doc| {
      return Err(NoMatch(version));
    }
    var lines := [doc[i]];
    var rest := TakeToEnd(doc, i + 1);
    lines := lines + rest;
    ghost var section := lines;
    assert section == doc[i..SectionEnd(doc, i + 1)];
    lines := lines[0 := lines[0][1..]];
    lines := lines[..1] + Inserted + lines[1..];
    assert lines == Headed(section);
    r := Ok(Strip(Concat(lines)));
  }

  /** The first captured line and the end of the capture are the ones the
      search functions find, and they are the only ones that qualify. */
  lemma {:induction false} SectionFound(doc: seq<string>, version: string, i: nat, e: nat)
    requires IsSection(doc, version, i, e)
    ensures FirstStart(doc, version, 0) == Some(i)
    ensures SectionEnd(doc, i + 1) == e
  {
    var f := FirstStart(doc, version, 0);
    var g := SectionEnd(doc, i + 1);
  }

  /** Whenever some line opens the section, the section exists. */
  lemma SectionExists(doc: seq<string>, version: string, k: nat)
    requires k < |doc| && IsStart(doc[k], version)
    ensures var i := FirstStart(doc, version, 0).value;
            IsSection(doc, version, i, SectionEnd(doc, i + 1))
  {
  }

  /** The whole result of a successful extraction: the section's first line
      without its first character, a line break and the release-notes
      sub-heading, then the rest of the section with trailing white space
      removed. */
  lemma ExtractShape(doc: seq<string>, version: string, i: nat, e: nat)
    requires IsSection(doc, version, i, e)
    ensures ExtractSpec(doc, version)
         == Ok(doc[i][1..] + "\n" + ReleaseNotesHeading + RStrip("\n" + Concat(doc[i + 1..e])))
  {
    SectionFound(doc, version, i, e);
    var section := doc[i..e];
    assert section[0] == doc[i] && section[1..] == doc[i + 1..e];
    assert StartHeading(version)[1] == '#';
    RenderShape(section);
  }

  /** A successful result starts with the demoted heading `# [<version>]`. */
  lemma ExtractStartsWithHeading(doc: seq<string>, version: string)
    requires ExtractSpec(doc, version).Ok?
    ensures "# [" + version + "]" <= ExtractSpec(doc, version).value
  {
    var i := FirstStart(doc, version, 0).value;
    var e := SectionEnd(doc, i + 1);
    ExtractShape(doc, version, i, e);
    DemotedHeading(doc[i], version, "\n" + ReleaseNotesHeading + RStrip("\n" + Concat(doc[i + 1..e])));
  }

  /** Dropping the first character of a start line leaves `# [<version>]` at
      its front, whatever is appended to it. */
  lemma DemotedHeading(line: string, version: string, rest: string)
    requires IsStart(line, version)
    ensures "# [" + version + "]" <= line[1..] + rest
  {
    var h := "# [" + version + "]";
    assert StartHeading(version)[1..] == h;
    assert (line[1..] + rest)[..|h|] == line[1..][..|h|] == h;
  }

  /** The result depends only on the section's own lines: the lines before it
      and the level-two heading that ends it, with everything after, can be
      dropped. */
  lemma ExtractOnlySection(doc: seq<string>, version: string, i: nat, e: nat)
    requires IsSection(doc, version, i, e)
    ensures ExtractSpec(doc, version) == ExtractSpec(doc[i..e], version)
  {
    var sec := doc[i..e];
    ExtractSection(doc, version, i, e);
    SectionAlone(doc, version, i, e);
    ExtractSection(sec, version, 0, e - i);
    assert sec[0..e - i] == sec;
  }

  /** A found section is extracted as its rendered lines. */
  lemma ExtractSection(doc: seq<string>, version: string, i: nat, e: nat)
    requires IsSection(doc, version, i, e)
    ensures ExtractSpec(doc, version) == Ok(Render(doc[i..e]))
  {
    SectionFound(doc, version, i, e);
  }

  /** A section, cut out on its own, is still the section of its version. */
  lemma SectionAlone(doc: seq<string>, version: string, i: nat, e: nat)
    requires IsSection(doc, version, i, e)
    ensures IsSection(doc[i..e], version, 0, e - i)
  {
    var sec := doc[i..e];
    forall k | 0 < k < e - i
      ensures !IsEnd(sec[k])
    {
      assert sec[k] == doc[i + k];
    }
  }

  /** `_get_previous_tag`: given the tags reachable from the release tag,
      newest first, the previous tag is the second one, stripped; with fewer
      than two tags there is none. */
  function PreviousTag(tags: seq<string>): (r: Option<string>)
    ensures r.Some? <==> |tags| > 1
    ensures r.Some? ==> r.value == Strip(tags[1])
  {
    if |tags| > 1 then Some(Strip(tags[1])) else None
  }

  /** `template.format(old=oldTag, new=newTag)` for a template whose only braces are
      the `{old}` and `{new}` placeholders. */
  function FormatDiffUrl(template: string, oldTag: string, newTag: string): string
    decreases |template|
  {
    if |template| == 0 then ""
    else if template[0] == '{' && "{old}" <= template then
      oldTag + FormatDiffUrl(template[5..], oldTag, newTag)
    else if template[0] == '{' && "{new}" <= template then
      newTag + FormatDiffUrl(template[5..], oldTag, newTag)
    else [template[0]] + FormatDiffUrl(template[1..], oldTag, newTag)
  }

  /** Literal text without braces is copied through unchanged, whatever
      follows it. */
  lemma {:induction false} FormatDiffUrlLiteral(a: string, t: string, oldTag: string, newTag: string)
    requires '{' !in a
    ensures FormatDiffUrl(a + t, oldTag, newTag) == a + FormatDiffUrl(t, oldTag, newTag)
    decreases |a|
  {
    if a == [] {
      assert a + t == t;
    } else {
      var s := a + t;
      assert s[0] == a[0] != '{';
      assert s[1..] == a[1..] + t;
      var rest := FormatDiffUrl(t, oldTag, newTag);
      assert FormatDiffUrl(s, oldTag, newTag) == [a[0]] + FormatDiffUrl(s[1..], oldTag, newTag);
      FormatDiffUrlLiteral(a[1..], t, oldTag, newTag);
      assert [a[0]] + (a[1..] + rest) == a + rest;
    }
  }

  /** A template without placeholders is the URL itself. */
  lemma FormatDiffUrlPlain(template: string, oldTag: string, newTag: string)
    requires '{' !in template
    ensures FormatDiffUrl(template, oldTag, newTag) == template
  {
    FormatDiffUrlLiteral(template, "", oldTag, newTag);
    assert template + "" == template;
  }

  /** Each placeholder is replaced by its value, and the rest of the template
      is formatted after it. */
  lemma FormatDiffUrlPlaceholders(b: string, oldTag: string, newTag: string)
    ensures FormatDiffUrl("{old}" + b, oldTag, newTag) == oldTag + FormatDiffUrl(b, oldTag, newTag)
    ensures FormatDiffUrl("{new}" + b, oldTag, newTag) == newTag + FormatDiffUrl(b, oldTag, newTag)
  {
    assert ("{old}" + b)[5..] == b;
    assert ("{new}" + b)[5..] == b;
    assert !("{old}" <= "{new}" + b) by {
      assert ("{new}" + b)[1] == 'n' != 'o';
    }
  }

  /** The link line appended to the release notes. */
  function LinkLine(prev: string, tag: string, url: string): string {
    "\n\n**Full Changelog:** [" + prev + "..." + tag + "](" + url + ")"
  }

  /** What `main` appends to the extracted text: a link line when a non-empty
      URL template is given and a non-empty previous tag exists, else nothing. */
  function CompareLink(tag: string, diffUrl: Option<string>, tags: seq<string>): (r: string)
    ensures r != [] <==> diffUrl.Some? && diffUrl.value != [] && |tags| > 1 && Strip(tags[1]) != []
    ensures r != [] ==>
      r == LinkLine(Strip(tags[1]), tag, FormatDiffUrl(diffUrl.value, Strip(tags[1]), tag))
  {
    if diffUrl.Some? && diffUrl.value != [] then
      match PreviousTag(tags)
      case Some(prev) =>
        if prev != [] then LinkLine(prev, tag, FormatDiffUrl(diffUrl.value, prev, tag)) else ""
      case None => ""
    else ""
  }

  /** The text `main` prints: the extracted section, followed by the compare
      link when there is one; extraction failures propagate. */
  method Notes(doc: seq<string>, tag: string, diffUrl: Option<string>, tags: seq<string>)
    returns (r: Result<string, ExtractError>)
    ensures r.Err? <==> ExtractSpec(doc, tag).Err?
    ensures r.Err? ==> r.error == NoMatch(tag)
    ensures r.Ok? ==> r.value == ExtractSpec(doc, tag).value + CompareLink(tag, diffUrl, tags)
  {
    r := Extract(doc, tag);
    if r.Err? {
      return;
    }
    var text := r.value;
    if diffUrl.Some? && diffUrl.value != [] {
      var prev := PreviousTag(tags);
      if prev.Some? && prev.value != [] {
        var url := FormatDiffUrl(diffUrl.value, prev.value, tag);
        text := text + LinkLine(prev.value, tag, url);
      }
    }
    r := Ok(text);
  }

  /** A template of the shape `<base>{old}<sep>{new}` formats to
      `<base><old><sep><new>`. */
  lemma FormatDiffUrlCompare(base: string, sep: string, oldTag: string, newTag: string)
    requires '{' !in base && '{' !in sep
    ensures FormatDiffUrl(base + ("{old}" + (sep + "{new}")), oldTag, newTag)
         == base + (oldTag + (sep + newTag))
  {
    calc {
      FormatDiffUrl(base + ("{old}" + (sep + "{new}")), oldTag, newTag);
    == { FormatDiffUrlLiteral(base, "{old}" + (sep + "{new}"), oldTag, newTag); }
      base + FormatDiffUrl("{old}" + (sep + "{new}"), oldTag, newTag);
    == { FormatDiffUrlPlaceholders(sep + "{new}", oldTag, newTag); }
      base + (oldTag + FormatDiffUrl(sep + "{new}", oldTag, newTag));
    == { FormatDiffUrlLiteral(sep, "{new}", oldTag, newTag); }
      base + (oldTag + (sep + FormatDiffUrl("{new}", oldTag, newTag)));
    == { FormatDiffUrlPlaceholders("", oldTag, newTag); assert "{new}" + "" == "{new}"; }
      base + (oldTag + (sep + newTag));
    }
  }

  /** With such a template and a previous tag without surrounding white space,
      the appended line links `prev...tag` to `<base><prev><sep><tag>`. */
  lemma CompareLinkShape(base: string, sep: string, tag: string, tags: seq<string>)
    requires '{' !in base && '{' !in sep
    requires |tags| > 1 && |tags[1]| > 0
    requires !IsSpace(tags[1][0]) && !IsSpace(tags[1][|tags[1]| - 1])
    ensures CompareLink(tag, Some(base + ("{old}" + (sep + "{new}"))), tags)
         == LinkLine(tags[1], tag, base + (tags[1] + (sep + tag)))
  {
    StripNonSpace(tags[1]);
    assert PreviousTag(tags) == Some(tags[1]);
    FormatDiffUrlCompare(base, sep, tags[1], tag);
  }
}
