# typos-gitlab-code-quality, modelled in Dafny

The repository has two small tools, and this project models the core of each.

- **`scripts/release-notes.py`** reads a Markdown changelog and cuts out the section of one release.
  - The section starts at the first line beginning `## [<version>]`. It runs up to the next line beginning `## `, or to the end of the file.
  - Its heading is demoted to level one, and a `## Release Notes` sub-heading is spliced in after it.
  - The result is joined and stripped. When no line opens the section, the script raises `RuntimeError`.
  - When a compare-URL template is given, the script looks up the previous tag. It is the second tag `git` lists, newest first.
  - If that tag is non-empty, a `**Full Changelog:**` link line is appended. Its URL is the template with `{old}` and `{new}` filled in.
- **`src/typos_gitlab_code_quality/__init__.py`** turns the JSON-lines output of the `typos` spell checker into a GitLab Code Quality report.
  - Lines that are not JSON are skipped, and so are JSON objects whose `type` is not `"typo"`.
  - Every typo record becomes one issue with:
    - check name `typos` and severity `minor`;
    - the description ``typo: `<typo>` should be `<c1>`, `<c2>` ``;
    - the record's path, and its line with 1 as default;
    - the MD5 fingerprint of `typos::<path>::<byte_offset>::<typo>`.

The files:

- `wrappers.dfy`: `Option` and `Result`.
- `pytext.dfy`: the Python string built-ins both tools use.
  - `str.isspace`, with the exact set of Python 3 white-space characters.
  - `lstrip`, `rstrip` and `strip`, as index scans like CPython's.
  - `"".join`, `sep.join` and `str(int)`.
- `release_notes.dfy`: the extraction and the link line.
  - `_extract` is imperative in the source: it drives `dropwhile`/`takewhile`, appends, reassigns `lines[0]` and slice-inserts at `lines[1:1]`.
  - In the model it is the method `Extract`, built on the loop methods `SkipToStart` and `TakeToEnd`.
  - `Extract` is proved equal to the specification function `ExtractSpec`, and the properties are lemmas about `ExtractSpec`.
  - The script's `main` growing `text` with `+=` is the method `Notes`.
- `typos_code_quality.dfy`: the record shapes and the conversion functions.
  - The source is pure here, so the model is functions and lemmas.
  - JSON decoding happens outside the model: a line arrives as a `Decoded` value.
  - MD5 is a function-valued parameter, so every fingerprint statement is about the hashed text.

How the code fails and what it treats as absent:

- A missing version raises `RuntimeError` (`ExtractError.NoMatch`).
- `ParseIssue` models the exceptions that escape `parse_issue` as `Err`:
  - a record typed `"typo"` that lacks `typo`, `corrections`, `path` or `byte_offset` raises `KeyError`;
  - a JSON value that is not an object raises `AttributeError` (from `.get`);
  - bytes that `json.loads` cannot decode in the encoding it detects (UTF-8, UTF-16 or UTF-32) raise `UnicodeDecodeError`, which `except json.JSONDecodeError` does not catch.
- `if diff_url:` and `if prev_tag:` test truthiness, so an empty template or an empty previous tag counts as absent.

## Model

| member | source | states |
|---|---|---|
| PyText.IsSpace | scripts/release-notes.py:93-119 | the characters `str.isspace` accepts; what `strip` removes is stated by `StripInfix` and the `LStrip`/`RStrip` contracts |
| PyText.LStrip | scripts/release-notes.py:119 | `lstrip` removes exactly the leading run of white space: the result is a suffix, everything cut is white space, and the result does not start with white space |
| PyText.RStrip | scripts/release-notes.py:119 | `rstrip` removes exactly the trailing run of white space: the result is a prefix, everything cut is white space, and the result does not end with white space |
| PyText.Strip | scripts/release-notes.py:93-119 | the result has no white space at either end; with `StripInfix`, it is the infix between the leading and the trailing white-space runs |
| PyText.Concat | scripts/release-notes.py:119 | `"".join`; its properties are in `ConcatAppend` |
| PyText.JoinWith | src/typos_gitlab_code_quality/__init__.py:106 | `sep.join`; its properties are in `JoinWithSnoc` |
| PyText.StripInfix | scripts/release-notes.py:119 | `strip` keeps a contiguous infix of its argument and removes only white space before and after it; the result has no white space at either end |
| PyText.RStripAppend | scripts/release-notes.py:119 | `rstrip` of `a + b`, where `a` ends in a non-space, is `a` followed by `rstrip(b)` |
| PyText.StripNonSpace | scripts/release-notes.py:93 | a string with a non-space at both ends is unchanged by `strip` |
| PyText.ConcatAppend | scripts/release-notes.py:119 | `"".join` of a concatenated list is the concatenation of the joins |
| PyText.JoinWithSnoc | src/typos_gitlab_code_quality/__init__.py:106 | `sep.join` of a non-empty list with one more item appends the separator and that item |
| PyText.NatToStr | src/typos_gitlab_code_quality/__init__.py:122 | `str(n)` for `n >= 0` is non-empty decimal digits without leading zeros, and reading them back gives `n` |
| PyText.IntToStr | src/typos_gitlab_code_quality/__init__.py:122 | `str(n)` starts with `-` exactly when `n` is negative; after the optional sign come non-empty decimal digits without a leading zero (unless `n` is 0) that read back as the absolute value of `n` |
| PyText.IntToStrInjective | src/typos_gitlab_code_quality/__init__.py:122 | different integers print differently |
| ReleaseNotes.IsStart | scripts/release-notes.py:99-104 | the line begins with `"## [" + version + "]"`, the version compared character by character as `re.escape` makes it, never as a pattern |
| ReleaseNotes.IsEnd | scripts/release-notes.py:100-112 | the line begins with `"## "` |
| ReleaseNotes.ExtractError.Message | scripts/release-notes.py:108-110 | the `RuntimeError` carries the version, and its text is ``No match for version `<version>` `` |
| ReleaseNotes.FirstStart | scripts/release-notes.py:99-104 | the index found holds a line that begins `## [<version>]`, with the version taken literally, and no earlier line does; with no index found, no line does |
| ReleaseNotes.SectionEnd | scripts/release-notes.py:100-112 | the capture end is the first line at or after the start that begins `## `, or the end of the document; no line before it begins `## ` |
| ReleaseNotes.Headed | scripts/release-notes.py:116-117 | the first line loses exactly its first character; exactly `"\n"`, `"## Release Notes"`, `"\n"` follow it; the other lines keep their contents and order |
| ReleaseNotes.RenderShape | scripts/release-notes.py:116-119 | a section whose heading's second character is not white space renders as that heading without its first character, then `"\n## Release Notes"`, then the rest of the section with trailing white space removed |
| ReleaseNotes.ExtractSpec | scripts/release-notes.py:98-119 | extraction fails exactly when no line begins `## [<version>]`, and the failure names the version |
| ReleaseNotes.SkipToStart | scripts/release-notes.py:104 | the `dropwhile` loop stops at the earliest start line, or at the end of the document when there is none |
| ReleaseNotes.TakeToEnd | scripts/release-notes.py:112 | the `takewhile` loop returns exactly the lines from its start up to the next `## ` line, or to the end |
| ReleaseNotes.Extract | scripts/release-notes.py:98-119 | the imperative `_extract` returns exactly what `ExtractSpec` describes, error included |
| ReleaseNotes.SectionFound | scripts/release-notes.py:99-112 | any section that satisfies the description (earliest start line, no `## ` line inside, stopping line or end of input after it) is the one the search finds |
| ReleaseNotes.SectionExists | scripts/release-notes.py:104-112 | whenever some line opens the version's section, a section satisfying that description exists |
| ReleaseNotes.ExtractShape | scripts/release-notes.py:98-119 | the whole successful result: the start line without its first character, `"\n## Release Notes"`, then the captured lines after it, joined, with trailing white space removed |
| ReleaseNotes.ExtractStartsWithHeading | scripts/release-notes.py:114-119 | every successful result begins with `# [<version>]` |
| ReleaseNotes.DemotedHeading | scripts/release-notes.py:116 | dropping the first character of a start line leaves `# [<version>]` at its front |
| ReleaseNotes.ExtractSection | scripts/release-notes.py:98-119 | a found section extracts to its own rendered lines |
| ReleaseNotes.SectionAlone | scripts/release-notes.py:99-112 | a section cut out of the document is still the section of its version |
| ReleaseNotes.ExtractOnlySection | scripts/release-notes.py:104-112 | lines before the section, and the stopping line with everything after it, do not affect the result |
| ReleaseNotes.PreviousTag | scripts/release-notes.py:92-95 | there is a previous tag exactly when at least two tags are listed, and it is the second one, stripped |
| ReleaseNotes.Render | scripts/release-notes.py:116-119 | demote, insert, join and strip a captured section; its result is given by `RenderShape` |
| ReleaseNotes.FormatDiffUrl | scripts/release-notes.py:78 | `template.format(old=..., new=...)`; its properties are in `FormatDiffUrlLiteral`, `FormatDiffUrlPlain`, `FormatDiffUrlPlaceholders` and `FormatDiffUrlCompare` |
| ReleaseNotes.LinkLine | scripts/release-notes.py:79 | the f-string of the link line; `CompareLink` and `CompareLinkShape` state when and how it is appended |
| ReleaseNotes.FormatDiffUrlLiteral | scripts/release-notes.py:78 | formatting copies brace-free literal text through unchanged |
| ReleaseNotes.FormatDiffUrlPlain | scripts/release-notes.py:78 | a template without placeholders formats to itself |
| ReleaseNotes.FormatDiffUrlPlaceholders | scripts/release-notes.py:78 | `{old}` is replaced by the previous tag and `{new}` by the release tag |
| ReleaseNotes.FormatDiffUrlCompare | scripts/release-notes.py:78 | a template `<base>{old}<sep>{new}` formats to `<base><prev><sep><tag>` |
| ReleaseNotes.CompareLink | scripts/release-notes.py:75-79 | a link line is appended exactly when the template is non-empty and a non-empty previous tag exists, and it is `\n\n**Full Changelog:** [<prev>...<tag>](<url>)` |
| ReleaseNotes.CompareLinkShape | scripts/release-notes.py:75-95 | with a `<base>{old}<sep>{new}` template and a previous tag without surrounding white space, the appended line links `<prev>...<tag>` to `<base><prev><sep><tag>` |
| ReleaseNotes.Notes | scripts/release-notes.py:73-79 | the printed text is the extracted section followed by the link line, if any; when extraction fails nothing is produced and the error names the version |
| TyposCodeQuality.Description | src/typos_gitlab_code_quality/__init__.py:106 | the description f-string; its properties are in `DescriptionSingle`, `DescriptionSnoc` and `DescriptionExample` |
| TyposCodeQuality.FingerprintText | src/typos_gitlab_code_quality/__init__.py:122 | the text that gets hashed; its properties are in `FingerprintTextInjective`, `FingerprintTextAmbiguous` and `FingerprintTextExample` |
| TyposCodeQuality.MakeFingerprint | src/typos_gitlab_code_quality/__init__.py:117-127 | `_make_fingerprint`; its properties are in `FingerprintIgnoresRest` and `FingerprintTextInjective` |
| TyposCodeQuality.LineNum | src/typos_gitlab_code_quality/__init__.py:105 | `issue.get("line_num", 1)`; `ParseIssueFields` states the default of 1 |
| TyposCodeQuality.ToGitlab | src/typos_gitlab_code_quality/__init__.py:108-114 | the issue built from a complete record; `ParseIssueFields` states each of its fields |
| TyposCodeQuality.Kept | src/typos_gitlab_code_quality/__init__.py:90 | `filter(None, ...)` for one line; `ParseLinesSingle` and `ParseLinesMembers` state what it keeps |
| TyposCodeQuality.DescriptionSingle | src/typos_gitlab_code_quality/__init__.py:106 | with one correction the description is ``typo: `<typo>` should be `<c>` `` |
| TyposCodeQuality.DescriptionSnoc | src/typos_gitlab_code_quality/__init__.py:106 | each further correction adds `, ` and that correction in backticks at the end |
| TyposCodeQuality.DescriptionExample | tests/test_typos_gitlab_code_quality.py:12 | `issu` with `["issue"]` gives ``typo: `issu` should be `issue` `` |
| TyposCodeQuality.FingerprintIgnoresRest | src/typos_gitlab_code_quality/__init__.py:117-127 | the fingerprint depends only on path, byte offset and typo; corrections and line number do not change it |
| TyposCodeQuality.FingerprintTextInjective | src/typos_gitlab_code_quality/__init__.py:122 | for paths without a colon, different (path, byte offset, typo) triples give different fingerprint texts |
| TyposCodeQuality.FingerprintTextAmbiguous | src/typos_gitlab_code_quality/__init__.py:122 | a path containing `::` lets two different typos share a fingerprint text |
| TyposCodeQuality.FingerprintTextExample | tests/test_typos_gitlab_code_quality.py:8-15 | the test record's fingerprint text is `typos::./module.py::15::issu` |
| TyposCodeQuality.RequiredFields | src/typos_gitlab_code_quality/__init__.py:102-120 | a record converts exactly when `typo`, `corrections`, `path` and `byte_offset` are all present; otherwise the `KeyError` names the first missing one in the source's read order |
| TyposCodeQuality.ParseIssue | src/typos_gitlab_code_quality/__init__.py:93-114 | no issue exactly for non-JSON lines and for objects whose `type` is not `"typo"`; `UnicodeDecodeError` for undecodable bytes; `AttributeError` for non-objects; `KeyError` exactly when a required field is missing |
| TyposCodeQuality.ParseIssueFields | src/typos_gitlab_code_quality/__init__.py:105-114 | every produced issue has check name `typos`, severity `minor`, the record's path, its `line_num` or 1, the description of its typo and corrections, and the hash of `typos::<path>::<byte_offset>::<typo>` |
| TyposCodeQuality.ParseIssueExample | tests/test_typos_gitlab_code_quality.py:6-17 | the test record converts to the expected description, check name, severity, location, and the hash of its fingerprint text |
| TyposCodeQuality.ParseLines | src/typos_gitlab_code_quality/__init__.py:89-90 | the conversion succeeds exactly when no line raises, and never yields more issues than lines |
| TyposCodeQuality.ParseLinesAppend | src/typos_gitlab_code_quality/__init__.py:89-90 | on a concatenation of inputs: the first part's issues, then the second's, in input order; the first part's exception takes precedence |
| TyposCodeQuality.ParseLinesSingle | src/typos_gitlab_code_quality/__init__.py:89-90 | one line yields its own issue, nothing when it has none, or its exception |
| TyposCodeQuality.ParseLinesFirstError | src/typos_gitlab_code_quality/__init__.py:89-90 | the exception raised is that of the first line that raises |
| TyposCodeQuality.ParseLinesMembers | src/typos_gitlab_code_quality/__init__.py:89-90 | every output issue is the issue of some input line, and every line's issue is in the output |

## Left out

- Argument parsing, `print`, and the two `main` entry points, except the link logic of the release script. The file-existence check is left out too (`FileNotFoundError`).
- File and stream access. The changelog arrives as its lines, each keeping its terminator, as text-mode reading with universal newlines yields them. The typos input arrives as decoded lines.
- The `git tag --sort=-creatordate --merged` subprocess and its failure. `PreviousTag` takes the listed tags as strings.
- Decoding each tag from bytes. The UTF-8 decoding of tag bytes, and its failure, are not modelled.
- JSON decoding and encoding. `Decoded` stands for what `json.loads` returns.
  - A field whose value has an unexpected JSON type (a number for `typo`, `null` for `line_num`, and so on) is not represented.
  - A `type` that is present but not a string behaves like any string other than `"typo"`. Such a value can be written as `Some` of another string.
- MD5 itself. `Hasher` stands for `hashlib.md5(text.encode("utf-8")).hexdigest()`. The expected hex digest in the test cannot be checked; its input text can (`FingerprintTextExample`).
- Strings are sequences of Unicode scalar values. Lone surrogates, which Python strings can hold and UTF-8 encoding rejects, do not occur.
- FormatDiffUrl: models only the `{old}` and `{new}` placeholders. Other `str.format` syntax (`{{`, other field names, format specs) is not modelled: Python raises or interprets it, while the model copies a stray `{` or `}` through.
- TyposCodeQuality.RequiredFields: checks the four required keys one after another, before the description is built. In the source, `byte_offset` is read after the description. Building the description cannot fail for the modelled field types, so the outcome is the same.
- `_parse_lines` is lazy: on an exception, the lines after the failing one are never decoded. The model is a function over all lines and returns the first exception, which is what the caller sees.
- Identical input lines give identical issues, because `ParseIssue` is a function. No separate lemma states this.
