/** `parse_version_info`: from the text a binary prints for `--version` to the
    triple (version, hash, date), or to the first check that failed. */
module VersionParser {
  import opened Strings
  import opened Patterns

  /** The parsed triple. */
  datatype VersionInfo = VersionInfo(version: string, hash: string, date: string)

  /** The four `RuntimeError`s the parser raises, each with the text its
      message quotes: the whole output, or the line that did not match. */
  datatype ParseError =
    | Format(output: string)
    | Version(line: string)
    | Hash(line: string)
    | Date(line: string)

  datatype ParseResult = Ok(info: VersionInfo) | Err(error: ParseError)

  /** `output.strip().split('\n')`. */
  function Lines(output: string): (lines: seq<string>)
    ensures |lines| >= 1 && forall k :: 0 <= k < |lines| ==> '\n' !in lines[k]
  {
    Split(Strip(output), '\n')
  }

  /** The field pattern `p` extracts from `s` with `re.search(...).group(1)`: the
      group of its leftmost match. */
  ghost predicate Extracts(p: Pattern, s: string, g: string) {
    exists i: nat :: IsLeftmostMatch(p, s, i, g)
  }

  /** Strip and split the output, require two lines, then search line 1 for the
      version and the hash and line 2 for the date, failing at the first search
      that finds nothing. */
  function ParseVersionInfo(output: string): (r: ParseResult)
    ensures r == Err(Format(output)) <==> |Lines(output)| < 2
    ensures r.Err? && (r.error.Version? || r.error.Hash?) ==> r.error.line == Lines(output)[0]
    ensures r.Err? && r.error.Date? ==> r.error.line == Lines(output)[1]
    ensures r.Ok? ==>
      && Extracts(VersionPattern, Lines(output)[0], r.info.version)
      && Extracts(HashPattern, Lines(output)[0], r.info.hash)
      && Extracts(DatePattern, Lines(output)[1], r.info.date)
  {
    var lines := Lines(output);
    if |lines| < 2 then Err(Format(output)) else ParseLines(lines[0], lines[1])
  }

  /** The three searches, once the output is known to have two lines. */
  function ParseLines(line1: string, line2: string): (r: ParseResult)
    ensures !r.Err? || !r.error.Format?
    ensures r.Err? && (r.error.Version? || r.error.Hash?) ==> r.error.line == line1
    ensures r.Err? && r.error.Date? ==> r.error.line == line2
    ensures r.Ok? ==>
      && Extracts(VersionPattern, line1, r.info.version)
      && Extracts(HashPattern, line1, r.info.hash)
      && Extracts(DatePattern, line2, r.info.date)
  {
    match Search(VersionPattern, line1)
    case None => Err(Version(line1))
    case Some(v) =>
      match Search(HashPattern, line1)
      case None => Err(Hash(line1))
      case Some(h) =>
        match Search(DatePattern, line2)
        case None => Err(Date(line2))
        case Some(d) => Ok(VersionInfo(v.group, h.group, d.group))
  }

  /** The checks fail in a fixed order, line count, version, hash, date, and
      the error reported is the first one that fails; the parse succeeds
      exactly when none fails. */
  lemma ErrorPrecedence(output: string)
    ensures var r := ParseVersionInfo(output); var lines := Lines(output);
      && (r.Err? && r.error.Version? <==> |lines| >= 2 && !Found(VersionPattern, lines[0]))
      && (r.Err? && r.error.Hash? <==>
            |lines| >= 2 && Found(VersionPattern, lines[0]) && !Found(HashPattern, lines[0]))
      && (r.Err? && r.error.Date? <==>
            |lines| >= 2 && Found(VersionPattern, lines[0]) && Found(HashPattern, lines[0])
            && !Found(DatePattern, lines[1]))
      && (r.Ok? <==>
            |lines| >= 2 && Found(VersionPattern, lines[0]) && Found(HashPattern, lines[0])
            && Found(DatePattern, lines[1]))
  {
    var lines := Lines(output);
    if |lines| >= 2 {
      var sv := Search(VersionPattern, lines[0]);
      var sh := Search(HashPattern, lines[0]);
      var sd := Search(DatePattern, lines[1]);
      assert sv.None? <==> !Found(VersionPattern, lines[0]);
      assert sh.None? <==> !Found(HashPattern, lines[0]);
      assert sd.None? <==> !Found(DatePattern, lines[1]);
    }
  }

  /** `re.search(p, s).group(1)` is `g` exactly when `g` is the group of the
      leftmost match of `p` in `s`. */
  lemma SearchExtracts(p: Pattern, s: string, g: string)
    ensures Search(p, s).Some? && Search(p, s).value.group == g <==> Extracts(p, s, g)
  {
    var r := Search(p, s);
    if Extracts(p, s, g) {
      var i: nat :| IsLeftmostMatch(p, s, i, g);
      assert Found(p, s);
      LeftmostUnique(p, s, i, g, r.value.start, r.value.group);
    }
  }

  /** A successful parse is exactly the three leftmost extractions: the result
      is determined by the declarative meaning of the three patterns. */
  lemma ParseSuccessIff(output: string, v: string, h: string, d: string)
    ensures ParseVersionInfo(output) == Ok(VersionInfo(v, h, d)) <==>
      var lines := Lines(output);
      && |lines| >= 2
      && Extracts(VersionPattern, lines[0], v)
      && Extracts(HashPattern, lines[0], h)
      && Extracts(DatePattern, lines[1], d)
  {
    var lines := Lines(output);
    if |lines| >= 2 {
      ParseLinesIff(lines[0], lines[1], v, h, d);
    }
  }

  /** The three searches succeed with `v`, `h` and `d` exactly when those are
      the three leftmost extractions. */
  lemma ParseLinesIff(line1: string, line2: string, v: string, h: string, d: string)
    ensures ParseLines(line1, line2) == Ok(VersionInfo(v, h, d)) <==>
      && Extracts(VersionPattern, line1, v)
      && Extracts(HashPattern, line1, h)
      && Extracts(DatePattern, line2, d)
  {
    SearchExtracts(VersionPattern, line1, v);
    SearchExtracts(HashPattern, line1, h);
    SearchExtracts(DatePattern, line2, d);
  }

  /** What a successful parse promises about each field: the version is three
      digit runs joined by dots and follows `ITGmania` in line 1; the
      hash is a lowercase-hex run following `-git-` in line 1; the date
      is eight digits following `Compiled ` in line 2. */
  lemma ParsedFields(output: string)
    requires ParseVersionInfo(output).Ok?
    ensures var info := ParseVersionInfo(output).info; var lines := Lines(output);
      && IsVersionTriplet(info.version)
      && IsInfix("ITGmania" + info.version, lines[0])
      && IsRun(info.hash, LowerHex)
      && IsInfix("-git-" + info.hash, lines[0])
      && |info.date| == 8 && IsRun(info.date, Digit)
      && IsInfix("Compiled " + info.date, lines[1])
  {
    var info := ParseVersionInfo(output).info;
    var lines := Lines(output);
    ExtractedField(VersionPattern, lines[0], info.version);
    ExtractedField(HashPattern, lines[0], info.hash);
    ExtractedField(DatePattern, lines[1], info.date);
  }

  /** The group a pattern extracts has the pattern's form and follows the
      pattern's literal in the searched text. */
  lemma ExtractedField(p: Pattern, s: string, g: string)
    requires Extracts(p, s, g)
    ensures IsInfix(Literal(p) + g, s)
    ensures p == VersionPattern ==> IsVersionTriplet(g)
    ensures p == HashPattern ==> IsRun(g, LowerHex)
    ensures p == DatePattern ==> |g| == 8 && IsRun(g, Digit)
  {
    var i: nat :| IsLeftmostMatch(p, s, i, g);
    LiteralThenGroup(s, i, Literal(p), g);
  }

  /** `t` occurs somewhere in `s`. */
  ghost predicate IsInfix(t: string, s: string) {
    exists i: nat :: OccursAt(s, i, t)
  }

  lemma LiteralThenGroup(s: string, i: nat, t: string, g: string)
    requires OccursAt(s, i, t) && OccursAt(s, i + |t|, g)
    ensures OccursAt(s, i, t + g)
  {
    assert s[i..i + |t| + |g|] == s[i..i + |t|] + s[i + |t|..i + |t| + |g|];
  }

  /** Regrouping a four-part concatenation, proved apart so that the lemmas
      using it keep a small proof context. */
  lemma Regroup(x: string, y: string, z: string, w: string)
    ensures x + y + z + w == x + (y + z + w)
  {
  }

  /** Only the first two lines are consulted: outputs whose stripped text splits
      into the same first two lines parse to the same result, whatever follows. */
  lemma OnlyFirstTwoLinesMatter(a: string, b: string)
    requires |Lines(a)| >= 2 && |Lines(b)| >= 2
    requires Lines(a)[0] == Lines(b)[0] && Lines(a)[1] == Lines(b)[1]
    ensures ParseVersionInfo(a) == ParseVersionInfo(b)
  {
    assert ParseVersionInfo(a) == ParseLines(Lines(a)[0], Lines(a)[1]);
  }

  /** Two lines joined by a newline, with no whitespace at their outer ends,
      are split back into exactly those two lines whatever whitespace surrounds
      them; a `\r` before the newline stays part of the first line. */
  lemma TwoLines(pre: string, line1: string, line2: string, post: string)
    requires AllSpace(pre) && AllSpace(post)
    requires '\n' !in line1 && '\n' !in line2
    requires line1 != [] && !IsSpace(line1[0])
    requires line2 != [] && !IsSpace(line2[|line2| - 1])
    ensures Lines(pre + (line1 + "\n" + line2) + post) == [line1, line2]
  {
    var s := line1 + "\n" + line2;
    assert s[0] == line1[0] && s[|s| - 1] == line2[|line2| - 1];
    StripPadded(pre, s, post);
    SplitTwo(line1, line2, '\n');
  }

  /** Empty or whitespace-only output has one (empty) line and is a format error. */
  lemma BlankOutputIsFormatError(output: string)
    requires AllSpace(output)
    ensures ParseVersionInfo(output) == Err(Format(output))
  {
    StripAllSpace(output);
    assert Split("", '\n') == [""];
  }

  /** An output of the shape the parser's comments show, `ITGmania<version>-git-<hash>` then
      `Compiled <date>...` on the next line, parses to exactly those three fields,
      whatever whitespace surrounds it and whatever follows the date. */
  lemma DocumentedShapeParses(output: string, pre: string, v: string, h: string, tail1: string,
                              date: string, rest2: string, post: string)
    requires AllSpace(pre) && AllSpace(post)
    requires IsVersionTriplet(v) && IsRun(h, LowerHex) && |date| == 8 && IsRun(date, Digit)
    requires '\n' !in tail1 && (tail1 == [] || !InClass(tail1[0], LowerHex))
    requires '\n' !in rest2 && (rest2 == [] || !IsSpace(rest2[|rest2| - 1]))
    requires output == pre + (("ITGmania" + v + "-git-" + h + tail1) + "\n" + ("Compiled " + date + rest2)) + post
    ensures ParseVersionInfo(output) == Ok(VersionInfo(v, h, date))
  {
    var line1 := "ITGmania" + v + "-git-" + h + tail1;
    var line2 := "Compiled " + date + rest2;
    FirstLineFields(v, h, tail1);
    SecondLineDate(date, rest2);
    TwoLines(pre, line1, line2, post);
    ParseSuccessIff(output, v, h, date);
  }

  /** The first line of that shape: a single line whose version and
      hash are the given ones. */
  lemma FirstLineFields(v: string, h: string, tail1: string)
    requires IsVersionTriplet(v) && IsRun(h, LowerHex)
    requires '\n' !in tail1 && (tail1 == [] || !InClass(tail1[0], LowerHex))
    ensures var line1 := "ITGmania" + v + "-git-" + h + tail1;
      && '\n' !in line1 && !IsSpace(line1[0])
      && Extracts(VersionPattern, line1, v) && Extracts(HashPattern, line1, h)
  {
    FirstLineVersionGit(v, h, tail1);
    PrefixWithout(v, '-');
    FirstLineHash("ITGmania" + v, h, tail1);
    PrefixWithout(v, '\n');
    FirstLineSingle("ITGmania" + v, h, tail1);
  }

  /** `ITGmania` followed by a version triplet contains neither a dash nor a newline. */
  lemma PrefixWithout(v: string, c: char)
    requires IsVersionTriplet(v)
    requires c == '-' || c == '\n'
    ensures c !in "ITGmania" + v
  {
    TripletChars(v);
    var s := "ITGmania" + v;
    assert forall j :: 8 <= j < |s| ==> s[j] == v[j - 8];
    assert forall j :: 0 <= j < |s| ==> s[j] != c;
  }

  lemma HexRunWithout(h: string, c: char)
    requires IsRun(h, LowerHex) && c == '\n'
    ensures c !in h
  {
    assert forall j :: 0 <= j < |h| ==> h[j] != c;
  }

  /** With no dash before it, the first `-git-` starts the leftmost hash match. */
  lemma FirstLineHash(prefix: string, h: string, tail1: string)
    requires '-' !in prefix && IsRun(h, LowerHex)
    requires tail1 == [] || !InClass(tail1[0], LowerHex)
    ensures Extracts(HashPattern, prefix + "-git-" + h + tail1, h)
  {
    var line1 := prefix + "-git-" + h + tail1;
    HashMatchIn(prefix, h, tail1);
    assert forall j :: 0 <= j < |prefix| ==> line1[j] == prefix[j];
    NoMatchBefore(HashPattern, line1, |prefix|);
    assert IsLeftmostMatch(HashPattern, line1, |prefix|, h);
  }

  lemma FirstLineSingle(prefix: string, h: string, tail1: string)
    requires '\n' !in prefix && prefix != [] && !IsSpace(prefix[0])
    requires IsRun(h, LowerHex) && '\n' !in tail1
    ensures var line1 := prefix + "-git-" + h + tail1; '\n' !in line1 && !IsSpace(line1[0])
  {
    HexRunWithout(h, '\n');
  }

  /** A version triplet right after the first `ITGmania` is the leftmost
      version match, when what follows cannot extend its last run. */
  lemma FirstLineVersion(v: string, post: string)
    requires IsVersionTriplet(v) && (post == [] || !InClass(post[0], Digit))
    ensures Extracts(VersionPattern, "ITGmania" + v + post, v)
  {
    var s := "ITGmania" + v + post;
    assert s[..8] == "ITGmania";
    assert s[8..8 + |v|] == v;
    assert IsLeftmostMatch(VersionPattern, s, 0, v);
  }

  lemma FirstLineVersionGit(v: string, h: string, tail1: string)
    requires IsVersionTriplet(v)
    ensures Extracts(VersionPattern, "ITGmania" + v + "-git-" + h + tail1, v)
  {
    FirstLineVersion(v, "-git-" + h + tail1);
    Regroup("ITGmania" + v, "-git-", h, tail1);
  }

  /** A line without a dash has no hash match. */
  lemma NoDashNoHash(line: string)
    requires '-' !in line
    ensures !Found(HashPattern, line)
  {
    NoMatchBefore(HashPattern, line, |line|);
  }

  /** A first line with a version but without a dash after it fails on the
      hash, and the error quotes that line. */
  lemma NoGitIsHashError(output: string, pre: string, v: string, rest1: string,
                         line2: string, post: string)
    requires AllSpace(pre) && AllSpace(post)
    requires IsVersionTriplet(v) && '-' !in rest1 && '\n' !in rest1
    requires rest1 == [] || !InClass(rest1[0], Digit)
    requires '\n' !in line2 && line2 != [] && !IsSpace(line2[|line2| - 1])
    requires output == pre + (("ITGmania" + v + rest1) + "\n" + line2) + post
    ensures ParseVersionInfo(output) == Err(Hash("ITGmania" + v + rest1))
  {
    var line1 := "ITGmania" + v + rest1;
    FirstLineVersion(v, rest1);
    PrefixWithout(v, '-');
    PrefixWithout(v, '\n');
    assert '-' !in line1 && '\n' !in line1;
    NoDashNoHash(line1);
    TwoLines(pre, line1, line2, post);
    SearchExtracts(VersionPattern, line1, v);
    ErrorPrecedence(output);
  }

  lemma SecondLineDate(date: string, rest2: string)
    requires |date| == 8 && IsRun(date, Digit)
    requires '\n' !in rest2 && (rest2 == [] || !IsSpace(rest2[|rest2| - 1]))
    ensures var line2 := "Compiled " + date + rest2;
      && '\n' !in line2 && !IsSpace(line2[|line2| - 1])
      && Extracts(DatePattern, line2, date)
  {
    var line2 := "Compiled " + date + rest2;
    DateMatchIn("", date, rest2);
    assert "" + "Compiled " + date + rest2 == line2;
    assert IsLeftmostMatch(DatePattern, line2, 0, date);
    assert forall j :: 0 <= j < |line2| ==> line2[j] != '\n';
  }
}
