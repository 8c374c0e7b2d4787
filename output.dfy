/** The part of `main` after the binary has run: parse its output, then choose
    the one line to print from the mode token, or report the parse error. */
module OutputMode {
  import opened Strings
  import opened Patterns
  import opened VersionParser

  /** The mode tokens `main` recognises; any other token, the default `full`
      included, prints the version. */
  const MajorMinorOnly := "--major-minor-only"
  const HashOnly := "--hash-only"
  const DateOnly := "--date-only"
  const VersionHash := "--version-hash"
  const VersionHashDate := "--version-hash-date"
  const DefaultMode := "full"

  predicate IsKnownMode(mode: string) {
    mode in [MajorMinorOnly, HashOnly, DateOnly, VersionHash, VersionHashDate]
  }

  /** `'.'.join(version.split('.')[:2])`: the first two dot-separated
      components, or the whole version when it has fewer than two. */
  function MajorMinor(version: string): (r: string)
    ensures r <= version
    ensures var parts := Split(version, '.');
      Split(r, '.') == parts[..if |parts| < 2 then |parts| else 2]
  {
    var parts := Split(version, '.');
    var k := if |parts| < 2 then |parts| else 2;
    JoinSplit(version, '.');
    JoinPrefix(parts, k, '.');
    SplitJoin(parts[..k], '.');
    Join(parts[..k], '.')
  }

  /** A version of three or more components loses everything from its
      second dot on: the major-minor form is a strict prefix. */
  lemma MajorMinorStrict(version: string)
    requires |Split(version, '.')| >= 3
    ensures |MajorMinor(version)| < |version|
  {
    var parts := Split(version, '.');
    JoinSplit(version, '.');
    JoinPrefixStrict(parts, 2, '.');
  }

  /** The line `main` prints for `mode` once the output has parsed to `info`:
      the mode's fields, separated by single spaces. */
  function SelectOutput(mode: string, info: VersionInfo): (out: string)
    ensures out == Join(FieldsFor(mode, info), ' ')
  {
    if mode == MajorMinorOnly then MajorMinor(info.version)
    else if mode == HashOnly then info.hash
    else if mode == DateOnly then info.date
    else if mode == VersionHash then
      assert [info.version, info.hash][1..] == [info.hash];
      info.version + " " + info.hash
    else if mode == VersionHashDate then
      var fields := [info.version, info.hash, info.date];
      assert fields[1..] == [info.hash, info.date] && fields[1..][1..] == [info.date];
      assert Join(fields[1..], ' ') == info.hash + " " + info.date;
      info.version + " " + info.hash + " " + info.date
    else info.version
  }

  /** The fields a mode prints, in order: the reference against which the
      printed line is specified. */
  function FieldsFor(mode: string, info: VersionInfo): seq<string> {
    if mode == MajorMinorOnly then [MajorMinor(info.version)]
    else if mode == HashOnly then [info.hash]
    else if mode == DateOnly then [info.date]
    else if mode == VersionHash then [info.version, info.hash]
    else if mode == VersionHashDate then [info.version, info.hash, info.date]
    else [info.version]
  }

  /** No field of a parsed triple contains a space. */
  predicate SpaceFree(info: VersionInfo) {
    ' ' !in info.version && ' ' !in info.hash && ' ' !in info.date
  }

  /** For space-free fields the printed line splits on spaces back into the
      mode's fields. */
  lemma SelectOutputFields(mode: string, info: VersionInfo)
    requires SpaceFree(info)
    ensures Split(SelectOutput(mode, info), ' ') == FieldsFor(mode, info)
  {
    var fields := FieldsFor(mode, info);
    if mode == MajorMinorOnly {
      assert ' ' !in MajorMinor(info.version) by {
        assert forall c :: c in MajorMinor(info.version) ==> c in info.version;
      }
    }
    SplitJoin(fields, ' ');
  }

  /** An unrecognised mode token prints exactly what the default mode prints. */
  lemma UnknownModeIsDefault(mode: string, info: VersionInfo)
    requires !IsKnownMode(mode)
    ensures SelectOutput(mode, info) == SelectOutput(DefaultMode, info) == info.version
  {
  }

  /** A parsed triple has no space in any field: the version is digits and
      dots, the hash is hex, the date is digits. */
  lemma ParsedInfoSpaceFree(output: string)
    requires ParseVersionInfo(output).Ok?
    ensures SpaceFree(ParseVersionInfo(output).info)
  {
    var info := ParseVersionInfo(output).info;
    ParsedFields(output);
    TripletSpaceFree(info.version);
    CharRunSpaceFree(info.hash, LowerHex);
    CharRunSpaceFree(info.date, Digit);
  }

  lemma TripletSpaceFree(v: string)
    requires IsVersionTriplet(v)
    ensures ' ' !in v
  {
    TripletChars(v);
    assert forall j :: 0 <= j < |v| ==> v[j] != ' ';
  }

  lemma CharRunSpaceFree(d: string, k: CharClass)
    requires IsRun(d, k)
    ensures ' ' !in d
  {
    assert forall j :: 0 <= j < |d| ==> d[j] != ' ';
  }

  /** What `main` does with the binary's output: the line printed on
      standard output, or the error reported on standard error. */
  datatype Outcome = Printed(line: string) | Failed(error: ParseError)

  /** Parse, then select: the script prints a line exactly when the output has
      two lines and all three patterns are found, and the printed line splits
      on spaces into the fields of the parsed triple the mode asks for; it
      fails with the parse error otherwise, whatever the mode. */
  function Run(output: string, mode: string): (o: Outcome)
    ensures var lines := Lines(output);
      o.Printed? <==>
        && |lines| >= 2
        && Found(VersionPattern, lines[0]) && Found(HashPattern, lines[0])
        && Found(DatePattern, lines[1])
    ensures o.Failed? ==> o.error == ParseVersionInfo(output).error
    ensures o.Printed? ==> Split(o.line, ' ') == FieldsFor(mode, ParseVersionInfo(output).info)
  {
    ErrorPrecedence(output);
    match ParseVersionInfo(output)
    case Ok(info) =>
      ParsedInfoSpaceFree(output);
      SelectOutputFields(mode, info);
      Printed(SelectOutput(mode, info))
    case Err(e) => Failed(e)
  }

  /** End to end: when the two lines yield the leftmost extractions `v`, `h`
      and `d`, the script prints one line, and splitting it on spaces gives the
      mode's selection of exactly those three fields. */
  lemma RunPrintsExtractions(output: string, mode: string, v: string, h: string, d: string)
    requires |Lines(output)| >= 2
    requires Extracts(VersionPattern, Lines(output)[0], v)
    requires Extracts(HashPattern, Lines(output)[0], h)
    requires Extracts(DatePattern, Lines(output)[1], d)
    ensures Run(output, mode).Printed?
    ensures Split(Run(output, mode).line, ' ') == FieldsFor(mode, VersionInfo(v, h, d))
  {
    ParseSuccessIff(output, v, h, d);
  }

  /** The text an error's message quotes: the whole output for a format
      error, the offending line otherwise. */
  function Quoted(e: ParseError): string {
    match e
    case Format(output) => output
    case Version(line) => line
    case Hash(line) => line
    case Date(line) => line
  }

  /** The message `main` writes to standard error for a parse error: `Error: `,
      a sentence naming the check that failed, then the quoted text. */
  function ErrorMessage(e: ParseError): (m: string)
    ensures |m| >= 7 + |Quoted(e)| && m[..7] == "Error: "
    ensures m[|m| - |Quoted(e)|..] == Quoted(e)
  {
    var sentence :=
      match e
      case Format(_) => "Unexpected version output format: "
      case Version(_) => "Could not parse version from output: "
      case Hash(_) => "Could not parse hash from output: "
      case Date(_) => "Could not parse date from output: ";
    var m := "Error: " + sentence + Quoted(e);
    assert m[..7] == "Error: ";
    assert m[|m| - |Quoted(e)|..] == Quoted(e);
    m
  }

  /** Distinct parse errors give distinct messages: the sentence names the
      check that failed, and the quoted text follows it. */
  lemma ErrorMessageInjective(e1: ParseError, e2: ParseError)
    requires ErrorMessage(e1) == ErrorMessage(e2)
    ensures e1 == e2
  {
    var m := ErrorMessage(e1);
    MessageNamesCheck(e1);
    MessageNamesCheck(e2);
    assert Quoted(e1) == m[|m| - |Quoted(e1)|..];
    assert Quoted(e2) == m[|m| - |Quoted(e2)|..];
  }

  /** The letters of the message that tell the four checks apart: `U` for the
      format check and `C` for the others at position 7, and for the others
      `v`, `h` or `d` at position 23, the start of the field's name. The
      length of the message is the sentence's length plus the quoted text's. */
  lemma MessageNamesCheck(e: ParseError)
    ensures var m := ErrorMessage(e);
      && |m| > 23
      && m[7] == (if e.Format? then 'U' else 'C')
      && (!e.Format? ==> m[23] == (if e.Version? then 'v' else if e.Hash? then 'h' else 'd'))
      && |m| == |Quoted(e)| + (if e.Version? then 44 else 41)
  {
  }
}
