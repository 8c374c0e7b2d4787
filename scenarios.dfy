/** The example output shown in the parser's comments, and the edge
    cases of its three patterns. */
module Scenarios {
  import opened Strings
  import opened Patterns
  import opened VersionParser
  import opened OutputMode

  const SampleVersion := "1.0.2"
  const SampleHash := "427484d100"
  const SampleDate := "20250624"
  /** What follows the date on the sample's second line. */
  const BuildTime := " @ 00:32:41"
  const Line1 := "ITGmania" + SampleVersion + "-git-" + SampleHash
  const Line2 := "Compiled " + SampleDate + BuildTime
  const Sample := Line1 + "\n" + Line2
  const SampleInfo := VersionInfo(SampleVersion, SampleHash, SampleDate)

  /** The sample strips to itself and splits into its two lines. */
  lemma SampleLines()
    ensures Lines(Sample) == [Line1, Line2]
  {
    TwoLines("", Line1, Line2, "");
    assert "" + Sample + "" == Sample;
  }

  lemma VersionOneZeroTwo()
    ensures IsVersionTriplet("1.0.2") && Split("1.0.2", '.') == ["1", "0", "2"]
  {
    TripletParts("1", "0", "2");
    assert "1" + "." + "0" + "." + "2" == "1.0.2";
  }

  /** The fields of the sample have the forms the three patterns capture. */
  lemma SampleFieldForms()
    ensures IsVersionTriplet(SampleVersion)
    ensures IsRun(SampleHash, LowerHex)
    ensures |SampleDate| == 8 && IsRun(SampleDate, Digit)
  {
    VersionOneZeroTwo();
  }

  lemma BuildTimeTail()
    ensures '\n' !in BuildTime && !IsSpace(BuildTime[|BuildTime| - 1])
  {
  }

  /** The example output parses to ("1.0.2", "427484d100", "20250624"). */
  lemma SampleParses(output: string)
    requires output == Sample
    ensures ParseVersionInfo(output) == Ok(SampleInfo)
  {
    SampleFieldForms();
    BuildTimeTail();
    assert Line1 + "" == Line1;
    DocumentedShapeParses(output, "", SampleVersion, SampleHash, "", SampleDate, BuildTime, "");
  }

  /** Windows line endings: the split is on `\n` only, so the first line keeps
      its `\r`, which ends the hash run; the final `\r\n` is stripped, and the
      result is the same as with `\n` line endings. */
  lemma CrLfSampleParses(output: string)
    requires output == Line1 + "\r" + "\n" + Line2 + "\r\n"
    ensures ParseVersionInfo(output) == Ok(SampleInfo)
  {
    SampleFieldForms();
    BuildTimeTail();
    DocumentedShapeParses(output, "", SampleVersion, SampleHash, "\r", SampleDate, BuildTime, "\r\n");
  }

  /** On the sample, every mode prints what it selects from the parsed triple. */
  lemma SampleRun(mode: string)
    ensures Run(Sample, mode) == Printed(SelectOutput(mode, SampleInfo))
  {
    SampleParses(Sample);
  }

  /** `1.0` from `1.0.2`. */
  lemma SampleMajorMinor()
    ensures MajorMinor("1.0.2") == "1.0"
  {
    VersionOneZeroTwo();
    var mm := MajorMinor("1.0.2");
    assert Split(mm, '.') == ["1", "0"];
    JoinSplit(mm, '.');
    assert ["1", "0"][1..] == ["0"];
    assert mm == "1" + "." + "0";
  }

  /** `--major-minor-only` on the sample prints `1.0`. */
  lemma SampleMajorMinorOutput()
    ensures SelectOutput(MajorMinorOnly, SampleInfo) == "1.0"
  {
    SampleMajorMinor();
  }

  /** What every other mode prints on the sample, an unrecognised token included. */
  lemma SampleOutputs()
    ensures SelectOutput(DefaultMode, SampleInfo) == "1.0.2"
    ensures SelectOutput("--no-such-mode", SampleInfo) == "1.0.2"
    ensures SelectOutput(HashOnly, SampleInfo) == "427484d100"
    ensures SelectOutput(DateOnly, SampleInfo) == "20250624"
    ensures SelectOutput(VersionHash, SampleInfo) == "1.0.2 427484d100"
    ensures SelectOutput(VersionHashDate, SampleInfo) == "1.0.2 427484d100 20250624"
  {
  }

  /** A fourth component is not part of the version: the last `[0-9]+` stops
      at the dot, which is not a digit. */
  lemma FourComponents()
    ensures Extracts(VersionPattern, "ITGmania1.0.2.5", "1.0.2")
  {
    VersionOneZeroTwo();
    assert MatchesAt(VersionPattern, "ITGmania1.0.2.5", 0, "1.0.2");
    assert IsLeftmostMatch(VersionPattern, "ITGmania1.0.2.5", 0, "1.0.2");
  }

  /** Upper-case hex ends the hash run. */
  lemma UpperCaseEndsHash()
    ensures Extracts(HashPattern, "-git-4Ab", "4")
  {
    assert MatchesAt(HashPattern, "-git-4Ab", 0, "4");
    assert IsLeftmostMatch(HashPattern, "-git-4Ab", 0, "4");
  }

  /** Upper-case hex right after `-git-` leaves nothing to capture. */
  lemma UpperCaseHashFails()
    ensures !Found(HashPattern, "-git-ABC")
  {
    var s := "-git-ABC";
    forall j: nat, h ensures !MatchesAt(HashPattern, s, j, h) {
      if MatchesAt(HashPattern, s, j, h) { HashStartsHex(s, j, h); }
    }
  }

  /** A date of nine digits yields its first eight. */
  lemma NineDigitDate()
    ensures Extracts(DatePattern, "Compiled 202506241", "20250624")
  {
    assert MatchesAt(DatePattern, "Compiled 202506241", 0, "20250624");
    assert IsLeftmostMatch(DatePattern, "Compiled 202506241", 0, "20250624");
  }

  /** A first line without `-git-` is a hash error that quotes the line. */
  lemma MissingGitIsHashError(output: string)
    requires output == "ITGmania" + SampleVersion + "\n" + Line2
    ensures ParseVersionInfo(output) == Err(Hash("ITGmania" + SampleVersion))
  {
    SampleFieldForms();
    BuildTimeTail();
    assert "ITGmania" + SampleVersion + "" == "ITGmania" + SampleVersion;
    NoGitIsHashError(output, "", SampleVersion, "", Line2, "");
  }
}
