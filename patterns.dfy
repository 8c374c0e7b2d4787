/** The three fixed regular expressions of the version extractor and Python's
    `re.search` over them: the leftmost position at which the pattern matches,
    with the greedy reading of every `+`. */
module Patterns {
  import opened Strings

  datatype Option<T> = None | Some(value: T)

  /** `[0-9]` and `[a-f0-9]`. */
  datatype CharClass = Digit | LowerHex

  predicate InClass(c: char, k: CharClass) {
    match k
    case Digit => '0' <= c <= '9'
    case LowerHex => '0' <= c <= '9' || 'a' <= c <= 'f'
  }

  /** `s` is non-empty and made only of class-`k` characters: what `[..]+` captures. */
  predicate IsRun(s: string, k: CharClass) {
    |s| > 0 && forall j :: 0 <= j < |s| ==> InClass(s[j], k)
  }

  /** The three patterns:
      VersionPattern `ITGmania([0-9]+\.[0-9]+\.[0-9]+)`,
      HashPattern    `-git-([a-f0-9]+)`,
      DatePattern    `Compiled ([0-9]{8})`. */
  datatype Pattern = VersionPattern | HashPattern | DatePattern

  /** The literal text each pattern starts with, before its capture group. */
  function Literal(p: Pattern): (t: string)
    ensures |t| >= 5
  {
    match p
    case VersionPattern => "ITGmania"
    case HashPattern => "-git-"
    case DatePattern => "Compiled "
  }

  /** `t` occurs in `s` at position `i`. */
  predicate OccursAt(s: string, i: nat, t: string) {
    i + |t| <= |s| && s[i..i + |t|] == t
  }

  /** Three non-empty digit runs joined by `.`: what `[0-9]+\.[0-9]+\.[0-9]+` captures. */
  predicate IsVersionTriplet(v: string) {
    var parts := Split(v, '.');
    |parts| == 3 && IsRun(parts[0], Digit) && IsRun(parts[1], Digit) && IsRun(parts[2], Digit)
  }

  /** The declarative meaning of "pattern `p` matches `s` at position `i`
      and its group captures `g`": the literal, then `g`, then for a greedy
      final `+` a character that could not have extended it. */
  predicate MatchesAt(p: Pattern, s: string, i: nat, g: string) {
    var end := i + |Literal(p)| + |g|;
    && OccursAt(s, i, Literal(p))
    && OccursAt(s, i + |Literal(p)|, g)
    && match p
       case VersionPattern => IsVersionTriplet(g) && (end == |s| || !InClass(s[end], Digit))
       case HashPattern => IsRun(g, LowerHex) && (end == |s| || !InClass(s[end], LowerHex))
       case DatePattern => |g| == 8 && IsRun(g, Digit)
  }

  /** Length of the longest run of class-`k` characters starting at `i`. */
  function RunLength(s: string, i: nat, k: CharClass): (n: nat)
    requires i <= |s|
    ensures i + n <= |s|
    ensures forall j :: i <= j < i + n ==> InClass(s[j], k)
    ensures i + n == |s| || !InClass(s[i + n], k)
    decreases |s| - i
  {
    if i < |s| && InClass(s[i], k) then 1 + RunLength(s, i + 1, k) else 0
  }

  /** A run of length `n` that cannot be extended is the longest one. */
  lemma RunLengthUnique(s: string, i: nat, k: CharClass, n: nat)
    requires i + n <= |s|
    requires forall j :: i <= j < i + n ==> InClass(s[j], k)
    requires i + n == |s| || !InClass(s[i + n], k)
    ensures RunLength(s, i, k) == n
  {
    var m := RunLength(s, i, k);
  }

  /** The greedy attempt at `[0-9]+\.[0-9]+\.[0-9]+` from position `a`. */
  function VersionGroupAt(s: string, a: nat): (r: Option<string>)
    requires a <= |s|
    ensures r.Some? ==> OccursAt(s, a, r.value) && |r.value| >= 5
  {
    var n1 := RunLength(s, a, Digit);
    if n1 == 0 || a + n1 == |s| || s[a + n1] != '.' then None
    else
      var b := a + n1 + 1;
      var n2 := RunLength(s, b, Digit);
      if n2 == 0 || b + n2 == |s| || s[b + n2] != '.' then None
      else
        var c := b + n2 + 1;
        var n3 := RunLength(s, c, Digit);
        if n3 == 0 then None else Some(s[a..c + n3])
  }

  /** The regex engine's attempt at one position: the capture group, or None. */
  function MatchAt(p: Pattern, s: string, i: nat): (r: Option<string>)
    requires i <= |s|
    ensures r.Some? ==> OccursAt(s, i, Literal(p)) && OccursAt(s, i + |Literal(p)|, r.value)
  {
    if !OccursAt(s, i, Literal(p)) then None
    else
      var a := i + |Literal(p)|;
      match p
      case VersionPattern => VersionGroupAt(s, a)
      case HashPattern =>
        var n := RunLength(s, a, LowerHex);
        if n == 0 then None else Some(s[a..a + n])
      case DatePattern =>
        if a + 8 <= |s| && IsRun(s[a..a + 8], Digit) then Some(s[a..a + 8]) else None
  }

  lemma RunHasNoDot(d: string)
    requires IsRun(d, Digit)
    ensures '.' !in d
  {
    assert forall j :: 0 <= j < |d| ==> d[j] != '.';
  }

  /** The three digit runs of a version triplet, split at its two dots. */
  lemma TripletParts(d1: string, d2: string, d3: string)
    requires IsRun(d1, Digit) && IsRun(d2, Digit) && IsRun(d3, Digit)
    ensures Split(d1 + "." + d2 + "." + d3, '.') == [d1, d2, d3]
  {
    RunHasNoDot(d1);
    RunHasNoDot(d2);
    RunHasNoDot(d3);
    assert [d1, d2, d3][1..] == [d2, d3];
    assert [d2, d3][1..] == [d3];
    assert Join([d3], '.') == d3;
    assert Join([d2, d3], '.') == d2 + "." + d3;
    assert Join([d1, d2, d3], '.') == d1 + "." + (d2 + "." + d3);
    assert d1 + "." + (d2 + "." + d3) == d1 + "." + d2 + "." + d3;
    SplitJoin([d1, d2, d3], '.');
  }

  /** The attempt at one position agrees with the declarative meaning, both ways:
      it captures `g` exactly when `p` matches at `i` capturing `g`. */
  lemma MatchAtCorrect(p: Pattern, s: string, i: nat, g: string)
    requires i <= |s|
    ensures MatchAt(p, s, i) == Some(g) <==> MatchesAt(p, s, i, g)
  {
    if OccursAt(s, i, Literal(p)) {
      var a := i + |Literal(p)|;
      match p
      case VersionPattern =>
        VersionMatchAtSound(s, i);
        if MatchesAt(p, s, i, g) { VersionMatchAtComplete(s, i, g); }
      case HashPattern =>
        if MatchesAt(p, s, i, g) {
          assert forall j :: a <= j < a + |g| ==> s[j] == g[j - a];
          RunLengthUnique(s, a, LowerHex, |g|);
        }
      case DatePattern =>
    }
  }

  lemma VersionMatchAtSound(s: string, i: nat)
    requires i <= |s|
    ensures MatchAt(VersionPattern, s, i).Some? ==> MatchesAt(VersionPattern, s, i, MatchAt(VersionPattern, s, i).value)
  {
    if MatchAt(VersionPattern, s, i).Some? {
      var a := i + 8;
      VersionGroupSound(s, a);
    }
  }

  lemma VersionGroupSound(s: string, a: nat)
    requires a <= |s|
    requires VersionGroupAt(s, a).Some?
    ensures var g := VersionGroupAt(s, a).value;
      && OccursAt(s, a, g) && IsVersionTriplet(g) && (a + |g| == |s| || !InClass(s[a + |g|], Digit))
  {
    var n1, n2, n3 := GroupShape(s, a);
    var g := VersionGroupAt(s, a).value;
    ShapeUnshift(s, a, g, n1, n2, n3);
    ShapeIsTriplet(g, n1, n2, n3);
  }

  /** What the greedy attempt captures has the triplet shape and is not
      followed by a digit. */
  lemma GroupShape(s: string, a: nat) returns (n1: nat, n2: nat, n3: nat)
    requires a <= |s|
    requires VersionGroupAt(s, a).Some?
    ensures var end := a + n1 + n2 + n3 + 2;
      && TripletShape(s, a, n1, n2, n3) && VersionGroupAt(s, a).value == s[a..end]
      && (end == |s| || !InClass(s[end], Digit))
  {
    n1 := RunLength(s, a, Digit);
    n2 := RunLength(s, a + n1 + 1, Digit);
    n3 := RunLength(s, a + n1 + n2 + 2, Digit);
  }

  /** The shape of a string where it occurs is the shape of the string itself. */
  lemma ShapeUnshift(s: string, a: nat, g: string, n1: nat, n2: nat, n3: nat)
    requires OccursAt(s, a, g) && |g| == n1 + n2 + n3 + 2 && TripletShape(s, a, n1, n2, n3)
    ensures TripletShape(g, 0, n1, n2, n3)
  {
    assert forall j :: 0 <= j < |g| ==> g[j] == s[a + j];
  }

  /** A string of the triplet shape over its whole length is a version triplet. */
  lemma ShapeIsTriplet(g: string, n1: nat, n2: nat, n3: nat)
    requires TripletShape(g, 0, n1, n2, n3) && |g| == n1 + n2 + n3 + 2
    ensures IsVersionTriplet(g)
  {
    var d1, d2, d3 := g[..n1], g[n1 + 1..n1 + 1 + n2], g[n1 + n2 + 2..];
    assert g == d1 + "." + d2 + "." + d3;
    assert IsRun(d1, Digit) && IsRun(d2, Digit) && IsRun(d3, Digit);
    TripletParts(d1, d2, d3);
  }

  lemma VersionMatchAtComplete(s: string, i: nat, g: string)
    requires MatchesAt(VersionPattern, s, i, g)
    ensures MatchAt(VersionPattern, s, i) == Some(g)
  {
    var n1, n2, n3 := TripletLayout(g);
    ShapeShift(s, i + 8, g, n1, n2, n3);
    VersionGroupOfDigits(s, i + 8, n1, n2, n3);
    assert s[i + 8..i + 8 + |g|] == g;
  }

  /** A version triplet is its three parts with a dot between each. */
  lemma TripletJoin(g: string)
    requires IsVersionTriplet(g)
    ensures var parts := Split(g, '.'); g == parts[0] + "." + parts[1] + "." + parts[2]
  {
    var parts := Split(g, '.');
    JoinSplit(g, '.');
    assert parts[1..] == [parts[1], parts[2]];
    assert parts[1..][1..] == [parts[2]];
    assert Join([parts[2]], '.') == parts[2];
  }

  /** A version triplet is made of digits and dots only. */
  lemma TripletChars(v: string)
    requires IsVersionTriplet(v)
    ensures forall j :: 0 <= j < |v| ==> InClass(v[j], Digit) || v[j] == '.'
  {
    var parts := Split(v, '.');
    TripletJoin(v);
    DigitsAndDots(parts[0], parts[1], parts[2]);
  }

  lemma DigitsAndDots(d1: string, d2: string, d3: string)
    requires IsRun(d1, Digit) && IsRun(d2, Digit) && IsRun(d3, Digit)
    ensures var w := d1 + "." + d2 + "." + d3;
      forall j :: 0 <= j < |w| ==> InClass(w[j], Digit) || w[j] == '.'
  {
  }

  /** From `a` in `t`: a digit run of length `n1`, a dot, a digit run of
      length `n2`, a dot and a digit run of length `n3`. */
  predicate TripletShape(t: string, a: nat, n1: nat, n2: nat, n3: nat) {
    && n1 > 0 && n2 > 0 && n3 > 0 && a + n1 + n2 + n3 + 2 <= |t|
    && (forall j :: a <= j < a + n1 ==> InClass(t[j], Digit))
    && t[a + n1] == '.'
    && (forall j :: a + n1 < j < a + n1 + 1 + n2 ==> InClass(t[j], Digit))
    && t[a + n1 + 1 + n2] == '.'
    && (forall j :: a + n1 + 1 + n2 < j < a + n1 + n2 + n3 + 2 ==> InClass(t[j], Digit))
  }

  /** A version triplet has the triplet shape, over its whole length, with the
      lengths of its three parts. */
  lemma TripletLayout(g: string) returns (n1: nat, n2: nat, n3: nat)
    requires IsVersionTriplet(g)
    ensures TripletShape(g, 0, n1, n2, n3) && |g| == n1 + n2 + n3 + 2
  {
    var parts := Split(g, '.');
    TripletJoin(g);
    n1, n2, n3 := |parts[0]|, |parts[1]|, |parts[2]|;
  }

  /** The shape of a string carries over to wherever the string occurs. */
  lemma ShapeShift(s: string, a: nat, g: string, n1: nat, n2: nat, n3: nat)
    requires OccursAt(s, a, g) && TripletShape(g, 0, n1, n2, n3)
    ensures TripletShape(s, a, n1, n2, n3)
  {
    assert forall j :: a <= j < a + |g| ==> s[j] == g[j - a];
  }

  /** Three digit runs of the given lengths at `a`, separated by dots and not
      followed by a digit, are what the greedy attempt captures. */
  lemma VersionGroupOfDigits(s: string, a: nat, n1: nat, n2: nat, n3: nat)
    requires TripletShape(s, a, n1, n2, n3)
    requires a + n1 + n2 + n3 + 2 == |s| || !InClass(s[a + n1 + n2 + n3 + 2], Digit)
    ensures VersionGroupAt(s, a) == Some(s[a..a + n1 + n2 + n3 + 2])
  {
    ShapeRuns(s, a, n1, n2, n3);
    VersionGroupOfRuns(s, a, n1, n2, n3);
  }

  /** The runs of a triplet shape are the ones `RunLength` finds, the last one
      when nothing after it could extend it. */
  lemma ShapeRuns(s: string, a: nat, n1: nat, n2: nat, n3: nat)
    requires TripletShape(s, a, n1, n2, n3)
    requires a + n1 + n2 + n3 + 2 == |s| || !InClass(s[a + n1 + n2 + n3 + 2], Digit)
    ensures RunLength(s, a, Digit) == n1
    ensures RunLength(s, a + n1 + 1, Digit) == n2
    ensures RunLength(s, a + n1 + n2 + 2, Digit) == n3
  {
    RunLengthUnique(s, a, Digit, n1);
    RunLengthUnique(s, a + n1 + 1, Digit, n2);
    RunLengthUnique(s, a + n1 + n2 + 2, Digit, n3);
  }

  /** Three digit runs of the given lengths, separated by dots, are what
      the greedy attempt captures. */
  lemma VersionGroupOfRuns(s: string, a: nat, n1: nat, n2: nat, n3: nat)
    requires a + n1 + n2 + n3 + 2 <= |s|
    requires n1 > 0 && n2 > 0 && n3 > 0
    requires RunLength(s, a, Digit) == n1 && s[a + n1] == '.'
    requires RunLength(s, a + n1 + 1, Digit) == n2 && s[a + n1 + 1 + n2] == '.'
    requires RunLength(s, a + n1 + n2 + 2, Digit) == n3
    ensures VersionGroupAt(s, a) == Some(s[a..a + n1 + n2 + n3 + 2])
  {
  }

  /** The literal, then a group of the right form, then text that could not
      extend it: a match wherever the literal starts. */
  lemma HashMatchIn(pre: string, h: string, post: string)
    requires IsRun(h, LowerHex)
    requires post == [] || !InClass(post[0], LowerHex)
    ensures MatchesAt(HashPattern, pre + "-git-" + h + post, |pre|, h)
  {
    var s := pre + "-git-" + h + post;
    assert s[|pre|..|pre| + 5] == "-git-";
    assert s[|pre| + 5..|pre| + 5 + |h|] == h;
  }

  lemma DateMatchIn(pre: string, d: string, post: string)
    requires |d| == 8 && IsRun(d, Digit)
    ensures MatchesAt(DatePattern, pre + "Compiled " + d + post, |pre|, d)
  {
    var s := pre + "Compiled " + d + post;
    assert s[|pre|..|pre| + 9] == "Compiled ";
    assert s[|pre| + 9..|pre| + 9 + |d|] == d;
  }

  /** What `re.search` returns: the start of the match and the group's text. */
  datatype Match = Match(start: nat, group: string)

  /** No match of `p` starts at any position in `[from, to)`. */
  ghost predicate NoMatchBetween(p: Pattern, s: string, from: nat, to: nat) {
    forall j: nat, h :: from <= j < to ==> !MatchesAt(p, s, j, h)
  }

  /** `i` is the leftmost position at which `p` matches, capturing `g`. */
  ghost predicate IsLeftmostMatch(p: Pattern, s: string, i: nat, g: string) {
    MatchesAt(p, s, i, g) && NoMatchBetween(p, s, 0, i)
  }

  /** `p` matches somewhere in `s`. */
  ghost predicate Found(p: Pattern, s: string) {
    exists i: nat, g :: MatchesAt(p, s, i, g)
  }

  /** Tries positions `i, i+1, ..., |s|` in order and stops at the first match. */
  function SearchFrom(p: Pattern, s: string, i: nat): (r: Option<Match>)
    requires i <= |s|
    ensures r.Some? ==> i <= r.value.start && MatchesAt(p, s, r.value.start, r.value.group)
                        && NoMatchBetween(p, s, i, r.value.start)
    ensures r.None? ==> NoMatchBetween(p, s, i, |s| + 1)
    decreases |s| - i
  {
    match MatchAt(p, s, i)
    case Some(g) =>
      MatchAtCorrect(p, s, i, g);
      Some(Match(i, g))
    case None =>
      assert forall h :: !MatchesAt(p, s, i, h) by {
        forall h ensures !MatchesAt(p, s, i, h) { MatchAtCorrect(p, s, i, h); }
      }
      if i == |s| then None else SearchFrom(p, s, i + 1)
  }

  /** `re.search(p, s)`. */
  function Search(p: Pattern, s: string): (r: Option<Match>)
    ensures r.Some? ==> IsLeftmostMatch(p, s, r.value.start, r.value.group)
    ensures r.None? <==> !Found(p, s)
  {
    var r := SearchFrom(p, s, 0);
    r
  }

  /** There is only one leftmost match, so a search result is determined by
      the declarative meaning alone. */
  lemma LeftmostUnique(p: Pattern, s: string, i: nat, g: string, j: nat, h: string)
    requires IsLeftmostMatch(p, s, i, g) && IsLeftmostMatch(p, s, j, h)
    ensures i == j && g == h
  {
    assert i <= |s|;
    MatchAtCorrect(p, s, i, g);
    MatchAtCorrect(p, s, i, h);
  }

  /** No match can start before the first character that begins the pattern's literal. */
  lemma NoMatchBefore(p: Pattern, s: string, k: nat)
    requires k <= |s|
    requires forall j :: 0 <= j < k ==> s[j] != Literal(p)[0]
    ensures NoMatchBetween(p, s, 0, k)
  {
    forall j: nat, h | 0 <= j < k ensures !MatchesAt(p, s, j, h) {
      FirstCharDiffers(s, j, Literal(p));
    }
  }

  /** Text whose first character differs from `t`'s does not start with `t`. */
  lemma FirstCharDiffers(s: string, j: nat, t: string)
    requires j < |s| && |t| > 0 && s[j] != t[0]
    ensures !OccursAt(s, j, t)
  {
    if j + |t| <= |s| {
      assert s[j..j + |t|][0] == s[j];
    }
  }

  /** A hash match needs a lowercase-hex character right after `-git-`. */
  lemma HashStartsHex(s: string, i: nat, g: string)
    requires MatchesAt(HashPattern, s, i, g)
    ensures i + 5 < |s| && InClass(s[i + 5], LowerHex)
  {
    assert s[i + 5..i + 5 + |g|][0] == s[i + 5];
  }
}
