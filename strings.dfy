/** The three Python `str` operations the version extractor relies on:
    `strip()` (over ASCII whitespace), `split(sep)` and `sep.join(parts)`. */
module Strings {

  /** The characters `str.strip()` removes in this model: space, `\t`, `\n`,
      `\r`, vertical tab (0x0B) and form feed (0x0C). */
  predicate IsSpace(c: char) {
    c == ' ' || c == '\t' || c == '\n' || c == '\r' || c as int == 11 || c as int == 12
  }

  predicate AllSpace(s: string) {
    forall k :: 0 <= k < |s| ==> IsSpace(s[k])
  }

  /** `s.lstrip()`: drops the longest whitespace prefix. */
  function TrimStart(s: string): (r: string)
    ensures |r| <= |s| && r == s[|s| - |r|..]
    ensures AllSpace(s[..|s| - |r|])
    ensures r == [] || !IsSpace(r[0])
  {
    if |s| > 0 && IsSpace(s[0]) then
      var r := TrimStart(s[1..]);
      assert s[..|s| - |r|] == [s[0]] + s[1..][..|s| - 1 - |r|];
      r
    else s
  }

  /** `s.rstrip()`: drops the longest whitespace suffix. */
  function TrimEnd(s: string): (r: string)
    ensures |r| <= |s| && r == s[..|r|]
    ensures AllSpace(s[|r|..])
    ensures r == [] || !IsSpace(r[|r| - 1])
  {
    if |s| > 0 && IsSpace(s[|s| - 1]) then
      var r := TrimEnd(s[..|s| - 1]);
      assert s[|r|..] == s[..|s| - 1][|r|..] + [s[|s| - 1]];
      r
    else s
  }

  /** `r` is what is left of `s` once a whitespace prefix and a whitespace
      suffix are removed, and `r` neither starts nor ends with whitespace. */
  ghost predicate IsStripOf(s: string, r: string) {
    exists i: nat :: IsStripAt(s, r, i)
  }

  ghost predicate IsStripAt(s: string, r: string, i: nat) {
    && i + |r| <= |s|
    && AllSpace(s[..i])
    && s[i..i + |r|] == r
    && AllSpace(s[i + |r|..])
    && (r == [] || (!IsSpace(r[0]) && !IsSpace(r[|r| - 1])))
  }

  /** `s.strip()`. */
  function Strip(s: string): (r: string)
    ensures IsStripOf(s, r)
  {
    var t := TrimStart(s);
    var r := TrimEnd(t);
    var i := |s| - |t|;
    assert s[i..i + |r|] == r;
    assert s[i + |r|..] == t[|r|..];
    assert IsStripAt(s, r, i);
    r
  }

  /** Everything of `s` outside a strip is whitespace, and a non-empty strip
      starts and ends on the first and last character that is not. */
  lemma StripAtBounds(s: string, r: string, i: nat)
    requires IsStripAt(s, r, i)
    ensures forall j :: 0 <= j < i ==> IsSpace(s[j])
    ensures forall j :: i + |r| <= j < |s| ==> IsSpace(s[j])
    ensures r != [] ==> !IsSpace(s[i]) && !IsSpace(s[i + |r| - 1])
  {
    forall j | 0 <= j < i ensures IsSpace(s[j]) { assert s[..i][j] == s[j]; }
    forall j | i + |r| <= j < |s| ensures IsSpace(s[j]) { assert s[i + |r|..][j - i - |r|] == s[j]; }
    if r != [] {
      assert s[i] == r[0];
      assert s[i + |r| - 1] == r[|r| - 1];
    }
  }

  /** The strip of a string is unique: `IsStripOf` describes `Strip` completely. */
  lemma StripUnique(s: string, r1: string, r2: string)
    requires IsStripOf(s, r1) && IsStripOf(s, r2)
    ensures r1 == r2
  {
    var i1: nat :| IsStripAt(s, r1, i1);
    var i2: nat :| IsStripAt(s, r2, i2);
    StripAtBounds(s, r1, i1);
    StripAtBounds(s, r2, i2);
  }

  /** Surrounding whitespace is removed and nothing else: text that neither
      starts nor ends with whitespace, padded with whitespace, strips to itself. */
  lemma StripPadded(pre: string, s: string, post: string)
    requires AllSpace(pre) && AllSpace(post)
    requires s == [] || (!IsSpace(s[0]) && !IsSpace(s[|s| - 1]))
    ensures Strip(pre + s + post) == s
  {
    var w := pre + s + post;
    assert w[..|pre|] == pre;
    assert w[|pre|..|pre| + |s|] == s;
    assert w[|pre| + |s|..] == post;
    assert IsStripAt(w, s, |pre|);
    StripUnique(w, Strip(w), s);
  }

  /** Text that is empty or all whitespace strips to the empty string. */
  lemma StripAllSpace(s: string)
    requires AllSpace(s)
    ensures Strip(s) == []
  {
    assert IsStripAt(s, [], |s|);
    StripUnique(s, Strip(s), []);
  }

  /** `sep.join(parts)`. */
  function Join(parts: seq<string>, sep: char): (s: string)
    requires |parts| >= 1
    ensures parts[0] <= s
    ensures |parts| > 1 ==> |parts[0]| < |s| && s[|parts[0]|] == sep
  {
    if |parts| == 1 then parts[0] else parts[0] + [sep] + Join(parts[1..], sep)
  }

  /** `s.split(sep)`: the pieces between occurrences of `sep`, always at least one. */
  function Split(s: string, sep: char): (parts: seq<string>)
    ensures |parts| >= 1
    ensures forall k :: 0 <= k < |parts| ==> sep !in parts[k]
  {
    if |s| == 0 then [""]
    else
      var rest := Split(s[1..], sep);
      if s[0] == sep then [""] + rest else [[s[0]] + rest[0]] + rest[1..]
  }

  /** Joining the pieces of a split with the same separator gives the string back. */
  lemma {:induction false} JoinSplit(s: string, sep: char)
    ensures Join(Split(s, sep), sep) == s
    decreases |s|
  {
    if |s| > 0 {
      var rest := Split(s[1..], sep);
      JoinSplit(s[1..], sep);
      if s[0] == sep {
        assert ([""] + rest)[1..] == rest;
      } else {
        var parts := [[s[0]] + rest[0]] + rest[1..];
        assert |rest| > 1 ==> parts[1..] == rest[1..];
      }
    }
  }

  /** Joining pieces that do not contain the separator and splitting again
      gives the pieces back: `Split` is the only inverse of `Join`. */
  lemma {:induction false} SplitJoin(parts: seq<string>, sep: char)
    requires |parts| >= 1
    requires forall k :: 0 <= k < |parts| ==> sep !in parts[k]
    ensures Split(Join(parts, sep), sep) == parts
    decreases |Join(parts, sep)|
  {
    var s := Join(parts, sep);
    if |s| == 0 {
      assert |parts| == 1;
    } else if parts[0] == [] {
      assert |parts| > 1;
      assert s[0] == sep;
      assert s[1..] == Join(parts[1..], sep);
      SplitJoin(parts[1..], sep);
      assert parts == [""] + parts[1..];
    } else {
      var tail := [parts[0][1..]] + parts[1..];
      assert s[0] == parts[0][0] != sep;
      if |parts| == 1 {
        assert s[1..] == Join(tail, sep);
      } else {
        assert tail[1..] == parts[1..];
        assert s[1..] == Join(tail, sep);
      }
      forall k | 0 <= k < |tail| ensures sep !in tail[k] {
        if k == 0 { assert forall c :: c in parts[0][1..] ==> c in parts[0]; }
        else { assert tail[k] == parts[k]; }
      }
      SplitJoin(tail, sep);
      assert [s[0]] + tail[0] == parts[0];
      assert parts == [parts[0]] + tail[1..];
    }
  }

  /** Two pieces around one separator split back into the two pieces. */
  lemma SplitTwo(a: string, b: string, sep: char)
    requires sep !in a && sep !in b
    ensures Split(a + [sep] + b, sep) == [a, b]
  {
    assert [a, b][1..] == [b];
    SplitJoin([a, b], sep);
  }

  /** Joining the first `k` pieces gives a prefix of joining all of them. */
  lemma {:induction false} JoinPrefix(parts: seq<string>, k: nat, sep: char)
    requires 1 <= k <= |parts|
    ensures Join(parts[..k], sep) <= Join(parts, sep)
    decreases k
  {
    if k > 1 {
      assert parts[..k][1..] == parts[1..][..k - 1];
      JoinPrefix(parts[1..], k - 1, sep);
    }
  }

  /** Joining fewer pieces than there are gives a strictly shorter string. */
  lemma {:induction false} JoinPrefixStrict(parts: seq<string>, k: nat, sep: char)
    requires 1 <= k < |parts|
    ensures |Join(parts[..k], sep)| < |Join(parts, sep)|
    decreases k
  {
    if k > 1 {
      assert parts[..k][1..] == parts[1..][..k - 1];
      JoinPrefixStrict(parts[1..], k - 1, sep);
    }
  }
}
