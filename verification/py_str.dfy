/**
 * The few Python `str` operations the downloaders rely on: `isspace`, `strip`,
 * `splitlines`, the `in` substring test and `replace` of a single character.
 * Strings are sequences of Unicode scalar values, as Python strings are
 * sequences of code points.
 */
module PyStr {

  /** Python's `str.isspace()` for one character: the characters `str.strip()` removes. */
  predicate IsSpace(c: char) {
    var n := c as int;
    || (0x09 <= n <= 0x0D) || (0x1C <= n <= 0x20)
    || n == 0x85 || n == 0xA0 || n == 0x1680
    || (0x2000 <= n <= 0x200A)
    || n == 0x2028 || n == 0x2029 || n == 0x202F || n == 0x205F || n == 0x3000
  }

  /** The characters at which `str.splitlines()` ends a line. */
  predicate IsLineBreak(c: char) {
    var n := c as int;
    || (0x0A <= n <= 0x0D) || (0x1C <= n <= 0x1E)
    || n == 0x85 || n == 0x2028 || n == 0x2029
  }

  predicate AllSpace(s: string) {
    forall i :: 0 <= i < |s| ==> IsSpace(s[i])
  }

  predicate NoLineBreak(s: string) {
    forall i :: 0 <= i < |s| ==> !IsLineBreak(s[i])
  }

  /** A string `strip()` leaves unchanged: empty, or starting and ending with a non-space. */
  predicate IsStripped(s: string) {
    s == [] || (!IsSpace(s[0]) && !IsSpace(s[|s| - 1]))
  }

  /** `str.rstrip()`: drops the longest all-space suffix. */
  function TrimEnd(s: string): (r: string)
    ensures |r| <= |s| && r == s[..|r|]
    ensures r == [] || !IsSpace(r[|r| - 1])
    ensures AllSpace(s[|r|..])
  {
    if s != [] && IsSpace(s[|s| - 1]) then TrimEnd(s[..|s| - 1]) else s
  }

  /** `str.strip()`: leading space is skipped one character at a time, then
      `TrimEnd` drops the trailing space. The result has no space at either end
      and is empty exactly when `s` is all space. */
  function Strip(s: string): (r: string)
    ensures IsStripped(r)
    ensures r == [] <==> AllSpace(s)
    decreases |s|
  {
    if s != [] && IsSpace(s[0]) then
      AllSpaceCons(s);
      Strip(s[1..])
    else
      TrimEndKeepsHead(s);
      TrimEnd(s)
  }

  /** A string that starts with a space is all space exactly when its tail is. */
  lemma AllSpaceCons(s: string)
    requires s != [] && IsSpace(s[0])
    ensures AllSpace(s) <==> AllSpace(s[1..])
  {
    if AllSpace(s[1..]) {
      forall i | 1 <= i < |s| ensures IsSpace(s[i]) {
        assert s[i] == s[1..][i - 1];
      }
    }
  }

  /** `TrimEnd` keeps a first character that is not a space. */
  lemma TrimEndKeepsHead(s: string)
    requires s == [] || !IsSpace(s[0])
    ensures IsStripped(TrimEnd(s))
    ensures TrimEnd(s) == [] <==> AllSpace(s)
  {
    var r := TrimEnd(s);
    if r != [] {
      assert r[0] == s[0];
    }
  }

  /** `strip()` returns its argument with an all-space prefix and an all-space
      suffix cut off; with `IsStripped` of the result, those are the longest such. */
  lemma {:induction false} StripIsSlice(s: string) returns (k: int)
    ensures 0 <= k <= |s| - |Strip(s)| && Strip(s) == s[k..k + |Strip(s)|]
    ensures AllSpace(s[..k]) && AllSpace(s[k + |Strip(s)|..])
    decreases |s|
  {
    var r := Strip(s);
    if s != [] && IsSpace(s[0]) {
      assert r == Strip(s[1..]);
      var j := StripIsSlice(s[1..]);
      k := j + 1;
      assert s[1..][j..j + |r|] == s[k..k + |r|];
      assert s[1..][j + |r|..] == s[k + |r|..];
      SpacePrefixGrows(s, j);
    } else {
      assert r == TrimEnd(s);
      k := 0;
    }
  }

  /** A space followed by an all-space prefix of the tail is an all-space prefix. */
  lemma SpacePrefixGrows(s: string, j: int)
    requires s != [] && IsSpace(s[0]) && 0 <= j < |s| && AllSpace(s[1..][..j])
    ensures AllSpace(s[..j + 1])
  {
    var p, q := s[..j + 1], s[1..][..j];
    forall i | 0 < i < |p| ensures IsSpace(p[i]) {
      assert p[i] == q[i - 1];
    }
  }

  /** One space on each side of a stripped string is removed again. */
  lemma StripPadded(b: string)
    requires b != [] && IsStripped(b)
    ensures Strip(" " + b + " ") == b
  {
    var x := " " + b + " ";
    assert x[1..] == b + " ";
    assert (b + " ")[..|b|] == b;
    assert TrimEnd(b) == b;
  }

  /** Stripping a string that has no line break inside yields a string without one. */
  lemma StripKeepsNoLineBreak(s: string)
    requires NoLineBreak(s)
    ensures NoLineBreak(Strip(s))
  {
    var r := Strip(s);
    var i := StripIsSlice(s);
    forall k | 0 <= k < |r| ensures !IsLineBreak(r[k]) {
      assert r[k] == s[i + k];
    }
  }

  /** `strip()` is idempotent, and a stripped string is its own strip. */
  lemma StripFixesStripped(s: string)
    requires IsStripped(s)
    ensures Strip(s) == s
  {
    assert TrimEnd(s) == s;
  }

  lemma StripIdempotent(s: string)
    ensures Strip(Strip(s)) == Strip(s)
  {
    StripFixesStripped(Strip(s));
  }

  /** `str.splitlines()`, splitting at every break character (so "\r\n" yields an
      extra empty line and a trailing break yields a trailing empty line; the
      callers here drop blank lines, so neither difference reaches them). */
  function SplitLines(s: string): (r: seq<string>)
    ensures |r| >= 1
    ensures forall i :: 0 <= i < |r| ==> NoLineBreak(r[i])
  {
    if s == [] then [""]
    else
      var rest := SplitLines(s[1..]);
      if IsLineBreak(s[0]) then [""] + rest
      else [[s[0]] + rest[0]] + rest[1..]
  }

  /** `"\n".join(lines)`. */
  function JoinLines(lines: seq<string>): string
  {
    if |lines| == 0 then ""
    else if |lines| == 1 then lines[0]
    else lines[0] + "\n" + JoinLines(lines[1..])
  }

  /** Text without breaks in front of `t` extends the first line of `t`. */
  lemma {:induction false} SplitLinesPrefix(x: string, t: string)
    requires NoLineBreak(x)
    ensures SplitLines(x + t) == [x + SplitLines(t)[0]] + SplitLines(t)[1..]
    decreases |x|
  {
    if x != [] {
      assert (x + t)[1..] == x[1..] + t;
      assert !IsLineBreak(x[0]);
      SplitLinesPrefix(x[1..], t);
      assert [x[0]] + (x[1..] + SplitLines(t)[0]) == x + SplitLines(t)[0];
    } else {
      assert x + t == t;
      assert x + SplitLines(t)[0] == SplitLines(t)[0];
      assert [SplitLines(t)[0]] + SplitLines(t)[1..] == SplitLines(t);
    }
  }

  /** Splitting the newline-join of break-free lines gives the lines back. */
  lemma {:induction false} SplitJoinRoundTrip(lines: seq<string>)
    requires |lines| >= 1
    requires forall i :: 0 <= i < |lines| ==> NoLineBreak(lines[i])
    ensures SplitLines(JoinLines(lines)) == lines
    decreases |lines|
  {
    if |lines| == 1 {
      SplitLinesPrefix(lines[0], "");
      assert lines[0] + "" == lines[0];
    } else {
      var tail := JoinLines(lines[1..]);
      SplitJoinRoundTrip(lines[1..]);
      assert lines[0] + "\n" + tail == lines[0] + ("\n" + tail);
      SplitLinesPrefix(lines[0], "\n" + tail);
      assert ("\n" + tail)[1..] == tail;
      assert SplitLines("\n" + tail) == [""] + lines[1..];
      assert lines[0] + "" == lines[0];
      assert [lines[0]] + lines[1..] == lines;
    }
  }

  /** `s.startswith(p)`. */
  predicate StartsWith(s: string, p: string) {
    |p| <= |s| && s[..|p|] == p
  }

  /** Python's `p in s`: `p` occurs in `s` at some position, scanning left to right. */
  predicate Contains(s: string, p: string): (r: bool)
    ensures r ==> |p| <= |s|
    decreases |s|
  {
    StartsWith(s, p) || (s != [] && Contains(s[1..], p))
  }

  /** A slice equal to `p` is found by the scan. */
  lemma {:induction false} ContainsFromSlice(s: string, p: string, i: int, j: int)
    requires 0 <= i <= j <= |s| && s[i..j] == p
    ensures Contains(s, p)
    decreases i
  {
    if i == 0 {
      assert s[..|p|] == p;
    } else {
      assert s[1..][i - 1..j - 1] == p;
      ContainsFromSlice(s[1..], p, i - 1, j - 1);
    }
  }

  /** Where the scan finds `p`, there is a slice equal to `p`. */
  lemma {:induction false} SliceFromContains(s: string, p: string) returns (i: int, j: int)
    requires Contains(s, p)
    ensures 0 <= i <= j <= |s| && s[i..j] == p
    decreases |s|
  {
    if StartsWith(s, p) {
      i, j := 0, |p|;
    } else {
      var i', j' := SliceFromContains(s[1..], p);
      i, j := i' + 1, j' + 1;
      assert s[i..j] == s[1..][i'..j'];
    }
  }

  /** The scan finds `p` exactly when `p` is a slice of `s`. */
  lemma ContainsIff(s: string, p: string)
    ensures Contains(s, p) <==> exists i, j :: 0 <= i <= j <= |s| && s[i..j] == p
  {
    if Contains(s, p) {
      var i, j := SliceFromContains(s, p);
    }
    forall i, j | 0 <= i <= j <= |s| && s[i..j] == p ensures Contains(s, p) {
      ContainsFromSlice(s, p, i, j);
    }
  }

  /** Containing a string implies containing each of its prefixes. */
  lemma ContainsPrefix(s: string, p: string, q: string)
    requires Contains(s, p + q)
    ensures Contains(s, p)
  {
    var i, j := SliceFromContains(s, p + q);
    assert s[i..i + |p|] == s[i..j][..|p|] == p;
    ContainsFromSlice(s, p, i, i + |p|);
  }

  /** Any string containing `p` in the middle contains `p`. */
  lemma ContainsInfix(a: string, p: string, b: string)
    ensures Contains(a + p + b, p)
  {
    var s := a + p + b;
    assert s[|a|..|a| + |p|] == p;
    ContainsFromSlice(s, p, |a|, |a| + |p|);
  }

  /** `s.replace(target, fill)` for single characters. */
  function ReplaceChar(s: string, target: char, fill: char): (r: string)
    ensures |r| == |s|
    ensures forall i :: 0 <= i < |s| ==> r[i] == (if s[i] == target then fill else s[i])
  {
    if s == [] then []
    else [if s[0] == target then fill else s[0]] + ReplaceChar(s[1..], target, fill)
  }

  /** Replaces every character of `chars`, one after the other, with `fill`. Each
      position is kept or filled, and a position holding one of `chars` is filled. */
  function ReplaceEach(s: string, chars: string, fill: char): (r: string)
    ensures |r| == |s|
    ensures forall i :: 0 <= i < |s| ==> r[i] == s[i] || r[i] == fill
    ensures forall i :: 0 <= i < |s| && s[i] in chars ==> r[i] == fill
    decreases |chars|
  {
    if chars == [] then s
    else ReplaceEach(ReplaceChar(s, chars[0], fill), chars[1..], fill)
  }

  /** When the replacement is not itself replaced, the sequential replacements act
      position by position: each character of `chars` becomes `fill`, the rest stay. */
  lemma {:induction false} ReplaceEachPointwise(s: string, chars: string, fill: char)
    requires fill !in chars
    ensures |ReplaceEach(s, chars, fill)| == |s|
    ensures forall i :: 0 <= i < |s| ==>
      ReplaceEach(s, chars, fill)[i] == (if s[i] in chars then fill else s[i])
    decreases |chars|
  {
    if chars != [] {
      var t := ReplaceChar(s, chars[0], fill);
      ReplaceEachPointwise(t, chars[1..], fill);
      forall i | 0 <= i < |s|
        ensures ReplaceEach(s, chars, fill)[i] == (if s[i] in chars then fill else s[i])
      {
        assert chars == [chars[0]] + chars[1..];
        assert s[i] in chars <==> s[i] == chars[0] || s[i] in chars[1..];
      }
    }
  }
}
