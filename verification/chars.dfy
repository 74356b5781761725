/** Character classes of a Python `str` regular expression and `str.strip`, as the parser uses them. */
module Chars {

  /** `\s` and `str.isspace()`: the characters Python treats as whitespace. */
  predicate IsSpace(c: char) {
    ('\t' <= c <= '\r') || ('\U{1C}' <= c <= ' ') || c == '\U{85}' || c == '\U{A0}' || c == '\U{1680}'
    || ('\U{2000}' <= c <= '\U{200A}') || c == '\U{2028}' || c == '\U{2029}' || c == '\U{202F}'
    || c == '\U{205F}' || c == '\U{3000}'
  }

  /** `\d`, restricted to ASCII digits. */
  predicate IsDigit(c: char) {
    '0' <= c <= '9'
  }

  /** `\w`, restricted to ASCII letters, digits and the underscore. */
  predicate IsWord(c: char) {
    ('a' <= c <= 'z') || ('A' <= c <= 'Z') || IsDigit(c) || c == '_'
  }

  /** `.` without DOTALL: anything but a line feed. */
  predicate IsDot(c: char) {
    c != '\n'
  }

  /** The character classes the pattern repeats: `\s`, `\S`, `\d`, `\w` and `.`. */
  datatype Class = Space | NonSpace | Digit | Word | Dot

  predicate In(c: char, cls: Class) {
    match cls
    case Space => IsSpace(c)
    case NonSpace => !IsSpace(c)
    case Digit => IsDigit(c)
    case Word => IsWord(c)
    case Dot => IsDot(c)
  }

  /** Every character of `s[i..j]` is in `cls`: a repetition of `cls` matches exactly `s[i..j]`. */
  predicate All(s: string, i: nat, j: nat, cls: Class)
    decreases j - i
  {
    i <= j <= |s| && (i == j || (In(s[i], cls) && All(s, i + 1, j, cls)))
  }

  /** `All` says what its name says, character by character. */
  lemma {:induction false} AllMeans(s: string, i: nat, j: nat, cls: Class)
    ensures All(s, i, j, cls) <==> i <= j <= |s| && forall x :: i <= x < j ==> In(s[x], cls)
    decreases j - i
  {
    if i < j <= |s| {
      AllMeans(s, i + 1, j, cls);
    }
  }

  lemma {:induction false} AllAt(s: string, i: nat, j: nat, cls: Class, x: nat)
    requires All(s, i, j, cls) && i <= x < j
    ensures In(s[x], cls)
    decreases x - i
  {
    if i < x {
      AllAt(s, i + 1, j, cls, x);
    }
  }

  lemma {:induction false} AllSplit(s: string, i: nat, m: nat, j: nat, cls: Class)
    requires All(s, i, j, cls) && i <= m <= j
    ensures All(s, i, m, cls) && All(s, m, j, cls)
    decreases m - i
  {
    if i < m {
      AllSplit(s, i + 1, m, j, cls);
    }
  }

  lemma {:induction false} AllJoin(s: string, i: nat, m: nat, j: nat, cls: Class)
    requires All(s, i, m, cls) && All(s, m, j, cls)
    ensures All(s, i, j, cls)
    decreases m - i
  {
    if i < m {
      AllJoin(s, i + 1, m, j, cls);
    }
  }

  /** `w` occurs literally in `s` at position `i`. */
  predicate LitAt(s: string, i: nat, w: string) {
    i + |w| <= |s| && forall x :: 0 <= x < |w| ==> s[i + x] == w[x]
  }

  /** A literal occurrence is the slice it names. */
  lemma LitAtSlice(s: string, i: nat, w: string)
    requires LitAt(s, i, w)
    ensures s[i..i + |w|] == w
  {
    var t := s[i..i + |w|];
    assert forall x :: 0 <= x < |w| ==> t[x] == s[i + x];
  }

  /** A run inside `s[lo..hi]` is a run of that slice, shifted by `lo`. */
  lemma {:induction false} AllShift(s: string, lo: nat, hi: nat, i: nat, j: nat, cls: Class)
    requires lo <= i && hi <= |s| && All(s, i, j, cls) && j <= hi
    ensures All(s[lo..hi], i - lo, j - lo, cls)
    decreases j - i
  {
    if i < j {
      AllShift(s, lo, hi, i + 1, j, cls);
    }
  }

  /** End of the longest run of `cls` starting at `i`: what a greedy repetition consumes. */
  function RunEnd(s: string, i: nat, cls: Class): (j: nat)
    requires i <= |s|
    ensures i <= j <= |s|
    decreases |s| - i
  {
    if i < |s| && In(s[i], cls) then RunEnd(s, i + 1, cls) else i
  }

  /** `RunEnd` ends the longest run: everything before it is in the class, the next character is not. */
  lemma {:induction false} RunIsLongest(s: string, i: nat, cls: Class)
    requires i <= |s|
    ensures All(s, i, RunEnd(s, i, cls), cls)
    ensures RunEnd(s, i, cls) == |s| || !In(s[RunEnd(s, i, cls)], cls)
    decreases |s| - i
  {
    if i < |s| && In(s[i], cls) {
      RunIsLongest(s, i + 1, cls);
    }
  }

  /** A run followed by a character outside the class is the longest one: a greedy repetition in
      front of such a character has only one way to match. */
  lemma {:induction false} RunBefore(s: string, i: nat, j: nat, cls: Class)
    requires All(s, i, j, cls) && j < |s| && !In(s[j], cls)
    ensures RunEnd(s, i, cls) == j
    decreases j - i
  {
    if i < j {
      RunBefore(s, i + 1, j, cls);
    }
  }

  /** Any run from `i` lies inside the longest one. */
  lemma {:induction false} RunWithin(s: string, i: nat, j: nat, cls: Class)
    requires All(s, i, j, cls)
    ensures j <= RunEnd(s, i, cls)
    decreases j - i
  {
    if i < j {
      RunWithin(s, i + 1, j, cls);
    }
  }

  /** Start of `s` once leading whitespace is skipped. */
  function StripStart(s: string): (i: nat)
    ensures i <= |s| && All(s, 0, i, Space)
    ensures i == |s| || !IsSpace(s[i])
  {
    RunIsLongest(s, 0, Space);
    RunEnd(s, 0, Space)
  }

  /** End of `s[i..j]` once trailing whitespace is dropped. */
  function StripEnd(s: string, i: nat, j: nat): (k: nat)
    requires i <= j <= |s|
    ensures i <= k <= j && All(s, k, j, Space)
    ensures k == i || !IsSpace(s[k - 1])
    decreases j
  {
    if j > i && IsSpace(s[j - 1]) then
      var k := StripEnd(s, i, j - 1);
      AllJoin(s, k, j - 1, j, Space);
      k
    else j
  }

  /** `str.strip()` with no argument: drop whitespace at both ends. */
  function Strip(s: string): (r: string)
    ensures |r| <= |s|
    ensures r == [] || (!IsSpace(r[0]) && !IsSpace(r[|r| - 1]))
    ensures exists i :: 0 <= i <= |s| - |r| && r == s[i..i + |r|]
              && All(s, 0, i, Space) && All(s, i + |r|, |s|, Space)
  {
    var i := StripStart(s);
    var k := StripEnd(s, i, |s|);
    assert k > i ==> !IsSpace(s[i]);
    s[i..k]
  }

  /** Stripping twice is stripping once. */
  lemma StripIdempotent(s: string)
    ensures Strip(Strip(s)) == Strip(s)
  {
    var r := Strip(s);
    if r != [] {
      assert StripStart(r) == 0;
      assert StripEnd(r, 0, |r|) == |r|;
    }
  }
}
