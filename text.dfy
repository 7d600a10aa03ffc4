/**
 * The string operations the relay uses on incoming chunks: the prefix test of
 * `str.startswith`, the deletion done by `str.replace(pat, "")`, and the
 * whitespace trimming of `str.strip()` and `str.rstrip()`.
 */
module Text {

  /** The whitespace characters trimmed by `strip` and `rstrip`: space, tab,
      line feed, carriage return, vertical tab and form feed. */
  predicate IsSpace(c: char) {
    c == ' ' || c == '\t' || c == '\n' || c == '\r' || c == '\U{B}' || c == '\U{C}'
  }

  /** Every character of `s` is whitespace. */
  predicate AllSpace(s: string) {
    forall i :: 0 <= i < |s| ==> IsSpace(s[i])
  }

  /** `s.rstrip()`: the longest prefix of `s` that does not end in whitespace. */
  function RStrip(s: string): (r: string)
    ensures r <= s
    ensures AllSpace(s[|r|..])
    ensures r == [] || !IsSpace(r[|r| - 1])
  {
    if s != [] && IsSpace(s[|s| - 1]) then RStrip(s[..|s| - 1]) else s
  }

  /** `s.lstrip()`: the longest suffix of `s` that does not start with whitespace. */
  function LStrip(s: string): (r: string)
    ensures |r| <= |s| && r == s[|s| - |r|..]
    ensures AllSpace(s[..|s| - |r|])
    ensures r == [] || !IsSpace(r[0])
  {
    if s != [] && IsSpace(s[0]) then LStrip(s[1..]) else s
  }

  /** `s.strip()`: the result neither starts nor ends with whitespace, and it
      is `s` with whitespace cut from both ends (`StripWraps`). */
  function Strip(s: string): (r: string)
    ensures |r| <= |s|
    ensures r == [] || (!IsSpace(r[0]) && !IsSpace(r[|r| - 1]))
  {
    LStrip(RStrip(s))
  }

  /** `s` is `strip(s)` wrapped in whitespace on both sides. */
  lemma StripWraps(s: string)
    ensures exists lead, trail :: AllSpace(lead) && AllSpace(trail) && s == lead + Strip(s) + trail
  {
    var lead, trail := StripParts(s);
    assert AllSpace(lead) && AllSpace(trail) && s == lead + Strip(s) + trail;
  }

  /** The whitespace that `strip` cuts from the front and from the back of `s`. */
  lemma StripParts(s: string) returns (lead: string, trail: string)
    ensures AllSpace(lead) && AllSpace(trail) && s == lead + Strip(s) + trail
  {
    var t := RStrip(s);
    var r := LStrip(t);
    lead, trail := t[..|t| - |r|], s[|t|..];
    SplitAt(t, |t| - |r|);
    SplitAt(s, |t|);
  }

  /** A string is its prefix of length `n` followed by the rest. */
  lemma SplitAt(s: string, n: nat)
    requires n <= |s|
    ensures s == s[..n] + s[n..]
  {
  }

  /** `s.replace(pat, "")`: one left-to-right scan that deletes each occurrence
      of `pat` it meets; text brought together by a deletion is not scanned again. */
  function RemoveAll(s: string, pat: string): (r: string)
    requires pat != []
    ensures |r| <= |s|
    decreases |s|
  {
    if s == [] then []
    else if pat <= s then RemoveAll(s[|pat|..], pat)
    else [s[0]] + RemoveAll(s[1..], pat)
  }

  /** `pat` occurs in `s` at no position before `n`. */
  predicate NoMatchBefore(s: string, pat: string, n: int) {
    forall i :: 0 <= i < n && i <= |s| ==> !(pat <= s[i..])
  }

  /** `pat` occurs in `s` at no position. */
  predicate Absent(s: string, pat: string)
    decreases |s|
  {
    !(pat <= s) && (s == [] || Absent(s[1..], pat))
  }

  /** A string in which `pat` does not occur is left alone. */
  lemma {:induction false} RemoveAllNoMatch(s: string, pat: string)
    requires pat != []
    requires Absent(s, pat)
    ensures RemoveAll(s, pat) == s
    decreases |s|
  {
    if s != [] {
      RemoveAllNoMatch(s[1..], pat);
      assert [s[0]] + s[1..] == s;
    }
  }

  /** Deletion is leftmost-first: when the first occurrence of `pat` starts
      right after `a`, the text before it is kept and the scan resumes after it. */
  lemma {:induction false} RemoveAllLeftmost(a: string, pat: string, b: string)
    requires pat != []
    requires NoMatchBefore(a + (pat + b), pat, |a|)
    ensures RemoveAll(a + (pat + b), pat) == a + RemoveAll(b, pat)
    decreases |a|
  {
    var s := a + (pat + b);
    if a == [] {
      assert s == pat + b;
      assert s[|pat|..] == b;
    } else {
      var tail := a[1..] + (pat + b);
      assert !(pat <= s[0..]);
      assert s[1..] == tail;
      assert NoMatchBefore(tail, pat, |a| - 1) by {
        forall i | 0 <= i < |a| - 1
          ensures !(pat <= tail[i..])
        {
          assert tail[i..] == s[i + 1..];
        }
      }
      RemoveAllLeftmost(a[1..], pat, b);
      ConsSplit(a, RemoveAll(b, pat));
    }
  }

  /** A non-empty string is its head followed by its tail, before any suffix. */
  lemma ConsSplit(a: string, x: string)
    requires a != []
    ensures [a[0]] + (a[1..] + x) == a + x
  {
    assert a == [a[0]] + a[1..];
  }

  /** A leading occurrence is deleted outright, so repeated tags collapse. */
  lemma RemoveAllLeading(pat: string, b: string)
    requires pat != []
    ensures RemoveAll(pat + b, pat) == RemoveAll(b, pat)
  {
    assert pat <= pat + b;
    assert (pat + b)[|pat|..] == b;
  }

  /** Trailing whitespace after a string that does not end in whitespace is
      exactly what `rstrip` removes. */
  lemma {:induction false} RStripTrailing(r: string, trail: string)
    requires r == [] || !IsSpace(r[|r| - 1])
    requires AllSpace(trail)
    ensures RStrip(r + trail) == r
    decreases |trail|
  {
    if trail == [] {
      assert r + trail == r;
    } else {
      var shorter := trail[..|trail| - 1];
      assert (r + trail)[..|r + trail| - 1] == r + shorter;
      assert IsSpace(trail[|trail| - 1]);
      RStripTrailing(r, shorter);
    }
  }

  /** Leading whitespace before a string that does not start with whitespace is
      exactly what `lstrip` removes. */
  lemma {:induction false} LStripLeading(lead: string, r: string)
    requires r == [] || !IsSpace(r[0])
    requires AllSpace(lead)
    ensures LStrip(lead + r) == r
    decreases |lead|
  {
    if lead == [] {
      assert lead + r == r;
    } else {
      assert (lead + r)[1..] == lead[1..] + r;
      assert IsSpace(lead[0]);
      LStripLeading(lead[1..], r);
    }
  }

  /** The two properties in the contract of `Strip` determine its result: a
      string that neither starts nor ends with whitespace, wrapped in
      whitespace, strips back to itself. */
  lemma StripUnique(lead: string, r: string, trail: string)
    requires r == [] || (!IsSpace(r[0]) && !IsSpace(r[|r| - 1]))
    requires AllSpace(lead) && AllSpace(trail)
    ensures Strip(lead + r + trail) == r
  {
    if r == [] {
      assert lead + r + trail == lead + trail;
      assert AllSpace(lead + trail);
      RStripTrailing([], lead + trail);
      assert [] + (lead + trail) == lead + trail;
    } else {
      assert lead + r + trail == (lead + r) + trail;
      RStripTrailing(lead + r, trail);
      LStripLeading(lead, r);
    }
  }
}
