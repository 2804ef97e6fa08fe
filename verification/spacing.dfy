/** Whitespace handling in the cleaner: `re.sub(r'\s+', ' ', t).strip()`
    and then `re.sub(r'\s+([.,!?;:])', r'\1', t)`. */
module Spacing {
  import opened Chars

  /** No whitespace at the start. */
  predicate NoLeadingSpace(s: string) {
    |s| > 0 ==> !IsSpace(s[0])
  }

  /** No whitespace at the end. */
  predicate NoTrailingSpace(s: string) {
    |s| > 0 ==> !IsSpace(s[|s| - 1])
  }

  /** Never two whitespace characters in a row. */
  predicate NoDoubleSpace(s: string) {
    forall i :: 0 <= i < |s| - 1 ==> !(IsSpace(s[i]) && IsSpace(s[i + 1]))
  }

  /** The only whitespace character present is the plain space. */
  predicate OnlyPlainSpaces(s: string) {
    forall i :: 0 <= i < |s| ==> IsSpace(s[i]) ==> s[i] == ' '
  }

  /** What `re.sub(r'\s+', ' ', t).strip()` produces: single plain spaces
      between non-blank stretches, nothing at either end. */
  predicate Normalized(s: string) {
    NoLeadingSpace(s) && NoTrailingSpace(s) && NoDoubleSpace(s) && OnlyPlainSpaces(s)
  }

  /** The non-whitespace characters of `s`, in order. */
  function NonSpace(s: string): (r: string)
    ensures forall i :: 0 <= i < |r| ==> !IsSpace(r[i])
    ensures |r| <= |s|
  {
    if s == [] then []
    else if IsSpace(s[0]) then NonSpace(s[1..])
    else [s[0]] + NonSpace(s[1..])
  }

  /** Length of the leading whitespace run of `s`. */
  function SpaceRun(s: string): (n: nat)
    ensures n <= |s|
    ensures forall k :: 0 <= k < n ==> IsSpace(s[k])
    ensures n < |s| ==> !IsSpace(s[n])
  {
    if s != [] && IsSpace(s[0]) then 1 + SpaceRun(s[1..]) else 0
  }

  /** The reference filter for `re.sub(r'\s+', ' ', s)`: a whitespace
      character is dropped when whitespace follows it and otherwise
      becomes a plain space; every other character stays. So each maximal
      whitespace run becomes exactly one space. */
  function MergeSpaces(s: string): (r: string)
    decreases |s|
  {
    if s == [] then []
    else if IsSpace(s[0]) && |s| > 1 && IsSpace(s[1]) then MergeSpaces(s[1..])
    else [if IsSpace(s[0]) then ' ' else s[0]] + MergeSpaces(s[1..])
  }

  /** Before a whitespace run, the filter emits one space and continues
      after the run. */
  lemma {:induction false} MergeSpacesRun(s: string)
    requires s != [] && IsSpace(s[0])
    ensures MergeSpaces(s) == [' '] + MergeSpaces(s[SpaceRun(s)..])
    decreases |s|
  {
    var t := s[1..];
    if |s| > 1 && IsSpace(s[1]) {
      assert MergeSpaces(s) == MergeSpaces(t);
      MergeSpacesRun(t);
      assert SpaceRun(s) == 1 + SpaceRun(t);
      assert t[SpaceRun(t)..] == s[SpaceRun(s)..];
    } else {
      assert MergeSpaces(s) == [' '] + MergeSpaces(t);
      assert SpaceRun(s) == 1;
    }
  }

  /** `re.sub(r'\s+', ' ', s)`: each maximal whitespace run becomes one
      space, which is the position-wise filter `MergeSpaces`. */
  function CollapseSpaces(s: string): (r: string)
    ensures r == MergeSpaces(s)
    ensures NoDoubleSpace(r) && OnlyPlainSpaces(r)
    ensures |s| > 0 ==> |r| > 0 && (IsSpace(r[0]) <==> IsSpace(s[0]))
    ensures forall x :: x in r ==> x in s || x == ' '
    decreases |s|
  {
    if s == [] then []
    else if IsSpace(s[0]) then
      MergeSpacesRun(s);
      [' '] + CollapseSpaces(s[SpaceRun(s)..])
    else [s[0]] + CollapseSpaces(s[1..])
  }

  /** `str.lstrip()`: drop the leading whitespace run. */
  function LStrip(s: string): (r: string)
    ensures NoLeadingSpace(r)
    ensures |r| <= |s|
    ensures r == s[|s| - |r|..]
    ensures forall k :: 0 <= k < |s| - |r| ==> IsSpace(s[k])
  {
    s[SpaceRun(s)..]
  }

  /** `str.rstrip()`: drop the trailing whitespace run. */
  function RStrip(s: string): (r: string)
    ensures NoTrailingSpace(r)
    ensures |r| <= |s|
    ensures r == s[..|r|]
    ensures forall k :: |r| <= k < |s| ==> IsSpace(s[k])
  {
    if s != [] && IsSpace(s[|s| - 1]) then
      var r := RStrip(s[..|s| - 1]);
      assert s[..|s| - 1][..|r|] == s[..|r|];
      r
    else s
  }

  /** `str.strip()`: the slice of `s` left after dropping whitespace at
      both ends. */
  function Strip(s: string): (r: string)
    ensures NoLeadingSpace(r) && NoTrailingSpace(r)
    ensures SpaceRun(s) + |r| <= |s| && r == s[SpaceRun(s)..SpaceRun(s) + |r|]
    ensures forall k :: 0 <= k < |s| && !(SpaceRun(s) <= k < SpaceRun(s) + |r|) ==> IsSpace(s[k])
    ensures forall x :: x in r ==> x in s
  {
    var l := LStrip(s);
    var r := RStrip(l);
    var n := SpaceRun(s);
    assert l == s[n..];
    assert r == s[n..n + |r|];
    forall k | n + |r| <= k < |s|
      ensures IsSpace(s[k])
    {
      assert s[k] == l[k - n];
    }
    r
  }

  /** The whitespace step of `clean_text`: collapse whitespace runs to one
      space, then trim. Words keep one space between them. */
  function NormalizeSpace(s: string): (r: string)
    ensures r == Strip(MergeSpaces(s))
    ensures Normalized(r)
    ensures forall x :: x in r ==> x in s || x == ' '
  {
    var c := CollapseSpaces(s);
    SliceKeepsSpacing(c, |c| - |LStrip(c)|, |c|);
    var l := LStrip(c);
    SliceKeepsSpacing(l, 0, |RStrip(l)|);
    Strip(c)
  }

  /** Any slice of a text keeps its "no double space" and "only plain
      spaces" properties. */
  lemma SliceKeepsSpacing(s: string, a: nat, b: nat)
    requires a <= b <= |s|
    ensures NoDoubleSpace(s) ==> NoDoubleSpace(s[a..b])
    ensures OnlyPlainSpaces(s) ==> OnlyPlainSpaces(s[a..b])
  {
    var t := s[a..b];
    assert forall i :: 0 <= i < |t| ==> t[i] == s[a + i];
  }

  /** `NonSpace` distributes over concatenation. */
  lemma {:induction false} NonSpaceAppend(a: string, b: string)
    ensures NonSpace(a + b) == NonSpace(a) + NonSpace(b)
    decreases |a|
  {
    if a == [] {
      assert a + b == b;
    } else {
      NonSpaceAppend(a[1..], b);
      assert (a + b)[0] == a[0];
      assert (a + b)[1..] == a[1..] + b;
    }
  }

  /** A string made only of whitespace has no non-whitespace content. */
  lemma {:induction false} NonSpaceOfBlank(s: string)
    requires forall k :: 0 <= k < |s| ==> IsSpace(s[k])
    ensures NonSpace(s) == []
    decreases |s|
  {
    if s != [] {
      NonSpaceOfBlank(s[1..]);
    }
  }

  /** Collapsing whitespace keeps every other character, in order. */
  lemma {:induction false} CollapseSpacesKeepsContent(s: string)
    ensures NonSpace(CollapseSpaces(s)) == NonSpace(s)
    decreases |s|
  {
    if s == [] {
    } else if IsSpace(s[0]) {
      var n := SpaceRun(s);
      CollapseSpacesKeepsContent(s[n..]);
      NonSpaceAppend([' '], CollapseSpaces(s[n..]));
      assert s == s[..n] + s[n..];
      NonSpaceAppend(s[..n], s[n..]);
      NonSpaceOfBlank(s[..n]);
    } else {
      CollapseSpacesKeepsContent(s[1..]);
      NonSpaceAppend([s[0]], CollapseSpaces(s[1..]));
      assert s == [s[0]] + s[1..];
      NonSpaceAppend([s[0]], s[1..]);
    }
  }

  /** Stripping keeps every non-whitespace character, in order. */
  lemma StripKeepsContent(s: string)
    ensures NonSpace(Strip(s)) == NonSpace(s)
  {
    LStripKeepsContent(s);
    RStripKeepsContent(LStrip(s));
  }

  /** Left-stripping drops whitespace only. */
  lemma LStripKeepsContent(s: string)
    ensures NonSpace(LStrip(s)) == NonSpace(s)
  {
    var l := LStrip(s);
    var n := |s| - |l|;
    assert s == s[..n] + l;
    NonSpaceAppend(s[..n], l);
    NonSpaceOfBlank(s[..n]);
  }

  /** Right-stripping drops whitespace only. */
  lemma RStripKeepsContent(s: string)
    ensures NonSpace(RStrip(s)) == NonSpace(s)
  {
    var r := RStrip(s);
    assert s == r + s[|r|..];
    NonSpaceAppend(r, s[|r|..]);
    NonSpaceOfBlank(s[|r|..]);
  }

  /** Whitespace normalisation removes or replaces whitespace only. */
  lemma NormalizeSpaceKeepsContent(s: string)
    ensures NonSpace(NormalizeSpace(s)) == NonSpace(s)
  {
    CollapseSpacesKeepsContent(s);
    StripKeepsContent(CollapseSpaces(s));
  }

  /** Normalisation is the identity exactly on normalised texts. */
  lemma NormalizeSpaceFixpoint(s: string)
    ensures Normalized(s) <==> NormalizeSpace(s) == s
  {
    if Normalized(s) {
      CollapseSpacesOfNormalized(s);
      assert LStrip(s) == s;
      RStripOfNoTrailing(s);
    }
  }

  /** Collapsing is the identity when every whitespace is a lone plain space. */
  lemma {:induction false} CollapseSpacesOfNormalized(s: string)
    requires NoDoubleSpace(s) && OnlyPlainSpaces(s)
    ensures CollapseSpaces(s) == s
    decreases |s|
  {
    if s != [] {
      SliceKeepsSpacing(s, 1, |s|);
      assert s[1..|s|] == s[1..];
      CollapseSpacesOfNormalized(s[1..]);
      if IsSpace(s[0]) {
        assert SpaceRun(s) == 1;
      }
    }
  }

  /** Right-stripping is the identity without trailing whitespace. */
  lemma RStripOfNoTrailing(s: string)
    requires NoTrailingSpace(s)
    ensures RStrip(s) == s
  {
  }

  /** The characters `[.,!?;:]` that whitespace may not precede. */
  predicate IsClosingPunct(c: char) {
    c == '.' || c == ',' || c == '!' || c == '?' || c == ';' || c == ':'
  }

  /** Never a whitespace character directly before `[.,!?;:]`. */
  predicate NoSpaceBeforePunct(s: string) {
    forall i :: 0 <= i < |s| - 1 ==> !(IsSpace(s[i]) && IsClosingPunct(s[i + 1]))
  }

  /** `\s+([.,!?;:])` matches at the start of `s`: a whitespace run whose
      first following character is one of the punctuation marks. */
  predicate PunctAfterSpaces(s: string) {
    var n := SpaceRun(s);
    n > 0 && n < |s| && IsClosingPunct(s[n])
  }

  /** The reference filter for `re.sub(r'\s+([.,!?;:])', r'\1', s)`: the
      character at a position is dropped exactly when the text from there
      on is a whitespace run followed by one of the marks; every other
      character, whitespace included, stays. */
  function DropSpacesBeforePunct(s: string): (r: string)
    decreases |s|
  {
    if s == [] then []
    else if PunctAfterSpaces(s) then DropSpacesBeforePunct(s[1..])
    else [s[0]] + DropSpacesBeforePunct(s[1..])
  }

  /** The leading whitespace run of a suffix inside a run. */
  lemma {:induction false} SpaceRunSuffix(s: string, k: nat)
    requires k <= SpaceRun(s)
    ensures SpaceRun(s[k..]) == SpaceRun(s) - k
    decreases k
  {
    if k > 0 {
      SpaceRunSuffix(s[1..], k - 1);
      assert s[1..][k - 1..] == s[k..];
    }
  }

  /** From inside a whitespace run that a mark follows, the filter drops
      the rest of the run and keeps the mark. */
  lemma {:induction false} DropRunBeforePunct(s: string, k: nat)
    requires PunctAfterSpaces(s) && k <= SpaceRun(s)
    ensures DropSpacesBeforePunct(s[k..]) == [s[SpaceRun(s)]] + DropSpacesBeforePunct(s[SpaceRun(s) + 1..])
    decreases SpaceRun(s) - k
  {
    var n := SpaceRun(s);
    var u := s[k..];
    SpaceRunSuffix(s, k);
    if k == n {
      assert u[0] == s[n] && u[1..] == s[n + 1..];
      assert !PunctAfterSpaces(u);
    } else {
      assert PunctAfterSpaces(u) && u[1..] == s[k + 1..];
      DropRunBeforePunct(s, k + 1);
    }
  }

  /** `re.sub(r'\s+([.,!?;:])', r'\1', s)`: a whitespace run
      followed by one of the marks is replaced by the mark alone, which is
      the position-wise filter `DropSpacesBeforePunct`; other whitespace
      stays. */
  function StripBeforePunct(s: string): (r: string)
    ensures r == DropSpacesBeforePunct(s)
    ensures NoSpaceBeforePunct(r)
    ensures |s| > 0 ==> |r| > 0 && r[0] == (if PunctAfterSpaces(s) then s[SpaceRun(s)] else s[0])
    ensures forall x :: x in r ==> x in s
    decreases |s|
  {
    if s == [] then []
    else if PunctAfterSpaces(s) then
      var n := SpaceRun(s);
      DropRunBeforePunct(s, 0);
      assert s[0..] == s;
      [s[n]] + StripBeforePunct(s[n + 1..])
    else
      [s[0]] + StripBeforePunct(s[1..])
  }

  /** The step keeps the shape whitespace normalisation gave the text. */
  lemma StripBeforePunctKeepsShape(s: string)
    ensures NoLeadingSpace(s) ==> NoLeadingSpace(StripBeforePunct(s))
    ensures NoTrailingSpace(s) ==> NoTrailingSpace(StripBeforePunct(s))
    ensures NoDoubleSpace(s) ==> NoDoubleSpace(StripBeforePunct(s))
  {
    if NoTrailingSpace(s) {
      StripBeforePunctKeepsTrailing(s);
    }
    if NoDoubleSpace(s) {
      StripBeforePunctKeepsDouble(s);
    }
  }

  /** Where the scan of `StripBeforePunct` resumes after emitting its first
      character. */
  function StripResume(s: string): (k: nat)
    requires s != []
    ensures 0 < k <= |s|
  {
    if PunctAfterSpaces(s) then SpaceRun(s) + 1 else 1
  }

  /** One step of the scan: the first emitted character, then the scan of
      the rest. */
  lemma StripStep(s: string)
    requires s != []
    ensures StripBeforePunct(s) == [StripBeforePunct(s)[0]] + StripBeforePunct(s[StripResume(s)..])
  {
  }

  /** The step adds no trailing whitespace. */
  lemma {:induction false} StripBeforePunctKeepsTrailing(s: string)
    requires NoTrailingSpace(s)
    ensures NoTrailingSpace(StripBeforePunct(s))
    decreases |s|
  {
    if s != [] {
      var t := s[StripResume(s)..];
      StripStep(s);
      if t != [] {
        assert t[|t| - 1] == s[|s| - 1];
        StripBeforePunctKeepsTrailing(t);
      }
    }
  }

  /** The step adds no pair of adjacent whitespace characters. */
  lemma {:induction false} StripBeforePunctKeepsDouble(s: string)
    requires NoDoubleSpace(s)
    ensures NoDoubleSpace(StripBeforePunct(s))
    decreases |s|
  {
    if s != [] {
      var k := StripResume(s);
      var t := s[k..];
      SliceKeepsSpacing(s, k, |s|);
      assert s[k..|s|] == t;
      StripBeforePunctKeepsDouble(t);
      StripStep(s);
      StripHeadSingle(s);
      ConsNoDoubleSpace(StripBeforePunct(s)[0], StripBeforePunct(t));
    }
  }

  /** The first two characters the step emits are not both whitespace. */
  lemma StripHeadSingle(s: string)
    requires s != [] && NoDoubleSpace(s)
    ensures var r := StripBeforePunct(s[StripResume(s)..]);
            r != [] ==> !(IsSpace(StripBeforePunct(s)[0]) && IsSpace(r[0]))
  {
    if !PunctAfterSpaces(s) && IsSpace(s[0]) && |s| > 1 {
      var t := s[1..];
      assert !IsSpace(s[1]) && t[0] == s[1];
      assert StripBeforePunct(t)[0] == s[1];
    }
  }

  /** Putting a character in front of a text without adjacent whitespace. */
  lemma ConsNoDoubleSpace(c: char, r: string)
    requires NoDoubleSpace(r)
    requires r != [] ==> !(IsSpace(c) && IsSpace(r[0]))
    ensures NoDoubleSpace([c] + r)
  {
    var x := [c] + r;
    forall i | 0 <= i < |x| - 1
      ensures !(IsSpace(x[i]) && IsSpace(x[i + 1]))
    {
      if i > 0 {
        assert x[i] == r[i - 1] && x[i + 1] == r[i];
      }
    }
  }

  /** The step deletes whitespace only. */
  lemma {:induction false} StripBeforePunctKeepsContent(s: string)
    ensures NonSpace(StripBeforePunct(s)) == NonSpace(s)
    decreases |s|
  {
    if s != [] {
      var t := s[StripResume(s)..];
      StripBeforePunctKeepsContent(t);
      StripStep(s);
      NonSpaceAppend([StripBeforePunct(s)[0]], StripBeforePunct(t));
      StripHeadContent(s);
    }
  }

  /** What the first step of the scan skips is whitespace only. */
  lemma StripHeadContent(s: string)
    requires s != []
    ensures NonSpace(s) == NonSpace([StripBeforePunct(s)[0]]) + NonSpace(s[StripResume(s)..])
  {
    if PunctAfterSpaces(s) {
      var n := SpaceRun(s);
      assert s == s[..n] + ([s[n]] + s[n + 1..]);
      NonSpaceAppend(s[..n], [s[n]] + s[n + 1..]);
      NonSpaceAppend([s[n]], s[n + 1..]);
      NonSpaceOfBlank(s[..n]);
    } else {
      assert s == [s[0]] + s[1..];
      NonSpaceAppend([s[0]], s[1..]);
    }
  }

  /** Where no whitespace precedes a mark, the step changes nothing. */
  lemma {:induction false} StripBeforePunctFixpoint(s: string)
    requires NoSpaceBeforePunct(s)
    ensures StripBeforePunct(s) == s
    decreases |s|
  {
    if s != [] {
      NoPunctAfterSpaces(s);
      NoSpaceBeforePunctTail(s);
      StripBeforePunctFixpoint(s[1..]);
    }
  }

  /** Without whitespace before a mark, `\s+([.,!?;:])` cannot match at the
      start. */
  lemma NoPunctAfterSpaces(s: string)
    requires NoSpaceBeforePunct(s)
    ensures !PunctAfterSpaces(s)
  {
    var n := SpaceRun(s);
    if n > 0 && n < |s| {
      assert IsSpace(s[n - 1]);
    }
  }

  /** The property survives dropping the first character. */
  lemma NoSpaceBeforePunctTail(s: string)
    requires s != [] && NoSpaceBeforePunct(s)
    ensures NoSpaceBeforePunct(s[1..])
  {
    var t := s[1..];
    forall i | 0 <= i < |t| - 1
      ensures !(IsSpace(t[i]) && IsClosingPunct(t[i + 1]))
    {
      assert t[i] == s[i + 1] && t[i + 1] == s[i + 2];
    }
  }
}
