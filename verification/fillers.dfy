/** Filler-word removal: the `FILLERS` list and the loop that deletes each
    entry with `re.sub(rf"\b{re.escape(filler)}\b", "", text, flags=re.IGNORECASE)`.

    A substitution of a fixed literal framed by `\b` scans the ORIGINAL
    string left to right: at each position it either finds a whole-word,
    case-insensitive occurrence (deleted, scan resumes after it) or copies
    one character. Both `\b` tests look at the original string, never at the
    partly rewritten one. */
module Fillers {
  import opened Chars

  /** The filler words and phrases, in the order the loop removes them. */
  const FILLERS: seq<string> := [
    "um", "uh", "like", "you know", "basically", "literally",
    "hmm", "so", "actually", "kind of", "sort of", "i mean",
    "you see", "well", "right", "okay", "alright"
  ]

  /** A pattern for which `\bw\b` means "w, not glued to a word character on
      either side": it starts and ends with a word character, and no two of
      its non-word characters (the spaces in "you know") are adjacent. */
  predicate WellFormed(w: string) {
    && |w| > 0
    && IsWordChar(w[0])
    && IsWordChar(w[|w| - 1])
    && forall k :: 0 <= k < |w| - 1 ==> IsWordChar(w[k]) || IsWordChar(w[k + 1])
  }

  /** `w` occurs at `i`, ignoring case (`re.IGNORECASE`). */
  predicate MatchesAt(s: string, w: string, i: int) {
    && 0 <= i
    && i + |w| <= |s|
    && forall k :: 0 <= k < |w| ==> Lower(s[i + k]) == Lower(w[k])
  }

  /** `\bw\b` matches at `i` (for a well-formed `w`). */
  predicate WholeWordAt(s: string, w: string, i: int) {
    && MatchesAt(s, w, i)
    && (i == 0 || !IsWordChar(s[i - 1]))
    && (i + |w| == |s| || !IsWordChar(s[i + |w|]))
  }

  /** No whole-word, case-insensitive occurrence of `w` anywhere in `s`. */
  predicate NoWholeWord(s: string, w: string) {
    forall i :: 0 <= i <= |s| ==> !WholeWordAt(s, w, i)
  }

  /** The substitution scan from position `i` of the original string `s`. */
  function SubFrom(s: string, w: string, i: nat): (r: string)
    requires |w| > 0 && i <= |s|
    ensures |r| <= |s| - i
    ensures forall c :: c in r ==> c in s[i..]
    decreases |s| - i
  {
    if i == |s| then []
    else if WholeWordAt(s, w, i) then SubFrom(s, w, i + |w|)
    else [s[i]] + SubFrom(s, w, i + 1)
  }

  /** `hs` are the starts of non-overlapping `n`-long windows inside a text
      of length `len`, in increasing order, none before `i`. */
  predicate Spaced(hs: seq<nat>, i: nat, n: nat, len: nat)
    decreases |hs|
  {
    hs == [] || (i <= hs[0] && hs[0] + n <= len && Spaced(hs[1..], hs[0] + n, n, len))
  }

  /** Position `m` lies in one of the windows `[h, h + n)`, `h` in `hs`. */
  predicate Covered(hs: seq<nat>, n: nat, m: nat)
    decreases |hs|
  {
    hs != [] && (hs[0] <= m < hs[0] + n || Covered(hs[1..], n, m))
  }

  /** `s[i..]` with the windows `[h, h + n)` cut out, for every `h` in `hs`. */
  function CutOut(s: string, i: nat, hs: seq<nat>, n: nat): (r: string)
    requires i <= |s| && Spaced(hs, i, n, |s|)
    decreases |hs|
  {
    if hs == [] then s[i..] else s[i..hs[0]] + CutOut(s, hs[0] + n, hs[1..], n)
  }

  /** The positions at which the scan from `i` deletes an occurrence: each
      is a whole-word match, they do not overlap, and every whole-word match
      from `i` on lies inside one of them (a match overlapping an earlier
      deleted one is not deleted on its own). These three facts determine
      the positions: the first is the first match from `i` on, and each
      next one is the first match after the previous window. */
  function Hits(s: string, w: string, i: nat): (hs: seq<nat>)
    requires |w| > 0 && i <= |s|
    ensures Spaced(hs, i, |w|, |s|)
    ensures forall k :: 0 <= k < |hs| ==> WholeWordAt(s, w, hs[k])
    ensures forall m :: i <= m < |s| && WholeWordAt(s, w, m) ==> Covered(hs, |w|, m)
    decreases |s| - i
  {
    if i == |s| then []
    else if WholeWordAt(s, w, i) then
      var rest := Hits(s, w, i + |w|);
      var hs := [i] + rest;
      assert hs[1..] == rest;
      assert forall k :: 1 <= k < |hs| ==> hs[k] == rest[k - 1];
      hs
    else
      Hits(s, w, i + 1)
  }

  /** Dropping a leading character that no window covers. */
  lemma CutOutCons(s: string, i: nat, hs: seq<nat>, n: nat)
    requires i < |s| && Spaced(hs, i + 1, n, |s|)
    ensures Spaced(hs, i, n, |s|)
    ensures CutOut(s, i, hs, n) == [s[i]] + CutOut(s, i + 1, hs, n)
  {
    if hs == [] {
      assert s[i..] == [s[i]] + s[i + 1..];
    } else {
      CutOutConsWindow(s, i, hs, n, hs[0]);
    }
  }

  /** `CutOutCons` when a window starts at `h`, after `i`. */
  lemma CutOutConsWindow(s: string, i: nat, hs: seq<nat>, n: nat, h: nat)
    requires i < |s| && Spaced(hs, i + 1, n, |s|) && hs != [] && h == hs[0]
    ensures Spaced(hs, i, n, |s|)
    ensures CutOut(s, i, hs, n) == [s[i]] + CutOut(s, i + 1, hs, n)
  {
    assert Spaced(hs[1..], h + n, n, |s|);
    var rest := CutOut(s, h + n, hs[1..], n);
    assert CutOut(s, i + 1, hs, n) == s[i + 1..h] + rest;
    ConsSlice(s, i, h - i, rest);
  }

  /** The scan deletes exactly the windows at `Hits` and keeps every other
      character, in order. The two steps are proved in `CutAtOther` and
      `CutAtMatch`, which recurse back here. */
  lemma {:induction false} SubFromIsCutOut(s: string, w: string, i: nat)
    requires |w| > 0 && i <= |s|
    ensures SubFrom(s, w, i) == CutOut(s, i, Hits(s, w, i), |w|)
    decreases |s| - i, 1
  {
    if i == |s| {
      assert s[i..] == [];
    } else if WholeWordAt(s, w, i) {
      CutAtMatch(s, w, i);
    } else {
      CutAtOther(s, w, i);
    }
  }

  /** The step of `SubFromIsCutOut` where no match starts. */
  lemma {:induction false} CutAtOther(s: string, w: string, i: nat)
    requires |w| > 0 && i < |s| && !WholeWordAt(s, w, i)
    ensures SubFrom(s, w, i) == CutOut(s, i, Hits(s, w, i), |w|)
    decreases |s| - i, 0
  {
    SubFromIsCutOut(s, w, i + 1);
    CutOutCons(s, i, Hits(s, w, i + 1), |w|);
  }

  /** The step of `SubFromIsCutOut` at a whole-word match. */
  lemma {:induction false} CutAtMatch(s: string, w: string, i: nat)
    requires |w| > 0 && i < |s| && WholeWordAt(s, w, i)
    ensures SubFrom(s, w, i) == CutOut(s, i, Hits(s, w, i), |w|)
    decreases |s| - i, 0
  {
    var rest := Hits(s, w, i + |w|);
    calc {
      SubFrom(s, w, i);
      { SubFromAtMatch(s, w, i); }
      SubFrom(s, w, i + |w|);
      { SubFromIsCutOut(s, w, i + |w|); }
      CutOut(s, i + |w|, rest, |w|);
      { CutOutAtHead(s, i, rest, |w|); }
      CutOut(s, i, [i] + rest, |w|);
      { HitsAtMatch(s, w, i); }
      CutOut(s, i, Hits(s, w, i), |w|);
    }
  }

  /** At a whole-word match the scan skips the occurrence. */
  lemma SubFromAtMatch(s: string, w: string, i: nat)
    requires |w| > 0 && i < |s| && WholeWordAt(s, w, i)
    ensures i + |w| <= |s| && SubFrom(s, w, i) == SubFrom(s, w, i + |w|)
  {
  }

  /** A whole-word match at `i` is the first hit from `i`. */
  lemma HitsAtMatch(s: string, w: string, i: nat)
    requires |w| > 0 && i < |s| && WholeWordAt(s, w, i)
    ensures i + |w| <= |s| && Hits(s, w, i) == [i] + Hits(s, w, i + |w|)
  {
  }

  /** Cutting a window at the very start of `s[i..]`. */
  lemma CutOutAtHead(s: string, i: nat, rest: seq<nat>, n: nat)
    requires i + n <= |s| && Spaced(rest, i + n, n, |s|)
    ensures Spaced([i] + rest, i, n, |s|)
    ensures CutOut(s, i, [i] + rest, n) == CutOut(s, i + n, rest, n)
  {
    assert ([i] + rest)[1..] == rest;
    assert s[i..i] == [];
  }

  /** `re.sub(rf"\b{re.escape(w)}\b", "", s, flags=re.IGNORECASE)`: the
      text with the whole-word matches at `Hits(s, w, 0)` cut out. */
  function RemoveWord(s: string, w: string): (r: string)
    requires |w| > 0
    ensures r == CutOut(s, 0, Hits(s, w, 0), |w|)
  {
    SubFromIsCutOut(s, w, 0);
    SubFrom(s, w, 0)
  }

  /** An occurrence of `w` at `j` in `r`, where `leftOpen` stands in for the
      left boundary when `j` is 0 (the character before `r` is not a word
      character, or there is none). */
  predicate OccAt(r: string, w: string, j: int, leftOpen: bool) {
    && MatchesAt(r, w, j)
    && (if j == 0 then leftOpen else !IsWordChar(r[j - 1]))
    && (j + |w| == |r| || !IsWordChar(r[j + |w|]))
  }

  /** Left-boundary context of the scan at `i`. */
  predicate Open(s: string, i: int)
    requires 0 <= i <= |s|
  {
    i == 0 || !IsWordChar(s[i - 1])
  }

  /** The scan copies a non-word character: no well-formed pattern starts there. */
  lemma SubFromAtNonWord(s: string, w: string, i: nat)
    requires WellFormed(w) && i < |s| && !IsWordChar(s[i])
    ensures SubFrom(s, w, i) == [s[i]] + SubFrom(s, w, i + 1)
  {
    assert Lower(s[i + 0]) != Lower(w[0]);
  }

  /** Right after a word character, no well-formed pattern can start. */
  lemma SubFromAfterWord(s: string, w: string, j: nat)
    requires WellFormed(w) && 0 < j < |s| && IsWordChar(s[j - 1])
    ensures SubFrom(s, w, j) == [s[j]] + SubFrom(s, w, j + 1)
  {
  }

  /** Where no match starts in `[i, i + n)`, the scan copies those characters. */
  lemma {:induction false} SubFromCopies(s: string, w: string, i: nat, n: nat)
    requires |w| > 0 && i + n <= |s|
    requires forall m :: i <= m < i + n ==> !WholeWordAt(s, w, m)
    ensures SubFrom(s, w, i) == s[i..i + n] + SubFrom(s, w, i + n)
    decreases n
  {
    if n > 0 {
      var rest := SubFrom(s, w, i + n);
      SubFromCopies(s, w, i + 1, n - 1);
      assert SubFrom(s, w, i + 1) == s[i + 1..i + n] + rest;
      SubFromCopiesOne(s, w, i);
      ConsSlice(s, i, n, rest);
    } else {
      assert s[i..i + n] == [];
    }
  }

  /** Where no match starts at `i`, the scan copies `s[i]`. */
  lemma SubFromCopiesOne(s: string, w: string, i: nat)
    requires |w| > 0 && i < |s| && !WholeWordAt(s, w, i)
    ensures SubFrom(s, w, i) == [s[i]] + SubFrom(s, w, i + 1)
  {
  }

  /** A slice is its first character in front of the rest. */
  lemma ConsSlice(s: string, i: nat, n: nat, x: string)
    requires 0 < n && i + n <= |s|
    ensures [s[i]] + (s[i + 1..i + n] + x) == s[i..i + n] + x
  {
    assert s[i..i + n] == [s[i]] + s[i + 1..i + n];
  }

  /** The right boundary of a `|w|`-long window at `j`. */
  predicate RightOpen(s: string, j: int)
    requires 0 <= j
  {
    j >= |s| || !IsWordChar(s[j])
  }

  /** The window `[i, i + |f|)` holds no deletion: the output window is the
      original one, and so is the character after it. */
  lemma WindowCopied(s: string, g: string, f: string, i: nat)
    requires WellFormed(g) && WellFormed(f) && i + |f| <= |s|
    requires forall m :: i <= m < i + |f| ==> !WholeWordAt(s, g, m)
    ensures MatchesAt(SubFrom(s, g, i), f, 0) && RightOpen(SubFrom(s, g, i), |f|)
            ==> MatchesAt(s, f, i) && RightOpen(s, i + |f|)
  {
    var r := SubFrom(s, g, i);
    var n := |f|;
    SubFromCopies(s, g, i, n);
    if MatchesAt(r, f, 0) {
      MatchCopied(s, r, f, i);
      if i + n < |s| {
        assert Lower(s[i + (n - 1)]) == Lower(f[n - 1]);
        SubFromAfterWord(s, g, i + n);
        assert r == s[i..i + n] + ([s[i + n]] + SubFrom(s, g, i + n + 1));
        assert r[n] == s[i + n];
      }
    }
  }

  /** An occurrence at the start of a copy of `s[i..]` is one at `i` in `s`. */
  lemma MatchCopied(s: string, r: string, f: string, i: nat)
    requires i + |f| <= |s| && |f| <= |r| && r[..|f|] == s[i..i + |f|]
    requires MatchesAt(r, f, 0)
    ensures MatchesAt(s, f, i)
  {
    forall q | 0 <= q < |f|
      ensures Lower(s[i + q]) == Lower(f[q])
    {
      assert r[..|f|][q] == r[q];
      assert r[q] == s[i + q];
    }
  }

  /** A deletion starts at `k`, strictly inside the window: the output
      window then holds two adjacent non-word characters, which no
      well-formed `f` has. */
  lemma WindowCut(s: string, g: string, f: string, i: nat, k: nat)
    requires WellFormed(g) && WellFormed(f) && i < k < i + |f| <= |s|
    requires WholeWordAt(s, g, k)
    requires forall m :: i <= m < k ==> !WholeWordAt(s, g, m)
    ensures !MatchesAt(SubFrom(s, g, i), f, 0)
  {
    var t := k + |g|;
    assert t <= |s| && !IsWordChar(s[k - 1]) && (t < |s| ==> !IsWordChar(s[t]));
    CutPrefix(s, g, i, k);
    CutRest(s, g, t);
    var a := s[i..k];
    assert a[|a| - 1] == s[k - 1];
    SeamNoMatch(a, SubFrom(s, g, t), f);
  }

  /** Gluing a text that ends in a non-word character to one that starts
      with a non-word character (or is empty) leaves two non-word
      characters side by side, where a longer well-formed `f` has at least
      one word character. */
  lemma SeamNoMatch(a: string, x: string, f: string)
    requires WellFormed(f) && 0 < |a| < |f|
    requires !IsWordChar(a[|a| - 1])
    requires |x| > 0 ==> !IsWordChar(x[0])
    ensures !MatchesAt(a + x, f, 0)
  {
    var r := a + x;
    var q := |a| - 1;
    if |r| >= |f| {
      assert r[q] == a[q] && r[q + 1] == x[0];
      if IsWordChar(f[q]) {
        assert Lower(r[q + 0]) != Lower(f[q]);
      } else {
        assert Lower(r[q + 1]) != Lower(f[q + 1]);
      }
    }
  }

  /** Up to the first deletion, at `k`, the scan from `i` copies; then it
      resumes after the deleted word. */
  lemma CutPrefix(s: string, g: string, i: nat, k: nat)
    requires |g| > 0 && i <= k
    requires WholeWordAt(s, g, k)
    requires forall m :: i <= m < k ==> !WholeWordAt(s, g, m)
    ensures SubFrom(s, g, i) == s[i..k] + SubFrom(s, g, k + |g|)
  {
    SubFromCopies(s, g, i, k - i);
    SubFromSkips(s, g, k);
    assert i + (k - i) == k;
  }

  /** Where a match starts at `k`, the scan skips it. */
  lemma SubFromSkips(s: string, g: string, k: nat)
    requires |g| > 0 && k < |s| && WholeWordAt(s, g, k)
    ensures SubFrom(s, g, k) == SubFrom(s, g, k + |g|)
  {
  }

  /** After a deletion that ends before a non-word character, the scan
      starts by copying that character. */
  lemma CutRest(s: string, g: string, t: nat)
    requires WellFormed(g) && t <= |s| && (t < |s| ==> !IsWordChar(s[t]))
    ensures var x := SubFrom(s, g, t);
            (t < |s| ==> |x| > 0 && !IsWordChar(x[0])) && (t == |s| ==> x == [])
  {
    if t < |s| {
      SubFromAtNonWord(s, g, t);
    }
  }

  /** The heart of the argument: if the output of the scan at `i` (which
      does not delete at `i`) begins with a right-bounded occurrence of a
      well-formed `f`, then so does the original string at `i`. */
  lemma Window(s: string, g: string, f: string, i: nat)
    requires WellFormed(g) && WellFormed(f) && i < |s|
    requires !WholeWordAt(s, g, i)
    ensures MatchesAt(SubFrom(s, g, i), f, 0) && RightOpen(SubFrom(s, g, i), |f|)
            ==> MatchesAt(s, f, i) && RightOpen(s, i + |f|)
  {
    if i + |f| <= |s| {
      var k := i;
      while k < i + |f| && !WholeWordAt(s, g, k)
        invariant i <= k <= i + |f|
        invariant forall m :: i <= m < k ==> !WholeWordAt(s, g, m)
      {
        k := k + 1;
      }
      if k == i + |f| {
        WindowCopied(s, g, f, i);
      } else {
        WindowCut(s, g, f, i, k);
      }
    }
  }

  /** Prepending one character shifts every occurrence past the first
      position by one. */
  lemma ShiftOcc(r: string, x: char, r': string, f: string, j: int, leftOpen: bool)
    requires r == [x] + r' && j >= 1
    ensures OccAt(r, f, j, leftOpen) <==> OccAt(r', f, j - 1, !IsWordChar(x))
  {
    if MatchesAt(r, f, j) {
      forall q | 0 <= q < |f|
        ensures Lower(r'[j - 1 + q]) == Lower(f[q])
      {
        assert r[j + q] == r'[j - 1 + q];
      }
    }
    if MatchesAt(r', f, j - 1) {
      forall q | 0 <= q < |f|
        ensures Lower(r[j + q]) == Lower(f[q])
      {
        assert r[j + q] == r'[j - 1 + q];
      }
    }
  }

  /** Nothing the scan emits from `i` on is an occurrence of `f`, provided
      every whole-word occurrence of `f` in the original is also one of the
      pattern `g` being deleted. With `f == g` this is "the substitution
      leaves no match behind"; with `f` absent it is "deleting `g` creates no
      new `f`". */
  lemma {:induction false} ScanLeavesNoOcc(s: string, g: string, f: string, i: nat)
    requires WellFormed(g) && WellFormed(f) && i <= |s|
    requires forall k :: i <= k <= |s| && WholeWordAt(s, f, k) ==> WholeWordAt(s, g, k)
    ensures forall j :: !OccAt(SubFrom(s, g, i), f, j, Open(s, i))
    decreases |s| - i
  {
    if i == |s| {
    } else if WholeWordAt(s, g, i) {
      ScanLeavesNoOcc(s, g, f, i + |g|);
      ScanDeleteStep(s, g, f, i, i + |g|);
    } else {
      ScanLeavesNoOcc(s, g, f, i + 1);
      ScanCopyStep(s, g, f, i, i + 1);
    }
  }

  /** `ScanLeavesNoOcc` across a deletion at `i`: the scan resumes after
      the deleted word, in front of a non-word character or the end. */
  lemma ScanDeleteStep(s: string, g: string, f: string, i: nat, t: nat)
    requires WellFormed(g) && WellFormed(f) && i < |s| && WholeWordAt(s, g, i) && t == i + |g|
    requires forall j :: !OccAt(SubFrom(s, g, t), f, j, Open(s, t))
    ensures forall j :: !OccAt(SubFrom(s, g, i), f, j, Open(s, i))
  {
    var r := SubFrom(s, g, t);
    assert SubFrom(s, g, i) == r;
    forall j
      ensures !OccAt(r, f, j, Open(s, i))
    {
      if j == 0 && |r| > 0 {
        SubFromAtNonWord(s, g, t);
        assert Lower(r[0 + 0]) != Lower(f[0]);
      } else if j != 0 {
        assert !OccAt(r, f, j, Open(s, t));
      }
    }
  }

  /** `ScanLeavesNoOcc` across a copied character at `i`. */
  lemma ScanCopyStep(s: string, g: string, f: string, i: nat, n: nat)
    requires WellFormed(g) && WellFormed(f) && i < |s| && !WholeWordAt(s, g, i) && n == i + 1
    requires !WholeWordAt(s, f, i)
    requires forall j :: !OccAt(SubFrom(s, g, n), f, j, Open(s, n))
    ensures forall j :: !OccAt(SubFrom(s, g, i), f, j, Open(s, i))
  {
    var r := SubFrom(s, g, i);
    SubFromCopiesOne(s, g, i);
    Window(s, g, f, i);
    OccIsRightOpen(r, f, Open(s, i));
    WholeWordFromParts(s, f, i);
    NoOccAfterCopy(r, s[i], SubFrom(s, g, n), f, Open(s, i), Open(s, n));
  }

  /** An occurrence at the start is a match followed by a non-word
      character or the end. */
  lemma OccIsRightOpen(r: string, f: string, leftOpen: bool)
    ensures OccAt(r, f, 0, leftOpen) ==> MatchesAt(r, f, 0) && leftOpen && RightOpen(r, |f|)
  {
  }

  /** A match with both boundaries open is a whole-word match. */
  lemma WholeWordFromParts(s: string, f: string, i: nat)
    requires i <= |s|
    ensures MatchesAt(s, f, i) && Open(s, i) && RightOpen(s, i + |f|) ==> WholeWordAt(s, f, i)
  {
  }

  /** A text that is one character `x` in front of a text without
      occurrences has none either, except possibly at its start. */
  lemma NoOccAfterCopy(r: string, x: char, r': string, f: string, leftOpen: bool, afterX: bool)
    requires r == [x] + r' && afterX == !IsWordChar(x)
    requires forall j :: !OccAt(r', f, j, afterX)
    requires !OccAt(r, f, 0, leftOpen)
    ensures forall j :: !OccAt(r, f, j, leftOpen)
  {
    forall j | j > 0
      ensures !OccAt(r, f, j, leftOpen)
    {
      ShiftOcc(r, x, r', f, j, leftOpen);
      assert !OccAt(r', f, j - 1, afterX);
    }
  }

  /** After deleting `w`, no whole-word occurrence of `w` is left. */
  lemma RemoveWordClears(s: string, w: string)
    requires WellFormed(w)
    ensures NoWholeWord(RemoveWord(s, w), w)
  {
    ScanLeavesNoOcc(s, w, w, 0);
    var r := RemoveWord(s, w);
    forall i | 0 <= i <= |r|
      ensures !WholeWordAt(r, w, i)
    {
      assert !OccAt(r, w, i, Open(s, 0));
    }
  }

  /** Deleting one well-formed pattern never creates a whole-word occurrence
      of another well-formed pattern that was absent. */
  lemma RemoveWordKeepsAbsence(s: string, g: string)
    requires WellFormed(g)
    ensures forall f :: WellFormed(f) && NoWholeWord(s, f) ==> NoWholeWord(RemoveWord(s, g), f)
  {
    var r := RemoveWord(s, g);
    forall f | WellFormed(f) && NoWholeWord(s, f)
      ensures NoWholeWord(r, f)
    {
      ScanLeavesNoOcc(s, g, f, 0);
      forall i | 0 <= i <= |r|
        ensures !WholeWordAt(r, f, i)
      {
        assert !OccAt(r, f, i, Open(s, 0));
      }
    }
  }

  /** Where `w` does not occur, the substitution is the identity. */
  lemma RemoveWordAbsent(s: string, w: string)
    requires |w| > 0 && NoWholeWord(s, w)
    ensures RemoveWord(s, w) == s
  {
    SubFromCopies(s, w, 0, |s|);
    assert s[0..|s|] == s;
  }

  /** The reference for the loop: for each pattern in turn, cut its
      whole-word hits out of the current text. */
  function Passes(s: string, ws: seq<string>): (r: string)
    requires forall k :: 0 <= k < |ws| ==> WellFormed(ws[k])
    decreases |ws|
  {
    if ws == [] then s
    else
      assert WellFormed(ws[0]);
      Passes(CutOut(s, 0, Hits(s, ws[0], 0), |ws[0]|), ws[1..])
  }

  /** The filler loop, one pattern after another in list order. */
  function RemoveAll(s: string, ws: seq<string>): (r: string)
    requires forall k :: 0 <= k < |ws| ==> WellFormed(ws[k])
    ensures r == Passes(s, ws)
    ensures forall k :: 0 <= k < |ws| ==> NoWholeWord(r, ws[k])
    ensures forall f :: WellFormed(f) && NoWholeWord(s, f) ==> NoWholeWord(r, f)
    ensures |r| <= |s|
    ensures forall c :: c in r ==> c in s
    decreases |ws|
  {
    if ws == [] then s
    else
      assert WellFormed(ws[0]);
      var t := RemoveWord(s, ws[0]);
      RemoveWordClears(s, ws[0]);
      RemoveWordKeepsAbsence(s, ws[0]);
      RemoveAll(t, ws[1..])
  }

  /** Every filler is a well-formed pattern. */
  lemma FillersWellFormed()
    ensures forall k :: 0 <= k < |FILLERS| ==> WellFormed(FILLERS[k])
  {
    FillersWellFormedFrom(0, 6);
    FillersWellFormedFrom(6, 12);
    FillersWellFormedFrom(12, 17);
  }

  /** `FillersWellFormed` for the entries `lo` to `hi - 1`. */
  lemma FillersWellFormedFrom(lo: nat, hi: nat)
    requires lo <= hi <= |FILLERS| && hi - lo <= 6
    ensures forall k :: lo <= k < hi ==> WellFormed(FILLERS[k])
  {
    forall k | lo <= k < hi
      ensures WellFormed(FILLERS[k])
    {
      WordWellFormed(FILLERS[k]);
    }
  }

  /** Lower-case words separated by single spaces form a well-formed
      pattern. */
  lemma WordWellFormed(w: string)
    requires |w| > 0 && w[0] != ' ' && w[|w| - 1] != ' '
    requires forall k :: 0 <= k < |w| ==> IsAsciiLower(w[k]) || w[k] == ' '
    requires forall k :: 0 <= k < |w| - 1 ==> w[k] != ' ' || w[k + 1] != ' '
    ensures WellFormed(w)
  {
  }

  /** The reference for the filler loop: `Passes` over `FILLERS`. */
  function CutFillers(s: string): (r: string)
  {
    FillersWellFormed();
    Passes(s, FILLERS)
  }

  /** The filler loop of `clean_text`: remove every filler, matched as a
      whole word. */
  function RemoveFillers(s: string): (r: string)
    ensures r == CutFillers(s)
    ensures forall k :: 0 <= k < |FILLERS| ==> NoWholeWord(r, FILLERS[k])
    ensures |r| <= |s|
    ensures forall c :: c in r ==> c in s
  {
    FillersWellFormed();
    RemoveAll(s, FILLERS)
  }

  /** A text already free of whole-word fillers passes through unchanged. */
  lemma {:induction false} RemoveAllAbsent(s: string, ws: seq<string>)
    requires forall k :: 0 <= k < |ws| ==> WellFormed(ws[k])
    requires forall k :: 0 <= k < |ws| ==> NoWholeWord(s, ws[k])
    ensures RemoveAll(s, ws) == s
    decreases |ws|
  {
    if ws != [] {
      RemoveWordAbsent(s, ws[0]);
      RemoveAllAbsent(s, ws[1..]);
    }
  }

  /** The filler loop is idempotent, for any list of well-formed patterns. */
  lemma RemoveAllIdempotent(s: string, ws: seq<string>)
    requires forall k :: 0 <= k < |ws| ==> WellFormed(ws[k])
    ensures RemoveAll(RemoveAll(s, ws), ws) == RemoveAll(s, ws)
  {
    RemoveAllAbsent(RemoveAll(s, ws), ws);
  }

  /** Filler removal is idempotent. */
  lemma RemoveFillersIdempotent(s: string)
    ensures RemoveFillers(RemoveFillers(s)) == RemoveFillers(s)
  {
    FillersWellFormed();
    RemoveAllIdempotent(s, FILLERS);
  }

  /** On "um hello" the substitution for "um" deletes only the leading
      word and keeps the space and the rest. */
  lemma RemoveWordExample()
    ensures RemoveWord("um hello", "um") == " hello"
  {
    var s, w := "um hello", "um";
    ExampleScan(s, w);
    assert RemoveWord(s, w) == SubFrom(s, w, 0);
  }

  /** The scan behind `RemoveWordExample`. */
  lemma ExampleScan(s: string, w: string)
    requires s == "um hello" && w == "um"
    ensures SubFrom(s, w, 0) == " hello"
  {
    var rest := " hello";
    assert s == w + rest;
    assert WholeWordAt(s, w, 0);
    SubFromSkips(s, w, 0);
    ExampleTail(s, w, rest);
    SubFromCopies(s, w, 2, 6);
    assert s[2..8] == rest;
  }

  /** No "um" starts after the first word of "um hello". */
  lemma ExampleTail(s: string, w: string, rest: string)
    requires rest == " hello" && w == "um" && s == w + rest
    ensures forall m :: 2 <= m < |s| ==> !WholeWordAt(s, w, m)
  {
    forall m | 2 <= m < |s|
      ensures !WholeWordAt(s, w, m)
    {
      assert s[m] == rest[m - 2];
      assert s[m] != 'u' && s[m] != 'U';
    }
  }
}
