/** Sentence capitalisation: `re.split(r'([.!?]+\s*)', t)`, the per-part
    rule that upper-cases the first character of every part that is neither
    blank nor a delimiter, and `''.join` of the parts. */
module Sentences {
  import opened Chars
  import Spacing

  /** The characters `[.!?]` that end a sentence. */
  predicate IsSentenceEnd(c: char) {
    c == '.' || c == '!' || c == '?'
  }

  /** No sentence end anywhere in `s`. */
  predicate NoSentenceEnd(s: string) {
    forall k :: 0 <= k < |s| ==> !IsSentenceEnd(s[k])
  }

  /** Index of the first sentence end in `t`, or `|t|` if none. */
  function TextLen(t: string): (n: nat)
    ensures n <= |t|
    ensures n < |t| ==> IsSentenceEnd(t[n])
  {
    if t == [] || IsSentenceEnd(t[0]) then 0 else 1 + TextLen(t[1..])
  }

  /** The text before the first sentence end has none. */
  lemma {:induction false} TextLenPrefix(t: string)
    ensures NoSentenceEnd(t[..TextLen(t)])
    decreases |t|
  {
    if t != [] && !IsSentenceEnd(t[0]) {
      TextLenPrefix(t[1..]);
      var n := TextLen(t);
      assert t[..n] == [t[0]] + t[1..][..n - 1];
    }
  }

  /** Length of the leading run of sentence ends of `t`. */
  function EndRun(t: string): (n: nat)
    ensures n <= |t|
    ensures forall k :: 0 <= k < n ==> IsSentenceEnd(t[k])
    ensures n < |t| ==> !IsSentenceEnd(t[n])
  {
    if t != [] && IsSentenceEnd(t[0]) then 1 + EndRun(t[1..]) else 0
  }

  /** `re.match(r'^[.!?]+\s*$', p)`: one or more sentence ends followed only
      by whitespace. */
  predicate IsDelimiter(p: string) {
    EndRun(p) > 0 && forall k :: EndRun(p) <= k < |p| ==> IsSpace(p[k])
  }

  /** `part.strip() == ""`. */
  predicate IsBlank(p: string) {
    forall k :: 0 <= k < |p| ==> IsSpace(p[k])
  }

  /** Length of the match of `[.!?]+\s*` at the start of `u` (greedy). */
  function DelimLen(u: string): (m: nat)
    requires |u| > 0 && IsSentenceEnd(u[0])
    ensures 0 < m <= |u|
    ensures m < |u| ==> !IsSpace(u[m])
    ensures m < |u| && IsSentenceEnd(u[m]) ==> IsSpace(u[m - 1])
  {
    var e := EndRun(u);
    var m := e + Spacing.SpaceRun(u[e..]);
    assert m < |u| ==> u[m] == u[e..][m - e];
    m
  }

  /** Every character of the match is a sentence end or whitespace. */
  lemma DelimLenChar(u: string, k: nat)
    requires |u| > 0 && IsSentenceEnd(u[0]) && k < DelimLen(u)
    ensures IsSentenceEnd(u[k]) || IsSpace(u[k])
  {
    var e := EndRun(u);
    if k >= e {
      assert u[k] == u[e..][k - e];
    }
  }

  /** The match is a delimiter in the sense of the per-part rule. */
  lemma DelimLenIsDelimiter(u: string)
    requires |u| > 0 && IsSentenceEnd(u[0])
    ensures IsDelimiter(u[..DelimLen(u)])
  {
    var e := EndRun(u);
    var m := DelimLen(u);
    var p := u[..m];
    EndRunPrefix(u, m);
    forall k | e <= k < |p|
      ensures IsSpace(p[k])
    {
      assert p[k] == u[e..][k - e];
    }
  }

  /** The run of sentence ends is unchanged by cutting `u` after it. */
  lemma {:induction false} EndRunPrefix(u: string, m: nat)
    requires EndRun(u) <= m <= |u|
    ensures EndRun(u[..m]) == EndRun(u)
    decreases m
  {
    if EndRun(u) > 0 {
      assert u[..m][1..] == u[1..][..m - 1];
      EndRunPrefix(u[1..], m - 1);
    }
  }

  /** Where the first delimiter of `t`, which starts at `TextLen(t)`, ends. */
  function DelimEnd(t: string): (m: nat)
    requires TextLen(t) < |t|
    ensures TextLen(t) < m <= |t|
    ensures m < |t| ==> !IsSpace(t[m])
    ensures m < |t| && IsSentenceEnd(t[m]) ==> IsSpace(t[m - 1])
  {
    DelimEndNext(t, TextLen(t));
    TextLen(t) + DelimLen(t[TextLen(t)..])
  }

  /** The character after a match that starts at `n` is not whitespace. */
  lemma DelimEndNext(t: string, n: nat)
    requires n < |t| && IsSentenceEnd(t[n])
    ensures n + DelimLen(t[n..]) < |t| ==> !IsSpace(t[n + DelimLen(t[n..])])
    ensures n + DelimLen(t[n..]) < |t| && IsSentenceEnd(t[n + DelimLen(t[n..])]) ==> IsSpace(t[n + DelimLen(t[n..]) - 1])
  {
    var u := t[n..];
    var m := n + DelimLen(u);
    assert m < |t| ==> t[m] == u[m - n] && t[m - 1] == u[m - n - 1];
  }

  /** Every character of the first delimiter is a sentence end or
      whitespace. */
  lemma DelimEndChar(t: string, k: nat)
    requires TextLen(t) < |t| && TextLen(t) <= k < DelimEnd(t)
    ensures IsSentenceEnd(t[k]) || IsSpace(t[k])
  {
    DelimAt(t, TextLen(t), k);
  }

  /** Shifting `DelimLenChar` to the position `n` where the match starts. */
  lemma DelimAt(t: string, n: nat, k: nat)
    requires n < |t| && IsSentenceEnd(t[n]) && n <= k < n + DelimLen(t[n..])
    ensures IsSentenceEnd(t[k]) || IsSpace(t[k])
  {
    var u := t[n..];
    DelimLenChar(u, k - n);
    assert t[k] == u[k - n];
  }

  /** The first delimiter is a delimiter in the sense of the per-part rule. */
  lemma DelimEndIsDelimiter(t: string)
    requires TextLen(t) < |t|
    ensures IsDelimiter(t[TextLen(t)..DelimEnd(t)])
  {
    DelimShift(t, TextLen(t), DelimEnd(t));
  }

  /** Shifting `DelimLenIsDelimiter` to the position `n` where the match
      starts. */
  lemma DelimShift(t: string, n: nat, m: nat)
    requires n < |t| && IsSentenceEnd(t[n]) && m == n + DelimLen(t[n..])
    ensures IsDelimiter(t[n..m])
  {
    var u := t[n..];
    DelimLenIsDelimiter(u);
    assert t[n..m] == u[..DelimLen(u)];
  }

  /** `re.split(r'([.!?]+\s*)', t)`: text, delimiter, text, ..., text. The
      text parts hold no sentence end and the delimiter parts are
      delimiters. The first part is a prefix of `t` that stops at its first
      sentence end. Every delimiter is maximal: it takes all the whitespace
      after it, so no later text part starts with whitespace, and it takes
      the whole run of sentence ends, so when an empty text part separates
      it from the next delimiter it ends in whitespace. */
  function SentenceSplit(t: string): (parts: seq<string>)
    ensures Alternates(parts)
    ensures |parts[0]| <= |t| && parts[0] == t[..|parts[0]|]
    ensures |parts| > 1 ==> |parts[0]| < |t| && IsSentenceEnd(t[|parts[0]|])
    ensures forall k :: 2 <= k < |parts| && k % 2 == 0 && parts[k] != [] ==> !IsSpace(parts[k][0])
    ensures forall k :: 1 <= k && k + 2 < |parts| && k % 2 == 1 && parts[k] != [] && parts[k + 1] == [] ==>
              IsSpace(parts[k][|parts[k]| - 1])
    decreases |t|
  {
    if TextLen(t) == |t| then
      TextLenPrefix(t);
      assert t[..|t|] == t;
      [t]
    else
      var n := TextLen(t);
      var m := DelimEnd(t);
      TextLenPrefix(t);
      DelimEndIsDelimiter(t);
      var rest := SentenceSplit(t[m..]);
      AlternatesCons(t[..n], t[n..m], rest);
      UnspacedCons(t[m..], t[..n], t[n..m], rest);
      GreedyCons(t, n, m, rest);
      [t[..n], t[n..m]] + rest
  }

  /** A run of sentence ends is one delimiter: `"a.."` splits into the text,
      the delimiter `".."` and the empty text after it. */
  lemma SentenceSplitExample()
    ensures SentenceSplit("a..") == ["a", "..", ""]
  {
    var t := "a..";
    assert TextLen(t[1..]) == 0;
    assert TextLen(t) == 1;
    assert EndRun(t[1..][1..]) == 1;
    assert EndRun(t[1..]) == 2;
    assert DelimEnd(t) == 3;
    assert SentenceSplit(t[3..]) == [""];
    assert t[..1] == "a" && t[1..3] == "..";
    assert SentenceSplit(t) == [t[..1], t[1..3]] + SentenceSplit(t[3..]);
  }

  /** The shape of a split: an odd number of parts, text parts without
      sentence ends at the even positions, delimiters at the odd ones. */
  predicate Alternates(parts: seq<string>) {
    && |parts| % 2 == 1
    && (forall k :: 0 <= k < |parts| && k % 2 == 0 ==> NoSentenceEnd(parts[k]))
    && (forall k :: 0 <= k < |parts| && k % 2 == 1 ==> IsDelimiter(parts[k]))
  }

  /** A text part and a delimiter in front of a split keep its shape. */
  lemma AlternatesCons(a: string, d: string, rest: seq<string>)
    requires NoSentenceEnd(a) && IsDelimiter(d) && Alternates(rest)
    ensures Alternates([a, d] + rest)
  {
    var parts := [a, d] + rest;
    forall k | 2 <= k < |parts|
      ensures parts[k] == rest[k - 2] && (k - 2) % 2 == k % 2
    {
    }
  }

  /** A split of a text that does not start with whitespace, behind a text
      part and a delimiter, has no later text part starting with
      whitespace. */
  lemma UnspacedCons(u: string, a: string, d: string, rest: seq<string>)
    requires |rest| > 0 && |rest[0]| <= |u| && rest[0] == u[..|rest[0]|]
    requires u != [] ==> !IsSpace(u[0])
    requires forall k :: 2 <= k < |rest| && k % 2 == 0 && rest[k] != [] ==> !IsSpace(rest[k][0])
    ensures forall k :: 2 <= k < |[a, d] + rest| && k % 2 == 0 && ([a, d] + rest)[k] != [] ==> !IsSpace(([a, d] + rest)[k][0])
  {
  }

  /** A text part and a delimiter `t[n..m]` that ends in whitespace
      whenever a sentence end follows it, in front of a split of `t[m..]`,
      keep every delimiter that an empty text part separates from the next
      one ending in whitespace. */
  lemma GreedyCons(t: string, n: nat, m: nat, rest: seq<string>)
    requires n < m <= |t|
    requires m < |t| && IsSentenceEnd(t[m]) ==> IsSpace(t[m - 1])
    requires |rest| > 0 && |rest[0]| <= |t| - m
    requires |rest| > 1 ==> |rest[0]| < |t| - m && IsSentenceEnd(t[m..][|rest[0]|])
    requires forall k :: 1 <= k && k + 2 < |rest| && k % 2 == 1 && rest[k] != [] && rest[k + 1] == [] ==>
               IsSpace(rest[k][|rest[k]| - 1])
    ensures var parts := [t[..n], t[n..m]] + rest;
            forall k :: 1 <= k && k + 2 < |parts| && k % 2 == 1 && parts[k] != [] && parts[k + 1] == [] ==>
              IsSpace(parts[k][|parts[k]| - 1])
  {
    var parts := [t[..n], t[n..m]] + rest;
    forall k | 1 <= k && k + 2 < |parts| && k % 2 == 1 && parts[k] != [] && parts[k + 1] == []
      ensures IsSpace(parts[k][|parts[k]| - 1])
    {
      if k == 1 {
        assert t[m..][0] == t[m];
        FirstDelimEndsInSpace(t, n, m);
      } else {
        assert parts[k] == rest[k - 2] && parts[k + 1] == rest[k - 1];
      }
    }
  }

  /** A delimiter `t[n..m]` whose last character is whitespace ends in
      whitespace as a part of its own. */
  lemma FirstDelimEndsInSpace(t: string, n: nat, m: nat)
    requires n < m < |t| && IsSpace(t[m - 1])
    ensures t[n..m] != [] && IsSpace(t[n..m][|t[n..m]| - 1])
  {
    assert t[n..m][m - n - 1] == t[m - 1];
  }

  /** `''.join(parts)`. */
  function Join(parts: seq<string>): (r: string)
  {
    if parts == [] then [] else parts[0] + Join(parts[1..])
  }

  /** `part[0].upper() + part[1:]`, and the empty string for the empty one. */
  function UpperFirst(p: string): (r: string)
    ensures |r| == |p|
    ensures forall k :: 0 <= k < |p| ==> r[k] == if k == 0 then Upper(p[0]) else p[k]
  {
    if |p| > 0 then [Upper(p[0])] + p[1..] else p
  }

  /** The per-part rule of the capitalisation loop: a part that is neither
      blank nor a delimiter gets its first character upper-cased; any other
      part is kept. Only the first character can change. */
  function CapitalizePart(p: string): (r: string)
    ensures |r| == |p|
    ensures forall k :: 0 < k < |p| ==> r[k] == p[k]
    ensures |p| > 0 ==> r[0] == if IsBlank(p) || IsDelimiter(p) then p[0] else Upper(p[0])
  {
    if !IsBlank(p) && !IsDelimiter(p) then UpperFirst(p) else p
  }

  /** The capitalisation loop over all parts. */
  function CapitalizeParts(parts: seq<string>): (r: seq<string>)
    ensures |r| == |parts|
  {
    if parts == [] then [] else [CapitalizePart(parts[0])] + CapitalizeParts(parts[1..])
  }

  /** Sentence capitalisation in `clean_text`: split, capitalise each part,
      join. The text keeps its length (`CapitalizeSpec` says which
      characters change). */
  function CapitalizeSentences(t: string): (r: string)
    ensures |r| == |t|
  {
    SplitJoin(t);
    JoinCapitalizeLength(SentenceSplit(t));
    Join(CapitalizeParts(SentenceSplit(t)))
  }

  /** Capitalising the parts keeps the length of their join. */
  lemma {:induction false} JoinCapitalizeLength(parts: seq<string>)
    ensures |Join(CapitalizeParts(parts))| == |Join(parts)|
    decreases |parts|
  {
    if parts != [] {
      JoinCapitalizeLength(parts[1..]);
    }
  }

  /** The split loses nothing: joining the parts gives the text back. */
  lemma {:induction false} SplitJoin(t: string)
    ensures Join(SentenceSplit(t)) == t
    decreases |t|
  {
    if TextLen(t) == |t| {
      SplitWithoutEnd(t);
      assert [t][1..] == [];
    } else {
      var n, m := TextLen(t), DelimEnd(t);
      SplitJoin(t[m..]);
      JoinPair(t[..n], t[n..m], SentenceSplit(t[m..]));
      ThreeWay(t, n, m);
    }
  }

  /** Cutting a text in three and gluing it back. */
  lemma ThreeWay(t: string, n: nat, m: nat)
    requires n <= m <= |t|
    ensures t[..n] + t[n..m] + t[m..] == t
  {
  }

  /** Joining a text part and a delimiter in front of more parts. */
  lemma JoinPair(a: string, d: string, rest: seq<string>)
    ensures Join([a, d] + rest) == a + d + Join(rest)
  {
    var ps := [a, d] + rest;
    assert ps[1..] == [d] + rest;
    assert ps[1..][1..] == rest;
  }

  /** The per-part rule upper-cases the first character of a part without
      sentence ends (a blank one starts with whitespace, which has no upper
      case) and leaves a delimiter alone. */
  lemma PartRule(p: string)
    ensures NoSentenceEnd(p) ==> CapitalizePart(p) == UpperFirst(p)
    ensures IsDelimiter(p) ==> CapitalizePart(p) == p
  {
    if NoSentenceEnd(p) && |p| > 0 {
      assert !IsSentenceEnd(p[0]);
    }
  }

  /** Capitalising a text part and a delimiter in front of more parts. */
  lemma CapitalizePartsPair(a: string, d: string, rest: seq<string>)
    ensures CapitalizeParts([a, d] + rest)
         == [CapitalizePart(a), CapitalizePart(d)] + CapitalizeParts(rest)
  {
    var ps := [a, d] + rest;
    assert ps[1..] == [d] + rest;
    assert ps[1..][1..] == rest;
  }

  /** A text without sentence ends is split into itself alone. */
  lemma SplitWithoutEnd(t: string)
    requires TextLen(t) == |t|
    ensures SentenceSplit(t) == [t]
    ensures NoSentenceEnd(t)
  {
    TextLenPrefix(t);
    assert t[..|t|] == t;
  }

  /** Capitalising and joining a single part. */
  lemma CapitalizeSingle(p: string)
    ensures Join(CapitalizeParts([p])) == CapitalizePart(p)
  {
    assert [p][1..] == [];
    assert [CapitalizePart(p)][1..] == [];
  }

  /** The last step of the split: a text without sentence ends is one part. */
  lemma CapitalizeUnfoldLast(t: string)
    requires TextLen(t) == |t|
    ensures CapitalizeSentences(t) == UpperFirst(t)
  {
    SplitWithoutEnd(t);
    CapitalizeSingle(t);
    PartRule(t);
  }

  /** One step of the split, as seen after capitalisation. */
  lemma CapitalizeUnfoldStep(t: string)
    requires TextLen(t) < |t|
    ensures CapitalizeSentences(t)
         == UpperFirst(t[..TextLen(t)]) + t[TextLen(t)..DelimEnd(t)] + CapitalizeSentences(t[DelimEnd(t)..])
  {
    var n := TextLen(t);
    var m := DelimEnd(t);
    var a, d, rest := t[..n], t[n..m], SentenceSplit(t[m..]);
    assert SentenceSplit(t) == [a, d] + rest;
    TextLenPrefix(t);
    DelimEndIsDelimiter(t);
    PartRule(a);
    PartRule(d);
    CapitalizePartsPair(a, d, rest);
    JoinPair(UpperFirst(a), d, CapitalizeParts(rest));
  }

  /** Position `i` directly follows a run of `[.!?]` and then only
      whitespace. */
  predicate AfterBreak(t: string, i: int)
    requires 0 <= i <= |t|
    decreases i
  {
    i > 0 && (IsSentenceEnd(t[i - 1]) || (IsSpace(t[i - 1]) && AfterBreak(t, i - 1)))
  }

  /** Position `i` opens a sentence: it starts the text or follows a break. */
  predicate OpensSentence(t: string, i: int)
    requires 0 <= i <= |t|
  {
    i == 0 || AfterBreak(t, i)
  }

  /** Before the first sentence end nothing follows a break. */
  lemma {:induction false} NoBreakBeforeFirstEnd(t: string, i: nat)
    requires i <= |t| && NoSentenceEnd(t[..i])
    ensures !AfterBreak(t, i)
    decreases i
  {
    if i > 0 {
      assert t[..i][i - 1] == t[i - 1];
      assert t[..i - 1] == t[..i][..i - 1];
      NoBreakBeforeFirstEnd(t, i - 1);
    }
  }

  /** Every position inside or just after a delimiter `t[n..m]`, past its
      first character, follows a break. */
  lemma {:induction false} BreakInsideDelimiter(t: string, j: nat)
    requires TextLen(t) < |t| && TextLen(t) < j <= DelimEnd(t)
    ensures AfterBreak(t, j)
    decreases j
  {
    DelimEndChar(t, j - 1);
    if !IsSentenceEnd(t[j - 1]) {
      BreakInsideDelimiter(t, j - 1);
    }
  }

  /** After a delimiter that ends at `m` (followed by no whitespace), the
      breaks of `t` and of `t[m..]` coincide past position `m`. */
  lemma {:induction false} BreakShift(t: string, m: nat, j: nat)
    requires m < |t| && !IsSpace(t[m])
    requires 1 <= j && m + j <= |t|
    ensures AfterBreak(t, m + j) == AfterBreak(t[m..], j)
    decreases j
  {
    assert t[m..][j - 1] == t[m + j - 1];
    if j > 1 {
      BreakShift(t, m, j - 1);
    }
  }

  /** The capitalised character at one position. */
  function CapAt(t: string, i: nat): char
    requires i < |t|
  {
    if OpensSentence(t, i) then Upper(t[i]) else t[i]
  }

  /** Before a prefix without sentence ends only position 0 opens a
      sentence. */
  lemma CapAtInText(t: string, n: nat, i: nat)
    requires i < n <= |t| && NoSentenceEnd(t[..n])
    ensures CapAt(t, i) == if i == 0 then Upper(t[0]) else t[i]
  {
    if i > 0 {
      assert t[..i] == t[..n][..i];
      NoBreakBeforeFirstEnd(t, i);
    }
  }

  /** A sentence end or whitespace has no upper case, so capitalisation
      leaves it alone. */
  lemma CapAtDelimiterChar(t: string, i: nat)
    requires i < |t| && (IsSentenceEnd(t[i]) || IsSpace(t[i]))
    ensures CapAt(t, i) == t[i]
  {
    var c := t[i];
    assert !IsAsciiLower(c);
    assert Upper(c) == c;
  }

  /** Cutting `t` at a break `m` that is followed by no whitespace keeps
      the capitalised characters from `m` on. */
  lemma CapAtShifted(t: string, m: nat, i: nat)
    requires 0 < m <= i < |t| && AfterBreak(t, m) && !IsSpace(t[m])
    ensures CapAt(t, i) == CapAt(t[m..], i - m)
  {
    var u := t[m..];
    assert u[i - m] == t[i];
    if i > m {
      BreakShift(t, m, i - m);
      assert OpensSentence(t, i) == OpensSentence(u, i - m);
    } else {
      assert OpensSentence(t, i) && OpensSentence(u, 0);
    }
  }

  /** Capitalisation keeps the length and changes exactly the characters at
      sentence openings, to their upper-case form: a letter is raised if
      and only if it starts the text or follows `[.!?]+` and optional
      whitespace; every other character is kept. */
  lemma {:induction false} CapitalizeSpec(t: string)
    ensures |CapitalizeSentences(t)| == |t|
    ensures forall i :: 0 <= i < |t| ==> CapitalizeSentences(t)[i] == CapAt(t, i)
    decreases |t|
  {
    var r := CapitalizeSentences(t);
    var n := TextLen(t);
    TextLenPrefix(t);
    if n == |t| {
      CapitalizeUnfoldLast(t);
      forall i | 0 <= i < |t|
        ensures r[i] == CapAt(t, i)
      {
        CapAtInText(t, n, i);
      }
    } else {
      var m := DelimEnd(t);
      var rest := t[m..];
      CapitalizeUnfoldStep(t);
      CapitalizeSpec(rest);
      var R := CapitalizeSentences(rest);
      FirstDelimiter(t);
      forall i | 0 <= i < |t|
        ensures r[i] == CapAt(t, i)
      {
        StepAt(t, n, m, R, i);
      }
    }
  }

  /** What the capitalisation proof needs of the first delimiter `t[n..m]`:
      it holds only sentence ends and whitespace, and the position after it
      follows a break and is not whitespace. */
  lemma FirstDelimiter(t: string)
    requires TextLen(t) < |t|
    ensures forall k :: TextLen(t) <= k < DelimEnd(t) ==> IsSentenceEnd(t[k]) || IsSpace(t[k])
    ensures AfterBreak(t, DelimEnd(t))
  {
    forall k | TextLen(t) <= k < DelimEnd(t)
      ensures IsSentenceEnd(t[k]) || IsSpace(t[k])
    {
      DelimEndChar(t, k);
    }
    BreakInsideDelimiter(t, DelimEnd(t));
  }

  /** One position of `UpperFirst(t[..n]) + t[n..m] + R`, where `t[..n]`
      has no sentence end, `t[n..m]` is a delimiter followed by no
      whitespace, and `R` is the capitalised rest `t[m..]`. */
  lemma StepAt(t: string, n: nat, m: nat, R: string, i: nat)
    requires n < m <= |t| && i < |t|
    requires NoSentenceEnd(t[..n])
    requires forall k :: n <= k < m ==> IsSentenceEnd(t[k]) || IsSpace(t[k])
    requires AfterBreak(t, m) && (m < |t| ==> !IsSpace(t[m]))
    requires |R| == |t| - m && (m <= i ==> R[i - m] == CapAt(t[m..], i - m))
    ensures (UpperFirst(t[..n]) + t[n..m] + R)[i] == CapAt(t, i)
  {
    var a, d := UpperFirst(t[..n]), t[n..m];
    ConcatAt(a, d, R, i);
    if i < n {
      CapAtInText(t, n, i);
    } else if i < m {
      assert d[i - n] == t[i];
      CapAtDelimiterChar(t, i);
    } else {
      CapAtShifted(t, m, i);
    }
  }

  /** Indexing into three glued strings. */
  lemma ConcatAt(a: string, d: string, R: string, i: nat)
    requires i < |a| + |d| + |R|
    ensures (a + d + R)[i] == if i < |a| then a[i] else if i < |a| + |d| then d[i - |a|] else R[i - |a| - |d|]
  {
  }
}
