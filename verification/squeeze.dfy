/** Collapsing runs of commas and of periods: `re.sub(r'[,]{2,}', ',', t)`
    followed by `re.sub(r'[.]{2,}', '.', t)`. A greedy `c{2,}` replaced by
    `c` turns every maximal run of `c` into a single `c`; a lone `c` is not
    matched and stays as it is. */
module Squeeze {

  /** No two adjacent copies of `c`. */
  predicate NoDoubled(s: string, c: char) {
    forall i :: 0 <= i < |s| - 1 ==> !(s[i] == c && s[i + 1] == c)
  }

  /** The characters of `s` other than `c`, in order. */
  function Without(s: string, c: char): (r: string)
    ensures c !in r
  {
    if s == [] then []
    else if s[0] == c then Without(s[1..], c)
    else [s[0]] + Without(s[1..], c)
  }

  /** `s` with its leading run of `c` removed. */
  function DropRun(s: string, c: char): (r: string)
    ensures |r| <= |s|
    ensures |r| > 0 ==> r[0] != c
    ensures r == s[|s| - |r|..]
    ensures forall k :: 0 <= k < |s| - |r| ==> s[k] == c
  {
    if s != [] && s[0] == c then DropRun(s[1..], c) else s
  }

  /** The reference filter for one squeeze: a character is dropped exactly
      when it is `c` and the next character is `c` too. Every other
      character stays in place, so each run of `c` keeps one copy (its
      last). */
  function DropDoubled(s: string, c: char): (r: string)
    decreases |s|
  {
    if |s| < 2 then s
    else if s[0] == c && s[1] == c then DropDoubled(s[1..], c)
    else [s[0]] + DropDoubled(s[1..], c)
  }

  /** Before a run of `c`, the filter emits one `c` and continues after the
      run. */
  lemma {:induction false} DropDoubledRun(s: string, c: char)
    requires s != [] && s[0] == c
    ensures DropDoubled(s, c) == [c] + DropDoubled(DropRun(s, c), c)
    decreases |s|
  {
    var t := s[1..];
    assert DropRun(s, c) == DropRun(t, c);
    if |s| >= 2 && s[1] == c {
      assert DropDoubled(s, c) == DropDoubled(t, c);
      DropDoubledRun(t, c);
    } else if |s| >= 2 {
      assert DropDoubled(s, c) == [c] + DropDoubled(t, c);
      assert DropRun(t, c) == t;
    } else {
      assert t == [] && s == [c];
    }
  }

  /** `re.sub(c + "{2,}", c, s)` for a literal character `c`: the
      position-wise filter `DropDoubled`, so the only characters removed
      are copies of `c` that another `c` follows. */
  function SqueezeRuns(s: string, c: char): (r: string)
    ensures r == DropDoubled(s, c)
    ensures NoDoubled(r, c)
    ensures |r| <= |s|
    ensures |s| > 0 ==> |r| > 0 && r[0] == s[0]
    ensures forall x :: x in r ==> x in s
    decreases |s|
  {
    if s == [] then []
    else if s[0] == c then
      DropDoubledRun(s, c);
      var rest := SqueezeRuns(DropRun(s, c), c);
      ConsNoDoubled(c, rest, c);
      [c] + rest
    else
      DropDoubledOther(s, c);
      var rest := SqueezeRuns(s[1..], c);
      ConsNoDoubled(s[0], rest, c);
      [s[0]] + rest
  }

  /** Squeezing `c` creates no doubled copy of any other character. */
  lemma {:induction false} SqueezeKeepsNoDoubled(s: string, c: char, d: char)
    requires d != c && NoDoubled(s, d)
    ensures NoDoubled(SqueezeRuns(s, c), d)
    decreases |s|
  {
    if s != [] {
      var k := if s[0] == c then |s| - |DropRun(s, c)| else 1;
      NoDoubledSuffix(s, k);
      SqueezeKeepsNoDoubled(s[k..], c, d);
      if s[0] != c && |s| > 1 {
        assert !(s[0] == d && s[1] == d);
      }
      ConsNoDoubled(s[0], SqueezeRuns(s[k..], c), d);
    }
  }

  /** Putting a character in front of a text without doubled `d`. */
  lemma ConsNoDoubled(x: char, r: string, d: char)
    requires NoDoubled(r, d)
    requires r != [] ==> !(x == d && r[0] == d)
    ensures NoDoubled([x] + r, d)
  {
    var y := [x] + r;
    forall i | 0 <= i < |y| - 1
      ensures !(y[i] == d && y[i + 1] == d)
    {
      if i > 0 {
        assert y[i] == r[i - 1] && y[i + 1] == r[i];
      }
    }
  }

  /** A first character other than `c` is kept by the filter. */
  lemma DropDoubledOther(s: string, c: char)
    requires s != [] && s[0] != c
    ensures DropDoubled(s, c) == [s[0]] + DropDoubled(s[1..], c)
  {
    if |s| < 2 {
      assert s[1..] == [];
    }
  }

  /** A suffix of a text without doubled characters has none either. */
  lemma NoDoubledSuffix(s: string, k: nat)
    requires k <= |s|
    ensures forall d :: NoDoubled(s, d) ==> NoDoubled(s[k..], d)
  {
    forall d | NoDoubled(s, d)
      ensures NoDoubled(s[k..], d)
    {
      forall i | 0 <= i < |s[k..]| - 1
        ensures !(s[k..][i] == d && s[k..][i + 1] == d)
      {
        assert s[k..][i] == s[k + i] && s[k..][i + 1] == s[k + i + 1];
      }
    }
  }

  /** Dropping a leading run of `c` drops no other character. */
  lemma {:induction false} WithoutDropRun(s: string, c: char)
    ensures Without(DropRun(s, c), c) == Without(s, c)
    decreases |s|
  {
    if s != [] && s[0] == c {
      WithoutDropRun(s[1..], c);
    }
  }

  /** Squeezing removes copies of `c` only: every other character survives,
      in order. */
  lemma {:induction false} SqueezeKeepsOthers(s: string, c: char)
    ensures Without(SqueezeRuns(s, c), c) == Without(s, c)
    decreases |s|
  {
    if s == [] {
    } else if s[0] == c {
      var t := DropRun(s, c);
      WithoutDropRun(s, c);
      SqueezeKeepsOthers(t, c);
      assert ([c] + SqueezeRuns(t, c))[1..] == SqueezeRuns(t, c);
    } else {
      SqueezeKeepsOthers(s[1..], c);
      assert ([s[0]] + SqueezeRuns(s[1..], c))[1..] == SqueezeRuns(s[1..], c);
    }
  }

  /** A text without doubled `c` is left unchanged. */
  lemma {:induction false} SqueezeFixpoint(s: string, c: char)
    requires NoDoubled(s, c)
    ensures SqueezeRuns(s, c) == s
    decreases |s|
  {
    if s != [] {
      assert NoDoubled(s[1..], c);
      SqueezeFixpoint(s[1..], c);
      if s[0] == c {
        assert DropRun(s, c) == s[1..];
      }
    }
  }

  /** The comma and period steps of `clean_text`: collapse comma runs, then
      period runs. */
  function CollapsePunctuation(s: string): (r: string)
    ensures NoDoubled(r, ',') && NoDoubled(r, '.')
    ensures |r| <= |s|
    ensures forall x :: x in r ==> x in s
    ensures r == DropDoubled(DropDoubled(s, ','), '.')
  {
    SqueezeKeepsNoDoubled(SqueezeRuns(s, ','), '.', ',');
    SqueezeRuns(SqueezeRuns(s, ','), '.')
  }

  /** Collapsing twice changes nothing more. */
  lemma CollapsePunctuationIdempotent(s: string)
    ensures CollapsePunctuation(CollapsePunctuation(s)) == CollapsePunctuation(s)
  {
    var r := CollapsePunctuation(s);
    SqueezeFixpoint(r, ',');
    SqueezeFixpoint(r, '.');
  }
}
