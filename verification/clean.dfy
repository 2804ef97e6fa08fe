/** `clean_text`: the fixed pipeline of lower-casing, filler removal,
    punctuation-run collapse, whitespace normalisation, removal of
    whitespace before punctuation, and sentence capitalisation. */
module Clean {
  import opened Chars
  import Fillers
  import Squeeze
  import opened Spacing
  import opened Sentences

  /** The text as it stands just before capitalisation: lower-cased, with
      fillers removed, comma and period runs collapsed, whitespace
      normalised and whitespace before punctuation removed. It is the
      composition of the reference filters of every step, and it keeps
      every non-whitespace character that survives the filler and
      punctuation steps. */
  function BeforeCapitalization(text: string): (p: string)
    ensures p == DropSpacesBeforePunct(Strip(MergeSpaces(
                   Squeeze.DropDoubled(Squeeze.DropDoubled(Fillers.CutFillers(LowerStr(text)), ','), '.'))))
    ensures NonSpace(p) == NonSpace(Squeeze.CollapsePunctuation(Fillers.RemoveFillers(LowerStr(text))))
    ensures forall x :: x in p ==> x in LowerStr(text) || x == ' '
    ensures NoLeadingSpace(p) && NoTrailingSpace(p) && NoDoubleSpace(p)
    ensures NoSpaceBeforePunct(p)
    ensures NoUpper(p)
  {
    var lowered := LowerStr(text);
    var noFillers := Fillers.RemoveFillers(lowered);
    var collapsed := Squeeze.CollapsePunctuation(noFillers);
    var spaced := NormalizeSpace(collapsed);
    StripBeforePunctKeepsShape(spaced);
    NormalizeSpaceKeepsContent(collapsed);
    StripBeforePunctKeepsContent(spaced);
    var p := StripBeforePunct(spaced);
    assert forall x :: x in p ==> x in lowered || x == ' ';
    NoUpperFromContent(p, lowered);
    p
  }

  /** Characters drawn from a text without upper-case letters, or spaces,
      include no upper-case letter either. */
  lemma NoUpperFromContent(p: string, q: string)
    requires NoUpper(q)
    requires forall x :: x in p ==> x in q || x == ' '
    ensures NoUpper(p)
  {
    forall i | 0 <= i < |p|
      ensures !IsAsciiUpper(p[i])
    {
      assert p[i] in p;
      if p[i] in q {
        var k :| 0 <= k < |q| && q[k] == p[i];
      }
    }
  }

  /** `clean_text`. An empty input gives the empty string; otherwise the
      text goes through every step in order, and a final `upper` raises the
      first character once more. */
  function CleanText(text: string): (r: string)
    ensures text == [] ==> r == []
  {
    if text == [] then []
    else UpperFirst(CapitalizeSentences(BeforeCapitalization(text)))
  }

  /** A change of case only keeps the whitespace and punctuation layout. */
  lemma CaseChangeKeepsShape(p: string, r: string)
    requires |r| == |p|
    requires forall i :: 0 <= i < |p| ==> r[i] == p[i] || r[i] == Upper(p[i])
    ensures NoLeadingSpace(p) ==> NoLeadingSpace(r)
    ensures NoTrailingSpace(p) ==> NoTrailingSpace(r)
    ensures NoDoubleSpace(p) ==> NoDoubleSpace(r)
    ensures NoSpaceBeforePunct(p) ==> NoSpaceBeforePunct(r)
  {
    forall i | 0 <= i < |p|
      ensures IsSpace(r[i]) <==> IsSpace(p[i])
      ensures IsClosingPunct(r[i]) ==> IsClosingPunct(p[i])
    {
    }
  }

  /** The final `upper` of `clean_text` changes nothing: capitalisation
      already raised position 0. */
  lemma FinalUpperIsRedundant(p: string)
    ensures UpperFirst(CapitalizeSentences(p)) == CapitalizeSentences(p)
  {
    CapitalizeSpec(p);
    var c := CapitalizeSentences(p);
    if |c| > 0 {
      assert c[0] == Upper(p[0]);
      assert UpperFirst(c) == [Upper(c[0])] + c[1..];
    }
  }

  /** What `clean_text` guarantees of its result `r`, in terms of the text
      `p` just before capitalisation:
      - `r` is `p` with the characters at sentence openings upper-cased and
        nothing else changed; in particular its first character is the
        upper-case form of `p`'s, every upper-case letter of `r` stands at a
        sentence opening, and lower-casing `r` gives back `p`;
      - no leading or trailing whitespace, never two whitespace characters
        in a row, never whitespace right before `. , ! ? ; :`. */
  lemma CleanTextSpec(text: string)
    requires text != []
    ensures var p := BeforeCapitalization(text);
            var r := CleanText(text);
            && |r| == |p|
            && (forall i :: 0 <= i < |r| ==> r[i] == CapAt(p, i))
            && (|r| > 0 ==> r[0] == Upper(p[0]))
            && (forall i :: 0 <= i < |r| ==> IsAsciiUpper(r[i]) ==> OpensSentence(p, i))
            && (forall i :: 0 <= i < |r| ==> Lower(r[i]) == p[i])
            && NoLeadingSpace(r) && NoTrailingSpace(r) && NoDoubleSpace(r)
            && NoSpaceBeforePunct(r)
  {
    FinishSpec(BeforeCapitalization(text));
  }

  /** Sentence capitalisation and the final `upper`, on a text `p` in the
      shape the earlier steps leave it. */
  lemma FinishSpec(p: string)
    requires NoUpper(p)
    requires NoLeadingSpace(p) && NoTrailingSpace(p) && NoDoubleSpace(p) && NoSpaceBeforePunct(p)
    ensures var r := UpperFirst(CapitalizeSentences(p));
            && |r| == |p|
            && (forall i :: 0 <= i < |r| ==> r[i] == CapAt(p, i))
            && (|r| > 0 ==> r[0] == Upper(p[0]))
            && (forall i :: 0 <= i < |r| ==> IsAsciiUpper(r[i]) ==> OpensSentence(p, i))
            && (forall i :: 0 <= i < |r| ==> Lower(r[i]) == p[i])
            && NoLeadingSpace(r) && NoTrailingSpace(r) && NoDoubleSpace(r)
            && NoSpaceBeforePunct(r)
  {
    var r := UpperFirst(CapitalizeSentences(p));
    FinalUpperIsRedundant(p);
    CapitalizeSpec(p);
    CaseChangeKeepsShape(p, r);
    forall i | 0 <= i < |r|
      ensures IsAsciiUpper(r[i]) ==> OpensSentence(p, i)
      ensures Lower(r[i]) == p[i]
    {
      assert !IsAsciiUpper(p[i]);
      UpperOfLower(p[i]);
    }
  }
}
