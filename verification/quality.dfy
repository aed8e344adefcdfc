/** Download-link quality: the label cut from the link text and its
    classification into a quality tier. */
module Quality {

  import opened Wrappers
  import opened Text
  import opened Cloudstream

  /** The substring that selects a tier. */
  function Token(q: Qualities): string {
    match q
    case P360 => "360"
    case P480 => "480"
    case P720 => "720"
    case P1080 => "1080"
    case Unknown => ""
  }

  /** Position of a tier in the order the classifier tests them: 360, 480,
      720, 1080; `Unknown` comes after all. */
  function Rank(q: Qualities): nat {
    match q
    case P360 => 0
    case P480 => 1
    case P720 => 2
    case P1080 => 3
    case Unknown => 4
  }

  /** `getQualityFromName`: the first tier, in the order 360, 480, 720, 1080,
      whose number occurs in the label; `Unknown` for a null label or one that
      mentions none of them. The result's number occurs in the label and no
      tier tested before it does, which pins the result down. */
  function QualityFromName(quality: Option<string>): (r: Qualities)
    ensures r != Unknown ==> quality.Some? && Contains(quality.value, Token(r), false)
    ensures quality.None? ==> r == Unknown
    ensures quality.Some? ==> && (Rank(r) > 0 ==> !Contains(quality.value, "360", false))
                              && (Rank(r) > 1 ==> !Contains(quality.value, "480", false))
                              && (Rank(r) > 2 ==> !Contains(quality.value, "720", false))
                              && (Rank(r) > 3 ==> !Contains(quality.value, "1080", false))
  {
    match quality
    case None => Unknown
    case Some(q) =>
      if Contains(q, "360", false) then P360
      else if Contains(q, "480", false) then P480
      else if Contains(q, "720", false) then P720
      else if Contains(q, "1080", false) then P1080
      else Unknown
  }

  /** The label of a download link: its text up to the first 'p', trimmed.
      The label never holds a 'p' and is never bounded by whitespace. */
  function QualityLabel(text: string): (tag: string)
    ensures IsTrimmed(tag)
    ensures !Contains(tag, "p", false)
    ensures !Contains(text, "p", false) ==> tag == Trim(text)
    ensures forall i :: 0 <= i < |text| && text[i] == 'p' && 'p' !in text[..i] ==> tag == Trim(text[..i])
  {
    var before := SubstringBefore(text, "p");
    var tag := Trim(before);
    NoNeedleInSlice(before, tag, "p");
    forall i | 0 <= i < |text| && text[i] == 'p' && 'p' !in text[..i]
      ensures tag == Trim(text[..i])
    {
      CutAtFirstP(text, i);
    }
    tag
  }

  /** The text before the first 'p' is what `substringBefore("p")` keeps. */
  lemma CutAtFirstP(text: string, i: nat)
    requires i < |text| && text[i] == 'p' && 'p' !in text[..i]
    ensures SubstringBefore(text, "p") == text[..i]
  {
    RegionMatchesChar(text, i, 'p');
    forall j | 0 <= j < i
      ensures !RegionMatches(text, j, "p", false)
    {
      assert text[j] == text[..i][j];
      RegionMatchesChar(text, j, 'p');
    }
  }

  /** A slice of a string without the needle does not contain it either. */
  lemma NoNeedleInSlice(s: string, t: string, needle: string)
    requires !Contains(s, needle, false)
    requires exists lo :: SliceAt(s, lo, t)
    ensures !Contains(t, needle, false)
  {
    var lo :| SliceAt(s, lo, t);
    forall j | 0 <= j
      ensures !RegionMatches(t, j, needle, false)
    {
      assert RegionMatches(t, j, needle, false) ==> RegionMatches(s, lo + j, needle, false);
    }
  }

  /** Order matters: "1360" mentions 360 before anything else is tested. */
  lemma OrderExamples()
    ensures QualityFromName(Some("1360")) == P360
    ensures QualityFromName(Some("SD")) == Unknown
    ensures QualityFromName(None) == Unknown
  {
    assert RegionMatches("1360", 1, "360", false);
  }

  /** Link texts cut at the first 'p'. */
  lemma LabelExamples()
    ensures QualityLabel("720p") == "720"
    ensures QualityLabel("1080p HD") == "1080"
  {
    Label720();
    Label1080();
  }

  lemma Label720()
    ensures QualityLabel("720p") == "720"
  {
    var a := "720p";
    assert a[..3] == "720";
    assert 'p' !in a[..3];
    LabelOf(a, 3);
  }

  lemma Label1080()
    ensures QualityLabel("1080p HD") == "1080"
  {
    var b := "1080p HD";
    assert b[..4] == "1080";
    assert 'p' !in b[..4];
    LabelOf(b, 4);
  }

  /** When the first 'p' of a text stands at index `i` and the text before it
      is already trimmed, that text is the label. */
  lemma LabelOf(text: string, i: nat)
    requires i < |text| && text[i] == 'p' && 'p' !in text[..i]
    requires IsTrimmed(text[..i])
    ensures QualityLabel(text) == text[..i]
  {
    CutAtFirstP(text, i);
    assert text[..i] == [] + text[..i] + [];
    TrimUnique([], text[..i], []);
  }

  /** A link labelled "720p" is classified as 720p. */
  lemma Classify720()
    ensures QualityFromName(Some(QualityLabel("720p"))) == P720
  {
    Label720();
    Tier720();
  }

  lemma Tier720()
    ensures QualityFromName(Some("720")) == P720
  {
    ContainsSameLength("720", "360");
    ContainsSameLength("720", "480");
    ContainsSameLength("720", "720");
  }
}
