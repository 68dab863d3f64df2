/**
 * The landing section's heading: the profile's tagline cut after its second
 * space-separated word into two display lines, each with a stock fallback.
 */
module Hero {
  import opened Wrappers
  import Text
  import PortfolioData

  const FirstLineFallback: string := "Building Digital"
  const SecondLineFallback: string := "Experiences"

  /**
   * `tagline.split(' ').slice(0, 2).join(' ')`: a prefix of the tagline,
   * the whole tagline when it has at most one space.
   */
  function Head(tagline: string): (head: string)
    ensures head <= tagline
    ensures |Text.Split(tagline, ' ')| <= 2 ==> head == tagline
  {
    var words := Text.Split(tagline, ' ');
    Text.JoinSplit(tagline, ' ');
    if |words| <= 2 then
      assert words[..|words|] == words;
      Text.Join(words[..if |words| < 2 then |words| else 2], ' ')
    else
      Text.JoinCut(words, 2, ' ');
      Text.Join(words[..2], ' ')
  }

  /**
   * `tagline.split(' ').slice(2).join(' ')`: empty when there are at most two
   * pieces, else what follows the second space, a proper suffix of the tagline.
   */
  function Tail(tagline: string): (tail: string)
    ensures |Text.Split(tagline, ' ')| <= 2 ==> tail == ""
    ensures |Text.Split(tagline, ' ')| > 2 ==>
      |tail| < |tagline| && tagline[|tagline| - |tail|..] == tail
  {
    var words := Text.Split(tagline, ' ');
    if |words| <= 2 then ""
    else
      Text.JoinSplit(tagline, ' ');
      Text.JoinCut(words, 2, ' ');
      Text.Join(words[2..], ' ')
  }

  /** The first line: the head of the tagline, or the fallback when it is absent or the head is empty. */
  function FirstLine(tagline: Option<string>): (line: string)
    ensures line != ""
    ensures tagline.Some? && Head(tagline.value) != "" ==> line == Head(tagline.value)
    ensures tagline.None? || Head(tagline.value) == "" ==> line == FirstLineFallback
  {
    match tagline
    case Some(t) => if Head(t) != "" then Head(t) else FirstLineFallback
    case None => FirstLineFallback
  }

  /** The second line: the tail of the tagline, or the fallback when it is absent or the tail is empty. */
  function SecondLine(tagline: Option<string>): (line: string)
    ensures line != ""
    ensures tagline.Some? && Tail(tagline.value) != "" ==> line == Tail(tagline.value)
    ensures tagline.None? || Tail(tagline.value) == "" ==> line == SecondLineFallback
  {
    match tagline
    case Some(t) => if Tail(t) != "" then Tail(t) else SecondLineFallback
    case None => SecondLineFallback
  }

  /** The head is empty exactly for the empty tagline, so only that one gets the first fallback. */
  lemma HeadEmptyIff(tagline: string)
    ensures Head(tagline) == "" <==> tagline == ""
  {
    var words := Text.Split(tagline, ' ');
    if |words| >= 2 {
      Text.JoinHasSeparator(words[..2], ' ');
      assert Head(tagline) != "";
      assert tagline != "" by {
        Text.JoinSplit(tagline, ' ');
        assert Text.Join(words, ' ') == words[0] + " " + Text.Join(words[1..], ' ');
      }
    } else {
      Text.JoinSplit(tagline, ' ');
      assert words[..1] == words;
    }
  }

  /** The first line is the head of the tagline exactly when the tagline is not empty. */
  lemma FirstLineIsHeadIff(tagline: string)
    ensures FirstLine(Some(tagline)) == Head(tagline) <==> tagline != ""
  {
    HeadEmptyIff(tagline);
  }

  /** A tagline of at most two pieces shows the second fallback. */
  lemma ShortTaglineSecondFallback(tagline: string)
    requires |Text.Split(tagline, ' ')| <= 2
    ensures SecondLine(Some(tagline)) == SecondLineFallback
  {
  }

  /** The empty tagline gets both fallbacks. */
  lemma EmptyTaglineFallsBack()
    ensures FirstLine(Some("")) == FirstLineFallback
    ensures SecondLine(Some("")) == SecondLineFallback
  {
    HeadEmptyIff("");
  }

  /** When the second line is not the fallback, the two lines joined by a space are the tagline. */
  lemma LinesRoundTrip(tagline: string)
    requires Tail(tagline) != ""
    ensures FirstLine(Some(tagline)) + " " + SecondLine(Some(tagline)) == tagline
  {
    var words := Text.Split(tagline, ' ');
    Text.JoinSplit(tagline, ' ');
    Text.JoinCut(words, 2, ' ');
    assert Head(tagline) == Text.Join(words[..2], ' ') != "";
  }

  datatype HeroView =
    | Spinner
    | Heading(firstLine: string, secondLine: string, description: string)

  /** The section: only a spinner while the data loads, else the two lines and the description. */
  function Render(loading: bool, profile: PortfolioData.Profile): (view: HeroView)
    ensures view.Spinner? <==> loading
    ensures view.Heading? ==>
              && view.firstLine == FirstLine(Some(profile.tagline))
              && view.secondLine == SecondLine(Some(profile.tagline))
              && view.description == profile.description
  {
    if loading then Spinner
    else Heading(FirstLine(Some(profile.tagline)), SecondLine(Some(profile.tagline)), profile.description)
  }
}
