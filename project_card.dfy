/**
 * A project's card: at most three technology tags with a `+N` badge for the
 * rest, and a static image that gives way to a looping preview video while
 * the pointer is over the card.
 */
module ProjectCard {
  import opened Wrappers
  import Text

  /** How many tags a card shows. */
  const MaxTags: nat := 3

  /** The tags shown: the first three of the list, in order, and none when there is no list. */
  function ShownTags(techStack: Option<seq<string>>): (shown: seq<string>)
    ensures |shown| <= MaxTags
    ensures techStack.None? ==> shown == []
    ensures techStack.Some? ==> shown <= techStack.value
    ensures techStack.Some? ==> |shown| == if |techStack.value| < MaxTags then |techStack.value| else MaxTags
  {
    match techStack
    case Some(ts) => if |ts| <= MaxTags then ts else ts[..MaxTags]
    case None => []
  }

  /** The overflow badge: the number of tags not shown, present only when there are more than three. */
  function Badge(techStack: Option<seq<string>>): (n: Option<nat>)
    ensures n.Some? <==> techStack.Some? && |techStack.value| > MaxTags
    ensures n.Some? ==> n.value >= 1
  {
    match techStack
    case Some(ts) => if |ts| > MaxTags then Some(|ts| - MaxTags) else None
    case None => None
  }

  /** The shown tags and the badge's count together account for every tag. */
  lemma TagsAccounted(techStack: Option<seq<string>>)
    ensures |ShownTags(techStack)| + Badge(techStack).GetOr(0) == |techStack.GetOr([])|
  {
  }

  /** Past the first three, the badge names exactly the hidden tags: those after the shown prefix. */
  lemma BadgeCountsHidden(ts: seq<string>)
    requires |ts| > MaxTags
    ensures ts == ShownTags(Some(ts)) + ts[MaxTags..]
    ensures Badge(Some(ts)) == Some(|ts[MaxTags..]|)
  {
  }

  /** The badge's text, `+` then the count. */
  function BadgeText(n: nat): (text: string)
    ensures |text| >= 2 && text[0] == '+'
    ensures Text.IsDigits(text[1..]) && Text.DigitsValue(text[1..]) == n
  {
    Text.NatToStringValue(n);
    "+" + Text.NatToString(n)
  }

  /** A video link counts only when it is present and not empty. */
  predicate HasVideo(videoUrl: Option<string>) {
    videoUrl.Some? && videoUrl.value != ""
  }

  /** One card's state: whether the pointer is over it, and its preview video's position and playback. */
  class Card {
    const videoUrl: Option<string>
    var isHovered: bool
    var currentTime: real
    var playing: bool

    /** Without a video there is no element to play. */
    ghost predicate Valid()
      reads this
    {
      !HasVideo(videoUrl) ==> !playing
    }

    constructor (videoUrl: Option<string>)
      ensures Valid()
      ensures this.videoUrl == videoUrl && !isHovered && currentTime == 0.0 && !playing
      ensures !ImageFaded() && !VideoOpaque()
    {
      this.videoUrl := videoUrl;
      isHovered := false;
      currentTime := 0.0;
      playing := false;
    }

    /**
     * `handleMouseEnter`: hovered; a present video restarts from the
     * beginning and plays unless the browser refuses playback.
     */
    method MouseEnter(playAllowed: bool)
      requires Valid()
      modifies this
      ensures Valid()
      ensures isHovered
      ensures HasVideo(videoUrl) ==> currentTime == 0.0 && playing == playAllowed
      ensures !HasVideo(videoUrl) ==> currentTime == old(currentTime) && playing == old(playing)
      ensures ImageFaded() == HasVideo(videoUrl) && VideoOpaque() == HasVideo(videoUrl)
    {
      isHovered := true;
      if HasVideo(videoUrl) {
        currentTime := 0.0;
        playing := playAllowed;
      }
    }

    /** `handleMouseLeave`: not hovered, and a present video pauses where it is. */
    method MouseLeave()
      requires Valid()
      modifies this
      ensures Valid()
      ensures !isHovered && !playing
      ensures currentTime == old(currentTime)
      ensures !ImageFaded() && !VideoOpaque()
    {
      isHovered := false;
      if HasVideo(videoUrl) {
        playing := false;
      }
    }

    /** The static image fades out exactly while hovered over a card that has a video. */
    predicate ImageFaded(): (faded: bool)
      reads this
      ensures faded ==> VideoRendered()
      ensures faded <==> VideoOpaque()
    {
      isHovered && HasVideo(videoUrl)
    }

    /** The video element is there exactly when the card has a video. */
    predicate VideoRendered()
      reads this
    {
      HasVideo(videoUrl)
    }

    /** A rendered video is opaque exactly while hovered. */
    predicate VideoOpaque(): (shown: bool)
      reads this
      ensures shown ==> HasVideo(videoUrl) && isHovered
      ensures !isHovered ==> !shown
    {
      VideoRendered() && isHovered
    }
  }
}
