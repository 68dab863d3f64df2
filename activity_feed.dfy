/**
 * The recent-activity card: which account it asks about, which of the
 * fetched events it keeps, and how each kept event is drawn.
 */
module ActivityFeed {
  import opened Wrappers
  import Text
  import GithubUser
  import GithubService

  type GithubEvent = GithubService.GithubEvent

  /** How many events the card keeps. */
  const MaxShown: nat := 5

  /**
   * The account asked about: the graph's target username, and the site
   * owner's account again when that comes out empty.
   */
  function RequestedUsername(github: string): (username: string)
    ensures username != ""
    ensures '/' !in username
    ensures GithubUser.TargetUsername(github) != "" ==> username == GithubUser.TargetUsername(github)
    ensures GithubUser.TargetUsername(github) == "" ==> username == GithubUser.FallbackUsername
  {
    var target := GithubUser.TargetUsername(github);
    if target != "" then target else GithubUser.FallbackUsername
  }

  /**
   * A link ending in `/` makes the contribution graph ask for the empty
   * name, while this card falls back to the site owner's account.
   */
  lemma TrailingSlashDiffers(github: string)
    requires |github| > 0 && github[|github| - 1] == '/'
    ensures GithubUser.TargetUsername(github) == ""
    ensures RequestedUsername(github) == GithubUser.FallbackUsername
  {
    GithubUser.TrailingSlashGivesEmpty(github);
  }

  /** `fetchGithubActivity`: the decoded events, or none when the request or the decoding failed. */
  function FetchedEvents(response: Option<seq<GithubEvent>>): (events: seq<GithubEvent>)
    ensures response.None? ==> events == []
    ensures response.Some? ==> events == response.value
  {
    response.GetOr([])
  }

  /** `data.slice(0, 5)`: the first five events, or all of them when there are fewer. */
  function Displayed(events: seq<GithubEvent>): (shown: seq<GithubEvent>)
    ensures |shown| == if |events| < MaxShown then |events| else MaxShown
    ensures shown <= events
  {
    if |events| <= MaxShown then events else events[..MaxShown]
  }

  /** Capping twice is capping once. */
  lemma DisplayedIdempotent(events: seq<GithubEvent>)
    ensures Displayed(Displayed(events)) == Displayed(events)
  {
  }

  datatype Icon = GitCommit | GitBranch | Star | GitFork | MessageCircle | Clock

  /** `getEventIcon`: five event types have their own icon, every other type the clock. */
  function EventIcon(eventType: string): (icon: Icon)
    ensures icon == Clock <==>
      eventType !in {"PushEvent", "CreateEvent", "WatchEvent", "ForkEvent", "IssueCommentEvent"}
  {
    match eventType
    case "PushEvent" => GitCommit
    case "CreateEvent" => GitBranch
    case "WatchEvent" => Star
    case "ForkEvent" => GitFork
    case "IssueCommentEvent" => MessageCircle
    case _ => Clock
  }

  /** The star and fork icons go exactly with the starred and forked descriptions. */
  lemma StarAndForkIconsMatchMessages(e: GithubEvent)
    ensures EventIcon(e.eventType) == Star <==> GithubService.FormatEventMessage(e) == "Starred repository"
    ensures EventIcon(e.eventType) == GitFork <==> GithubService.FormatEventMessage(e) == "Forked repository"
  {
    GithubService.FixedMessagesIdentifyType(e);
  }

  /** The commit icon goes exactly with the descriptions that read back as a commit count. */
  lemma CommitIconMatchesMessage(e: GithubEvent)
    ensures EventIcon(e.eventType) == GitCommit <==> GithubService.PushedCount(GithubService.FormatEventMessage(e)).Some?
  {
    GithubService.PushCountRoundTrip(e);
  }

  /**
   * `name.split('/')[1] || name`: the second `/`-piece of the repository's
   * full name when there is one and it is not empty, else the whole name.
   */
  function RepoLabel(name: string): (text: string)
    ensures text == name || ('/' !in text && text != "")
  {
    var parts := Text.Split(name, '/');
    if |parts| >= 2 && parts[1] != "" then parts[1] else name
  }

  /**
   * The first two `/`-pieces of `owner/repo` followed by nothing or by
   * further `/`-pieces are `owner` and `repo`.
   */
  lemma RepoPieces(owner: string, repo: string, rest: string)
    requires '/' !in owner && '/' !in repo
    requires rest == "" || rest[0] == '/'
    ensures var parts := Text.Split(owner + "/" + repo + rest, '/');
      |parts| >= 2 && parts[0] == owner && parts[1] == repo
  {
    var head := [owner, repo];
    assert Text.Join(head, '/') == owner + "/" + repo;
    if rest == "" {
      assert owner + "/" + repo + rest == Text.Join(head, '/');
      Text.SplitJoin(head, '/');
    } else {
      var more := Text.Split(rest[1..], '/');
      var pieces := head + more;
      forall i | 0 <= i < |pieces| ensures '/' !in pieces[i] {
        if i >= 2 {
          assert pieces[i] == more[i - 2];
        }
      }
      FullNameJoin(owner, repo, rest);
      Text.SplitJoin(pieces, '/');
      assert pieces[0] == owner && pieces[1] == repo;
    }
  }

  /** `owner/repo/…` is the join of `owner`, `repo` and the pieces after them. */
  lemma FullNameJoin(owner: string, repo: string, rest: string)
    requires rest != "" && rest[0] == '/'
    ensures owner + "/" + repo + rest == Text.Join([owner, repo] + Text.Split(rest[1..], '/'), '/')
  {
    var more := Text.Split(rest[1..], '/');
    var front := owner + "/" + repo;
    assert [owner, repo][1..] == [repo];
    assert Text.Join([owner, repo], '/') == front;
    Text.JoinSplit(rest[1..], '/');
    Text.JoinAppend([owner, repo], more, '/');
    assert rest == ['/'] + rest[1..];
    assert front + rest == front + ['/'] + rest[1..];
  }

  /**
   * The label of a full name is its second `/`-piece, whatever follows
   * that piece; so a name with several `/` gives its second piece, not its last.
   */
  lemma RepoLabelOfFullName(owner: string, repo: string, rest: string)
    requires '/' !in owner && '/' !in repo && repo != ""
    requires rest == "" || rest[0] == '/'
    ensures RepoLabel(owner + "/" + repo + rest) == repo
  {
    RepoPieces(owner, repo, rest);
  }

  /** An empty second piece (`owner/` or `owner//x`) falls back to the whole name. */
  lemma RepoLabelEmptySecondPiece(owner: string, rest: string)
    requires '/' !in owner
    requires rest == "" || rest[0] == '/'
    ensures RepoLabel(owner + "/" + rest) == owner + "/" + rest
  {
    RepoPieces(owner, "", rest);
    assert owner + "/" + "" + rest == owner + "/" + rest;
  }

  /** A name without `/` is its own label. */
  lemma RepoLabelWithoutSlash(name: string)
    requires '/' !in name
    ensures RepoLabel(name) == name
  {
    Text.SplitNoSeparator(name, '/');
  }

  const GithubPrefix: string := "https://github.com/"

  /** One line of the card. */
  datatype EventRow = EventRow(icon: Icon, message: string, repoText: string, link: string)

  /**
   * The row of an event: its icon, its description, its repository label,
   * and a link to the repository's page.
   */
  function RowOf(e: GithubEvent): (row: EventRow)
    ensures row.message != ""
    ensures |row.link| >= |GithubPrefix| && row.link[..|GithubPrefix|] == GithubPrefix
    ensures row.link[|GithubPrefix|..] == e.repoName
  {
    EventRow(EventIcon(e.eventType), GithubService.FormatEventMessage(e), RepoLabel(e.repoName),
             GithubPrefix + e.repoName)
  }

  datatype FeedView =
    | LoadingSkeleton
    | NoActivity
    | EventList(rows: seq<EventRow>)

  class Feed {
    var events: seq<GithubEvent>
    var loading: bool

    /** The card keeps at most five events. */
    ghost predicate Valid()
      reads this
    {
      |events| <= MaxShown
    }

    constructor ()
      ensures Valid()
      ensures events == [] && loading
    {
      events := [];
      loading := true;
    }

    /**
     * The load effect. While the profile loads nothing happens and nothing
     * is requested; otherwise it asks for the requested user's events and
     * keeps the first five of what came back (none on failure).
     */
    method LoadActivity(profileLoading: bool, github: string, response: Option<seq<GithubEvent>>)
      returns (requested: Option<string>)
      requires Valid()
      modifies this
      ensures Valid()
      ensures profileLoading ==> requested == None && events == old(events) && loading == old(loading)
      ensures !profileLoading ==> && requested == Some(RequestedUsername(github))
                                  && events == Displayed(FetchedEvents(response))
                                  && !loading
    {
      if profileLoading {
        return None;
      }
      loading := true;
      var targetUsername := RequestedUsername(github);
      requested := Some(targetUsername);
      var data := FetchedEvents(response);
      events := Displayed(data);
      loading := false;
    }

    /** The card: a skeleton while loading, a notice when there are no events, else one row per event. */
    function Render(profileLoading: bool): (view: FeedView)
      reads this
      ensures view.LoadingSkeleton? <==> loading || profileLoading
      ensures view.NoActivity? <==> !loading && !profileLoading && events == []
      ensures view.EventList? ==> |view.rows| == |events| && 0 < |view.rows|
      ensures view.EventList? ==> forall i :: 0 <= i < |events| ==> view.rows[i] == RowOf(events[i])
    {
      if loading || profileLoading then LoadingSkeleton
      else if |events| == 0 then NoActivity
      else
        var shown := events;
        EventList(seq(|shown|, i requires 0 <= i < |shown| => RowOf(shown[i])))
    }
  }
}
