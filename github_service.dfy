/**
 * GitHub's public events as the activity feed receives them, and the
 * one-line description the feed prints for each.
 */
module GithubService {
  import opened Wrappers
  import Text

  datatype Commit = Commit(message: string, sha: string)

  /** The payload fields the site reads; each may be absent. */
  datatype Payload = Payload(
    action: Option<string>,
    ref: Option<string>,
    refType: Option<string>,
    commits: Option<seq<Commit>>)

  datatype GithubEvent = GithubEvent(
    id: string,
    eventType: string,
    actorLogin: string,
    repoName: string,
    payload: Payload,
    createdAt: string)

  /** `commits?.length || 0`. */
  function CommitCount(p: Payload): (n: nat)
    ensures p.commits.None? ==> n == 0
    ensures p.commits.Some? ==> n == |p.commits.value|
  {
    match p.commits
    case Some(cs) => |cs|
    case None => 0
  }

  /** `ref_type || 'repository'`: an absent or empty ref type reads as a repository. */
  function RefTypeText(p: Payload): (t: string)
    ensures t != ""
    ensures p.refType.Some? && p.refType.value != "" ==> t == p.refType.value
    ensures p.refType.None? || p.refType.value == "" ==> t == "repository"
  {
    match p.refType
    case Some(r) => if r != "" then r else "repository"
    case None => "repository"
  }

  /** An interpolated absent action prints as `undefined`. */
  function ActionText(p: Payload): (t: string)
    ensures p.action.Some? ==> t == p.action.value
    ensures p.action.None? ==> t == "undefined"
  {
    p.action.GetOr("undefined")
  }

  const PushPrefix: string := "Pushed "
  const PushSuffix: string := " commits to"

  /** `formatEventMessage`: the feed's description of an event, by its type. */
  function FormatEventMessage(e: GithubEvent): (m: string)
    ensures m != ""
  {
    match e.eventType
    case "PushEvent" => PushPrefix + Text.NatToString(CommitCount(e.payload)) + PushSuffix
    case "CreateEvent" => "Created " + RefTypeText(e.payload)
    case "WatchEvent" => "Starred repository"
    case "ForkEvent" => "Forked repository"
    case "PullRequestEvent" => ActionText(e.payload) + " pull request in"
    case "IssuesEvent" => ActionText(e.payload) + " issue in"
    case _ => "Acted on"
  }

  /** The six types the feed describes by name. */
  const DescribedTypes: set<string> :=
    {"PushEvent", "CreateEvent", "WatchEvent", "ForkEvent", "PullRequestEvent", "IssuesEvent"}

  /**
   * The three fixed descriptions identify their event type: whatever the
   * payload holds, no other type's description can spell them.
   */
  lemma FixedMessagesIdentifyType(e: GithubEvent)
    ensures FormatEventMessage(e) == "Starred repository" <==> e.eventType == "WatchEvent"
    ensures FormatEventMessage(e) == "Forked repository" <==> e.eventType == "ForkEvent"
    ensures FormatEventMessage(e) == "Acted on" <==> e.eventType !in DescribedTypes
  {
    var m := FormatEventMessage(e);
    match e.eventType
    case "PushEvent" =>
      assert m[0] == 'P';
    case "CreateEvent" =>
      assert m[0] == 'C';
    case "WatchEvent" =>
    case "ForkEvent" =>
    case "PullRequestEvent" =>
      assert m[|m| - 1] == 'n' && |m| >= 16;
    case "IssuesEvent" =>
      assert m[|m| - 1] == 'n' && |m| >= 9;
    case _ =>
  }

  /**
   * The texts of the parametrised descriptions: a create names its ref type
   * (`repository` when there is none), a pull request or issue starts with
   * its action (`undefined` when there is none).
   */
  lemma ParametrisedMessages(e: GithubEvent)
    ensures e.eventType == "CreateEvent" ==> FormatEventMessage(e) == "Created " + RefTypeText(e.payload)
    ensures e.eventType == "CreateEvent" && (e.payload.refType.None? || e.payload.refType.value == "")
      ==> FormatEventMessage(e) == "Created repository"
    ensures e.eventType == "PullRequestEvent" ==> FormatEventMessage(e) == ActionText(e.payload) + " pull request in"
    ensures e.eventType == "IssuesEvent" ==> FormatEventMessage(e) == ActionText(e.payload) + " issue in"
    ensures e.eventType in {"PullRequestEvent", "IssuesEvent"} && e.payload.action.None?
      ==> FormatEventMessage(e)[..10] == "undefined "
  {
  }

  /** What the description is made from: the type, the commit count, the ref type and the action. */
  datatype Summary = Summary(eventType: string, commits: nat, refType: string, action: string)

  function SummaryOf(e: GithubEvent): Summary {
    Summary(e.eventType, CommitCount(e.payload), RefTypeText(e.payload), ActionText(e.payload))
  }

  /** The description depends on nothing but the summary: not on the id, actor, repository, date or ref. */
  lemma MessageDependsOnlyOnSummary(a: GithubEvent, b: GithubEvent)
    requires SummaryOf(a) == SummaryOf(b)
    ensures FormatEventMessage(a) == FormatEventMessage(b)
  {
  }

  /**
   * Reads a push description back: the number between `Pushed ` and
   * ` commits to`, when the text has that form.
   */
  function PushedCount(m: string): (n: Option<nat>)
  {
    if |m| > |PushPrefix| + |PushSuffix|
       && m[..|PushPrefix|] == PushPrefix
       && m[|m| - |PushSuffix|..] == PushSuffix
       && Text.IsDigits(m[|PushPrefix|..|m| - |PushSuffix|])
    then Some(Text.DigitsValue(m[|PushPrefix|..|m| - |PushSuffix|]))
    else None
  }

  /**
   * A description reads back as a push exactly when the event is a push, and
   * then it gives back the commit count.
   */
  lemma PushCountRoundTrip(e: GithubEvent)
    ensures PushedCount(FormatEventMessage(e)).Some? <==> e.eventType == "PushEvent"
    ensures e.eventType == "PushEvent" ==> PushedCount(FormatEventMessage(e)) == Some(CommitCount(e.payload))
  {
    var m := FormatEventMessage(e);
    match e.eventType
    case "PushEvent" =>
      var digits := Text.NatToString(CommitCount(e.payload));
      assert m == PushPrefix + digits + PushSuffix;
      assert m[..|PushPrefix|] == PushPrefix;
      assert m[|m| - |PushSuffix|..] == PushSuffix;
      assert m[|PushPrefix|..|m| - |PushSuffix|] == digits;
      Text.NatToStringValue(CommitCount(e.payload));
    case "CreateEvent" =>
      assert m[0] == 'C';
    case "WatchEvent" =>
      assert m[0] == 'S';
    case "ForkEvent" =>
      assert m[0] == 'F';
    case "PullRequestEvent" =>
      assert m[|m| - 1] == 'n';
    case "IssuesEvent" =>
      assert m[|m| - 1] == 'n';
    case _ =>
      assert |m| == 8;
  }
}
