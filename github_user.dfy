/**
 * Which GitHub account the contribution graph and the activity feed ask
 * about: the last `/`-segment of the profile's GitHub link, or the site
 * owner's account when the link is unset or the `#` placeholder.
 */
module GithubUser {
  import Text

  const FallbackUsername: string := "ahmaddava"

  /** `url.split('/').pop()`. */
  function LastSegment(url: string): (segment: string)
    ensures '/' !in segment
    ensures |segment| <= |url| && url[|url| - |segment|..] == segment
    ensures |segment| < |url| ==> url[|url| - |segment| - 1] == '/'
  {
    SplitLast(url);
    var parts := Text.Split(url, '/');
    parts[|parts| - 1]
  }

  /** The last piece of a split is a suffix of the string, after its last separator. */
  lemma SplitLast(url: string)
    ensures var parts := Text.Split(url, '/');
      var last := parts[|parts| - 1];
      |last| <= |url| && url[|url| - |last|..] == last &&
      (|last| < |url| ==> url[|url| - |last| - 1] == '/')
  {
    var parts := Text.Split(url, '/');
    var n := |parts|;
    Text.JoinSplit(url, '/');
    if n >= 2 {
      Text.JoinAppend(parts[..n - 1], [parts[n - 1]], '/');
      assert parts[..n - 1] + [parts[n - 1]] == parts;
    }
  }

  /** A link ending in `/` has an empty last segment. */
  lemma TrailingSlashGivesEmpty(url: string)
    requires |url| > 0 && url[|url| - 1] == '/'
    ensures LastSegment(url) == ""
  {
  }

  /** A link without `/` is its own last segment. */
  lemma NoSlashIsItself(url: string)
    requires '/' !in url
    ensures LastSegment(url) == url
  {
  }

  /**
   * `profile.github && profile.github !== '#' ? profile.github.split('/').pop()
   * : FALLBACK_USERNAME`: the empty string counts as unset.
   */
  function TargetUsername(github: string): (username: string)
    ensures github == "" || github == "#" ==> username == FallbackUsername
    ensures github != "" && github != "#" ==> username == LastSegment(github)
    ensures '/' !in username
  {
    if github != "" && github != "#" then LastSegment(github) else FallbackUsername
  }
}
