# Portfolio site core, modelled in Dafny

This project models the parts of the portfolio site (a React/TypeScript app)
that hold logic rather than layout:

- **The contribution calendar** (`ContributionGraph.tsx`).
  - Which account it asks about, and when a fetched year of daily counts replaces the shown one.
  - `getWeeks`, which buckets the days into week columns. It is modelled as a loop and proved against a specification function.
  - The colour and title of each cell, and the legend.
- **The recent-activity card** (`ActivityFeed.tsx`, `GithubService.ts`).
  - Which account it asks about, and the cap of five events.
  - The description, icon and repository label of each event.
- **The admin editors** (`ProjectsAdmin.tsx`, `ProfileAdmin.tsx`).
  - Each is a class whose fields are the page's state: the list, the modal, the editing target, the form and the tag input.
  - Each handler is a method that states the whole new state.
  - The list operations are edit by id, add with the next free id, and delete by id. They live in `Records`, with their invariants: unique ids, order kept, and a tag list without duplicates.
- **The landing heading** (`Hero.tsx`): the tagline cut into two lines, with fallbacks.
- **The project card** (`ProjectCard.tsx`): the first three tags and a `+N` badge, and the hover state machine of the image and the preview video.

Supporting modules:

- `Text` gives JavaScript's `split`, `join`, `trim` and number printing.
- `Calendar` gives the proleptic Gregorian day number and weekday of an ISO date. This stands in for `new Date(date).getDay()`.
- `GithubUser` resolves the account name from the profile's GitHub link. The graph and the feed share this rule.
- `PortfolioData` holds the record shapes of the shared data store.

Inputs that come from outside are parameters of the model:

- a fetch's outcome;
- the answer of `confirm()`;
- whether the browser allows playback;
- the store's "profile is loading" flag.

The store declared in `src/context/DataContext.tsx` has no `loading` member. So in this version of the code the flag that `Hero`, `ContributionGraph` and `ActivityFeed` destructure is always undefined, which is falsy. The model keeps it as a boolean parameter, so both values are covered.

The graph and the feed resolve a GitHub link that ends in `/` differently:

- The graph requests the empty name, because `ContributionGraph.tsx:41-43` has no further fallback.
- The feed falls back to `ahmaddava` (`ActivityFeed.tsx:26`).

`ActivityFeed.TrailingSlashDiffers` states both outcomes for the same link.

## Model

| member | source | states |
|---|---|---|
| Text.JoinSplit | src/components/sections/Hero.tsx:41-46 | joining the pieces of `split(sep)` with `sep` gives back the original string |
| Text.SplitJoin | src/components/github/ActivityFeed.tsx:92 | splitting a join of separator-free pieces gives back exactly those pieces |
| Text.Split | src/components/sections/Hero.tsx:41 | `split` with a one-character separator gives at least one piece, and no piece holds the separator |
| Text.Join | src/components/sections/Hero.tsx:41 | `join` of one piece or more begins with the first piece; `JoinSplit` and `SplitJoin` make it the inverse of `split` |
| Text.JoinCut | src/components/sections/Hero.tsx:41-46 | cutting the pieces after the k-th cuts their join at the separator between the two runs |
| Text.Trim | src/pages/admin/ProjectsAdmin.tsx:73 | `trim` is empty iff the input is all white space; otherwise it starts and ends with a non-space; it is a slice of the input with only white space cut off either end |
| Text.TrimIdempotent | src/pages/admin/ProjectsAdmin.tsx:73-74 | trimming a trimmed tag changes nothing |
| Text.NatToStringValue | src/services/GithubService.ts:42 | the printed decimal of a count reads back as that count |
| Text.NatToStringInjective | src/components/github/ContributionGraph.tsx:223 | different counts print differently |
| Calendar.DayOfWeek | src/components/github/ContributionGraph.tsx:102 | the weekday (0 to 6) of a real `YYYY-MM-DD` date; `None`, standing for NaN, for any other string |
| Calendar.NextDateNumber | src/components/github/ContributionGraph.tsx:102 | the day after any valid date has the next day number: the calendar has no gaps, across month ends, leap days and year ends |
| Calendar.YearLength | src/components/github/ContributionGraph.tsx:102 | a March-based year has 366 days exactly in Gregorian leap years, else 365 |
| Calendar.ParseFormat | src/components/github/ContributionGraph.tsx:102 | reading the `YYYY-MM-DD` print of a valid date gives the date back |
| Calendar.FormatParse | src/components/github/ContributionGraph.tsx:102 | every string that reads as a date is exactly the print of that date |
| Calendar.PaddedDigitsValue | src/components/github/ContributionGraph.tsx:102 | a zero-padded number reads back as the number |
| Calendar.DigitsValuePadded | src/components/github/ContributionGraph.tsx:102 | padding the value of a digit string to its own length gives the string back |
| Calendar.EpochIsThursday | src/components/github/ContributionGraph.tsx:102 | 1970-01-01 has day number 0 and weekday 4 (Thursday) |
| Calendar.NewYear2024IsMonday | src/components/github/ContributionGraph.tsx:102 | 2024-01-01 has weekday 1 (Monday) |
| GithubUser.LastSegment | src/components/github/ContributionGraph.tsx:42 | `split('/').pop()` has no `/`, is a suffix of the link, and is preceded by a `/` when it is not the whole link |
| GithubUser.TrailingSlashGivesEmpty | src/components/github/ContributionGraph.tsx:42 | a link ending in `/` has the empty last segment |
| GithubUser.NoSlashIsItself | src/components/github/ContributionGraph.tsx:42 | a bare user name is its own last segment |
| GithubUser.TargetUsername | src/components/github/ContributionGraph.tsx:41-43 | the fallback account exactly when the link is empty or `#`, otherwise the link's last segment; never contains `/` |
| Contributions.GetWeeks | src/components/github/ContributionGraph.tsx:95-119 | no data gives no weeks; otherwise the loop's weeks are exactly `Weeks(days)`: `dayOfWeek(first)` placeholders then the days, cut after every Saturday and after the final day |
| Contributions.LeadingPadding | src/components/github/ContributionGraph.tsx:102-108 | the first day's weekday; 0 for no days, and 0 for an unreadable first date, since a NaN bound runs the padding loop zero times |
| Contributions.Cut | src/components/github/ContributionGraph.tsx:110-115 | the weeks cut after every closing cell and after the last cell, never more weeks than cells; `CutUnique` and `WeeksShape` characterise the cut completely |
| Contributions.Weeks | src/components/github/ContributionGraph.tsx:101-116 | the reference definition of `getWeeks`: the padding then the days, cut after Saturdays and the last day; no weeks exactly for no days |
| Contributions.NoDaysNoWeeks | src/components/github/ContributionGraph.tsx:101-116 | an empty list of days gives no weeks |
| Contributions.WeeksShape | src/components/github/ContributionGraph.tsx:101-116 | the weeks flatten to the placeholders followed by the days; every week is non-empty, none has a Saturday before its end, every week but the last ends on a Saturday, and the last ends with the final day |
| Contributions.WeeksEndWithLastDay | src/components/github/ContributionGraph.tsx:112-115 | with at least one day there is a last week, and it ends with the final day |
| Contributions.CutUnique | src/components/github/ContributionGraph.tsx:110-115 | conversely, any weeks with those shape properties are exactly the cut of their concatenation, so the week structure is determined |
| Contributions.WeeksKeepDays | src/components/github/ContributionGraph.tsx:101-116 | dropping the placeholder cells from all weeks gives exactly the input days, in order, each once |
| Contributions.PaddingOnlyInFirstWeek | src/components/github/ContributionGraph.tsx:104-108 | the first week opens with exactly `dayOfWeek(first)` placeholders (date `''`, count 0, level 0) followed only by real days; no later week has a placeholder |
| Contributions.ConsecutiveWeeks | src/components/github/ContributionGraph.tsx:101-116 | for consecutive calendar days every week but the last has 7 cells and there are ceil((padding + n) / 7) weeks |
| Contributions.ColorClass | src/components/github/ContributionGraph.tsx:71-91 | level 0..4 gets that entry of the theme's palette, any other level gets entry 0; the result is always in the palette |
| Contributions.LevelsDistinct | src/components/github/ContributionGraph.tsx:73-88 | within a theme the five levels get five different classes |
| Contributions.PalettesDisjoint | src/components/github/ContributionGraph.tsx:73-88 | no dark-theme class equals a light-theme class |
| Contributions.TransparentNotInPalette | src/components/github/ContributionGraph.tsx:222 | `bg-transparent` is in neither palette |
| Contributions.CellClass | src/components/github/ContributionGraph.tsx:222 | a cell is transparent iff it is a placeholder; a dated cell gets its level's colour |
| Contributions.CellTitle | src/components/github/ContributionGraph.tsx:223 | the title is empty iff the cell is a placeholder |
| Contributions.TitleIdentifiesCell | src/components/github/ContributionGraph.tsx:223 | two dated cells with non-negative counts have the same title only when count and date agree |
| Contributions.LegendIsPalette | src/components/github/ContributionGraph.tsx:246-248 | the legend shows the theme's whole palette, least active first |
| Contributions.ContributionGraph.constructor | src/components/github/ContributionGraph.tsx:27-28 | no data and loading at first |
| Contributions.Accepts | src/components/github/ContributionGraph.tsx:46-48 | only an OK response can replace the data, and never one whose body does not decode |
| Contributions.ContributionGraph.FetchContributions | src/components/github/ContributionGraph.tsx:33-59 | while the profile loads nothing is requested or changed; otherwise the target user is requested, data is replaced only by an OK response with a non-empty list (kept on an error, a non-OK status or an empty list), and loading ends; shown data always has a day |
| Contributions.ContributionGraph.Render | src/components/github/ContributionGraph.tsx:131-147 | skeleton iff either loading flag is set; otherwise the total (0 without data) and one column per week with each cell's class and title |
| GithubService.CommitCount | src/services/GithubService.ts:42 | `commits?.length || 0`: the number of commits, 0 when the list is absent |
| GithubService.ActionText | src/services/GithubService.ts:50-52 | the action as given, `undefined` when it is absent, as a template literal prints it |
| GithubService.RefTypeText | src/services/GithubService.ts:44 | an absent or empty `ref_type` reads `repository`, any other is used as is |
| GithubService.FormatEventMessage | src/services/GithubService.ts:39-56 | every event gets a non-empty description |
| GithubService.FixedMessagesIdentifyType | src/services/GithubService.ts:45-54 | `Starred repository`, `Forked repository` and `Acted on` are each the description of exactly their own case (a watch, a fork, any type outside the six), whatever the payload |
| GithubService.ParametrisedMessages | src/services/GithubService.ts:43-52 | a create reads `Created ` and its ref type (`Created repository` without one); a pull request or issue reads its action then ` pull request in` or ` issue in`, beginning `undefined ` without an action |
| GithubService.MessageDependsOnlyOnSummary | src/services/GithubService.ts:39-56 | the description depends only on the type, the commit count, the ref type and the action |
| GithubService.PushCountRoundTrip | src/services/GithubService.ts:41-42 | a description reads back as `Pushed N commits to` exactly for push events, and then N is the commit count (0 without commits) |
| ActivityFeed.RequestedUsername | src/components/github/ActivityFeed.tsx:22-26 | the target user name, or `ahmaddava` when that is empty; never empty and never contains `/` |
| ActivityFeed.TrailingSlashDiffers | src/components/github/ActivityFeed.tsx:22-26 | for a link ending in `/` the graph's target is empty while the feed asks for the fallback account |
| ActivityFeed.FetchedEvents | src/services/GithubService.ts:26-37 | a failed request gives no events; a successful one gives the decoded list |
| ActivityFeed.Displayed | src/components/github/ActivityFeed.tsx:27 | the shown events are a prefix of the fetched ones, min(5, n) long |
| ActivityFeed.DisplayedIdempotent | src/components/github/ActivityFeed.tsx:27 | capping twice is capping once |
| ActivityFeed.EventIcon | src/components/github/ActivityFeed.tsx:33-42 | the clock exactly for the types other than push, create, watch, fork and issue comment |
| ActivityFeed.StarAndForkIconsMatchMessages | src/components/github/ActivityFeed.tsx:33-42 | the star icon goes exactly with `Starred repository`, the fork icon exactly with `Forked repository` |
| ActivityFeed.CommitIconMatchesMessage | src/components/github/ActivityFeed.tsx:33-42 | the commit icon goes exactly with the descriptions that read back as a commit count |
| ActivityFeed.RepoLabel | src/components/github/ActivityFeed.tsx:92 | the label is the whole name or a non-empty piece without `/` |
| ActivityFeed.RepoPieces | src/components/github/ActivityFeed.tsx:92 | the first two `/`-pieces of `owner/repo…` are `owner` and `repo`, whatever follows behind a `/` |
| ActivityFeed.RepoLabelOfFullName | src/components/github/ActivityFeed.tsx:92 | for `owner/repo`, and for `owner/repo/…`, the label is `repo`, the second piece and not the last |
| ActivityFeed.RepoLabelEmptySecondPiece | src/components/github/ActivityFeed.tsx:92 | when the second piece is empty (`owner/`, `owner//…`) the label falls back to the whole name; with `RepoLabelOfFullName` and `RepoLabelWithoutSlash` this covers every name |
| ActivityFeed.RepoLabelWithoutSlash | src/components/github/ActivityFeed.tsx:92 | a name without `/` is its own label |
| ActivityFeed.RowOf | src/components/github/ActivityFeed.tsx:71-93 | a row has a non-empty description and links to `https://github.com/` followed by the repository's full name |
| ActivityFeed.Feed.constructor | src/components/github/ActivityFeed.tsx:13-14 | no events and loading at first |
| ActivityFeed.Feed.LoadActivity | src/components/github/ActivityFeed.tsx:16-31 | while the profile loads nothing is requested or changed; otherwise the resolved user is requested, the first five fetched events (none on failure) are kept and loading ends; never more than five events |
| ActivityFeed.Feed.Render | src/components/github/ActivityFeed.tsx:44-67 | skeleton iff either loading flag is set; "no activity" iff loaded with no events; otherwise one row per event, in order, with its icon, description, label and link |
| Hero.Head | src/components/sections/Hero.tsx:41 | the first two space-separated pieces are a prefix of the tagline, all of it when it has at most one space |
| Hero.Tail | src/components/sections/Hero.tsx:46 | empty for at most two pieces; otherwise a proper suffix of the tagline |
| Hero.FirstLine | src/components/sections/Hero.tsx:41 | the first two space-separated pieces joined by a space, or `Building Digital` when that is empty; never empty |
| Hero.SecondLine | src/components/sections/Hero.tsx:46 | the pieces from the third on joined by spaces, or `Experiences` when that is empty; never empty |
| Hero.HeadEmptyIff | src/components/sections/Hero.tsx:41 | the first two pieces join to the empty string exactly for the empty tagline |
| Hero.FirstLineIsHeadIff | src/components/sections/Hero.tsx:41 | the first line is the tagline's head exactly when the tagline is not empty |
| Hero.ShortTaglineSecondFallback | src/components/sections/Hero.tsx:46 | a tagline of at most two pieces shows `Experiences` |
| Hero.EmptyTaglineFallsBack | src/components/sections/Hero.tsx:41-46 | the empty tagline shows both fallbacks |
| Hero.LinesRoundTrip | src/components/sections/Hero.tsx:41-46 | when the second line does not fall back, line 1, a space and line 2 give back the tagline |
| Hero.Render | src/components/sections/Hero.tsx:8-14 | only the spinner while loading; otherwise the two lines and the description |
| ProjectCard.ShownTags | src/components/ui/ProjectCard.tsx:77 | at most three tags, a prefix of the list in order, min(3, n) of them; none without a list |
| ProjectCard.Badge | src/components/ui/ProjectCard.tsx:82-86 | a badge exactly when there are more than three tags, with a count of at least one |
| ProjectCard.TagsAccounted | src/components/ui/ProjectCard.tsx:77-86 | shown tags plus the badge's count equal the number of tags |
| ProjectCard.BadgeCountsHidden | src/components/ui/ProjectCard.tsx:77-86 | past three tags the list is the shown tags followed by the hidden ones, and the badge counts the hidden ones |
| ProjectCard.BadgeText | src/components/ui/ProjectCard.tsx:84 | the badge reads `+` followed by digits whose value is the count |
| ProjectCard.Card.constructor | src/components/ui/ProjectCard.tsx:13-14 | not hovered, video at 0 and paused at first; the image shows and no video is opaque |
| ProjectCard.Card.MouseEnter | src/components/ui/ProjectCard.tsx:16-22 | hovered; a present video restarts at 0 and plays when the browser allows it; without a video nothing else changes; afterwards the image has faded and the video is opaque exactly when the card has a video |
| ProjectCard.Card.MouseLeave | src/components/ui/ProjectCard.tsx:24-29 | not hovered and paused, at the same position; afterwards the image shows and the video is transparent |
| ProjectCard.Card.ImageFaded | src/components/ui/ProjectCard.tsx:44-60 | the image fades only over a rendered video, and exactly when that video is opaque, so one of the two is always visible |
| ProjectCard.Card.VideoOpaque | src/components/ui/ProjectCard.tsx:51-60 | the video is opaque only when the card has one and is hovered; never without hover |
| Records.Filter | src/pages/admin/ProjectsAdmin.tsx:68 | keeps exactly the elements that pass the test |
| Records.FilterAppend | src/pages/admin/ProjectsAdmin.tsx:68 | filtering distributes over concatenation, so order is kept |
| Records.FilterKeepsAll | src/pages/admin/ProjectsAdmin.tsx:68 | a filter that drops nothing returns the list unchanged |
| Records.FilterIdempotent | src/pages/admin/ProjectsAdmin.tsx:68 | filtering twice is filtering once |
| Records.FilterDistinct | src/pages/admin/ProjectsAdmin.tsx:80 | filtering a duplicate-free list leaves it duplicate-free |
| Records.RemoveById | src/pages/admin/ProjectsAdmin.tsx:68 | every record with the id is gone and every other record is kept |
| Records.RemoveAbsent | src/pages/admin/ProjectsAdmin.tsx:68 | deleting an id that is not there changes nothing |
| Records.RemoveAppend | src/pages/admin/ProjectsAdmin.tsx:68 | deletion keeps the others in order |
| Records.RemoveUnique | src/pages/admin/ProjectsAdmin.tsx:66-70 | with unique ids, deleting the id of the record at `k` removes exactly that record |
| Records.RemoveKeepsUnique | src/pages/admin/ProfileAdmin.tsx:56 | deletion keeps ids unique |
| Records.ReplaceById | src/pages/admin/ProjectsAdmin.tsx:56-58 | same length; each record with the id becomes the form under that id, and every other record is unchanged |
| Records.ReplaceKeepsIds | src/pages/admin/ProfileAdmin.tsx:44-46 | editing changes no id, so ids stay unique |
| Records.ReplaceAbsent | src/pages/admin/ProjectsAdmin.tsx:56-58 | editing an id that is not there changes nothing |
| Records.ReplaceIdempotent | src/pages/admin/ProjectsAdmin.tsx:56-58 | submitting the same edit twice is submitting it once |
| Records.ReplaceThenRemove | src/pages/admin/ProjectsAdmin.tsx:56-68 | deleting an id after editing it leaves the same list as deleting it outright |
| Records.MaxId | src/pages/admin/ProjectsAdmin.tsx:60 | `Math.max(...ids, 0)`: non-negative, at least every id, and 0 or one of the ids |
| Records.NextId | src/pages/admin/ProjectsAdmin.tsx:60 | the new id is at least 1, above every id, and not yet used; it is 1 or one past a used id, so exactly `max(ids, 0) + 1` |
| Records.AddRecord | src/pages/admin/ProjectsAdmin.tsx:60-61 | the list gains exactly one record at the end, carrying the form and a fresh id, and unique ids stay unique |
| Records.Without | src/pages/admin/ProjectsAdmin.tsx:80 | every occurrence of the tag is gone and every other tag is kept |
| Records.WithoutAppend | src/pages/admin/ProjectsAdmin.tsx:80 | removing a tag keeps the other tags in order |
| Records.WithoutDistinct | src/pages/admin/ProjectsAdmin.tsx:80 | removing a tag keeps the list duplicate-free |
| Records.AcceptedTag | src/pages/admin/ProjectsAdmin.tsx:73 | a tag is accepted iff its trimmed text is non-empty and not yet in the list, and then it is the trimmed text |
| Records.AcceptedTagKeepsDistinct | src/pages/admin/ProjectsAdmin.tsx:73-74 | appending an accepted tag keeps the list duplicate-free |
| Records.AcceptedTagOnce | src/pages/admin/ProjectsAdmin.tsx:73-74 | the same input is refused once its tag is in the list |
| PortfolioData.Set | src/pages/admin/ProfileAdmin.tsx:17 | the named field takes the value and no other field changes |
| PortfolioData.SetOwnValue | src/pages/admin/ProfileAdmin.tsx:17 | writing back a field's own value changes nothing |
| PortfolioData.SetTwice | src/pages/admin/ProfileAdmin.tsx:17 | a second change to a field overrides the first |
| PortfolioData.SetCommutes | src/pages/admin/ProfileAdmin.tsx:17 | changes to different fields commute |
| ProjectsAdmin.FormOf | src/pages/admin/ProjectsAdmin.tsx:23-31 | the form holds the project's fields, a present video link copied as is and a missing one shown as `''` |
| ProjectsAdmin.ProjectsEditor.constructor | src/pages/admin/ProjectsAdmin.tsx:6-18 | the stored projects, modal closed, nothing edited, an empty form and an empty tag input |
| ProjectsAdmin.ProjectsEditor.OpenModal | src/pages/admin/ProjectsAdmin.tsx:20-45 | the modal opens; with a project, the form holds its fields and it is being edited; without one, an empty form and nothing edited |
| ProjectsAdmin.ProjectsEditor.CloseModal | src/pages/admin/ProjectsAdmin.tsx:47-51 | modal closed, nothing edited, tag input cleared; the list and form are kept |
| ProjectsAdmin.ProjectsEditor.HandleSubmit | src/pages/admin/ProjectsAdmin.tsx:53-64 | while editing, the edit by id; otherwise the add with a fresh id; unique ids stay unique, and the modal closes |
| ProjectsAdmin.ProjectsEditor.HandleDelete | src/pages/admin/ProjectsAdmin.tsx:66-70 | when confirmed, delete by id; otherwise nothing changes; unique ids stay unique |
| ProjectsAdmin.ProjectsEditor.SetFormData | src/pages/admin/ProjectsAdmin.tsx:160-246 | only the project form changes |
| ProjectsAdmin.ProjectsEditor.SetTechInput | src/pages/admin/ProjectsAdmin.tsx:183 | only the tag input changes |
| ProjectsAdmin.ProjectsEditor.AddTech | src/pages/admin/ProjectsAdmin.tsx:72-77 | an accepted tag is appended and the input cleared; otherwise nothing changes; the tag list stays duplicate-free |
| ProjectsAdmin.ProjectsEditor.RemoveTech | src/pages/admin/ProjectsAdmin.tsx:79-81 | only the tag list changes, losing every occurrence of the tag; it stays duplicate-free |
| ProfileAdmin.ProfileEditor.constructor | src/pages/admin/ProfileAdmin.tsx:6-14 | the stored profile and experiences, modal closed, nothing edited, an empty form |
| ProfileAdmin.ProfileEditor.HandleProfileChange | src/pages/admin/ProfileAdmin.tsx:16-18 | only the named profile field changes, to the typed value |
| ProfileAdmin.ProfileEditor.OpenExpModal | src/pages/admin/ProfileAdmin.tsx:20-34 | the modal opens; with an entry, its four fields and editing it; without one, an empty form and nothing edited |
| ProfileAdmin.ProfileEditor.CloseExpModal | src/pages/admin/ProfileAdmin.tsx:36-39 | modal closed and nothing edited; everything else is kept |
| ProfileAdmin.ProfileEditor.SetExpForm | src/pages/admin/ProfileAdmin.tsx:216-246 | only the experience form changes |
| ProfileAdmin.ProfileEditor.HandleExpSubmit | src/pages/admin/ProfileAdmin.tsx:41-52 | while editing, the edit by id; otherwise the add with a fresh id; unique ids stay unique, and the modal closes |
| ProfileAdmin.ProfileEditor.HandleExpDelete | src/pages/admin/ProfileAdmin.tsx:54-58 | when confirmed, delete by id; otherwise nothing changes; unique ids stay unique |

## Left out

- Network I/O is not modelled: the two fetches and JSON decoding. A fetch's result enters as a value: a `FetchOutcome` for the graph, and an optional event list for the feed.
- Overlapping fetches are not modelled. Nothing cancels a fetch when the user name changes, so a stale answer can land last. This is an event-loop race, not a sequential property.
- Time zones are not modelled. `new Date(date).getDay()` reads a UTC-parsed date in local time. The model uses the Gregorian weekday of the ISO date, and an unreadable date (NaN in JavaScript) counts as weekday 0 that is never a Saturday.
- Calendar.DayOfWeek: only the `YYYY-MM-DD` form is read. Every other string is treated as NaN, including forms that JavaScript's date parser accepts, such as `2024-01-01T00:00:00Z` or `2024/01/01`. As a first day such a string gets no padding here, and it never closes a week, while the browser would give it a real weekday. The contributions service sends `YYYY-MM-DD` dates.
- `toLocaleString` of the yearly total and `formatDistanceToNow` of event times are left out. Both are locale and clock formatting.
- Persistence is not modelled: the localStorage load and save in the data store. The editors start from given lists.
- The settings dropdown of the graph is left out. It only toggles visibility through document listeners, and the chosen activity type never affects the data.
- The tech-stack admin page is left out. It calls store functions that the store does not define.
- Animations, layout, routing and every other page are left out.
- The store exposes no `loading` member. Its value in the components is a parameter here.
- The project card reads `tech_stack` and `video_url`, which the store's camelCase `Project` lacks. The card therefore takes an optional tag list and an optional video link, unconnected to the store's fields.
- The card's `play()` promise is not modelled. Whether the browser allows playback is a parameter, and a refused play leaves the video paused.
- ProjectsAdmin.ProjectsEditor.SetFormData: this one method stands for the six project-form setters, each of which replaces a single field. It takes the whole new form, so it does not state that only one field changes.
- ProfileAdmin.ProfileEditor.SetExpForm: this one method stands for the four experience-form setters, each of which replaces a single field. It takes the whole new form, so it does not state that only one field changes.
- GithubService.FormatEventMessage: its own contract states only that the description is non-empty. The texts are stated in separate lemmas. `PushCountRoundTrip` reads the push text back. `FixedMessagesIdentifyType` covers the three fixed texts. `ParametrisedMessages` covers the create, pull-request and issue texts.
- ActivityFeed.FetchedEvents: a failed request yields no events, and decoding is not modelled.
- Contributions.ContributionGraph.FetchContributions: the `setLoading(true)` before the request and the `setLoading(false)` after it are one step. So the skeleton shown while a re-fetch is in flight is not a state of the model.
- ProfileAdmin.ProfileEditor.HandleProfileChange takes the profile key itself instead of the input's `name` attribute. Every input of the profile form names one of the profile's keys.
