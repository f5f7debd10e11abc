# Draft viewer core, modelled in Dafny

The cricket draft viewer is a small Next.js front end. It polls a draft
store that holds the player catalog and the draft state. The state holds the
teams and the picks made so far. Each pick has a number, a team id and a
player reference. The viewer derives three things from that data, and this
project models each of them as pure functions and proves properties about
them:

- **Home page counts** (`app/page.tsx`). These are the number of catalog
  players, the number still available, and the number of teams. A pick claims
  a player in one of two ways. Its raw reference can equal the player's id.
  Or its trimmed, lower-cased reference can equal the player's trimmed,
  lower-cased display name. Module `HomeCounts`.
- **Team rosters** (`app/draft/teams/page.tsx`). Each team id maps to the
  players it drafted. The picks are sorted by pick number, and each pick is
  resolved by trimmed id first, then by normalised display name. A pick is
  appended only when its player resolves and its team exists. Modules
  `PickOrder` (the stable sort) and `TeamRosters`.
- **Drive image links** (`toDriveView`, in the teams and players pages). This
  rewrites a Google Drive sharing link into a direct view link. It finds the
  leftmost `id=` or `file/d/` followed by a run of `[\w-]` characters.
  Module `DriveLink`.

Supporting modules:

- `Maybe` holds `Option` and `Result`.
- `JsText` holds `String.prototype.trim` with the exact ECMAScript whitespace
  set, ASCII `toLowerCase`, and the trim-then-lower-case key `Normalize`.
- `Seqs` holds `Array.prototype.filter`.
- `Draft` holds the entities: `Player`, `Team`, `Pick` and `DraftState`.
- `CrossPage` relates the two pages.

`undefined` and `null` are written as `Option.None`. The teams page calls
`state.teams.forEach` without a guard. When the team list is missing, that
call throws, and the model returns `Failure(TeamsMissing)` instead.

The two pages can disagree when a pick's reference is a player id padded
with spaces. The teams page trims the reference before looking up ids, so
the player goes on a roster. The home page compares the raw reference with
ids and trims only on the name side. So, as long as no pick claims the
player on the home page's terms (for instance through a display name that
normalises to the id), it still counts the player as available
(`CrossPage.PaddedReferenceCountedTwice`).
`CrossPage.PaddedReferenceExample` gives a concrete draft of this kind.
`CrossPage.RosteredPlayersAreUnavailable` shows one direction of agreement:
when references are already trimmed, no rostered player is counted
available. The converse does not hold. In
`CrossPage.TrimmedReferenceConverseFails` the trimmed reference "p1" is one
player's id and another player's display name. The home page counts both
players as picked, while the teams page rosters only the one with that id.
A pick that names an unknown team likewise removes a player from the
available count without putting them on any roster.

app/page.tsx:36 compares the raw, untrimmed reference with player ids; the
model follows the code.

## Model

| member | source | states |
|---|---|---|
| Draft.PickList | app/draft/teams/page.tsx:58 | A missing pick list reads as the empty list; a present one is used as it is. |
| Seqs.Filter | app/page.tsx:40-44 | The result keeps exactly the elements that satisfy the callback, and is never longer than the input. |
| Seqs.FilterMultiset | app/page.tsx:40-44 | Each kept value occurs in the result exactly as often as in the input; a rejected value does not occur. |
| Seqs.FilterInOrder | app/page.tsx:40-44 | The result is the input with some elements left out: its elements sit at strictly increasing input positions. |
| HomeCounts.PickedIds | app/page.tsx:36 | The set holds exactly the raw references of the picks. A missing pick list gives the empty set. |
| HomeCounts.PickedNames | app/page.tsx:37-39 | The set holds exactly the trimmed, lower-cased references of the picks. |
| HomeCounts.Available | app/page.tsx:40-44 | A player is kept exactly when it is in the catalog, no pick's raw reference equals its id, and no pick's normalised reference equals its normalised display name. Each kept player appears as often as in the catalog and an unclaimed one not at all, so the length (the displayed count) is fixed. The kept players keep their catalog order. |
| HomeCounts.ComputeCounts | app/page.tsx:34-46 | Before the first state arrives, all three counts are zero. Otherwise the total is the catalog size. The available count is the size of `Available`, which is at most the total. The team count is the team list's length, or 0 when the list is missing. |
| HomeCounts.NoPicksAllAvailable | app/page.tsx:36-44 | With no picks, or no pick list, every catalog player is available, in catalog order. |
| HomeCounts.MorePicksFewerAvailable | app/page.tsx:40-44 | When every pick of one list also appears in another, the other list leaves at most as many players available. |
| HomeCounts.AddPickNeverIncreases | app/page.tsx:40-45 | Recording one more pick never raises the available count. |
| HomeCounts.OnlyReferencesMatter | app/page.tsx:36-39 | Two pick lists with the same set of references leave the same players available, whatever their order, repetitions, teams or numbers. |
| JsText.Trim | app/draft/teams/page.tsx:61 | The result is never longer than the input, and its first and last characters are not trimmable. |
| JsText.TrimMeaning | app/draft/teams/page.tsx:61 | The result is a contiguous slice of the input. Everything cut off at either end is trimmable. The result is empty exactly when every character is trimmable. |
| JsText.TrimIdempotent | app/draft/teams/page.tsx:61 | Trimming a trimmed string changes nothing. |
| JsText.ToLower | app/draft/teams/page.tsx:55 | The result has the input's length and each character is lower-cased if it is an ASCII capital, left as it is otherwise. |
| JsText.Normalize | app/draft/teams/page.tsx:55 | The key is no longer than its input and has no upper-case ASCII letter. |
| JsText.NormalizeIdempotent | app/page.tsx:38-43 | Normalising a normalised key changes nothing, so the two sides of the name comparison use one fixed key. |
| PickOrder.SortByPickNo | app/draft/teams/page.tsx:58-59 | The result is in ascending pick-number order and is a permutation of the input. |
| PickOrder.FilterSortCommute | app/draft/teams/page.tsx:58-59 | Selecting a subset of the picks and then sorting gives the same list as sorting and then selecting. |
| PickOrder.SortStable | app/draft/teams/page.tsx:59 | Picks with equal numbers keep their input order, as the stable `Array.prototype.sort` promises. |
| TeamRosters.IndexBy | app/draft/teams/page.tsx:53-56 | Every catalog key is in the index. Each entry carries its own key. The last player with a given key is the one stored (`Object.fromEntries` keeps the last write). |
| TeamRosters.IndexByValues | app/draft/teams/page.tsx:53-56 | Every entry of the index is a catalog player. |
| TeamRosters.Resolve | app/draft/teams/page.tsx:53-62 | A resolved player is in the catalog. |
| TeamRosters.ResolveMeaning | app/draft/teams/page.tsx:61-62 | If any player's id equals the trimmed reference, a player with that id is found. Otherwise a player is found exactly when some display name normalises to the normalised reference, and the player found is one of those. |
| TeamRosters.ResolveLastById | app/draft/teams/page.tsx:53-62 | When several players share the trimmed reference as id, the last of them in the catalog is found. |
| TeamRosters.ResolveLastByName | app/draft/teams/page.tsx:54-62 | When no id matches, the last catalog player whose normalised name matches is found. |
| TeamRosters.Seed | app/draft/teams/page.tsx:50-51 | The map has exactly the team ids as keys, each with an empty list. |
| TeamRosters.Place | app/draft/teams/page.tsx:58-64 | The fold never adds or removes a key: only a team that already has a list receives a push. |
| TeamRosters.PlaceAppends | app/draft/teams/page.tsx:58-64 | Running the picks through the fold appends to each team's list exactly the resolved players of that team's picks, in the order visited. |
| TeamRosters.PushStep | app/draft/teams/page.tsx:62-63 | One step of the fold is the page's `push`, guarded by `pl && map[pick.teamId]`. |
| TeamRosters.PlaceEach | app/draft/teams/page.tsx:58-64 | The pick-by-pick loop builds the same rosters as the fold. |
| TeamRosters.ComputeRosters | app/draft/teams/page.tsx:48-67 | Before the first state arrives, the rosters are empty. A missing team list is an error. Otherwise the rosters have exactly one key per team id, and every listed player is in the catalog. |
| TeamRosters.RosterOfTeam | app/draft/teams/page.tsx:58-64 | A team's roster is the resolution of that team's picks, sorted by number. That sorted list is a permutation of the team's picks, and equal numbers keep input order. |
| TeamRosters.TeamWithoutResolvedPicks | app/draft/teams/page.tsx:62-63 | A team none of whose picks resolves has an empty roster. |
| TeamRosters.NonContributingPicksIgnored | app/draft/teams/page.tsx:63 | Removing every pick that names an unknown team or an unresolvable player leaves the rosters unchanged. |
| TeamRosters.RosterTotal | app/draft/teams/page.tsx:58-64 | The rosters hold exactly one entry per pick that names a known team and resolves, so never more entries than picks. |
| CrossPage.ResolvedMeansClaimed | app/draft/teams/page.tsx:61-62 | A resolved player's id equals the trimmed reference, or its normalised name equals the normalised reference. |
| CrossPage.RosteredPlayersAreUnavailable | app/page.tsx:36-44 | When every pick reference is already trimmed, a player on any roster of the teams page is not available on the home page. |
| CrossPage.PaddedReferenceCountedTwice | app/page.tsx:36-44 | For any draft and catalog: if a pick of a team has a trimmed reference equal to the id of the last catalog player with that id, and no pick claims that player on the home page's terms, then the player is on the team's roster and still counted available. |
| CrossPage.PaddedReferenceExample | app/page.tsx:36-43 | The reference " p1 " for player "p1" named "Alice" puts the player on team "t1" and leaves them available on the home page. |
| CrossPage.TrimmedReferenceConverseFails | app/page.tsx:37-43 | With the already trimmed reference "p1" as the only pick, the player whose display name is "p1" is not counted available, yet is not on the roster of "t1", the only team: that roster lists only the player with id "p1" (app/draft/teams/page.tsx:61-63). |
| DriveLink.RunEnd | app/draft/teams/page.tsx:29 | The `[\w-]+` run is greedy: every character in it is a word character, and the one after it is not. |
| DriveLink.FirstMatch | app/draft/teams/page.tsx:29 | The position found is a match with no match before it. No position means no match anywhere. |
| DriveLink.ToDriveView | app/draft/teams/page.tsx:27-31 | A missing or empty link gives the empty string. A link with no match is returned unchanged. Otherwise the result is the view prefix followed by the capture at the leftmost match. |
| DriveLink.CaptureMeansGroupMatch | app/draft/teams/page.tsx:29 | The scan captures `g` at a position exactly when the regular expression, read declaratively, matches there with group `g`. |
| DriveLink.RewriteAfterHead | app/draft/teams/page.tsx:29-30 | A link made of a match-free head, a marker, a word run and a tail that does not continue the run becomes the view link for that run. |
| DriveLink.ToDriveViewIdempotent | app/draft/teams/page.tsx:30 | Rewriting an already rewritten link returns it unchanged. |
| DriveLink.OpenLinkExample | app/draft/players/page.tsx:15-18 | The sharing link `https://drive.google.com/open?id=FILE_ID` becomes `https://drive.google.com/uc?export=view&id=FILE_ID`. |
| DriveLink.FilePathExample | app/draft/players/page.tsx:17-18 | `.../file/d/1AbC-x_9/view` becomes the view link for `1AbC-x_9`, with the run stopping at `/`. |
| DriveLink.BareMarkerSkipped | app/draft/teams/page.tsx:29 | An `id=` with no word character after it is not a match, and the later `file/d/xyz` is used. |
| DriveLink.PlainLinkUnchanged | app/draft/teams/page.tsx:30 | A link with neither marker comes back unchanged. |

## Left out

- Data loading (`fetch` of the store or of the public players file), the polling intervals, React state and hooks, and all rendering. The model takes the catalog and the state as parameters.
- The store and its HTTP route (`lib/store.ts`, `app/api/store/route.ts`). The store is only a source of the data modelled here.
- `toLowerCase` is modelled for ASCII letters only. Non-ASCII case mappings are not modelled.
- Strings are modelled as sequences of Unicode scalar values, while JavaScript strings are sequences of UTF-16 code units. Lone surrogates, which `JSON.parse` can produce from `"\ud800"`, cannot be represented. On well-formed strings no modelled value changes: every trimmable character, both markers and every `[\w-]` character is a single non-surrogate code unit.
- `String(pick.playerId)`: references are modelled as strings. Coercing numbers or other values to a string is not modelled.
- Pick numbers are modelled as mathematical integers. `NaN`, fractional or missing `pickNo` values, and what the comparator does with them, are not modelled.
- JavaScript objects used as maps inherit prototype keys such as `constructor`. A reference or team id equal to such a key is not modelled; ids are treated as plain map keys.
- Player fields other than `id` and `displayName` (photo, ratings, clubs) are left out. So are the draft state's id, status, round, on-clock team and pick timestamps. None of them affect the modelled values.
- `toDriveView` appears twice, at app/draft/teams/page.tsx:27-31 and app/draft/players/page.tsx:14-19. The two copies are identical apart from a comment, so one definition models both.
- TeamRosters.Resolve rebuilds the id and name indexes on every call; the page builds them once per memo run. The values are the same.
- TeamRosters.ComputeRosters: the page throws a `TypeError` on a missing team list; the model returns `Failure(TeamsMissing)` instead of modelling the exception.
