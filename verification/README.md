# Game launcher: game-ID derivation and selection

A Dafny model of the two pure computations at the heart of the Flash game
launcher page:

- **Game-ID derivation** (`getAvailableGameIds` in `app/game_launcher/page.tsx`).
  The page reads the `public/swf` directory. It keeps the entries whose
  lower-cased name ends in `.swf` and removes that suffix with the anchored,
  case-insensitive pattern `/\.swf$/i`. It then sorts the IDs with
  `localeCompare`. A read that throws yields the empty list.
- **Selection and navigation** (`GameLauncherClient.tsx`). From the IDs and the
  trimmed `id` query parameter, the client picks the requested ID when it is
  non-empty and listed. Otherwise it picks the first ID, or `""` when there is
  none. A player path `/swf/<id>.swf` exists exactly when the chosen ID is
  non-empty. On submit, the form navigates to `/game_launcher` for an empty
  choice and to `/game_launcher?id=<encoded choice>` otherwise.

Modules:

| file | module | models |
|---|---|---|
| `wrappers.dfy` | `Wrappers` | `Option`, standing for `null`/`undefined` and for a read that threw |
| `js_string.dfy` | `JsString` | `toLowerCase` (ASCII), `endsWith`, the `i`-flag comparison, `trim` |
| `js_array.dfy` | `JsArray` | `filter`, `map`, and `sort` with an abstract comparator |
| `game_ids.dfy` | `GameIds` | `getAvailableGameIds` |
| `launcher.dfy` | `Launcher` | the `useMemo` selection, the `id` query value, `handleSubmit` |

Inputs:

- The directory read is an argument `listing: Option<seq<string>>`. `None` is a
  `readdir` that threw.
- `localeCompare` is an argument `le`, where `le(a, b)` means
  `a.localeCompare(b) <= 0`. Properties that depend on it assume
  `JsArray.TotalPreorder(le)`.
- `encodeURIComponent` and the router's percent-decoding are the arguments
  `encode` and `decode`.
- `trim` is modelled exactly. It strips the ECMAScript WhiteSpace and
  LineTerminator code points.

`Launcher.Select` takes the ID list and the requested ID and nothing else. That
it is a pure function of those two values therefore holds by construction.

Two consequences of the code that a reader might not expect:

- Game IDs are not unique even though file names are. The code maps `a.swf`
  and `a.SWF` to the ID `a` twice (`GameIds.CaseVariantsCollide`).
- A directory entry named just `.swf` passes the filter and yields the ID `""`.
  If it sorts first, the page shows no player even though a file exists. The
  selection contracts allow for this: "non-empty list" implies "the selected ID
  is listed", not "the selected ID is non-empty".

## Model

| member | source | states |
|---|---|---|
| `JsString.ToLower` | app/game_launcher/page.tsx:12 | the lower-cased name has the same length and lower-cases each character on its own |
| `JsString.EndsWith` | app/game_launcher/page.tsx:12 | a string ends with a suffix exactly when it is some prefix followed by that suffix |
| `JsString.Trim` | app/game_launcher/GameLauncherClient.tsx:17 | the trimmed value is no longer than its input and has no whitespace at either end |
| `JsString.TrimIsWhitespaceBounded` | app/game_launcher/GameLauncherClient.tsx:17 | the trimmed value is a contiguous piece of the input, and everything before and after it is whitespace |
| `JsString.TrimRemovesPadding` | app/game_launcher/GameLauncherClient.tsx:17 | whitespace padding around an unpadded core trims to exactly that core, so the decomposition determines the result |
| `JsString.TrimEmptyIffAllWhitespace` | app/game_launcher/GameLauncherClient.tsx:17 | trimming gives the empty string if and only if the input is all whitespace |
| `JsString.TrimIdempotent` | app/game_launcher/GameLauncherClient.tsx:17 | trimming twice equals trimming once |
| `JsArray.Filter` | app/game_launcher/page.tsx:12 | each value occurs in the result as often as in the input if it passes the predicate, and not at all otherwise |
| `JsArray.Map` | app/game_launcher/page.tsx:13 | same length, and each position holds the image of the input at that position |
| `JsArray.Sort` | app/game_launcher/page.tsx:14 | the sorted array is a permutation of its input (equal multisets) |
| `JsArray.SortIsSorted` | app/game_launcher/page.tsx:14 | under a total preorder, every earlier element is `le` every later one |
| `JsArray.SortedPermutationsAgree` | app/game_launcher/page.tsx:14 | with a tie-free comparator, two sorted permutations of one collection are equal |
| `GameIds.IsSwfName` | app/game_launcher/page.tsx:12 | a name passes the lower-cased `endsWith(".swf")` filter exactly when its last four characters are a literal dot then `s`, `w`, `f`, each in either case |
| `GameIds.MatchesSwfPattern` | app/game_launcher/page.tsx:13 | `/\.swf$/i` matches a name exactly when its last four characters are a literal dot then `s`, `w`, `f`, each in either case |
| `GameIds.FilterAgreesWithPattern` | app/game_launcher/page.tsx:12-13 | the lower-case `endsWith(".swf")` filter accepts a name if and only if `/\.swf$/i` matches it |
| `GameIds.StripSwf` | app/game_launcher/page.tsx:13 | a matching name loses exactly its final four characters (ID length is name length minus 4, and ID plus those four is the name); a non-matching name is unchanged |
| `GameIds.StripRemovesOneSuffix` | app/game_launcher/page.tsx:13 | for any stem and any case variant of `.swf`, the rename of stem+suffix is the stem, even when the stem ends in `.swf` |
| `GameIds.DoubleSuffixKeepsInnerOne` | app/game_launcher/page.tsx:13 | `a.swf.swf` renames to `a.swf` |
| `GameIds.SwfVariantRenamesToStem` | app/game_launcher/page.tsx:12-13 | a stem followed by any case variant of `.swf` passes the filter and renames back to the stem |
| `GameIds.AvailableGameIds` | app/game_launcher/page.tsx:6-18 | a failed read gives the empty list; otherwise the IDs are a permutation of the renamed `.swf` entries |
| `GameIds.IdsAreRenamedSwfNames` | app/game_launcher/page.tsx:11-13 | an ID is returned if and only if some listed name passes the filter and renames to it |
| `GameIds.IdCountIsSwfNameCount` | app/game_launcher/page.tsx:11-14 | there are exactly as many IDs as `.swf` entries: none dropped, none duplicated |
| `GameIds.IdsAreSorted` | app/game_launcher/page.tsx:14 | under a total-preorder comparator the IDs are ascending |
| `GameIds.OtherEntriesIgnored` | app/game_launcher/page.tsx:12 | inserting a non-`.swf` entry anywhere in the listing leaves the IDs unchanged |
| `GameIds.ListingOrderIrrelevant` | app/game_launcher/page.tsx:9-14 | with a tie-free comparator, any reordering of the directory listing gives the same IDs |
| `GameIds.CaseVariantsCollide` | app/game_launcher/page.tsx:11-14 | for any stem `x`, the listing `x.swf`, `x.SWF` yields the ID `x` twice |
| `Launcher.RequestedId` | app/game_launcher/GameLauncherClient.tsx:17 | the requested ID is the trimmed parameter: empty when absent, unpadded, and surrounded in the raw value only by whitespace |
| `Wrappers.Option.GetOr` | app/game_launcher/GameLauncherClient.tsx:17 | the present value, or the default when there is none: the `?? ""` applied to a missing `id` parameter |
| `Launcher.FallbackId` | app/game_launcher/GameLauncherClient.tsx:20 | the fallback is the first ID, which is listed, or `""` when there are no IDs |
| `Launcher.SwfPath` | app/game_launcher/GameLauncherClient.tsx:26 | the path is `/swf/`, then the ID, then the lower-case `.swf`; that file name passes the page's filter and renames back to the ID |
| `Launcher.Select` | app/game_launcher/GameLauncherClient.tsx:19-28 | a non-empty listed request is chosen, else the first ID or `""`; the choice is `""` or listed, and always listed when the list is non-empty; a path exists if and only if the choice is non-empty, and it is `/swf/` + choice + `.swf` |
| `Launcher.SwfPathRenamesToSelection` | app/game_launcher/GameLauncherClient.tsx:26 | the player path is `/swf/` followed by a name that passes the page's filter and renames back to the chosen ID |
| `Launcher.SelectIsIdempotent` | app/game_launcher/GameLauncherClient.tsx:19-28 | requesting the chosen ID again reproduces the same selection |
| `Launcher.BlankRequestFallsBack` | app/game_launcher/GameLauncherClient.tsx:17-22 | an empty or all-whitespace parameter always gives the fallback |
| `Launcher.PaddedIdOnlyAsFallback` | app/game_launcher/GameLauncherClient.tsx:17-22 | an ID with whitespace at either end is chosen only when it is the fallback |
| `Launcher.SubmitUrl` | app/game_launcher/GameLauncherClient.tsx:84-89 | an empty choice navigates to `/game_launcher`, any other to `/game_launcher?id=` + encode(choice) |
| `Launcher.IdParam` | app/game_launcher/GameLauncherClient.tsx:16-17 | a parameter is read back only from a URL that carries the `?id=` prefix |
| `Launcher.SubmitRoundTrip` | app/game_launcher/GameLauncherClient.tsx:84-89 | when decoding undoes encoding, the submitted URL reads back as no parameter for an empty choice and as the choice itself otherwise |
| `Launcher.ResubmitKeepsSelection` | app/game_launcher/GameLauncherClient.tsx:84-89 | submitting the shown unpadded ID and loading the resulting URL reproduces the same selection |
| `Launcher.RequestedUnpaddedId` | app/game_launcher/GameLauncherClient.tsx:17 | an ID without surrounding whitespace, read back from the URL (absent when empty), is requested unchanged |
| `Launcher.UpperCaseSuffixGetsUnlistedPath` | app/game_launcher/GameLauncherClient.tsx:26 | for a listing holding only `x.SWF` (non-empty `x`, such as `B.SWF`), the player path is `/swf/x.swf`, which names no listed file |
| `Launcher.ListedFileName` | app/game_launcher/GameLauncherClient.tsx:26 | the result is the first listed `.swf` name that renames to the ID (no earlier entry does); no result means no such name exists |
| `Launcher.SelectListed` | app/game_launcher/GameLauncherClient.tsx:19-28 | same chosen ID as the page; any path is `/swf/` + a listed `.swf` name that renames to the choice |
| `Launcher.ListedPathNamesListedFile` | app/game_launcher/GameLauncherClient.tsx:26 | with the page's own IDs, the corrected selection has a path if and only if the choice is non-empty, and that path names a listed file |
| `Launcher.ListedAgreesOnLowerCaseSuffix` | app/game_launcher/GameLauncherClient.tsx:26 | when every `.swf` entry has a lower-case suffix, the corrected selection equals the page's |

## Findings

| source | as written | input that shows it | evidently intended | confidence | as-written member | corrected member |
|---|---|---|---|---|---|---|
| app/game_launcher/GameLauncherClient.tsx:26 | the player path is `/swf/` + ID + a lower-case `.swf`, whatever the file's suffix case | a directory holding only `B.SWF` gives ID `B` and path `/swf/B.swf`, a name that is not in the directory | the path names the file that produced the ID, `/swf/B.SWF` | medium, not executed; the request fails only where the static file server is case-sensitive | `Launcher.UpperCaseSuffixGetsUnlistedPath` | `Launcher.SelectListed` |

`Launcher.SelectListed` builds the path from the listed file name.
`Launcher.ListedPathNamesListedFile` proves that this path, as a string, always
names a listed file. `Launcher.ListedAgreesOnLowerCaseSuffix` proves that the corrected
selection equals the page's own whenever every suffix is lower-case.

## Left out

- `app/game_launcher/RufflePlayer.tsx`: DOM creation and removal, a 50 ms polling timer, async calls into the player runtime, and float sizing. None of it is sequential pure logic.
- The script-loading effect (`GameLauncherClient.tsx`, lines 36-79): global mutable window flag, script injection and async load events.
- React state, effects, router calls and JSX (`GameLauncherClient.tsx` lines 30-34 and 92-134, `page.tsx` lines 20-28): UI plumbing. `inputGameId` is modelled only as the argument of `Launcher.SubmitUrl`.
- `app/ruffle/[asset]/route.ts` is not part of this model. It serves the player runtime files, outside the game-selection core.
- Real file-system I/O: `readdir` is replaced by the `listing` argument, and every way it can throw collapses to `None`.
- `JsString.ToLower`: case mapping covers ASCII only. JavaScript's `toLowerCase` applies full Unicode mapping. Only characters that lower-case to `.`, `s`, `w` or `f` affect the filter, and those are ASCII.
- `JsArray.Sort`: `localeCompare` is abstract. Among IDs the comparator ties, the model keeps the input order, as a stable sort does. No contract pins that order down, and `JsArray.SortedPermutationsAgree` and `GameIds.ListingOrderIrrelevant` assume a tie-free comparator.
- `Launcher.SubmitUrl`: `encodeURIComponent` is an abstract argument, so the URL text after `?id=` is not characterised.
- `Launcher.IdParam`: reads only the two URL shapes the form produces. It is not a general URL or query-string parser. Percent-decoding is the abstract `decode`, and the round trip assumes it undoes `encode`.
- `Launcher.SwfPath` and `Launcher.SelectListed`: the ID or file name is put into the player path without percent-encoding, both here and in the source. How a browser resolves such a path (for example one containing `#` or `%`) is not modelled. The contracts speak of the path as a string.
- `JsString.Trim`: JavaScript strings are UTF-16 code units, and a lone surrogate cannot be represented as a Dafny `char`.
