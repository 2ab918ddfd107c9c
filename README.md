# Color searcher: the result list, its name filter and its shuffle

This project models the logic of the `App` component of the color searcher
(`src/App.tsx`). The component keeps a list of color swatches, `colors`. It
fills that list in one of two ways. In name mode, the list is the catalog of
named colors filtered by a case-insensitive substring query. In relevance
mode, it is the nearest-color library's answer for a picked color. A
"Shuffle List" button reorders the list with a Fisher–Yates shuffle.

Modules, one file each:

- `Colors` (`colors.dfy`): the `ColorModel` record `{name, hex}`, and the
  library's match record, which is renamed into a `ColorModel`.
- `TextMatch` (`text_match.dfy`): `toLowerCase` for ASCII letters, and
  `includes` as "some slice of the string is the query".
- `NameSearch` (`name_search.dfy`): the filter `FilterByName`. It is proved
  sound, complete, order-preserving and exact count for count. It is also
  proved to be the only list with those properties.
- `FisherYates` (`fisher_yates.dfy`): the shuffle as a method over a fresh
  array copy. It is proved against the list function `Shuffled`. `Math.random`
  becomes a sequence of draws, `picks`. Entry `k` is the index drawn on the
  k-th turn of the loop and must be below `currentIndex` at that turn. On a
  list without repeats, draws and results are in one-to-one correspondence:
  every rearrangement comes from exactly one run of draws.
- `App` (`app.dfy`): the class `AppState`. It holds the component's state
  variables as fields. Each handler sets its field and then runs the effects
  that depend on it, as explicit method calls.

Behaviour of `src/App.tsx` that the model keeps as written:

- A name query shorter than three characters leaves `colors` as it was
  (src/App.tsx:115). It does not empty the list. So switching back to name
  mode with a short query keeps the relevance results on screen.
- The relevance search shows the library's answer as it comes, without any
  validation of its own (src/App.tsx:62-71).
- The component has no favourites: `colors` is the only list it keeps.

## Model

| member | source | states |
|---|---|---|
| `Colors.FromMatches` | src/App.tsx:66-70 | the list shown after a relevance search has one swatch per library match, in the library's order, with `name` kept and `value` as `hex` |
| `TextMatch.LowerChar` | src/App.tsx:116 | the ASCII part of `toLowerCase`'s per-character rule: an ASCII upper-case letter becomes its lower-case letter (code point + 32), every other character is kept as it is (non-ASCII capitals included), and no upper-case ASCII letter comes out |
| `TextMatch.ToLower` | src/App.tsx:116 | lower-casing keeps the length, maps each character by the ASCII rule, and leaves no upper-case ASCII letter |
| `TextMatch.ToLowerIdempotent` | src/App.tsx:116 | lower-casing an already lower-cased string changes nothing |
| `TextMatch.ToLowerUnique` | src/App.tsx:116 | a string of the same length that lower-cases each character is the lower-cased string |
| `TextMatch.ToLowerSlice` | src/App.tsx:116 | lower-casing a slice is the slice of the lower-cased string |
| `TextMatch.IncludesSelf` | src/App.tsx:116 | every string `includes` itself (`Includes`: some slice of the string equals the query) |
| `TextMatch.IncludesLowered` | src/App.tsx:116 | for `Includes`, the model of `String.prototype.includes` (some slice equals the query): a query that occurs verbatim in a name still occurs once both are lower-cased |
| `NameSearch.FilterByName` | src/App.tsx:116 | with `NameMatches` the `filter` callback (lower-cased name `Includes` lower-cased query): every returned entry is a catalog entry whose lower-cased name includes the lower-cased query; every such catalog entry is returned; the result keeps catalog order (a subsequence) |
| `NameSearch.SubsequenceCounts` | src/App.tsx:116 | a subsequence never holds an entry more often than its source |
| `NameSearch.FilterCounts` | src/App.tsx:116 | count for count, the filter holds each matching catalog entry as often as the catalog does, and no non-matching one |
| `NameSearch.FilterUnique` | src/App.tsx:116 | any order-preserving, sound list that keeps every match as often as the catalog does is exactly the filter result |
| `NameSearch.LoweredQueryMatchesAlike` | src/App.tsx:116 | lower-casing the query beforehand does not change the result: the search ignores the query's case |
| `NameSearch.OwnNameFound` | src/App.tsx:116 | searching for an entry's own full name finds that entry |
| `NameSearch.ExactHitFound` | src/App.tsx:116 | a catalog entry whose name contains the query with the same letter case is always found |
| `NameSearch.RedExample` | src/App.tsx:116 | searching [Red, Crimson, Dark Red] for "red" gives [Red, Dark Red] |
| `NameSearch.FilterOfThree` | src/App.tsx:116 | of three catalog entries where the first and last match and the middle does not, the filter keeps the first and last, in that order |
| `NameSearch.ExampleMatches` | src/App.tsx:116 | "Red" and "Dark Red" match "red"; "Crimson" does not |
| `FisherYates.ValidPicksTail` | src/App.tsx:92-93 | for `ValidPicks`, the range of `Math.floor(Math.random() * currentIndex)` at each turn (draw k below n - k): after one draw, the remaining draws are valid for a list one shorter (`currentIndex` decremented) |
| `FisherYates.Swap` | src/App.tsx:96-97 | the destructuring swap keeps the length and the entries (multiset), exchanges the two slots and touches no other slot |
| `FisherYates.Steps` | src/App.tsx:89-98 | the remaining loop turns keep length and entries and never change the slots at or above `currentIndex` |
| `FisherYates.Shuffled` | src/App.tsx:84-101 | the shuffled list has the input's length and the same entries, count for count |
| `FisherYates.Shuffle` | src/App.tsx:84-101 | given draws in the range `ValidPicks` states, the loop on the fresh copy, with every index in bounds and `currentIndex` falling to 0, returns `Shuffled(input, picks)`: same length, same multiset, and the caller's list is only read |
| `FisherYates.StepsTop` | src/App.tsx:92-97 | the first turn puts the drawn entry at `currentIndex - 1` for good |
| `FisherYates.StepsUnfold` | src/App.tsx:89-98 | one loop turn is a swap of slot `currentIndex - 1` with the drawn slot, followed by the remaining turns on the draws that are left |
| `FisherYates.SameFirstDraw` | src/App.tsx:92-97 | on a list without repeats, two runs with the same outcome drew the same first slot and agree on the rest |
| `FisherYates.SwapDistinct` | src/App.tsx:96-97 | a swap keeps a list free of repeats |
| `FisherYates.StepsInjective` | src/App.tsx:89-98 | on a list without repeats, different runs of draws give different results |
| `FisherYates.IndexOf` | src/App.tsx:92 | helper of `ShuffleReachesEveryPermutation`: returns a slot holding the wanted entry, used as the draw that brings it to `currentIndex - 1` |
| `FisherYates.SwapTowards` | src/App.tsx:92-97 | drawing the slot that holds the entry wanted at `currentIndex - 1` settles that slot and keeps the remaining entries |
| `FisherYates.SwapPrefix` | src/App.tsx:96-97 | a swap below `n` keeps the entries of the first `n` slots |
| `FisherYates.MultisetDropLast` | src/App.tsx:96-97 | helper of `ShuffleReachesEveryPermutation`, a generic multiset fact: lists with equal entries and equal last entries have equal entries before it |
| `FisherYates.NeededEntryAvailable` | src/App.tsx:92 | helper of `ShuffleReachesEveryPermutation`: the entry wanted at `currentIndex - 1` is among the slots still to shuffle |
| `FisherYates.ValidPicksCons` | src/App.tsx:92-93 | helper of `ShuffleReachesEveryPermutation`: a draw below `n` followed by valid draws for `n - 1` is a valid run for `n` |
| `FisherYates.PicksFor` | src/App.tsx:89-98 | builds valid draws that make the remaining turns produce a given rearrangement |
| `FisherYates.ShuffleReachesEveryPermutation` | src/App.tsx:84-101 | every rearrangement of the list is the result of some valid run of draws |
| `App.DropFirst` | src/App.tsx:108 | `substring(1)` drops the first character, or gives "" for an empty string |
| `App.ShuffledSearchStillMatches` | src/App.tsx:103 | after shuffling a name-search result, the list holds exactly the catalog entries that match the query |
| `App.AppState.constructor` | src/App.tsx:56-60 | the initial state: no swatches, name mode, picker at "#fff", both text fields empty |
| `App.AppState.SearchColorRelevance` | src/App.tsx:62-71 | the library's matches, renamed, replace the shown list |
| `App.AppState.RelevanceEffect` | src/App.tsx:106-111 | in relevance mode, the hex field gets the picked color without '#' and the list gets the matches; in name mode nothing changes |
| `App.AppState.NameEffect` | src/App.tsx:113-118 | in name mode with a query of three or more characters, the list becomes exactly the filter result; otherwise it is unchanged |
| `App.AppState.OnClickShuffle` | src/App.tsx:83-104 | the list becomes its shuffle: same length and entries, and a screen of name matches stays one |
| `App.AppState.OnChangeSearchColorName` | src/App.tsx:162 | typing sets the name field; the name effect re-runs only for a new value |
| `App.AppState.OnToggleSearchType` | src/App.tsx:129-131 | the mode flips and only the effect for the new mode changes the list |
| `App.AppState.OnChangePickerColor` | src/App.tsx:171-173 | picking sets the color; a new color in relevance mode replaces the list with the matches |

## Left out

- The nearest-color library (`nearestFrom`, src/App.tsx:63-64) is foreign and works in floating point. Its answer, at most 100 matches, is a parameter `matches`. The ranking and the cap are not modelled.
- The hex text field handler (src/App.tsx:73-81) depends on `tinycolor` validation and `toHex`. Both are foreign, so the handler is not modelled. `tinycolor(...).isLight()` in the card (src/App.tsx:23) is left out for the same reason.
- Clipboard writes and toast notifications (src/App.tsx:26-41) are browser I/O.
- Rendering, JSX and the dependency tracking of `useEffect` are left out. The effects appear as methods that the handlers call explicitly.
- `Math.random` is a parameter, the sequence `picks`. The model proves that draws and results correspond one to one on lists without repeats. It does not state the probability that uniform draws give uniform results.
- `TextMatch.LowerChar`, `TextMatch.ToLower`: lower-case the ASCII letters only, not the full Unicode mapping of `toLowerCase`. A non-ASCII capital such as 'É' is kept, so a catalog name "Écru" does not match the query "écru" in the model, although it does in the application.
- Lengths are counted in characters. JavaScript counts UTF-16 code units, which differ for characters outside the Basic Multilingual Plane, so the three-character threshold can differ for such characters.
- The deep copy `JSON.parse(JSON.stringify(...))` is the copy of a value list into a fresh array. Records are immutable values here, so aliasing between the copy and the original cannot arise.
