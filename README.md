# Apartments filter — a Dafny model

This project models `useApartmentsFilter`, the composable that filters a list
of apartment listings on the client. Its inputs are two optional numeric
ranges (area and room count) and a free-text address query. Changes to the
address are debounced, and the composable reports ranges whose `from`
exceeds their `to`. It also derives the filtered list, the number of matches
and the min/max of area and rooms over the whole list.

The model has four modules:

- `JsString` (`js_string.dfy`) models the three JavaScript string built-ins
  the composable calls: `trim` (with the full ECMAScript white-space set),
  `toLowerCase` and `includes`.
- `ApartmentsFilter` (`apartments_filter.dfy`) holds the pure derived values
  as functions of the apartment list, the filter record and the debounced
  query. These are the `errors` record, the normalised range windows, the
  filter predicate with `filteredApartments`, and `areaBounds`/`roomsBounds`.
  The lemmas about them are in the same module.
- `FilterManager` (`filter_manager.dfy`) holds the mutable state the
  composable closes over, as the class `Manager`. Its fields are the
  `filters` ref, the `debouncedAddress` ref and the pending debounce timer.
  The timer is represented by the address value its callback captured.
  `updateFilters`, `resetFilters`, the address watcher and the timer
  callback are methods. The invariant `Valid()` says that a pending timer
  always carries the current address.
- `FilterExamples` (`filter_examples.dfy`) holds worked scenarios on
  concrete inputs, and client methods that drive a `Manager`.

JavaScript numbers are modelled as `real`, because the code only compares
them. `Math.min(...xs)` and `Math.max(...xs)` are modelled with their
infinite results on an empty list (`PosInfinity`, `NegInfinity`). They are
not excluded by a precondition.

A reversed range (`from > to`) is flagged in `errors`. For filtering it is
still normalised to `[min, max]`. A consequence, proved as
`ClearingReversedBoundMayNarrow`: clearing one bound of a reversed range can
drop apartments. In the other direction, proved as `RaisingFromPastToMayWiden`:
raising `from` past `to` swaps the window and can admit apartments the
consistent range excluded. So "widening never shrinks the result" holds only
from a range that is not reversed, "narrowing never grows it" only into one,
and `Widens` asks for exactly that.

## Model

| member | source | states |
|---|---|---|
| `JsString.IsWhiteSpace` | src/composables/useApartmentsFilter.ts:41 | no white-space character is an upper-case letter, so lower-casing cannot create or remove white space |
| `JsString.AsciiWhiteSpace` | src/composables/useApartmentsFilter.ts:41 | within ASCII, `trim` strips exactly space, tab, LF, CR, vertical tab and form feed |
| `JsString.TrimStart` | src/composables/useApartmentsFilter.ts:41 | the result is a suffix of the input, every dropped character is white space, and the result does not start with white space |
| `JsString.TrimEnd` | src/composables/useApartmentsFilter.ts:41 | the result is a prefix of the input, every dropped character is white space, and the result does not end with white space |
| `JsString.Trim` | src/composables/useApartmentsFilter.ts:41 | `trim` yields a contiguous slice of the input with only white space around it, and neither end of the slice is white space |
| `JsString.TrimNoWhiteSpaceEnds` | src/composables/useApartmentsFilter.ts:41 | a non-empty string that neither starts nor ends with white space is its own trim |
| `JsString.LowerChar` | src/composables/useApartmentsFilter.ts:41 | the mapped character is never upper case, non-capitals are unchanged, and white space stays white space |
| `JsString.ToLower` | src/composables/useApartmentsFilter.ts:113 | `toLowerCase` keeps the length, maps each character, and leaves no upper-case letter |
| `JsString.ToLowerIdempotent` | src/composables/useApartmentsFilter.ts:113 | lower-casing twice is lower-casing once |
| `JsString.TrimStartToLower` | src/composables/useApartmentsFilter.ts:41 | stripping leading white space commutes with lower-casing |
| `JsString.TrimEndToLower` | src/composables/useApartmentsFilter.ts:41 | stripping trailing white space commutes with lower-casing |
| `JsString.TrimToLower` | src/composables/useApartmentsFilter.ts:41 | `trim` then `toLowerCase` equals `toLowerCase` then `trim` |
| `JsString.TrimIdempotent` | src/composables/useApartmentsFilter.ts:41 | trimming twice is trimming once |
| `JsString.AllWhiteSpaceTrimsToEmpty` | src/composables/useApartmentsFilter.ts:41 | a string of white space only trims to the empty string |
| `JsString.Includes` | src/composables/useApartmentsFilter.ts:113 | every string includes the empty needle, and a needle longer than the string is never included |
| `JsString.IncludesIffOccurs` | src/composables/useApartmentsFilter.ts:113 | `includes` holds exactly when the needle occurs at some index of the string |
| `ApartmentsFilter.EmptyFiltersUnconstrained` | src/composables/useApartmentsFilter.ts:19-25 | `FILTERS` leaves both windows open on both sides, flags neither range, and has the empty address |
| `ApartmentsFilter.Reversed` | src/composables/useApartmentsFilter.ts:77-83 | a range is flagged iff both bounds are set and `from > to`; a flagged range normalises to its swapped bounds, and an unflagged two-sided range to its bounds as given |
| `ApartmentsFilter.ComputeErrors` | src/composables/useApartmentsFilter.ts:69-88 | `areaRange` is present iff the area range is reversed (both bounds set and `areaFrom > areaTo`); `roomsRange` likewise for rooms, independently; every present key holds the fixed message |
| `ApartmentsFilter.NormalizedWindow` | src/composables/useApartmentsFilter.ts:98-101 | with both bounds the window is the two bounds in ascending order; otherwise each absent bound is an open side |
| `ApartmentsFilter.InWindow` | src/composables/useApartmentsFilter.ts:104-110 | a window open on both sides accepts every value, and a window that accepts some value has `lo <= hi` |
| `ApartmentsFilter.NormalizedWindowMeaning` | src/composables/useApartmentsFilter.ts:98-110 | membership of the normalised window agrees with the reference reading `InRange`: between the two bounds in either order when both are set, otherwise within each bound that is present |
| `ApartmentsFilter.NormalizedWindowSymmetric` | src/composables/useApartmentsFilter.ts:98-101 | swapping `from` and `to` gives the same window |
| `ApartmentsFilter.NormalizeQuery` | src/composables/useApartmentsFilter.ts:41 | the debounced query has no upper-case letter and neither starts nor ends with white space |
| `ApartmentsFilter.NormalizeQueryFixed` | src/composables/useApartmentsFilter.ts:41 | a query that is already trimmed and lower-case is left unchanged, so the normalised queries are exactly the trimmed lower-case strings |
| `ApartmentsFilter.AddressMatches` | src/composables/useApartmentsFilter.ts:112-113 | the empty query matches every address, and a match needs a query no longer than the address |
| `ApartmentsFilter.Passes` | src/composables/useApartmentsFilter.ts:103-116 | an apartment passes iff its area and its room count each lie in their range read by `InRange`, and the address test holds |
| `ApartmentsFilter.Filter` | src/composables/useApartmentsFilter.ts:103-116 | the result is no longer than the input, and every apartment in it is in the input and passes the predicate |
| `ApartmentsFilter.SubsequenceLength` | src/composables/useApartmentsFilter.ts:103 | a subsequence is no longer than the sequence it comes from |
| `ApartmentsFilter.SubsequenceDropHead` | src/composables/useApartmentsFilter.ts:103 | dropping the first element of a subsequence leaves a subsequence |
| `ApartmentsFilter.FilterIsSubsequence` | src/composables/useApartmentsFilter.ts:103-116 | `filteredApartments` is an order-preserving subsequence of `apartments` |
| `ApartmentsFilter.FilterMembership` | src/composables/useApartmentsFilter.ts:103-116 | an apartment is in the result iff it is in the input, in the area window, in the rooms window and passes the address test |
| `ApartmentsFilter.FilterMultiplicity` | src/composables/useApartmentsFilter.ts:103-116 | a passing apartment keeps every copy it has in the input, and a failing one keeps none |
| `ApartmentsFilter.FilterCongruent` | src/composables/useApartmentsFilter.ts:103-116 | two filter records that accept the same apartments give the same result |
| `ApartmentsFilter.EmptyQueryIgnoresAddress` | src/composables/useApartmentsFilter.ts:112-113 | with an empty debounced query, only the two windows decide |
| `ApartmentsFilter.BlankQueryIsEmpty` | src/composables/useApartmentsFilter.ts:41 | a typed address of white space only debounces to the empty query |
| `ApartmentsFilter.AddressMatchIgnoresCase` | src/composables/useApartmentsFilter.ts:41-113 | the case of the address and of the typed query do not change the address test |
| `ApartmentsFilter.NormalizeQueryIdempotent` | src/composables/useApartmentsFilter.ts:41 | normalising an already normalised query changes nothing |
| `ApartmentsFilter.EmptyFiltersPassAll` | src/composables/useApartmentsFilter.ts:103-116 | with `FILTERS` and the empty query every apartment passes |
| `ApartmentsFilter.EmptyFiltersKeepAll` | src/composables/useApartmentsFilter.ts:19-25 | with `FILTERS` and the empty debounced query the result is the whole input list |
| `ApartmentsFilter.ReversedAreaRangeSameResult` | src/composables/useApartmentsFilter.ts:98-99 | with both area bounds present, `(from, to)` and `(to, from)` give the same result |
| `ApartmentsFilter.ReversedRoomsRangeSameResult` | src/composables/useApartmentsFilter.ts:100-101 | with both rooms bounds present, `(from, to)` and `(to, from)` give the same result |
| `ApartmentsFilter.FilterMonotone` | src/composables/useApartmentsFilter.ts:104-110 | when one record's windows cover another's, the smaller result is a subsequence of the larger and no longer |
| `ApartmentsFilter.SubsequenceAfterPrefix` | src/composables/useApartmentsFilter.ts:103 | adding an element in front keeps a subsequence a subsequence |
| `ApartmentsFilter.WidensCovers` | src/composables/useApartmentsFilter.ts:98-101 | relaxing the bounds of a consistent range gives a window that covers the old one |
| `ApartmentsFilter.WideningNeverShrinks` | src/composables/useApartmentsFilter.ts:104-119 | lowering `from`, raising `to` or clearing a bound of a consistent range never decreases `foundCount`; read the other way round, narrowing to a consistent range never increases it |
| `ApartmentsFilter.ClearingReversedBoundMayNarrow` | src/composables/useApartmentsFilter.ts:98-99 | for a reversed area range, clearing `from` can take the count from 1 to 0 |
| `ApartmentsFilter.RaisingFromPastToMayWiden` | src/composables/useApartmentsFilter.ts:98-99 | raising `from` of the consistent area range (5, 10) to 12, past `to`, takes the count for an area-11 apartment from 0 to 1 |
| `ApartmentsFilter.SpreadMin` | src/composables/useApartmentsFilter.ts:56 | `Math.min(...xs)` is infinity exactly for the empty list; otherwise it is an element of the list and a lower bound of it |
| `ApartmentsFilter.SpreadMax` | src/composables/useApartmentsFilter.ts:57 | `Math.max(...xs)` is minus infinity exactly for the empty list; otherwise it is an element of the list and an upper bound of it |
| `ApartmentsFilter.Areas` | src/composables/useApartmentsFilter.ts:54 | the mapped list has one area per apartment, in order |
| `ApartmentsFilter.RoomCounts` | src/composables/useApartmentsFilter.ts:62 | the mapped list has one room count per apartment, in order |
| `ApartmentsFilter.AreaBounds` | src/composables/useApartmentsFilter.ts:53-59 | `areaBounds` is (infinity, minus infinity) exactly for the empty list; otherwise both ends are finite, `min <= max`, they enclose every area and both are attained by some apartment |
| `ApartmentsFilter.RoomsBounds` | src/composables/useApartmentsFilter.ts:61-67 | the same for `roomsBounds` and the room counts |
| `FilterManager.Manager.constructor` | src/composables/useApartmentsFilter.ts:27-45 | the filters start as `FILTERS` and the debounced query as empty; the immediate watcher run schedules a timer for the empty address |
| `FilterManager.Manager.AddressChanged` | src/composables/useApartmentsFilter.ts:35-43 | called with the current address, the watcher replaces any pending timer by one for that value, re-establishes `Valid()`, and changes nothing else |
| `FilterManager.Manager.UpdateFilters` | src/composables/useApartmentsFilter.ts:121-123 | the state becomes exactly the given record; the debounced query is unchanged; a timer is rescheduled only if the address changed |
| `FilterManager.Manager.ResetFilters` | src/composables/useApartmentsFilter.ts:125-127 | the state becomes `FILTERS`; if it already was, nothing changes, so two resets equal one |
| `FilterManager.Manager.Fire` | src/composables/useApartmentsFilter.ts:40-42 | the debounced query becomes the trimmed, lower-cased current address, and the timer is gone; with no timer nothing changes |
| `FilterManager.Manager.FilteredApartments` | src/composables/useApartmentsFilter.ts:90-117 | the result is an order-preserving subsequence of the list, holding exactly the apartments that pass under the current filters and the debounced query, each as many times as it occurs in the list |
| `FilterManager.Manager.FoundCount` | src/composables/useApartmentsFilter.ts:119 | `foundCount` is the length of `filteredApartments`, so at most the length of the list |
| `FilterManager.Manager.Errors` | src/composables/useApartmentsFilter.ts:69-88 | each key is present iff its range is reversed under the current filters |
| `FilterManager.Manager.AreaBoundsOfList` | src/composables/useApartmentsFilter.ts:53-59 | for the empty list the area bounds are (infinity, minus infinity); otherwise they are finite, enclose every area, and both are attained by some apartment |
| `FilterManager.Manager.RoomsBoundsOfList` | src/composables/useApartmentsFilter.ts:61-67 | for the empty list the rooms bounds are (infinity, minus infinity); otherwise they are finite, enclose every room count, and both are attained by some apartment |
| `FilterExamples.ElmAndOakScenario` | src/composables/useApartmentsFilter.ts:53-116 | for two listings (50 m², 2 rooms and 90 m², 4 rooms) with area from 60: only the second is shown, nothing is flagged, and the bounds are 50..90 and 2..4 |
| `FilterExamples.BakerStreetScenario` | src/composables/useApartmentsFilter.ts:41-113 | the typed query "BAKER" matches the address "Baker Street" |
| `FilterExamples.ResetStateShowsAll` | src/composables/useApartmentsFilter.ts:90-119 | a manager holding `FILTERS` and the empty debounced query shows its whole list, and `foundCount` is the list length |
| `FilterExamples.InitialStateShowsAll` | src/composables/useApartmentsFilter.ts:19-45 | a new manager whose initial timer has fired shows the whole list |
| `FilterExamples.DebounceCoalescing` | src/composables/useApartmentsFilter.ts:33-45 | after the edits "a", "ab" and "abc" and one timer firing, the debounced query is "abc" |
| `FilterExamples.ResetTwice` | src/composables/useApartmentsFilter.ts:125-127 | two resets in a row leave the same state as one |

## Left out

- Vue reactivity (`ref`, `computed`, `watch`) is not modelled as a dependency graph. Derived values are functions of the current state.
- The address watcher is modelled as running synchronously on each assignment that changes the address. Vue's batching of several changes within one tick is not modelled.
- Real timers are not modelled: `setTimeout`, `clearTimeout` and the 300 ms delay. Firing the timer is an explicit `Fire` step.
- The `onBeforeUnmount` teardown that cancels the pending timer (src/composables/useApartmentsFilter.ts:47-51) is not modelled, because the model has no component lifetime.
- Object identity and aliasing are not modelled. `updateFilters` stores the caller's object itself, and the model stores a value.
- JavaScript number semantics are not modelled: floating point, `NaN`, and non-finite filter inputs. Numbers are mathematical reals.
- `JsString.ToLower`: only ASCII, Latin-1 and basic Cyrillic capitals (U+0400-U+042F) are lower-cased. Other Unicode case mappings are not modelled.
- `ApartmentsFilter.SpreadMin`: does not model the `RangeError` that `Math.min(...xs)` raises when the spread list exceeds the engine's argument limit (on the order of 10^5 elements in V8); the model returns the minimum for a list of any length.
- `ApartmentsFilter.SpreadMax`: likewise does not model the `RangeError` of `Math.max(...xs)` on a list past the engine's argument limit.
- `JsString.Includes` works on Unicode scalar values, not on UTF-16 code units. The two agree except on unpaired surrogates.
- The `Apartment` type file (`../types/apartment`) is not part of this model. Only `area`, `rooms` and `address` are used.
- The exported return-type alias (line 141) has no behaviour to model.
