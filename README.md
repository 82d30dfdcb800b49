# EcoTrail eco-route engine in Dafny

This project models the decision logic of the EcoTrail command-line route
finder (`backend/app.py`) and proves properties of it. The finder asks a
routing service for one route per requested travel mode, computes each
mode's carbon footprint from a fixed table of emission factors, and
suggests the mode with the least footprint. Only modes whose travel time
is within an optional ceiling are considered.

The model has seven modules:

- `Wrappers`: the `Option` type.
- `PyDict`: Python's insertion-ordered `dict`, as a sequence of key/value
  pairs. It has `Set` for `d[k] = v` (overwrite in place, or append a new
  key), plus `Keys` and `Value`.
- `RequestInput`: the two normalisations the driver applies to its inputs.
  Line 211 turns the comma-separated mode list into trimmed, non-empty
  names, falling back to the four known modes. Lines 214-219 turn a ceiling
  `<= 0`, or an unparsable one, into "no limit".
- `RouteFetch`: `fetch_route_data`, as the imperative loop of the source.
  The routing service is replaced by a sequence of replies, one per
  request: a list of routes (each a list of legs), or an exception.
- `Carbon`: the emission table and `calculate_carbon_footprint`, as the
  imperative loop of the source, specified by a function on the route dict.
- `EcoSelector`: `suggest_eco_friendly_route` as pure functions. There are
  three steps:
  - an order-preserving filter on the ceiling;
  - the footprints of the kept modes;
  - Python's `min(..., key=...)`, which keeps the first least item.
- `EcoRoute`: the driver's pipeline of lines 221-231 (fetch, footprints,
  suggestion), with lemmas stating the suggestion directly in terms of
  distances and emission factors.

What the code does, and so what the model does:

- **Unknown modes are not rejected.** The code sends any requested name to
  the routing service. A name missing from the emission table simply gets
  factor 0 (`Carbon.UnknownModeZero`).
- **No reward points.** The code computes no points, so the model has none.
- **No list of failed modes.** A mode whose request found no route or
  raised is only absent from the result dict (`RouteFetch.FetchedPresence`).
- **Ties go to the mode that entered the route dict first.** This follows
  from dict insertion order and `min` keeping the first least item
  (`EcoSelector.SuggestFirstOfTies`). A mode enters the dict at its first
  hit (`RouteFetch.FetchedKeysFirstHits`), so with distinct modes it is the
  mode requested first (`RouteFetch.FetchedKeysInOrder`). With a repeated
  mode whose first request failed, it need not be: for
  `walking,bicycling,walking` where the first request raises, bicycling is
  stored first and wins a tie with walking.
- **Duplicate requests.** A mode requested twice is fetched twice. The
  later hit overwrites the earlier record, and the entry keeps its first
  position in the dict (`RouteFetch.FetchedValue`, `PyDict.SetSpec`).

## Model

| member | source | states |
|---|---|---|
| Carbon.FactorTable | backend/app.py:19-24 | the emission factors are driving 180, transit 80, walking 0 and bicycling 0 grams per km |
| Carbon.EmissionFactor | backend/app.py:117 | `EMISSION_FACTORS.get(mode, 0)` is never negative, and is 0 for a mode missing from the table |
| Carbon.UnknownModeZero | backend/app.py:117 | a route for a mode missing from the table is kept, with footprint 0 |
| Carbon.ZeroEmissionModes | backend/app.py:22-23 | walking and bicycling footprints are 0 whatever the distance |
| Carbon.Footprint | backend/app.py:118 | the product distance times the mode's emission factor; its properties are carried by `Carbon.FootprintSign` and `Carbon.FootprintLinear` |
| Carbon.FootprintsOf | backend/app.py:112-119 | the footprint dict has exactly the route dict's modes, in the same order, each paired with distance times factor |
| Carbon.CalculateCarbonFootprint | backend/app.py:112-119 | the loop that builds the footprint dict one mode at a time produces exactly `FootprintsOf(routes)` |
| Carbon.FootprintLookup | backend/app.py:115-118 | looking up a mode in the footprint dict gives that mode's route distance times its factor |
| Carbon.FootprintsNonNegative | backend/app.py:118 | non-negative distances give non-negative footprints |
| Carbon.FootprintSign | backend/app.py:118 | a factor-0 mode emits 0, and a non-negative distance never emits a negative amount |
| Carbon.FootprintLinear | backend/app.py:118 | a footprint scales with the distance, adds over distances, and grows with the distance |
| RouteFetch.Extract | backend/app.py:72-79 | a reply yields a record exactly when it did not raise and its first route has at least one leg; the record holds meters/1000 and seconds/60 of the first leg of the first route, both non-negative |
| RouteFetch.Fetched | backend/app.py:64-84 | the dict the loop has built after the given requests; what it holds is stated by `FetchedPresence`, `FetchedValue`, `FetchedKeysFirstHits`, `FetchedDistinct` and `FetchedKeysRequested` |
| RouteFetch.FetchRouteData | backend/app.py:62-84 | the request loop, where a miss or an exception skips the mode and the loop goes on, produces exactly `Fetched(modes, replies)` |
| RouteFetch.FetchedDistinct | backend/app.py:76 | the dict never holds a mode twice |
| RouteFetch.FetchedKeysRequested | backend/app.py:65-76 | every stored mode was requested |
| RouteFetch.FetchedHitStored | backend/app.py:72-79 | a mode whose request was a hit is stored |
| RouteFetch.FetchedStoredHit | backend/app.py:72-79 | a stored mode had a request that was a hit |
| RouteFetch.FetchedPresence | backend/app.py:65-83 | a mode is stored if and only if one of its requests was a hit; a miss or an exception leaves it absent |
| RouteFetch.FetchedValue | backend/app.py:73-79 | a mode's record is the one extracted from its last hit |
| RouteFetch.FetchedKeysInOrder | backend/app.py:64-84 | with no mode requested twice, the stored modes are exactly the hit modes, in request order |
| RouteFetch.FetchedKeysFirstHits | backend/app.py:64-84 | whatever the repeats in the request list, the stored modes are the hit modes in the order of their first hit, each once |
| RouteFetch.FetchedSize | backend/app.py:64-84 | at most one entry per hit, and no more entries than requests |
| RouteFetch.FetchedNonNegative | backend/app.py:74-75 | every stored distance and duration is non-negative |
| RouteFetch.FetchedAllMissed | backend/app.py:80-84 | when every request misses or raises, the result is the empty dict and nothing is raised |
| RouteFetch.FetchedAllHit | backend/app.py:65-79 | with distinct modes all hits, every mode is stored in request order |
| RouteFetch.FetchedOneMissed | backend/app.py:65-84 | with distinct modes and exactly one failing request, the others are all stored in order, one entry fewer, and the failed mode is absent |
| RequestInput.IsSpace | backend/app.py:211 | the characters Python's `str.isspace` accepts, which `str.strip()` removes: tab to carriage return, U+001C to space, U+0085, U+00A0, U+1680, U+2000 to U+200A, U+2028, U+2029, U+202F, U+205F and U+3000; used by `Strip` |
| RequestInput.Strip | backend/app.py:211 | `str.strip()` returns a slice of its input with only whitespace cut from each end, and the result neither starts nor ends with whitespace |
| RequestInput.StripStrip | backend/app.py:211 | stripping twice is stripping once |
| RequestInput.StripEmpty | backend/app.py:211 | a piece strips to the empty string if and only if it is all whitespace |
| RequestInput.StripTrimmed | backend/app.py:211 | a string with no whitespace at either end strips to itself |
| RequestInput.Split | backend/app.py:211 | `split(",")` yields at least one piece, and no piece holds the separator |
| RequestInput.JoinSplit | backend/app.py:211 | joining the pieces back with the separator gives the input (nothing is lost by splitting) |
| RequestInput.Tokens | backend/app.py:211 | the comprehension keeps at most one name per piece; which names and in what order is stated by `TokensMembers`, `TokensAppend`, `TokensEmpty` and `TokenShape` |
| RequestInput.TokensMembers | backend/app.py:211 | a kept name is the stripped form of some piece and is non-empty, and every such stripped piece is kept |
| RequestInput.TokensEmpty | backend/app.py:211 | no names are kept if and only if every piece is all whitespace |
| RequestInput.TokensAppend | backend/app.py:211 | the names kept from two lists of pieces are those of each list, in order |
| RequestInput.TokenShape | backend/app.py:211 | every kept name is non-empty, already trimmed and free of commas |
| RequestInput.DefaultModesShape | backend/app.py:211 | the four fallback modes are non-empty, trimmed and free of commas |
| RequestInput.ParseModes | backend/app.py:211 | the requested mode list is never empty |
| RequestInput.ParseModesSpec | backend/app.py:211 | with every piece blank the modes are the four defaults; otherwise a name is a mode if and only if it is a non-empty stripped piece; every mode is non-empty, trimmed and free of commas |
| RequestInput.NormaliseCeiling | backend/app.py:214-219 | a ceiling is set if and only if the parsed value exists and is positive, and then it is that value; `<= 0` or a `ValueError` means no limit |
| EcoSelector.WithinLimit | backend/app.py:126 | a route is eligible when there is no ceiling or its duration is at most the ceiling; used by `FilterRoutes` |
| EcoSelector.FilterRoutes | backend/app.py:124-127 | the routes within the ceiling, in dict order; stated by `FilterSound`, `FilterKeeps`, `FilterDistinct` and `FilterSplit` |
| EcoSelector.FilterSound | backend/app.py:124-127 | every kept route is one of the routes and is within the ceiling |
| EcoSelector.FilterKeeps | backend/app.py:124-127 | every route within the ceiling is kept |
| EcoSelector.FilterDistinct | backend/app.py:124-127 | the filtered dict has distinct modes |
| EcoSelector.FilterSplit | backend/app.py:124-127 | filtering keeps dict order: filtering a dict is filtering its two halves |
| EcoSelector.KeptBefore | backend/app.py:124-127 | routes within the ceiling before a kept mode are kept before it |
| EcoSelector.KeptCovered | backend/app.py:134-135 | every kept mode has a footprint, so `footprints[mode]` does not raise |
| EcoSelector.CandidateFootprints | backend/app.py:134-136 | the candidate dict has the kept modes, in order, each with its footprint |
| EcoSelector.MinIndex | backend/app.py:137 | `min(d, key=d.get)` picks an item no larger than any other and strictly smaller than every earlier one |
| EcoSelector.SuggestEcoFriendlyRoute | backend/app.py:121-138 | `suggest_eco_friendly_route`; its contract is carried by `SuggestNoRouteIff` (no suggestion iff no eligible route), `SuggestRecord` (an eligible input mode with its own record), `SuggestLeast` (least footprint) and `SuggestFirstOfTies` (first in dict order among ties) |
| EcoSelector.SuggestNoRouteIff | backend/app.py:124-131 | `(None, None)` is returned if and only if no route is within the ceiling |
| EcoSelector.SuggestUnlimited | backend/app.py:126-131 | with no ceiling, `(None, None)` is returned if and only if there are no routes |
| EcoSelector.SuggestRecord | backend/app.py:133-138 | the suggested mode is one of the routes, within the ceiling, with a footprint, and is returned with its own unchanged record |
| EcoSelector.SuggestLeast | backend/app.py:134-137 | the suggested mode's footprint is at most that of every route within the ceiling |
| EcoSelector.SuggestFirstOfTies | backend/app.py:134-137 | every route within the ceiling that comes before the suggested mode in dict order has a strictly larger footprint |
| EcoRoute.FootprintAt | backend/app.py:115-118 | in computed footprints, each route's mode looks up its distance times its factor |
| EcoRoute.SuggestGreenest | backend/app.py:112-138 | on computed footprints, the suggested route's distance times factor is least among the routes within the ceiling |
| EcoRoute.SuggestGreenestFirst | backend/app.py:112-138 | on computed footprints, every earlier route within the ceiling emits strictly more than the suggested one |
| EcoRoute.ZeroEmissionWins | backend/app.py:112-138 | a zero-factor route within the ceiling among non-negative distances means a suggestion is made and it emits 0 |
| EcoRoute.FetchedZeroEmissionWins | backend/app.py:62-138 | on fetched routes, a zero-factor hit within the ceiling means a suggestion that emits 0 |
| EcoRoute.FindEcoRoute | backend/app.py:221-231 | fetching, computing footprints and selecting gives the fetched dict, its footprints and the selector's answer; there is no suggestion if and only if no fetched route is within the ceiling; a suggested mode was requested and comes with its fetched record |
| PyDict.Set | backend/app.py:76 | `d[k] = v`, also used at line 118; its contract is carried by `PyDict.SetSpec` and `PyDict.SetKeys` |
| PyDict.SetSpec | backend/app.py:76 | `d[k] = v` keeps the keys distinct and keeps an existing key's position (a new key goes last); `k` now maps to `v`, and every other key keeps its value |
| PyDict.SetKeys | backend/app.py:76 | `d[k] = v` leaves the key sequence unchanged for an existing key, and appends a new key |

## Left out

- The routing service (`gmaps.directions`) is not modelled. Its replies are an input sequence, one reply per request. Network access, the API key and timeouts are outside the model.
- No reply field other than the two `value`s of the first leg is modelled. A field missing from a reply, or a route entry without `legs`, is not a separate shape. The model covers only an exception, an empty route list, and an empty leg list (the last is an `IndexError` that the `except` catches).
- `geocode_address`, `get_route_optimization`, `get_traffic_route_data` and `display_map_route` only call external services and print, so they are not modelled.
- The interactive driver's prompts, printing and `exit()` calls are left out; only lines 211, 214-219 and 221-231 are modelled. `EcoRoute.FindEcoRoute` returns no suggestion where the driver would exit on an empty route dict. It also does not model the printed report of lines 232-250.
- `.lower()` on line 210 is not modelled. Dafny strings have no case mapping, so mode names are taken as already in lower case. The `.strip()` on the same line is not modelled separately either: stripping each piece already removes any whitespace at the two ends.
- `RequestInput.NormaliseCeiling`: `float()` parsing is not modelled. Its input is the parsed value, or None when `float()` raised `ValueError`.
- Floating point is modelled as exact reals. Rounding, infinities and NaN are not modelled; for example, `float("nan")` as a ceiling would fail `> 0` and mean no limit.
- `backend/newapp.py`, a Flask HTTP API over MongoDB for signup, login and password update, is not part of this model.
- `EcoSelector.SuggestEcoFriendlyRoute`: the `KeyError` of line 135 is excluded by requiring a footprint for every kept mode (`FootprintsCover`); the driver's call at line 231 passes `calculate_carbon_footprint(routes)`, which guarantees it (`EcoRoute.FindEcoRoute`).
- The diagnostic `print`s inside the modelled functions (lines 81, 83 and 130) are not modelled; they only write to the console and do not change any result.
- `RouteFetch.Leg`: the provider's `distance.value` and `duration.value` are taken as non-negative whole numbers (metres and seconds, as `nat`). The code itself would accept a negative or fractional value; `RouteFetch.FetchedNonNegative` and `EcoRoute.FetchedZeroEmissionWins` rely on this assumption.
