# Tab Graveyard: the inactive-tab tracker and its storage validation

Tab Graveyard is a browser extension that remembers which tabs have lost
focus and since when. Its background service worker keeps an object
`inactiveTabsData` that maps a tab id to `{title, url, inactiveFrom}`. Four
callbacks change or read it:

- the `tabs.onActivated` listener tracks every other open tab that is not
  tracked yet and stops tracking the tab that gained focus;
- the `tabs.onRemoved` listener forgets a closed tab;
- a five-minute timer sweeps out entries whose tab no longer exists;
- a one-second timer saves the object once for every entry past the
  inactivity threshold.

At start-up the worker restores the object and the threshold from
`chrome.storage.local`. A small storage module validates what is read back
(`getInactiveTabsData`, `getInactiveThreshold`) and what the setter
`setInactiveThreshold` accepts.

The Dafny project has four modules:

- `JsNumbers` (js_numbers.dfy): the JavaScript number semantics the code
  depends on. Number values are finite, ±Infinity or NaN, with `<`, `<=`,
  `>=` and `*`. It also has `String(id)` for an integer, the global
  `parseInt`, and `Number(string)`.
- `JsValues` (js_values.dfy): the values storage holds, with truthiness,
  `||`, `typeof`, `Array.isArray` and the `ToNumber` coercion.
- `Storage` (storage.dfy): `src/utils/storage.js`. The getters are functions
  of the stored key/value map and of whether the read succeeds. The setter is
  a method on a `LocalStore` class that owns that map.
- `Background` (background.dfy): `src/background/background.js` as a
  `Tracker` class. Its fields are the tracking object (`entries`) and the
  threshold (`threshold`). A ghost log `writes` records every object handed
  to `chrome.storage.local.set`. Each listener and timer body is a method.
  The three loop methods are proved against specification functions:
  `OnActivated` against `Activated`, `SweepStaleEntries` against `Swept` and
  `StaleKeys`, and `ReviewThresholds` against `DueKeys`. Properties of those
  functions are proved as lemmas.

The browser is not modelled; its answers are inputs:

- the result of `chrome.tabs.query`, or its failure (`TabQuery`);
- `Date.now()`, as `now`;
- the outcome of the start-up read (`StoredState`);
- whether a storage read or write succeeds (`ReadOutcome`, `WriteOutcome`).

Facts about the code that shape the model:

- The tracking object is a JavaScript object, so its keys are strings. The
  listeners index it with a tab id, which JavaScript converts to `String(id)`
  (src/background/background.js:52-53, 60, 70-71). The sweep reads a key back
  with `parseInt` (src/background/background.js:85). The model keys the map
  by `KeyOf(id)`, and `JsNumbers.ParseIntOfString` proves that `parseInt`
  gives the id back. This is why the sweep never drops a live tab.
- `setInactiveThreshold` accepts any positive finite number, fractions
  included (src/utils/storage.js:58), so thresholds are reals.
- Activation visits only the tabs the query lists
  (src/background/background.js:50-61). A focused tab missing from that list
  keeps its entry; see `Background.ActivationUntracksActiveTab`.
- Activation never changes an entry that already exists
  (src/background/background.js:52). An entry stamped later than `now` keeps
  its stamp; see `Background.ActivationStampsNoFutureTime`.

## Model

| member | source | states |
|---|---|---|
| JsValues.Truthy | src/background/background.js:13 | reference definition of ToBoolean used by the `if` tests at src/background/background.js:13, 17, 52 and 70 and by `||` at src/utils/storage.js:14, 36: objects and arrays, even empty ones, are truthy, undefined and null are not; pinned down by `Storage.GetInactiveThreshold`, `Background.Tracker.RestoreState` and `JsValues.ToNumber` |
| JsValues.ToNumber | src/background/background.js:103 | reference definition of the coercion `inactiveThreshold * 1000` applies: a number is itself, and every falsy value except undefined and NaN coerces to 0; pinned down by `Background.StringThresholdActsAsNumber` and `Background.NaNThresholdNeverDue` |
| JsNumbers.Mul | src/background/background.js:103 | reference definition of `*`: NaN exactly when an operand is NaN or zero meets an infinity, the real product on finite operands; pinned down by `Background.DueForNumericThreshold` |
| JsNumbers.StringToNumber | src/background/background.js:103 | reference definition of `Number(string)`, the coercion a threshold restored as a string undergoes: blank strings are 0 and infinities come only from the spelling `Infinity`; pinned down by `JsNumbers.StringToNumberOfDecimal` |
| JsNumbers.ParseInt | src/background/background.js:85 | reference definition of the global `parseInt`: a result exists only for a string with a non-blank start, and a negative result only after a leading `-`; pinned down by `JsNumbers.ParseIntOfString` |
| JsNumbers.IntToString | src/background/background.js:52-53 | reference definition of `String(id)`, the conversion behind `KeyOf` at src/background/background.js:52-53, 60 and 70-71: a nonempty numeral of decimal digits with a leading `-` exactly for negative ids; pinned down by `JsNumbers.ParseIntOfString` and `JsNumbers.IntToStringInjective` |
| Background.Due | src/background/background.js:106 | reference definition of `currentTime - data.inactiveFrom >= inactiveThresholdMs`: a NaN or +Infinity threshold is never reached and -Infinity always is; pinned down by `Background.DueForNumericThreshold` and `Background.DueStaysDue` |
| JsNumbers.ParseIntOfString | src/background/background.js:84-85 | `parseInt` applied to the key `String(id)` under which a tab id is stored gives back that id, for every integer id |
| JsNumbers.IntToStringInjective | src/background/background.js:52-53 | two tab ids share a property key exactly when they are the same id |
| JsNumbers.StringToNumberOfDecimal | src/background/background.js:103 | `Number` applied to the decimal numeral of n is n, so a threshold stored as a numeral coerces to its value under `*` |
| Storage.GetInactiveTabsData | src/utils/storage.js:11-27 | the result is always an object; it is the stored value when the read succeeds and the stored value is a plain object, and `{}` otherwise (nothing stored, a falsy value, an array, any other non-object, a failed read) |
| Storage.GetInactiveThreshold | src/utils/storage.js:33-49 | the result is always a number above zero; it is the stored value when the read succeeds and that value is a number above zero (+Infinity included), and 10 otherwise (missing, 0, NaN, a non-number, a negative number, a failed read) |
| Storage.GetterAcceptsValidThresholds | src/utils/storage.js:36-44 | the threshold getter passes a stored value through exactly when it is a positive finite number (what the setter accepts) or +Infinity |
| Storage.ThresholdRoundTrip | src/utils/storage.js:36-62 | after storing a positive finite number s under `inactiveThreshold`, the getter returns s |
| Storage.LocalStore.SetInactiveThreshold | src/utils/storage.js:57-63 | rejects with a TypeError, writing nothing, unless the argument is a finite number above zero; otherwise stores it under `inactiveThreshold` and resolves, or rejects with the store unchanged when the write fails |
| Storage.LocalStore.SetThenGetThreshold | src/utils/storage.js:33-63 | the setter accepts exactly the positive finite numbers; setting then getting the threshold returns the argument when it was accepted, and otherwise the value stored before the call, with the store unchanged |
| Background.Tracker.constructor | src/background/background.js:6-7 | the tracker starts with an empty object, a threshold of 10 and nothing saved |
| Background.Tracker.RestoreState | src/background/background.js:10-24 | the stored object and threshold replace the current ones only when they are truthy; a failed read changes nothing; a truthy threshold stays truthy |
| Background.Tracker.SaveInactiveTabsData | src/background/background.js:117-119 | one save hands the current object to storage |
| Background.Tracker.OnActivated | src/background/background.js:46-66 | a failed tab query changes and saves nothing; otherwise the object becomes `Activated(old object, listed tabs, activated id, now)` and is saved exactly once |
| Background.ActivatedSnocActive | src/background/background.js:59-61 | visiting the activated tab in the loop deletes its key and changes no other entry |
| Background.ActivatedSnocTracked | src/background/background.js:51-52 | visiting another tab that already has an entry changes nothing |
| Background.ActivatedSnocUntracked | src/background/background.js:51-58 | visiting another tab that has no entry adds `{title, url, inactiveFrom: now}` for it and changes nothing else |
| Background.ActivationTracksOtherTabs | src/background/background.js:50-58 | after activation every listed tab other than the activated one has an entry |
| Background.ActivationUntracksActiveTab | src/background/background.js:59-60 | after activation the activated tab has no entry if it was listed |
| Background.ActivationKeepsEntries | src/background/background.js:50-62 | activation never overwrites an entry: every entry except the listed activated tab's survives with the same title, url and inactiveFrom, listed or not |
| Background.ActivationCreatesOnlyMissingEntries | src/background/background.js:52-57 | every entry activation adds belongs to a listed tab other than the activated one that had none, and holds that tab's title and url from its first listing, stamped now |
| Background.ActivationStampsNoFutureTime | src/background/background.js:48-56 | if no entry was stamped after now, none is after activation |
| Background.Tracker.OnRemoved | src/background/background.js:69-75 | deletes the closed tab's entry and nothing else; saves exactly when there was an entry |
| Background.Tracker.OnRemovedTwice | src/background/background.js:69-75 | a second removal of the same tab changes nothing and saves nothing: two calls leave the same object and the same saves as one |
| Background.Tracker.SweepStaleEntries | src/background/background.js:78-98 | a failed tab query changes nothing; otherwise the object becomes `Swept(old, live ids)`, `removedCount` is the number of stale keys, and the object is saved once exactly when that count is above zero |
| Background.SweepKeepsLiveTabs | src/background/background.js:84-86 | the sweep never drops the entry of a live tab, and keeps it unchanged |
| Background.SweepRemovesExactlyStale | src/background/background.js:84-89 | the sweep deletes exactly the keys that do not parse to a live id; every remaining key parses to a live id and keeps its entry |
| Background.SweepCount | src/background/background.js:83-89 | the number of deleted keys equals the number of entries that disappear |
| Background.Tracker.ReviewThresholds | src/background/background.js:101-111 | the object and the threshold are unchanged, and the object is saved once for each entry with `now - inactiveFrom >= threshold * 1000` |
| Background.DueForNumericThreshold | src/background/background.js:103-106 | with a threshold of s seconds, an entry is due exactly when it has been inactive for at least s * 1000 ms |
| Background.StringThresholdActsAsNumber | src/background/background.js:103-106 | a threshold restored as the numeral of n seconds makes an entry due exactly when the number n would |
| Background.DueStaysDue | src/background/background.js:106 | an entry that is due stays due as time goes on |
| Background.NaNThresholdNeverDue | src/background/background.js:103-106 | a restored threshold that coerces to NaN, such as an object, makes no entry ever due |
| Background.DefaultThresholdCrossing | src/background/background.js:101-111 | with the default threshold of 10 s, an entry inactive since t0 is not due at t0 + 9 s and is due at t0 + 10 s |
| Background.SwitchToTwo | src/background/background.js:46-66 | with tabs 1, 2 and 3 open and nothing tracked, activating tab 2 tracks exactly tabs 1 and 3, stamped now |
| Background.ReturnToOne | src/background/background.js:46-66 | with tabs 1 and 2 open and only tab 1 tracked, activating tab 1 leaves exactly tab 2 tracked |
| Background.TabLifecycle | src/background/background.js:46-75 | the life of three tabs: activating tab 2 tracks 1 and 3; closing 3 removes its entry and keeps tab 1's; activating 1 again leaves only tab 2 tracked |

## Left out

- Platform and browser information logging (src/background/background.js:26-43) and every `console` call: they do not affect any state.
- Timer scheduling, listener registration and `async` suspension: each callback body is one sequential method. Interleavings are not modelled, relying on the single-threaded, run-to-completion event loop.
- Floating point: finite numbers are reals, so double rounding, overflow to Infinity and the distinction between -0 and +0 are not modelled.
- `chrome.storage.local.set` is fire-and-forget in the background worker. A save is recorded in the ghost log whether or not the write later fails.
- Background.Tracker.RestoreState: takes the stored tracking object already decoded as a map of entries. A truthy stored value that is not such an object is not modelled; the source would adopt it as is.
- Background.Tab: title and url are always present strings. A tab without them would give an entry with `undefined` fields.
- Background.Tracker.OnRemoved: tests map membership where the source tests the truthiness of `inactiveTabsData[tabId]` (src/background/background.js:70). Entries are always objects, so the two agree; a restored falsy value under a key is not modelled.
- Background.Tracker.OnActivated: entries are always objects, so "has no entry" is map membership. A restored falsy value under a key, which the source would overwrite, is not modelled.
- JsNumbers.IntToString: writes every integer in plain decimal. JavaScript switches to exponent notation from 10^21, which tab ids do not reach.
- JsNumbers.StringToNumber: models the decimal, 0x, 0o, 0b and Infinity forms of a numeric string. Values are exact reals.
- The iteration order of `for...in` and `Object.entries` is not modelled. The loops visit a set of keys; neither result depends on the order.
- src/popup/main.js (UI rendering) and vite.config.js (build configuration) are not part of this model.
