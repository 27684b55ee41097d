# Number Recall Trainer — offline layer and digit/voice helpers in Dafny

This project models two parts of the Number Recall Trainer, a progressive web
app that reads a random string of digits aloud and times how long the user
takes to recall it.

1. **The service worker** (`pwa_v1.0.1/service-worker.js`): its install,
   activate and fetch handlers, written as pure transitions over the origin's
   Cache Storage. The storage is a `Registry`: a sequence of named stores in
   creation order, each mapping a request URL to a stored `Response`. The
   creation order matters because `caches.keys()` lists stores in it and
   `caches.match` searches them in it.
2. **The page's helpers** (`pwa/app.js`): the random digit string (with its
   random draws passed in), the Chinese-numeral table, the spoken form, the
   voice picker's option list and selection rule, the voice choice, and the
   clamp on the digit count.

Modules: `Wrappers` (Option), `CacheStorage` (named stores: open, put,
delete, match), `ServiceWorker` (the three handlers), `Digits`, `Voices` and
`Trainer` (the Speak button's path from digit count to spoken text).

Inputs the model takes as parameters instead of computing them:

- the result of each network fetch (`NetOutcome`, or a function from URL to
  `NetOutcome` during install);
- the page origin (`self.location.origin`);
- the worker's base URL, which the relative asset paths resolve against;
- the random digit draws;
- the host's default voice.

Behaviour of the code that the model keeps as written:

- **Install never fails.** `install` catches and logs a failed `addAll`, so
  the promise given to `waitUntil` always resolves. `Install` ensures
  `settled == Resolved`. The current store still exists afterwards, because
  `caches.open` created it before `addAll` ran.
- **Lookups search every store.** `caches.match` searches every store, stale
  ones included, in creation order (`MatchAll`). The offline lookup of
  `./index.html` works the same way. Writes go only to `CACHE_NAME`.
- **Eligibility is a string-prefix test.** A request is intercepted when its
  method is GET and its URL starts with the origin string
  (`origin <= req.url`).
- **Only status 200 is cacheable.** A network response is cached when its
  status is exactly 200 and its type is not `error`. So a redirected
  response with status 200 is cached, and an opaque response (status 0)
  never is.
- **The offline navigation fallback may be empty.** It is whatever
  `caches.match('./index.html')` finds, which may be nothing
  (`Respond(None, true)`).

## Model

| member | source | states |
|---|---|---|
| CacheStorage.Open | pwa_v1.0.1/service-worker.js:14 | opening a store keeps its contents and changes no other store; an existing store keeps its place, and a new one is appended after all existing stores, so creation order is kept; names stay distinct |
| CacheStorage.Put | pwa_v1.0.1/service-worker.js:62-63 | after the put, the named store maps the URL to the response and keeps every other entry; every other store is unchanged; store order is kept, and a store created by the put is appended last |
| CacheStorage.LookupWriteStore | pwa_v1.0.1/service-worker.js:62-63 | writing one store, created at the end when absent, leaves it reading as written and every other store reading as before |
| CacheStorage.Delete | pwa_v1.0.1/service-worker.js:31 | after deleting a store it can no longer be found; every other store is unchanged and keeps its place in creation order |
| CacheStorage.MatchAll | pwa_v1.0.1/service-worker.js:49 | a match is found exactly when some store holds the URL; the match is that URL's entry in the first store, in creation order, that holds it |
| CacheStorage.Without | pwa_v1.0.1/service-worker.js:28-33 | removing a set of stores makes exactly those unfindable, leaves every other store unchanged, and keeps the remaining names in creation order |
| CacheStorage.WithoutWithout | pwa_v1.0.1/service-worker.js:28-33 | deleting one set of stores and then another equals deleting their union |
| CacheStorage.MatchAfterPutOther | pwa_v1.0.1/service-worker.js:49-64 | putting a response under one URL leaves the match of every other URL unchanged |
| CacheStorage.MatchAfterPut | pwa_v1.0.1/service-worker.js:49-65 | a URL that no store held is matched, after being put into any store, to exactly the response put |
| ServiceWorker.AddAll | pwa_v1.0.1/service-worker.js:16 | `addAll` succeeds exactly when every asset fetch yields a non-error response with status 200-299 other than 206. Then each asset URL maps to its fetched response, and every other key is present and mapped exactly as before. Otherwise nothing is stored |
| ServiceWorker.Install | pwa_v1.0.1/service-worker.js:2-22 | install always resolves; the current store exists afterwards, keeping its place or appended after all existing stores, so an older store holding the same URL still shadows it in `caches.match`; no other store changes; if every asset was fetched ok, every asset URL maps to its response, other entries are kept, and no key other than an asset URL or an earlier entry appears; if not, the current store's contents are what they were |
| ServiceWorker.InstallCachesIndex | pwa_v1.0.1/service-worker.js:2-16 | a successful install leaves `./index.html` in the current store with its fetched response |
| ServiceWorker.StaleNames | pwa_v1.0.1/service-worker.js:27-29 | the names selected for deletion are exactly the existing store names other than `CACHE_NAME` |
| ServiceWorker.DeleteAll | pwa_v1.0.1/service-worker.js:28-33 | after deleting a list of names, no listed store remains and every unlisted store is as it was |
| ServiceWorker.Activate | pwa_v1.0.1/service-worker.js:24-37 | after activation every remaining store is named `CACHE_NAME`, the current store's contents are unchanged, and a valid registry keeps at most one store |
| ServiceWorker.ActivateIdempotent | pwa_v1.0.1/service-worker.js:27-33 | a second activation finds no stale store and returns the registry unchanged |
| ServiceWorker.DeleteAllIsWithout | pwa_v1.0.1/service-worker.js:28-33 | deleting stores one by one from a list removes exactly the set of names listed |
| ServiceWorker.ActivateOrderIrrelevant | pwa_v1.0.1/service-worker.js:28-33 | the concurrent deletions give the same registry in whatever order they complete |
| ServiceWorker.ActivateKeepsOnlyCurrent | pwa_v1.0.1/service-worker.js:27-33 | with the current store and two old ones, activation leaves only the current store |
| ServiceWorker.HandleFetch | pwa_v1.0.1/service-worker.js:39-76 | non-GET or non-prefixed URL: pass through, registry unchanged. Cache hit: the cached response, no network. Cacheable miss: the network response, stored under the URL in `CACHE_NAME`. No other store changes, store order is kept (a new `CACHE_NAME` store is appended last), and no other URL's match changes. Other miss responses: returned unmodified. Network failure: a navigation gets whatever matches `./index.html`, anything else gets the default-type response 503 "Service Unavailable" with body "Offline". Only a cacheable miss changes the registry |
| ServiceWorker.HitIgnoresNetwork | pwa_v1.0.1/service-worker.js:43-53 | for a request the handler skips, or one that hits the cache, the outcome does not depend on the network at all |
| ServiceWorker.RepeatIsHit | pwa_v1.0.1/service-worker.js:49-65 | after a cacheable miss, the same request is answered from the cache with that response, without network and without a write |
| ServiceWorker.InstalledShellServesOfflineNavigation | pwa_v1.0.1/service-worker.js:66-69 | starting from a registry with distinct store names, after a successful install and an activation, an uncached GET navigation whose URL starts with the origin, made with the network down, is answered with the installed index document |
| Digits.RandomNDigitString | pwa/app.js:52-58 | `''` when n is at most 0; otherwise exactly n decimal characters, position i being draw i, except that a leading `'0'` is replaced by the lead draw when zero leads are not allowed, so the first character is then never `'0'` |
| Digits.ToChineseDigits | pwa/app.js:60-63 | preserves length; each digit becomes its numeral from the table; every other character is unchanged |
| Digits.ZhCharInjective | pwa/app.js:60 | distinct digits have distinct numerals, and each numeral reads back as its digit |
| Digits.ChineseDigitsRoundTrip | pwa/app.js:60-63 | on digit strings, converting to numerals and back gives the original string |
| Digits.JoinChars | pwa/app.js:70-72 | the joined text has each character k at position k·(separator length + 1) and a copy of the separator right after every character but the last; its length is n plus n-1 separator lengths; joining nothing gives `''` |
| Digits.StripJoin | pwa/app.js:70-72 | when every separator character is in the removed set and none of the joined characters is, removing that set from the joined text gives back the joined characters |
| Digits.SpokenForm | pwa/app.js:65-80 | whole-string mode: the digits themselves, or their numerals for `zh` languages. Per-digit mode: digit k at position 3k with ", " after every digit but the last (length 3n-2); for `zh`, the numeral of digit k at position 2k with "、" after every numeral but the last (length 2n-1) |
| Digits.SpokenLatinRecovers | pwa/app.js:72 | for languages other than `zh`, the per-digit form without its ", " separators is the digit string |
| Digits.SpokenChineseRecovers | pwa/app.js:68-70 | for `zh` languages, the per-digit form without "、", read back numeral by numeral, is the digit string |
| Digits.ClampDigitCount | pwa/app.js:180 | the count lies in [1, 24], equals the input when the input is in range, and is the nearer bound otherwise |
| Voices.LangVoices | pwa/app.js:97 | a voice is offered exactly when the host lists it and its non-empty language starts, case-insensitively, with the chosen language; a one-voice list offers that voice or nothing |
| Voices.LangVoicesAppend | pwa/app.js:97 | the filter keeps the host's order and duplicates: filtering a list split in two gives the first part's offered voices followed by the second part's |
| Voices.OptionValue | pwa/app.js:103 | an option value is the voice's URI when that is non-empty, and otherwise its name (possibly empty) |
| Voices.PopulateVoiceSelect | pwa/app.js:95-113 | the options are `""` followed by the option value of each offered voice, in order; the previous selection is kept exactly when it is among the options, otherwise `""` is selected |
| Voices.SelectionNamesVoice | pwa/app.js:95-113 | a non-empty selection is the URI or name of a listed voice that speaks the language |
| Voices.FindNamed | pwa/app.js:119 | finds the first voice whose URI or name is the given identifier, or reports that none is |
| Voices.FindSpeaking | pwa/app.js:123 | finds the first voice that speaks the language, or reports that none does |
| Voices.ChooseVoice | pwa/app.js:116-127 | no voices: none. Else the first voice named by a non-empty requested URI; else the first voice speaking the language; else the host default |
| Voices.SelectedVoiceIsChosen | pwa/app.js:108-127 | when the selection the picker kept is non-empty, speaking with it chooses a listed voice named by that selection |
| Trainer.StartRound | pwa/app.js:180-187 | the round has exactly the clamped count of digits (1 to 24, the requested count when in range); each digit after the first is the injected draw for its position, and the first is its draw, or the replacement draw when a leading zero is not allowed; so there is no leading zero unless allowed; and its spoken text has the per-digit length and gives the digits back once separators are removed |

## Left out

- The promise plumbing of `event.waitUntil` and `event.respondWith`, and the
  real `fetch`: network results are inputs.
- The fire-and-forget ordering of the cache write on a miss, and concurrent
  fills of the same URL: the write is a state update that does not affect the
  returned response.
- A failing cache write (quota, storage unavailable) and a failing
  `caches.open`: the model's storage operations always succeed.
- `self.skipWaiting()` and `self.clients.claim()`: host control hand-off with
  no data behaviour.
- Cache API details of `addAll`: request-matching options, `Vary`, and
  non-GET asset requests. `AddAll` is all-or-nothing. It accepts
  non-error responses with status 200-299 other than 206.
- URL resolution: `./path` resolves to the base URL followed by `path`.
  Other relative forms are not resolved.
- `caches.match` keys on the URL string alone. Query or fragment handling is
  not modelled.
- A fetch that resolves to no response object (`!response`): `fetch` always
  yields a response or rejects, so the model has only those two outcomes.
- `console` logging.
- DOM lookup, event wiring and button state (app.js:10-19, 159-230).
  `resetRound` and the Reveal handler are also not modelled.
- `localStorage` persistence with JSON parsing (`loadSettings`,
  `saveSettings`).
- The speech calls in `speakText` and `listVoices`: speech synthesis is a
  browser API. The default voice is a parameter of `ChooseVoice`.
- Timing (`performance.now`, elapsed seconds, `toFixed`) and `parseFloat` of
  the rate: these are clocks and floating point.
- `Math.random`: it is replaced by injected digit draws.
- Digit strings are modelled as sequences of characters. `split('')` on
  UTF-16 code units is not modelled; every character involved is a single
  code unit.
- Voices.LangVoices: language matching lower-cases ASCII letters only, not
  full Unicode `toLowerCase`.
- Digits.ClampDigitCount: the clamp is modelled over an already parsed
  integer. The `NaN` that `parseInt` returns for non-numeric input is not
  modelled; it would propagate through `Math.min`/`Math.max`.
- Digits.RandomNDigitString: `n` is an integer. Non-integer or `NaN` counts
  are not modelled.
