# Ko Share core in Dafny

Ko Share is a small check-in web app. The page takes a photo, pins a GPS
position, names the place and posts the check-in to a Google Apps Script
backend. The backend keeps two spreadsheet tabs:

- `CheckIns`: `id | locationName | latitude | longitude | timestamp | description`;
- `Stats`: `key | value`, which holds the `visitCount` row.

A service worker keeps the app shell available offline.

This project models three parts:

- The backend actions, as pure transitions `(spreadsheet, request) -> (spreadsheet', response)`. They are `ensureSheets`, `getStats`, `incrementVisitCount`, `saveCheckIn`, `getCheckIns` and the `handleRequest` dispatcher. A tab is a sequence of rows of cells. `getDataRange().getValues()` is that sequence padded to the widest row.
- The client's pure rules. These are `capitalize`, the hash-to-page rule, the two form guards, the image file name, the home gallery slice, the map-marker filter and the share counter.
- The service worker's cache policy. It covers install, activation pruning, and fetch routing and caching. The network outcome is an input.

The JavaScript library behaviour these rules depend on is written out in the model:

- `trim` and `\s` whitespace;
- `parseInt`;
- `Number(string)`;
- `String(n)`;
- `toUpperCase` of one character;
- `replace` of the first `#`;
- `||` defaults;
- the last-key-wins object literal that `getCheckIns` builds.

Modules:

- `Options` and `Seqs`: helpers.
- `JsText`: whitespace, `trim`, `parseInt` and `String(n)`.
- `JsNumber`: `Number(string)`.
- `Sheets`: cells, rows, padding, `appendRow` and `setValue`.
- `Backend` and `BackendProperties`: `gas-backend.js`.
- `Client`: `app.js`.
- `ServiceWorker` and `CachePolicy`: `sw.js`.
- `EndToEnd`: the page and the backend together.

## Model

| member | source | states |
|---|---|---|
| Backend.EnsureSheets | gas-backend.js:18-35 | Each tab is created only when it is missing: `CheckIns` with its six-column header, and `Stats` with `key,value` and `visitCount,0`. A tab that exists is kept as it is. |
| BackendProperties.EnsureSheetsIdempotent | gas-backend.js:21-32 | Creating the tabs twice is the same as creating them once, and it changes nothing once both tabs exist. |
| BackendProperties.EnsureSheetsWellFormed | gas-backend.js:21-32 | A freshly created tab already has the shape every request keeps: the header first, and at most one counter row. |
| Backend.GetStats | gas-backend.js:78-98 | `getStats` only creates missing tabs and changes nothing else. It succeeds, and `totalLocations` is `max(0, lastRow - 1)`. |
| BackendProperties.GetStatsReadsLastVisitRow | gas-backend.js:81-87 | The reported count is `parseInt(..) \|\| 0` of the LAST `visitCount` row below the header, because the loop does not stop at the first one. It is 0 when there is no such row. |
| BackendProperties.VisitScanFindsLast | gas-backend.js:83-87 | The scan loop ends with the value of the last matching row, whatever it held before that row. |
| Backend.FirstVisitRow | gas-backend.js:104-110 | The row `incrementVisitCount` picks is a `visitCount` row with no such row before it, and it is absent only when no row below the header matches. |
| Backend.IncrementVisitCount | gas-backend.js:100-114 | `incrementVisitCount` never touches `CheckIns` and always answers with a visit count. |
| BackendProperties.IncrementUpdatesFirstVisitRow | gas-backend.js:103-108 | Column 2 of the FIRST `visitCount` row becomes its parsed value plus one, and that value is returned. No other cell of either tab changes, and the row count stays the same. |
| BackendProperties.IncrementAppendsMissingVisitRow | gas-backend.js:112-113 | With no `visitCount` row, the row `visitCount,1` is appended and 1 is returned. |
| BackendProperties.IncrementKeepsWellFormed | gas-backend.js:100-114 | Incrementing keeps the `Stats` tab to at most one counter row. |
| BackendProperties.StatsSeeIncrement | gas-backend.js:81-87 | On a well-formed spreadsheet, `getStats` reads back exactly the count `incrementVisitCount` returned. This holds although one scans for the last row and the other for the first. |
| BackendProperties.DuplicateVisitRowsDisagree | gas-backend.js:83-86 | With two `visitCount` rows (5 then 9), `getStats` says 9 and `incrementVisitCount` returns 6. After the increment, `getStats` still says 9. |
| Backend.SaveCheckIn | gas-backend.js:116-142 | On an object body, exactly one row is appended, every earlier row including the header is unchanged, and `Stats` is untouched. The response echoes the raw fields and the defaulted description. A `null` body fails with the TypeError for `locationName`, after the tabs are created. |
| Backend.CheckInRow | gas-backend.js:122-129 | The appended row has exactly the six header columns. |
| Backend.OrDefaultFallsBack | gas-backend.js:124-128 | `v \|\| d` is `d` exactly for the five falsy values `undefined`, `null`, `false`, `0` and `''`; any other value is stored as sent. |
| Backend.GetCheckIns | gas-backend.js:144-163 | `getCheckIns` succeeds, creates missing tabs only, and returns exactly one object per row below the header. |
| Backend.SheetRecords | gas-backend.js:147-157 | Object k pairs each header cell with the cell below it in row k+1, padded to the widest row. |
| BackendProperties.GetCheckInsNewestFirst | gas-backend.js:151-161 | Item k of the reversed list is the row k places above the last one, keyed by the header row. |
| BackendProperties.LookupFindsLastMatch | gas-backend.js:153-155 | Reading a property of the built object yields the cell under the LAST header with that name, because later assignments overwrite earlier ones. |
| BackendProperties.HeaderLookup | gas-backend.js:8 | Under the standard header, the property named by a column yields that column's cell, because the six header names are distinct. |
| BackendProperties.SaveThenListRoundTrip | gas-backend.js:122-129 | Right after `saveCheckIn` returns id X, the first item `getCheckIns` lists has id X. Its name, coordinates, timestamp and description are the stored, defaulted values. |
| Backend.Lookup | gas-backend.js:152-155 | A property is present iff some header cell names it. |
| Backend.HandleRequest | gas-backend.js:45-76 | `getStats`, `incrementVisit` and `getCheckIns` run their action, and `saveCheckIn` with a parsed body runs `saveCheckIn` on it. A missing or unknown action fails with `Unknown action` and changes nothing. A response fails iff the action is unknown or `saveCheckIn` has no object body. A `saveCheckIn` whose body is missing or is not JSON fails before any tab is created. Every error message is non-empty, and every success leaves both tabs present. |
| BackendProperties.RequestKeepsWellFormed | gas-backend.js:45-76 | Every request, whatever its action or body, keeps the `CheckIns` header in row 1 and at most one counter row in `Stats`. |
| Sheets.Values | gas-backend.js:81 | `getValues()` of a tab is a rectangle as wide as its widest row (at least 1), cell for cell equal to the tab. An empty tab reads as one blank cell. |
| Sheets.SetValue | gas-backend.js:107 | `getRange(i+1, 2).setValue(v)` changes exactly that cell and keeps every other row and every other cell of the row. |
| Sheets.AppendRow | gas-backend.js:112 | `appendRow` adds one row after the last one. |
| JsText.Trim | app.js:225 | `trim()` leaves no white space at either end. The result is empty iff the text is all white space. It is the text without its leading white space, cut where only white space follows. |
| JsText.ParseIntNeedsDigit | gas-backend.js:85 | `parseInt` is NaN when no decimal digit follows the white space and the sign. |
| JsText.ParseIntOfNonNumeral | app.js:20 | A text starting with anything but white space, a sign or a digit parses to NaN. |
| JsText.ParseIntOfIntToString | app.js:20 | `parseInt(String(n)) == n` for every integer n. |
| JsText.ParseIntSkipsLeadingSpace | gas-backend.js:85 | Leading white space does not change what `parseInt` reads. |
| JsText.NatToString | app.js:401 | `String(n)` of a natural number is a non-empty string of decimal digits whose value is n, with no leading zero unless n is 0. |
| JsNumber.StringToNumberOfNumeral | app.js:577-578 | `Number` of a decimal numeral is its value. |
| JsNumber.NoDigitsIsNaN | app.js:577-579 | `Number` of non-blank text without any digit or letter is NaN. |
| JsNumber.StringToNumber | app.js:577-578 | `Number` of blank text is 0. |
| JsNumber.StringToNumberOfDecimal | app.js:577-578 | `Number` of an optionally signed decimal with a point, such as `-16.25`, `3.` or `.5`, is the value of its digits, negated after `-`. |
| JsNumber.StringToNumberOfInteger | app.js:577-578 | `Number` of an optionally signed string of digits is its value, negated after `-`. |
| JsNumber.NegativeDecimalExample | app.js:577-578 | `Number("-16.25")` is -16.25. |
| Client.Capitalize | app.js:92-94 | Only the first character changes and the rest is kept, and `capitalize("") == ""`. Within the letters the model covers, only `ß` lengthens the text. |
| Client.CapitalizeAscii | app.js:92-94 | On a text starting with an ASCII character, a lower-case letter becomes its capital and the length is kept. The text comes back unchanged exactly when the first character is not a lower-case letter. |
| Client.PageElementIdOfLowerCase | app.js:67 | A page whose name starts with a lower-case ASCII letter is shown by the element `page` + that letter upper-cased + the rest of the name. |
| Client.MapPageElement | app.js:67 | The `map` page is shown by the element `pageMap`. |
| Client.RemoveFirst | app.js:50 | `replace('#', '')` drops only the first `#`, and it is the identity when there is none. |
| Client.PageFromHash | app.js:50 | The page is the hash without its leading `#`, and `home` when that leaves nothing. It is never empty. |
| Client.LoadShowsHashPage | app.js:49-58 | Starting on `home`, the page shown after load is the one the fragment names, as a `hashchange` to that fragment would show. The map is scheduled iff that page is `map`. |
| Client.Navigate | app.js:62-90 | After `navigateTo`, the current page is the page given and the element shown is its page id. The hash changes only when asked, and then it reads back as the browser's `location.hash` setter leaves it: one leading `#` of the page is dropped, and an empty fragment reads as `''`. The map is scheduled iff the page is `map`. |
| Client.NavigateHashRoundTrip | app.js:50 | A page pushed to the hash reads back as the same page when it does not start with `#`. A page written with a leading `#` reads back without it, and `#` alone reads back as `home`. |
| Client.SaveToMap | app.js:406-426 | A request is sent iff both coordinates are present and the trimmed name is non-empty. A missing coordinate is reported first. The payload carries the trimmed name, both coordinates and the trimmed description. |
| Client.GenerateImage | app.js:215-229 | The guards run in order: photo, then both coordinates, then a non-blank name. Each failure is reported only when the earlier guards pass, and a composed image carries the trimmed name. |
| Client.ComposeAgreesWithSave | app.js:217-229 | Given a photo, the image composer and `saveToMap` accept and reject exactly the same inputs. |
| Client.CollapseSpaces | app.js:319 | `replace(/\s+/g, '_')` leaves no white space, never lengthens the text, is the identity on text without white space, and keeps every other character in order. |
| Client.CollapseConcat | app.js:319 | Collapsing works piece by piece: the second piece continues in the state the first ended in. |
| Client.CollapseRun | app.js:319 | A non-empty run of white space becomes exactly one `_`, or nothing when it continues a run. |
| Client.CollapseOneRun | app.js:319 | One maximal run of white space between two pieces becomes exactly one `_` between the collapsed pieces. |
| Client.CollapseJoinsWords | app.js:319 | Two words without white space, separated by white space, are joined by exactly one `_`. |
| Client.ImageFileName | app.js:316-319 | The file name is `KoShare_`, a middle part and `.png`. The middle has no white space and keeps every other character of the trimmed name in order, or of the fallback when the trimmed name is empty. |
| Client.DownloadFileName | app.js:316-319 | An empty trimmed name gives `KoShare_location.png`. |
| Client.DownloadFileNameJoinsWords | app.js:316-319 | Two words with white space around and between them are saved as `KoShare_<first>_<second>.png`. |
| Client.DownloadFileNameExample | app.js:316-319 | `"  Wat  Pho "` is saved as `KoShare_Wat_Pho.png`. |
| Client.ShareFileName | app.js:334-340 | The share file name, with the Thai fallback, has no white space. |
| Client.ShareFileNameJoinsWords | app.js:334-340 | The shared file is named by the same rule: two words become `KoShare_<first>_<second>.png`. |
| Client.HomeGallery | app.js:482-495 | The empty state is shown iff there are no check-ins. Otherwise the first `min(5, n)` check-ins are shown, in the order received. |
| Client.MarkerPoints | app.js:571-592 | There is one point per check-in whose coordinates are both numbers and not both 0, in list order: such a check-in's point comes right after the points of the marked check-ins before it. Every point placed is such a check-in's coordinate pair. |
| EndToEnd.MarkerOfNumbers | app.js:577-579 | A check-in whose coordinates are numbers gets a marker iff it is not at exactly (0, 0). |
| Client.LoadShareCountAsWritten | app.js:20 | With nothing stored, the counter starts at 0. |
| Client.LoadShareCountAsWrittenReadsBack | app.js:20 | A stored `String(m)` loads as the count m. |
| Client.IncrementShareCountAsWrittenPersists | app.js:399-401 | As written, a share stores text that reloads as the counter it leaves: one more than before, or NaN again once it is NaN. |
| Client.ShareCountStuckAtNaN | app.js:20 | A stored `abc` loads as NaN, and sharing then stores `NaN`, which loads as NaN again. |
| Client.LoadShareCount | app.js:20 | With nothing stored, the corrected counter starts at 0. |
| Client.LoadShareCountReadsBack | app.js:399-401 | A stored `String(m)` loads back as m. |
| Client.IncrementShareCountPersists | app.js:399-401 | A share raises the counter by exactly one, and the stored text reloads as the new count. |
| ServiceWorker.Activate | sw.js:33-40 | Activation keeps exactly the caches named `koshare-v5` and deletes every other one. |
| CachePolicy.ActivateKeepsCurrentCache | sw.js:35-37 | After activation at most one cache is left. It is the current cache, untouched, when that cache existed. |
| CachePolicy.ActivateIdempotent | sw.js:35-37 | Activating twice is the same as activating once. |
| ServiceWorker.Open | sw.js:23 | `caches.open` creates the named cache, last, only when it is missing. It keeps the existing caches and keeps names distinct. |
| ServiceWorker.Put | sw.js:63 | `cache.put` sets one entry of one cache and changes nothing else: every other cache, even one with the same name, is kept as it was. |
| ServiceWorker.Match | sw.js:59 | `caches.match` answers iff the request is a GET and some cache holds the URL. The answer is the entry of the first such cache in creation order. |
| ServiceWorker.Fetch | sw.js:43-71 | API requests leave the caches alone, and the reply is the network's or the synthetic offline JSON. Elsewhere a cached entry is the reply; without one, the reply is the network's, or a network error. Storage changes only on a status-200 network response. |
| CachePolicy.FetchKeepsOtherEntries | sw.js:43-71 | A fetch changes at most the fetched URL's entry in the current cache. Every cache keeps its place and name, and every other entry of every cache is kept. |
| CachePolicy.ReplayKeepsEntry | sw.js:43-71 | Any series of fetches of other URLs keeps a cached entry, with the same value, in the same cache. |
| CachePolicy.ApiTrafficNeverCached | sw.js:47-55 | Any series of requests to `script.google.com` leaves every cache as it was. |
| CachePolicy.RevalidatedPageServedOffline | sw.js:58-68 | After a status-200 fetch of a page, an offline fetch of it serves that response, unless an older cache shadows it. |
| CachePolicy.ActivatedPageServedOffline | sw.js:33-68 | The same holds right after activation, when no older cache is left. |
| ServiceWorker.AddAll | sw.js:24 | `addAll` stores every URL iff every response is ok (status 200 to 299) and none is partial (206), and otherwise stores nothing. Each URL gets its own response, and other entries are kept. |
| ServiceWorker.PartialResponseRejected | sw.js:21-30 | A single partial (206) asset response makes install store nothing: the current cache is opened and left as it was. |
| ServiceWorker.Install | sw.js:21-30 | Install always leaves the current cache present. A failed `addAll` is swallowed and leaves only the opened cache, and no other cache changes. |
| CachePolicy.InstallStoresAsset | sw.js:21-30 | A full install puts each static asset, as downloaded, into the current cache. |
| CachePolicy.ActivatedEntryServedOffline | sw.js:33-68 | After activation, an entry of the current cache answers an offline GET of its URL. |
| CachePolicy.InstalledAssetServedOffline | sw.js:21-40 | When every static asset downloads, each asset is served offline after a later activation, exactly as it was downloaded. |
| CachePolicy.InstalledAssetSurvivesBrowsing | sw.js:21-71 | After a full install, then any series of fetches of other URLs (online or offline, API or not), then a later activation, each asset is still served offline exactly as it was downloaded. |
| EndToEnd.PayloadListedFirst | gas-backend.js:122-129 | What the page posts is what `getCheckIns` then lists first: the id, name, both coordinates and description as sent. |
| EndToEnd.SavedCheckInListedFirst | app.js:406-432 | A check-in accepted by `saveToMap` is listed first by the next `getCheckIns` and heads the home gallery. It gets a map marker iff it is not at exactly (0, 0). |

## Left out

- ServiceWorker.AddAll: a URL listed twice stores its last response, whereas the Cache API rejects a batch with duplicate requests and stores nothing. The asset list the worker installs has no duplicates (CachePolicy.StaticAssetsDistinct), so the case never arises there.

- The SpreadsheetApp and ContentService APIs are abstracted:
  - a tab is a sequence of rows;
  - `Utilities.getUuid()` and the ISO timestamp are inputs (`Env`);
  - the JSON text of responses is not produced.
- Google Sheets converts stored text that looks like a number or a date into one. This conversion is not modelled: a cell keeps the value written.
- Trailing blank rows are not modelled: `getLastRow()` is the number of rows.
- Spreadsheet API exceptions are not modelled. Examples are quota errors and a missing spreadsheet. The only thrown errors modelled are the missing body (`e.postData` undefined), the unparsable body (`SyntaxError`) and the `null` body.
- JSON parsing and serialisation are not modelled: a request body is already decoded, and a field is a scalar. Non-scalar fields (arrays and objects) are not modelled.
- Backend.CountValue: `parseInt` of a number cell is taken as its integer part. JavaScript writes numbers of magnitude 1e21 or more, and below 1e-6, in exponent notation, where `parseInt` reads only the leading digits. That case is not modelled, and neither is precision loss beyond 2^53.
- Client.UpperCase covers the ASCII and Latin-1 letters and the unaccented Greek and basic Cyrillic alphabets; everything else is unchanged. JavaScript also upper-cases accented Greek (`ά`), Latin Extended and other scripts, and lengthens `ŉ`, `ΐ`, `ΰ` and a few more letters as it does `ß`.
- JsText.NatToString: JavaScript writes numbers of 1e21 and above in exponent notation, and integers above 2^53 lose precision, so `shareCount++` stops changing there. The model writes every integer in full decimal and counts without bound.
- DOM, Leaflet maps, QR codes, canvas rendering, file readers, geolocation, the Web Share API, toasts and the loading overlay are browser I/O and are left out.
- `escapeHtml` and `formatDate` depend on the DOM and the locale, and are left out.
- `loadCheckIns` and the client's `incrementVisitCount` only copy backend results into the page. They are left out.
- Coordinates are exact reals, so floating-point rounding, `toFixed` and the NaN of a coordinate are not modelled. On the map side, only `Number` of the listed cells is modelled.
- URL parsing is left out. A service-worker request carries its host name and URL as given. Relative asset URLs are not resolved, and the fragment is not percent-encoded.
- In the service worker, promises and timing are not modelled. The background revalidation of a fetch is folded into the resulting storage. Install outcomes are one network result per asset.
- Concurrent requests to the backend are not modelled: each request runs to completion.

## Findings

| source | as written | input that shows it | evidently intended | confidence | as-written member | corrected member |
|---|---|---|---|---|---|---|
| app.js:20 | the share counter loads as `parseInt(stored \|\| '0')`, with no `\|\| 0` after it | a stored `koShareCount` of `abc` loads as NaN; every share then stores `NaN`, so the counter never recovers | a value that does not parse counts as 0, as the backend's visit counter does with `parseInt(..) \|\| 0` | low, not executed | Client.LoadShareCountAsWritten, Client.ShareCountStuckAtNaN | Client.LoadShareCount, Client.IncrementShareCountPersists |
