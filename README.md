# url-shortener, modelled in Dafny

A model of the core of a small Flask URL shortener (SabiqHashil/url-shortener)
and proofs about it:

- `utils.py`:
  - the BASE62 alphabet;
  - `random_code`, with the random source given as a finite sequence of draws;
  - `normalize_url`, with the parts of Python's `str.strip`, the `^https?://` regular expression (case-insensitive) and `urllib.parse.urlparse` that decide its outcome.
- `models.py`: the `Link` record with its column defaults, and `is_expired`.
- `app.py`:
  - the link store, a class over a map from code to record;
  - creating a link through the HTML form or the JSON API, which share one `Shorten` method;
  - following a link (`resolve`);
  - looking one up (`stats`);
  - listing the ten newest (`home`).

Timestamps are whole seconds on one UTC clock. The current time is a parameter.

Files:

| file | content |
|---|---|
| `wrappers.dfy` | `Option` and `Result` |
| `pystr.dfy` | `str.isspace`, `str.strip`, ASCII `str.isalnum`, `int(str)` and `str(int)` |
| `utils.dfy` | BASE62, `random_code`, the scheme test, the netloc of `urlparse`, `normalize_url` |
| `models.dfy` | `Link`, `is_expired` |
| `app.dfy` | request decoding, code choice, the store invariant, the `LinkStore` class |

The functions that model the source's own code, which the lemmas below are about:

| function | source | models |
|---|---|---|
| `PyStr.Strip` | utils.py:13 | `str.strip()` |
| `PyStr.ParseInt` | app.py:66 | `int(str)` |
| `Utils.RandomCode` | utils.py:6-7 | `random_code` |
| `Utils.HasHttpPrefix` | utils.py:10, utils.py:14 | the match of `^https?://`, ignoring case |
| `Utils.UrlNetloc` | utils.py:16-17 | `urlparse(url).netloc` |
| `Utils.NormalizeUrl` | utils.py:12-19 | `normalize_url`, with `None` for the ValueError |
| `Models.NewLink` | models.py:10-14 | a new `Link` with its column defaults |
| `Models.IsExpired` | models.py:16-17 | `is_expired` |
| `App.Get` | app.py:94, app.py:98, app.py:110 | `data.get(key, default)` |
| `App.IsValidCode` | app.py:49, app.py:100 | the custom-code check |
| `App.FormCodeRequest` | app.py:39, app.py:48 | the form's code field |
| `App.ApiCodeRequest` | app.py:98-101 | the JSON `code` |
| `App.FormExpiry` | app.py:63-70 | the form's expiry |
| `App.ApiExpiry` | app.py:109-112 | the JSON expiry |
| `App.Candidates`, `App.FirstFree` | app.py:57-60 | the codes the collision loop tries, and the one it keeps |
| `App.PlanShorten` | app.py:41-75 | the outcome of creating a link, shared by both routes |
| `App.ResolveOutcomeOf` | app.py:126-134 | the outcome of following a link |
| `App.CountClick` | app.py:132 | the click counted by a redirect |

The store invariant (`App.ValidLinks`):
- every record is filed under its own code;
- that code is 1 to 16 ASCII letters and digits;
- codes are unique because they are the map's keys.

Every state change is growth (`App.Grows`): no record disappears, and only click counts change, upwards.

### Where the code and its description differ

The model follows the code in each case.

- A fractional expiry such as 0.5 hours does not give a link that lives 30 minutes.
  - In the JSON route, `int(0.5)` is 0, so `expires_at` equals the creation time and the link is expired from the start (`App.ApiExpiryFraction`).
  - In the form route, `int("0.5")` raises, so the link gets no expiry at all.
- A falsy JSON `code` (`""`, `0`, `false`, `null`, `[]`, `{}`) means "generate one".
- A JSON code is not stripped, so `" abc"` is rejected as invalid.
- A truthy JSON code that is a number or `true` makes `len(code)` raise TypeError. That is an HTTP 500, modelled as `ServerError`.
- A non-empty JSON array or object is rejected as an invalid code.
- In the JSON route, `true` is an integer and sets a one-hour expiry.

## Model

| member | source | states |
|---|---|---|
| PyStr.TrimStart | utils.py:13 | the result is a suffix of the input; everything cut from the front is whitespace; the result does not start with whitespace |
| PyStr.TrimEnd | utils.py:13 | the result is a prefix of the input; everything cut from the back is whitespace; the result does not end with whitespace |
| PyStr.StripSlice | utils.py:13 | `strip()` returns a contiguous slice of its input with no whitespace at either end; everything outside the slice is whitespace |
| PyStr.StripIdempotent | utils.py:13 | stripping twice is stripping once |
| PyStr.StripPadded | utils.py:13 | whitespace added around a non-empty stripped string is exactly what `strip()` removes |
| PyStr.ParseInt | app.py:66 | `int()` succeeds only on text that is not blank |
| PyStr.ParseIntIff | app.py:66 | `int()` accepts a string exactly when, stripped, it is an optional `+` or `-`, then some zeros, then the decimal spelling of a natural number |
| PyStr.ParseIntValue | app.py:66 | such a string reads as that number, negated after a `-` |
| PyStr.ParseIntZeros | app.py:66 | `int("007")` is 7 |
| PyStr.ParseIntPlus | app.py:66 | `int("+5")` is 5 |
| PyStr.ParseIntMinusZero | app.py:66 | `int("-0")` is 0 |
| PyStr.ParseIntRejects | app.py:66 | `int("1.5")` and `int("abc")` raise |
| PyStr.NatToString | app.py:66 | `str(n)` is a non-empty run of digits, without a leading zero, whose value is `n` |
| PyStr.LiteralRoundTrip | app.py:66 | `str(i)` has nothing to strip and reads back as `i` |
| PyStr.ParseIntRoundTrip | app.py:66 | `int(str(i)) == i`, also with whitespace on either side |
| Utils.Base62Spelled | utils.py:4 | BASE62 has 62 characters: digits, then lower-case letters, then upper-case letters |
| Utils.Base62Alphabet | utils.py:4 | a character is in BASE62 exactly when it is an ASCII letter or digit, and it sits at one position only |
| Utils.RandomCode | utils.py:6-7 | `random_code(n)` has length `n` and every character is in BASE62 |
| Utils.RandomCodeIsAlnum | utils.py:6-7 | a random code of positive length passes `isalnum()` |
| Utils.RandomCodeDraws | utils.py:6-7 | each alphanumeric string of length `n` comes from exactly one sequence of draws |
| Utils.SchemePrefixLength | utils.py:10 | the length of an ASCII `http://` or `https://` prefix in any letter case: 0, 7 or 8, never past the end |
| Utils.LongSPrefix | utils.py:10 | the only prefixes the case-insensitive pattern accepts beyond the ASCII ones are "http" followed by U+017F and "://" |
| Utils.TakeNetloc | utils.py:16 | the netloc ends at the first '/', '?' or '#', or at the end of the input |
| Utils.NetlocAfterScheme | utils.py:16 | after an ASCII http(s) prefix, the netloc is the host part of the remainder |
| Utils.PrefixedNetloc | utils.py:15-16 | once "http://" is prepended, the netloc is the host part of the original text |
| Utils.NetlocAfterLongS | utils.py:14-18 | a prefix accepted only thanks to the long s leaves no netloc |
| Utils.NormalizeUrlKeepsScheme | utils.py:13-19 | a stripped input with an http(s) scheme is returned unchanged, or rejected when its host part is empty |
| Utils.NormalizeUrlAddsScheme | utils.py:13-19 | a stripped input without a scheme gets "http://" in front, or is rejected when its host part is empty |
| Utils.NormalizeUrlRejectsLongS | utils.py:14-18 | an input whose scheme is spelled with the long s is rejected |
| Utils.NormalizeUrlRejectsBlank | utils.py:13-18 | empty and all-whitespace inputs are rejected |
| Utils.NormalizeUrlRejectsBareScheme | utils.py:16-18 | a scheme with nothing after it, such as "https://", is rejected |
| Utils.NormalizeUrlWellFormed | utils.py:13-19 | a result has no surrounding whitespace, starts with `http://` or `https://` and has a non-empty host part |
| Utils.NormalizeUrlIgnoresPadding | utils.py:13 | surrounding whitespace never changes the outcome |
| Utils.NormalizeUrlIdempotent | utils.py:12-19 | normalising a normalised URL returns it unchanged |
| Utils.NormalizeUrlBareHost | utils.py:14-15 | a bare host name, with or without whitespace around it, becomes "http://" + host |
| Models.NewLink | models.py:10-14 | a new record has the given code, URL and expiry, `created_at` is the current time and `clicks` is 0 |
| Models.ExpiryBoundary | models.py:16-17 | a link without an expiry is never expired; otherwise it is expired exactly from `expires_at` on, that instant included |
| Models.ExpiryMonotone | models.py:16-17 | once expired, a link stays expired at every later time |
| Models.ExpiryIgnoresClicks | models.py:16-17 | the click count has no bearing on expiry |
| App.ValidCodeExamples | app.py:49 | "promo1" is an acceptable custom code; "", "promo-1", "promo 1" and a 17-character code are not |
| App.FormCodeRequest | app.py:39 | the form's code field asks for generation exactly when it strips to empty, and otherwise for the stripped code |
| App.Get | app.py:94-110 | `data.get(key, default)` is the default exactly when no member is named `key`; otherwise it is the value of the last member named `key` |
| App.ApiCodeRequest | app.py:98-101 | the JSON code asks for generation exactly when it is falsy; for a custom code exactly when it is a non-empty string, taken unstripped; it is a collection exactly when it is a non-empty array or object; and it is a number exactly when it is `true` or a non-zero number |
| App.FormExpiryIff | app.py:63-70 | the form sets an expiry exactly when `int()` of the field is positive, and then sets it that many hours after now |
| App.FormExpiryLeadTime | app.py:66-68 | a form expiry is at least one hour after creation |
| App.FormExpiryHours | app.py:64-68 | typing `h` hours, with any whitespace around it, gives `now + h` hours when `h > 0` and no expiry otherwise |
| App.ApiExpiryIff | app.py:109-112 | the JSON route sets an expiry exactly for `true`, a positive integer or a positive real: one hour for `true`, `h` hours for an integer `h`, and for a real the whole number of hours it truncates to |
| App.ApiExpiryLeadTime | app.py:109-112 | a JSON expiry is a whole number of hours from now and never in the past; for an integer or `true` it is at least an hour ahead |
| App.ApiExpiryFraction | app.py:111-112 | a JSON expiry between 0 and 1 hours expires the link at its creation instant |
| App.Candidates | app.py:58-60 | the random source yields one candidate per seven draws, each a valid seven-character code |
| App.FirstFree | app.py:59-60 | a code found by the search is free and was one of the candidates |
| App.FirstFreeExhausted | app.py:59-60 | the search fails exactly when every candidate is taken |
| App.FirstFreeIsFirst | app.py:59-60 | the search returns the earliest free candidate |
| App.ShortenCreates | app.py:41-75 | a created link has a code not in the store that passes the custom-code check, the normalised URL, no clicks, and the given creation time and expiry; a custom request gets its own code, a generated one the first free candidate |
| App.ShortenFails | app.py:41-60 | the URL is checked first; then a custom code fails exactly when invalid or taken; generation fails exactly when all candidates are taken; a JSON collection code is invalid and a JSON number code is a server error |
| App.ShortenSucceeds | app.py:41-75 | a usable URL with a valid custom code not in the store, or with a free candidate among the draws, creates a link |
| App.CustomCodeOnce | app.py:52-54 | after a custom code is used, asking for it again is refused as taken |
| App.InsertKeepsInvariant | app.py:73-75 | filing a new record under a fresh valid code keeps the invariant, adds exactly one record and changes no other |
| App.GrowsTransitive | app.py:132 | growth, where records persist and only clicks rise, composes over successive operations |
| App.ResolveOutcomeOf | app.py:126-134 | not found exactly for unknown codes, expired exactly for expired records, otherwise a redirect to the stored URL |
| App.CountClickGrows | app.py:132-133 | a click raises that record's count by exactly one, keeps the invariant and leaves every other record unchanged |
| App.ExpiredStaysExpired | app.py:129-131 | a code that resolves as expired does so at every later time in every later state of the store |
| App.CreatedLinkRedirects | app.py:126-134 | a newly created link redirects to the normalised URL until its expiry |
| App.NewestExists | app.py:33 | every non-empty set of codes has a newest record |
| App.SelectNext | app.py:33 | appending the newest remaining record keeps the list newest first, distinct and no older than anything left |
| App.SelectionListsNewest | app.py:33 | the finished list holds stored records with distinct codes, and nothing left out is newer than anything listed |
| App.LinkStore.constructor | app.py:18-19 | a fresh database holds no links |
| App.LinkStore.AllocateCode | app.py:57-60 | the collision loop returns the first candidate not in the store, or nothing when the random source runs out |
| App.LinkStore.Shorten | app.py:41-75 | the outcome is the planned one; on success exactly that record is added, otherwise the store is unchanged; the invariant holds and the store only grows |
| App.LinkStore.ShortenForm | app.py:36-78 | the form route is Shorten on the stripped code field and the form's expiry |
| App.LinkStore.ShortenApi | app.py:90-121 | a body that is not an object, or a `url` that is not a string, is an invalid URL; otherwise the route is Shorten on the raw code and the JSON expiry |
| App.LinkStore.Resolve | app.py:124-134 | the outcome is ResolveOutcomeOf; only a redirect changes the store, by one click on that record |
| App.LinkStore.Lookup | app.py:80-83 | the record filed under the code, or nothing (404) exactly when there is none |
| App.LinkStore.RecentLinks | app.py:31-34 | min(10, number of links) distinct stored records, newest first, none left out newer than one listed |

## Left out

- Flask and SQLAlchemy plumbing:
  - routing, templates, flash messages, redirects and `url_for`;
  - the 404 handler, `GET /api/shorten`, the app factory and configuration;
  - sessions and commits;
  - the `localtime` template filter.
  The routes' outcomes are modelled as `ShortenError`, `ResolveOutcome` and `Option` values.
- Concurrency: the model is single-threaded. Two requests racing for the same code, which the source's check-then-insert does not prevent, are not modelled.
- Randomness: `secrets.choice` is a sequence of draws in [0, 62). The source's collision loop has no bound. The model runs it over a finite sequence and reports `CodeSpaceExhausted` when the draws run out.
- JSON decoding: the API takes the decoded body.
  - Malformed JSON, which `get_json(silent=True)` turns into `{}`, behaves like `JNull`.
  - NaN and the infinities are not representable.
  - JSON numbers are split into integers and reals.
- Date range: a `timedelta` or `datetime` past year 9999 raises OverflowError in the source. The model has unbounded integers, so very large expiry hours succeed.
- `created_at` is set at commit, slightly after `utcnow()` is read for the expiry. The model uses one `now` for both.
- PyStr.IsAlnum: ASCII only. Python's `str.isalnum` also accepts non-ASCII letters and digits (e.g. "café"), so the model rejects some custom codes the source accepts.
- PyStr.ParseInt: `int()` also accepts underscores between digits ("1_000") and non-ASCII decimal digits. The model reads those as not an integer, so no expiry is set.
- Utils.UrlNetloc: `urlsplit` also raises ValueError in two cases that are not modelled:
  - for unbalanced or invalid bracketed IPv6 hosts;
  - for non-ASCII netlocs that change meaning under NFKC normalisation.
  The model accepts those URLs.
- Utils.FoldsTo: of Python's case-insensitive matching, only what matters for the pattern `^https?://` is modelled: ASCII case and the long s (U+017F), which folds to 's'. Python's `re` has no other characters that fold to 'h', 't' or 'p', so nothing else matters there.
