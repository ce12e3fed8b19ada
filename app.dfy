/** app.py: creating short links (the form route `shorten` and the JSON
    route `api_shorten`, which share one core), following them (`resolve`),
    showing one (`stats`) and listing the newest (`home`). The database is
    the map `LinkStore.links` from code to record; the clock and the random
    source are parameters. */
module App {
  import opened Wrappers
  import opened PyStr
  import opened Utils
  import opened Models

  /** Seconds in one hour. */
  const HOUR: nat := 3600

  /** How many links the home page lists at most. */
  const RECENT_LIMIT: nat := 10

  /** Why a link was not created. */
  datatype ShortenError =
    | InvalidUrl          // "Please enter a valid URL." / 400 "Invalid URL"
    | InvalidCode         // "Custom code must be alphanumeric and ≤ 16 chars." / 400 "Invalid custom code"
    | CodeTaken           // "That custom code is already taken." / 409 "Code already exists"
    | CodeSpaceExhausted  // every code the random source offered was taken
    | ServerError         // an uncaught TypeError: HTTP 500

  /** What a request asks for as its code. */
  datatype CodeRequest =
    | AutoCode            // no code, or a blank one: generate one
    | CustomCode(code: string)
    | CollectionCode      // a non-empty JSON array or object: `str(code)` is never alphanumeric
    | NumberCode          // a non-zero JSON number or `true`: `len(code)` raises TypeError

  /** What following a short link does. */
  datatype ResolveOutcome =
    | NotFound                  // abort(404)
    | Expired                   // "This short link has expired."
    | Redirect(target: string)  // redirect(link.original_url, code=302)

  /** A decoded JSON value as `request.get_json()` hands it over; an absent
      member reads as JNull, as `data.get(...)` gives None. */
  datatype Json =
    | JNull
    | JBool(b: bool)
    | JInt(i: int)
    | JFloat(x: real)
    | JString(s: string)
    | JArray(items: seq<Json>)
    | JObject(members: seq<(string, Json)>)

  /** `data.get(key, default)` on a decoded object: the value of the last
      member named `key`, as `json.loads` keeps the last of duplicates. */
  function Get(members: seq<(string, Json)>, key: string, default: Json): (v: Json)
    ensures (forall i :: 0 <= i < |members| ==> members[i].0 != key) ==> v == default
    ensures (exists i :: 0 <= i < |members| && members[i].0 == key) ==>
      exists i :: 0 <= i < |members| && members[i] == (key, v) &&
        forall j :: i < j < |members| ==> members[j].0 != key
  {
    if members == [] then default
    else
      var last := |members| - 1;
      if members[last].0 == key then
        assert members[last] == (key, members[last].1);
        members[last].1
      else
        var front := members[..last];
        assert forall i :: 0 <= i < last ==> front[i] == members[i];
        Get(front, key, default)
  }

  /** Python truthiness, `bool(v)`. */
  predicate Truthy(v: Json) {
    match v
    case JNull => false
    case JBool(b) => b
    case JInt(i) => i != 0
    case JFloat(x) => x != 0.0
    case JString(s) => s != []
    case JArray(items) => items != []
    case JObject(members) => members != []
  }

  /** A custom code the shorten routes accept: at most 16 characters, all of
      them letters or digits, and at least one. */
  predicate IsValidCode(code: string) {
    |code| <= MAX_CODE_LENGTH && IsAlnum(code)
  }

  /** Examples: a short alphanumeric code passes; the empty code, codes with a
      hyphen or a space, and a 17-character code do not. */
  lemma ValidCodeExamples()
    ensures IsValidCode("promo1")
    ensures !IsValidCode("")
    ensures !IsValidCode("promo-1") && !IsValidCode("promo 1")
    ensures !IsValidCode("abcdefghijklmnopq")
  {
    assert "promo-1"[5] == '-';
    assert "promo 1"[5] == ' ';
    assert |"abcdefghijklmnopq"| == 17;
  }

  // ---------------------------------------------------------------------
  // The two front ends: reading the code and the expiry
  // ---------------------------------------------------------------------

  /** The form's `custom_code` field: stripped, and blank means generate one. */
  function FormCodeRequest(field: string): (request: CodeRequest)
    ensures request == AutoCode || request == CustomCode(Strip(field))
    ensures request == AutoCode <==> Strip(field) == []
  {
    var custom := Strip(field);
    if custom == [] then AutoCode else CustomCode(custom)
  }

  /** The JSON `code` member: any falsy value means generate one; a string is
      taken as it is, without stripping. */
  function ApiCodeRequest(code: Json): (request: CodeRequest)
    ensures request == AutoCode <==> !Truthy(code)
    ensures request.CustomCode? <==> code.JString? && code.s != []
    ensures request.CustomCode? ==> request.code == code.s
    ensures request == CollectionCode <==> Truthy(code) && (code.JArray? || code.JObject?)
    ensures request == NumberCode <==> Truthy(code) && (code.JBool? || code.JInt? || code.JFloat?)
  {
    if !Truthy(code) then AutoCode
    else match code
      case JString(s) => CustomCode(s)
      case JArray(_) => CollectionCode
      case JObject(_) => CollectionCode
      case _ => NumberCode
  }

  /** The form's `expiry_hours` field: `now + h` hours when it strips to an
      integer literal `h > 0`; otherwise (blank, not an integer, zero or
      negative) no expiry, and never an error. */
  function FormExpiry(field: string, now: int): Option<int> {
    var text := Strip(field);
    if text == [] then None
    else match ParseInt(text)
      case Some(hours) => if hours > 0 then Some(now + hours * HOUR) else None
      case None => None
  }

  /** The form sets an expiry exactly when `int()` of the field is positive. */
  lemma FormExpiryIff(field: string, now: int)
    ensures FormExpiry(field, now).Some? <==> ParseInt(field).Some? && ParseInt(field).value > 0
    ensures FormExpiry(field, now).Some? ==> FormExpiry(field, now).value == now + ParseInt(field).value * HOUR
  {
    StripIdempotent(field);
  }

  /** An expiry set through the form lies at least an hour after creation. */
  lemma FormExpiryLeadTime(field: string, now: int)
    requires FormExpiry(field, now).Some?
    ensures FormExpiry(field, now).value >= now + HOUR
  {
  }

  /** Typing `h` hours, with or without whitespace around it, sets the
      expiry to `now + h` hours when `h > 0` and sets none otherwise. */
  lemma FormExpiryHours(before: string, hours: int, after: string, now: int)
    requires forall k :: 0 <= k < |before| ==> IsSpace(before[k])
    requires forall k :: 0 <= k < |after| ==> IsSpace(after[k])
    ensures FormExpiry(before + IntToString(hours) + after, now) ==
      if hours > 0 then Some(now + hours * HOUR) else None
  {
    ParseIntRoundTrip(before, hours, after);
    FormExpiryOfInt(before + IntToString(hours) + after, hours, now);
  }

  lemma FormExpiryOfInt(field: string, hours: int, now: int)
    requires ParseInt(field) == Some(hours)
    ensures FormExpiry(field, now) == if hours > 0 then Some(now + hours * HOUR) else None
  {
    FormExpiryIff(field, now);
  }

  /** The JSON `expiry_hours` member: `isinstance(hours, (int, float)) and
      hours > 0` admits `true` (a bool is an int, worth 1) and positive
      numbers; the offset is `int(hours)` hours, which truncates a fraction. */
  function ApiExpiry(hours: Json, now: int): Option<int> {
    match hours
    case JBool(b) => if b then Some(now + HOUR) else None
    case JInt(h) => if h > 0 then Some(now + h * HOUR) else None
    case JFloat(x) => if x > 0.0 then Some(now + x.Floor * HOUR) else None
    case _ => None
  }

  /** The JSON route sets an expiry exactly for `true` and for positive
      numbers: one hour for `true`, `h` hours for an integer `h`, and for a
      real the whole number of hours it truncates to. */
  lemma ApiExpiryIff(hours: Json, now: int)
    ensures ApiExpiry(hours, now).Some? <==>
      hours == JBool(true) || (hours.JInt? && hours.i > 0) || (hours.JFloat? && hours.x > 0.0)
    ensures hours == JBool(true) ==> ApiExpiry(hours, now) == Some(now + HOUR)
    ensures hours.JInt? && hours.i > 0 ==> ApiExpiry(hours, now) == Some(now + hours.i * HOUR)
    ensures hours.JFloat? && hours.x > 0.0 ==>
      var at := ApiExpiry(hours, now).value;
      (at - now) % HOUR == 0 &&
      var whole := (at - now) / HOUR;
      whole as real <= hours.x < whole as real + 1.0
  {
    if hours.JFloat? && hours.x > 0.0 {
      var at := ApiExpiry(hours, now).value;
      assert at - now == hours.x.Floor * HOUR;
      assert (at - now) / HOUR == hours.x.Floor;
    }
  }

  /** An API expiry is a whole number of hours from now, never in the past;
      a positive integer (or `true`) puts it at least an hour ahead. */
  lemma ApiExpiryLeadTime(hours: Json, now: int)
    requires ApiExpiry(hours, now).Some?
    ensures var at := ApiExpiry(hours, now).value;
      at >= now && (at - now) % HOUR == 0 &&
      (!hours.JFloat? ==> at >= now + HOUR)
  {
    var at := ApiExpiry(hours, now).value;
    if hours.JFloat? {
      assert at - now == hours.x.Floor * HOUR;
    }
  }

  /** A fractional number of hours below one, such as 0.5, truncates to zero:
      the link expires at the instant it is created. */
  lemma ApiExpiryFraction(x: real, code: string, url: string, now: int)
    requires 0.0 < x < 1.0
    ensures ApiExpiry(JFloat(x), now) == Some(now)
    ensures IsExpired(NewLink(code, url, now, ApiExpiry(JFloat(x), now)), now)
  {
    assert x.Floor == 0;
  }

  // ---------------------------------------------------------------------
  // Choosing the code
  // ---------------------------------------------------------------------

  /** The codes successive `random_code()` calls return, seven draws each,
      for as long as the random source lasts. */
  function Candidates(draws: seq<Base62Index>): (codes: seq<string>)
    ensures |codes| == |draws| / CODE_LENGTH
    ensures forall i :: 0 <= i < |codes| ==> |codes[i]| == CODE_LENGTH && IsValidCode(codes[i])
    decreases |draws|
  {
    if |draws| < CODE_LENGTH then []
    else
      var first := draws[..CODE_LENGTH];
      RandomCodeIsAlnum(CODE_LENGTH, first);
      [RandomCode(CODE_LENGTH, first)] + Candidates(draws[CODE_LENGTH..])
  }

  /** The first candidate not in `taken`, if any. */
  function FirstFree(taken: set<string>, candidates: seq<string>): (code: Option<string>)
    ensures code.Some? ==> code.value !in taken && code.value in candidates
  {
    if candidates == [] then None
    else if candidates[0] !in taken then Some(candidates[0])
    else FirstFree(taken, candidates[1..])
  }

  /** The search for a free code fails exactly when every candidate is taken. */
  lemma {:induction false} FirstFreeExhausted(taken: set<string>, candidates: seq<string>)
    ensures FirstFree(taken, candidates).None? <==>
      forall i :: 0 <= i < |candidates| ==> candidates[i] in taken
  {
    if candidates != [] {
      FirstFreeExhausted(taken, candidates[1..]);
      assert forall i :: 1 <= i < |candidates| ==> candidates[i] == candidates[1..][i - 1];
    }
  }

  /** The search returns the earliest free candidate. */
  lemma {:induction false} FirstFreeIsFirst(taken: set<string>, candidates: seq<string>, i: nat)
    requires i < |candidates| && candidates[i] !in taken
    requires forall j :: 0 <= j < i ==> candidates[j] in taken
    ensures FirstFree(taken, candidates) == Some(candidates[i])
  {
    if i > 0 {
      FirstFreeIsFirst(taken, candidates[1..], i - 1);
    }
  }

  /** The code a request ends up with, before anything is stored. */
  function ChooseCode(taken: set<string>, request: CodeRequest, draws: seq<Base62Index>): Result<string, ShortenError> {
    match request
    case CustomCode(code) =>
      if !IsValidCode(code) then Failure(InvalidCode)
      else if code in taken then Failure(CodeTaken)
      else Success(code)
    case CollectionCode => Failure(InvalidCode)
    case NumberCode => Failure(ServerError)
    case AutoCode =>
      match FirstFree(taken, Candidates(draws))
      case None => Failure(CodeSpaceExhausted)
      case Some(code) => Success(code)
  }

  /** The outcome of one shorten request against the store `links`: the
      URL is normalised first, then the code chosen, then the record built. */
  function PlanShorten(links: map<string, Link>, url: string, request: CodeRequest,
                       expiresAt: Option<int>, now: int, draws: seq<Base62Index>): Result<Link, ShortenError>
  {
    match NormalizeUrl(url)
    case None => Failure(InvalidUrl)
    case Some(target) =>
      match ChooseCode(links.Keys, request, draws)
      case Failure(e) => Failure(e)
      case Success(code) => Success(NewLink(code, target, now, expiresAt))
  }

  /** A created link has a fresh, valid code (the requested one, or the first
      free random candidate), the normalised URL, no clicks yet, and the
      given creation time and expiry. */
  lemma ShortenCreates(links: map<string, Link>, url: string, request: CodeRequest,
                       expiresAt: Option<int>, now: int, draws: seq<Base62Index>)
    requires PlanShorten(links, url, request, expiresAt, now, draws).Success?
    ensures var link := PlanShorten(links, url, request, expiresAt, now, draws).value;
      link.code !in links && IsValidCode(link.code) &&
      NormalizeUrl(url) == Some(link.originalUrl) &&
      link.clicks == 0 && link.createdAt == now && link.expiresAt == expiresAt &&
      (request.CustomCode? ==> link.code == request.code) &&
      (request.AutoCode? ==>
        link.code in Candidates(draws) && |link.code| == CODE_LENGTH &&
        Some(link.code) == FirstFree(links.Keys, Candidates(draws)))
  {
    if request.AutoCode? {
      var code := FirstFree(links.Keys, Candidates(draws)).value;
      var i :| 0 <= i < |Candidates(draws)| && Candidates(draws)[i] == code;
    }
  }

  /** Why a request fails: an unusable URL first; then, for a custom code, an
      invalid one or one already taken; for a generated code, a random
      source that offered only taken codes; a JSON code that is a collection
      or a number fails its check or crashes it. */
  lemma ShortenFails(links: map<string, Link>, url: string, request: CodeRequest,
                     expiresAt: Option<int>, now: int, draws: seq<Base62Index>)
    ensures PlanShorten(links, url, request, expiresAt, now, draws) == Failure(InvalidUrl) <==> NormalizeUrl(url).None?
    ensures NormalizeUrl(url).Some? && request.CustomCode? ==>
      (PlanShorten(links, url, request, expiresAt, now, draws) == Failure(InvalidCode) <==> !IsValidCode(request.code))
    ensures NormalizeUrl(url).Some? && request.CustomCode? ==>
      (PlanShorten(links, url, request, expiresAt, now, draws) == Failure(CodeTaken) <==>
        IsValidCode(request.code) && request.code in links)
    ensures NormalizeUrl(url).Some? && request.AutoCode? ==>
      (PlanShorten(links, url, request, expiresAt, now, draws) == Failure(CodeSpaceExhausted) <==>
        forall i :: 0 <= i < |Candidates(draws)| ==> Candidates(draws)[i] in links)
    ensures NormalizeUrl(url).Some? && request.CollectionCode? ==>
      PlanShorten(links, url, request, expiresAt, now, draws) == Failure(InvalidCode)
    ensures NormalizeUrl(url).Some? && request.NumberCode? ==>
      PlanShorten(links, url, request, expiresAt, now, draws) == Failure(ServerError)
  {
    var candidates := Candidates(draws);
    if request.AutoCode? && NormalizeUrl(url).Some? {
      FirstFreeExhausted(links.Keys, candidates);
      assert PlanShorten(links, url, request, expiresAt, now, draws) == Failure(CodeSpaceExhausted) <==>
        FirstFree(links.Keys, candidates).None?;
    }
  }

  /** The other side of `ShortenFails`: a usable URL with a valid free
      custom code, or with a free candidate among the random draws, is
      shortened. */
  lemma ShortenSucceeds(links: map<string, Link>, url: string, request: CodeRequest,
                        expiresAt: Option<int>, now: int, draws: seq<Base62Index>)
    ensures (NormalizeUrl(url).Some? && request.CustomCode? && IsValidCode(request.code) &&
             request.code !in links) ==>
      PlanShorten(links, url, request, expiresAt, now, draws).Success?
    ensures (NormalizeUrl(url).Some? && request.AutoCode? &&
             exists i :: 0 <= i < |Candidates(draws)| && Candidates(draws)[i] !in links) ==>
      PlanShorten(links, url, request, expiresAt, now, draws).Success?
  {
    if request.AutoCode? && NormalizeUrl(url).Some? {
      FirstFreeExhausted(links.Keys, Candidates(draws));
    }
  }

  /** A custom code can be claimed once: after it was used, asking for it
      again with a usable URL is refused as taken. */
  lemma CustomCodeOnce(links: map<string, Link>, code: string,
                       url1: string, expiry1: Option<int>, now1: int, draws1: seq<Base62Index>,
                       url2: string, expiry2: Option<int>, now2: int, draws2: seq<Base62Index>)
    requires PlanShorten(links, url1, CustomCode(code), expiry1, now1, draws1).Success?
    requires NormalizeUrl(url2).Some?
    ensures var link := PlanShorten(links, url1, CustomCode(code), expiry1, now1, draws1).value;
      PlanShorten(links[code := link], url2, CustomCode(code), expiry2, now2, draws2) == Failure(CodeTaken)
  {
    ShortenCreates(links, url1, CustomCode(code), expiry1, now1, draws1);
  }

  // ---------------------------------------------------------------------
  // The store invariant and how the store may change
  // ---------------------------------------------------------------------

  /** Every record is filed under its own code, which is a valid code; codes
      are unique because they are the map's keys. */
  predicate ValidLinks(links: map<string, Link>) {
    forall code :: code in links ==> links[code].code == code && IsValidCode(code)
  }

  /** `after` is a later state of the store `before`: no record is lost, and
      each keeps its code, URL, creation time and expiry while its click
      count can only go up. */
  predicate Grows(before: map<string, Link>, after: map<string, Link>) {
    before.Keys <= after.Keys &&
    forall code :: code in before ==>
      after[code] == before[code].(clicks := after[code].clicks) &&
      before[code].clicks <= after[code].clicks
  }

  /** Growth accumulates over any number of operations. */
  lemma GrowsTransitive(a: map<string, Link>, b: map<string, Link>, c: map<string, Link>)
    requires Grows(a, b) && Grows(b, c)
    ensures Grows(a, c)
  {
    forall code | code in a
      ensures c[code] == a[code].(clicks := c[code].clicks) && a[code].clicks <= c[code].clicks
    {
      assert b[code] == a[code].(clicks := b[code].clicks);
    }
  }

  /** Filing a new record under its own fresh, valid code keeps the
      invariant, adds exactly one record and changes none of the others. */
  lemma InsertKeepsInvariant(links: map<string, Link>, link: Link)
    requires ValidLinks(links)
    requires link.code !in links && IsValidCode(link.code)
    ensures var after := links[link.code := link];
      ValidLinks(after) && Grows(links, after) &&
      after.Keys == links.Keys + {link.code} && |after| == |links| + 1
  {
  }

  /** What following `code` at time `now` yields. */
  function ResolveOutcomeOf(links: map<string, Link>, code: string, now: int): (r: ResolveOutcome)
    ensures r == NotFound <==> code !in links
    ensures r == Expired <==> code in links && IsExpired(links[code], now)
    ensures r.Redirect? ==> code in links && r.target == links[code].originalUrl
  {
    if code !in links then NotFound
    else if IsExpired(links[code], now) then Expired
    else Redirect(links[code].originalUrl)
  }

  /** `link.clicks += 1` on the record filed under `code`. */
  function CountClick(links: map<string, Link>, code: string): map<string, Link>
    requires code in links
  {
    links[code := links[code].(clicks := links[code].clicks + 1)]
  }

  /** Counting a click keeps the invariant and is growth: that record's count
      goes up by exactly one and nothing else changes. */
  lemma CountClickGrows(links: map<string, Link>, code: string)
    requires ValidLinks(links) && code in links
    ensures var after := CountClick(links, code);
      ValidLinks(after) && Grows(links, after) && after.Keys == links.Keys &&
      after[code].clicks == links[code].clicks + 1 &&
      forall other :: other in links && other != code ==> after[other] == links[other]
  {
  }

  /** A code that has expired stays expired: at any later time, in any later
      state of the store, it is refused again without counting a click. */
  lemma ExpiredStaysExpired(before: map<string, Link>, after: map<string, Link>, code: string, now: int, later: int)
    requires ResolveOutcomeOf(before, code, now) == Expired
    requires Grows(before, after) && now <= later
    ensures ResolveOutcomeOf(after, code, later) == Expired
  {
    ExpiryMonotone(before[code], now, later);
    ExpiryIgnoresClicks(before[code], after[code].clicks, later);
  }

  /** A link just created redirects to the normalised URL until it expires. */
  lemma CreatedLinkRedirects(links: map<string, Link>, url: string, request: CodeRequest,
                             expiresAt: Option<int>, now: int, draws: seq<Base62Index>, later: int)
    requires PlanShorten(links, url, request, expiresAt, now, draws).Success?
    requires expiresAt.None? || later < expiresAt.value
    ensures var link := PlanShorten(links, url, request, expiresAt, now, draws).value;
      ResolveOutcomeOf(links[link.code := link], link.code, later) == Redirect(NormalizeUrl(url).value)
  {
    ShortenCreates(links, url, request, expiresAt, now, draws);
  }

  /** Among the store's codes, one with the latest creation time. */
  lemma NewestExists(links: map<string, Link>, codes: set<string>)
    requires codes != {} && codes <= links.Keys
    ensures exists newest ::
      newest in codes && forall other :: other in codes ==> links[other].createdAt <= links[newest].createdAt
  {
    var some :| some in codes;
    if codes != {some} {
      var rest := codes - {some};
      NewestExists(links, rest);
      var best :| best in rest && forall other :: other in rest ==> links[other].createdAt <= links[best].createdAt;
      if links[some].createdAt > links[best].createdAt {
        assert forall other :: other in codes ==> links[other].createdAt <= links[some].createdAt;
      } else {
        assert forall other :: other in codes ==> links[other].createdAt <= links[best].createdAt;
      }
    }
  }

  /** `recent` holds the records filed under the codes `picked`. */
  predicate ListsRecords(links: map<string, Link>, picked: seq<string>, recent: seq<Link>) {
    |picked| == |recent| &&
    forall i :: 0 <= i < |recent| ==> picked[i] in links && recent[i] == links[picked[i]]
  }

  /** No code is picked twice. */
  predicate Distinct(picked: seq<string>) {
    forall i, j :: 0 <= i < j < |picked| ==> picked[i] != picked[j]
  }

  /** Newest first. */
  predicate NewestFirst(recent: seq<Link>) {
    forall i, j :: 0 <= i < j < |recent| ==> recent[j].createdAt <= recent[i].createdAt
  }

  /** No record still to be considered is newer than a listed one. */
  predicate NoneNewer(links: map<string, Link>, remaining: set<string>, recent: seq<Link>) {
    remaining <= links.Keys &&
    forall code, i :: code in remaining && 0 <= i < |recent| ==> links[code].createdAt <= recent[i].createdAt
  }

  /** Every code of the store is either picked or still remaining, not both. */
  predicate Partition(links: map<string, Link>, remaining: set<string>, picked: seq<string>) {
    remaining <= links.Keys && |picked| + |remaining| == |links| &&
    (forall i :: 0 <= i < |picked| ==> picked[i] !in remaining) &&
    (forall code :: code in links && code !in remaining ==> code in picked)
  }

  /** Midway through listing the newest links: `recent` holds the records of
      the distinct codes `picked`, newest first; every other code is still
      `remaining`, and none of those is newer than a listed record. */
  predicate SelectedNewest(links: map<string, Link>, remaining: set<string>,
                           picked: seq<string>, recent: seq<Link>)
  {
    ListsRecords(links, picked, recent) && Distinct(picked) && NewestFirst(recent) &&
    NoneNewer(links, remaining, recent) && Partition(links, remaining, picked)
  }

  /** Moving the newest remaining record to the end of the list keeps it newest first. */
  lemma SelectNext(links: map<string, Link>, remaining: set<string>, picked: seq<string>,
                   recent: seq<Link>, newest: string)
    requires SelectedNewest(links, remaining, picked, recent)
    requires newest in remaining
    requires forall other :: other in remaining ==> links[other].createdAt <= links[newest].createdAt
    ensures SelectedNewest(links, remaining - {newest}, picked + [newest], recent + [links[newest]])
  {
    var picked', recent' := picked + [newest], recent + [links[newest]];
    assert ListsRecords(links, picked', recent') by {
      assert forall i :: 0 <= i < |recent| ==> picked'[i] == picked[i] && recent'[i] == recent[i];
    }
    assert Distinct(picked') by {
      assert forall i :: 0 <= i < |picked| ==> picked'[i] == picked[i] && picked[i] != newest;
    }
    OrderNext(links, remaining, recent, newest);
    PartitionNext(links, remaining, picked, newest);
  }

  lemma OrderNext(links: map<string, Link>, remaining: set<string>, recent: seq<Link>, newest: string)
    requires NewestFirst(recent) && NoneNewer(links, remaining, recent) && newest in remaining
    requires forall other :: other in remaining ==> links[other].createdAt <= links[newest].createdAt
    ensures NewestFirst(recent + [links[newest]])
    ensures NoneNewer(links, remaining - {newest}, recent + [links[newest]])
  {
    var recent' := recent + [links[newest]];
    assert forall i :: 0 <= i < |recent| ==> recent'[i] == recent[i];
  }

  lemma PartitionNext(links: map<string, Link>, remaining: set<string>, picked: seq<string>, newest: string)
    requires Partition(links, remaining, picked) && newest in remaining
    ensures Partition(links, remaining - {newest}, picked + [newest])
  {
    var remaining', picked' := remaining - {newest}, picked + [newest];
    assert |remaining'| == |remaining| - 1;
    assert forall i :: 0 <= i < |picked| ==> picked'[i] == picked[i];
    forall code | code in links && code !in remaining'
      ensures code in picked'
    {
      if code != newest {
        var k :| 0 <= k < |picked| && picked[k] == code;
        assert picked'[k] == code;
      }
    }
  }

  /** Once the selection stops, the list is what the home page shows. */
  lemma SelectionListsNewest(links: map<string, Link>, remaining: set<string>,
                             picked: seq<string>, recent: seq<Link>)
    requires ValidLinks(links) && SelectedNewest(links, remaining, picked, recent)
    ensures forall i :: 0 <= i < |recent| ==> recent[i].code in links && links[recent[i].code] == recent[i]
    ensures forall i, j :: 0 <= i < j < |recent| ==> recent[i].code != recent[j].code
    ensures forall code, i :: code in links && links[code] !in recent && 0 <= i < |recent| ==>
      links[code].createdAt <= recent[i].createdAt
  {
    forall i | 0 <= i < |recent| ensures recent[i].code == picked[i] {
      assert links[picked[i]].code == picked[i];
    }
    forall code | code in links && code !in remaining ensures links[code] in recent {
      var k :| 0 <= k < |picked| && picked[k] == code;
      assert recent[k] == links[code];
    }
  }

  // ---------------------------------------------------------------------
  // The store
  // ---------------------------------------------------------------------

  /** The `links` table, keyed by code. */
  class LinkStore {
    var links: map<string, Link>

    ghost predicate Valid()
      reads this
    {
      ValidLinks(links)
    }

    /** A freshly created database: no links. */
    constructor ()
      ensures Valid() && links == map[]
    {
      links := map[];
    }

    /** The collision loop: draw a code, and draw again for as long as the
        store already holds it. Over a finite random source the result is the
        first candidate not in the store, or None when the source runs out. */
    method AllocateCode(draws: seq<Base62Index>) returns (code: Option<string>)
      ensures code == FirstFree(links.Keys, Candidates(draws))
    {
      var rest := draws;
      if |rest| < CODE_LENGTH {
        return None;
      }
      var candidate := RandomCode(CODE_LENGTH, rest[..CODE_LENGTH]);
      rest := rest[CODE_LENGTH..];
      while candidate in links
        invariant FirstFree(links.Keys, Candidates(draws)) == FirstFree(links.Keys, [candidate] + Candidates(rest))
        decreases |rest|
      {
        assert ([candidate] + Candidates(rest))[1..] == Candidates(rest);
        if |rest| < CODE_LENGTH {
          return None;
        }
        candidate := RandomCode(CODE_LENGTH, rest[..CODE_LENGTH]);
        rest := rest[CODE_LENGTH..];
      }
      return Some(candidate);
    }

    /** The logic `shorten` and `api_shorten` share: normalise the URL,
        settle the code (check a custom one, or draw until a free one comes
        up), and insert exactly one record. A refused request changes nothing. */
    method Shorten(url: string, request: CodeRequest, expiresAt: Option<int>, now: int, draws: seq<Base62Index>)
      returns (r: Result<Link, ShortenError>)
      requires Valid()
      modifies this
      ensures Valid() && Grows(old(links), links)
      ensures r == PlanShorten(old(links), url, request, expiresAt, now, draws)
      ensures links == if r.Success? then old(links)[r.value.code := r.value] else old(links)
    {
      var target := NormalizeUrl(url);
      if target.None? {
        return Failure(InvalidUrl);
      }
      var code: string;
      match request {
        case CustomCode(custom) =>
          if |custom| > MAX_CODE_LENGTH || !IsAlnum(custom) {
            return Failure(InvalidCode);
          }
          if custom in links {
            return Failure(CodeTaken);
          }
          code := custom;
          assert ChooseCode(links.Keys, request, draws) == Success(code);
        case CollectionCode =>
          return Failure(InvalidCode);
        case NumberCode =>
          return Failure(ServerError);
        case AutoCode =>
          var found := AllocateCode(draws);
          if found.None? {
            return Failure(CodeSpaceExhausted);
          }
          code := found.value;
          assert ChooseCode(links.Keys, request, draws) == Success(code);
      }
      var link := NewLink(code, target.value, now, expiresAt);
      assert PlanShorten(links, url, request, expiresAt, now, draws) == Success(link);
      ShortenCreates(links, url, request, expiresAt, now, draws);
      InsertKeepsInvariant(links, link);
      links := links[code := link];
      r := Success(link);
    }

    /** POST /shorten: form fields `long_url`, `custom_code`, `expiry_hours`. */
    method ShortenForm(longUrl: string, customCode: string, expiryHours: string, now: int, draws: seq<Base62Index>)
      returns (r: Result<Link, ShortenError>)
      requires Valid()
      modifies this
      ensures Valid() && Grows(old(links), links)
      ensures r == PlanShorten(old(links), longUrl, FormCodeRequest(customCode), FormExpiry(expiryHours, now), now, draws)
      ensures links == if r.Success? then old(links)[r.value.code := r.value] else old(links)
    {
      r := Shorten(longUrl, FormCodeRequest(customCode), FormExpiry(expiryHours, now), now, draws);
    }

    /** POST /api/shorten, given the decoded body. Anything but a JSON object
        makes `data.get` or `normalize_url` raise before a code is looked at,
        and so does a `url` member that is not a string: both are reported
        as an invalid URL. */
    method ShortenApi(body: Json, now: int, draws: seq<Base62Index>)
      returns (r: Result<Link, ShortenError>)
      requires Valid()
      modifies this
      ensures Valid() && Grows(old(links), links)
      ensures !body.JObject? ==> r == Failure(InvalidUrl)
      ensures body.JObject? ==>
        var url := Get(body.members, "url", JString(""));
        (!url.JString? ==> r == Failure(InvalidUrl)) &&
        (url.JString? ==> r == PlanShorten(old(links), url.s,
          ApiCodeRequest(Get(body.members, "code", JNull)),
          ApiExpiry(Get(body.members, "expiry_hours", JNull), now), now, draws))
      ensures links == if r.Success? then old(links)[r.value.code := r.value] else old(links)
    {
      if !body.JObject? {
        return Failure(InvalidUrl);
      }
      var url := Get(body.members, "url", JString(""));
      if !url.JString? {
        return Failure(InvalidUrl);
      }
      var code := Get(body.members, "code", JNull);
      var hours := Get(body.members, "expiry_hours", JNull);
      r := Shorten(url.s, ApiCodeRequest(code), ApiExpiry(hours, now), now, draws);
    }

    /** GET /<code>: unknown codes are not found, expired links are refused
        untouched, and a live link counts one click and redirects. */
    method Resolve(code: string, now: int) returns (r: ResolveOutcome)
      requires Valid()
      modifies this
      ensures Valid() && Grows(old(links), links)
      ensures r == ResolveOutcomeOf(old(links), code, now)
      ensures links == if r.Redirect? then CountClick(old(links), code) else old(links)
    {
      if code !in links {
        return NotFound;
      }
      var link := links[code];
      if IsExpired(link, now) {
        return Expired;
      }
      CountClickGrows(links, code);
      links := links[code := link.(clicks := link.clicks + 1)];
      r := Redirect(link.originalUrl);
    }

    /** GET /stats/<code>: the record filed under `code`, or None (404). */
    method Lookup(code: string) returns (link: Option<Link>)
      requires Valid()
      ensures link.Some? <==> code in links
      ensures link.Some? ==> link.value == links[code] && link.value.code == code
    {
      if code in links {
        link := Some(links[code]);
      } else {
        link := None;
      }
    }

    /** GET /: the ten links created last, newest first. The
        result holds min(10, |links|) distinct stored records, newest first,
        and no record left out is newer than one listed. Ties in `created_at`
        may come in any order. */
    method RecentLinks() returns (recent: seq<Link>)
      requires Valid()
      ensures |recent| == if |links| < RECENT_LIMIT then |links| else RECENT_LIMIT
      ensures forall i :: 0 <= i < |recent| ==> recent[i].code in links && links[recent[i].code] == recent[i]
      ensures forall i, j :: 0 <= i < j < |recent| ==> recent[i].code != recent[j].code
      ensures forall i, j :: 0 <= i < j < |recent| ==> recent[j].createdAt <= recent[i].createdAt
      ensures forall code, i :: code in links && links[code] !in recent && 0 <= i < |recent| ==>
        links[code].createdAt <= recent[i].createdAt
    {
      var remaining := links.Keys;
      ghost var picked: seq<string> := [];
      recent := [];
      while |recent| < RECENT_LIMIT && remaining != {}
        invariant SelectedNewest(links, remaining, picked, recent)
        invariant |recent| <= RECENT_LIMIT
        decreases |remaining|
      {
        NewestExists(links, remaining);
        var newest :| newest in remaining &&
          forall other :: other in remaining ==> links[other].createdAt <= links[newest].createdAt;
        SelectNext(links, remaining, picked, recent, newest);
        recent := recent + [links[newest]];
        picked := picked + [newest];
        remaining := remaining - {newest};
      }
      SelectionListsNewest(links, remaining, picked, recent);
    }
  }
}
