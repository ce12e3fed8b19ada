/** utils.py: the BASE62 alphabet, random short codes and URL normalisation. */
module Utils {
  import opened Wrappers
  import opened PyStr

  // ---------------------------------------------------------------------
  // BASE62 and random_code
  // ---------------------------------------------------------------------

  /** Length of a generated code when the caller gives none. */
  const CODE_LENGTH: nat := 7

  /** A position in BASE62: what one draw of the random source picks. */
  type Base62Index = i: int | 0 <= i < 62

  /** The character at position `k` of `string.digits + string.ascii_letters`,
      where `ascii_letters` is the lower-case alphabet followed by the upper-case one. */
  function Base62Char(k: nat): char
    requires k < 62
  {
    if k < 10 then ('0' as int + k) as char
    else if k < 36 then ('a' as int + (k - 10)) as char
    else ('A' as int + (k - 36)) as char
  }

  function Base62Sequence(): (s: string)
    ensures |s| == 62
  {
    seq(62, k requires 0 <= k < 62 => Base62Char(k))
  }

  /** "0123456789abcdefghijklmnopqrstuvwxyzABCDEFGHIJKLMNOPQRSTUVWXYZ" */
  const BASE62: string := Base62Sequence()

  /** The position of an ASCII letter or digit in BASE62. */
  function Base62IndexOf(ch: char): Base62Index
    requires IsAsciiAlnum(ch)
  {
    if IsAsciiDigit(ch) then ch as int - '0' as int
    else if IsAsciiLower(ch) then ch as int - 'a' as int + 10
    else ch as int - 'A' as int + 36
  }

  lemma Base62At(k: nat)
    requires k < 62
    ensures BASE62[k] == Base62Char(k)
  {
    assert BASE62 == Base62Sequence();
    assert Base62Sequence()[k] == Base62Char(k);
  }

  /** The boundaries of the three runs of BASE62. */
  lemma Base62Spelled()
    ensures |BASE62| == 62
    ensures BASE62[0] == '0' && BASE62[9] == '9'
    ensures BASE62[10] == 'a' && BASE62[35] == 'z'
    ensures BASE62[36] == 'A' && BASE62[61] == 'Z'
  {
    Base62At(0); Base62At(9); Base62At(10); Base62At(35); Base62At(36); Base62At(61);
  }

  /** BASE62 holds exactly the 62 ASCII letters and digits, each once:
      Base62IndexOf finds a character's one position. */
  lemma Base62Alphabet(ch: char)
    ensures ch in BASE62 <==> IsAsciiAlnum(ch)
    ensures IsAsciiAlnum(ch) ==> BASE62[Base62IndexOf(ch)] == ch
    ensures forall k :: 0 <= k < 62 && BASE62[k] == ch ==> IsAsciiAlnum(ch) && k == Base62IndexOf(ch)
  {
    if IsAsciiAlnum(ch) {
      Base62At(Base62IndexOf(ch));
    }
    forall k | 0 <= k < 62 && BASE62[k] == ch ensures IsAsciiAlnum(ch) && k == Base62IndexOf(ch) {
      Base62At(k);
    }
  }

  /** `random_code(n)`: `n` characters of BASE62, the i-th being the one the
      i-th draw of the random source picks. */
  function RandomCode(n: nat, draws: seq<Base62Index>): (code: string)
    requires |draws| == n
    ensures |code| == n
    ensures forall i :: 0 <= i < n ==> code[i] in BASE62
  {
    seq(n, i requires 0 <= i < n => BASE62[draws[i]])
  }

  /** A random code is a non-empty run of ASCII letters and digits. */
  lemma RandomCodeIsAlnum(n: nat, draws: seq<Base62Index>)
    requires |draws| == n > 0
    ensures IsAlnum(RandomCode(n, draws))
  {
    var code := RandomCode(n, draws);
    forall i | 0 <= i < n ensures IsAsciiAlnum(code[i]) {
      Base62Alphabet(code[i]);
    }
  }

  /** The draws that make `random_code` return `code`. */
  function DrawsFor(code: string): (draws: seq<Base62Index>)
    requires forall i :: 0 <= i < |code| ==> IsAsciiAlnum(code[i])
    ensures |draws| == |code|
  {
    seq(|code|, i requires 0 <= i < |code| => Base62IndexOf(code[i]))
  }

  /** Every alphanumeric string of length n is produced by exactly one
      sequence of draws, so uniform draws give uniformly distributed codes. */
  lemma RandomCodeDraws(n: nat, draws: seq<Base62Index>, code: string)
    requires |draws| == n
    requires |code| == n && forall i :: 0 <= i < n ==> IsAsciiAlnum(code[i])
    ensures RandomCode(n, DrawsFor(code)) == code
    ensures RandomCode(n, draws) == code <==> draws == DrawsFor(code)
  {
    forall i | 0 <= i < n ensures RandomCode(n, DrawsFor(code))[i] == code[i] {
      Base62Alphabet(code[i]);
    }
    if RandomCode(n, draws) == code {
      forall i | 0 <= i < n ensures draws[i] == DrawsFor(code)[i] {
        Base62Alphabet(code[i]);
      }
    }
  }

  // ---------------------------------------------------------------------
  // The scheme test: a case-insensitive match of "http", an optional "s"
  // and "://" at the start of the text
  // ---------------------------------------------------------------------

  /** `ch` is the lower-case ASCII `letter` or its upper-case form. */
  predicate IsLetterIgnoringCase(ch: char, letter: char)
    requires IsAsciiLower(letter)
  {
    ch == letter || ch as int == letter as int - 32
  }

  /** The characters a lower-case ASCII letter of the pattern matches under
      re.IGNORECASE: the letter in either case, and for 's' also U+017F
      LATIN SMALL LETTER LONG S, which Python's case folding equates with it. */
  predicate FoldsTo(ch: char, letter: char)
    requires IsAsciiLower(letter)
  {
    IsLetterIgnoringCase(ch, letter) || (letter == 's' && ch == '\U{17F}')
  }

  /** The scheme pattern matches at the start of `u`: "http" then an optional
      "s", then "://", letters compared without regard to case. */
  predicate HasHttpPrefix(u: string) {
    |u| >= 7 && FoldsTo(u[0], 'h') && FoldsTo(u[1], 't') && FoldsTo(u[2], 't') && FoldsTo(u[3], 'p') &&
    ((u[4] == ':' && u[5] == '/' && u[6] == '/') ||
     (|u| >= 8 && FoldsTo(u[4], 's') && u[5] == ':' && u[6] == '/' && u[7] == '/'))
  }

  /** `u` starts with "http" in any mix of ASCII cases. */
  predicate StartsWithAsciiHttp(u: string) {
    |u| >= 4 && IsLetterIgnoringCase(u[0], 'h') && IsLetterIgnoringCase(u[1], 't') &&
    IsLetterIgnoringCase(u[2], 't') && IsLetterIgnoringCase(u[3], 'p')
  }

  /** How long an ASCII `http://` or `https://` prefix of `u` is, in any
      letter case; 0 when there is none. */
  function SchemePrefixLength(u: string): (n: nat)
    ensures n == 0 || n == 7 || n == 8
    ensures n <= |u|
  {
    if |u| >= 7 && StartsWithAsciiHttp(u) && u[4] == ':' && u[5] == '/' && u[6] == '/' then 7
    else if |u| >= 8 && StartsWithAsciiHttp(u) && IsLetterIgnoringCase(u[4], 's') &&
      u[5] == ':' && u[6] == '/' && u[7] == '/' then 8
    else 0
  }

  // ---------------------------------------------------------------------
  // The netloc of urllib.parse.urlparse (its urlsplit step, CPython 3.12)
  // ---------------------------------------------------------------------

  /** urlsplit first drops leading C0 control characters and spaces. */
  function LStripControl(s: string): string {
    if s != [] && s[0] <= ' ' then LStripControl(s[1..]) else s
  }

  predicate IsUnsafeUrlChar(ch: char) { ch == '\t' || ch == '\r' || ch == '\n' }

  /** ...then deletes every tab, carriage return and line feed. */
  function RemoveUnsafe(s: string): (r: string)
    ensures |r| <= |s|
    ensures forall i :: 0 <= i < |r| ==> !IsUnsafeUrlChar(r[i])
  {
    if s == [] then []
    else (if IsUnsafeUrlChar(s[0]) then [] else [s[0]]) + RemoveUnsafe(s[1..])
  }

  predicate IsSchemeChar(ch: char) {
    IsAsciiAlnum(ch) || ch == '+' || ch == '-' || ch == '.'
  }

  /** `s.find(ch)`, with |s| standing for "not found". */
  function FindChar(s: string, ch: char): (i: nat)
    ensures i <= |s|
    ensures i < |s| ==> s[i] == ch
    ensures forall k :: 0 <= k < i ==> s[k] != ch
  {
    if s == [] || s[0] == ch then 0 else 1 + FindChar(s[1..], ch)
  }

  /** What follows the scheme: urlsplit takes the text before the first ':'
      as the scheme only when it starts with an ASCII letter and consists of
      scheme characters. */
  function AfterScheme(u: string): string {
    var i := FindChar(u, ':');
    if 0 < i < |u| && IsAsciiAlpha(u[0]) && forall k :: 0 <= k < i ==> IsSchemeChar(u[k]) then u[i + 1..]
    else u
  }

  predicate IsNetlocDelimiter(ch: char) { ch == '/' || ch == '?' || ch == '#' }

  /** The text up to the first '/', '?' or '#'. */
  function TakeNetloc(s: string): (r: string)
    ensures |r| <= |s| && r == s[..|r|]
    ensures forall i :: 0 <= i < |r| ==> !IsNetlocDelimiter(r[i])
    ensures |r| < |s| ==> IsNetlocDelimiter(s[|r|])
  {
    if s == [] || IsNetlocDelimiter(s[0]) then [] else [s[0]] + TakeNetloc(s[1..])
  }

  /** `urlparse(url).netloc`: after the scheme, the text between a leading
      "//" and the first '/', '?' or '#'; empty when there is no "//". */
  function UrlNetloc(url: string): string {
    var rest := AfterScheme(RemoveUnsafe(LStripControl(url)));
    if |rest| >= 2 && rest[..2] == "//" then TakeNetloc(rest[2..]) else []
  }

  /** The host part of what follows a scheme prefix: up to the first '/', '?'
      or '#', with tabs, carriage returns and line feeds taken out. */
  function HostPart(s: string): string {
    TakeNetloc(RemoveUnsafe(s))
  }

  // ---------------------------------------------------------------------
  // normalize_url
  // ---------------------------------------------------------------------

  /** `normalize_url(url)`: strip, add "http://" when `_URL_RE` does not
      match, and reject (None, the ValueError) when the netloc is empty. */
  function NormalizeUrl(url: string): Option<string> {
    var stripped := Strip(url);
    var full := if HasHttpPrefix(stripped) then stripped else "http://" + stripped;
    if UrlNetloc(full) == [] then None else Some(full)
  }

  lemma {:induction false} RemoveUnsafeAppend(p: string, s: string)
    ensures RemoveUnsafe(p + s) == RemoveUnsafe(p) + RemoveUnsafe(s)
  {
    if p == [] {
      assert p + s == s;
    } else {
      var head := if IsUnsafeUrlChar(p[0]) then [] else [p[0]];
      assert (p + s)[0] == p[0];
      assert (p + s)[1..] == p[1..] + s;
      RemoveUnsafeAppend(p[1..], s);
      calc {
        RemoveUnsafe(p + s);
        head + RemoveUnsafe(p[1..] + s);
        head + (RemoveUnsafe(p[1..]) + RemoveUnsafe(s));
        (head + RemoveUnsafe(p[1..])) + RemoveUnsafe(s);
        RemoveUnsafe(p) + RemoveUnsafe(s);
      }
    }
  }

  lemma {:induction false} RemoveUnsafeClean(s: string)
    requires forall i :: 0 <= i < |s| ==> !IsUnsafeUrlChar(s[i])
    ensures RemoveUnsafe(s) == s
  {
    if s != [] {
      RemoveUnsafeClean(s[1..]);
    }
  }

  /** A URL that starts with a letter and has `prefix` (free of tabs and line
      breaks) in front loses nothing of that prefix on its way into urlsplit. */
  lemma CleanPrefix(u: string, n: nat)
    requires 0 < n <= |u| && IsAsciiAlpha(u[0])
    requires forall i :: 0 <= i < n ==> !IsUnsafeUrlChar(u[i])
    ensures RemoveUnsafe(LStripControl(u)) == u[..n] + RemoveUnsafe(u[n..])
  {
    assert LStripControl(u) == u;
    assert u == u[..n] + u[n..];
    RemoveUnsafeClean(u[..n]);
    RemoveUnsafeAppend(u[..n], u[n..]);
  }

  /** The scheme urlsplit splits off when the first ':' follows letters only. */
  lemma AfterLetters(v: string, colon: nat)
    requires 0 < colon < |v| && v[colon] == ':'
    requires forall k :: 0 <= k < colon ==> IsAsciiAlpha(v[k])
    ensures AfterScheme(v) == v[colon + 1..]
  {
    assert forall k :: 0 <= k < colon ==> v[k] != ':';
    assert FindChar(v, ':') == colon;
  }

  /** No scheme is split off when a non-scheme character comes before the first ':'. */
  lemma NoSchemeBefore(v: string, colon: nat, bad: nat)
    requires bad < colon < |v| && v[colon] == ':' && !IsSchemeChar(v[bad])
    requires forall k :: 0 <= k < colon ==> v[k] != ':'
    ensures AfterScheme(v) == v
  {
    assert FindChar(v, ':') == colon;
  }

  /** For a string opening with an ASCII `http://` or `https://` in any case,
      the netloc is the host part of what follows that prefix. */
  lemma NetlocAfterScheme(u: string)
    requires SchemePrefixLength(u) > 0
    ensures UrlNetloc(u) == HostPart(u[SchemePrefixLength(u)..])
  {
    var n := SchemePrefixLength(u);
    SchemePrefixShape(u);
    CleanPrefix(u, n);
    var tail := RemoveUnsafe(u[n..]);
    var v := u[..n] + tail;
    AfterLetters(v, n - 3);
    var rest := v[n - 2..];
    assert rest[2..] == v[n..] == tail;
    assert rest[0] == u[n - 2] == '/' && rest[1] == u[n - 1] == '/';
    assert rest[..2] == "//";
  }

  /** An ASCII http(s) prefix is letters, then "://". */
  lemma SchemePrefixShape(u: string)
    requires SchemePrefixLength(u) > 0
    ensures var n := SchemePrefixLength(u);
      (forall k :: 0 <= k < n - 3 ==> IsAsciiAlpha(u[k])) &&
      u[n - 3] == ':' && u[n - 2] == '/' && u[n - 1] == '/' &&
      forall k :: 0 <= k < n ==> !IsUnsafeUrlChar(u[k])
  {
  }

  /** A prefix that `_URL_RE` accepts only thanks to the long s ("httpſ://")
      is not a scheme for urlsplit, so such a URL has no netloc. */
  lemma NetlocAfterLongS(u: string)
    requires HasHttpPrefix(u) && SchemePrefixLength(u) == 0
    ensures u[4] == '\U{17F}' && UrlNetloc(u) == []
  {
    LongSPrefix(u);
    CleanPrefix(u, 8);
    var v := u[..8] + RemoveUnsafe(u[8..]);
    NoSchemeBefore(v, 5, 4);
    assert v[0] == u[0] != '/';
  }

  /** The prefixes `_URL_RE` accepts but SchemePrefixLength does not: "http",
      in ASCII letters of any case, then the long s, then "://". */
  lemma LongSPrefix(u: string)
    requires HasHttpPrefix(u) && SchemePrefixLength(u) == 0
    ensures |u| >= 8 && StartsWithAsciiHttp(u)
    ensures u[4] == '\U{17F}' && u[5] == ':' && u[6] == '/' && u[7] == '/'
  {
  }

  /** A string that has no non-whitespace character strips to nothing. */
  lemma StripBlank(s: string)
    requires forall i :: 0 <= i < |s| ==> IsSpace(s[i])
    ensures Strip(s) == []
  {
    StripSlice(s);
  }

  /** When the stripped input already has an http(s) scheme, normalize_url
      returns it unchanged, or rejects it when its host part is empty. */
  lemma NormalizeUrlKeepsScheme(url: string)
    requires SchemePrefixLength(Strip(url)) > 0
    ensures var s := Strip(url);
      NormalizeUrl(url) == if HostPart(s[SchemePrefixLength(s)..]) == [] then None else Some(s)
  {
    var s := Strip(url);
    assert HasHttpPrefix(s);
    NetlocAfterScheme(s);
  }

  /** When the stripped input has no scheme, normalize_url prepends "http://",
      or rejects the input when its host part is empty. */
  lemma NormalizeUrlAddsScheme(url: string)
    requires !HasHttpPrefix(Strip(url))
    ensures var s := Strip(url);
      NormalizeUrl(url) == if HostPart(s) == [] then None else Some("http://" + s)
  {
    PrefixedNetloc(Strip(url));
  }

  /** The netloc once "http://" is put in front is the host part of what follows. */
  lemma PrefixedNetloc(s: string)
    ensures UrlNetloc("http://" + s) == HostPart(s)
  {
    var full := "http://" + s;
    assert SchemePrefixLength(full) == 7;
    assert full[7..] == s;
    NetlocAfterScheme(full);
  }

  /** A scheme spelled with a long s is rejected. */
  lemma NormalizeUrlRejectsLongS(url: string)
    requires HasHttpPrefix(Strip(url)) && SchemePrefixLength(Strip(url)) == 0
    ensures NormalizeUrl(url) == None
  {
    NetlocAfterLongS(Strip(url));
  }

  /** Blank input, "", "   " and the like, is rejected. */
  lemma NormalizeUrlRejectsBlank(url: string)
    requires forall i :: 0 <= i < |url| ==> IsSpace(url[i])
    ensures NormalizeUrl(url) == None
  {
    StripBlank(url);
    NormalizeUrlAddsScheme(url);
    assert HostPart([]) == [];
  }

  /** What normalize_url returns is stripped, starts with `http://` or
      `https://` (any letter case) and has a non-empty host part. */
  lemma NormalizeUrlWellFormed(url: string)
    requires NormalizeUrl(url).Some?
    ensures var r := NormalizeUrl(url).value;
      IsStripped(r) && SchemePrefixLength(r) > 0 && HostPart(r[SchemePrefixLength(r)..]) != []
  {
    var s := Strip(url);
    StripSlice(url);
    if HasHttpPrefix(s) && SchemePrefixLength(s) == 0 {
      NormalizeUrlRejectsLongS(url);
    } else if HasHttpPrefix(s) {
      NormalizeUrlKeepsScheme(url);
    } else {
      NormalizeUrlAddsScheme(url);
      PrefixedWellFormed(s);
    }
  }

  lemma PrefixedWellFormed(s: string)
    requires IsStripped(s) && HostPart(s) != []
    ensures var full := "http://" + s;
      IsStripped(full) && SchemePrefixLength(full) == 7 && full[7..] == s
  {
    var full := "http://" + s;
    assert s != [];
    assert full[|full| - 1] == s[|s| - 1];
  }

  /** normalize_url strips before anything else: surrounding whitespace never
      changes its outcome. */
  lemma NormalizeUrlIgnoresPadding(url: string)
    ensures NormalizeUrl(Strip(url)) == NormalizeUrl(url)
  {
    StripIdempotent(url);
  }

  /** Normalising a normalised URL changes nothing. */
  lemma NormalizeUrlIdempotent(url: string)
    requires NormalizeUrl(url).Some?
    ensures NormalizeUrl(NormalizeUrl(url).value) == NormalizeUrl(url)
  {
    var r := NormalizeUrl(url).value;
    NormalizeUrlWellFormed(url);
    StripStripped(r);
    NormalizeUrlKeepsScheme(r);
  }

  /** A scheme with nothing after it, such as "https://", is rejected. */
  lemma NormalizeUrlRejectsBareScheme(url: string)
    requires 0 < SchemePrefixLength(Strip(url)) == |Strip(url)|
    ensures NormalizeUrl(url) == None
  {
    var s := Strip(url);
    var n := SchemePrefixLength(s);
    assert s[n..] == [];
    assert HostPart([]) == [] by {
      assert RemoveUnsafe([]) == [];
    }
    NormalizeUrlKeepsScheme(url);
  }

  /** A character of a host name: an ASCII letter or digit, '.' or '-'. */
  predicate IsHostChar(ch: char) {
    IsAsciiAlnum(ch) || ch == '.' || ch == '-'
  }

  lemma {:induction false} TakeNetlocWhole(s: string)
    requires forall i :: 0 <= i < |s| ==> !IsNetlocDelimiter(s[i])
    ensures TakeNetloc(s) == s
  {
    if s != [] {
      TakeNetlocWhole(s[1..]);
    }
  }

  /** Without a ':' where the scheme's must be, there is no http(s) prefix. */
  lemma NoColonNoScheme(u: string)
    requires |u| >= 6 && u[4] != ':' && u[5] != ':'
    ensures !HasHttpPrefix(u)
  {
  }

  /** A bare host name, with or without whitespace around it, gains "http://":
      normalize("example.com") is "http://example.com". */
  lemma NormalizeUrlBareHost(before: string, host: string, after: string)
    requires forall k :: 0 <= k < |before| ==> IsSpace(before[k])
    requires forall k :: 0 <= k < |after| ==> IsSpace(after[k])
    requires host != [] && forall k :: 0 <= k < |host| ==> IsHostChar(host[k])
    ensures NormalizeUrl(before + host + after) == Some("http://" + host)
  {
    var url := before + host + after;
    BareHostParts(host);
    StripPadded(before, host, after);
    NormalizeUrlAddsScheme(url);
  }

  /** A bare host name has nothing to strip, no scheme, and is its own host part. */
  lemma BareHostParts(host: string)
    requires host != [] && forall k :: 0 <= k < |host| ==> IsHostChar(host[k])
    ensures IsStripped(host) && !HasHttpPrefix(host) && HostPart(host) == host
  {
    assert IsHostChar(host[0]) && IsHostChar(host[|host| - 1]);
    if |host| >= 7 {
      assert IsHostChar(host[4]) && IsHostChar(host[5]);
      NoColonNoScheme(host);
    }
    assert forall k :: 0 <= k < |host| ==> !IsUnsafeUrlChar(host[k]) && !IsNetlocDelimiter(host[k]);
    RemoveUnsafeClean(host);
    TakeNetlocWhole(host);
  }
}
