/** models.py: the `links` table's record and its expiry test. Timestamps
    are whole seconds on one UTC clock; the current time is passed in. */
module Models {
  import opened Wrappers

  /** The declared width of the `code` column. */
  const MAX_CODE_LENGTH: nat := 16

  /** One row of `links`: the short code that names it, the target URL, when
      it was made, when (if ever) it stops redirecting, and how often it has. */
  datatype Link = Link(
    code: string,
    originalUrl: string,
    createdAt: int,
    expiresAt: Option<int>,
    clicks: nat)

  /** A record built from a code, a URL and an expiry and inserted at time
      `now`: the column defaults give `created_at = now` and `clicks = 0`. */
  function NewLink(code: string, originalUrl: string, now: int, expiresAt: Option<int>): (link: Link)
    ensures link.clicks == 0 && link.createdAt == now
    ensures link.code == code && link.originalUrl == originalUrl && link.expiresAt == expiresAt
  {
    Link(code, originalUrl, now, expiresAt, 0)
  }

  /** Whether the link has expired at time `now`. */
  predicate IsExpired(link: Link, now: int) {
    link.expiresAt.Some? && now >= link.expiresAt.value
  }

  /** A link without an expiry never expires; one with an expiry is expired
      from that instant on, the instant itself included. */
  lemma ExpiryBoundary(link: Link, now: int)
    ensures link.expiresAt.None? ==> !IsExpired(link, now)
    ensures link.expiresAt.Some? ==> (IsExpired(link, now) <==> link.expiresAt.value <= now)
    ensures link.expiresAt.Some? ==> IsExpired(link, link.expiresAt.value)
  {
  }

  /** Once expired, a link stays expired. */
  lemma ExpiryMonotone(link: Link, now: int, later: int)
    requires now <= later && IsExpired(link, now)
    ensures IsExpired(link, later)
  {
  }

  /** Expiry depends on nothing the store changes: counting a click does not
      revive or expire a link. */
  lemma ExpiryIgnoresClicks(link: Link, clicks: nat, now: int)
    ensures IsExpired(link.(clicks := clicks), now) == IsExpired(link, now)
  {
  }
}
