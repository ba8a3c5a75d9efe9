/** The paste record, its storage key, and the expiry / view-limit policy
    (src/lib/paste.ts). Times are milliseconds, TTLs seconds, both unbounded
    integers. */
module Paste {
  import opened Wrappers

  /** A stored paste. `ttlSeconds` and `maxViews` are optional;
      `viewCount` is the informational count kept on the record itself. */
  datatype PasteRecord = PasteRecord(
    content: string,
    createdAt: int,
    ttlSeconds: Option<int>,
    maxViews: Option<int>,
    viewCount: int)

  /** A validated create request, with the request's own field names. */
  datatype CreatePasteInput = CreatePasteInput(
    content: string,
    ttl_seconds: Option<int>,
    max_views: Option<int>)

  const KEY_PREFIX := "paste:"

  /** The store key of a paste. */
  function PasteKey(id: string): (k: string)
    ensures |k| == |KEY_PREFIX| + |id|
    ensures k[..|KEY_PREFIX|] == KEY_PREFIX && k[|KEY_PREFIX|..] == id
  {
    KEY_PREFIX + id
  }

  /** Distinct ids never share a key. */
  lemma PasteKeyInjective(a: string, b: string)
    ensures PasteKey(a) == PasteKey(b) <==> a == b
  {
  }

  /** The TTL guard is a JavaScript truthiness test: an absent TTL and a TTL
      of 0 both switch expiry off. */
  predicate TtlActive(r: PasteRecord) {
    r.ttlSeconds.Some? && r.ttlSeconds.value != 0
  }

  /** Creation time plus the TTL in milliseconds. */
  function Deadline(r: PasteRecord): int
    requires r.ttlSeconds.Some?
  {
    r.createdAt + r.ttlSeconds.value * 1000
  }

  /** Expired once `nowMs` reaches the instant `getExpiresAt` reports;
      never expired when there is no such instant. */
  predicate IsPasteExpired(r: PasteRecord, nowMs: int)
    ensures IsPasteExpired(r, nowMs) <==> GetExpiresAt(r).Some? && nowMs >= GetExpiresAt(r).value
  {
    if !TtlActive(r) then false else nowMs >= Deadline(r)
  }

  /** Exceeded exactly when the remaining-views figure is present and 0. */
  predicate IsViewLimitExceeded(r: PasteRecord)
    ensures IsViewLimitExceeded(r) <==> GetRemainingViews(r) == Some(0)
  {
    if r.maxViews.None? then false else r.viewCount >= r.maxViews.value
  }

  /** The expiry instant that `getExpiresAt` renders as an ISO string. */
  function GetExpiresAt(r: PasteRecord): (e: Option<int>)
    ensures e.Some? <==> TtlActive(r)
    ensures e.Some? ==> e.value == Deadline(r)
  {
    if !TtlActive(r) then None else Some(Deadline(r))
  }

  function GetRemainingViews(r: PasteRecord): (v: Option<int>)
    ensures v.None? <==> r.maxViews.None?
    ensures v.Some? ==> v.value >= 0 && v.value >= r.maxViews.value - r.viewCount
    ensures v.Some? ==> v.value == 0 || v.value == r.maxViews.value - r.viewCount
  {
    if r.maxViews.None? then None
    else if r.maxViews.value - r.viewCount > 0 then Some(r.maxViews.value - r.viewCount)
    else Some(0)
  }

  /** Without a TTL, or with a TTL of 0, a paste never expires. */
  lemma NoTtlNeverExpires(r: PasteRecord, nowMs: int)
    requires r.ttlSeconds.None? || r.ttlSeconds.value == 0
    ensures !IsPasteExpired(r, nowMs)
  {
  }

  /** With a nonzero TTL, a paste is expired exactly from its deadline on. */
  lemma ExpiredIffPastDeadline(r: PasteRecord, nowMs: int)
    requires r.ttlSeconds.Some? && r.ttlSeconds.value != 0
    ensures IsPasteExpired(r, nowMs) <==> nowMs >= r.createdAt + r.ttlSeconds.value * 1000
  {
  }

  /** A TTL of T > 0 seconds: still visible one millisecond before
      `createdAt + T*1000`, expired at that instant. */
  lemma ExpiryBoundary(r: PasteRecord)
    requires r.ttlSeconds.Some? && r.ttlSeconds.value > 0
    ensures !IsPasteExpired(r, r.createdAt + r.ttlSeconds.value * 1000 - 1)
    ensures IsPasteExpired(r, r.createdAt + r.ttlSeconds.value * 1000)
    ensures !IsPasteExpired(r, r.createdAt)
  {
  }

  /** Once expired, a paste stays expired. */
  lemma ExpiryMonotone(r: PasteRecord, t: int, t': int)
    requires t <= t'
    ensures IsPasteExpired(r, t) ==> IsPasteExpired(r, t')
  {
  }

  /** `getExpiresAt` is null exactly for the pastes that never expire, and
      otherwise names the first expired instant. */
  lemma {:induction false} ExpiresAtNoneIffNeverExpires(r: PasteRecord)
    ensures GetExpiresAt(r).None? <==> forall t :: !IsPasteExpired(r, t)
    ensures GetExpiresAt(r).Some? ==>
      forall t :: IsPasteExpired(r, t) <==> t >= GetExpiresAt(r).value
  {
    if GetExpiresAt(r).Some? {
      assert IsPasteExpired(r, Deadline(r));
    }
  }

  /** The view limit is a `== null` test, so a present limit of 0 is
      already exhausted. */
  lemma ViewLimitExceededIff(r: PasteRecord)
    ensures IsViewLimitExceeded(r) <==> r.maxViews.Some? && r.viewCount >= r.maxViews.value
    ensures r.maxViews == Some(0) && r.viewCount >= 0 ==> IsViewLimitExceeded(r)
  {
  }

  /** For a limited paste, no views remain exactly when the limit is exceeded. */
  lemma RemainingZeroIffExceeded(r: PasteRecord)
    requires r.maxViews.Some?
    ensures GetRemainingViews(r) == Some(0) <==> IsViewLimitExceeded(r)
  {
  }

  /** More views recorded never means more views remaining. */
  lemma RemainingViewsAntitone(r: PasteRecord, more: nat)
    requires r.maxViews.Some?
    ensures GetRemainingViews(r.(viewCount := r.viewCount + more)).value
            <= GetRemainingViews(r).value
  {
  }
}
