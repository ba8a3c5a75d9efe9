# pastebin-lite core, modelled in Dafny

This project models the core of a small paste-sharing service:

- **Paste policy** (`paste.dfy`, module `Paste`): the paste record and its
  store key `paste:<id>`, plus the three pure decisions made over a record and
  an instant `nowMs`:
  - time-to-live expiry;
  - view-limit exhaustion;
  - remaining views, together with the null/non-null expiry instant.
- **Create endpoint** (`create_route.dfy`, module `CreateRoute`):
  - validation of the parsed request body, with its fixed check order and its
    exact error messages;
  - the record built from valid input;
  - the write to the store;
  - the share URL `protocol://host/p/<id>`.
- **Paste store** (`kv.dfy`, module `Kv`): the Redis-backed store as an
  immutable state, a "configured" flag plus a map from keys to values. The
  operations are state-to-state functions applied one at a time:
  - store a paste, with a zero view counter under `paste:<id>:views` when the
    paste has a view limit;
  - read a paste;
  - atomically increment the counter, returning the new value;
  - read the counter;
  - health probe.

Supporting modules:
- `text.dfy`, module `Text`: JavaScript `trim` over the ECMA-262 whitespace and
  line-terminator set, and the UTF-8 encoder whose output length is the
  size limit's measure (RFC 3629).
- `json.dfy`, module `Json`: the parsed JSON body. A number is either an
  integer or not.
- `wrappers.dfy`, module `Wrappers`: `Option` models `null`/`undefined`, and
  `Result` models an operation that may throw.

Numbers are unbounded integers: milliseconds, seconds and counts. Strings are
sequences of Unicode scalar values.

Two behaviours of the code are worth naming:
- `isPasteExpired` and `getExpiresAt` guard the TTL with a truthiness test
  (src/lib/paste.ts:23, 34), so a TTL of `0` disables expiry just as an absent
  TTL does. `isViewLimitExceeded` and `getRemainingViews` guard the view limit
  with `== null` (src/lib/paste.ts:29, 40), so a limit of `0` is already
  exhausted.
- `setPaste` makes two separate writes: the record (src/lib/kv.ts:25), then
  the counter (src/lib/kv.ts:27). The model has no store failure other than
  "not configured", so a partly applied write cannot occur in it.

## Model

| member | source | states |
|---|---|---|
| Paste.PasteKey | src/lib/paste.ts:15-17 | the key is the prefix `paste:` followed by the id, and nothing else |
| Paste.PasteKeyInjective | src/lib/paste.ts:15-17 | two ids have the same key exactly when they are the same id |
| Paste.IsPasteExpired | src/lib/paste.ts:19-26 | expired exactly when `getExpiresAt` reports an instant and `nowMs` has reached it |
| Paste.IsViewLimitExceeded | src/lib/paste.ts:28-31 | exceeded exactly when the remaining-views figure is present and 0 |
| Paste.NoTtlNeverExpires | src/lib/paste.ts:23 | with the TTL absent or 0, the paste is never expired at any instant |
| Paste.ExpiredIffPastDeadline | src/lib/paste.ts:23-25 | with a nonzero TTL T, expired exactly when `nowMs >= createdAt + T*1000` |
| Paste.ExpiryBoundary | src/lib/paste.ts:24-25 | for T > 0: visible at creation and at deadline minus 1 ms, expired at the deadline |
| Paste.ExpiryMonotone | src/lib/paste.ts:24-25 | once expired at t, expired at every later instant |
| Paste.GetExpiresAt | src/lib/paste.ts:33-37 | an expiry instant exists exactly when the TTL is truthy, and it is `createdAt + T*1000` |
| Paste.ExpiresAtNoneIffNeverExpires | src/lib/paste.ts:19-37 | no expiry instant exactly when the paste is unexpired at every instant; otherwise expired exactly from that instant on |
| Paste.ViewLimitExceededIff | src/lib/paste.ts:28-31 | exceeded exactly when a limit is present and the view count reaches it; a limit of 0 counts as exceeded |
| Paste.GetRemainingViews | src/lib/paste.ts:39-42 | null exactly without a limit; otherwise never negative, at least limit minus views, and equal to 0 or to limit minus views, i.e. their maximum |
| Paste.RemainingZeroIffExceeded | src/lib/paste.ts:28-42 | with a limit, zero remaining views exactly when the limit is exceeded |
| Paste.RemainingViewsAntitone | src/lib/paste.ts:39-42 | more recorded views never increase the remaining views |
| Json.Field | src/app/api/pastes/route.ts:19 | a field reads as undefined exactly when the key is missing; otherwise it reads the stored value |
| Text.Trim | src/app/api/pastes/route.ts:20-23 | the result is the input minus a whitespace prefix and suffix; it does not start or end with whitespace; it is empty exactly when the input is all whitespace |
| Text.TrimIdempotent | src/app/api/pastes/route.ts:23 | trimming trimmed content changes nothing |
| Text.EncodeChar | src/app/api/pastes/route.ts:24 | a code point encodes to 1 to 4 bytes by range; the lead byte determines the length; the other bytes are continuation bytes |
| Text.EncodeCharRoundTrip | src/app/api/pastes/route.ts:24 | decoding a code point's bytes gives back the code point |
| Text.Encode | src/app/api/pastes/route.ts:24 | the encoder's byte count equals the sum of the per-code-point lengths, and the output begins with the first character's encoding |
| Text.Utf8LengthBounds | src/app/api/pastes/route.ts:24 | between one and four bytes per character; zero bytes only for the empty string |
| Text.Utf8LengthAppend | src/app/api/pastes/route.ts:24 | the byte length of a concatenation is the sum of the parts' byte lengths |
| Text.Utf8LengthAscii | src/app/api/pastes/route.ts:24 | ASCII text takes one byte per character |
| CreateRoute.ValidationError.Message | src/app/api/pastes/route.ts:17-34 | the body-shape error is "Missing or invalid body"; every other message starts with the name of the field at fault |
| CreateRoute.Decimal | src/app/api/pastes/route.ts:25 | the interpolated number renders as its canonical decimal digits: they read back as that number, with no leading zero |
| CreateRoute.TooLargeMessage | src/app/api/pastes/route.ts:13-25 | the oversize error reads "content must be at most 512 KB", since 524288 / 1024 = 512 |
| CreateRoute.MessagesDistinct | src/app/api/pastes/route.ts:16-36 | each failed check has its own error message |
| CreateRoute.AsCount | src/app/api/pastes/route.ts:27-43 | an accepted count passes through unchanged: absent stays absent, and a present one is the integer that was sent, at least 1 |
| CreateRoute.ValidateBody | src/app/api/pastes/route.ts:15-44 | success carries valid input: non-empty, already trimmed, at most 512 KiB, counts absent or >= 1. The content is the trim of the sent string, and ttl/max-views are present exactly when sent, with the sent values |
| CreateRoute.ValidateSteps | src/app/api/pastes/route.ts:16-43 | each stage, once the earlier stages pass, fails with its own error exactly when its check fails; when all pass, validation succeeds |
| CreateRoute.ValidateFirstFailure | src/app/api/pastes/route.ts:16-36 | the error returned is the earliest failing check in the order body shape, content, size, ttl, max views, with each check stated on its own |
| CreateRoute.ValidateSucceedsIff | src/app/api/pastes/route.ts:15-44 | validation succeeds exactly when all five checks pass |
| CreateRoute.ValidateInvalidBody | src/app/api/pastes/route.ts:16-18 | null, a non-object, or an object without `content` gives exactly "Missing or invalid body" |
| CreateRoute.SizeBoundary | src/app/api/pastes/route.ts:13-26 | trimmed content of exactly 524288 bytes is accepted; 524289 bytes is rejected as too large |
| CreateRoute.BuildRecord | src/app/api/pastes/route.ts:69-75 | the record is created at `now`, unviewed, and carries the input's content and limits. A positive TTL leaves it unexpired at creation. A non-negative limit leaves exactly that many views. It is over its limit only for a limit of 0 or less |
| CreateRoute.FreshRecordVisible | src/app/api/pastes/route.ts:69-75 | the record built from valid input has 0 views, `createdAt = now`, and the input's content and limits; it is unexpired at creation, under its view limit, and has all its views remaining |
| CreateRoute.GetBaseUrl | src/app/api/pastes/route.ts:7-11 | the base URL splits into the protocol (`x-forwarded-proto`, default `https`), then `://`, then the host (`host`, default empty) |
| CreateRoute.ShareUrl | src/app/api/pastes/route.ts:87-88 | the link is the base URL, then `/p/`, then the id |
| CreateRoute.ShareUrlDefaults | src/app/api/pastes/route.ts:7-11 | without headers, the protocol defaults to `https` and the host to the empty string |
| CreateRoute.ShareUrlRoundTrip | src/app/api/pastes/route.ts:87-88 | for an id without '/', the link's last path segment is the id |
| CreateRoute.Post | src/app/api/pastes/route.ts:46-91 | a body that is not JSON gets "Invalid JSON". A valid body on a configured store gets a 201 with the id and its link, and the store afterwards is exactly what `setPaste` leaves for the record built from the body. A 400 or a 503 leaves the store unchanged, and a 503 happens only when the store is unconfigured |
| CreateRoute.PostRejectsInvalid | src/app/api/pastes/route.ts:57-63 | an invalid body is answered with its validation message, and nothing is stored |
| CreateRoute.PostUnconfigured | src/app/api/pastes/route.ts:77-85 | valid input with an unconfigured store gets "Storage unavailable", and nothing is stored |
| CreateRoute.PostThenRead | src/app/api/pastes/route.ts:65-78 | for every valid body, creating then reading back gives the record built from it, holding the trimmed content; with `max_views` sent, the counter starts at 0 |
| CreateRoute.CreateThenRead | src/app/api/pastes/route.ts:65-78 | creating a paste, then reading it back, gives the trimmed content, unexpired, with remaining views null |
| Kv.CounterKey | src/lib/kv.ts:37 | the counter key splits into the paste key and the `:views` suffix, so the paste key reads back from it |
| Kv.GetPaste | src/lib/kv.ts:15-20 | null when unconfigured or the key is absent; otherwise whatever the record key holds |
| Kv.SetPaste | src/lib/kv.ts:22-29 | fails exactly when unconfigured. It stores the record at the paste key. It sets the counter to 0 only with a view limit; otherwise the counter key is untouched. No other key changes |
| Kv.IncrementViewCount | src/lib/kv.ts:35-40 | the new count is the previous one plus 1, with absent meaning 0. Only the counter key changes. It succeeds on a configured store whose counter is absent or holds a count, and fails when unconfigured or when the key holds a record |
| Kv.GetViewCount | src/lib/kv.ts:42-47 | 0 when unconfigured or the counter is absent; otherwise the stored value; a pure read that yields no new state |
| Kv.Ping | src/lib/kv.ts:49-57 | true exactly when the store is configured and the round trip succeeds |
| Kv.PingIffWritable | src/lib/kv.ts:49-57 | on a reachable store the probe answers true exactly when a paste write succeeds, and exactly when an increment is not refused as unconfigured; an unreachable store always probes false |
| Kv.UnconfiguredStore | src/lib/kv.ts:15-50 | unconfigured: reads give null and 0, the probe gives false, and the write and the increment fail |
| Kv.RecordKeyMeetsCounterKey | src/lib/kv.ts:13-37 | a paste key equals a counter key exactly when the paste id is the counter's id followed by `:views` |
| Kv.RecordKeyNotCounterKey | src/lib/kv.ts:13-37 | a paste key whose id has no ':' is never a counter key |
| Kv.CounterKeyInjective | src/lib/kv.ts:37 | two ids have the same counter key exactly when they are the same id |
| Kv.SetThenGet | src/lib/kv.ts:15-29 | after a store, reading returns the record; with a view limit, the counter reads 0 and the next increment returns 1 |
| Kv.OtherPastesUntouched | src/lib/kv.ts:22-40 | storing or incrementing one colon-free id leaves every other colon-free id's record and counter as they were |
| Kv.IncrementsCount | src/lib/kv.ts:31-39 | from a counter at c, k successive increments return c+1, ..., c+k, so the values are distinct and strictly increasing; the counter ends at c+k |
| Kv.CountsAfterCreate | src/lib/kv.ts:22-39 | after creating a paste limited to n views, the first n increments return values in 1..n, and the next one returns more than n |

## Left out

- The read endpoints (`GET /api/pastes/[id]`, the `/p/[id]` page) are not part of this model. They combine these operations into the read-visibility sequence. The health endpoint is also not modelled; it only wraps `Ping`. The form UI is not modelled either.
- `src/lib/time.ts` is not part of this model. It reads the clock, the environment, and a test header. "Now" is a parameter instead.
- JSON parsing of the request body: `Post` receives `None` for a body that is not valid JSON. HTTP status codes are implicit in the `Response` constructors, and logging is dropped.
- `randomUUID()` and `Date.now()` are parameters of `Post`.
- `Paste.GetExpiresAt`: returns the expiry instant in milliseconds, not its ISO-8601 string. `Date.toISOString` throws for instants beyond its range, and that is not modelled.
- Kv.Ping: the network round trip is the parameter `reachable`. Redis errors other than "not configured" and INCR on a non-integer are not modelled: a failed write or a failed read does not occur in the model.
- Kv.SetPaste: a failure between the record write and the counter write is not modelled, so a partly applied write cannot occur in the model.
- Kv.IncrementViewCount: does not model Redis' error when a counter would pass 2^63 - 1, because integers are unbounded. Atomicity under concurrent requests is assumed: operations apply one at a time.
- Upstash serializes records to JSON and back. The model assumes this is lossless, with an absent optional field read back as absent.
- Kv.GetPaste and Kv.GetViewCount return the raw stored value. That is a record or a count, whichever the key holds. The TypeScript types only assume the expected kind.
- JavaScript numbers: integers are unbounded, and non-integers collapse to `NonInteger`. `NaN` and float overflow of `ttlSeconds * 1000` are not modelled.
- Strings containing lone UTF-16 surrogates cannot be represented. `TextEncoder` would encode each of them as U+FFFD.
- Header names are looked up as lower-case map keys. Case-insensitive matching and repeated headers are not modelled.
