# Contact-form abuse gate, contact mailer and blog listing endpoint — a Dafny model

This project models the server-side core of a personal website:

- **The contact form's abuse gate** (`app/lib/abuse.server.ts`):
  - a per-IP fixed-window rate limiter and a per-IP duplicate-content throttle. Both keep their records in process-wide JavaScript `Map`s with an expiry time, and both prune them with a bounded sweep of at most 50 entries;
  - the minimum fill-time check and the 32-bit content hash;
  - the client-IP choice from proxy headers, the Origin/Referer check, and the fail-open bot check.
- **The contact mailer** (`app/lib/email.server.ts`):
  - header-value and address sanitising, and the subject line;
  - the required-settings check and the TLS flag;
  - the exact message handed to the SMTP relay.
- **The blog listing endpoint** (`app/routes/api/blog.ts`):
  - word-boundary snippet truncation and the choice of snippet text;
  - clamping of `offset`/`limit`, parsing of the `tags` list;
  - the filter conditions of the content-store query, and the `nextOffset`/`hasMore` paging answer.

Layout:

| file | module | contents |
|---|---|---|
| `wrappers.dfy` | `Wrappers` | `Option` (JavaScript `undefined`/`null`), `Result` (a value or what would be thrown), map lookup |
| `text.dfy` | `Text` | the string built-ins the core uses: `trim`, `slice`, the empty-string default of the logical OR, ASCII `toLowerCase`, `lastIndexOf`, `split` on one character and `join` with any separator, with split/join round trips |
| `js_map.dfy` | `JsMap` | an insertion-ordered JavaScript `Map` (`Table` as a value, `Store` as a mutable object) and the bounded sweep `CleanupExpired` |
| `abuse.dfy` | `Abuse` | rate limiting and duplicate throttling (pure transitions plus the `AbuseGate` object that performs them in place), the fill-time check, client IP, origin and bot checks, the content hash |
| `email.dfy` | `Email` | sanitisers, subject, configuration check, TLS flag, message composition |
| `blog_api.dfy` | `BlogApi` | snippet truncation and choice, request parameters, filter list, paging answer |

How the model is built:

- A string is a sequence of `char`s, one per UTF-16 code unit of the JavaScript string. This holds for text inside the Basic Multilingual Plane, which is the text the model covers; `length`, `slice` and `charCodeAt` then count the same units as the source.
- Every operation receives the current time `now` as a parameter.
- Process environment variables and request headers are maps.
- The two stateful operations are modelled twice, and the two are proved equal:
  - as pure transitions on the table value (`RateLimitStep`, `ThrottleStep`);
  - as methods that update the `Store` object in place (`AbuseGate.RateLimit`, `AbuseGate.ThrottleDuplicates`).
- The sweep is a loop over the key order, proved against the function `Sweep`.
- The hash loop folds with a signed 32-bit truncation. It is proved to equal the polynomial sum of the code units modulo 2^32, printed in decimal.

## Model

| member | source | states |
|---|---|---|
| JsMap.Table.Put | app/lib/abuse.server.ts:105 | `map.set`: the key now holds the value, every other key is unchanged, a new key goes to the end of the iteration order and an existing key keeps its place; the table stays well formed |
| JsMap.Table.Remove | app/lib/abuse.server.ts:182 | `map.delete`: exactly that key disappears, other values are unchanged, the table stays well formed |
| JsMap.Table.RemoveKeepsOrder | app/lib/abuse.server.ts:182 | deleting the key at position `i` leaves the iteration order with just that position removed: the keys before and after keep their relative order |
| JsMap.Table.RemoveAbsent | app/lib/abuse.server.ts:182 | deleting a key that is not present changes nothing |
| JsMap.Empty | app/lib/abuse.server.ts:37-38 | `new Map()`: no entries, well formed |
| JsMap.Store.constructor | app/lib/abuse.server.ts:37-38 | a new Map object is empty and well formed |
| JsMap.Store.Get | app/lib/abuse.server.ts:101 | `map.get`: a value exactly when the key is present, and it is the stored one |
| JsMap.Store.Set | app/lib/abuse.server.ts:105 | the object's new contents are the old contents with `Put` applied, and it stays well formed |
| JsMap.Store.Delete | app/lib/abuse.server.ts:182 | the object's new contents are the old contents with `Remove` applied |
| JsMap.Sweep | app/lib/abuse.server.ts:174-186 | what a sweep leaves: every entry among the first 50 in iteration order that has expired by `now` is deleted, and only such entries are; every live entry and every entry beyond the first 50 survives with its value; the iteration order is the old order with exactly the deleted keys dropped; the table stays well formed |
| JsMap.CleanupExpired | app/lib/abuse.server.ts:174-186 | the loop over the Map (deleting expired entries, stopping after the 50th visited) leaves exactly `Sweep` of the old contents |
| JsMap.Without | app/lib/abuse.server.ts:182 | removing keys from the iteration order keeps exactly the other keys, without duplicates |
| JsMap.WithoutAppend | app/lib/abuse.server.ts:182 | removal works piece by piece, so the kept keys stay in their relative order |
| JsMap.WithoutAbsent | app/lib/abuse.server.ts:182 | removing keys none of which occur leaves the order as it was |
| JsMap.PrunedRemove | app/lib/abuse.server.ts:181-183 | deleting one more key during the walk is the same as pruning the larger key set |
| Abuse.RateLimitStep | app/lib/abuse.server.ts:100-117 | refused exactly when the IP has a live bucket already at the maximum, and then nothing changes and the retry time is the positive time left in that window; with no live bucket the table becomes the old one with a fresh bucket (count 1, window from `now`) set for the IP and then swept of expired buckets; a live bucket under the limit gets its count raised by one in place (same expiry, same iteration order); other IPs' buckets are unchanged or swept if expired; live buckets are never lost |
| Abuse.ThrottleStep | app/lib/abuse.server.ts:125-140 | refused, with nothing changed, exactly when the IP's last hash is live and equal to the new one; otherwise the table becomes the old one with the new hash and a fresh window set for the IP, then swept of expired records; other records unchanged or swept if expired; live records never lost |
| Abuse.RateLimitKeepsCountsInRange | app/lib/abuse.server.ts:104-116 | every stored count stays within 1 and the maximum across a call |
| Abuse.RetryAfterAtMostWindow | app/lib/abuse.server.ts:105-112 | with non-decreasing call times, every window ends within one window length of the latest call, so a refusal never asks for more than one window of waiting |
| Abuse.LiveBucketAdmits | app/lib/abuse.server.ts:111-116 | while a bucket with count `c` stays live, exactly `min(calls, max - c)` further calls are allowed |
| Abuse.WindowAdmitsExactlyMax | app/lib/abuse.server.ts:100-117 | of any run of calls that fall within one window of the first one, exactly `min(calls, max)` are allowed |
| Abuse.RepeatWithinWindowIsDuplicate | app/lib/abuse.server.ts:130-136 | after an accepted submission, a second one from the same IP within the window is refused exactly when its hash is the same |
| Abuse.AbuseGate.RateLimit | app/lib/abuse.server.ts:100-117 | the method updates the bucket Map in place to exactly `RateLimitStep`'s table and returns its result; the hash Map is untouched; counts stay within 1 and the maximum |
| Abuse.AbuseGate.ThrottleDuplicates | app/lib/abuse.server.ts:125-140 | the method updates the hash Map in place to exactly `ThrottleStep`'s table and returns its result; the bucket Map is untouched |
| Abuse.AbuseGate.constructor | app/lib/abuse.server.ts:24-38 | two distinct empty Maps with the given maximum and window |
| Abuse.IsTooFast | app/lib/abuse.server.ts:86-89 | a missing, NaN or zero start time is always too fast; otherwise too fast exactly when less than the minimum time has passed |
| Abuse.IsTooFastMonotone | app/lib/abuse.server.ts:86-89 | waiting longer never turns an accepted fill time into a rejected one |
| Abuse.FirstForwarded | app/lib/abuse.server.ts:45-51 | "" when X-Forwarded-For is absent; otherwise the header's text up to its first comma (all of it when there is none), trimmed; the result is trimmed and holds no comma |
| Abuse.GetClientIp | app/lib/abuse.server.ts:44-55 | never empty; the first X-Forwarded-For entry when non-blank, else CF-Connecting-IP when non-empty, else X-Real-IP when non-empty, else "unknown" |
| Abuse.ClientIpIsFirstForwardedEntry | app/lib/abuse.server.ts:45-51 | for a header `first,rest` (or just `first`), the first forwarded entry is `first` trimmed, and when that is not blank it is the client IP |
| Abuse.ClaimedOrigin | app/lib/abuse.server.ts:161 | the Origin header when non-empty, else the Referer header; empty exactly when both are missing or empty |
| Abuse.OriginAllowed | app/lib/abuse.server.ts:158-169 | passes when no site URL is configured or no Origin/Referer was sent; otherwise passes exactly when both URLs parse and their hosts are equal (an unparsable URL fails closed) |
| Abuse.LooksLikeBot | app/lib/abuse.server.ts:60-80 | a bot exactly when the detector returns a positive verdict on the User-Agent (or ""); a detector failure counts as not a bot |
| Abuse.ToInt32 | app/lib/abuse.server.ts:149 | the bitwise OR with 0 gives a signed 32-bit value congruent to `x` modulo 2^32 |
| Abuse.PolySumAppend | app/lib/abuse.server.ts:148-150 | appending a code unit multiplies the polynomial sum by 31 and adds the unit: the sum is what the loop folds |
| Abuse.HashStepCongruent | app/lib/abuse.server.ts:149 | truncating to 32 bits after each step does not change the value modulo 2^32 |
| Abuse.HashContent | app/lib/abuse.server.ts:146-152 | the result is the decimal string of the sum of `s[i] * 31^(n-1-i)` modulo 2^32 |
| Abuse.DecimalString | app/lib/abuse.server.ts:151 | `String(n)` for `n >= 0`: non-empty, digits only, no leading zero |
| Abuse.DecimalRoundTrip | app/lib/abuse.server.ts:151 | reading the decimal string back gives the number |
| Abuse.HashValueRange | app/lib/abuse.server.ts:146-152 | the empty string hashes to "0", and every hash denotes a number in [0, 2^32) |
| Email.CollapseBreaks | app/lib/email.server.ts:35 | `replace(/[\r\n]+/g, " ")`: no CR or LF remains, the text gets no longer, and text without breaks is unchanged |
| Email.CollapseKeepsPlainText | app/lib/email.server.ts:35 | break-free text passes through untouched in front of whatever follows |
| Email.CollapseRunToSpace | app/lib/email.server.ts:35 | a whole run of CR/LF becomes exactly one space |
| Email.SanitizeHeaderValue | app/lib/email.server.ts:34-36 | the input with each CR/LF run collapsed to a space, then trimmed; so the result has no CR/LF, no surrounding whitespace, and is no longer than the input; a value without line breaks or surrounding whitespace is returned unchanged |
| Email.SanitizedIsCollapsedCore | app/lib/email.server.ts:34-36 | the sanitised value is a contiguous slice of the input with its CR/LF runs collapsed to spaces, and only whitespace lies before and after that slice: nothing else is dropped |
| Email.SanitizeJoinsLines | app/lib/email.server.ts:35 | two trimmed lines joined by any run of CR/LF come out as one line, the run replaced by a single space, with nothing else lost |
| Email.CollapseJoinsLines | app/lib/email.server.ts:35 | a run of CR/LF between two break-free texts becomes a single space |
| Email.SanitizeHeaderValueIdempotent | app/lib/email.server.ts:34-36 | sanitising twice is the same as once |
| Email.RemoveForbidden | app/lib/email.server.ts:44-47 | none of `<>()[]\,;:"'` remains, only characters of the input appear, break-freedom is kept, and clean text is unchanged |
| Email.RemoveForbiddenAppend | app/lib/email.server.ts:44-47 | removal works piece by piece, so the kept characters stay in their order; with the single-character cases this fixes the result for every input |
| Email.SanitizeEmailAddress | app/lib/email.server.ts:43-49 | no CR/LF and none of the forbidden characters; the first `min(length, 254)` units of the cleaned input, so the whole cleaned input when it fits |
| Email.CleanAddressUnchanged | app/lib/email.server.ts:43-49 | an address that is already clean, trimmed and at most 254 units comes back unchanged |
| Email.BuildSubject | app/lib/email.server.ts:54-58 | no CR/LF and at most 240 units; without a prefix, the sanitised subject cut to 200 units; with one, the first min(240, length) units of "sanitised prefix, space, subject cut to 200" |
| Email.ShortPrefixKeepsWholeBase | app/lib/email.server.ts:54-58 | a sanitised prefix shorter than 40 units never cuts into the 200-unit subject text |
| Email.ConfigError.Message | app/lib/email.server.ts:68-77 | the thrown message is the variable's name followed by " is not set" |
| Email.FirstUnset | app/lib/email.server.ts:67-78 | the position of the first absent or empty variable in the list, or none exactly when all are set |
| Email.AssertEmailConfig | app/lib/email.server.ts:63-79 | fails exactly when one of SMTP_HOST, SMTP_PORT, CONTACT_TO_EMAIL, CONTACT_FROM_EMAIL is absent or empty, and names the first such one in that order |
| Email.SecureFlag | app/lib/email.server.ts:135-137 | TLS exactly when the port is 465 or SMTP_SECURE is "true" in any letter case |
| Email.SafeText | app/lib/email.server.ts:159 | a prefix of the text (missing text reads as "") whose length is the smaller of the text's length and 20000, so the whole text when it fits |
| Email.SafeHtml | app/lib/email.server.ts:160-163 | present exactly when the HTML has non-blank content; then the first `min(length, 50000)` units, so the whole HTML when it fits |
| Email.PlainBody | app/lib/email.server.ts:172 | "From: ", then the address, then two line feeds, then the text, with the length of those four parts; a break-free address fills the whole first line |
| Email.ComposeContactEmail | app/lib/email.server.ts:120-178 | fails with the configuration error exactly when the check fails; otherwise CONTACT_FROM_EMAIL and CONTACT_TO_EMAIL are set and the sender and recipient are their sanitised values, the BCC is present exactly when CONTACT_BCC_EMAIL is set and is then its sanitised value, reply-to, subject (default prefix "[Contact]"), body and HTML are the sanitised forms above, and the only extra header is X-Contact-Form: true |
| Email.ComposedHeadersHaveNoBreaks | app/lib/email.server.ts:155-177 | whenever the configuration check passes the message is composed, and its from, to, BCC, subject and reply-to never carry a line break; the subject is at most 240 and the reply-to at most 254 units |
| Email.ComposedExtraHeaderIsFixed | app/lib/email.server.ts:175-177 | whenever the configuration check passes, the only extra header of the message is X-Contact-Form, and neither its name nor its value carries a line break |
| Email.ContactHeadersClean | app/lib/email.server.ts:175-177 | the extra header map is exactly X-Contact-Form: true, with no CR/LF in any name or value |
| Text.Trim | app/lib/email.server.ts:35 | `trim()`: a contiguous slice of the input with no whitespace at either end, and everything cut off before and after it is whitespace; identity on trimmed text |
| Text.Take | app/lib/email.server.ts:48 | `slice(0, n)`: a prefix of at most `n` units, exactly `n` when the text is long enough, the whole text when it fits |
| Text.OrElse | app/routes/api/blog.ts:54 | the logical-OR default on an optional string: the value when present and non-empty, else the fallback |
| Text.LowerAscii | app/lib/email.server.ts:136 | ASCII capitals map to the matching small letters; every other character is kept |
| Text.ToLowerAscii | app/lib/email.server.ts:136 | same length, each character mapped by `LowerAscii` |
| Text.Max | app/routes/api/blog.ts:49 | `Math.max`: the larger of the two arguments |
| Text.Min | app/routes/api/blog.ts:50-53 | `Math.min`: the smaller of the two arguments |
| Text.Join | app/routes/api/blog.ts:76 | `join(sep)`: empty for no parts, the part itself for one, and the first part followed by the separator for more |
| Text.JoinAppend | app/routes/api/blog.ts:76 | joining two non-empty lists one after the other is joining each and putting the separator between them, which with `Join` of one part fixes the whole joined text |
| Text.Split | app/routes/api/blog.ts:56 | `split(",")`: at least one piece, and no piece holds the separator |
| Text.SplitFirstPiece | app/lib/abuse.server.ts:49-51 | the first piece of `split(c)` is the text up to the first `c`: a prefix of the input followed by `c` or by the end |
| Text.JoinSplit | app/routes/api/blog.ts:56 | joining the pieces with the separator gives back the string |
| Text.SplitJoin | app/routes/api/blog.ts:55-58 | splitting a join of separator-free pieces gives back the pieces |
| Text.LastIndexOf | app/routes/api/blog.ts:42 | `lastIndexOf(c)`: -1 or the index of a `c` with none after it |
| BlogApi.CutPoint | app/routes/api/blog.ts:41-43 | the cut is either at the last space among the first `max - 1` units when that space is past index 40, or hard at `max - 1` when no space lies past index 40 |
| BlogApi.TruncateAtWord | app/routes/api/blog.ts:38-44 | the empty string stays empty; text within `max` is returned whole; longer text is cut at `CutPoint` and followed by the fallback |
| BlogApi.TruncateFits | app/routes/api/blog.ts:38-44 | with the one-unit "…" fallback the result never exceeds `max` units |
| BlogApi.StripMarkdown | app/routes/api/blog.ts:12-13 | empty Markdown gives the empty string; other text is given to the rewrite |
| BlogApi.SnippetBase | app/routes/api/blog.ts:105-110 | the trimmed excerpt when it has non-blank content, otherwise the stripped body (a missing body reads as "") |
| BlogApi.Snippet | app/routes/api/blog.ts:104-111 | at most 200 units; the snippet source (trimmed excerpt, else the stripped body) is shown whole when it fits in 200 units, and otherwise cut at its `CutPoint` and followed by "…"; an excerpt of at most 200 units is shown whole |
| BlogApi.ClampOffset | app/routes/api/blog.ts:49 | never negative; 0 when absent or negative, the given number otherwise |
| BlogApi.ClampLimit | app/routes/api/blog.ts:50-53 | always in [1, 50]; 10 when absent; out-of-range values go to the nearer bound |
| BlogApi.TrimAll | app/routes/api/blog.ts:57 | every piece trimmed, none dropped |
| BlogApi.NonEmpty | app/routes/api/blog.ts:58 | `filter(Boolean)`: only non-empty pieces, every non-empty piece kept, the list unchanged when nothing is empty, empty exactly when every piece was empty |
| BlogApi.NonEmptyAppend | app/routes/api/blog.ts:58 | filtering works piece by piece, so the kept pieces stay in their order |
| BlogApi.TagSlugs | app/routes/api/blog.ts:55-58 | every tag is non-empty, trimmed and free of commas; no parameter gives no tags |
| BlogApi.TagSlugsOfJoin | app/routes/api/blog.ts:55-58 | for a parameter made of comma-separated pieces (which every string is), the tags are those pieces trimmed, the empty ones dropped, in order |
| BlogApi.TagSlugsRoundTrip | app/routes/api/blog.ts:55-58 | a comma-joined list of such slugs is read back as exactly that list |
| BlogApi.BuildFilters | app/routes/api/blog.ts:61-74 | the two base conditions come first; the search condition is present exactly when the trimmed query is non-empty and then comes third; the tag condition is present exactly when tags were given and then comes last |
| BlogApi.BuildListQuery | app/routes/api/blog.ts:49-91 | the requested range is `[offset, offset + limit)` for the clamped offset and limit, so it starts at a non-negative offset and holds 1 to 50 posts; `$q` is present exactly for a non-blank query and is wrapped in `*`; `$tagSlugs` is present exactly when tags were given and is then the parsed tag slugs; the condition text is the filters joined with " && " |
| BlogApi.WhereStartsWithBase | app/routes/api/blog.ts:61-76 | the condition text always starts with the post-type and published conditions |
| BlogApi.NextPage | app/routes/api/blog.ts:115-116 | the next offset moves by the number of posts returned; `hasMore` exactly when it is below the total |
| BlogApi.NextPageFollowsOn | app/routes/api/blog.ts:89-116 | when the store returns the page asked for, the next offset is the end of that page capped at the total, and `hasMore` says exactly whether posts remain after it |

## Left out

- Sending mail: the SMTP transport (`createTransport`, `sendMail`), its result, and the rethrown error are outside the model. `ComposeContactEmail` describes the options handed to the relay.
- Logging (`console.log`/`console.error`) and the clock (`Date.now()`) are left out. The current time is a parameter.
- Fetching from the content store and building the `Response` are left out. The store's posts and total are given as inputs, and the GROQ projection, ordering and count query text are not modelled.
- Calls into code outside the repository are parameters:
  - `BlogApi.StripMarkdown`: the regular-expression rewrites of `stripMarkdown` are the function `rewrite`. Only its empty-input guard is modelled.
  - `Abuse.OriginAllowed`: `new URL(u).host` is the function `hostOf`, with `None` where the constructor throws.
  - `Abuse.LooksLikeBot`: the `isbot` package and its export shapes are the function `detect`.
- Numbers are modelled as integers:
  - `Number(...)` parsing is done before the model sees a value.
  - `BlogApi.ClampOffset`, `BlogApi.ClampLimit`: a non-numeric parameter (NaN, which `Math.max`/`Math.min` propagate) and fractional values are not modelled. An empty or absent parameter is `None`.
  - `Abuse.IsTooFast`: a NaN start time is `None`.
- Concurrency and multiple server processes are not modelled; each process would have its own Maps. Each call runs to completion.
- RATE_LIMIT_MAX and RATE_LIMIT_WINDOW_MS, read once from the environment, are the gate's configuration, fixed at construction. The model requires a positive window and a positive maximum, as their defaults are. MIN_SUBMIT_MS is the `minSubmitMs` parameter of `Abuse.IsTooFast`, the only place the source uses it.
- `Abuse.AbuseGate.RateLimit`: `current.count += 1` mutates the bucket object that the Map holds. Here the Map is a map of values, so the increment is a `set` on the same key. That keeps its place in iteration order, as the in-place update does, but aliasing of bucket objects is not represented.
- Strings holding characters outside the Basic Multilingual Plane are outside the model. A Dafny `char` is a whole Unicode scalar value, never a lone surrogate, so such a character cannot be written as the two UTF-16 units JavaScript stores. For such strings, the model does not capture the lengths, the 200/240/254/20000/50000-unit caps or `hashContent`.
- `Email.SecureFlag`: full Unicode `toLowerCase` is replaced by the ASCII mapping. No non-ASCII character lower-cases to an ASCII letter of "true", so the comparison gives the same answer.
- Request headers are looked up by their lower-case names, as `Headers.get` normalises them.
- The order in which the contact route applies these checks, and the UI components, are not part of this model.
