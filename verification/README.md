# pigeonhole mailbox service — a Dafny model

pigeonhole is a small HTTP service that keeps named mailboxes ("cubbies") of
text messages in a bbolt database. A client POSTs a message to `/<cubby>`,
GETs every message of the cubby back (as JSON, in key order), and DELETEs
either all of them or every message up to a `notafter` time. Access is
guarded by bearer tokens configured as `token:cubby;token2:*`, where `*` opens
every cubby.

This project models the decision logic of that service and proves what it
promises:

- `Store` (store.go): the database as `cubby ↦ (key ↦ message)`, with
  `insert`, `retrieve`, `clear` and `removeOldest`. Keys are opaque strings in
  the byte order bbolt iterates in (`Lex`, proved to be a total order). A
  bbolt update transaction is atomic: the `Backend` input says whether it
  commits. bbolt's refusals are written out: an empty bucket name, an empty
  key (which the clock never produces), and `DeleteBucket` on a missing
  bucket.
- `Keys` (store.go): how an insertion time becomes a key under Go's
  RFC3339Nano layout, and why that layout's byte order is not time order
  (see Findings).
- `Tokens` (main.go `parseTokens`): the configuration string becomes a
  token table. The function is written over Go's `strings` helpers, which are
  modelled in `Text` (`TrimSpace` with Go's white-space set, `Split`,
  `SplitN(_, _, 2)`, `TrimPrefix`).
- `Middleware` (middleware.go): `extractCubby` and `requireToken`'s
  401 / 403 / pass decision.
- `Handlers` (handlers.go): the alias rule of `readBodyContent`, and the
  status and store effect of the POST, GET and DELETE handlers.

Decoders from Go's standard library (media-type parsing, form parsing, JSON
unmarshalling, RFC 3339 parsing and formatting) and the clock are inputs to
the model.

Where the code and the service's described behaviour differ, the model
follows the code:

- Clearing a cubby that has no bucket fails. bbolt's `DeleteBucket` reports
  the missing bucket, and the handler answers 500, not 204.
- A token that is not in the table reads as the empty scope. So it passes
  `requireToken` for the cubby with the empty name, the path "/". Nothing can
  be stored there, because bbolt refuses the bucket name. Such a request reads
  an empty list or fails, except a DELETE with a valid `notafter`: pruning a
  missing bucket succeeds and is answered 204 without changing anything.
- Keys are not fixed-width, so key order is not time order for keys
  written with a zero UTC offset, whose zone suffix is "Z" (see Findings).

## Model

| member | source | states |
|---|---|---|
| Lex.Le | store.go:85 | the string comparison `<=`; a key sorts after each of its prefixes |
| Lex.LeMeansPrefixOrSmallerAt | store.go:85 | the string comparison `<=` holds exactly when the left key is a prefix of the right one or has the smaller character at the first difference |
| Lex.LeTotal | store.go:85 | any two keys are comparable |
| Lex.LeAntisymmetric | store.go:85 | two keys each `<=` the other are the same key |
| Lex.LeTransitive | store.go:85 | the key order is transitive |
| Lex.LeReflexive | store.go:85 | every key is `<=` itself, so a cutoff equal to a key deletes it |
| Lex.LtTrichotomy | store.go:85 | exactly one of before, equal, after holds between two keys |
| Lex.LeCommonPrefix | store.go:85 | keys sharing a prefix compare like what follows the prefix |
| Lex.ListKeys | store.go:51 | iterating a bucket visits every key exactly once, in strictly ascending order |
| Lex.ListingUnique | store.go:51 | there is only one ascending listing of a key set, so the iteration order is determined |
| Text.IsSpaceListed | main.go:106 | the white space test `TrimSpace` uses accepts exactly Go's set: tab, line feed, vertical tab, form feed, carriage return, space, U+0085, U+00A0, U+1680, U+2000 to U+200A, U+2028, U+2029, U+202F, U+205F and U+3000 |
| Text.TrimIsPaddedInfix | main.go:106 | trimming keeps one contiguous piece of the input and removes only white space around it |
| Text.TrimSpace | main.go:106 | the trimmed text has no white space at either end, and is empty exactly when the input is all white space |
| Text.TrimSpaceOfPadded | main.go:116-117 | white space around a trimmed string is removed and nothing else |
| Text.TrimKeepsChars | main.go:116-117 | trimming only removes characters, never invents them |
| Text.Split | main.go:104 | the pieces contain no separator and joined back with it give the input |
| Text.SplitJoin | main.go:104 | splitting separator-free pieces joined by the separator gives those pieces back |
| Text.SplitFirst | main.go:111-114 | the split fails exactly when there is no colon, and otherwise cuts at the first colon |
| Text.SplitFirstOfJoined | main.go:111 | a colon-free token, a colon and any scope (colons allowed) split back into that token and scope |
| Text.TrimPrefix | middleware.go:43 | the prefix is removed once when present, and the text is unchanged otherwise |
| Store.Insert | store.go:26-40 | the cubby's bucket is created if needed and holds the message under the key; other keys and cubbies are untouched; the empty cubby name and the empty key are refused; a failed transaction changes nothing |
| Store.DecodeAll | store.go:51-62 | every listed entry becomes a message with its decoded time and its text, in listing order; the first key that does not decode aborts the whole read |
| Store.Retrieve | store.go:42-66 | a cubby without a bucket has no messages; otherwise one message per entry in ascending key order, or an error naming an undecodable key of that cubby |
| Store.Clear | store.go:68-72 | the cubby's bucket is gone and other cubbies are untouched; a cubby without a bucket is an error |
| Store.RemoveOldest | store.go:74-94 | exactly the entries whose key is `<=` the cutoff are removed, the rest keep their text; other cubbies are untouched; a cubby without a bucket is left as it is |
| Store.RemoveOldestIdempotent | store.go:84-90 | pruning twice at the same cutoff is pruning once |
| Store.RemovedKeysArePrefix | store.go:84-90 | the removed entries are an initial run of the bucket's ascending listing |
| Store.InsertLargestKeyAppends | store.go:26-40 | a message under a key later than every existing key is listed last |
| Store.TwoInsertsListInKeyOrder | store.go:26-40 | two messages written to a fresh cubby under increasing keys are listed in the order they were written |
| Store.WritesKeepReachable | store.go:31 | no write creates the bucket of the empty cubby name, and clearing that cubby always fails |
| Tokens.ParseSegment | main.go:106-123 | an error is never the empty-configuration error and always names the trimmed segment |
| Tokens.ParseSegmentMeaning | main.go:105-123 | a segment is skipped exactly when blank; it is a missing-colon error exactly when its trimmed text has no colon; every error names the trimmed segment; an accepted binding is a trimmed non-empty token (without ':') and scope taken from the two sides of the first colon |
| Tokens.ParseSegmentAccepts | main.go:111-123 | a segment whose trimmed text is a colon-free token, a colon and a scope is accepted exactly when both sides are non-empty after trimming, and binds the trimmed token to the trimmed scope, so `t1 : a` declares `t1` with scope `a` |
| Tokens.Collect | main.go:104-126 | the parse succeeds exactly when every segment parses, and otherwise fails with the first bad segment's error |
| Tokens.CollectLastWins | main.go:123 | the table binds exactly the declared tokens, each to the scope of its last declaration |
| Tokens.ParseTokens | main.go:97-127 | the empty string is rejected; otherwise success exactly when every ';'-separated segment parses, the error being the first bad segment's |
| Tokens.ParseTokensLastWins | main.go:123 | a parsed table maps each declared token to the scope of its last segment, and holds nothing else |
| Tokens.ParsedBindingsValid | main.go:116-121 | every entry of a parsed table has a non-empty, trimmed token and scope |
| Tokens.SegmentRoundTrip | main.go:111-123 | a valid `token:scope` segment parses back to that binding |
| Tokens.RenderParseRoundTrip | main.go:97-127 | writing valid bindings as `t:s;t:s` and parsing the text succeeds and declares exactly those bindings |
| Tokens.BlankSegmentsGiveEmptyTable | main.go:106-109 | a configuration of blank segments such as " ; " is accepted with no tokens |
| Tokens.TwoTokens | main.go:123 | two distinct tokens give a two-entry table, and a `*` scope is kept literally |
| Tokens.SameTokenTwice | main.go:123 | a later segment for a token replaces its earlier scope |
| Tokens.SegmentWithEmptyScope | main.go:119-121 | a segment `t:` is an empty-part error naming the segment |
| Tokens.SingleBadSegment | main.go:104-121 | a one-segment configuration fails with that segment's error |
| Tokens.EmptyScopeRejected | main.go:119-121 | the configuration `t:` is rejected as a whole |
| Middleware.ExtractCubby | middleware.go:40-47 | the cubby is the path with one leading '/' removed, or the path itself when it does not start with '/' |
| Middleware.ExtractCubbyOfPath | middleware.go:43 | the path `/c` names cubby `c` |
| Middleware.ExtractCubbyStripsOneSlash | middleware.go:43 | only one leading slash is removed: `//c` names cubby `/c` |
| Middleware.Presented | middleware.go:21-26 | a token is presented exactly when the header starts with "Bearer ", and it is trimmed |
| Middleware.RequireToken | middleware.go:12-38 | 401 exactly when the header lacks the "Bearer " scheme; the request passes exactly when the token's scope is `*` or equals the cubby, an unknown token counting as the empty scope; 403 otherwise |
| Middleware.WildcardAdmitsAnyCubby | middleware.go:29 | a `*` token opens every cubby, even with no cubby in the context |
| Middleware.ScopeMatchesExactly | middleware.go:29-33 | a token scoped to one cubby opens that cubby and no other, and is never answered 401 |
| Middleware.MissingCubbyNeedsWildcard | middleware.go:27-29 | with no cubby in the context only a `*` token passes |
| Middleware.UnknownTokenOpensOnlyEmptyCubby | middleware.go:29 | a token missing from the table passes only for the cubby with the empty name |
| Middleware.VerdictDependsOnPresented | middleware.go:21-33 | two headers presenting the same token get the same verdict |
| Middleware.PresentedAfterScheme | middleware.go:26 | the presented token is the trimmed text after "Bearer " |
| Middleware.PaddingIgnored | middleware.go:26 | white space around the token does not change the verdict |
| Middleware.LowerCaseSchemeRefused | middleware.go:21-24 | the scheme is case-sensitive: "bearer …" is answered 401 |
| Middleware.RequestForCubby | middleware.go:27-44 | a request for `/c` passes exactly when the token's scope is `*` or `c` |
| Handlers.FirstFilled | handlers.go:101-105 | the result is the first alias whose form value is not empty, or nothing when all are empty |
| Handlers.FirstString | handlers.go:128-132 | the result is the first alias the JSON object maps to a string, even an empty one, or nothing when none does |
| Handlers.FormContent | handlers.go:101-106 | a form's message is the value of the first alias with a non-empty value, every earlier alias being empty, or the encoded form when all aliases are empty |
| Handlers.JsonContent | handlers.go:128-133 | a JSON body's message is the string of the first alias member holding a string, every earlier alias holding none, or the raw body when no alias holds one |
| Handlers.FormMessageUnique | handlers.go:101-106 | the form alias rule names exactly one message |
| Handlers.JsonMessageUnique | handlers.go:128-133 | the JSON alias rule names exactly one message |
| Handlers.ReadBodyContent | handlers.go:91-142 | form and multipart bodies fail exactly when the form does not parse, with its error, and otherwise give the message the form alias rule names; JSON fails exactly when the body cannot be read or decoded, with that error, and otherwise gives the message the JSON alias rule names; any other media type gives the raw body or the read error |
| Handlers.FormAliasOrder | handlers.go:85-106 | `message` beats `text`, which beats `content`; an empty value falls through; with all empty the encoded form is the message |
| Handlers.FormContentNonEmpty | handlers.go:101-106 | a form message is never empty unless the encoded form is |
| Handlers.JsonAliasOrder | handlers.go:119-133 | `message` wins when it holds a string, then `text`, then `content`, non-string members being skipped, and with none the raw body is the message |
| Handlers.EmptyMessageFieldDiffers | handlers.go:101-133 | an empty `message` falls through to `text` in a form but is the message in JSON |
| Handlers.HandlePost | handlers.go:12-32 | 400 exactly when the body cannot be read, leaving the store untouched; 201 exactly when the message is stored under the key, the new store being exactly what `insert` leaves, so no other message or cubby changes; 500 when the store refuses |
| Handlers.PostToEmptyCubbyFails | handlers.go:23-27 | a POST to the cubby with the empty name never stores anything |
| Handlers.HandleDelete | handlers.go:53-83 | without `notafter` the cubby is cleared; an unparsable `notafter` is 400 with nothing changed; otherwise messages up to the cutoff are removed; 204 on success, 500 when the store fails |
| Handlers.DeleteAllEmptiesCubby | handlers.go:71-81 | a successful DELETE without a cutoff leaves the cubby empty and other cubbies unchanged |
| Handlers.DeleteBeforeKeepsNewer | handlers.go:56-70 | a successful DELETE with a cutoff keeps exactly the messages whose key is after the cutoff |
| Handlers.DeleteAllOfMissingCubbyFails | handlers.go:72-76 | clearing a cubby that was never written is answered 500 and changes nothing |
| Handlers.HandleGet | handlers.go:34-51 | 200 with every message of the cubby in key order exactly when all keys decode, else 500 |
| Keys.DigitsRoundTrip | store.go:28 | the zero-padded digits of a number read back as that number |
| Keys.DigitsOrder | store.go:85 | fixed-width digit strings compare like the numbers they write |
| Keys.FracAsWritten | store.go:28 | a whole second is written with no fraction; any other fraction as a dot and 1 to 9 digits with no trailing zero, which padded back to nine digits with zeros are the nanoseconds written in nine digits |
| Keys.KeyAsWritten | store.go:27-28 | a key starts with the stamp and ends with the zone; a whole-second key has nothing between them; otherwise between them is a dot and the nanosecond digits without their trailing zeros, so the last of them is never '0' |
| Keys.HalfSecondFraction | store.go:28 | half a second is written as the fraction ".5" |
| Keys.HalfSecondWritten | store.go:28 | half a second is written ".5" |
| Keys.UtcKeysOutOfTimeOrder | store.go:82-85 | with the zone suffix "Z" (any zero UTC offset) a key half a second after a whole second sorts before that second's key |
| Keys.ZKeyAfterLongerFraction | store.go:82-85 | with the zone suffix "Z", a key sorts after every key of the same stamp whose fraction digits extend its own, so the whole-second key sorts after every fractional key of that second |
| Keys.UtcListingOutOfTimeOrder | store.go:51 | such two messages are listed later one first |
| Keys.PruneAtWholeSecondDeletesLater | store.go:82-86 | pruning at a whole second deletes a message written half a second later |
| Keys.KeyFixed | store.go:28 | a key with all nine fraction digits has a fixed length |
| Keys.FixedKeysInTimeOrder | store.go:82-85 | fixed-width keys of the same second and zone compare like their fractions |
| Keys.FixedKeysOrder | store.go:82-85 | fixed-width keys of one zone order by stamp and then by fraction |
| Keys.FixedPruneKeepsLater | store.go:84-90 | with fixed-width keys, pruning keeps exactly the messages of that second written after the cutoff |
| Keys.FixedListingInTimeOrder | store.go:51 | with fixed-width keys two messages are listed in the order they were written |

## Left out

- Opening and closing the database (`newStore`, `close`), flag and environment parsing, logging, and starting and stopping the server in `main` are I/O and process plumbing.
- The order in which `main` chains the middlewares belongs to a third-party middleware library, which is not part of this model. `Middleware.RequireToken` therefore takes the cubby as an input, `None` when `extractCubby` has not run. The other middlewares (real address, compression, cross-origin protection, panic recovery) are left out.
- The handlers' type assertion on the context cubby panics when `extractCubby` has not run. This is left out, and the handlers take the cubby as a string.
- The clock, and RFC 3339 parsing and formatting, are inputs. `Keys` models only the fraction rendering. The date-time stamp and the zone suffix are opaque strings, and their own order is taken as given.
- Media-type parsing, `ParseForm` and `ParseMultipartForm` (including the merging of URL query values and the 1 MiB memory bound), form re-encoding, `io.ReadAll` and `json.Unmarshal` are decoders from Go's standard library. The model receives their results.
- The JSON encoding of the GET response, including the `null` written for a cubby with no messages and the logged-only encoding error, is output formatting.
- Store.Retrieve: does not model a failing read transaction. Only the decode error of a stored key is modelled.
- Store.Insert: does not model bbolt's key and value size limits, or the insertion time that `insert` returns, which no caller uses.
- The cutoff of `removeOldest` is formatted in the zone the `notafter` value carries, which need not be the server's zone. The model takes the cutoff key as an input (`cutoffKey`), so comparing keys written in two different zones, or under two offsets of one zone across a daylight-saving change, is not modelled.
- Store.RemoveOldest: assumes that deleting the entry under a bbolt cursor does not disturb the iteration, so every entry up to the cutoff is visited.
- Concurrency is left out. bbolt serialises update transactions, and each operation is modelled as one atomic step.
- Strings are sequences of Unicode scalar values. Invalid UTF-8 in the token configuration, in headers, in the percent-decoded request path (such as `/%FF`, which gives a cubby name that is not valid UTF-8) and in message bodies is not modelled. Nothing in the model depends on it: cubby names are only compared for equality and have one '/' removed, and message bodies are stored as they are.

## Findings

| source | as written | input that shows it | evidently intended | confidence | as-written member | corrected member |
|---|---|---|---|---|---|---|
| store.go:82-86 | keys and the cutoff are written with RFC3339Nano, which drops trailing zeros of the fraction (and the dot for a whole second), then compared as strings | zone "Z": the key `…T12:00:00.5Z` is `<=` the cutoff `…T12:00:00Z`, so DELETE with `notafter=…T12:00:00Z` removes a message written half a second after the cutoff | keep every message written after the cutoff | medium: needs a zero UTC offset when the key is written (UTC, or e.g. London in winter); not executed | Keys.PruneAtWholeSecondDeletesLater | Keys.FixedPruneKeepsLater |
| store.go:28 | the same variable-width keys decide the listing order of `retrieve` | zone "Z": messages written at `…T12:00:00Z` and `…T12:00:00.5Z` are listed `.5` first | messages listed oldest first | medium: needs a zero UTC offset when the key is written (UTC, or e.g. London in winter); not executed | Keys.UtcListingOutOfTimeOrder | Keys.FixedListingInTimeOrder |

Both rows have one cause. RFC3339Nano writes the zone as "Z" for every zero UTC offset, not only for the UTC zone itself, so a server whose local zone has offset zero at the time of writing (UTC, or e.g. London in winter) writes "…Z" keys. The character 'Z' sorts after '.' and after every digit, so a fraction followed by "Z" sorts after every longer fraction that begins with its digits (".5Z" after ".50001Z", and the whole-second "Z" after every ".dddZ"). A fraction whose digits differ from the other's earlier is ordered by that digit as usual (".1Z" before ".99Z"). The suffixes "+hh:mm" and "-hh:mm" begin with characters that sort below '.' and the digits, so keys with the same non-zero offset suffix do not show the inversion. One zone can write two different suffixes across a daylight-saving change; comparing keys with different suffixes is not modelled (see Left out). The corrected key, `Keys.KeyFixed`, writes all nine fraction digits. `Store` treats keys as opaque, so its operations apply unchanged to fixed-width keys. The corrected lemmas are proved over the same `Store.RemoveOldest` and `Lex.Listing`.
