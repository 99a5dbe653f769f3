# Redirect URL shortener: the redirect handler

This project models the redirect side of a URL shortener that runs as a
serverless function. A request arrives with a `rawPath` such as `/abc123`.
The handler works in four steps:

1. It deletes every `/` from the path to get the short code.
2. It rejects an empty code.
3. It reads the object `<code>.json` from the fixed bucket
   `raul-url-shortener-storage` and deserializes it into a record holding
   `originalUrl` and `expirationTime` (Unix seconds).
4. It answers `410` with the body `This URL has expired.` when
   `expirationTime` is strictly before the current second. Otherwise it
   answers `302` with a single `Location` header holding `originalUrl`.

Each failure is an exception, never a response: a missing path, an empty
code, a failed read, a failed parse, and a parse that yields `null`. A
failed read or parse carries the original exception's message after a
fixed prefix. A `null` record is dereferenced outside both `try` blocks,
so its exception is not wrapped.

The model is pure. The handler's only mutations are `put`s into fresh
local maps, and those maps become the fields of the `Response` datatype.

- `Wrappers.dfy`: `Option` and `Result`.
- `UrlData.dfy`: the record `OriginalUrlData`, with Java's `long` as the
  newtype `Long`.
- `ShortCode.dfy`: the slash stripping (`StripSlashes`) and its properties.
  These are order and counts kept, no slash left, idempotence, and when
  the result is empty.
- `Handler.dfy`: the store request, the clock conversion, the response,
  the error kinds with their messages, the whole handler `HandleRequest`
  and the lemmas about it.

The effects outside the handler become parameters of `HandleRequest`:

- the object store's read: `store: GetObjectRequest -> Result<Blob, string>`.
  A failure carries the thrown exception's message.
- the JSON deserializer: `readValue: Blob -> Result<Option<OriginalUrlData>, string>`.
  `None` stands for the `null` that parsing the JSON literal `null` gives.
- the clock: `nowMillis: Long`, the value of `System.currentTimeMillis()`.

"The store is not consulted" is stated as "the result is the same for
every store and every deserializer".

## Model

| member | source | states |
|---|---|---|
| `ShortCode.StripSlashes` | RedirectUrlShortener/src/main/java/com/rocketseat/redirectUrlShortener/Main.java:24 | the extracted code contains no `/` and is never longer than the path |
| `ShortCode.StripSlashesAppend` | RedirectUrlShortener/src/main/java/com/rocketseat/redirectUrlShortener/Main.java:24 | stripping a concatenation is the concatenation of the stripped parts, so the kept characters stay in their order |
| `ShortCode.StripSlashesChar` | RedirectUrlShortener/src/main/java/com/rocketseat/redirectUrlShortener/Main.java:24 | a single character is removed exactly when it is `/`; with the append lemma this fixes the result for every path |
| `ShortCode.StripSlashesCounts` | RedirectUrlShortener/src/main/java/com/rocketseat/redirectUrlShortener/Main.java:24 | the code's multiset of characters is the path's with the count of `/` set to zero |
| `ShortCode.StripSlashesFixpoint` | RedirectUrlShortener/src/main/java/com/rocketseat/redirectUrlShortener/Main.java:24 | a path is unchanged by stripping if and only if it contains no `/` |
| `ShortCode.StripSlashesIdempotent` | RedirectUrlShortener/src/main/java/com/rocketseat/redirectUrlShortener/Main.java:24 | stripping an extracted code again leaves it unchanged |
| `ShortCode.StripSlashesEmpty` | RedirectUrlShortener/src/main/java/com/rocketseat/redirectUrlShortener/Main.java:24-28 | the code is empty if and only if every character of the path is `/` |
| `ShortCode.LeadingSlashStripped` | RedirectUrlShortener/src/main/java/com/rocketseat/redirectUrlShortener/Main.java:20-26 | a path made of `/` and one slash-free segment gives back that segment |
| `ShortCode.SingleSegmentExample` | RedirectUrlShortener/src/main/java/com/rocketseat/redirectUrlShortener/Main.java:24 | `/abc123` gives `abc123` |
| `ShortCode.MultiSegmentExample` | RedirectUrlShortener/src/main/java/com/rocketseat/redirectUrlShortener/Main.java:24 | `/foo/bar` gives `foobar`: all segments are joined |
| `ShortCode.SlashOnlyExamples` | RedirectUrlShortener/src/main/java/com/rocketseat/redirectUrlShortener/Main.java:24 | `""`, `/` and `//` all give the empty code |
| `Handler.HandlerError.Message` | RedirectUrlShortener/src/main/java/com/rocketseat/redirectUrlShortener/Main.java:29-54 | the handler composes a message for every error except the two null dereferences: the missing path and the null record |
| `Handler.ObjectKey` | RedirectUrlShortener/src/main/java/com/rocketseat/redirectUrlShortener/Main.java:35 | the key starts with the whole code and ends with `.json`, and nothing else is in it |
| `Handler.ObjectRequest` | RedirectUrlShortener/src/main/java/com/rocketseat/redirectUrlShortener/Main.java:33-36 | the read goes to bucket `raul-url-shortener-storage` with the code's key |
| `Handler.CurrentTimeInSeconds` | RedirectUrlShortener/src/main/java/com/rocketseat/redirectUrlShortener/Main.java:57 | seconds are milliseconds divided by 1000 with truncation toward zero: the remainder is in [0, 1000) for non-negative and (-1000, 0] for negative milliseconds |
| `Handler.IsExpired` | RedirectUrlShortener/src/main/java/com/rocketseat/redirectUrlShortener/Main.java:62 | a record is expired exactly from the second after its `expirationTime` on; `BoundaryNotExpired`, `ExpiryMonotone` and `ExpiredInMillis` build on it |
| `Handler.BuildResponse` | RedirectUrlShortener/src/main/java/com/rocketseat/redirectUrlShortener/Main.java:59-77 | the status is 410 or 302; it is 410 exactly when `expirationTime < now`; a 410 has the expired body and no headers; a 302 has only the `Location` header, set to `originalUrl`, and no body |
| `Handler.HandleRequest` | RedirectUrlShortener/src/main/java/com/rocketseat/redirectUrlShortener/Main.java:19-78 | the whole handler: it fails with the missing-path error exactly when `rawPath` is absent, and with the "required" error exactly when the code is empty; every response it returns is a 410 or a 302. Its full contract is given by `SucceedsIff`, `ResponseDecision`, `InvalidInputIff`, `NoLookupWithoutCode`, `LookupOnlyByKey` and the failure lemmas below |
| `Handler.MissingPathFails` | RedirectUrlShortener/src/main/java/com/rocketseat/redirectUrlShortener/Main.java:20-24 | an input without a `rawPath` fails, and not with the "required" error |
| `Handler.InvalidInputIff` | RedirectUrlShortener/src/main/java/com/rocketseat/redirectUrlShortener/Main.java:24-30 | the handler fails with the "required" error if and only if the path is empty or slash-only, and that error's message is exactly "Invalid input: 'shortUrlCode' is required." |
| `Handler.NoLookupWithoutCode` | RedirectUrlShortener/src/main/java/com/rocketseat/redirectUrlShortener/Main.java:24-44 | without a code, the outcome is a failure and is the same for every store, deserializer and clock, so no read and no response happen |
| `Handler.LookupOnlyByKey` | RedirectUrlShortener/src/main/java/com/rocketseat/redirectUrlShortener/Main.java:33-44 | with a code, the outcome depends on the store only through the object `code + ".json"` in `raul-url-shortener-storage` |
| `Handler.ObjectKeyInjective` | RedirectUrlShortener/src/main/java/com/rocketseat/redirectUrlShortener/Main.java:24-35 | different codes read different keys, and no key contains `/` |
| `Handler.ObjectKeyExamples` | RedirectUrlShortener/src/main/java/com/rocketseat/redirectUrlShortener/Main.java:33-36 | code `abc123` reads `abc123.json`, and path `/foo/bar` reads `foobar.json`, both in the fixed bucket |
| `Handler.FetchFailureWrapped` | RedirectUrlShortener/src/main/java/com/rocketseat/redirectUrlShortener/Main.java:43-47 | a failed read with message m fails the handler with "Error fetching URL data from S3: " + m, and nothing is parsed |
| `Handler.DeserializeFailureWrapped` | RedirectUrlShortener/src/main/java/com/rocketseat/redirectUrlShortener/Main.java:49-55 | a failed parse with message m fails the handler with "Error deserializing URL data: " + m |
| `Handler.NullRecordUnwrapped` | RedirectUrlShortener/src/main/java/com/rocketseat/redirectUrlShortener/Main.java:52-62 | a parse that yields `null` fails the handler with the null-record error, which carries no composed message and so is not the deserialization error |
| `Handler.WrappedMessagesDistinct` | RedirectUrlShortener/src/main/java/com/rocketseat/redirectUrlShortener/Main.java:29-54 | two errors with the same composed message are equal: the message tells which step failed and gives back the original message |
| `Handler.SucceedsIff` | RedirectUrlShortener/src/main/java/com/rocketseat/redirectUrlShortener/Main.java:19-78 | a response is returned if and only if the path is present, the code is non-empty, the read succeeds, and the parse succeeds with a non-null record |
| `Handler.ResponseDecision` | RedirectUrlShortener/src/main/java/com/rocketseat/redirectUrlShortener/Main.java:57-77 | after a successful read and a non-null parse, the response is 410 with the expired body exactly when `expirationTime` is before the current second; otherwise it is the 302 to `originalUrl` |
| `Handler.BoundaryNotExpired` | RedirectUrlShortener/src/main/java/com/rocketseat/redirectUrlShortener/Main.java:62 | a record whose `expirationTime` equals the current second still redirects |
| `Handler.ExpiryMonotone` | RedirectUrlShortener/src/main/java/com/rocketseat/redirectUrlShortener/Main.java:62 | once expired, a record stays expired at later times; a redirecting record also redirected at every earlier time |
| `Handler.ExpiredInMillis` | RedirectUrlShortener/src/main/java/com/rocketseat/redirectUrlShortener/Main.java:57-62 | for a non-negative clock, a record is expired exactly from millisecond `(expirationTime + 1) * 1000` on |
| `Handler.SegmentLookup` | RedirectUrlShortener/src/main/java/com/rocketseat/redirectUrlShortener/Main.java:24-36 | a path of one slash and one slash-free segment reads key `segment + ".json"` in the fixed bucket |
| `Handler.RedirectScenario` | RedirectUrlShortener/src/main/java/com/rocketseat/redirectUrlShortener/Main.java:71-77 | `/promo2024` with a future record gives a 302 to `https://example.com/sale` |
| `Handler.ExpiredScenario` | RedirectUrlShortener/src/main/java/com/rocketseat/redirectUrlShortener/Main.java:62-66 | `/old` with a past record gives the 410 with body "This URL has expired." |
| `Handler.MissingKeyScenario` | RedirectUrlShortener/src/main/java/com/rocketseat/redirectUrlShortener/Main.java:43-47 | a store that has no `missing.json` makes `/missing` fail with the fetch error |

## Left out

- The S3 client and its `getObject` call (Main.java:15, 44) are network I/O. They become the `store` parameter. Timeouts, retries and streaming are not modelled.
- Jackson's `readValue` (Main.java:16, 52) is a library parser. It becomes the `readValue` parameter, whose `None` result covers the JSON literal `null`. Which JSON it accepts, and that a missing field becomes `null` or `0`, are outside the model.
- `System.currentTimeMillis()` (Main.java:57) is the ambient clock. It becomes the `nowMillis` parameter.
- The runtime's translation of thrown exceptions into HTTP responses is not part of the handler. The model returns the error and invents no status code for it.
- A `rawPath` entry that is present but not a string would make the cast at Main.java:20 throw. The model's input is an `Option<string>`, so this case cannot be expressed.
- A missing `rawPath` is the error `MissingRawPath`, and a `null` record is the error `NullRecord`. The messages of these two null-dereference exceptions are not modelled.
- The `shortUrlCode == null` test at Main.java:28 is unreachable, because `replace` never returns null. It is not modelled.
- A `null` `originalUrl` in the record, and a `null` exception message, are not modelled. In Java the first yields a `null` header value and the second is spelled `"null"` in the composed message. Both are strings in the model.
- The wrapped exceptions' cause chain (the second constructor argument at Main.java:46 and 54) is kept only as the cause's message.
- Java strings are UTF-16 and Dafny's `char` is a Unicode scalar value. `/` is a single unit in both, so stripping is not affected.
- The Lombok accessors and constructors of OriginalUrlData.java:8-11 are covered by the datatype's fields.
