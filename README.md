# Apache Ivy `AbstractURLHandler`, modelled in Dafny

This project models the concrete helpers of Ivy's `AbstractURLHandler`. The
transport handlers (plain `java.net.URL` and HttpClient) share these helpers
to interpret and validate HTTP exchanges. The helpers modelled are:

- **Charset resolution** (`CharsetResolver`). A Content-Type header is split on `;`. Each parameter is trimmed. The last parameter whose key is `charset=` (any case) supplies the charset. `ISO-8859-1` is the default when there is none or its value is empty.
- **Bounded reading** (`BoundedReader`, over the streams of `ByteStreams`). At most `maxLen` bytes are copied from a stream, which is then closed on every path. The handler uses a limit of 512 to quote error bodies.
- **Content decoding selection** (`DecoderSelection`). `gzip` and `x-gzip` select a gzip stream. `deflate` probes the first 100 bytes after a mark, resets the stream, and picks zlib or raw deflate by a trial inflate. Anything else leaves the stream alone.
- **PUT status classification** (`PutStatus`). 200, 201, 202 and 204 accept the upload. 401 and 403 fail it as access denied. Every other code fails it with a message that names the code.
- **URL canonicalisation** (`UrlCanonicalizer`). Non-web URLs keep their external form. `http`/`https` URLs go through `java.net.URI`. Then `+` is escaped to `%2B`. Then one pass turns `%25XX` (XX two hex digits) back into `%XX`.

`JavaStrings` holds the models of the `java.lang.String` operations these
helpers rely on: `split`, `trim`, `toLowerCase`, and decimal rendering of an
`int`. `Wrappers` holds `Option` and `Result`.

Steps that belong to the JDK and whose internals are not modelled are
parameters of the functions that use them:

- `URI.normalize().toASCIIString()` is the parameter `uriToAscii`, which may fail.
- `new URL(String)` is `parseUrl`.
- The trial `Inflater.inflate` of the probe is `zlibProbeOk`.

An `IOException` from a stream is modelled by a failing position and by
reading a closed stream (`ByteStreams.ByteSource`).

The `ensures` clauses state what each operation returns. The stream-driving
methods are proved against closed-form functions (`TruncatedRead`,
`BlockRead`, `SelectedDecoder`); the lemmas relate those functions to the
promised behaviour.

## Model

| member | source | states |
|---|---|---|
| CharsetResolver.GetCharSetFromContentType | src/java/org/apache/ivy/util/url/AbstractURLHandler.java:77-97 | the loop over the `;`-split, trimmed elements computes `CharsetOf(contentType)`, never the empty string |
| CharsetResolver.CharsetOf | src/java/org/apache/ivy/util/url/AbstractURLHandler.java:91-94 | the resolved charset is never empty: a missing or empty value becomes the default |
| CharsetResolver.IsCharsetParam | src/java/org/apache/ivy/util/url/AbstractURLHandler.java:85 | `element.toLowerCase().startsWith("charset=")`; `CharsetKeyAnyCase` states the key is matched in any case |
| CharsetResolver.CharsetKeyAnyCase | src/java/org/apache/ivy/util/url/AbstractURLHandler.java:85 | an element is a charset parameter if and only if each of its first eight characters is that of `charset=` or of `CHARSET=` |
| CharsetResolver.ParamValue | src/java/org/apache/ivy/util/url/AbstractURLHandler.java:86 | the element with the 8-character key removed: the element is the key as written followed by the value |
| CharsetResolver.LastCharset | src/java/org/apache/ivy/util/url/AbstractURLHandler.java:83-88 | what the overwriting loop leaves; `LastCharsetFindsLast` and `LastCharsetNone` state its meaning |
| CharsetResolver.LastCharsetFindsLast | src/java/org/apache/ivy/util/url/AbstractURLHandler.java:83-88 | when element `i` declares a charset and no later one does, the loop's result is element `i`'s value after the key |
| CharsetResolver.LastCharsetNone | src/java/org/apache/ivy/util/url/AbstractURLHandler.java:83-88 | the loop finds nothing if and only if no trimmed element starts with `charset=` in any case |
| CharsetResolver.NullHeaderDefaults | src/java/org/apache/ivy/util/url/AbstractURLHandler.java:81-94 | a null header yields `ISO-8859-1` |
| CharsetResolver.NoDeclarationDefaults | src/java/org/apache/ivy/util/url/AbstractURLHandler.java:82-94 | a header with no charset parameter yields `ISO-8859-1` |
| CharsetResolver.LastDeclarationWins | src/java/org/apache/ivy/util/url/AbstractURLHandler.java:82-94 | the last declaration decides: its value verbatim when non-empty, otherwise the default; an earlier declaration never comes back |
| CharsetResolver.TrailingDeclaration | src/java/org/apache/ivy/util/url/AbstractURLHandler.java:82-94 | in a two-parameter header whose second parameter declares a non-empty charset, that value is the answer |
| CharsetResolver.SpacedDeclaration | src/java/org/apache/ivy/util/url/AbstractURLHandler.java:82-86 | the space after `;` is trimmed before the key is compared, so `type; charset=v` names `v` |
| CharsetResolver.DeclaredCharsetExample | src/java/org/apache/ivy/util/url/AbstractURLHandler.java:77-97 | `text/html; charset=UTF-8` yields `UTF-8` |
| CharsetResolver.UndeclaredCharsetExample | src/java/org/apache/ivy/util/url/AbstractURLHandler.java:77-97 | `text/html` yields `ISO-8859-1` |
| CharsetResolver.KeyCaseIgnoredExample | src/java/org/apache/ivy/util/url/AbstractURLHandler.java:85-86 | `text/html; CHARSET=utf-16` yields `utf-16`: the key is matched case-insensitively and the value keeps its case |
| JavaStrings.SplitAll | src/java/org/apache/ivy/util/url/AbstractURLHandler.java:82 | the pieces contain no separator, and joining them with it gives back the input |
| JavaStrings.JavaSplit | src/java/org/apache/ivy/util/url/AbstractURLHandler.java:82 | `split(";")`: no piece contains `;`; a string without `;` is its own single piece |
| JavaStrings.DropTrailingEmpty | src/java/org/apache/ivy/util/url/AbstractURLHandler.java:82 | `split` keeps a prefix of the pieces and drops only trailing empty ones |
| JavaStrings.TrimIsSlice | src/java/org/apache/ivy/util/url/AbstractURLHandler.java:84 | `trim()` returns a slice of the input, with only characters `<= U+0020` cut from either end and no such character left at its ends |
| JavaStrings.Trim | src/java/org/apache/ivy/util/url/AbstractURLHandler.java:84 | `trim()`: the leading and then the trailing characters `<= U+0020` removed; its properties are stated by `TrimIsSlice` |
| JavaStrings.ToLower | src/java/org/apache/ivy/util/url/AbstractURLHandler.java:85 | `toLowerCase()` on ASCII letters: the same length as its input |
| JavaStrings.ToLowerIsLower | src/java/org/apache/ivy/util/url/AbstractURLHandler.java:85 | lowering maps each ASCII capital to its small letter (code point plus 32), keeps every other character, leaves no capital and is idempotent |
| JavaStrings.DecimalString | src/java/org/apache/ivy/util/url/AbstractURLHandler.java:163-164 | the rendering of `statusCode` in a string concatenation: non-empty, an optional `-` (only for a negative code, and followed by a digit other than `0`) then digits, with no leading zero except for 0 itself |
| JavaStrings.DecimalRoundTrip | src/java/org/apache/ivy/util/url/AbstractURLHandler.java:163-164 | the decimal rendering of a status code parses back to that code |
| JavaStrings.DecimalStringInjective | src/java/org/apache/ivy/util/url/AbstractURLHandler.java:163-164 | distinct codes render as distinct strings |
| ByteStreams.FirstFailure | src/java/org/apache/ivy/util/url/AbstractURLHandler.java:103-111 | the first read in a range of positions that throws, and only when one does |
| ByteStreams.ByteSource.Read | src/java/org/apache/ivy/util/url/AbstractURLHandler.java:103 | `read()` returns the next byte and advances, returns -1 at the end, and throws when closed or at the failing position |
| ByteStreams.ByteSource.Close | src/java/org/apache/ivy/util/url/AbstractURLHandler.java:117 | `close()` leaves the stream closed |
| ByteStreams.ByteSource.Mark | src/java/org/apache/ivy/util/url/AbstractURLHandler.java:230 | `mark` records the current position |
| ByteStreams.ByteSource.Reset | src/java/org/apache/ivy/util/url/AbstractURLHandler.java:233 | `reset` returns to the mark, and throws when the stream is closed or unmarked |
| ByteStreams.ByteSource.ReadBlock | src/java/org/apache/ivy/util/url/AbstractURLHandler.java:232 | `read(byte[])` computes `BlockRead`: up to `size` bytes, -1 at an immediate end, or the exception of the first failing read |
| ByteStreams.BlockRead | src/java/org/apache/ivy/util/url/AbstractURLHandler.java:231-232 | the block read never moves past `size` bytes; on success it returns the next bytes of the stream |
| BoundedReader.TruncatedRead | src/java/org/apache/ivy/util/url/AbstractURLHandler.java:99-122 | the call throws if and only if one of the reads it makes throws; otherwise it returns the first `min(available, maxLen)` remaining bytes, all of them when they fit; it never reads more than `maxLen + 1` times |
| BoundedReader.ReadTruncated | src/java/org/apache/ivy/util/url/AbstractURLHandler.java:99-122 | the loop computes `TruncatedRead`, and the stream is closed on every exit, as the `finally` block does |
| BoundedReader.LongStreamTruncated | src/java/org/apache/ivy/util/url/AbstractURLHandler.java:105-108 | a stream longer than the limit yields exactly its first `maxLen` bytes |
| DecoderSelection.IsGzipToken | src/java/org/apache/ivy/util/url/AbstractURLHandler.java:222 | the exact, case-sensitive tokens `gzip` and `x-gzip`; `TokenIsCaseSensitive` shows another casing selects nothing |
| DecoderSelection.IsDeflateToken | src/java/org/apache/ivy/util/url/AbstractURLHandler.java:224 | the exact token `deflate` |
| DecoderSelection.DeflateVariant | src/java/org/apache/ivy/util/url/AbstractURLHandler.java:237-246 | zlib if and only if the trial inflate accepts the probe; raw deflate if and only if it does not |
| DecoderSelection.SelectedDecoder | src/java/org/apache/ivy/util/url/AbstractURLHandler.java:218-255 | gzip for `gzip`/`x-gzip`; the stream itself for any other token or none; for `deflate`, on success, one of the two inflaters |
| DecoderSelection.ProbeDeflate | src/java/org/apache/ivy/util/url/AbstractURLHandler.java:229-233 | mark, a block read of 100 bytes, reset: the result is `BlockRead` at the old position, and a successful probe leaves the stream where it was |
| DecoderSelection.GetDecodingInputStream | src/java/org/apache/ivy/util/url/AbstractURLHandler.java:218-255 | the decoder kind is `SelectedDecoder`'s; the decoder reads the stream that was probed, which is back at its starting position (the `BufferedInputStream` wrapper is folded into that stream, see "## Left out") |
| DecoderSelection.ProbeIsBounded | src/java/org/apache/ivy/util/url/AbstractURLHandler.java:230-232 | the probe reads at most 100 bytes, and the ones it reads are the next bytes of the body |
| DecoderSelection.DeflateChoosesByProbe | src/java/org/apache/ivy/util/url/AbstractURLHandler.java:224-249 | for a non-empty `deflate` body, zlib exactly when the trial inflate of its first (up to 100) bytes succeeds, raw deflate otherwise |
| DecoderSelection.TokenIsCaseSensitive | src/java/org/apache/ivy/util/url/AbstractURLHandler.java:222-224 | `GZIP`, `Deflate` and a missing header all leave the stream undecoded |
| DecoderSelection.EmptyDeflateBodyRejected | src/java/org/apache/ivy/util/url/AbstractURLHandler.java:232-236 | as written, `deflate` over an empty body fails (`setInput` with length -1); the corrected selection picks a decoder |
| DecoderSelection.SelectedDecoderFixed | src/java/org/apache/ivy/util/url/AbstractURLHandler.java:218-255 | the corrected selection fails only when the probe read itself throws |
| DecoderSelection.GetDecodingInputStreamFixed | src/java/org/apache/ivy/util/url/AbstractURLHandler.java:218-255 | the corrected method computes `SelectedDecoderFixed` and restores the position of the probed stream (the wrapper folded in as for `GetDecodingInputStream`) |
| DecoderSelection.FixedAgreesOnNonEmptyBodies | src/java/org/apache/ivy/util/url/AbstractURLHandler.java:218-255 | the correction changes nothing for a body of at least one byte |
| DecoderSelection.FixedDeflateAlwaysDecodes | src/java/org/apache/ivy/util/url/AbstractURLHandler.java:224-249 | with the correction, `deflate` yields a decoder whenever the probe read succeeds |
| PutStatus.ClassOf | src/java/org/apache/ivy/util/url/AbstractURLHandler.java:149-166 | the `switch`: accepted if and only if the code is 200, 201, 202 or 204; access denied if and only if it is 401 or 403 |
| PutStatus.ValidatePutStatusCode | src/java/org/apache/ivy/util/url/AbstractURLHandler.java:148-167 | success if and only if the code is accepted; 401/403 fail with the refusal message carrying `message` (beginning with a capital `Access`, as line 161 writes it); every other code fails with the message naming the code and `exceptionMessage` |
| PutStatus.AccessDeniedMessage | src/java/org/apache/ivy/util/url/AbstractURLHandler.java:161 | the refusal message; `FailureMessagesDistinct` shows it never equals the generic one |
| PutStatus.RejectedMessage | src/java/org/apache/ivy/util/url/AbstractURLHandler.java:163-165 | the generic failure message; `RejectedMessageNamesCode` shows it determines the code |
| PutStatus.OutcomesPartition | src/java/org/apache/ivy/util/url/AbstractURLHandler.java:149-166 | `ClassOf` rejects exactly the codes outside the six case labels, and `ValidatePutStatusCode` returns one of three pairwise distinct outcomes: success, the refusal failure, or the generic failure |
| PutStatus.FailureMessagesDistinct | src/java/org/apache/ivy/util/url/AbstractURLHandler.java:161-165 | the refusal message and the generic failure message never coincide |
| PutStatus.RejectedMessageNamesCode | src/java/org/apache/ivy/util/url/AbstractURLHandler.java:163-165 | two codes giving the same generic failure message are the same code |
| PutStatus.StatusExamples | src/java/org/apache/ivy/util/url/AbstractURLHandler.java:148-167 | 204 succeeds, 403 is refused, 500 fails with `... status code 500: ...` |
| UrlCanonicalizer.IsWebProtocol | src/java/org/apache/ivy/util/url/AbstractURLHandler.java:186 | exactly the protocols `http` and `https`, compared case-sensitively, as lines 186 and 211 test them |
| UrlCanonicalizer.EscapedPercentAt | src/java/org/apache/ivy/util/url/AbstractURLHandler.java:39 | `ESCAPE_PATTERN` matches at the start of the string: `%25` followed by two hex digits, either case |
| UrlCanonicalizer.ExternalForm | src/java/org/apache/ivy/util/url/AbstractURLHandler.java:187 | `url.toExternalForm()` and `url.toString()`: protocol, `:`, `//` and the authority when there is one, path, `?query`, `#ref` |
| UrlCanonicalizer.EscapePlus | src/java/org/apache/ivy/util/url/AbstractURLHandler.java:199 | `replaceAll("\\+", "%2B")`; its properties are stated by `EscapePlusRemovesPlus`, `EscapePlusConcat` and `EscapePlusKeepsMatch` |
| UrlCanonicalizer.CollapseEscapedPercent | src/java/org/apache/ivy/util/url/AbstractURLHandler.java:201 | one left-to-right `replaceAll` pass of `%25([0-9a-fA-F][0-9a-fA-F])`; its properties are stated by `CollapseDeletesOnly25`, `CollapseKeepsPlusFree` and `CollapseUndoesDoubleEscaping` |
| UrlCanonicalizer.NormalizeToString | src/java/org/apache/ivy/util/url/AbstractURLHandler.java:185-208 | non-web URLs give their external form; web URLs fail, with the `Couldn't convert` message, exactly when the URI step fails, and otherwise give the `%25XX` pass applied to the URI string with every `+` escaped; a web result contains no `+` |
| UrlCanonicalizer.NormalizeRepairsDoubleEscaping | src/java/org/apache/ivy/util/url/AbstractURLHandler.java:194-201 | a percent-encoded, `+`-free URL text that the URI step quotes once more (`%` as `%25`) is given back unchanged |
| UrlCanonicalizer.NormalizeToUrl | src/java/org/apache/ivy/util/url/AbstractURLHandler.java:210-216 | non-web URLs are returned as they are; web URLs are parsed from `NormalizeToString`'s result, and its error is passed on |
| UrlCanonicalizer.EscapePlusRemovesPlus | src/java/org/apache/ivy/util/url/AbstractURLHandler.java:199 | no `+` survives the `+` step, and a string without `+` is unchanged |
| UrlCanonicalizer.EscapePlusConcat | src/java/org/apache/ivy/util/url/AbstractURLHandler.java:199 | the `+` step works character by character: it distributes over concatenation |
| UrlCanonicalizer.CollapseOnlyDrops25 | src/java/org/apache/ivy/util/url/AbstractURLHandler.java:201 | the `%25XX` pass and its input agree once every `2` and `5` is removed from both |
| UrlCanonicalizer.CollapseIsSubsequence | src/java/org/apache/ivy/util/url/AbstractURLHandler.java:201 | the pass only deletes characters: its result is a subsequence of its input, no longer than it |
| UrlCanonicalizer.CollapseDeletesOnly25 | src/java/org/apache/ivy/util/url/AbstractURLHandler.java:201 | the pass deletes characters and nothing else, and keeps, in order, every character other than `2` and `5` |
| UrlCanonicalizer.CollapseKeepsPlusFree | src/java/org/apache/ivy/util/url/AbstractURLHandler.java:199-201 | the pass never brings a `+` back |
| UrlCanonicalizer.EscapePlusKeepsMatch | src/java/org/apache/ivy/util/url/AbstractURLHandler.java:199 | the `+` step neither creates nor destroys a `%25XX` match at a position |
| UrlCanonicalizer.EscapeAndCollapseCommute | src/java/org/apache/ivy/util/url/AbstractURLHandler.java:199-201 | escaping `+` and then collapsing gives the same string as collapsing and then escaping |
| UrlCanonicalizer.CollapseUndoesDoubleEscaping | src/java/org/apache/ivy/util/url/AbstractURLHandler.java:194-201 | for an already percent-encoded string whose `%` were quoted again as `%25`, the pass gives the original back |
| UrlCanonicalizer.DoubleEscapeExample | src/java/org/apache/ivy/util/url/AbstractURLHandler.java:201 | `a%2520b` becomes `a%20b` |
| UrlCanonicalizer.SinglePassExample | src/java/org/apache/ivy/util/url/AbstractURLHandler.java:201 | `%252541` becomes `%2541`: replaced text is not scanned again |
| UrlCanonicalizer.PlusExample | src/java/org/apache/ivy/util/url/AbstractURLHandler.java:199-201 | `a+b` becomes `a%2Bb` |

## Left out

- `isReachable`, `getContentLength` and `getLastModified` (lines 45-67) are not modelled. They only forward to `getURLInfo`, which the concrete handlers implement.
- The request-method setting (lines 42-43, 177-183) is not modelled. It is a static field with a setter and a getter.
- `getExtraErrorMessage`, `buildPutExceptionMessage` and the two-argument `validatePutStatusCode` (lines 124-146, 169-175) are not modelled. They read a live `HttpURLConnection`: its error stream, content, headers and response message. Their composition is: the extra text is `"; Response Body: "` plus the decoded, truncated body, or empty when there is no error stream, and both messages are built before the code is classified. The code lets an `IOException` from that body read escape before the classification; a model of it would follow the code.
- The `URI` five-argument constructor, `normalize()` and `toASCIIString()` are a parameter, not a model of `java.net.URI`'s quoting rules.
- `new URL(String)` is a parameter.
- UrlCanonicalizer.ExternalForm: builds the external form the default way. A protocol handler that overrides `toExternalForm` is not modelled.
- The decompressors are not modelled: GZIP header parsing in the `GZIPInputStream` constructor, and the inflation itself. The trial inflate of the probe is a parameter. `Inflater.end()` and its resources are not modelled.
- DecoderSelection.GetDecodingInputStream: the `BufferedInputStream` that the `deflate` branch wraps around `in` (line 229) is folded into the input stream. The model marks, reads and resets that stream itself, overwrites its mark, and has the decoder read it. In the source, only the wrapper is marked and reset, and the inflater reads the wrapper. Filling the wrapper's buffer moves `in` forward, and its own mark is left alone. So the position and mark that the model states for the caller's stream are those of the wrapper, not of `in`. The same holds for `DecoderSelection.ProbeDeflate`.
- DecoderSelection.GetDecodingInputStreamFixed: folds the wrapper into the input stream in the same way. The position and mark it states for the caller's stream are the wrapper's, and in the source `in` is moved forward by the buffer fill.
- ByteStreams.ByteSource.ReadBlock: models `BufferedInputStream.read(byte[])` as filling the buffer with as many bytes as are available, up to its size. A real stream may return fewer bytes. The mark's read limit is ignored, so reading past it never invalidates the mark.
- ByteStreams.BlockRead: defines that full-buffer fill of `read(byte[])`, which `ReadBlock` and the `deflate` probe of `DecoderSelection.SelectedDecoder` use. A real stream may return fewer bytes, so a shorter probe than the model's is possible.
- ByteStreams.ByteSource.Close: never throws. The source ignores an exception from `close()`.
- BoundedReader.ReadTruncated: `maxLen` is a `nat`. A negative `maxLen` makes the `ByteArrayOutputStream` constructor throw before any read, and the handler only passes 512.
- JavaStrings.ToLower: lowers the ASCII letters only. Java's `toLowerCase` follows the default locale and Unicode case mapping. Those affect whether a key such as `charset=` matches only for non-ASCII characters.
- PutStatus.ValidatePutStatusCode: the status code is an unbounded integer and `dest` is the URL's text. `URL.toString` is not modelled.
- A charset that `new String(bytes, charset)` would reject is not checked here; the resolver only names it.

## Findings

| source | as written | input that shows it | evidently intended | confidence | as-written member | corrected member |
|---|---|---|---|---|---|---|
| src/java/org/apache/ivy/util/url/AbstractURLHandler.java:232-236 | the count from `bStream.read(bytes)` goes to `inflater.setInput(bytes, 0, nbBytes)` unchecked; at an immediate end of stream it is -1 and `setInput` throws `ArrayIndexOutOfBoundsException` | a response with `Content-Encoding: deflate` and an empty body | an empty body is an empty probe and a decoder is still chosen | not executed | DecoderSelection.EmptyDeflateBodyRejected | DecoderSelection.SelectedDecoderFixed |
