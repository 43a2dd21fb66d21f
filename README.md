# Undertow HTTP/1.x request parsing, header values and response framing, in Dafny

This project models the core of Undertow's HTTP/1.x server and proves properties of the model:

- **HttpRequestParser** reads a request head from a `ByteBuffer` into a `ParseState` and an `HttpServerExchange`. It parses the verb, the request target (origin form or absolute form, query string, path parameters, percent-decoding), the version, the line after the version, and the header values. Parsing can stop at any byte and resume on the next buffer.
- **The generated matchers** (AbstractParserGenerator, RequestParserGenerator) are the verb, version and header-name machines.
  - Each is a trie of known tokens plus the runtime code the generator emits for it.
  - The model covers prefix matching, falling back to a builder, terminators, a pending `leftOver` byte, and resumption through `parseState`/`pos`/`current`.
- **StateMachine / MatchRule** are the rule trie of the older generator, with its comparators.
- **HttpString** is a case-insensitive byte string. The model covers hashing, ordering and its lazy String and byte caches.
- **HeaderValues** is a bounded circular deque of header values.
- **HttpTransferEncodingHandler** chooses request-body and response framing and decides persistence.
- **UndertowOutputStream** is a buffered blocking stream over a response channel.
- **PathMatchPredicate** matches a relative path, ignoring case.

Code that works on values is modelled as datatypes and functions. Code that changes things in place is modelled as classes:

- `HttpRequestParser` with `ParseState`, `Exchange` and `ByteBuffer`;
- `HeaderValues` over an array;
- `HttpString` with its caches;
- `UndertowOutputStream`;
- the tries, as node arenas.

Every method is proved against a specification function of the inputs and the old state, and the lemmas state what the source promises about those functions.

Line ranges cite the Java sources by path relative to the repository root. Where the model found code that does something its authors evidently did not intend, it follows the code in a separate as-written definition, proves a concrete counterexample about it, and uses the corrected behaviour everywhere else. Each such case is a row under "## Findings". The corrected behaviour is named as such in its row of "## Model".

Two things are parameters rather than code. `URLUtils.decode` is the `urlDecode` function in the parser configuration. Blocking channel I/O is a ghost record of delivered bytes.

## Model

| member | source | states |
|---|---|---|
| `Octets.Signed` | core/src/main/java/io/undertow/util/HttpString.java:343-345 | the value Java sees for an octet: in -128..127 and either the octet itself or the octet minus 256 |
| `Octets.Unsigned` | core/src/main/java/io/undertow/util/HttpString.java:343-345 | inverts Signed on every Java byte value |
| `Octets.JavaChar` | core/src/main/java/io/undertow/server/protocol/http/HttpRequestParser.java:767 | the (char) cast of a byte sign-extends: it is SignExtendedChar of the octet |
| `Octets.SignExtendedChar` | core/src/main/java/io/undertow/server/protocol/http/HttpRequestParser.java:767 | octets below 128 keep their code, octets from 128 become chars above 0xFF, and the low byte is always the octet |
| `Octets.Wrap32` | core/src/main/java/io/undertow/util/HttpString.java:335-341 | Java int arithmetic: the result is an int32 congruent to the exact value mod 2^32, and an int32 is left unchanged |
| `Octets.JavaByte` | core/src/main/java/io/undertow/util/HttpString.java:383-390 | the (byte) narrowing cast yields a Java byte and keeps values already in byte range |
| `Octets.Signum` | parser-generator/src/main/java/io/undertow/annotationprocessor/StateMachine.java:112-116 | Integer.signum is -1, 0 or 1 with the sign of its argument |
| `Octets.Latin1Char` | core/src/main/java/io/undertow/util/HttpString.java:363-372 | new String(bytes, 0) maps each octet to the char with the same code |
| `Octets.LowBytes` | core/src/main/java/io/undertow/util/HttpString.java:82-91 | String.getBytes(int, int, byte[], int) keeps, per char, its low 8 bits, one byte per char |
| `Octets.Latin1Decode` | core/src/main/java/io/undertow/util/HttpString.java:363-372 | decoding keeps length and each byte's code |
| `Octets.DecodeThenLowBytes` | core/src/main/java/io/undertow/util/HttpString.java:137-146 | decoding bytes as Latin-1 then taking low bytes gives the bytes back, and the text is Latin-1 |
| `Octets.LowBytesThenDecode` | core/src/main/java/io/undertow/util/HttpString.java:363-372 | on Latin-1 text, taking low bytes then decoding gives the text back |
| `JavaNumbers.ParseBounded` | core/src/main/java/io/undertow/server/HttpTransferEncodingHandler.java:108 | Long.parseLong/Integer.parseInt: a value is accepted only inside the range, with an optional sign and at least one digit, and a negative value starts with '-' |
| `JavaNumbers.ParseOfDecimal` | core/src/main/java/io/undertow/server/HttpTransferEncodingHandler.java:108 | every value in range printed in decimal parses back to itself |
| `JavaNumbers.ParseRejects` | core/src/main/java/io/undertow/io/UndertowOutputStream.java:66 | one past either end of the range, the empty string and a lone sign are NumberFormatExceptions |
| `JavaNumbers.PlusSignIsIgnored` | core/src/main/java/io/undertow/server/HttpTransferEncodingHandler.java:108 | a leading '+' before a digit does not change the result |
| `HttpStrings.UpperCase` | core/src/main/java/io/undertow/util/HttpString.java:343-345 | only 'a'..'z' change (lose 0x20); every other byte keeps its signed value |
| `HttpStrings.FoldEqualIsEquivalence` | core/src/main/java/io/undertow/util/HttpString.java:347-356 | equality ignoring ASCII case is reflexive, symmetric and transitive |
| `HttpStrings.ArrayEqualIgnoreCase` | core/src/main/java/io/undertow/util/HttpString.java:347-356 | the loop answers true exactly when the lengths agree and every byte pair agrees after upperCase |
| `HttpStrings.CalcHashCode` | core/src/main/java/io/undertow/util/HttpString.java:335-341 | the loop computes the seed-17, times-17-plus-upperCase hash with 32-bit wrap-around |
| `HttpStrings.HashCodeOf` | core/src/main/java/io/undertow/util/HttpString.java:383-390 | hashCodeOf(String) is the same hash of the string's low bytes |
| `HttpStrings.HashOfFoldEqual` | core/src/main/java/io/undertow/util/HttpString.java:275-282 | arrays equal ignoring ASCII case have equal hashes |
| `HttpStrings.CompareFoldedZeroIff` | core/src/main/java/io/undertow/util/HttpString.java:254-267 | the folded comparison of equal-length arrays is 0 exactly when they are equal ignoring case |
| `HttpStrings.CompareFoldedAntisymmetric` | core/src/main/java/io/undertow/util/HttpString.java:254-267 | swapping the arguments negates the folded comparison |
| `HttpStrings.CompareFoldedTransitive` | core/src/main/java/io/undertow/util/HttpString.java:254-267 | the folded comparison is transitive |
| `HttpStrings.ArrayCompareToIgnoreCase` | core/src/main/java/io/undertow/util/HttpString.java:254-267 | the loop returns the signum of the first differing folded byte, and throws IllegalStateException when there is none |
| `HttpStrings.EqualArraysThrow` | core/src/main/java/io/undertow/util/HttpString.java:221-267 | two distinct arrays "ab" and "AB" make compareTo throw instead of returning 0 |
| `HttpStrings.CompareIgnoreCase` | core/src/main/java/io/undertow/util/HttpString.java:221-252 | the intended order: -1/0/1, shorter arrays first, and 0 exactly for arrays equal ignoring case |
| `HttpStrings.CompareIgnoreCaseIsOrder` | core/src/main/java/io/undertow/util/HttpString.java:221-252 | the intended order is antisymmetric and transitive |
| `HttpStrings.AsciiStringRuleAgrees` | core/src/main/java/io/undertow/util/HttpString.java:301-333 | on ASCII text String.equalsIgnoreCase and the byte rule give the same answer |
| `HttpStrings.Latin1AgainstAsciiAgrees` | core/src/main/java/io/undertow/util/HttpString.java:392-409 | a Latin-1 string compared with an ASCII string gets the same answer from both rules |
| `HttpStrings.BytesEqualToStringIsFoldEqual` | core/src/main/java/io/undertow/util/HttpString.java:397-408 | the byte branch of equalToString is the byte rule on the string's low bytes |
| `HttpStrings.CachedStringChangesResults` | core/src/main/java/io/undertow/util/HttpString.java:301-333 | with the same content 0xC9, equals and equalToString answer differently once a String is cached, and the hashes of the equal pair differ (also lines 392-409) |
| `HttpStrings.CachedStringChangesOrder` | core/src/main/java/io/undertow/util/HttpString.java:221-252 | the order of 0xE9 against 'A' flips once a String is cached |
| `HttpStrings.RangeAsWrittenTreatsLengthAsEnd` | core/src/main/java/io/undertow/util/HttpString.java:63-65 | as written, offset 1 and length 2 of "abcd" keep one byte, and offset 3 length 1 throws |
| `HttpStrings.Range` | core/src/main/java/io/undertow/util/HttpString.java:63-65 | the intended copy succeeds exactly when offset and length are non-negative and fit, and then holds length bytes from offset |
| `HttpStrings.CheckLatin1` | core/src/main/java/io/undertow/util/HttpString.java:83-113 | the validation loop accepts exactly the strings whose chars are all at most 0xFF |
| `HttpStrings.EqualBytesToString` | core/src/main/java/io/undertow/util/HttpString.java:397-408 | the byte-branch loop computes the byte rule against the string |
| `HttpStrings.HttpString.FromBytes` | core/src/main/java/io/undertow/util/HttpString.java:52-54 | a new instance holds exactly the given bytes, with no String cached and no hash computed |
| `HttpStrings.HttpString.FromLatin1` | core/src/main/java/io/undertow/util/HttpString.java:93-97 | an instance made from a String already known to be Latin-1 stands for that String's low bytes, with no byte array yet |
| `HttpStrings.HttpString.FromRange` | core/src/main/java/io/undertow/util/HttpString.java:63-65 | fails exactly when Range fails; otherwise a fresh instance holding the copied range |
| `HttpStrings.HttpString.FromString` | core/src/main/java/io/undertow/util/HttpString.java:82-91 | IllegalArgumentException exactly for a string that is not Latin-1; otherwise a fresh instance caching that string |
| `HttpStrings.HttpString.TryFromString` | core/src/main/java/io/undertow/util/HttpString.java:106-115 | null exactly for a string that is not Latin-1; otherwise a fresh instance caching that string |
| `HttpStrings.HttpString.Length` | core/src/main/java/io/undertow/util/HttpString.java:122-125 | either representation gives the content length |
| `HttpStrings.HttpString.ByteAt` | core/src/main/java/io/undertow/util/HttpString.java:132-135 | either representation gives the content byte at idx |
| `HttpStrings.HttpString.GetBytes` | core/src/main/java/io/undertow/util/HttpString.java:137-146 | returns the content, fills the byte cache, and returns the cached array when there was one |
| `HttpStrings.HttpString.ToString` | core/src/main/java/io/undertow/util/HttpString.java:363-372 | returns the Latin-1 text of the content, fills the String cache, and returns the cached String when there was one |
| `HttpStrings.HttpString.HashCode` | core/src/main/java/io/undertow/util/HttpString.java:275-282 | the cached hash is the hash of the content, whichever representation computed it |
| `HttpStrings.HttpString.Equals` | core/src/main/java/io/undertow/util/HttpString.java:291-333 | false for null; true exactly for the same object or content equal ignoring ASCII case; the contents do not change |
| `HttpStrings.HttpString.CompareTo` | core/src/main/java/io/undertow/util/HttpString.java:221-252 | 0 for the same object, otherwise the intended order of the contents; the contents do not change |
| `HttpStrings.HttpString.EqualToString` | core/src/main/java/io/undertow/util/HttpString.java:392-409 | the byte rule between the content and the string |
| `PathMatch.Make` | core/src/main/java/io/undertow/predicate/PathMatchPredicate.java:18-26 | slashPath is always '/' + path; a leading '/' is kept in slashPath, otherwise the text is path itself |
| `PathMatch.ResolveMeaning` | core/src/main/java/io/undertow/predicate/PathMatchPredicate.java:29-36 | a relative path matches exactly when, with a leading '/', it equals slashPath ignoring ASCII case |
| `PathMatch.LeadingSlashIsOptional` | core/src/main/java/io/undertow/predicate/PathMatchPredicate.java:18-26 | configuring "/p" and "p" gives the same predicate |
| `PathMatch.PathFooMatches` | core/src/main/java/io/undertow/predicate/PathMatchPredicate.java:29-36 | path[foo] matches "foo" and "/foo", and path[/foo] matches "FOO" |
| `PathMatch.PathFooRejects` | core/src/main/java/io/undertow/predicate/PathMatchPredicate.java:29-36 | path[foo] does not match "bob" or "foo/" |
| `TransferEncoding.TokenEquals` | core/src/main/java/io/undertow/server/HttpTransferEncodingHandler.java:84-103 | new HttpString(value).equals(constant): IllegalArgumentException exactly for a value that is not Latin-1, otherwise equality ignoring ASCII case |
| `TransferEncoding.TokenEqualsAgreesWithStringPath` | core/src/main/java/io/undertow/server/HttpTransferEncodingHandler.java:83-84 | the String path of HttpString.equals gives the same answer against an ASCII constant |
| `TransferEncoding.AnyKeepAliveMeaning` | core/src/main/java/io/undertow/server/HttpTransferEncodingHandler.java:87-94 | on Latin-1 values the HTTP/1.0 scan answers whether some Connection value is keep-alive |
| `TransferEncoding.PersistenceRules` | core/src/main/java/io/undertow/server/HttpTransferEncodingHandler.java:79-98 | HTTP/1.1 is persistent unless the first Connection value is close; HTTP/1.0 only when some value is keep-alive; any other version never |
| `TransferEncoding.RequestBodyRules` | core/src/main/java/io/undertow/server/HttpTransferEncodingHandler.java:99-133 | a non-identity last Transfer-Encoding reads chunked; otherwise Content-Length 0 gives an empty body, n gives a fixed body, an unparsable one gives 400; identity without a length forces non-persistence; no framing on a persistent request terminates it at once |
| `TransferEncoding.BadRequestExactly` | core/src/main/java/io/undertow/server/HttpTransferEncodingHandler.java:105-114 | the 400 is given exactly when the body is not chunked and Content-Length does not parse |
| `TransferEncoding.RequestTerminationAndPersistence` | core/src/main/java/io/undertow/server/HttpTransferEncodingHandler.java:115-133 | an accepted request is never more persistent than it looked, and is terminated at once exactly when it has neither framing header and looks persistent |
| `TransferEncoding.SourceFor` | core/src/main/java/io/undertow/server/HttpTransferEncodingHandler.java:224-250 | no body gives no wrapper; a fixed body above the maximum entity size gives a broken channel and a fixed channel never exceeds it |
| `TransferEncoding.ResponseChangesOnlyTheHeader` | core/src/main/java/io/undertow/server/HttpTransferEncodingHandler.java:148-201 | the corrected wrapper differs from the one as written only in the headers: the same channel and persistence |
| `TransferEncoding.NoBodyResponseAnnouncedChunked` | core/src/main/java/io/undertow/server/HttpTransferEncodingHandler.java:148-180 | as written a 204 on HTTP/1.1 with no framing headers is announced chunked yet framed with length 0; corrected, no Transfer-Encoding is added |
| `TransferEncoding.NoBodyResponseFraming` | core/src/main/java/io/undertow/server/HttpTransferEncodingHandler.java:162-180 | HEAD, 1xx, 204 and 304 get zero-length framing, except a 101 with Content-Length, which uses it or goes unbounded when it does not parse; chunked is never added |
| `TransferEncoding.BodyResponseFraming` | core/src/main/java/io/undertow/server/HttpTransferEncodingHandler.java:148-201 | a body-bearing HTTP/1.1 response with no framing headers gets chunked; other versions lose Transfer-Encoding; non-identity encoding is chunked, Content-Length is fixed, and otherwise the output is unbounded and not persistent |
| `TransferEncoding.ResponseConnectionHeader` | core/src/main/java/io/undertow/server/HttpTransferEncodingHandler.java:202-218 | the response is never more persistent than the request looked; unless 101, HTTP/1.1 gets keep-alive or close and HTTP/1.0 gets keep-alive or loses the header |
| `TransferEncoding.ResponseTouchesOnlyFramingHeaders` | core/src/main/java/io/undertow/server/HttpTransferEncodingHandler.java:144-220 | every header other than Connection and Transfer-Encoding is left as it was |
| `TransferEncoding.Exchange.constructor` | core/src/main/java/io/undertow/server/HttpTransferEncodingHandler.java:77 | the exchange starts with the given request, status 200, no response headers, no wrappers and nothing terminated |
| `TransferEncoding.Exchange.ScanKeepAlive` | core/src/main/java/io/undertow/server/HttpTransferEncodingHandler.java:87-94 | the loop computes the keep-alive scan |
| `TransferEncoding.Exchange.HandleRequest` | core/src/main/java/io/undertow/server/HttpTransferEncodingHandler.java:77-140 | throws exactly for a non-Latin-1 value; a 400 changes only the status; an accepted request gets the decided persistence, body wrapper, response wrapper and termination, and runs the next handler |
| `TransferEncoding.Exchange.LooksPersistent` | core/src/main/java/io/undertow/server/HttpTransferEncodingHandler.java:79-98 | the persistence test computes the persistence rule |
| `TransferEncoding.Exchange.WrapResponse` | core/src/main/java/io/undertow/server/HttpTransferEncodingHandler.java:142-222 | installs the decided channel and response headers, or changes nothing when new HttpString rejects a value |
| `TransferEncoding.Exchange.FixedLengthDrained` | core/src/main/java/io/undertow/server/HttpTransferEncodingHandler.java:252-263 | the request is terminated once no bytes remain, and not before |
| `TransferEncoding.Exchange.ChunkedDrained` | core/src/main/java/io/undertow/server/HttpTransferEncodingHandler.java:265-275 | the request is terminated once the last chunk is read, and not before |
| `TransferEncoding.Exchange.ResponseFinished` | core/src/main/java/io/undertow/server/HttpTransferEncodingHandler.java:277-283 | the response is terminated |
| `HeaderValuesDeque.SlotInjective` | core/src/main/java/io/undertow/util/HeaderValues.java:81-90 | distinct positions of a window no longer than the array occupy distinct slots, so the circular layout never overlaps itself |
| `HeaderValuesDeque.Window` | core/src/main/java/io/undertow/util/HeaderValues.java:81-90 | the logical list has size elements, element i sitting at slot head+i wrapped at the array length |
| `HeaderValuesDeque.InsertAt` | core/src/main/java/io/undertow/util/HeaderValues.java:266-332 | the list after an insertion: one longer, v at the index, earlier elements kept, later ones shifted by one |
| `HeaderValuesDeque.HeaderValues.constructor` | core/src/main/java/io/undertow/util/HeaderValues.java:44-46 | a new deque for the key holds no values |
| `HeaderValuesDeque.HeaderValues.Grow` | core/src/main/java/io/undertow/util/HeaderValues.java:205-211 | the grown array is three times longer and holds the values rebased to slot 0, with one free slot at the insertion point: what the three growth paths evidently intend, including the case head + idx == len that offer(int) leaves uncopied (see Findings) (also lines 240-246, 281-301) |
| `HeaderValuesDeque.HeaderValues.OpenGap` | core/src/main/java/io/undertow/util/HeaderValues.java:302-328 | the in-place shift leaves positions before idx in place and moves the rest one place towards the end, wrapping past the array end; it stands for the four shift branches, whose slips are listed under Findings |
| `HeaderValuesDeque.HeaderValues.OfferFirst` | core/src/main/java/io/undertow/util/HeaderValues.java:196-229 | succeeds exactly for a non-null value with fewer than 127 values; then the value is first and the rest follow unchanged, otherwise nothing changes |
| `HeaderValuesDeque.HeaderValues.OfferLast` | core/src/main/java/io/undertow/util/HeaderValues.java:231-264 | succeeds exactly for a non-null value with fewer than 127 values; then the value is last after the unchanged others, otherwise nothing changes |
| `HeaderValuesDeque.HeaderValues.Offer` | core/src/main/java/io/undertow/util/HeaderValues.java:266-332 | succeeds exactly for a non-null value, an index in [0, size] and fewer than 127 values; then the list is the old list with the value inserted at the index; this is the corrected insertion, and OfferAsWritten with the lemmas below states what lines 280-327 do instead |
| `HeaderValuesDeque.HeaderValues.PollFirst` | core/src/main/java/io/undertow/util/HeaderValues.java:334-355 | the corrected pollFirst: null and no change on an empty deque; otherwise returns the first value and removes only it, and head stays a slot of the array (the as-written wrap and byte overflow of head are the HeaderValues.java:345 and :40 findings) |
| `HeaderValuesDeque.HeaderValues.PollLast` | core/src/main/java/io/undertow/util/HeaderValues.java:357-377 | null and no change on an empty deque; otherwise returns the last value and removes only it |
| `HeaderValuesDeque.HeaderValues.RemoveFirst` | core/src/main/java/io/undertow/util/HeaderValues.java:623-629 | NoSuchElementException and no change on an empty deque; otherwise returns and removes the first value, through the corrected PollFirst |
| `HeaderValuesDeque.HeaderValues.RemoveLast` | core/src/main/java/io/undertow/util/HeaderValues.java:631-637 | NoSuchElementException and no change on an empty deque; otherwise returns and removes the last value |
| `HeaderValuesDeque.HeaderValues.Remove` | core/src/main/java/io/undertow/util/HeaderValues.java:379-415 | IndexOutOfBoundsException and no change outside [0, size); otherwise returns element idx and keeps the others in order. This is the corrected removal: RemoveAsWritten with the two lemmas below states what lines 391-412 do instead (see Findings) |
| `HeaderValuesDeque.HeaderValues.CloseGap` | core/src/main/java/io/undertow/util/HeaderValues.java:392-410 | the shift keeps positions before idx and moves the later ones one place towards head |
| `HeaderValuesDeque.HeaderValues.Get` | core/src/main/java/io/undertow/util/HeaderValues.java:417-429 | element idx for an index in [0, size), IndexOutOfBoundsException for every other index |
| `HeaderValuesDeque.HeaderValues.Set` | core/src/main/java/io/undertow/util/HeaderValues.java:467-487 | IllegalArgumentException for null, IndexOutOfBoundsException outside [0, size), otherwise returns the old element and replaces position index only |
| `HeaderValuesDeque.HeaderValues.IndexOf` | core/src/main/java/io/undertow/util/HeaderValues.java:431-447 | the first position holding a value equal ignoring ASCII case, and -1 exactly when there is none |
| `HeaderValuesDeque.HeaderValues.LastIndexOf` | core/src/main/java/io/undertow/util/HeaderValues.java:449-465 | the last position holding a value equal ignoring ASCII case, and -1 exactly when there is none |
| `HeaderValuesDeque.HeaderValues.Contains` | core/src/main/java/io/undertow/util/HeaderValues.java:572-574 | true exactly when some value equals the argument ignoring ASCII case |
| `HeaderValuesDeque.HeaderValues.Clear` | core/src/main/java/io/undertow/util/HeaderValues.java:60-79 | the deque becomes empty and keeps its array; every slot the window occupied is nulled, and head returns to 0 when the deque held values (an empty deque returns at once, line 62) |
| `HeaderValuesDeque.HeaderValues.ToArray` | core/src/main/java/io/undertow/util/HeaderValues.java:509-525 | the values in list order |
| `HeaderValuesDeque.HeaderValues.PeekFirst` | core/src/main/java/io/undertow/util/HeaderValues.java:576-578 | the first value, or null when empty |
| `HeaderValuesDeque.HeaderValues.PeekLast` | core/src/main/java/io/undertow/util/HeaderValues.java:580-582 | the last value, or null when empty |
| `HeaderValuesDeque.HeaderValues.GetFirst` | core/src/main/java/io/undertow/util/HeaderValues.java:639-645 | the first value, or NoSuchElementException when empty |
| `HeaderValuesDeque.HeaderValues.GetLast` | core/src/main/java/io/undertow/util/HeaderValues.java:647-653 | the last value, or NoSuchElementException when empty |
| `HeaderValuesDeque.HeaderValues.AddFirst` | core/src/main/java/io/undertow/util/HeaderValues.java:557-560 | null is ignored, a full deque is an IllegalStateException with no change, otherwise the value becomes first |
| `HeaderValuesDeque.HeaderValues.AddLast` | core/src/main/java/io/undertow/util/HeaderValues.java:562-597 | null is ignored, a full deque is an IllegalStateException with no change, otherwise the value becomes last |
| `HeaderValuesDeque.HeaderValues.Add` | core/src/main/java/io/undertow/util/HeaderValues.java:567-570 | null is ignored, a refused insertion is an IllegalStateException with no change, otherwise the value is inserted at the index |
| `HeaderValuesDeque.HeaderValues.RemoveFirstOccurrence` | core/src/main/java/io/undertow/util/HeaderValues.java:584-587 | true exactly when some value matches; then only the first match is removed, otherwise nothing changes (also lines 659-661) |
| `HeaderValuesDeque.HeaderValues.RemoveLastOccurrence` | core/src/main/java/io/undertow/util/HeaderValues.java:589-592 | true exactly when some value matches; then only the last match is removed, otherwise nothing changes |
| `HeaderValuesDeque.HeaderValues.AddAll` | core/src/main/java/io/undertow/util/HeaderValues.java:489-496 | IndexOutOfBoundsException outside [0, size]; otherwise the non-null elements are inserted at the index in their own order, up to 127 values, and the result says whether anything was added |
| `HeaderValuesDeque.HeaderValues.AddAllLast` | core/src/main/java/io/undertow/util/HeaderValues.java:663-665 | addAll(Collection) as the Deque and Collection contracts promise: the non-null elements are appended in order, up to 127 values, and the result says whether anything was added; the source inserts them at index 0 instead (see Findings) |
| `HeaderValuesDeque.WrapAsWrittenOverruns` | core/src/main/java/io/undertow/util/HeaderValues.java:86 | as written, head 2 plus position 2 in an array of 4 gives slot 4, past the end, where the wrapped slot is 0 (also lines 348, 370, 439, 457) |
| `HeaderValuesDeque.GetGuardAsWrittenAdmitsBadIndexes` | core/src/main/java/io/undertow/util/HeaderValues.java:418 | as written, get(size) and get(-1) pass the guard |
| `HeaderValuesDeque.OfferFirstGrowAsWrittenFails` | core/src/main/java/io/undertow/util/HeaderValues.java:205-211 | as written, growing a full array with head 0 writes at slot -1, and with head 3 the grown window loses the values |
| `HeaderValuesDeque.OfferLastGrowAsWrittenFails` | core/src/main/java/io/undertow/util/HeaderValues.java:240-246 | as written, growing a full array stored from head 2 keeps head 2 after rebasing, so the window of five values does not end with the new value |
| `HeaderValuesDeque.PollFirstHeadAsWrittenOverruns` | core/src/main/java/io/undertow/util/HeaderValues.java:345 | as written, polling the value in the last slot leaves head at the array length, so the next access reads past the end |
| `HeaderValuesDeque.PollFirstByteHeadAsWrittenOverflows` | core/src/main/java/io/undertow/util/HeaderValues.java:40 | as written, the byte head steps by one up to 127, the poll at 127 leaves -128, and the next offerLast into 324 slots holding 108 values targets slot -20, where an int head gives slot 236 |
| `HeaderValuesDeque.RemoveFrontAsWrittenDuplicates` | core/src/main/java/io/undertow/util/HeaderValues.java:400-405 | as written, removing position 1 of [a, b, c, d] stored from head 2 leaves [a, a, c] |
| `HeaderValuesDeque.RemoveAtEndAsWrittenThrows` | core/src/main/java/io/undertow/util/HeaderValues.java:391-405 | as written, removing position 2 of [a, b, c, d] stored from head 2 of 4, whose value c sits in slot 0, takes the front branch and throws |
| `HeaderValuesDeque.OfferGrowAsWrittenLosesValues` | core/src/main/java/io/undertow/util/HeaderValues.java:280-301 | as written, inserting v at position 2 of a full [a, b, c, d] stored from head 2 of 4 copies no value into the grown array: the window reads [null, null, v, null, null] |
| `HeaderValuesDeque.OfferWrappedFrontAsWrittenOverwrites` | core/src/main/java/io/undertow/util/HeaderValues.java:303-315 | as written, inserting v at position 1 of [a, b, c] stored from head 2 of 4 shifts the front correctly, then writes v again at slot 1: [v, v, b, c] |
| `HeaderValuesDeque.OfferWrappedBackAsWrittenOverwrites` | core/src/main/java/io/undertow/util/HeaderValues.java:307-315 | as written, inserting v at position 2 of [a, b, c] stored from head 3 of 4 writes v again at slot 2: [a, b, v, v] |
| `HeaderValuesDeque.OfferWrappedAtEndAsWrittenLosesValue` | core/src/main/java/io/undertow/util/HeaderValues.java:310-315 | as written, inserting v at position 1 of [a, b, c] stored from head 3 of 4 gives [a, v, v, c] |
| `HeaderValuesDeque.OfferBackShiftAsWrittenOverruns` | core/src/main/java/io/undertow/util/HeaderValues.java:318-321 | as written, inserting at position 2 of [a, b, c] stored from head 1 of 4 copies past the array end and throws |
| `HeaderValuesDeque.OfferFrontShiftAsWrittenLosesValue` | core/src/main/java/io/undertow/util/HeaderValues.java:323-327 | as written, inserting v at position 1 of [a, b, c, d] stored from head 1 of 12 shifts the values after the index, not before it: [null, v, c, d, d] |
| `HeaderValuesDeque.AddAllFrontAsWritten` | core/src/main/java/io/undertow/util/HeaderValues.java:663-665 | as written, addAll([x]) on the deque [a] gives [x, a]; appended as the Deque contract says it is [a, x] |
| `HeaderValuesDeque.AddAllAsWrittenReverses` | core/src/main/java/io/undertow/util/HeaderValues.java:489-496 | as written, addAll([x, y]) on an empty deque gives [y, x]; the intended list is [x, y] |
| `HeaderValuesDeque.OfferFirstWrapHeadAsWrittenTruncates` | core/src/main/java/io/undertow/util/HeaderValues.java:213 | as written, after growth to 324 slots the byte head set to the last slot wraps to 67 |
| `OutputStreams.UndertowOutputStream.constructor` | core/src/main/java/io/undertow/io/UndertowOutputStream.java:62-70 | a new stream is open with nothing accepted, written, allocated or obtained |
| `OutputStreams.UndertowOutputStream.Open` | core/src/main/java/io/undertow/io/UndertowOutputStream.java:62-70 | an unparsable Content-Length fails the constructor; otherwise the stream is open, empty and declares the parsed length, or none |
| `OutputStreams.UndertowOutputStream.Channel` | core/src/main/java/io/undertow/io/UndertowOutputStream.java:133-135 | the response channel is obtained, and getResponseChannel has been called exactly once (also lines 143-145, 185-187, 193-195, 218-220) |
| `OutputStreams.UndertowOutputStream.Buffer` | core/src/main/java/io/undertow/io/UndertowOutputStream.java:234-242 | allocates from the pool only when no buffer is held, so at most once; nothing else changes |
| `OutputStreams.UndertowOutputStream.Put` | core/src/main/java/io/undertow/io/UndertowOutputStream.java:96-113 | the n bytes from the source are appended to the staged bytes |
| `OutputStreams.UndertowOutputStream.CopyInto` | core/src/main/java/io/undertow/io/UndertowOutputStream.java:96-113 | the copied slice lands after the kept prefix of the array |
| `OutputStreams.UndertowOutputStream.WriteBuffer` | core/src/main/java/io/undertow/io/UndertowOutputStream.java:191-199 | the staged bytes are appended to the channel output, so it equals every accepted byte, and the buffer is empty |
| `OutputStreams.UndertowOutputStream.Write` | core/src/main/java/io/undertow/io/UndertowOutputStream.java:89-114 | len < 1 is a no-op even after close; a closed stream throws streamIsClosed; otherwise the bytes are accepted in order, the buffer is written out whenever it fills, and the stream closes exactly when the declared length is reached |
| `OutputStreams.UndertowOutputStream.Stage` | core/src/main/java/io/undertow/io/UndertowOutputStream.java:96-113 | the slice is appended to the accepted bytes; a slice that fits stays staged, one that fills the buffer starts the channel write |
| `OutputStreams.UndertowOutputStream.Fill` | core/src/main/java/io/undertow/io/UndertowOutputStream.java:99-110 | one round appends n bytes and, when that fills the buffer, delivers everything accepted and empties it |
| `OutputStreams.UndertowOutputStream.WriteByte` | core/src/main/java/io/undertow/io/UndertowOutputStream.java:75-77 | a closed stream throws; otherwise the low eight bits of b are appended |
| `OutputStreams.UndertowOutputStream.WriteAll` | core/src/main/java/io/undertow/io/UndertowOutputStream.java:82-84 | an empty array is a no-op; a closed stream throws; otherwise the bytes are appended in order |
| `OutputStreams.UndertowOutputStream.UpdateWritten` | core/src/main/java/io/undertow/io/UndertowOutputStream.java:167-173 | the stream closes, with every accepted byte delivered, exactly when the written count reaches the declared Content-Length |
| `OutputStreams.UndertowOutputStream.Flush` | core/src/main/java/io/undertow/io/UndertowOutputStream.java:178-189 | a closed stream throws; otherwise the channel has received every accepted byte and the buffer is empty |
| `OutputStreams.UndertowOutputStream.Close` | core/src/main/java/io/undertow/io/UndertowOutputStream.java:204-232 | a second call changes nothing; the first delivers every accepted byte, shuts the channel down, frees the pooled buffer exactly as often as it was allocated, and sets Content-Length to the byte count when nothing was written before |
| `OutputStreams.UndertowOutputStream.TotalRemaining` | core/src/main/java/io/undertow/io/UndertowOutputStream.java:122-125 | the sum of remaining() is the length of the concatenated buffers |
| `OutputStreams.UndertowOutputStream.WriteBuffers` | core/src/main/java/io/undertow/io/UndertowOutputStream.java:118-160 | a closed stream throws even for empty buffers; empty buffers change nothing; otherwise the data is accepted and the stream closes exactly at the declared length; at most one allocation and one channel request |
| `OutputStreams.UndertowOutputStream.StageOrSend` | core/src/main/java/io/undertow/io/UndertowOutputStream.java:139-157 | data that fits in the room left is staged; otherwise the staged bytes and the data go to the channel in order |
| `OutputStreams.UndertowOutputStream.WriteByteBuffer` | core/src/main/java/io/undertow/io/UndertowOutputStream.java:163-165 | a closed stream throws; otherwise the buffer's bytes are appended |
| `RuleTrie.Compare` | parser-generator/src/main/java/io/undertow/annotationprocessor/StateMachine.java:112-126 | CASE_SENSITIVE and the natural Byte order tell bytes apart exactly and order them numerically (CASE_SENSITIVE as a signum); CASE_INSENSITIVE returns 0 exactly for bytes equal after folding 'a'..'z' |
| `RuleTrie.Keys` | parser-generator/src/main/java/io/undertow/annotationprocessor/MatchRule.java:43-44 | one key per char of the text, each the char truncated to a Java byte |
| `RuleTrie.Find` | parser-generator/src/main/java/io/undertow/annotationprocessor/MatchRule.java:43-50 | TreeMap.get finds an entry exactly when one key compares equal to the byte under the map's comparator |
| `RuleTrie.Walk` | parser-generator/src/main/java/io/undertow/annotationprocessor/MatchRule.java:40-50 | following the keys from the root stays inside the arena, and reaches the root exactly for no keys |
| `RuleTrie.ExtendsKeepsWalks` | parser-generator/src/main/java/io/undertow/annotationprocessor/MatchRule.java:43-50 | growing the trie keeps every walk that was already on it |
| `RuleTrie.WalkPrefixOnTrie` | parser-generator/src/main/java/io/undertow/annotationprocessor/MatchRule.java:43-50 | a walk that ends on the trie passes only through places on the trie |
| `RuleTrie.AddChildFacts` | parser-generator/src/main/java/io/undertow/annotationprocessor/MatchRule.java:46-49 | map.put of a missing key adds one new state with no action and no children, reached from its parent by that byte, and changes no action |
| `RuleTrie.RuleTrie.constructor` | parser-generator/src/main/java/io/undertow/annotationprocessor/StateMachine.java:55 | an empty trie with the root's comparator and the comparator of the child maps |
| `RuleTrie.RuleTrie.AddToState` | parser-generator/src/main/java/io/undertow/annotationprocessor/MatchRule.java:40-60 | empty text is reported and changes nothing; otherwise the text's walk ends on the trie, a duplicate is reported exactly when that state already had an action (which is kept), else the action is set there; at most one state per char is created and no other action changes |
| `RuleTrie.Follow` | parser-generator/src/main/java/io/undertow/annotationprocessor/MatchRule.java:42-50 | the loop reaches the state of the whole text, creating at most one state per char, and keeps every action |
| `RuleTrie.Advance` | parser-generator/src/main/java/io/undertow/annotationprocessor/MatchRule.java:43-50 | one char follows an existing edge without change, or creates exactly one new state without action or children |
| `RuleTrie.StateMachine.constructor` | parser-generator/src/main/java/io/undertow/annotationprocessor/StateMachine.java:43-47 | a machine with its underflow action, case mode and no rules |
| `RuleTrie.StateMachine.AddRule` | parser-generator/src/main/java/io/undertow/annotationprocessor/StateMachine.java:49-51 | the rule is appended after the earlier rules, in call order |
| `RuleTrie.StateMachine.Emit` | parser-generator/src/main/java/io/undertow/annotationprocessor/StateMachine.java:53-65 | builds a well formed trie with the chosen comparator everywhere and registers every rule, with one error result per rule |
| `RuleTrie.RegisteredKept` | parser-generator/src/main/java/io/undertow/annotationprocessor/MatchRule.java:55-59 | growing the trie without touching states that carry actions keeps every rule registered |
| `RuleTrie.NewRuleRegistered` | parser-generator/src/main/java/io/undertow/annotationprocessor/MatchRule.java:51-59 | what addToState promises about its own rule means that the rule is registered |
| `RuleTrie.Accepts` | parser-generator/src/main/java/io/undertow/annotationprocessor/StateMachine.java:91-98 | the byte test these lines evidently intend accepts exactly the bytes the chosen comparator cannot tell from the key; the test they emit compares the key with zero (see Findings) |
| `RuleTrie.FirstAccepting` | parser-generator/src/main/java/io/undertow/annotationprocessor/StateMachine.java:76-98 | the alternatives are tried in keySet order: the result is an edge whose test accepts the byte and that comes first under the map's comparator among all that accept, or none when no edge accepts |
| `RuleTrie.FirstAcceptingIsFind` | parser-generator/src/main/java/io/undertow/annotationprocessor/StateMachine.java:76-98 | in a map whose keys the chosen comparator tells apart, the tests pick the same edge as TreeMap.get, whatever order they are tried in |
| `RuleTrie.Run` | parser-generator/src/main/java/io/undertow/annotationprocessor/StateMachine.java:76-110 | the matcher these lines evidently intend underflows only at the end of the input, and matches only with the cursor on a delimiter |
| `RuleTrie.RunAlongWalk` | parser-generator/src/main/java/io/undertow/annotationprocessor/StateMachine.java:76-110 | reading a rule's bytes from the root follows the trie walk of that rule |
| `RuleTrie.RunFindsRule` | parser-generator/src/main/java/io/undertow/annotationprocessor/StateMachine.java:76-110 | a rule's text followed by a delimiter no child accepts runs that rule's action, with the cursor on the delimiter |
| `RuleTrie.AsWrittenRootMissesCaseDuplicate` | parser-generator/src/main/java/io/undertow/annotationprocessor/StateMachine.java:55 | as written the root map tells 'A' from 'a', so "Ab" is not a duplicate of "ab" while "aB" would be |
| `RuleTrie.CorrectedRootReportsCaseDuplicate` | parser-generator/src/main/java/io/undertow/annotationprocessor/StateMachine.java:55 | with the chosen comparator on the root, "Ab" reaches the state of "ab" and is reported as a duplicate |
| `RuleTrie.ShadowTrieHoldsBothRules` | parser-generator/src/main/java/io/undertow/annotationprocessor/StateMachine.java:55-61 | the trie built as written holds "ab" and "Ab" as separate rules |
| `RuleTrie.AsWrittenRootShadowsRule` | parser-generator/src/main/java/io/undertow/annotationprocessor/StateMachine.java:55-77 | with the natural-order root as written, the inputs "ab " and "Ab " both run the action of "Ab": its 'A' alternative comes first in keySet order and accepts 'a' too, so the action of "ab" never runs |
| `RuleTrie.EmittedTestAsWrittenIgnoresInput` | parser-generator/src/main/java/io/undertow/annotationprocessor/StateMachine.java:91-98 | as written, an alternative is taken exactly when its key is the zero byte, whatever the input byte; the test for 'a' refuses 'a' |
| `RuleTrie.EmitAsWrittenFailsForAnyRule` | parser-generator/src/main/java/io/undertow/annotationprocessor/StateMachine.java:67-104 | as written, emitting any machine that holds a rule throws NullPointerException from the null delimiter array |
| `ParserTrie.IsHeaderChar` | parser-generator/src/main/java/io/undertow/annotationprocessor/AbstractParserGenerator.java:182-229 | the test the emitted branches evidently intend: a Java byte is a header-name char exactly when it is an RFC 2616 token char or '/' |
| `ParserTrie.IsLws` | parser-generator/src/main/java/io/undertow/annotationprocessor/AbstractParserGenerator.java:232-246 | the LWS chars are separators and not visible token chars |
| `ParserTrie.IsHeaderValueChar` | parser-generator/src/main/java/io/undertow/annotationprocessor/AbstractParserGenerator.java:248-270 | a Java byte is a header-value char exactly when its octet is HT, 32..126 or 128..255 |
| `ParserTrie.KeysOf` | parser-generator/src/main/java/io/undertow/annotationprocessor/AbstractParserGenerator.java:1223-1224 | one key per char of the token, the char's low byte as a Java byte |
| `ParserTrie.Lookup` | parser-generator/src/main/java/io/undertow/annotationprocessor/AbstractParserGenerator.java:1223-1225 | HashMap.get finds the entry keyed by the byte, and fails exactly when no entry has that key |
| `ParserTrie.NextIsChild` | parser-generator/src/main/java/io/undertow/annotationprocessor/AbstractParserGenerator.java:1223-1229 | the child found is a later node that spells one more key, and it is the only child of a node with one |
| `ParserTrie.WalkFrom` | parser-generator/src/main/java/io/undertow/annotationprocessor/AbstractParserGenerator.java:1218-1232 | following keys stays inside the arena, and no keys stay where they started |
| `ParserTrie.Reach` | parser-generator/src/main/java/io/undertow/annotationprocessor/AbstractParserGenerator.java:1225-1229 | the number of keys that can be followed before an edge is missing is at most the number of keys |
| `ParserTrie.WalkSpells` | parser-generator/src/main/java/io/undertow/annotationprocessor/AbstractParserGenerator.java:1226-1228 | every node reached spells the text of the path that leads to it |
| `ParserTrie.WalkFromRootSpells` | parser-generator/src/main/java/io/undertow/annotationprocessor/AbstractParserGenerator.java:1226-1228 | a walk from the initial state spells exactly its keys |
| `ParserTrie.ReachIsWalk` | parser-generator/src/main/java/io/undertow/annotationprocessor/AbstractParserGenerator.java:1218-1232 | every key can be followed exactly when the walk succeeds |
| `ParserTrie.GrewKeepsNext` | parser-generator/src/main/java/io/undertow/annotationprocessor/AbstractParserGenerator.java:1225-1229 | adding tokens keeps every edge that existed |
| `ParserTrie.GrewKeepsWalks` | parser-generator/src/main/java/io/undertow/annotationprocessor/AbstractParserGenerator.java:1225-1229 | adding tokens keeps every walk that succeeded |
| `ParserTrie.PutChildFacts` | parser-generator/src/main/java/io/undertow/annotationprocessor/AbstractParserGenerator.java:1225-1229 | creating a missing child appends one non-final leaf that spells one more byte and is reached by that byte; no other node becomes final |
| `ParserTrie.StepThenWalk` | parser-generator/src/main/java/io/undertow/annotationprocessor/AbstractParserGenerator.java:1218-1232 | a step of addStates followed by the recursive call ends where the whole walk ends and creates exactly the missing nodes |
| `ParserTrie.TokenTrie.constructor` | parser-generator/src/main/java/io/undertow/annotationprocessor/AbstractParserGenerator.java:689-690 | the trie starts with only the initial state and no numbering |
| `ParserTrie.TokenTrie.AddStates` | parser-generator/src/main/java/io/undertow/annotationprocessor/AbstractParserGenerator.java:1214-1216 | afterwards the token's walk from the initial state ends on a final node; exactly the missing nodes of that path were created, one per missing byte; no other node became final and every earlier edge is kept |
| `ParserTrie.TokenTrie.AddFrom` | parser-generator/src/main/java/io/undertow/annotationprocessor/AbstractParserGenerator.java:1218-1232 | from a node spelling the first i bytes, the rest of the token is added with the same promises as AddStates |
| `ParserTrie.TokenTrie.ChainTerminal` | parser-generator/src/main/java/io/undertow/annotationprocessor/AbstractParserGenerator.java:757-767 | the single-child chain below the node ends in a leaf exactly when a terminal is found, and the terminal is that leaf's text |
| `ParserTrie.TokenTrie.SetupStateNos` | parser-generator/src/main/java/io/undertow/annotationprocessor/AbstractParserGenerator.java:692-699 | every node is numbered: a node whose chain ends in a leaf is PREFIX_MATCH with that leaf's text, every other node gets the next counter value in order (also lines 751-779) |
| `ParserTrie.TokenTrie.SetupStateNo` | parser-generator/src/main/java/io/undertow/annotationprocessor/AbstractParserGenerator.java:751-779 | one node: PREFIX_MATCH with the chain leaf's text, or the next counter value; the counter then counts the numbered nodes so far |
| `ParserTrie.ChainLeaf` | parser-generator/src/main/java/io/undertow/annotationprocessor/AbstractParserGenerator.java:757-767 | the leaf a single-child chain ends in lies at or after the node and has no children |
| `ParserTrie.Rank` | parser-generator/src/main/java/io/undertow/annotationprocessor/AbstractParserGenerator.java:772-777 | the counter never exceeds the number of nodes seen |
| `ParserTrie.RankMonotone` | parser-generator/src/main/java/io/undertow/annotationprocessor/AbstractParserGenerator.java:772-777 | the counter never decreases |
| `ParserTrie.NumbersDistinct` | parser-generator/src/main/java/io/undertow/annotationprocessor/AbstractParserGenerator.java:772-777 | two numbered nodes never share a number, so the tableswitch finds each numbered node (also lines 823-836) |
| `ParserTrie.NumbersInRange` | parser-generator/src/main/java/io/undertow/annotationprocessor/AbstractParserGenerator.java:692-699 | each number is PREFIX_MATCH or below the count of numbered nodes, and an initial state with several children is number 0 (also lines 823-836) |
| `ParserTrie.ChainLeafExtends` | parser-generator/src/main/java/io/undertow/annotationprocessor/AbstractParserGenerator.java:757-767 | every node of a prefix chain spells the start of the text of the chain's leaf |
| `ParserTrie.Build` | parser-generator/src/main/java/io/undertow/annotationprocessor/AbstractParserGenerator.java:686-706 | after adding every known token and numbering, each token's walk from the initial state ends on a final node spelling it |
| `ParserTrie.KeptFinal` | parser-generator/src/main/java/io/undertow/annotationprocessor/AbstractParserGenerator.java:1214-1232 | a token in the trie stays in it when later tokens are added |
| `TokenMatcher.IsoBytes` | parser-generator/src/main/java/io/undertow/annotationprocessor/AbstractParserGenerator.java:924-975 | a terminal text becomes one Java byte per char, a char above 0xFF becoming '?' |
| `TokenMatcher.NodeByte` | parser-generator/src/main/java/io/undertow/annotationprocessor/AbstractParserGenerator.java:1077-1203 | trie-state code that goes on keeps a well-shaped cursor and the leftOver byte; when it stops it either completes a token or, in the header machine, ends the request |
| `TokenMatcher.PrefixByte` | parser-generator/src/main/java/io/undertow/annotationprocessor/AbstractParserGenerator.java:877-977 | a prefix-loop round that goes on stays out of the trie and keeps leftOver; when it stops it completes a token |
| `TokenMatcher.NoStateByte` | parser-generator/src/main/java/io/undertow/annotationprocessor/AbstractParserGenerator.java:978-1033 | a no-state round that goes on stays in the no-state loop and keeps leftOver; stopping after writing only the state number means the buffer ran out |
| `TokenMatcher.StepOn` | parser-generator/src/main/java/io/undertow/annotationprocessor/AbstractParserGenerator.java:1077-1203 | one round reads at most one byte (none when it takes the pending leftOver byte instead); running out reads the whole buffer, and a completed token ends on a terminator (also lines 877-1033) |
| `TokenMatcher.Drive` | parser-generator/src/main/java/io/undertow/annotationprocessor/AbstractParserGenerator.java:781-1052 | the matcher reads at most the buffer; running out reads all of it and writes the cursor back; a completed token resets the cursor and ends on a terminator of the machine |
| `TokenMatcher.FindNumbered` | parser-generator/src/main/java/io/undertow/annotationprocessor/AbstractParserGenerator.java:823-836 | the tableswitch target is the first state carrying the number, and fails exactly when none does |
| `TokenMatcher.Resume` | parser-generator/src/main/java/io/undertow/annotationprocessor/AbstractParserGenerator.java:799-836 | wherever the call resumes, the cursor is well shaped and keeps the builder and leftOver of the ParseState |
| `TokenMatcher.Match` | parser-generator/src/main/java/io/undertow/annotationprocessor/AbstractParserGenerator.java:781-1052 | an empty buffer returns at once with nothing changed; running out reads the whole buffer; a completed token resets pos, current, currentBytes, builder and parseState and ends on a terminator |
| `TokenMatcher.RunMatcher` | parser-generator/src/main/java/io/undertow/annotationprocessor/AbstractParserGenerator.java:781-1052 | the generated method's effect on the ParseState and the buffer position is exactly Match's |
| `TokenMatcher.Enter` | parser-generator/src/main/java/io/undertow/annotationprocessor/AbstractParserGenerator.java:799-836 | the tableswitch at the top of the method enters the cursor Resume describes |
| `TokenMatcher.RunFrom` | parser-generator/src/main/java/io/undertow/annotationprocessor/AbstractParserGenerator.java:781-1052 | the loop from a cursor has the effect Drive describes on the buffer and the ParseState |
| `TokenMatcher.Round` | parser-generator/src/main/java/io/undertow/annotationprocessor/AbstractParserGenerator.java:877-1203 | one round advances the buffer by the bytes StepOn reads, and keeps the builder and leftOver in step |
| `TokenMatcher.Finalize` | parser-generator/src/main/java/io/undertow/annotationprocessor/AbstractParserGenerator.java:837-876 | the return path writes back the cursor it describes (also lines 1014-1019) |
| `TokenMatcher.TakeStep` | parser-generator/src/main/java/io/undertow/annotationprocessor/AbstractParserGenerator.java:1077-1100 | takes the leftOver byte or the next buffer byte, advancing the buffer by exactly what was read |
| `TokenMatcher.Suspend` | parser-generator/src/main/java/io/undertow/annotationprocessor/AbstractParserGenerator.java:837-855 | parseState, pos, current and currentBytes are written back from the cursor |
| `MatcherTokens.NodeStepHolds` | parser-generator/src/main/java/io/undertow/annotationprocessor/AbstractParserGenerator.java:1077-1203 | a trie-state byte extends the bytes read, or is a terminator skipped before any token byte; a completed token is exactly the bytes read; the request ends only on an LF before any token byte in the header machine |
| `MatcherTokens.PrefixStepHolds` | parser-generator/src/main/java/io/undertow/annotationprocessor/AbstractParserGenerator.java:877-977 | in the prefix loop the token, interned or new, is exactly the bytes matched |
| `MatcherTokens.NoStateStepHolds` | parser-generator/src/main/java/io/undertow/annotationprocessor/AbstractParserGenerator.java:978-1033 | in the no-state loop the token is exactly the bytes the builder holds |
| `MatcherTokens.StepHolds` | parser-generator/src/main/java/io/undertow/annotationprocessor/AbstractParserGenerator.java:877-1203 | every round keeps the bytes read so far in step with the cursor, and a completed token is those bytes |
| `MatcherTokens.DriveReadsToken` | parser-generator/src/main/java/io/undertow/annotationprocessor/AbstractParserGenerator.java:781-1052 | a completed token is the bytes read before its terminator after any leading terminators; the end of the head is an LF after nothing but terminators |
| `MatcherTokens.LeftOverFirst` | parser-generator/src/main/java/io/undertow/annotationprocessor/AbstractParserGenerator.java:1082-1100 | a pending leftOver byte is consumed first, exactly as if it were the next byte of the buffer |
| `MatcherTokens.MatchReadsToken` | parser-generator/src/main/java/io/undertow/annotationprocessor/AbstractParserGenerator.java:781-1052 | from a fresh ParseState, a completed token is exactly the bytes read before the terminator, after leading terminators, with the leftOver byte read first (also lines 1082-1100) |
| `MatcherResume.ResumeOk` | parser-generator/src/main/java/io/undertow/annotationprocessor/AbstractParserGenerator.java:799-836 | wherever the tableswitch resumes, the state variable agrees with the cursor |
| `MatcherResume.NodeByteKeepsCursorOk` | parser-generator/src/main/java/io/undertow/annotationprocessor/AbstractParserGenerator.java:1077-1203 | trie-state code leaves a consistent cursor when it goes on |
| `MatcherResume.StepKeepsCursorOk` | parser-generator/src/main/java/io/undertow/annotationprocessor/AbstractParserGenerator.java:877-1203 | one round leaves a consistent cursor when it goes on or runs out |
| `MatcherResume.DriveKeepsCursorOk` | parser-generator/src/main/java/io/undertow/annotationprocessor/AbstractParserGenerator.java:837-855 | a matcher that ran out leaves a consistent cursor |
| `MatcherResume.DriveSplit` | parser-generator/src/main/java/io/undertow/annotationprocessor/AbstractParserGenerator.java:781-1052 | running on a + b is running on a until it runs out and then on b from that cursor |
| `MatcherResume.SplitStep` | parser-generator/src/main/java/io/undertow/annotationprocessor/AbstractParserGenerator.java:877-1203 | a round before the end of a does the same on a + b |
| `MatcherResume.SplitLastByte` | parser-generator/src/main/java/io/undertow/annotationprocessor/AbstractParserGenerator.java:1009-1019 | the no-state loop's last byte of a suspends with the cursor a + b carries on from |
| `MatcherResume.StepIgnoresMore` | parser-generator/src/main/java/io/undertow/annotationprocessor/AbstractParserGenerator.java:877-1203 | a round that does not reach the end of a does not see what follows |
| `MatcherResume.DriveIgnoresDead` | parser-generator/src/main/java/io/undertow/annotationprocessor/AbstractParserGenerator.java:978-1033 | the no-state loop runs the same on cursors that differ only in fields it does not read |
| `MatcherResume.ApplySame` | parser-generator/src/main/java/io/undertow/annotationprocessor/AbstractParserGenerator.java:837-876 | cursors that agree up to unread fields write ParseStates that agree up to unread fields (also lines 1014-1019) |
| `MatcherResume.ResumeAfterSuspend` | parser-generator/src/main/java/io/undertow/annotationprocessor/AbstractParserGenerator.java:799-855 | the next call resumes at the cursor the suspended call wrote back |
| `MatcherResume.MatchRespectsSame` | parser-generator/src/main/java/io/undertow/annotationprocessor/AbstractParserGenerator.java:781-1052 | ParseStates that agree up to unread fields give the same outcome, byte count and (up to unread fields) result |
| `MatcherResume.MatchSplit` | parser-generator/src/main/java/io/undertow/annotationprocessor/AbstractParserGenerator.java:781-1052 | feeding a and then b in two calls gives the outcome, byte count and (up to unread fields) ParseState of feeding a + b in one call, whenever the first call ran out |
| `ParseStates.ByteBuffer.Get` | core/src/main/java/io/undertow/server/protocol/http/HttpRequestParser.java:257-270 | ByteBuffer.get() returns the next octet as a signed Java byte and advances the position by one |
| `RequestMachines.MachineRun` | parser-generator/src/main/java/io/undertow/annotationprocessor/RequestParserGenerator.java:34-162 | a call of a generated machine that does not fail either reads the whole buffer or ends in its target state (PATH, AFTER_VERSION or HEADER_VALUE; the header machine may end the head); a non-empty buffer is never left unread without that; it touches nothing but its own fields |
| `RequestMachines.DriveCompleteReads` | parser-generator/src/main/java/io/undertow/annotationprocessor/AbstractParserGenerator.java:1077-1203 | a finished token was ended by a byte read from the buffer; a leftOver byte alone never finishes one |
| `RequestMachines.DriveTakesLeftOver` | parser-generator/src/main/java/io/undertow/annotationprocessor/AbstractParserGenerator.java:1082-1100 | starting at the initial state, the matcher takes the leftOver byte and leaves none behind |
| `RequestMachines.CompleteReads` | parser-generator/src/main/java/io/undertow/annotationprocessor/AbstractParserGenerator.java:781-1052 | a call that finishes a token has read at least one byte of the buffer |
| `RequestMachines.DriveNeverDone` | parser-generator/src/main/java/io/undertow/annotationprocessor/RequestParserGenerator.java:84-87 | without the header flag no byte, newline included, ends the request head (also lines 122-125, 158-161) |
| `RequestMachines.OnlyHeaderEndsRequest` | parser-generator/src/main/java/io/undertow/annotationprocessor/RequestParserGenerator.java:57-60 | only the header machine can end the request head (also lines 93-96, 131-134) |
| `RequestMachines.TokenRecorded` | parser-generator/src/main/java/io/undertow/annotationprocessor/RequestParserGenerator.java:62-82 | a call that finishes a new token records exactly the bytes read before the terminator, the same whether interned or not: the verb as request method, the version as protocol with the terminator in leftOver, a header name as nextHeader; the state moves to the target and the matcher fields are reset (also lines 98-120, 136-156) |
| `RequestMachines.BlankLineEndsHead` | parser-generator/src/main/java/io/undertow/annotationprocessor/RequestParserGenerator.java:84-87 | the header machine ends the request head on a newline before any byte of a header name, reading only that byte (also AbstractParserGenerator.java:1192-1198) |
| `RequestParser.Tail` | core/src/main/java/io/undertow/server/protocol/http/HttpRequestParser.java:485 | String.substring(from) succeeds exactly when from lies within the text |
| `RequestParser.PathRun` | core/src/main/java/io/undertow/server/protocol/http/HttpRequestParser.java:466-570 | reference for one handlePath call: it reads at most the buffer, leaves bytes unread only after a complete target (state VERSION), and reads something from a non-empty buffer; its meaning is proved in RequestTarget |
| `RequestParser.ParamRun` | core/src/main/java/io/undertow/server/protocol/http/HttpRequestParser.java:582-733 | reference for one handleQueryParameters or handlePathParameters call, with the same bounds; its meaning is proved in RequestTarget |
| `RequestParser.ValueRun` | core/src/main/java/io/undertow/server/protocol/http/HttpRequestParser.java:754-844 | reference for one handleHeaderValue call: bytes are left unread only after a complete header (state HEADER) or head (PARSE_COMPLETE); its meaning is proved in RequestHead |
| `RequestParser.AfterVersionRun` | core/src/main/java/io/undertow/server/protocol/http/HttpRequestParser.java:846-874 | reference for one handleAfterVersion call: bytes are left unread only in HEADER or PARSE_COMPLETE; its meaning is proved in RequestHead |
| `RequestParser.FastRun` | core/src/main/java/io/undertow/server/protocol/http/HttpRequestParser.java:194-218 | reference for handle in state VERB: each stage runs on what the previous one left of the buffer, and at most the buffer is read |
| `RequestParser.StatefulRun` | core/src/main/java/io/undertow/server/protocol/http/HttpRequestParser.java:223-271 | reference for handleStateful: each block runs only in its own state and returns once the buffer is empty; at most the buffer is read |
| `RequestParser.HandleRun` | core/src/main/java/io/undertow/server/protocol/http/HttpRequestParser.java:193-221 | reference for one handle call in any state: at most the buffer is read |
| `RequestParser.FastHeadersRound` | core/src/main/java/io/undertow/server/protocol/http/HttpRequestParser.java:212-217 | handle's header loop is one name-and-value pass followed by the loop on the rest, unless the pass failed or completed the head |
| `RequestParser.StatefulHeadersRound` | core/src/main/java/io/undertow/server/protocol/http/HttpRequestParser.java:257-270 | handleStateful's loop is one pass followed by the loop on the rest, unless the pass failed, emptied the buffer or completed the head |
| `RequestParser.HttpRequestParser.constructor` | core/src/main/java/io/undertow/server/protocol/http/HttpRequestParser.java:173-178 | the parser holds its limits, decoding options and the three generated machines |
| `RequestParser.HttpRequestParser.HandleToken` | parser-generator/src/main/java/io/undertow/annotationprocessor/RequestParserGenerator.java:34-162 | one call of handleHttpVerb, handleHttpVersion or handleHeader changes the ParseState and exchange, and advances the buffer, exactly as MachineRun says |
| `RequestParser.HttpRequestParser.SetTarget` | core/src/main/java/io/undertow/server/protocol/http/HttpRequestParser.java:476-491 | the exchange setters for a complete target: decoded request and relative path, raw URI, the absolute flag, the query string emptied when the target ends; false exactly where substring throws |
| `RequestParser.HttpRequestParser.ResetTarget` | core/src/main/java/io/undertow/server/protocol/http/HttpRequestParser.java:492-496 | the ParseState moves to the next state with the StringBuilder, parseState, pos and the decode flag cleared |
| `RequestParser.HttpRequestParser.EndTarget` | core/src/main/java/io/undertow/server/protocol/http/HttpRequestParser.java:474-498 | SP/HT after some text ends the target exactly as the reference loop says |
| `RequestParser.HttpRequestParser.SplitTarget` | core/src/main/java/io/undertow/server/protocol/http/HttpRequestParser.java:501-546 | '?' or ';' in START or HOST_DONE ends the path and hands over to the parameters exactly as the reference loop says |
| `RequestParser.HttpRequestParser.HandlePath` | core/src/main/java/io/undertow/server/protocol/http/HttpRequestParser.java:466-570 | the ParseState and exchange after the call, and the bytes read, are exactly those of the PathRun reference |
| `RequestParser.HttpRequestParser.AddParameter` | core/src/main/java/io/undertow/server/protocol/http/HttpRequestParser.java:628-635 | addQueryParam or addPathParam appends exactly that parameter |
| `RequestParser.HttpRequestParser.ParameterChar` | core/src/main/java/io/undertow/server/protocol/http/HttpRequestParser.java:615-640 | one parameter char changes the locals or throws exactly as the reference step says |
| `RequestParser.HttpRequestParser.AddLastParameter` | core/src/main/java/io/undertow/server/protocol/http/HttpRequestParser.java:601-607 | the pending parameter is added when the parameters end, false exactly where substring throws |
| `RequestParser.HttpRequestParser.EndParameters` | core/src/main/java/io/undertow/server/protocol/http/HttpRequestParser.java:598-614 | the end of the parameters adds the pending one, completes the query string or URI and clears the ParseState, exactly as the reference says |
| `RequestParser.HttpRequestParser.ClearParameters` | core/src/main/java/io/undertow/server/protocol/http/HttpRequestParser.java:608-613 | the ParseState moves to the next state with the builder, pos, pending name, flag and count cleared |
| `RequestParser.HttpRequestParser.HandleParameters` | core/src/main/java/io/undertow/server/protocol/http/HttpRequestParser.java:582-733 | the ParseState and exchange after handleQueryParameters or handlePathParameters, and the bytes read, are exactly those of the ParamRun reference |
| `RequestParser.HttpRequestParser.AddHeader` | core/src/main/java/io/undertow/server/protocol/http/HttpRequestParser.java:810-831 | tooManyHeaders exactly when the count before increment exceeds maxHeaders; otherwise an IllegalArgumentException exactly for a non-Latin-1 value; otherwise the header (nextHeader, value) is appended, nextHeader cleared and the byte kept in leftOver |
| `RequestParser.HttpRequestParser.HandleHeaderValue` | core/src/main/java/io/undertow/server/protocol/http/HttpRequestParser.java:754-844 | the ParseState and exchange after the call, and the bytes read, are exactly those of the ValueRun reference |
| `RequestParser.HttpRequestParser.ValueByte` | core/src/main/java/io/undertow/server/protocol/http/HttpRequestParser.java:772-839 | one pass of the switch changes the sub-state, or stops, exactly as the reference loop says; an error always stops |
| `RequestParser.HttpRequestParser.HandleAfterVersion` | core/src/main/java/io/undertow/server/protocol/http/HttpRequestParser.java:846-874 | the ParseState after the call, and the bytes read, are exactly those of the AfterVersionRun reference; the exchange is not touched |
| `RequestParser.HttpRequestParser.HandleHeaderRound` | core/src/main/java/io/undertow/server/protocol/http/HttpRequestParser.java:213-216 | one pass of handle's header loop, exactly as the reference pass |
| `RequestParser.HttpRequestParser.HandleHeaders` | core/src/main/java/io/undertow/server/protocol/http/HttpRequestParser.java:212-217 | handle's header loop, exactly as the FastHeaders reference |
| `RequestParser.HttpRequestParser.HandleVerb` | core/src/main/java/io/undertow/server/protocol/http/HttpRequestParser.java:199-208 | the verb stage, exactly as the VerbRun reference |
| `RequestParser.HttpRequestParser.HandleFromAfterVersion` | core/src/main/java/io/undertow/server/protocol/http/HttpRequestParser.java:211-217 | handle from handleAfterVersion on, exactly as its reference |
| `RequestParser.HttpRequestParser.HandleFromVersion` | core/src/main/java/io/undertow/server/protocol/http/HttpRequestParser.java:210-217 | handle from handleHttpVersion on, exactly as its reference |
| `RequestParser.HttpRequestParser.HandleFromPath` | core/src/main/java/io/undertow/server/protocol/http/HttpRequestParser.java:209-217 | handle from handlePath on, exactly as its reference |
| `RequestParser.HttpRequestParser.HandleFast` | core/src/main/java/io/undertow/server/protocol/http/HttpRequestParser.java:194-218 | handle in state VERB, exactly as the FastRun reference |
| `RequestParser.HttpRequestParser.HandleStatefulRound` | core/src/main/java/io/undertow/server/protocol/http/HttpRequestParser.java:258-269 | one pass of handleStateful's loop, exactly as its reference |
| `RequestParser.HttpRequestParser.HandleStatefulHeaders` | core/src/main/java/io/undertow/server/protocol/http/HttpRequestParser.java:257-270 | handleStateful's loop, exactly as the StatefulHeaders reference |
| `RequestParser.HttpRequestParser.HandleStatefulFromAfterVersion` | core/src/main/java/io/undertow/server/protocol/http/HttpRequestParser.java:251-270 | handleStateful from the AFTER_VERSION block on, exactly as its reference |
| `RequestParser.HttpRequestParser.HandleStatefulFromVersion` | core/src/main/java/io/undertow/server/protocol/http/HttpRequestParser.java:245-270 | handleStateful from the VERSION block on, exactly as its reference |
| `RequestParser.HttpRequestParser.HandleStatefulFromPathParameters` | core/src/main/java/io/undertow/server/protocol/http/HttpRequestParser.java:238-270 | handleStateful from the PATH_PARAMETERS block on, exactly as its reference |
| `RequestParser.HttpRequestParser.HandleStatefulFromQuery` | core/src/main/java/io/undertow/server/protocol/http/HttpRequestParser.java:231-270 | handleStateful from the QUERY_PARAMETERS block on, exactly as its reference |
| `RequestParser.HttpRequestParser.HandleStateful` | core/src/main/java/io/undertow/server/protocol/http/HttpRequestParser.java:223-271 | handleStateful, exactly as the StatefulRun reference |
| `RequestParser.HttpRequestParser.Handle` | core/src/main/java/io/undertow/server/protocol/http/HttpRequestParser.java:193-221 | one call of handle in any state: the ParseState, the exchange and the bytes read are exactly those of the HandleRun reference |
| `RequestTarget.Text` | core/src/main/java/io/undertow/server/protocol/http/HttpRequestParser.java:473 | the chars (char) buffer.get() gives: one per byte, sign-extended |
| `RequestTarget.PlainStep` | core/src/main/java/io/undertow/server/protocol/http/HttpRequestParser.java:547-564 | a byte that neither ends nor splits the target is taken into the accumulator, and nothing else happens |
| `RequestTarget.PathWalk` | core/src/main/java/io/undertow/server/protocol/http/HttpRequestParser.java:547-564 | plain bytes are taken one by one into the accumulator, and nothing else happens |
| `RequestTarget.LeadingBlanksSkipped` | core/src/main/java/io/undertow/server/protocol/http/HttpRequestParser.java:474-475 | SP and HT before the first char of the target are skipped |
| `RequestTarget.OriginFormTarget` | core/src/main/java/io/undertow/server/protocol/http/HttpRequestParser.java:474-498 | after any SP/HT, the first SP or HT after the text ends the target: the URI is the raw text, the request and relative paths the decoded text, the query string empty, the state VERSION and parseState, pos, the flag and the accumulator reset |
| `RequestTarget.BlankEnds` | core/src/main/java/io/undertow/server/protocol/http/HttpRequestParser.java:474-498 | SP or HT after some text ends the target with the exchange setters and the ParseState reset |
| `RequestTarget.PathLineEndRejected` | core/src/main/java/io/undertow/server/protocol/http/HttpRequestParser.java:499-500 | a CR or LF anywhere in the target throws failedToParsePath and leaves the exchange unchanged |
| `RequestTarget.CharStep` | core/src/main/java/io/undertow/server/protocol/http/HttpRequestParser.java:547-564 | a char that neither ends nor splits the target only updates the locals |
| `RequestTarget.SchemeEnd` | core/src/main/java/io/undertow/server/protocol/http/HttpRequestParser.java:551-556 | ':' from START, then '/' and '/', reach SECOND_SLASH |
| `RequestTarget.HostEnd` | core/src/main/java/io/undertow/server/protocol/http/HttpRequestParser.java:557-559 | the next '/' enters HOST_DONE and records its offset |
| `RequestTarget.AbsoluteWalk` | core/src/main/java/io/undertow/server/protocol/http/HttpRequestParser.java:549-563 | through an absolute-form target the locals end in HOST_DONE with the offset of the '/' after the host and the decoding flag of the text |
| `RequestTarget.AbsoluteText` | core/src/main/java/io/undertow/server/protocol/http/HttpRequestParser.java:563 | the accumulator after an absolute-form target is its text |
| `RequestTarget.AbsoluteFormTarget` | core/src/main/java/io/undertow/server/protocol/http/HttpRequestParser.java:484-489 | an absolute-form target ended by SP/HT: the URI is the whole text and marked absolute, the request and relative paths the decoded text from the '/' after the host |
| `RequestTarget.AbsoluteTail` | core/src/main/java/io/undertow/server/protocol/http/HttpRequestParser.java:485 | the text from the recorded offset is the path part of the absolute target |
| `RequestTarget.AbsoluteFallsBack` | core/src/main/java/io/undertow/server/protocol/http/HttpRequestParser.java:560-561 | after ':' or the first '/', any other char falls back to START |
| `RequestTarget.ParamPlainStep` | core/src/main/java/io/undertow/server/protocol/http/HttpRequestParser.java:617-640 | a parameter byte that is not a terminator, '&' or a first '=' is appended and flags decoding if it asks for it |
| `RequestTarget.ParamWalk` | core/src/main/java/io/undertow/server/protocol/http/HttpRequestParser.java:617-640 | plain parameter bytes are taken into the accumulator and nothing else happens |
| `RequestTarget.NameEnds` | core/src/main/java/io/undertow/server/protocol/http/HttpRequestParser.java:620-623 | the first '=' of a segment ends the name, decoded as its own token, and the value starts after it |
| `RequestTarget.PartWalk` | core/src/main/java/io/undertow/server/protocol/http/HttpRequestParser.java:617-640 | through one segment the locals hold its pending name or value |
| `RequestTarget.ValuePartWalk` | core/src/main/java/io/undertow/server/protocol/http/HttpRequestParser.java:620-623 | through a segment with '=': the name, the '=', then the value |
| `RequestTarget.SegTail` | core/src/main/java/io/undertow/server/protocol/http/HttpRequestParser.java:628-635 | the accumulator from the segment's start is the pending name or value |
| `RequestTarget.PartAmp` | core/src/main/java/io/undertow/server/protocol/http/HttpRequestParser.java:624-639 | '&' within the limit adds the segment's parameter, counts it and starts the next segment |
| `RequestTarget.PartAmpTooMany` | core/src/main/java/io/undertow/server/protocol/http/HttpRequestParser.java:625-627 | '&' when the count before increment exceeds maxParameters throws tooManyQueryParameters |
| `RequestTarget.PartsRead` | core/src/main/java/io/undertow/server/protocol/http/HttpRequestParser.java:617-640 | through '&'-separated segments, every segment but the last adds its parameter, as long as the count stays within the limit |
| `RequestTarget.PartsReadStep` | core/src/main/java/io/undertow/server/protocol/http/HttpRequestParser.java:624-639 | reading several segments is reading the first and its '&', then the rest |
| `RequestTarget.SegmentThenAmp` | core/src/main/java/io/undertow/server/protocol/http/HttpRequestParser.java:624-639 | a segment followed by '&' adds its parameter and starts the next segment |
| `RequestTarget.LastLocalsBuilder` | core/src/main/java/io/undertow/server/protocol/http/HttpRequestParser.java:640 | after the segments the accumulator is exactly the text they were read from |
| `RequestTarget.LastLocalsParam` | core/src/main/java/io/undertow/server/protocol/http/HttpRequestParser.java:601-607 | the parameter pending after the segments is that of the last one, unless it is empty |
| `RequestTarget.QueryParsed` | core/src/main/java/io/undertow/server/protocol/http/HttpRequestParser.java:582-649 | a query ended by SP/HT: the query string is the raw text; each '&' segment adds a parameter split at the first '=', a name without '=' getting "", an empty last segment adding nothing; the state becomes VERSION |
| `RequestTarget.PathParamsParsed` | core/src/main/java/io/undertow/server/protocol/http/HttpRequestParser.java:660-733 | path parameters ended by SP/HT become path parameters as query segments do, the URI gets ';' and the text, and the state becomes VERSION |
| `RequestTarget.PathParamsEnd` | core/src/main/java/io/undertow/server/protocol/http/HttpRequestParser.java:676-696 | the end of path parameters adds the pending one, appends ';' and the text to the URI, and moves to VERSION |
| `RequestTarget.TooManyParameters` | core/src/main/java/io/undertow/server/protocol/http/HttpRequestParser.java:625-634 | a text of at least two segments read from count m throws tooManyQueryParameters exactly when m plus the segments exceed maxParameters + 2 |
| `RequestTarget.ParamLineEndRejected` | core/src/main/java/io/undertow/server/protocol/http/HttpRequestParser.java:615-616 | a CR or LF in the parameters throws failedToParsePath |
| `RequestTarget.ParamsSplit` | core/src/main/java/io/undertow/server/protocol/http/HttpRequestParser.java:501-546 | '?' or ';' in START or HOST_DONE completes the path and hands the rest to the query or path-parameter parser |
| `RequestTarget.OriginFormQuery` | core/src/main/java/io/undertow/server/protocol/http/HttpRequestParser.java:501-523 | an origin-form target with a query: the path is the decoded text before '?', the URI that text, not absolute, and the query parsed as QueryParsed says |
| `RequestTarget.AbsolutePathParams` | core/src/main/java/io/undertow/server/protocol/http/HttpRequestParser.java:524-546 | an absolute-form target with path parameters: the URI is the target, ';' and the parameter text, and the path is decoded and the URI kept absolute exactly in the corrected variant |
| `RequestTarget.SemicolonSkipsDecodeAsWritten` | core/src/main/java/io/undertow/server/protocol/http/HttpRequestParser.java:534 | as written, an absolute-form target ended by ';' keeps its path undecoded where the same target ended by SP is decoded |
| `RequestTarget.SemicolonDecodes` | core/src/main/java/io/undertow/server/protocol/http/HttpRequestParser.java:524-546 | corrected, an absolute-form target gets the same request path whether ';' or SP ends it |
| `RequestTarget.AbsoluteFlagLostAsWritten` | core/src/main/java/io/undertow/server/protocol/http/HttpRequestParser.java:684 | as written, path parameters after an absolute-form target leave the URI marked not absolute |
| `RequestTarget.AbsoluteFlagKept` | core/src/main/java/io/undertow/server/protocol/http/HttpRequestParser.java:676-696 | corrected, an absolute-form URI stays absolute when path parameters follow |
| `RequestTarget.ParamStates` | core/src/main/java/io/undertow/server/protocol/http/HttpRequestParser.java:582-733 | the parameter parsers end in VERSION, stay in their own state, or go on to the query |
| `RequestTarget.PathResumes` | core/src/main/java/io/undertow/server/protocol/http/HttpRequestParser.java:567-569 | a handlePath call that runs out of bytes inside the target, followed by a call on the rest, does what one call on all the bytes does |
| `RequestTarget.ParamResumes` | core/src/main/java/io/undertow/server/protocol/http/HttpRequestParser.java:645-648 | with the count written back, a parameter call that runs out of bytes followed by a call on the rest does what one call on all the bytes does |
| `RequestTarget.CountLostAsWritten` | core/src/main/java/io/undertow/server/protocol/http/HttpRequestParser.java:648 | as written, with maxParameters 0 a query split across two reads passes the limit that the same query in one read fails |
| `RequestTarget.CountKept` | core/src/main/java/io/undertow/server/protocol/http/HttpRequestParser.java:645-648 | with the count written back, the same split query fails in the second read as it does in one read |
| `RequestHead.ValueText` | core/src/main/java/io/undertow/server/protocol/http/HttpRequestParser.java:767 | the chars the value bytes add to the StringBuilder, one per byte: the sign-extending (char) cast as written, Latin-1 when corrected |
| `RequestHead.StepBlank` | core/src/main/java/io/undertow/server/protocol/http/HttpRequestParser.java:779-791 | SP or HT in NORMAL or WHITESPACE moves to WHITESPACE and stores nothing |
| `RequestHead.StepCR` | core/src/main/java/io/undertow/server/protocol/http/HttpRequestParser.java:775-788 | CR in NORMAL or WHITESPACE moves to BEGIN_LINE_END |
| `RequestHead.StepLF` | core/src/main/java/io/undertow/server/protocol/http/HttpRequestParser.java:777-804 | LF in NORMAL, WHITESPACE or after CR moves to LINE_END |
| `RequestHead.StepFold` | core/src/main/java/io/undertow/server/protocol/http/HttpRequestParser.java:805-808 | SP or HT after a line end continues the value: the state becomes WHITESPACE |
| `RequestHead.StepWord` | core/src/main/java/io/undertow/server/protocol/http/HttpRequestParser.java:781-798 | any other byte is appended, after one SP when it follows whitespace and the value is not empty, and the state becomes NORMAL |
| `RequestHead.StepComplete` | core/src/main/java/io/undertow/server/protocol/http/HttpRequestParser.java:809-831 | after a line end, a byte that does not fold the line adds the header, resets the builder and keeps the byte in leftOver; CR waits for the last byte, anything else returns to HEADER |
| `RequestHead.StepTooMany` | core/src/main/java/io/undertow/server/protocol/http/HttpRequestParser.java:815-816 | with mapCount above maxHeaders the line end throws tooManyHeaders after incrementing the count, and no header is added |
| `RequestHead.StepIllegal` | core/src/main/java/io/undertow/server/protocol/http/HttpRequestParser.java:819 | a value that is not Latin-1 text cannot become an HttpString: the line end throws |
| `RequestHead.StepOther` | core/src/main/java/io/undertow/server/protocol/http/HttpRequestParser.java:773-839 | a sub-state the switch has no case for reads the byte and changes nothing |
| `RequestHead.StepAwait` | core/src/main/java/io/undertow/server/protocol/http/HttpRequestParser.java:835-838 | in AWAIT_DATA_END the next byte completes the parse |
| `RequestHead.UnitWalk` | core/src/main/java/io/undertow/server/protocol/http/HttpRequestParser.java:786-808 | one piece of whitespace, possibly a folded line end, moves to WHITESPACE and stores nothing |
| `RequestHead.GapWalk` | core/src/main/java/io/undertow/server/protocol/http/HttpRequestParser.java:786-808 | whitespace and folded line ends between words move to WHITESPACE and store nothing |
| `RequestHead.WordRest` | core/src/main/java/io/undertow/server/protocol/http/HttpRequestParser.java:774-785 | in NORMAL the bytes of a word are appended as they come |
| `RequestHead.WordWalk` | core/src/main/java/io/undertow/server/protocol/http/HttpRequestParser.java:774-798 | a word is appended, after one SP if whitespace came before it and the value is not empty |
| `RequestHead.InnerWords` | core/src/main/java/io/undertow/server/protocol/http/HttpRequestParser.java:786-798 | after the first word, each further word is appended after exactly one SP |
| `RequestHead.ValueWords` | core/src/main/java/io/undertow/server/protocol/http/HttpRequestParser.java:757-800 | from the start of a value, the builder holds its words joined by one SP: leading and trailing whitespace dropped, inner runs squeezed |
| `RequestHead.BreakWalk` | core/src/main/java/io/undertow/server/protocol/http/HttpRequestParser.java:775-804 | CR LF or a bare LF after the value moves to LINE_END |
| `RequestHead.LineEnds` | core/src/main/java/io/undertow/server/protocol/http/HttpRequestParser.java:809-831 | a line end followed by a byte that does not fold the line adds the header, keeps that byte in leftOver and returns to HEADER with parseState 0 |
| `RequestHead.HeadEnds` | core/src/main/java/io/undertow/server/protocol/http/HttpRequestParser.java:825-838 | a line end followed by CR adds the header, and the byte after the CR completes the parse |
| `RequestHead.TooManyHeadersRejected` | core/src/main/java/io/undertow/server/protocol/http/HttpRequestParser.java:815-816 | with more headers than allowed, the line end throws tooManyHeaders and the exchange is unchanged |
| `RequestHead.ValueTextBytes` | core/src/main/java/io/undertow/server/protocol/http/HttpRequestParser.java:819 | Latin-1 chars, or ASCII bytes under the sign-extending cast, are Latin-1 text whose low bytes are the bytes read |
| `RequestHead.JoinSpBytes` | core/src/main/java/io/undertow/server/protocol/http/HttpRequestParser.java:819 | the value stored is the words joined by one SP, as bytes |
| `RequestHead.HeaderLine` | core/src/main/java/io/undertow/server/protocol/http/HttpRequestParser.java:754-844 | a whole header line from its start adds the header with its words joined by one SP, increments mapCount, clears nextHeader and returns to HEADER with the byte after the line end in leftOver |
| `RequestHead.HighByteRejectedAsWritten` | core/src/main/java/io/undertow/server/protocol/http/HttpRequestParser.java:767 | as written, a value byte 0xE9 becomes a char above 0xFF and the line end throws instead of adding the header |
| `RequestHead.HighByteKept` | core/src/main/java/io/undertow/server/protocol/http/HttpRequestParser.java:819 | corrected, the same line adds the header with the byte 0xE9 it read |
| `RequestHead.ValueResumes` | core/src/main/java/io/undertow/server/protocol/http/HttpRequestParser.java:842 | a handleHeaderValue call that runs out of bytes inside a value, followed by a call on the rest, does what one call on all the bytes does |
| `RequestHead.EmptyHead` | core/src/main/java/io/undertow/server/protocol/http/HttpRequestParser.java:847-853 | LF then LF completes the request head with no headers |
| `RequestHead.HeadersFollow` | core/src/main/java/io/undertow/server/protocol/http/HttpRequestParser.java:854-857 | LF then any other byte starts the headers, keeping that byte in leftOver |
| `RequestHead.AfterVersionRejects` | core/src/main/java/io/undertow/server/protocol/http/HttpRequestParser.java:866-868 | before the LF, CR, SP or HT throws badRequest |
| `RequestHead.AfterVersionResumes` | core/src/main/java/io/undertow/server/protocol/http/HttpRequestParser.java:871-873 | a handleAfterVersion call that ends after the LF remembers it in leftOver, and the next call goes on as one call would |
| `RequestHead.FromPathIdle` | core/src/main/java/io/undertow/server/protocol/http/HttpRequestParser.java:209-217 | the path, version, after-version and header steps of handle on no bytes change nothing |
| `RequestHead.FastPathStaysInVerbAsWritten` | core/src/main/java/io/undertow/server/protocol/http/HttpRequestParser.java:199-205 | as written, the GET fast path sets the method and reads the path but leaves the state at VERB, so the next call starts over at the verb |
| `RequestHead.PathRunIdle` | core/src/main/java/io/undertow/server/protocol/http/HttpRequestParser.java:466-570 | handlePath on " /a" skips the SP, reads "/a" and runs out of bytes in START |
| `RequestHead.FastPathMovesToPath` | core/src/main/java/io/undertow/server/protocol/http/HttpRequestParser.java:199-209 | corrected, the fast path moves to PATH as the verb machine would, so the next call goes on in handlePath |
| `RequestHead.LongerVerbTakenAsGetAsWritten` | core/src/main/java/io/undertow/server/protocol/http/HttpRequestParser.java:200-205 | as written, any buffer starting with "GET" and one more byte is taken as a GET after three bytes |
| `RequestHead.LongerVerbToMachine` | core/src/main/java/io/undertow/server/protocol/http/HttpRequestParser.java:200-207 | corrected, a verb that only starts with GET goes to the verb machine, which reads the whole token |
| `RequestMachines.MachineAdvances` | parser-generator/src/main/java/io/undertow/annotationprocessor/RequestParserGenerator.java:21-28 | the state numbers only grow through a machine: VERB 0, VERSION 4 and HEADER 6 move one up, to PATH, AFTER_VERSION and HEADER_VALUE (RequestParserGenerator.java:136-156, 98-120, 62-82), or the header machine ends the request head |
| `HttpStrings.Hash` | core/src/main/java/io/undertow/util/HttpString.java:335-341 | the hash of an array is a 32-bit int |
| `HttpStrings.CompareFolded` | core/src/main/java/io/undertow/util/HttpString.java:254-267 | the folded comparison of equal-length arrays is -1, 0 or 1 |
| `RequestParser.VerbRun` | core/src/main/java/io/undertow/server/protocol/http/HttpRequestParser.java:199-208 | the fast-path verb step of handle reads no more than the buffer |
| `RequestParser.FromPath` | core/src/main/java/io/undertow/server/protocol/http/HttpRequestParser.java:209-217 | handle after the verb reads no more than the buffer |
| `RequestParser.FromVersion` | core/src/main/java/io/undertow/server/protocol/http/HttpRequestParser.java:210-217 | handle after the path reads no more than the buffer |
| `RequestParser.FromAfterVersion` | core/src/main/java/io/undertow/server/protocol/http/HttpRequestParser.java:211-217 | handle after the version reads no more than the buffer |
| `RequestParser.FastHeaders` | core/src/main/java/io/undertow/server/protocol/http/HttpRequestParser.java:212-217 | handle's header loop reads no more than the buffer |
| `RequestParser.HeaderRound` | core/src/main/java/io/undertow/server/protocol/http/HttpRequestParser.java:213-216 | one pass of handle's header loop reads no more than the buffer and, on a nonempty buffer, at least one byte unless it ends the head or fails |
| `RequestParser.StatefulRound` | core/src/main/java/io/undertow/server/protocol/http/HttpRequestParser.java:258-269 | one pass of handleStateful's header loop that stops early ends in HEADER or PARSE_COMPLETE, having read a byte unless the head is complete |
| `RequestParser.StatefulHeaders` | core/src/main/java/io/undertow/server/protocol/http/HttpRequestParser.java:257-270 | handleStateful's header loop reads no more than the buffer |
| `RequestParser.StatefulFromAfterVersion` | core/src/main/java/io/undertow/server/protocol/http/HttpRequestParser.java:251-270 | handleStateful from AFTER_VERSION on reads no more than the buffer |
| `RequestParser.StatefulFromVersion` | core/src/main/java/io/undertow/server/protocol/http/HttpRequestParser.java:245-270 | handleStateful from VERSION on reads no more than the buffer |
| `RequestParser.StatefulFromPathParameters` | core/src/main/java/io/undertow/server/protocol/http/HttpRequestParser.java:238-270 | handleStateful from PATH_PARAMETERS on reads no more than the buffer |
| `RequestParser.StatefulFromQuery` | core/src/main/java/io/undertow/server/protocol/http/HttpRequestParser.java:231-270 | handleStateful from QUERY_STRING on reads no more than the buffer |
| `RequestParser.PathLoop` | core/src/main/java/io/undertow/server/protocol/http/HttpRequestParser.java:471-566 | handlePath's loop reads no more than the buffer, at least one byte of a nonempty one, and stops early only in VERSION |
| `RequestParser.ParamLoop` | core/src/main/java/io/undertow/server/protocol/http/HttpRequestParser.java:596-644 | the parameter loop reads no more than the buffer, at least one byte of a nonempty one, and stops early only in VERSION |
| `RequestParser.ParamsEnd` | core/src/main/java/io/undertow/server/protocol/http/HttpRequestParser.java:598-614 | the end of the parameters stops early only in VERSION |
| `RequestParser.ValueLoop` | core/src/main/java/io/undertow/server/protocol/http/HttpRequestParser.java:771-840 | handleHeaderValue's loop stops early only in HEADER or PARSE_COMPLETE, and reads at least one byte of a nonempty buffer |
| `RequestParser.AfterVersionLoop` | core/src/main/java/io/undertow/server/protocol/http/HttpRequestParser.java:848-870 | handleAfterVersion's loop stops early only in HEADER or PARSE_COMPLETE |

## Left out

- HttpString: `copyTo`, `appendTo`, `writeTo`, the `ByteBuffer` constructor and Java serialisation (`readObject`/`writeObject`) are left out. They copy bytes to I/O or buffers and decide nothing.
- HeaderValues: left out are
  - the list and deque iterators and `subList`, which are views whose behaviour comes from the other members;
  - `toArray(T[])`, which is reflection-based;
  - the plain aliases `add(s)`, `offer(s)`, `push`, `pop`, `poll`, `peek`, `element`, `remove()` and `remove(Object)`, which delegate to modelled members;
  - the `AsStrings` adapter, which converts with `toString`;
  - `size`/`isEmpty`/`getHeaderName`, which are field reads.
- `handleHost` is not modelled. Neither `handle` nor `handleStateful` calls it.
- `HttpHeaderConfig` is not modelled: it is an annotation with no logic.
- The `OptionMap` lookups of the parser constructor are left out. The limits and flags are plain parameters in `Config`.
- `URLUtils.decode` is not part of this model. It is the `urlDecode` function parameter of `Config` (percent-decoding, section 2.1 of RFC 3986), and only when it is applied is modelled.
- The request path, URI and parameters are kept as text. The UTF-8 conversions around them and `HeaderMap` are not modelled: headers are a list of (name, value) entries, and response headers a map.
- `ParseState.java`, `HttpServerExchange.java` and `ByteBuffer` are not part of this model. Their fields are reconstructed from how the parser uses them.
- Bytecode emission is not modelled: `CodeMarker`, the actions, `createTokenizer`, frame setup, and the bytecode side of `emitByteCode`. For the parser generators the model states what the emitted code does, except HM_IS_HEADER (see ParserTrie.IsHeaderChar below). For StateMachine it states what the emitted code evidently intends (RuleTrie.Run), and the as-written emission is covered by the findings on StateMachine.java:55, 67-72 and 91-98.
  - `createStateField`'s interned HttpString is modelled by its bytes.
- `HM_GENERIC_HEADER_VALUE` and `addHeaderParsingStage` are not modelled. The code is unfinished.
- The references to undefined names are not modelled: `env`, `originalItems` and `PREFIX_MATCH` in the generator, and `HttpString.fromString`, which HttpString.java does not define but HttpRequestParser.java calls at lines 600 and 684. The model keeps the text passed to `fromString` as a plain string. `INITIAL` in the mismatch paths is read as the no-state entry of the `tableswitch`.
- Channels and buffers are abstract:
  - the chunked, fixed-length, empty and broken channel codecs are not modelled; only their selection is;
  - `Channels.writeBlocking`/`flushBlocking` and the buffer pool are a ghost record of delivered bytes and allocation counters;
  - the `volatile` handler fields (concurrency) are not modelled; the drain listeners are, by `Exchange.FixedLengthDrained` and `Exchange.ChunkedDrained`.
- OutputStreams.UndertowOutputStream.UpdateWritten: `written` is a Java `int` and the declared length an `Integer` (UndertowOutputStream.java:51-52); here both are unbounded, so the 32-bit wrap of `written += len` (line 168) after 2^31 - 1 bytes is not modelled.
- RequestParser.PathRun: its own ensures (and those of the other `*Run`, `*Loop`, `From*` and `Stateful*` specification functions) only bound the bytes read and name the states a call can stop in. What each call computes is stated by the lemmas of RequestTarget and RequestHead and by the methods of `HttpRequestParser`.
- RequestTarget.PartsRead: with its companions QueryParsed, PathParamsParsed and TooManyParameters, it assumes the parameter count stays within `maxParameters` + 2 over the text. Longer texts throw at the first '&' past the limit, and only that first throw is stated.
- RequestTarget.PathResumes: like RequestHead.ValueResumes, it states agreement up to the `parseState` field once the parse is complete. That field is not read again.
- RequestTarget.ParamResumes: it is stated for the corrected variant only, where `mapCount` is written back (see Findings).
- RequestHead.AfterVersionResumes: once the head is complete, `leftOver` may differ between the split and the whole call. The split call leaves the LF there.
- RequestMachines.MachineAdvances: the state order is proved for each machine call. No single lemma states it for a whole `handle` call.
- HttpStrings.HttpString.Equals: with `CompareTo` and `EqualToString`, it implements the representation-independent byte rule. The as-written String rule is stated only by the finding lemmas.
- TransferEncoding.RequestBodyRules: the header rules are stated for Latin-1 header values, the only ones an HttpString can hold.
- OutputStreams.UndertowOutputStream.Write: it requires `off`/`len` to name a slice of the array. The `IndexOutOfBoundsException` of an out-of-range slice is not modelled.
- HeaderValuesDeque.HeaderValues.PollFirst: `head` is an index in [0, len) here, not the Java `byte` of HeaderValues.java:40. The overflow of `head++` past 127 (line 345) is not modelled in the class; it is the HeaderValues.java:40 row under Findings, with PollFirstByteHeadAsWrittenOverflows as its as-written half.
- HeaderValuesDeque.HeaderValues.RemoveFirst: it delegates to PollFirst, so it inherits the same unbounded `head` and does not model the byte overflow past 127.
- JavaNumbers.ParseBounded: it accepts ASCII digits only. Long.parseLong and Integer.parseInt also accept the other Unicode Nd digits (through Character.digit), so a response Content-Length such as "١٢" set by application code parses as 12 in Java and is refused here. Request header values are Latin-1, where the two agree.
- ParserTrie.IsHeaderChar: it is the token test that HM_IS_HEADER (AbstractParserGenerator.java:182-229) evidently intends, not what the emitted code does. As emitted, the first `if_icmpgt` pops x, and the next compare runs with a single operand on the stack, so the method would fail bytecode verification. `addGenericHelpers` is never called, so the helper is never emitted.
- RuleTrie.Run: it is the matcher StateMachine.java:76-110 evidently intends. Two more details of the emitted code are not modelled, because as written `emit` throws before any code runs (EmitAsWrittenFailsForAnyRule) and the emitted test takes no alternative with a non-zero key (EmittedTestAsWrittenIgnoresInput). First, every alternative repeats the limit check, the read and the `iinc` of the cursor (lines 82-87), so each test after the first reads a further byte. Second, the stack is not cleaned up between alternatives.

## Findings

| source | as written | input that shows it | evidently intended | confidence | as-written member | corrected member |
|---|---|---|---|---|---|---|
| core/src/main/java/io/undertow/server/protocol/http/HttpRequestParser.java:199-205 | the GET fast path sets the method and goes on to handlePath but never sets the state to PATH | "GET /a" as the whole first buffer: the path is read, the state stays VERB, and the next call of handle starts again at the verb | after "GET" the state is PATH, as the verb machine leaves it | not executed | `RequestHead.FastPathStaysInVerbAsWritten` | `RequestHead.FastPathMovesToPath` |
| core/src/main/java/io/undertow/server/protocol/http/HttpRequestParser.java:200-205 | the fast path checks only the first three bytes | "GETX / HTTP/1.1": the method is GET after three bytes and "X" is left to the path parser | only "GET" followed by a token terminator takes the fast path; other verbs go to the verb machine | not executed | `RequestHead.LongerVerbTakenAsGetAsWritten` | `RequestHead.LongerVerbToMachine` |
| core/src/main/java/io/undertow/server/protocol/http/HttpRequestParser.java:645-648 | on running out of bytes the parameter parsers write mapCount back as 0 (also lines 729-732) | maxParameters 0 and the query "a&b&c" split after "a&b": the split request passes the limit that the same query in one buffer fails | the parameter count survives between calls, as the other cursors do | not executed | `RequestTarget.CountLostAsWritten` | `RequestTarget.CountKept` |
| core/src/main/java/io/undertow/server/protocol/http/HttpRequestParser.java:534 | for an absolute-form target ended by ';' the request path is set from the raw text without decoding | "http://h/a%20b;x=1" with decoding on: the request path keeps "%20", while the same target ended by SP is decoded | the path before ';' is decoded as it is before SP and '?' | not executed | `RequestTarget.SemicolonSkipsDecodeAsWritten` | `RequestTarget.SemicolonDecodes` |
| core/src/main/java/io/undertow/server/protocol/http/HttpRequestParser.java:684 | the end of the path parameters marks the URI absolute only when parseState > HOST_DONE, which is never true once handlePath has reset parseState | "http://h/a;x=1 ": the URI ends up not marked absolute | the URI stays absolute when path parameters follow an absolute-form target | not executed | `RequestTarget.AbsoluteFlagLostAsWritten` | `RequestTarget.AbsoluteFlagKept` |
| core/src/main/java/io/undertow/server/protocol/http/HttpRequestParser.java:767 | header value bytes are appended with the sign-extending (char) cast, and new HttpString(String) then refuses chars above 0xFF (also lines 782, 796, 819) | a header value byte 0xE9: the line end throws instead of adding the header | each byte is kept as the Latin-1 char of the same code | not executed | `RequestHead.HighByteRejectedAsWritten` | `RequestHead.HighByteKept` |
| core/src/main/java/io/undertow/util/HeaderValues.java:86 | the wrap of a position to a slot subtracts the array length only when the index is strictly larger (also lines 348, 370, 439, 457) | head 2 in an array of 4 holding 4 values: position 2 maps to slot 4, past the end | an index equal to the length wraps to slot 0 | not executed | `HeaderValuesDeque.WrapAsWrittenOverruns` | `HeaderValuesDeque.HeaderValues.Get` |
| core/src/main/java/io/undertow/util/HeaderValues.java:418 | get refuses only idx > size | get(size) and get(-1) pass the guard | any index outside [0, size) throws IndexOutOfBoundsException | not executed | `HeaderValuesDeque.GetGuardAsWrittenAdmitsBadIndexes` | `HeaderValuesDeque.HeaderValues.Get` |
| core/src/main/java/io/undertow/util/HeaderValues.java:205-211 | offerFirst on a full array copies the values to the front of a larger array but writes the new one at the old head minus 1 | a full array of 4 with head 0: the write at index -1 throws; with head 3 the grown window no longer holds the old values | the new value goes before the copied values and the window holds it followed by the old values | not executed | `HeaderValuesDeque.OfferFirstGrowAsWrittenFails` | `HeaderValuesDeque.HeaderValues.OfferFirst` |
| core/src/main/java/io/undertow/util/HeaderValues.java:213 | offerFirst with head 0 stores (byte) (len - 1) as the new head | after growth to 324 slots the new head is 67, not 323 | the new head is the last slot of the array | not executed | `HeaderValuesDeque.OfferFirstWrapHeadAsWrittenTruncates` | `HeaderValuesDeque.HeaderValues.OfferFirst` |
| core/src/main/java/io/undertow/util/HeaderValues.java:240-246 | offerLast on a full array rebases the values to index 0 but keeps the old head | a full array [c, d, a, b] with head 2: the window after growth does not read [a, b, c, d, v] | after growth the head is 0 and the new value follows the old ones | not executed | `HeaderValuesDeque.OfferLastGrowAsWrittenFails` | `HeaderValuesDeque.HeaderValues.OfferLast` |
| core/src/main/java/io/undertow/util/HeaderValues.java:40 | head is a byte, so pollFirst's head++ (line 345) takes 127 to -128, and offerLast then computes a negative slot from head + size (lines 238-251) | offerLast 109 times (4, 12, 36, 108, then 324 slots, head 0), then pollFirst followed by offerLast 128 times: the 128th poll leaves head -128 and the next offerLast writes to slot -20 and throws ArrayIndexOutOfBoundsException | head holds any slot of the array, as an int does | not executed | `HeaderValuesDeque.PollFirstByteHeadAsWrittenOverflows` | `HeaderValuesDeque.HeaderValues.PollFirst` |
| core/src/main/java/io/undertow/util/HeaderValues.java:345 | pollFirst increments head without wrapping it | polling the value in the last slot of 4 leaves head 4, and the next access goes to slot 4 | head wraps to 0 past the last slot | not executed | `HeaderValuesDeque.PollFirstHeadAsWrittenOverruns` | `HeaderValuesDeque.HeaderValues.PollFirst` |
| core/src/main/java/io/undertow/util/HeaderValues.java:392 | remove(int) on a wrapped window tests headIdx > len, so head + idx == len takes the front branch, which reads value[len] and copies past the array | removing position 2 of [a, b, c, d] stored from head 2 of 4: ArrayIndexOutOfBoundsException, and the deque is unchanged | c, the value in slot 0, is returned and [a, b, d] remains | not executed | `HeaderValuesDeque.RemoveAtEndAsWrittenThrows` | `HeaderValuesDeque.HeaderValues.Remove` |
| core/src/main/java/io/undertow/util/HeaderValues.java:400-405 | remove on a wrapped window shifts the front values up by one but does not advance head | removing position 1 of [a, b, c, d] stored from head 2 leaves [a, a, c] | the other values keep their order: [a, c, d] | not executed | `HeaderValuesDeque.RemoveFrontAsWrittenDuplicates` | `HeaderValuesDeque.HeaderValues.Remove` |
| core/src/main/java/io/undertow/util/HeaderValues.java:280-301 | offer(int) growing a full array copies nothing when the insertion slot is exactly the array end (head + idx == len, head > 0): none of the three copy branches applies | inserting v at position 2 of [a, b, c, d] stored from head 2 of 4: the grown window reads [null, null, v, null, null] | the grown window reads [a, b, v, c, d] | not executed | `HeaderValuesDeque.OfferGrowAsWrittenLosesValues` | `HeaderValuesDeque.HeaderValues.Offer` |
| core/src/main/java/io/undertow/util/HeaderValues.java:303-306 | offer(int) on a wrapped window whose insertion slot is before the array end shifts the front values correctly, then the write at line 315 stores v again at slot idx | inserting v at position 1 of [a, b, c] stored from head 2 of 4: the window reads [v, v, b, c] | the window reads [a, v, b, c] | not executed | `HeaderValuesDeque.OfferWrappedFrontAsWrittenOverwrites` | `HeaderValuesDeque.HeaderValues.Offer` |
| core/src/main/java/io/undertow/util/HeaderValues.java:307-309 | offer(int) on a wrapped window whose insertion slot is past the array end shifts the back values correctly, then the write at line 315 stores v again at slot idx | inserting v at position 2 of [a, b, c] stored from head 3 of 4: the window reads [a, b, v, v] | the window reads [a, b, v, c] | not executed | `HeaderValuesDeque.OfferWrappedBackAsWrittenOverwrites` | `HeaderValuesDeque.HeaderValues.Offer` |
| core/src/main/java/io/undertow/util/HeaderValues.java:310-315 | offer(int) on a wrapped window whose insertion slot is the array end writes the value at slot 0 and at the end slot | inserting v at position 1 of [a, b, c] stored from head 3 of 4: the window reads [a, v, v, c] | the window reads [a, v, b, c] | not executed | `HeaderValuesDeque.OfferWrappedAtEndAsWrittenLosesValue` | `HeaderValuesDeque.HeaderValues.Offer` |
| core/src/main/java/io/undertow/util/HeaderValues.java:318-321 | offer(int) on a window that ends exactly at the array end shifts towards the end when idx >= size >> 1, and that copy runs past the array | inserting at position 2 of [a, b, c] stored from head 1 of 4: ArrayIndexOutOfBoundsException | the last value wraps to slot 0 and the insertion succeeds | not executed | `HeaderValuesDeque.OfferBackShiftAsWrittenOverruns` | `HeaderValuesDeque.HeaderValues.Offer` |
| core/src/main/java/io/undertow/util/HeaderValues.java:323-327 | offer(int)'s shift towards the front copies the values from idx on one slot down instead of those before idx | inserting v at position 1 of [a, b, c, d] stored from head 1 of 12: the window reads [null, v, c, d, d] | the window reads [a, v, b, c, d] | not executed | `HeaderValuesDeque.OfferFrontShiftAsWrittenLosesValue` | `HeaderValuesDeque.HeaderValues.Offer` |
| core/src/main/java/io/undertow/util/HeaderValues.java:489-496 | addAll(int, Collection) offers every element at the same index | addAll(0, [x, y]) on an empty deque gives [y, x] | the collection's order is kept: [x, y] | not executed | `HeaderValuesDeque.AddAllAsWrittenReverses` | `HeaderValuesDeque.HeaderValues.AddAll` |
| core/src/main/java/io/undertow/util/HttpString.java:254-267 | arrayCompareToIgnoreCase throws IllegalStateException when no folded byte differs, and compareTo returns 0 only for the same object | two distinct HttpStrings "ab" and "AB" | 0 for arrays equal ignoring ASCII case | not executed | `HttpStrings.EqualArraysThrow` | `HttpStrings.HttpString.CompareTo` |
| core/src/main/java/io/undertow/util/HttpString.java:63-65 | new HttpString(bytes, offset, length) passes length where Arrays.copyOfRange expects an end index | offset 1 and length 2 of "abcd" keep one byte; offset 3 and length 1 throw | length bytes copied from offset | not executed | `HttpStrings.RangeAsWrittenTreatsLengthAsEnd` | `HttpStrings.HttpString.FromRange` |
| core/src/main/java/io/undertow/util/HttpString.java:301-333 | equals, compareTo and equalToString switch to String rules once toString has cached a String (also lines 221-252, 392-409) | byte 0xC9 compared with "é": not equal before toString, equal after, with different hash codes | the byte rule whatever is cached, so that equal values hash alike | not executed | `HttpStrings.CachedStringChangesResults` | `HttpStrings.HttpString.Equals` |
| core/src/main/java/io/undertow/server/HttpTransferEncodingHandler.java:156-161 | a body-less response on HTTP/1.1 with no framing headers gets Transfer-Encoding: chunked, yet is framed with length 0 | a 204 to a GET on HTTP/1.1 | no Transfer-Encoding is added to a response that has no body | not executed | `TransferEncoding.NoBodyResponseAnnouncedChunked` | `TransferEncoding.Exchange.WrapResponse` |
| parser-generator/src/main/java/io/undertow/annotationprocessor/StateMachine.java:55 | emit builds the root map with new TreeMap<>() instead of the chosen comparator | rules "ab" (first) and "Ab" ignoring case: the second is not reported as a duplicate, and both "ab " and "Ab " run the second rule's action | the root map uses the same comparator as the others | not executed | `RuleTrie.AsWrittenRootShadowsRule` | `RuleTrie.CorrectedRootReportsCaseDuplicate` |
| parser-generator/src/main/java/io/undertow/annotationprocessor/StateMachine.java:67-72 | emitDelimCheck iterates over a delimiter array that is always null | any machine with at least one rule | the delimiters the machine was built with are checked | not executed | `RuleTrie.EmitAsWrittenFailsForAnyRule` | `RuleTrie.RunFindsRule` |
| parser-generator/src/main/java/io/undertow/annotationprocessor/StateMachine.java:91-98 | the byte test pushes the key and branches with ifeq and ifne, which compare that key with zero; the input byte is never compared | input 'a' at the alternative for 'a': the test skips it, and only a zero key is ever taken | take the alternative when the input byte is the key or, ignoring case, the key's other case | not executed | `RuleTrie.EmittedTestAsWrittenIgnoresInput` | `RuleTrie.Accepts` |
| core/src/main/java/io/undertow/util/HeaderValues.java:663-665 | addAll(Collection) calls addAll(0, c), so the values go in at the front, although the class implements Deque, whose addAll appends | addAll([x]) on the deque [a]: [x, a] | the values are appended at the end: [a, x] | not executed | `HeaderValuesDeque.AddAllFrontAsWritten` | `HeaderValuesDeque.HeaderValues.AddAllLast` |
