# Bank Tag WikiTagger, modelled in Dafny

The plugin turns a chat command `::drops <monster>` into a RuneLite bank tag:

1. It builds an Old School RuneScape wiki "ask" query for the pages that record a drop from the monster.
2. It reads the item IDs out of the JSON reply, keeping each ID once.
3. It tags every item with `"<monster> drops"`.
4. It reports the count in the chat and creates a bank tab whose icon is the first item.

## Files

- `Wrappers.dfy` has `Option`, `Result` and `Outcome`.
- `AskQuery.dfy` has the reply schema once it is bound to the record classes of `AskQuery.java`. Every reference field may be null, so it is an `Option`. The results map is a sequence of entries in document order, which is the iteration order of the map the binding builds.
- `Streams.dfy` has `distinct()` on an ordered `IntStream`. It keeps the first occurrence of each value. The lemmas give it a full characterisation: it is the one repeat-free listing of the input's values in first-occurrence order.
- `FormUrlEncoding.dfy` has `URLEncoder.encode(s, "UTF-8")`: UTF-8 bytes, then the `application/x-www-form-urlencoded` rules of HTML 4.01 section 17.13.4.1. A decoder that accepts exactly the encoder's outputs proves the encoding a bijection onto its image.
- `WikiTaggerPlugin.dfy` has the plugin:
  - query and URL construction;
  - `getIDsFromJSON`;
  - the `IOException` fallback of `getDropIDs`;
  - the chat texts;
  - the class `Plugin`, whose methods `TagItems`, `CreateTab`, `GetDropIDs` and `AddTagsFromDrops` change the state of the RuneLite collaborators. That state is the log of `addTag` calls, the stored tab list, the icon entries and the chat messages.

How the collaborators are modelled:

- The HTTP call is a parameter `http: string -> HttpOutcome` of the methods. It maps the URL to one of three outcomes: an `IOException`, a null body, or what Gson made of the body.
- Gson's reading of the body is the datatype `Json`: `Malformed` for a `JsonSyntaxException`, otherwise the bound document or null.
- `Text.standardize`, `Text.fromCSV`, `Text.toCSV` and the `ICON_SEARCH` prefix are constructor parameters of `Plugin`. Their behaviour belongs to RuneLite.
- Whether the injected `Client` is present is the field `hasClient`. The plugin's test builds the plugin with only an HTTP client.

Where the code and the documented design disagree, the model follows the code:

- A null `printouts`, `allItemID`, element of `allItemID`, result or `query` raises a `NullPointerException` (`WikiTaggerPlugin.java:189-192`). None of them is tolerated.
- `getDropIDs` catches only `IOException` (`WikiTaggerPlugin.java:145`). A `JsonSyntaxException` and the `NullPointerException`s propagate out of `getDropIDs` and `addTagsFromDrops`. They are not downgraded to an empty result.
- A non-2xx HTTP status is not an error in the code. The body is still read and parsed.
- `createTab` appends the standardized tag to the tab list unconditionally (`WikiTaggerPlugin.java:125`). The design describes append-if-absent.
- The query template itself contains spaces, in `Dropped from` and `Dropped item` (`WikiTaggerPlugin.java:142`). Only the encoded monster name is free of spaces (`QueryURLShape`).
- When there is no client, `addTagsFromDrops` still tags the items and then fails on the chat message (`WikiTaggerPlugin.java:82-85`).

## Model

| member | source | states |
|---|---|---|
| Streams.DistinctElements | src/main/java/com/wikitagger/WikiTaggerPlugin.java:193 | `distinct()` keeps exactly the values of the stream: nothing invented, nothing dropped |
| Streams.DistinctNoDuplicates | src/main/java/com/wikitagger/WikiTaggerPlugin.java:193 | no value is kept twice |
| Streams.DistinctOrder | src/main/java/com/wikitagger/WikiTaggerPlugin.java:193 | the kept values appear in the order of their first occurrence in the stream |
| Streams.DistinctPrefix | src/main/java/com/wikitagger/WikiTaggerPlugin.java:193 | more input only appends to the output of `distinct()`: the output of a prefix is a prefix of the output |
| Streams.DistinctOfNoDuplicates | src/main/java/com/wikitagger/WikiTaggerPlugin.java:193 | a stream without repeats passes through unchanged |
| Streams.DistinctIdempotent | src/main/java/com/wikitagger/WikiTaggerPlugin.java:193 | applying `distinct()` twice is the same as applying it once |
| Streams.DistinctCharacterized | src/main/java/com/wikitagger/WikiTaggerPlugin.java:193 | a sequence is the output of `distinct()` if and only if it is repeat-free, has the stream's values and lists them in first-occurrence order |
| Streams.IndexOf | src/main/java/com/wikitagger/WikiTaggerPlugin.java:193 | the position of the first occurrence, with `\|s\|` exactly when the value is absent |
| FormUrlEncoding.Utf8Char | src/main/java/com/wikitagger/WikiTaggerPlugin.java:141 | a code point takes 1 to 4 bytes; it takes one byte exactly when it is ASCII, and that byte is the code point; the bytes of a longer form are all non-ASCII |
| FormUrlEncoding.Utf8CharValue | src/main/java/com/wikitagger/WikiTaggerPlugin.java:141 | the bytes of one code point spell that code point, and their lead byte announces their number |
| FormUrlEncoding.Utf8RoundTrip | src/main/java/com/wikitagger/WikiTaggerPlugin.java:141 | UTF-8 decoding of the encoder's bytes gives the string back |
| FormUrlEncoding.Utf8DecodeCanonical | src/main/java/com/wikitagger/WikiTaggerPlugin.java:141 | whatever the UTF-8 decoder accepts re-encodes to the same bytes |
| FormUrlEncoding.Utf8Injective | src/main/java/com/wikitagger/WikiTaggerPlugin.java:141 | different strings have different UTF-8 bytes |
| FormUrlEncoding.HexDigit | src/main/java/com/wikitagger/WikiTaggerPlugin.java:141 | a hex digit is `0`-`9` or upper-case `A`-`F` |
| FormUrlEncoding.HexRoundTrip | src/main/java/com/wikitagger/WikiTaggerPlugin.java:141 | reading an upper-case hex digit back gives its value |
| FormUrlEncoding.DecodeEncodeBytes | src/main/java/com/wikitagger/WikiTaggerPlugin.java:141 | decoding the form encoding of a byte string gives the bytes back |
| FormUrlEncoding.DecodeBytesCanonical | src/main/java/com/wikitagger/WikiTaggerPlugin.java:141 | whatever the form decoder accepts is the encoding of the bytes it yields |
| FormUrlEncoding.DecodeEncode | src/main/java/com/wikitagger/WikiTaggerPlugin.java:141 | `Decode(t) == Some(s)` if and only if `Encode(s) == t`: the decoder inverts the encoder and accepts nothing else |
| FormUrlEncoding.EncodeInjective | src/main/java/com/wikitagger/WikiTaggerPlugin.java:141 | different names encode differently |
| FormUrlEncoding.EncodeHasNoSpace | src/main/java/com/wikitagger/WikiTaggerPlugin.java:141 | an encoded name has no space character |
| FormUrlEncoding.EncodePlainName | src/main/java/com/wikitagger/WikiTaggerPlugin.java:141 | a name of unreserved ASCII characters and spaces is encoded character by character: a space becomes `+` and every other character is kept |
| WikiTaggerPlugin.QueryURLShape | src/main/java/com/wikitagger/WikiTaggerPlugin.java:141-142 | the URL is the prefix of the `WIKI_API` template (line 44, filled in at line 176), then `[[Dropped from::`, then the encoded monster, then `]]\|?Dropped item.All+Item+ID`, then the template's suffix; the encoded part holds no space |
| WikiTaggerPlugin.QueryURLInjective | src/main/java/com/wikitagger/WikiTaggerPlugin.java:141-142 | different monsters are looked up under different URLs |
| WikiTaggerPlugin.EncodeTestNames | src/test/java/com/wikitagger/WikiTaggerDropsTest.java:26-32 | `rune dragon` encodes as `rune+dragon`; `rune_dragon` and `imp` are left unchanged |
| WikiTaggerPlugin.Unbox | src/main/java/com/wikitagger/WikiTaggerPlugin.java:192 | unboxing a list of `Integer`s succeeds exactly when no element is null, and then gives the elements' values in order |
| WikiTaggerPlugin.UnboxBoxed | src/main/java/com/wikitagger/WikiTaggerPlugin.java:192 | a list without nulls unboxes to its values |
| WikiTaggerPlugin.ItemIds | src/main/java/com/wikitagger/WikiTaggerPlugin.java:189-192 | the flattened stream succeeds exactly when every entry has its printouts and a null-free ID list; otherwise it is a `NullPointerException`; its values are exactly the IDs listed in some entry |
| WikiTaggerPlugin.ItemIdsAppend | src/main/java/com/wikitagger/WikiTaggerPlugin.java:189-191 | the stream of concatenated entries is the concatenation of their streams: the entries are flattened in order |
| WikiTaggerPlugin.GetIDsFromJSON | src/main/java/com/wikitagger/WikiTaggerPlugin.java:186-195 | unparseable JSON fails with a syntax error; a parsed reply succeeds exactly when the document, `query` and `results` are present and every entry is complete, and otherwise fails with a `NullPointerException`; the IDs have no repeats, are exactly the listed IDs, and come in first-occurrence order over the flattened stream |
| WikiTaggerPlugin.GetIDsFromJSONUnique | src/main/java/com/wikitagger/WikiTaggerPlugin.java:189-194 | any repeat-free, first-occurrence-ordered listing of exactly the listed IDs is the answer, so the contract determines the result |
| WikiTaggerPlugin.SharedDropExample | src/main/java/com/wikitagger/WikiTaggerPlugin.java:189-194 | two pages listing `[4151]` and `[4151, 20099]` give `[4151, 20099]` |
| WikiTaggerPlugin.NullElementExample | src/main/java/com/wikitagger/WikiTaggerPlugin.java:192 | a null inside an ID list fails the whole lookup with a `NullPointerException` |
| WikiTaggerPlugin.EdgeCaseExamples | src/main/java/com/wikitagger/WikiTaggerPlugin.java:188-191 | empty `results` give no IDs and no error; a null document, `query`, `results` or `printouts` is a `NullPointerException` |
| WikiTaggerPlugin.MessagesDistinguishable | src/main/java/com/wikitagger/WikiTaggerPlugin.java:84-88 | the "No drops found", "Added … items." and retrieval-error message of line 149 are pairwise different |
| WikiTaggerPlugin.DecimalString | src/main/java/com/wikitagger/WikiTaggerPlugin.java:87 | the count is written as a nonempty string of decimal digits with no leading zero |
| WikiTaggerPlugin.DecimalRoundTrip | src/main/java/com/wikitagger/WikiTaggerPlugin.java:87 | the number in the success message reads back as the number of items |
| WikiTaggerPlugin.TagCallsFor | src/main/java/com/wikitagger/WikiTaggerPlugin.java:100-102 | one `addTag(id, tag, false)` per item, in the items' order |
| WikiTaggerPlugin.Plugin.TagItems | src/main/java/com/wikitagger/WikiTaggerPlugin.java:99-103 | the loop appends exactly `TagCallsFor(items, tag)` to the calls the tag manager has received |
| WikiTaggerPlugin.Plugin.CreateTab | src/main/java/com/wikitagger/WikiTaggerPlugin.java:120-131 | the stored tab list becomes the old list as `getAllTabs` (lines 110-112) reads it, with an absent entry read as empty, plus the standardized tag appended without a duplicate check; the icon entry of the standardized tag becomes the item; nothing else changes |
| WikiTaggerPlugin.Plugin.GetDropIDs | src/main/java/com/wikitagger/WikiTaggerPlugin.java:139-154 | the result is that of the request for `QueryURL(monster)`: an `IOException` gives no IDs and, when there is a client, the one message "There was an error retrieving data"; a null body is a `NullPointerException`; a body gives `GetIDsFromJSON`'s result; nothing else changes |
| WikiTaggerPlugin.Plugin.AddTagsFromDrops | src/main/java/com/wikitagger/WikiTaggerPlugin.java:79-91 | a failed lookup changes nothing and propagates. Otherwise every ID is tagged `"<monster> drops"` in order. Without a client the method fails after tagging. No IDs: only "No drops found for <monster>", and no tab. Some IDs: "Added <monster> drops tag to <count> items." and a tab whose icon is the first ID |

## Left out

- The HTTP request (`getWikiResponse`, OkHttp) is not modelled. The URL goes to a function parameter that returns the outcome. OkHttp's own parsing of the URL is not modelled either: the request URL is given as the string `createQueryURL` builds.
- Gson's parsing of the body is not modelled, because it is a foreign library. The model starts from what it yields: a syntax error or the bound document.
- The event wiring (`onCommandExecuted`, which joins the command's arguments with spaces) and `provideConfig` are not modelled. They are host dispatch and dependency injection.
- `WikiTaggerConfig.java` is not part of this model. It holds only the default command name.
- The internals of `Text.standardize`, `Text.fromCSV`, `Text.toCSV`, `ConfigManager` and `TagManager` are left out because they are RuneLite code. The text helpers are uninterpreted parameters. The tag manager appears only as the log of calls it receives. The two configuration keys that `createTab` writes are two separate fields.
- Logging (`log.info`, `log.error`) and the chat message type and sender arguments are left out. They have no effect on the state that is modelled.
- The `UnsupportedEncodingException` of `URLEncoder.encode` is left out. UTF-8 is always supported. Java strings with unpaired surrogates are also left out, because a Dafny `char` is a Unicode scalar value.
- Exceptions other than the `NullPointerException`s and the `JsonSyntaxException` are left out. One example is an `IllegalArgumentException` from OkHttp for a URL it rejects.
