# evrth.net translation pipeline and theme filters, modelled in Dafny

This project models the logic parts of the evrth.net WordPress theme.

**The page-translation pass of `translator.js`.** `translatePage(targetLang)` works as follows:
- Choosing the site language (`ja`) only requests a reload.
- Any other language first clears every `data-translated` mark. It then scans the candidate elements in document order:
  - It skips elements inside `#language-switcher`, `#wpadminbar` or `.skip-translate`.
  - It skips trimmed texts that are empty, one UTF-16 code unit long, or all ASCII digits.
  - It captures the original text once, in `data-evrth-original`.
  - It builds the cache key `translation_cache_<lang>_<base64(encodeURIComponent(original)) without '='>`.
  - It shows a cached translation when `localStorage` has a non-empty one, and queues the element otherwise.
- The queue is cut into chunks of 100, and `processChunksSequentially` sends them one after the other.
- Each translated chunk is written back into its elements and into `localStorage`.
- The first chunk that fails stops the pass. A rejected request shows an alert, and the writes of earlier chunks stay.

The pass is imperative in the source, and so is the model. Class `TranslatorPage.Page` holds the elements in an array and `localStorage` in a map field. Its methods carry loop invariants and are proved against the functions of module `Translator`. Those functions define the pass as a value (`Translator.Pass`), and `PassProperties` proves what the pass promises about it.

**The AJAX proxy `evrth_translate_ajax_handler` of `functions.php`.** It is a chain of early exits:
- a bad nonce gives 403;
- missing parameters give 400;
- `texts` that do not decode to an array give 400.

It then builds the payload for Cloud Translation API v2 and relays the answer: a connection error gives 500, an API error is relayed with its code and message, and success returns `data.translations`. `TranslationProxy.Handle` models the handler as a function from the request and the upstream outcome to the payload sent and the reply. The WordPress helpers are a `Host` record of functions.

**Three HTML filters of `functions.php`.** Each is one `preg_replace`, modelled as a recursive string function:
- `xt9_archives_link` moves the text between `</a>` and `</li>` into the link.
- `xt9_list_categories` moves a `(N)` post count into the link.
- `xt9_add_description_to_navigation_items` inserts a description span before the first `</a>` of a submenu item.

Modules: `Optional`, `JsText` (trim, UTF-16 length, skip rule), `CacheKey` (the key with its decoder and round trip), `Chunking`, `Translator`, `TranslatorPage`, `PassProperties`, `TranslationProxy`, `HtmlFilters`, `NavDescription`.

## Model

| member | source | states |
|---|---|---|
| JsText.TrimStart | translator.js:48 | The result is a suffix of the text. Every dropped character is JS white space, and the result does not start with white space. |
| JsText.TrimEnd | translator.js:48 | The result is a prefix of the text. Every dropped character is JS white space, and the result does not end with white space. |
| JsText.TrimKeepsCore | translator.js:48 | `trim()` returns the slice of the text after its leading white space. Everything before and after that slice is white space, and the slice neither starts nor ends with white space. |
| JsText.TrimIsSlice | translator.js:48 | `trim()` returns the contiguous slice that starts after the leading white space. |
| JsText.TrimIdempotent | translator.js:48 | Trimming twice gives the same text as trimming once. |
| JsText.Utf16Length | translator.js:49 | `length` counts UTF-16 code units: between one and two per character. |
| JsText.AtMostOneCodeUnit | translator.js:49 | `length <= 1` holds exactly for the empty text and for a single character of the Basic Multilingual Plane. |
| JsText.LongTextNotSkipped | translator.js:49 | A text of two or more characters with a non-digit is not skipped. |
| JsText.SkipText | translator.js:49 | A trimmed text is sent exactly when it has two or more characters and one is not an ASCII digit, or is a single character outside the Basic Multilingual Plane. |
| JsText.SkipTextExamples | translator.js:49 | "", "5" and "42" are skipped, and "Hello" is not. |
| Chunking.ChunksPartition | translator.js:88-91 | The chunks, concatenated, give back the list. No chunk is empty, none holds more than the chunk size, and all but the last hold exactly the chunk size. |
| Chunking.ChunkCount | translator.js:88-91 | There are ceil(N / size) chunks. |
| Chunking.ChunkAtOffset | translator.js:88-89 | Chunk k is the slice of the list starting at k·size, as a repeated sum. |
| Chunking.ChunkAt | translator.js:88-89 | Chunk k is `slice(k*size, k*size + size)`, and its start lies inside the list. |
| Chunking.ChunkItem | translator.js:88-96 | Item j of the list is item j % size of chunk j / size, and both indices are in range. |
| Chunking.SplitIntoChunks | translator.js:83-91 | The loop that pushes `slice(i, i + chunkSize)` builds exactly the chunk list. |
| Chunking.ProcessChunksSequentially | translator.js:5-11 | The loop makes the scheduled calls in order, each with its slice and start index, and stops after the first call whose promise rejects. It reports whether it ran to the end, which happens exactly when no scheduled call rejects. |
| Chunking.FirstRejected | translator.js:6-10 | Every call before the result resolves, and the call at the result, if any, rejects. |
| Chunking.FirstRejectedIs | translator.js:6-10 | Those facts determine the first rejected call. |
| Chunking.CallsStopped | translator.js:6-10 | Calls that end at a rejected one, after only resolved ones, are the calls made. |
| Chunking.CallsAll | translator.js:6-10 | When every scheduled call resolves, all of them are made. |
| Chunking.ScheduleLength | translator.js:5-11 | There is one callback call per chunk of the list. |
| Chunking.ScheduleFirst | translator.js:6-9 | The first call gets the first chunk and its start index. |
| Chunking.ScheduleAt | translator.js:6-9 | Call k gets chunk k and the start index i + k·size. |
| Chunking.UnitSchedule | translator.js:95-97 | With chunk size 1, call k gets `[a[k]]` and index k. This is why `chunkOfTexts[0]` is chunk `index`. |
| Chunking.UnitCalls | translator.js:5-11 | With chunk size 1, call c gets `[a[c]]` and index c. The calls stop right after the first rejected one, or run over the whole list. |
| CacheKey.Utf8 | translator.js:62 | A character encodes to one to four UTF-8 bytes. |
| CacheKey.Units | translator.js:62 | `encodeURIComponent` keeps only unreserved characters as they are and escapes all the others. |
| CacheKey.Render | translator.js:62 | The escaped text is ASCII, so `btoa` does not throw on it. |
| CacheKey.EncodeUriComponent | translator.js:62 | `encodeURIComponent` gives ASCII text, which decodes back to the original. |
| CacheKey.Sextet | translator.js:62 | The standard base64 alphabet contains neither `=` nor `_`. |
| CacheKey.Btoa | translator.js:62 | `btoa` output contains no `_`. With its `=` removed, it decodes back to the bytes. |
| CacheKey.StripEquals | translator.js:62 | `replace(/=/g, '')` leaves no `=`. |
| CacheKey.StripEqualsAppend | translator.js:62 | Stripping distributes over concatenation. |
| CacheKey.StripEqualsNone | translator.js:62 | A text without `=` is left alone. |
| CacheKey.Utf8RoundTrip | translator.js:62 | Percent-decoding the UTF-8 escapes of a reserved character gives the character back, and the rest of the text is decoded on its own. |
| CacheKey.Utf8RoundTrip1 | translator.js:62 | The same for one-byte characters. |
| CacheKey.Utf8RoundTrip2 | translator.js:62 | The same for two-byte characters. |
| CacheKey.Utf8RoundTrip3 | translator.js:62 | The same for three-byte characters. |
| CacheKey.Utf8RoundTrip4 | translator.js:62 | The same for four-byte characters. |
| CacheKey.CharRoundTrip | translator.js:62 | Each character's encoding decodes back to that character. |
| CacheKey.UnitsRoundTrip | translator.js:62 | Decoding the escaped units of a text gives the text back. |
| CacheKey.UnescapeRender | translator.js:62 | Reading the escaped text back gives the units it was written from. |
| CacheKey.Latin1RoundTrip | translator.js:62 | `btoa`'s one-byte-per-character reading is reversible. |
| CacheKey.SextetRoundTrip | translator.js:62 | Each base64 character decodes to its 6-bit value. |
| CacheKey.OneByteTail | translator.js:62 | A final single byte, whose padding was stripped, decodes back. |
| CacheKey.TwoByteTail | translator.js:62 | Two final bytes, whose padding was stripped, decode back. |
| CacheKey.GroupThenTail | translator.js:62 | A full group of four characters decodes to its three bytes, followed by the rest. |
| CacheKey.OneByteRoundTrip | translator.js:62 | One byte survives base64 plus `=` stripping. |
| CacheKey.TwoByteRoundTrip | translator.js:62 | Two bytes survive base64 plus `=` stripping. |
| CacheKey.GroupStep | translator.js:62 | If the bytes after the first three round-trip, so do all the bytes. |
| CacheKey.Base64RoundTrip | translator.js:62 | Base64 with every `=` stripped is decodable: the length tells the padding. |
| CacheKey.Base64NoUnderscore | translator.js:62 | Standard base64 output never holds `_`. |
| CacheKey.EncodedTextRoundTrip | translator.js:62 | The encoded original decodes back to the original and contains no `_`. |
| CacheKey.ParseKeyOf | translator.js:58-62 | A key built from a language and an encoded text parses back into the language and the original. |
| CacheKey.Key | translator.js:58-62 | Every cache key parses back into the language and the original text it was built from. |
| CacheKey.KeyInjective | translator.js:58-62 | Distinct (language, original) pairs give distinct cache keys. |
| Translator.Misses | translator.js:38-73 | `textsToTranslate` lists elements in document order, each at most once, all among those scanned. |
| Translator.MissesSound | translator.js:38-73 | Each queued entry is an eligible, uncached element with its original text and its key. |
| Translator.MissesComplete | translator.js:38-73 | Every eligible, uncached element is queued. |
| Translator.SelectSound | translator.js:38-73 | A selection keeps only selected entries, in order, each once. |
| Translator.SelectComplete | translator.js:38-73 | A selection keeps every selected entry. |
| Translator.ScanOneEffect | translator.js:38-73 | The scan changes only an element's original, text and mark, and keeps an original already captured. An eligible element records its original and shows a cached translation, marked. A miss keeps its text and mark. Any other element is left alone. |
| Translator.TextsAlignWithChunks | translator.js:88-126 | The text of queued item j is sent as item j % 100 of chunk j / 100. That chunk's `targetNodes` slice holds item j at index j % 100, so `translated[idx]` returns to the element it came from. |
| Translator.FirstFailure | translator.js:95-137 | Every chunk before the result was translated, and the chunk at the result, if any, failed. |
| Translator.FirstFailureIs | translator.js:95-137 | Those facts determine the first failing chunk. |
| Translator.Oks | translator.js:95-120 | A chunk's promise resolves exactly when its request comes back translated. |
| Translator.FailureIsRejection | translator.js:115-120 | The first failed chunk is the first call whose promise rejects. |
| Translator.ApplyFirstStep | translator.js:125-132 | The next write-back takes the translation at the item's place in its chunk, and that chunk was translated. |
| Translator.ApplyFirstFrame | translator.js:125-132 | An element that no written item names is left as it was. |
| Translator.ApplyFirstWritten | translator.js:125-128 | A written element shows `translated[idx]` of its chunk and is marked translated. |
| Translator.ApplyFirstDisplayOnly | translator.js:125-128 | Writing back changes only the displayed text and the mark, never the original. |
| Translator.ApplyFirstStorageFrame | translator.js:131 | A cache key that no written item has is left as it was. |
| Translator.ApplyFirstStorageLast | translator.js:131 | The cache holds, under each written key, what the last item with that key stored. |
| Translator.ApplyFirstCached | translator.js:64-66 | When no translation is empty, cached keys stay cached and every written key becomes cached. |
| Translator.ApplyFirst | translator.js:125-132 | Writing back keeps the number of elements, and the cache only gains keys. |
| Translator.Written | translator.js:95-137 | The items written back are those of the chunks before the first failure: 100 per earlier chunk when a chunk fails, every queued item when none does. |
| Translator.Pass | translator.js:13-140 | A pass keeps the number of elements and removes no cache key. It requests a reload exactly for `ja`. When nothing is sent, the cache is unchanged. |
| TranslatorPage.Page.ClearTranslatedMarks | translator.js:20-22 | Every element loses its `data-translated` mark, and nothing else changes. |
| TranslatorPage.Page.ScanElement | translator.js:38-73 | One forEach step. It changes only element i: excluded or trivial texts are skipped, the original is captured, a cached translation is shown. It returns the entry to queue. |
| TranslatorPage.Page.ScanElements | translator.js:38-73 | The scan leaves each element scanned and returns exactly the misses, in document order. |
| TranslatorPage.Page.ApplyItem | translator.js:125-132 | Writing one item back is the next step of the chunk-by-chunk write-back. |
| TranslatorPage.Page.ApplyChunk | translator.js:96-132 | The items `slice(index*100, (index+1)*100)` of a translated chunk are written back in order. |
| TranslatorPage.Page.SendChunks | translator.js:94-139 | The chunks are sent in order until the first failure. The page and cache reflect exactly the earlier chunks, and the result lists the chunks sent plus the alert. |
| TranslatorPage.Page.TranslatePage | translator.js:13-140 | The method's final page, cache and outcome are those of the pass function. |
| PassProperties.SourceLanguageReloads | translator.js:14-17 | Choosing `ja` touches no element and no cache entry, and only requests a reload. |
| PassProperties.ClearedAt | translator.js:20-22 | Clearing removes the mark and does not change eligibility, the original or the key. |
| PassProperties.QueueFacts | translator.js:38-73 | The queue is ordered, stays on the page, and describes eligible uncached elements. |
| PassProperties.SkippedElement | translator.js:38-49 | An excluded or trivial element is neither changed nor sent. It only loses its mark. |
| PassProperties.CacheHit | translator.js:64-68 | A cached element shows the cached text and is marked translated, with its original captured. |
| PassProperties.MissQueued | translator.js:69-72 | An uncached eligible element is queued with its original text, not its displayed text. |
| PassProperties.QueuedElement | translator.js:38-133 | A queued element ends translated if its chunk comes before the first failure, and untranslated otherwise. Its original is captured either way. |
| PassProperties.DisplayOnlyAfterScan | translator.js:51-55 | The pass changes only an element's text, mark and original, and never overwrites an existing original. |
| PassProperties.EligibleOriginalNonEmpty | translator.js:49-52 | The text sent for an eligible element is never empty. |
| PassProperties.CapturedOriginal | translator.js:51-62 | Once captured, the original gives the same text and key on later passes. |
| PassProperties.NothingToSendIffWarm | translator.js:77-80 | No request is made exactly when no element is an uncached eligible one. In that case the cache is unchanged. |
| PassProperties.CompletedSentAll | translator.js:83-135 | A completed pass sent chunks that partition the queued texts, all came back translated, and every item was written. |
| PassProperties.AbortedStopsAtFailure | translator.js:95-120 | An aborted pass sent a prefix of the chunks, and only its last chunk failed. The alert is that chunk's, and exactly the items before it were written. |
| PassProperties.SentAreCalls | translator.js:94-97 | The chunks a completed or aborted pass sent are the calls `processChunksSequentially(chunkedTexts, 1, …)` makes: call c gets `[chunk c]` and index c, up to the first failure. |
| PassProperties.AlertText | translator.js:115-119 | The alert is the prefix plus `data.message`, or plus the default message when that is empty. A request that threw shows no alert. |
| PassProperties.StorageFrame | translator.js:125-132 | The pass writes no cache key outside the queue. |
| PassProperties.StorageWritten | translator.js:131 | Each written item's key holds its stored translation. |
| PassProperties.WarmAfterCompletion | translator.js:64-132 | After a completed pass with non-empty translations, no element is a miss. |
| PassProperties.SecondPassSendsNothing | translator.js:77-80 | Repeating a completed pass in the same language sends nothing. |
| PassProperties.QueuedShownIsCached | translator.js:64-132 | After a completed pass with full, consistent replies, a queued item's key holds the text its element shows. |
| PassProperties.HitShownIsCached | translator.js:64-131 | A cache hit shows the cached text, and the pass leaves that entry alone. |
| PassProperties.MissShownIsCached | translator.js:64-132 | A missed element, after such a pass, shows what its key holds. |
| PassProperties.ShownIsCached | translator.js:64-132 | After such a pass, every element the pass looked at shows exactly what the cache holds under its key. |
| PassProperties.LastSameKey | translator.js:125-132 | Some queued item at or after j is the last with j's key. |
| PassProperties.SecondPassSameText | translator.js:64-80 | After such a pass with no empty translation, a second pass in the same language changes no element's visible text. |
| TranslationProxy.LastWithKey | functions.php:241-243 | A lookup finds a value exactly when some entry has the key. |
| TranslationProxy.SanitizeAll | functions.php:206 | `array_map` keeps the keys and their order and sanitises each value. |
| TranslationProxy.IntCast | functions.php:241-244 | `(int)` keeps an integer, and maps a float to the integer next to it on the side of zero. |
| TranslationProxy.Relay | functions.php:233-249 | The answer is relayed as success exactly when the code casts to 200 and there is no `error`. A connection error gives 500 with the error's message after the fixed prefix. |
| TranslationProxy.Handle | functions.php:186-250 | The upstream call is made exactly when every check passes. Success needs an HTTP reply. The payload always has source `ja` and format `text`. |
| TranslationProxy.NonceCheckedFirst | functions.php:188-190 | A missing or invalid nonce gives 403, before any decoding and with nothing sent. |
| TranslationProxy.MissingParameterRefused | functions.php:193-195 | A missing `texts` or `targetLang` gives 400, with nothing sent. |
| TranslationProxy.UndecodableTextsRefused | functions.php:197-203 | `texts` that do not decode to an array give 400, with nothing sent. |
| TranslationProxy.PayloadShape | functions.php:205-219 | `q` is the sanitised texts, with the same keys and order. `target` is the sanitised language, `source` is `ja` and `format` is `text`. |
| TranslationProxy.ConnectionFailureIs500 | functions.php:233-235 | A connection error gives 500, with the error's message after the fixed prefix. |
| TranslationProxy.ApiErrorRelayed | functions.php:237-245 | A non-200 code or an `error` key gives `error.code`, or 500 if absent. The message is `error.message`, or the fixed default if absent. |
| TranslationProxy.SuccessIff | functions.php:233-249 | Success happens exactly when the request is accepted and the API answers 200 without `error`. |
| TranslationProxy.SuccessPassesTranslationsThrough | functions.php:249 | On success the reply data is `data.translations`, unchanged, or null when the decoded body has no such array member. |
| TranslationProxy.FailureStatuses | functions.php:186-250 | Every failure status is 403, 400, 500 or the API's own `error.code`. |
| TranslationProxy.IntCastTruncates | functions.php:241-244 | `(int)` on a float is odd and agrees with floor on non-negative values. On a negative value with a fraction it is one above floor. 2.9 gives 2 and -2.9 gives -2. |
| HtmlFilters.LazyRun | functions.php:121 | A found end lies past the minimum length and is followed by `</li>`. |
| HtmlFilters.LazyRunSound | functions.php:121 | `.+?` stops at the first `</li>` and crosses no newline. |
| HtmlFilters.LazyRunFinds | functions.php:121 | If some `</li>` is reachable without crossing a newline, the lazy run finds one no later. |
| HtmlFilters.ArchiveMatch | functions.php:121 | A match lies inside the text and has a non-empty group. |
| HtmlFilters.ArchiveMatchSound | functions.php:121 | A match is `</a>X</li>` with X newline-free and non-empty, and no shorter X would do. |
| HtmlFilters.ArchiveMatchComplete | functions.php:121 | Wherever the shape occurs at the start, there is a match no longer than it. |
| HtmlFilters.ArchiveMatchIsLeast | functions.php:121 | The pattern matches exactly when the shape occurs, and the match is the shortest one. |
| HtmlFilters.ArchivesLink | functions.php:121 | The rewrite keeps the length of the text. |
| HtmlFilters.ArchivesLinkStep | functions.php:121 | A match is replaced by `X</a></li>`, and the scan goes on after the match. |
| HtmlFilters.ArchivesLinkKeeps | functions.php:121 | The rewrite preserves the length and the count of every character. |
| HtmlFilters.ArchivesLinkNoMatch | functions.php:121 | Text without a match is returned unchanged. |
| HtmlFilters.SpacesEnd | functions.php:133 | `\s*` ends at the first non-space. |
| HtmlFilters.SpacesEndSound | functions.php:133 | Everything `\s*` covers is white space. |
| HtmlFilters.DigitsEnd | functions.php:133 | `\d+` ends at the first non-digit. |
| HtmlFilters.DigitsEndSound | functions.php:133 | Everything `\d+` covers is a digit. |
| HtmlFilters.SpaceRunEnds | functions.php:133 | White space followed by `(` ends exactly at the `(`. |
| HtmlFilters.DigitRunEnds | functions.php:133 | Digits followed by `)` end exactly at the `)`. |
| HtmlFilters.CountMatch | functions.php:133 | A match lies inside the text, and its digits come after the `(`. |
| HtmlFilters.CountMatchIsShape | functions.php:133 | The pattern matches with given digit bounds exactly when the text is `</a>`, white space, `(`, those digits and `)`. |
| HtmlFilters.ListCategoriesStep | functions.php:133 | A match is replaced by ` (N)</a>`, and the scan goes on after the match. |
| HtmlFilters.ListCategoriesKeepsVisible | functions.php:133 | The rewrite keeps the count of every character that is not white space. |
| HtmlFilters.ListCategoriesNoMatch | functions.php:133 | Text without a match is returned unchanged. |
| NavDescription.FirstAnchorEnd | functions.php:158 | A found index is an occurrence of `</a>`. |
| NavDescription.FirstAnchorEndIsFirst | functions.php:158 | The found `</a>` is the first one, and "none" means there is none. |
| NavDescription.Backref | functions.php:158 | A back-reference ends after its sign, within the text and at most five characters on. It names a group below 100. |
| NavDescription.Expand | functions.php:158 | A replacement string without `\` or `$` expands to itself. |
| NavDescription.AddDescriptionAsWritten | functions.php:152-158 | The filter as written changes nothing unless the block applies and the content has `</a>`. |
| NavDescription.AddDescription | functions.php:152-158 | The filter as intended changes nothing unless the block applies and the content has `</a>`. |
| NavDescription.AddDescriptionUnchanged | functions.php:152-160 | Content is unchanged, by the filter as written and as intended, unless the block is a submenu with a non-empty description and contains `</a>`. |
| NavDescription.AddDescriptionInserts | functions.php:152-158 | Otherwise, the span goes right before the first `</a>`. Taking it out gives the content back. |
| NavDescription.FixedTextPlain | functions.php:155-158 | The fixed parts of the replacement contain no `\` and no `$`. |
| NavDescription.ExpandPlain | functions.php:158 | A replacement string without `\` or `$` is inserted literally. |
| NavDescription.ExpandPlainPrefix | functions.php:158 | A plain stretch of the replacement string is copied as it is. |
| NavDescription.TemplatePlain | functions.php:155-158 | With a plain description, the replacement is the span followed by `</a>`. |
| NavDescription.AsWrittenAgreesWhenPlain | functions.php:152-158 | With a description that contains no `\` and no `$`, the filter as written gives the intended result. |
| NavDescription.ExpandDollarZero | functions.php:158 | `$0` in a replacement string is replaced by the whole match. |
| NavDescription.TemplateDollarZero | functions.php:155-158 | A description `$0` becomes the matched `</a>` inside the span. |
| NavDescription.DollarZeroDescription | functions.php:153-158 | For the description `$0`, the filter as written inserts `</a>` where the description should be. This differs from the intended insertion. |

## Left out

- Nested candidates: setting a parent's `textContent` replaces its children. The model treats candidates as independent elements.
- Lone surrogates: a Dafny `char` is a Unicode scalar value, so texts with lone surrogates, on which `encodeURIComponent` throws, do not exist in the model.
- `chunkedNodes` (translator.js:84, 90) is built but never read, so it is not modelled.
- CSS selector matching and `closest()` are given as per-element flags. The `:not(#wpadminbar):not(.skip-translate):not(nav)` prefix of the selector (translator.js:27-29) is met by any ancestor that is not `nav`, so in effect the exclusions come from the `closest()` checks (translator.js:38-44), which the flags stand for.
- TranslatorPage.Page.ApplyItem, TranslatorPage.Page.SendChunks and TranslatorPage.Page.ScanElement: `localStorage.getItem` and `setItem` never throw in the model. A `setItem` that throws (storage quota) at translator.js:131 leaves the earlier items of that chunk written, and the `catch` at translator.js:137-139 ends the pass with only a log. A `getItem` that throws at translator.js:64 ends the pass half-scanned, before anything is sent.
- Chunking.ProcessChunksSequentially, Chunking.SplitIntoChunks and Chunking.Chunks require a chunk size above zero. The source's loop never ends with size 0 (its callers pass 100 and 1).
- PassProperties.SecondPassSameText holds only when every translated chunk has a reply item for each of its texts, equal texts are translated alike everywhere, and no translation is empty. Without these the second pass can change what is shown. Two elements with the same original can get different translations in one pass, and the cache keeps the last one written (translator.js:131), so the first element shows a different text on the next pass. A short reply shows an empty text but stores `"undefined"`.
- `console` logging, the `fetch`/`FormData` request, the change-event wiring (translator.js:142-165) and async interleaving of overlapping passes are not modelled. The pass is one sequential method.
- `location.reload()` and `alert()` are outcome values (`ReloadRequested`, the alert text of `Aborted`), not effects.
- Each request's outcome is an input. A reply whose `data` is not an array, or that `res.json()` cannot read, is a failure without an alert. A reply item without `translatedText` is not distinguished from a string.
- A reply list shorter than its chunk is modelled as the source does it: the element shows the empty text and the cache stores `"undefined"`. Extra items are ignored.
- `data.data.message` is a string in the model: an empty message falls back to the default, and non-string messages are not modelled.
- TranslationProxy.Relay, TranslationProxy.SuccessIff and TranslationProxy.SuccessPassesTranslationsThrough: a 200 reply whose decoded body, or whose `data` member, is a string is treated like a body without `data`, and the model relays success with null. functions.php:249 indexes into the string without `isset`. PHP 7 warns and relays the string's first character as success, and PHP 8 stops with a `TypeError`, so no JSON reply is sent. Neither outcome is modelled.
- `TranslationProxy.Host`: `wp_verify_nonce`, `wp_unslash`, `json_decode`, `sanitize_text_field` and PHP's string-to-integer cast are uninterpreted functions.
- `$_POST` values are strings. An array-valued `texts` or `targetLang` is not modelled.
- Decoded PHP arrays are entry lists. The model does not require keys to be unique, which PHP guarantees; a lookup reads the last entry with the key.
- The API key, URL, headers, timeout and the JSON encoding of the payload (`wp_json_encode` turns `q` into a list or an object depending on its keys) are not modelled. The payload is the structured value.
- PHP integers are unbounded in the model: 64-bit overflow, and casts of out-of-range or non-finite floats, are not modelled.
- The status passed to `wp_send_json_error` is kept as the integer given. What WordPress does with an invalid HTTP status is not modelled.
- The three filters work on characters, while PHP works on bytes. Every fixed part of the three patterns is ASCII, so a match starts and ends at the same places in both views. Byte lengths are not modelled.
- `preg_replace` failures (the backtracking limit, which returns null) are not modelled.
- `esc_attr` is a parameter of the navigation filter.
- The block's description is an optional string. Non-string values and PHP's `empty()` on them are not modelled, apart from `""` and `"0"`.
- The `version_compare` gate (functions.php:162-167) and the hook registrations are taken as given.

## Findings

| source | as written | input that shows it | evidently intended | confidence | as-written member | corrected member |
|---|---|---|---|---|---|---|
| functions.php:155-158 | The escaped description is part of the `preg_replace` replacement string. `esc_attr` leaves `$` and `\` alone, so `$0`, `\0`, `$1` and `${0}` in a description are expanded as back-references. | A submenu block with the description `$0` and content `<a>x</a>`. The span receives `</a>` instead of the text `$0`. | Insert the span, with the escaped description taken literally, before the first `</a>` | not executed | NavDescription.DollarZeroDescription | NavDescription.AddDescriptionInserts |
