# Walgreens product scraper: the decision logic, in Dafny

The scraper takes over-the-counter drug labels from a catalogue. For each label
from index 1000 on, it searches the retailer's site for the label's title. It
reads a `{title, url, price}` record from every product card on the rendered
results page. A string-similarity matcher picks the record closest to the
title, and that record is appended to a CSV file with the label's id and title.

This project models that logic and proves what it does. It has six modules:

- `JsStrings` (`js_strings.dfy`): JavaScript `trim` with the exact ECMAScript
  whitespace set, ASCII `toLowerCase`, and the `\d` class.
- `UriEncoding` (`uri_encoding.dfy`): `encodeURI` and `encodeURIComponent` as
  in sections 15.1.3.3 and 15.1.3.4 of ECMA-262 5.1. Each code point outside
  the kept set is written as its UTF-8 bytes, one `%XY` each. The module also
  decodes a form-encoded query value the way a server reads it.
- `Site` (`site.dfy`): the origin `https://www.walgreens.com`, the search URL
  built for a keyword, and the `Ntt` value the search endpoint reads back out
  of that URL.
- `Extractor` (`extractor.dfy`): the callback evaluated in the results page.
  - The page is given as the cards its selectors find.
  - Each card has an optional title anchor and an optional price container.
  - A price container has an optional message and an optional structured
    price node.
  - The callback's `forEach`/`push` loop is a method, `ExtractProducts`. It is
    proved against the function `Extract`.
  - A card without a price container aborts the whole page. This is the
    `Err` of a `Result`.
- `Search` (`search.dfy`): `searchProduct`.
  - The web is a function from (request number, URL) to what the page
    renders.
  - The matcher is a function parameter. `ValidMatcher` is the library's
    promise of an in-range index.
  - Every fault the code can throw is a `Failed` outcome. `BrowserFailed`
    (fault `Browser`) stands for any browser fault around the page: opening
    it (`newPage`), loading the URL (`goto`) or closing it (`close`).
- `Runner` (`runner.dfy`): the batch loop of `run`.
  - The CSV writer is a class with a `rows` sequence that only grows.
  - The loop is a method that reads each label's search outcome from a
    sequence.
  - `Outcomes` gives that sequence for a given web and matcher.
  - Each element of `Outcomes` is what `Search.SearchProduct` returns for
    that label.

The model follows the code in these corners:

- An anchor with no non-blank text child gives the title `""`, not `"N.A."`.
- A structured price with no digit-only child gives the price `""`.
- An anchor with no `href` gives `BASE_URL + "null"`. JavaScript turns the
  `null` of `getAttribute` into the text `"null"`.
- The matcher's index is not trusted. An out-of-range index reads
  `undefined.rating` and throws, and `Select` returns
  `Failed(NoSuchCandidate(i))` for it.

## Model

| member | source | states |
|---|---|---|
| JsStrings.TrimStart | index.js:131 | the result is a suffix of the input; what was dropped is all ECMAScript whitespace; the result does not start with whitespace |
| JsStrings.TrimEnd | index.js:131 | the result is a prefix of the input; what was dropped is all whitespace; the result does not end with whitespace |
| JsStrings.Trim | index.js:131 | `trim` gives a string with no whitespace at either end, never longer than its input |
| JsStrings.TrimIsTrimEndOfTrimStart | index.js:131 | `trim` equals the two-pass reference: drop the leading whitespace run, then the trailing one |
| JsStrings.TrimIdempotent | index.js:169 | trimming twice is trimming once |
| JsStrings.TrimEmptyIff | index.js:147 | `trim` gives the empty string exactly when the input is all whitespace |
| JsStrings.AsciiLower | index.js:169 | same length; every ASCII capital becomes its small letter and every other character is kept |
| UriEncoding.Utf8 | index.js:114 | one to four bytes; one byte exactly for ASCII, equal to the code point; otherwise a lead byte and continuation bytes |
| UriEncoding.Utf8RoundTrip | index.js:114 | the bytes of a code point read back to that code point |
| UriEncoding.HexDigit | index.js:114 | the hexadecimal digit written is upper case and reads back as the value written |
| UriEncoding.EscapeByte | index.js:114 | `%XY` with upper-case digits whose value is the byte |
| UriEncoding.EscapeBytes | index.js:114 | three characters per byte, each `%` or an upper-case hex digit |
| UriEncoding.PercentEncode | index.js:114 | every output character is kept by the encoder, a `%`, or an upper-case hex digit |
| UriEncoding.PercentEncodeAppend | index.js:114 | encoding a concatenation encodes each part |
| UriEncoding.EncodeUri | index.js:114 | `encodeURI` writes only characters it keeps (among them `&`, `#`, `+`, `=`) and `%` escapes |
| UriEncoding.EncodeUriComponent | index.js:114 | `encodeURIComponent` writes only unreserved characters and `%` escapes, so no `&`, `#`, `+` or `=` |
| UriEncoding.FormDecode | index.js:114 | how the search endpoint reads a query value: `+` is a space and `%XY` the character with that code; `FormDecodeOfEncode` proves it undoes encoding |
| UriEncoding.FormDecodeOfEncode | index.js:114 | decoding undoes encoding for ASCII text when no kept character is `%` or `+` |
| Site.SearchUrl | index.js:114 | the URL as written starts with `BASE_URL + '/search/results.jsp?Ntt='` |
| Site.SearchUrlFixed | index.js:114 | the corrected URL starts with the same prefix |
| Site.RawValue | index.js:114 | a query value is the longest prefix with no `&` or `#`, and is followed by one of them when it stops early |
| Site.NttValue | index.js:114 | the keyword the endpoint sees is the decoded raw value after the `Ntt=` prefix; the lemmas below state when it equals the keyword |
| Site.SearchUrlCarriesPlainKeyword | index.js:114 | with `encodeURI`, an ASCII keyword without `&`, `#` or `+` reaches the endpoint unchanged |
| Site.SearchUrlCutsAtAmpersand | index.js:114 | with `encodeURI`, a keyword `a & b` reaches the endpoint as `a` |
| Site.SearchUrlTruncatesColdAndFlu | index.js:114 | `Cold & Flu` reaches the endpoint as `Cold ` |
| Site.SearchUrlFixedCarriesKeyword | index.js:114 | with `encodeURIComponent`, every ASCII keyword reaches the endpoint unchanged |
| Site.RawValueWhole | index.js:114 | a value with no `&` or `#` is read whole |
| Site.RawValueStopsAt | index.js:114 | a value is cut at the first `&` or `#` |
| Site.NoValueEndAfterEncode | index.js:114 | percent-encoding adds no `&` or `#` that the encoder does not keep |
| Extractor.TextSegmentsTrimmed | index.js:127-131 | every title segment taken from a text child is trimmed |
| Extractor.TextSegments | index.js:127-131 | the `filter`/`map` over the anchor's children: the trimmed text of each text child, in order; `TextSegmentsTrimmed`, `TextSegmentsAppend` and `TitleTextChild` state it |
| Extractor.Concat | index.js:132 | `join('')`; `ConcatAppend` and `ConcatTrimmed` state it |
| Extractor.AnchorTitle | index.js:127-132 | the joined title has no whitespace at either end |
| Extractor.CardTitle | index.js:125-132 | `"N.A."` without an anchor; otherwise a trimmed title no longer than the raw text of the text children |
| Extractor.HrefText | index.js:134 | the text JavaScript concatenates for `getAttribute('href')`: the attribute, or `"null"` when it is absent; `CardUrl` states it |
| Extractor.CardUrl | index.js:134 | `"N.A."` without an anchor; otherwise `BASE_URL` followed by the `href` text (`"null"` when absent) |
| Extractor.Fragment | index.js:144-155 | a child's value survives the `/^\d*$/` test only if it is all digits |
| Extractor.KeptFragmentsDigitRuns | index.js:143-156 | every fragment kept by the filter is a non-empty run of digits |
| Extractor.KeptFragments | index.js:143-156 | the `map`/`filter` over the price children: the values that pass `/^\d*$/` and are non-empty, in order; `KeptFragmentsDigitRuns`, `PriceElementKeptIff` and `PriceTextKeptIff` state it |
| Extractor.JoinDots | index.js:156 | `join('.')`; `JoinDottedDigits` and `SplitJoin` state it |
| Extractor.StructuredPrice | index.js:143-156 | the price holds only digits and dots, with no leading, trailing or doubled dot, and splits at its dots back into the kept fragments |
| Extractor.CardPrice | index.js:140-159 | the message text wins verbatim; otherwise the structured price; otherwise `"N.A."` |
| Extractor.ProductOf | index.js:124-160 | the `{title, url, price}` record of a card with a price container; `ExtractStep` states that each such card adds exactly this record |
| Extractor.Extract | index.js:119-164 | succeeds exactly when every card has a price container, with one record per card in card order; otherwise fails at the first card without one |
| Extractor.ExtractStep | index.js:123-160 | one more card with a price container appends exactly its record |
| Extractor.ExtractStopsAt | index.js:136-137 | a card without a price container after clean cards is where the page fails |
| Extractor.ExtractProducts | index.js:120-163 | the `forEach`/`push` loop computes `Extract` |
| Extractor.ConcatAppend | index.js:132 | `join('')` distributes over concatenation |
| Extractor.TextSegmentsAppend | index.js:127-131 | the filter/map over children distributes over concatenation |
| Extractor.TitleAppend | index.js:127-132 | the title of two child lists is the two titles joined |
| Extractor.TitleIgnoresElements | index.js:127-132 | a child that is not a text node (an element or any other node) never changes the title, wherever it sits |
| Extractor.TitleTextChild | index.js:127-132 | a text child, wherever it sits, puts its trimmed text into the title at its own place, between the titles of the children before and after it |
| Extractor.ConcatTrimmed | index.js:131-132 | joining trimmed pieces gives a trimmed string |
| Extractor.TitleNoLonger | index.js:127-132 | the title is no longer than the raw text of the text children |
| Extractor.JoinDottedDigits | index.js:156 | joining digit runs with dots gives dotted digits, starting with a digit when non-empty |
| Extractor.SplitDotFreePrefix | index.js:156 | splitting text that starts with a dot-free run attaches the run to the first piece |
| Extractor.SplitJoin | index.js:156 | splitting the joined price at its dots gives back the fragments |
| Extractor.KeptFragmentsAppend | index.js:143-156 | the price filter distributes over concatenation of children |
| Extractor.PriceElementKeptIff | index.js:149-156 | an element child contributes its text exactly when the text is a non-empty digit run, wherever it sits |
| Extractor.PriceTextKeptIff | index.js:146-156 | a text child contributes its trimmed text exactly when that is a non-empty digit run |
| Extractor.SplitDigitPriceExample | index.js:143-156 | children `12`, `$`, `99` give the price `12.99` |
| Search.MatchKey | index.js:169-170 | the key given to the matcher is trimmed |
| Search.CandidateKeys | index.js:169 | one key per record, in record order, each the lower-cased, trimmed title |
| Search.Select | index.js:168-179 | no result exactly for no records; otherwise the record at the matcher's index, unchanged, with the matcher's rating, or a fault when the index is out of range |
| Search.SelectFindsBestMatch | index.js:170-176 | with an in-range matcher, a non-empty list always yields the record at the best index with its rating |
| Search.SearchResult | index.js:111-179 | the outcome of `searchProduct` for a visit; `SearchResultCases` states its cases and `SearchProduct` is proved to compute it |
| Search.SearchResultCases | index.js:111-179 | with an in-range matcher: no result exactly for a page with no cards; a fault exactly for a browser fault or a card without a price container; otherwise one of the page's own records |
| Search.SearchProduct | index.js:111-179 | the method's steps compute `SearchResult` for the page loaded from the search URL |
| Runner.Stamp | index.js:89-92 | a row carries the product's title, URL and price and the label's id and title |
| Runner.CsvWriter.constructor | index.js:25-34 | the writer starts with no rows |
| Runner.CsvWriter.WriteRecords | index.js:92 | the records are appended after the rows already written |
| Runner.Outcomes | index.js:79-87 | one search outcome per label |
| Runner.LabelRows | index.js:89-93 | the rows one label adds: one stamped row when its search found a product, none otherwise; `RowsAreFoundProducts` states it |
| Runner.RowsUpTo | index.js:79-93 | the rows written by the labels from 1000 up to a bound; `Run` is proved to write exactly these and `RowsUpToPrefix` states they only grow |
| Runner.FoundIndices | index.js:79-93 | the labels from 1000 on whose search found a product; `FoundIndicesExact` states it |
| Runner.Run | index.js:76-106 | the writer ends with its old rows followed by one row per label from 1000 on whose search found a product, in label order |
| Runner.RowsUpToPrefix | index.js:79-106 | the rows written so far are always a prefix of the final rows |
| Runner.FoundIndicesExact | index.js:79-93 | the found labels are exactly those from 1000 on whose search found a product, in increasing order |
| Runner.RowsAreFoundProducts | index.js:76-92 | row k is the product of the k-th found label, stamped with that label's id and title; no other rows |
| Runner.BrokenPageWritesNothing | index.js:83-89 | a label whose page has a card without a price container writes no row, and the run goes on |

## Left out

- The browser lifecycle is not modelled: launching, opening and closing
  pages, `goto`, and the page left open when `evaluate` throws. The page is
  the value a `Web` function gives for (request number, URL).
- The PostgreSQL pool and label query are not modelled; the labels are an
  input sequence. A label with a null title is not modelled.
- The CSV file is not modelled. The writer is a sequence of rows, and the
  header is only named in the `Row` datatype.
- `sleepAsync`, the clock, `lastTime` and the console logging are left out:
  they have no effect on the rows.
- `string-similarity`'s `findBestMatch` is not modelled. It is a function
  parameter, with its in-range promise as `ValidMatcher`.
- `querySelector`/`querySelectorAll` matching is not modelled. The model
  starts from what the selectors find, as the `Card` datatype.
- `innerText` rendering is a given string of each element node.
- JsStrings.AsciiLower: folds ASCII letters only, not Unicode `toLowerCase`.
- UriEncoding.PercentEncode: lone surrogates and the `URIError` they raise
  are not modelled. A Dafny `char` is always a Unicode scalar value.
- UriEncoding.FormDecodeOfEncode: the round trip is proved for ASCII
  keywords only. The decoder reads `%XY` as one code point, not as UTF-8
  bytes.
- Runner.Run: the search outcomes come in as a sequence, one per label.
  `Runner.Outcomes` and `Search.SearchProduct` connect that sequence to the
  web and the matcher.
- Search.SearchProduct: `products` and `selectedProduct` are values. The
  `rating` mutation and the later `dbId`/`dbTitle` additions to the same
  object are the fields of `RatedProduct` and `Row`.
- Search.SearchProduct: searches with the corrected URL (`SearchUrlFixed`),
  as listed under Findings. `Site.SearchUrl` is the URL as written.
- Runner.Outcomes: each label's page is loaded from the corrected URL
  (`SearchUrlFixed`), as listed under Findings.
- Runner.BrokenPageWritesNothing: the broken page is the one loaded from the
  corrected URL (`SearchUrlFixed`), as listed under Findings.

## Findings

| source | as written | input that shows it | evidently intended | confidence | as-written member | corrected member |
|---|---|---|---|---|---|---|
| index.js:114 | the keyword is escaped with `encodeURI`, which keeps `&`, `#` and `+`, so they end or change the `Ntt` query value | keyword `Cold & Flu` gives `...?Ntt=Cold%20&%20Flu`, which the endpoint reads as `Cold ` | escape the keyword as one query component with `encodeURIComponent`, so every keyword reaches the endpoint unchanged | not executed | Site.SearchUrlCutsAtAmpersand | Site.SearchUrlFixedCarriesKeyword |
