# Link tracker core in Dafny

A model of the parsing core of the link tracker desktop application:

- **`LinkReader`** reads an HTML response line by line. For each physical line
  it cuts out every `<a ... </a>` anchor (`searchLinks`). The overridden
  `readLine` skips lines without an anchor and returns the anchors of the next
  line, joined with `'\n'`. `getCharset` finds the `charset=` parameter of the
  `Content-Type` header. `getLinks` opens the connection and decoder, then
  reads and splits every joined line into one flat list, swallowing any
  `IOException`.
- **`FileUtils.loadPages`** reads a catalog file of `name;url` lines into
  `WebPage` records. Each line is trimmed, cut at its first `;`, and kept only
  when the text after the `;` matches `URL_REGEX`.
- **`WebPage`** holds a name, a URL and a list of links. The Java bean is
  modelled as an immutable record; each setter returns the updated record.

Modules, one file each:

- `Wrappers` (`wrappers.dfy`): `Option`, standing for Java `null`.
- `JavaText` (`java_text.dfy`): the `java.lang.String` operations the code
  relies on. These are `indexOf`, `trim`, `split` with and without a limit,
  `replace(" ", "")`, and `StringJoiner`.
- `WebPages` (`web_page.dfy`).
- `LinkReader` (`link_reader.dfy`).
- `FileUtils` (`file_utils.dfy`).

Inputs the code gets from the outside world are parameters:

- The response body is given as its sequence of physical lines, plus whether
  reading past the last line throws.
- The connection is `Unreachable` when a malformed URL, a failed connect or
  `getInputStream` raises an `IOException`. Otherwise it is `Connected`, with
  its `Content-Type` header (or `None`) and body.
- Whether the platform has a charset of a given legal name is a function
  parameter, `available`.
- The catalog file is `Unopenable`, or its lines together with whether reading
  them fails.

## Where the code and its documentation differ

The model follows the code in each case:

- **The documented catalog format is rejected.**
  - The javadoc of `loadPages` gives the format as `nombre_pagina; url`.
  - The code applies `URL_REGEX` to the part after the `;` *before* trimming it.
  - A line such as `Name; http://example.com` is therefore dropped: its URL
    part starts with a blank, which the `^(http|https)` anchor refuses.
  - Trimming happens only afterwards, when the `WebPage` is built.
  - `FileUtils.BlankAfterSemicolonDropped` proves this for every input.
- **A catalog read error is not turned into an empty list.**
  - The javadoc promises an empty list on any error.
  - Only an `IOException` while opening gives one.
  - A failure while the stream reads lines is an `UncheckedIOException`. The
    `catch (IOException)` does not catch it, so it propagates: the `Escaped`
    outcome.
- **`charset=` with nothing after it.**
  - `getCharset` answers `""`.
  - `InputStreamReader` refuses that name with `UnsupportedEncodingException`.
  - `getLinks` returns `[]`.

## Behaviour worth knowing

- **`getLinks` keeps partial results.**
  - When reading the body throws mid-way, the links already collected are
    returned, not an empty list.
  - `LinkReader.CollectLinks` returns the links of every line read before the
    failure.
- **`searchLinks` resumes one character after the start of the last `</a>`,
  not after its end.** No `<a` can start inside a `</a>`
  (`LinkReader.CloseExcludesOpen`). The anchors found are therefore the same,
  and they never overlap (`LinkReader.ScanFrom`).

## Model

| member | source | states |
|---|---|---|
| JavaText.StartsWith | src/main/java/com/milacanete/linktracker/utils/LinkReader.java:82 | `startsWith(prefix)`: the prefix occurs at position 0, so the string is at least as long as the prefix and begins with exactly its characters |
| JavaText.StartsWithIffPrefix | src/main/java/com/milacanete/linktracker/utils/LinkReader.java:82 | `startsWith(prefix)` holds exactly when the string is the prefix followed by some (possibly empty) rest |
| JavaText.IndexOf | src/main/java/com/milacanete/linktracker/utils/LinkReader.java:43-47 | `indexOf(pat, from)` is the least index at or after `from` where `pat` occurs, or -1 exactly when `pat` occurs nowhere from there |
| JavaText.IndexOfChar | src/main/java/com/milacanete/linktracker/utils/FileUtils.java:39-40 | the first position of a character: -1 iff the character is absent, otherwise it is there and nowhere before |
| JavaText.Trim | src/main/java/com/milacanete/linktracker/utils/FileUtils.java:38 | `trim()` yields a segment of the input that neither starts nor ends with a code point <= U+0020, and everything cut off is such a blank |
| JavaText.TrimOfTrimmed | src/main/java/com/milacanete/linktracker/utils/FileUtils.java:45 | a string that neither starts nor ends with a blank is left unchanged by `trim` |
| JavaText.TrimIdempotent | src/main/java/com/milacanete/linktracker/utils/FileUtils.java:38 | trimming twice gives the same as trimming once |
| JavaText.TrimKeepsAbsent | src/main/java/com/milacanete/linktracker/utils/FileUtils.java:45 | a character absent from a string is absent from its trimmed form |
| JavaText.RemoveChar | src/main/java/com/milacanete/linktracker/utils/LinkReader.java:81 | `replace(" ", "")` leaves no occurrence of the character, introduces no new character, is shorter by exactly the number of occurrences, and leaves a string without the character unchanged |
| JavaText.RemoveCharAppend | src/main/java/com/milacanete/linktracker/utils/LinkReader.java:81 | removal distributes over concatenation, so the remaining characters keep their order |
| JavaText.RemoveCharSingle | src/main/java/com/milacanete/linktracker/utils/LinkReader.java:81 | a single character is dropped exactly when it is the removed one and kept otherwise; with `RemoveCharAppend` this fixes the result as the other characters in their original order |
| JavaText.SplitAll | src/main/java/com/milacanete/linktracker/utils/LinkReader.java:81 | every piece between separators, empty ones included: at least one piece, none holding the separator |
| JavaText.Split | src/main/java/com/milacanete/linktracker/utils/LinkReader.java:81 | `split(";")` gives pieces free of the separator, and the whole string when the separator is absent |
| JavaText.SplitKeepsAbsent | src/main/java/com/milacanete/linktracker/utils/LinkReader.java:81 | a character absent from the input is absent from every piece of `split` |
| JavaText.SplitLimit2 | src/main/java/com/milacanete/linktracker/utils/FileUtils.java:40 | `split(sep, 2)` cuts at the first separator only: two pieces that concatenate back around it, the first free of it; without a separator, the whole string |
| JavaText.Join | src/main/java/com/milacanete/linktracker/utils/LinkReader.java:40-53 | the `StringJoiner("\n")` text of the added pieces; its meaning is fixed by `JoinEmptyIff`, `SplitAllJoin` and `SplitJoin` |
| JavaText.JoinEmptyIff | src/main/java/com/milacanete/linktracker/utils/LinkReader.java:53 | the `StringJoiner` text of non-empty pieces is empty exactly when no piece was added |
| JavaText.SplitAllJoin | src/main/java/com/milacanete/linktracker/utils/LinkReader.java:113 | cutting joined pieces at every separator returns exactly the pieces, provided none holds the separator |
| JavaText.SplitJoin | src/main/java/com/milacanete/linktracker/utils/LinkReader.java:113 | `split("\n")` of text joined with `'\n'` gives back the pieces, when no piece holds `'\n'` and the last is not empty |
| WebPages.NewWebPage | src/main/java/com/milacanete/linktracker/model/WebPage.java:23-27 | the constructor stores name and URL and starts with an empty, non-null link list |
| WebPages.SetPageName | src/main/java/com/milacanete/linktracker/model/WebPage.java:41-43 | `setPageName` changes the name and nothing else |
| WebPages.SetPageUrl | src/main/java/com/milacanete/linktracker/model/WebPage.java:57-59 | `setPageUrl` changes the URL and nothing else |
| WebPages.SetLinksPage | src/main/java/com/milacanete/linktracker/model/WebPage.java:73-75 | `setLinksPage` replaces the whole list (no merge) and changes nothing else |
| WebPages.GettersReturnLastStored | src/main/java/com/milacanete/linktracker/model/WebPage.java:23-75 | after construction and any sequence of setter calls, each getter returns the value of the last matching setter, or the constructor's value if there was none |
| LinkReader.CloseExcludesOpen | src/main/java/com/milacanete/linktracker/utils/LinkReader.java:43 | no `<a` starts inside a `</a>`, so resuming the search one character after the `</a>` start misses nothing |
| LinkReader.OpenExcludesClose | src/main/java/com/milacanete/linktracker/utils/LinkReader.java:47 | the `</a>` search from one past an `<a` cannot land on that `<a` |
| LinkReader.ScanFrom | src/main/java/com/milacanete/linktracker/utils/LinkReader.java:42-51 | every anchor found runs from an `<a` to a later `</a>`, after the starting point, and the anchors are disjoint and in left-to-right order; each anchor opens at the first `<a` after the previous anchor's `</a>` start (or after the starting point) and closes at the first `</a>` after its own `<a` |
| LinkReader.Spans | src/main/java/com/milacanete/linktracker/utils/LinkReader.java:42-51 | the anchors of a whole line: the scan started before the first character |
| LinkReader.Fragments | src/main/java/com/milacanete/linktracker/utils/LinkReader.java:43-49 | one fragment per anchor, each the line's own text from its `<a` through its `</a>`, starting with `<a` and ending with `</a>` |
| LinkReader.FragmentCharsFromLine | src/main/java/com/milacanete/linktracker/utils/LinkReader.java:49 | a fragment contains only characters of its line |
| LinkReader.SearchLinks | src/main/java/com/milacanete/linktracker/utils/LinkReader.java:35-54 | `null` for a `null` line; otherwise `null` exactly when the line yields no fragment |
| LinkReader.ScanFromCovers | src/main/java/com/milacanete/linktracker/utils/LinkReader.java:42-51 | scanning from any point before an `<a` that has a later `</a>` returns an anchor enclosing that `<a` |
| LinkReader.CompleteAnchorsAreCovered | src/main/java/com/milacanete/linktracker/utils/LinkReader.java:42-51 | no complete anchor is lost: every `<a` followed by a `</a>` lies inside a returned anchor |
| LinkReader.SearchLinksNullIff | src/main/java/com/milacanete/linktracker/utils/LinkReader.java:35-54 | `searchLinks` returns `null` exactly when the line has no `<a` with a `</a>` somewhere after it |
| LinkReader.UnclosedOpeningEndsScan | src/main/java/com/milacanete/linktracker/utils/LinkReader.java:47-48 | an `<a` with no later `</a>` stops the scan: every returned anchor ends at or before it |
| LinkReader.ReadLine | src/main/java/com/milacanete/linktracker/utils/LinkReader.java:62-71 | `readLine` returns `null` exactly when no remaining line has an anchor and the input ends cleanly, and throws exactly when none does and reading on fails; otherwise it returns the joined anchors of the first line that has one, having consumed every earlier line and that line |
| LinkReader.LineLinks | src/main/java/com/milacanete/linktracker/utils/LinkReader.java:111-114 | what one line adds to the result: nothing without an anchor, otherwise its joined anchors split on `'\n'` (`LineLinksAreFragments`) |
| LinkReader.LinksOf | src/main/java/com/milacanete/linktracker/utils/LinkReader.java:111-114 | the whole `getLinks` result for a stretch of lines, line by line; characterized by `LinksOfAppend`, `LinksOfSilent` and `LinksOfIsConcatFragments` |
| LinkReader.LinksOfAppend | src/main/java/com/milacanete/linktracker/utils/LinkReader.java:110-114 | nothing carries over between lines: the links of two stretches of lines are the links of each, in order |
| LinkReader.LinksOfSilent | src/main/java/com/milacanete/linktracker/utils/LinkReader.java:110-114 | lines without a complete anchor contribute no link |
| LinkReader.LineLinksAreFragments | src/main/java/com/milacanete/linktracker/utils/LinkReader.java:113 | for a line without `'\n'`, splitting its joined anchors on `'\n'` gives back exactly its anchors in order |
| LinkReader.LinksOfIsConcatFragments | src/main/java/com/milacanete/linktracker/utils/LinkReader.java:110-114 | the split-and-flatten loop yields exactly the anchors of all lines, concatenated in line order |
| LinkReader.LinksOfReadStep | src/main/java/com/milacanete/linktracker/utils/LinkReader.java:110-114 | one returned line contributes the pieces of its text; the lines skipped before it contribute nothing |
| LinkReader.ReadLineProgress | src/main/java/com/milacanete/linktracker/utils/LinkReader.java:110-114 | each successful `readLine` consumes at least one line and keeps "returned pieces plus links still to read" equal to all links; a `null` or failed read leaves none |
| LinkReader.Parameters | src/main/java/com/milacanete/linktracker/utils/LinkReader.java:81 | the header's parameters hold neither a space nor a `;` |
| LinkReader.CharsetValue | src/main/java/com/milacanete/linktracker/utils/LinkReader.java:82-83 | for a parameter starting with `charset=`, `split("=", 2)[1]` exists and is everything after `charset=` |
| LinkReader.FindCharset | src/main/java/com/milacanete/linktracker/utils/LinkReader.java:81-85 | no charset iff no parameter starts with `charset=`; otherwise the text after `charset=` of the first such parameter |
| LinkReader.GetCharset | src/main/java/com/milacanete/linktracker/utils/LinkReader.java:79-88 | `null` for a missing header or when no space-stripped parameter starts with `charset=` (both directions); otherwise the text after `charset=` of the first parameter that starts with it, which holds no space and no `;` |
| LinkReader.DecoderOpens | src/main/java/com/milacanete/linktracker/utils/LinkReader.java:104-109 | the default decoder always opens; a named one opens exactly when the name is legal for `java.nio.charset.Charset` and the platform has it |
| LinkReader.CollectLinks | src/main/java/com/milacanete/linktracker/utils/LinkReader.java:110-115 | the reading loop collects the links of every line read, whether it ends on `null` or on an `IOException` |
| LinkReader.GetLinks | src/main/java/com/milacanete/linktracker/utils/LinkReader.java:95-118 | no links when the connection fails or the charset decoder cannot be made; otherwise the links of all lines, which are the lines' anchors concatenated in order |
| FileUtils.UrlPattern | src/main/java/com/milacanete/linktracker/utils/FileUtils.java:24 | the reference reading of whole-string matching of `URL_REGEX`: `http://` or `https://`, then a non-empty host, a dot, two or more letters, and a tail free of line terminators |
| FileUtils.ScanHost | src/main/java/com/milacanete/linktracker/utils/FileUtils.java:24 | the host scan succeeds iff, beyond the scanned host characters, some dot followed by two letters is preceded only by host characters |
| FileUtils.MatchesHostTldTail | src/main/java/com/milacanete/linktracker/utils/FileUtils.java:24 | the executable test of `[a-zA-Z0-9.-]+\.[a-zA-Z]{2,}.*$` agrees with the backtracking reading of the pattern |
| FileUtils.MatchesUrlRegex | src/main/java/com/milacanete/linktracker/utils/FileUtils.java:24 | the executable test agrees with whole-string matching of `URL_REGEX` |
| FileUtils.MatchedUrlStartsWithH | src/main/java/com/milacanete/linktracker/utils/FileUtils.java:24 | a matching string is an `http://` or `https://` URL, so it starts with a non-blank |
| FileUtils.SplitAtFirst | src/main/java/com/milacanete/linktracker/utils/FileUtils.java:40 | `split(";", 2)` of a line holding `;` is the text before and after its first `;` |
| FileUtils.PageOfTrimmed | src/main/java/com/milacanete/linktracker/utils/FileUtils.java:39-45 | the stages after `trim` with the URL test as a parameter; stated by `PageOfTrimmedSpec` |
| FileUtils.PageOfTrimmedSpec | src/main/java/com/milacanete/linktracker/utils/FileUtils.java:39-45 | the pipeline after `trim` keeps a line iff it holds `;` and the text after the first `;` passes the URL test; the page is then that text with the trimmed name before it |
| FileUtils.ParseLine | src/main/java/com/milacanete/linktracker/utils/FileUtils.java:38-45 | one catalog line through the whole pipeline; stated by `ParseLineSpec` and `ParsedPageWellFormed` |
| FileUtils.ParseLineSpec | src/main/java/com/milacanete/linktracker/utils/FileUtils.java:38-45 | a catalog line is kept iff the trimmed line holds `;` and the untrimmed text after its first `;` matches `URL_REGEX`; the page has the trimmed name, that URL, and no links |
| FileUtils.BlankAfterSemicolonDropped | src/main/java/com/milacanete/linktracker/utils/FileUtils.java:43 | a line with a blank (or nothing) right after its first `;` is dropped, whatever URL follows |
| FileUtils.ParsedPageWellFormed | src/main/java/com/milacanete/linktracker/utils/FileUtils.java:38-45 | a kept line gives a page with an `http`/`https` URL, a name without `;`, and an empty link list |
| FileUtils.FilterMap | src/main/java/com/milacanete/linktracker/utils/FileUtils.java:37-46 | the stream keeps at most one page per line; every page comes from some line, and every line's page is kept |
| FileUtils.ParseAll | src/main/java/com/milacanete/linktracker/utils/FileUtils.java:37-46 | the pages of all lines, in file order; stated by `FilterMap`, `ParseAllAppend`, `ParseAllSingle` and `ParsedPagesWellFormed` |
| FileUtils.ParseAllAppend | src/main/java/com/milacanete/linktracker/utils/FileUtils.java:37-46 | the sequential stream keeps file order and carries nothing between lines: the pages of two stretches of lines are the pages of each, in order |
| FileUtils.ParseAllSingle | src/main/java/com/milacanete/linktracker/utils/FileUtils.java:37-46 | one line yields its page exactly when the pipeline keeps it, and no page otherwise |
| FileUtils.ParsedPagesWellFormed | src/main/java/com/milacanete/linktracker/utils/FileUtils.java:37-46 | every loaded page has an `http`/`https` URL, a name without `;`, and no links |
| FileUtils.LoadPages | src/main/java/com/milacanete/linktracker/utils/FileUtils.java:34-51 | an unopenable file gives the empty list; a read failure escapes; otherwise exactly the pages `ParseAll` gives for the lines (so, by `ParseAllAppend` and `ParseAllSingle`, each kept line's page in file order), at most one well-formed page per line |

## Left out

- The network is not modelled: `URL`, `URLConnection` and the HTTP exchange. A
  `Connection` value stands for their outcome.
- Byte-to-character decoding is not modelled. Whether a decoder can be made is
  `DecoderOpens`. The legality of a charset name follows the
  `java.nio.charset.Charset` rules, and availability is the `available`
  parameter.
- `Files.lines` is not modelled: reading the catalog and cutting it at
  `\n`, `\r` and `\r\n` are given as the sequence of lines.
- Closing of streams and readers is not modelled, because the model has no
  resources. `loadPages` uses try-with-resources. `getLinks` never closes its
  reader.
- The `LOGGER` field of `FileUtils` is not modelled: its only use is commented
  out.
- `MessageUtils.java`, `LinkTracker.java` and `module-info.java` are not part of
  this model. They are presentation and module wiring.
- The private `LinkReader` constructor is not modelled separately: it only
  wraps a reader, which `LineStream` stands for.
- `getLinks` with a malformed or `null` URL string is covered by `Unreachable`:
  `new URL` reports both as `MalformedURLException`, an `IOException` that the
  `catch` swallows. Runtime exceptions outside the `IOException` family are not
  modelled.
- Strings are sequences of Unicode scalar values, whereas Java strings are
  UTF-16 code units. Every searched pattern is ASCII and `trim` only looks at
  code points up to U+0020, so the results agree.
- Calling `loadPages` twice on the same file gives the same list. This holds
  by construction, because `LoadPages` is a function of the file.
- WebPages.GettersReturnLastStored: the record is an immutable value, so Java
  reference semantics are not modelled. The constructor and setters accept
  `null`, and after `setLinksPage(null)` the getter returns `null`; here every
  field is a present value. The stored `List` is shared with the caller in
  Java, so a change made through another reference is visible to
  `getLinksPage()`; here the list is a value and only `SetLinksPage` replaces it.
- JavaText.IndexOf: requires a non-empty pattern. Every call in the code
  searches for a non-empty literal (`<a`, `</a>`, `;`, `=`).
- JavaText.Split: models `split` with a one-character literal separator only.
  That is the only way the code calls it (`";"`, `"\n"`).
