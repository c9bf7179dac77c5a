# Chapter bookkeeping of the scrapnov crawler, in Dafny

This project models the deterministic core of `scrape.py`. That file holds a single-class crawler. It reads a novel catalogue site, fetches every chapter of each novel, and keeps the results in per-novel JSON documents. The crawl can be resumed.

Every network fetch becomes an input sequence of outcomes. Every clock reading becomes a given timestamp. Every `time.sleep` becomes a recorded wait. Once these replacements are made, what remains is sequential logic over lists and records, and the model covers it:

- **Chapter identity and merge** (module `Chapters`):
  - `is_chapter_exists` decides whether a listed stub is queued. It matches on an equal id, or on an equal number together with an equal title.
  - `merge_chapters` appends the chapters whose id and number are both unknown to the stored set.
- **Sort pass** (module `ChapterSort`): `sort_chapters` is Python's stable `sorted`, keyed by `chapter_key`:
  - the number read as a decimal;
  - else the first `\d+\.?\d*` token in it;
  - else `float('inf')`.
- **Content retry** (module `ContentRetry`): `get_chapter_content_with_retry` is a bounded loop over fetch outcomes. It returns the first body longer than ten characters once stripped, and records the waits it takes.
- **Collection and processing** (module `Collector`): `get_all_chapters_for_novel` does four things:
  - it walks the chapter listing page by page and queues the stubs not already stored;
  - it processes every queued chapter;
  - it writes a partial document after every tenth chapter and after the last one;
  - it returns the stored chapters merged with the new ones, sorted.
- **Novels index** (module `Novels`):
  - `update_novel_in_list` overwrites or appends in place, on a `NovelsIndex` object;
  - the first pass of `scrape_all_novels_complete` skips known slugs, merges details over listing records and writes the index after each novel.
- **String helpers** (modules `Text` and `Slugs`):
  - `slugify`;
  - the slug taken from the last segment of a novel's link path;
  - the chapter id taken from a chapter link's path.

The imperative parts of the source are methods proved against specification functions:
- the listing walk (`CollectChapterStubs`);
- the processing loop (`ProcessChapters`);
- the retry loop (`GetChapterContentWithRetry`);
- the merge loop (`MergeChapters`);
- the in-place index update (`NovelsIndex.Update`);
- the first-pass loop (`FirstPass`).

The lemmas state what the source promises about those functions.

Three details of the retry loop, as the code has them:

- The loop waits only after an attempt that raised. An attempt that finds no content element, or finds too short a body, retries at once.
- A body is accepted only when its stripped length is more than 10. A body of exactly 10 characters is rejected.
- Waits grow linearly: `delay * (attempt + 1)`.

## Model

| member | source | states |
|---|---|---|
| Chapters.ChapterExists | scrape.py:513-520 | A stub counts as existing iff some stored chapter has an equal id, or both an equal number and an equal title. Two missing ids count as equal. An empty stored list never matches. |
| Chapters.MissingIdMatchesMissingId | scrape.py:515 | A stub without an id matches any stored chapter without an id, whatever their numbers. |
| Chapters.Merge | scrape.py:522-535 | The merge starts with the stored chapters, unchanged and in order, and appends at most one chapter per incoming one. |
| Chapters.Unknown | scrape.py:529-533 | The filter keeps at most the incoming chapters. |
| Chapters.MergeChapters | scrape.py:522-535 | The merge loop returns the copy of the stored chapters extended by the incoming chapters that pass the id and number test, in order. |
| Chapters.MergeShape | scrape.py:522-535 | The stored chapters are an unchanged prefix of the merge. Each incoming chapter occurs after that prefix exactly as often as in the batch when unknown, and not at all when its id or number is known. |
| Chapters.UnknownCounts | scrape.py:529-533 | The surviving incoming chapters form the sub-multiset of the batch whose id and number are both unknown. |
| Chapters.UnknownEmptyIff | scrape.py:529-533 | Nothing is appended iff every incoming chapter has a known id or number. |
| Chapters.UnknownAppend | scrape.py:529-533 | Filtering a concatenated batch is filtering each part, so order is kept. |
| Chapters.UnknownShrinks | scrape.py:525-533 | With larger known sets that cover every survivor, nothing survives. |
| Chapters.KnownSnoc | scrape.py:525-526 | The known id and number sets gain exactly the truthy id and number of an added chapter. |
| Chapters.KnownAppend | scrape.py:525-526 | The known sets of a concatenation are the unions. |
| Chapters.MergeConcat | scrape.py:525-533 | The known sets come from the stored chapters only: merging `a + b` is merging `a`, then appending the survivors of `b` under the same sets. |
| Chapters.MergeIdempotentIff | scrape.py:525-533 | Merging the same batch twice gives the same result iff every chapter of the batch has a truthy id or number. |
| Chapters.DuplicatesInBatchKept | scrape.py:525-533 | An unknown chapter listed twice in one batch is appended twice. |
| Chapters.NumberMatchDrops | scrape.py:530-531 | A stored chapter with the same truthy number drops an incoming chapter, even one with a different title. |
| Chapters.IdMatchDrops | scrape.py:530 | A stored chapter with the same truthy id drops an incoming chapter, even one carrying content. |
| Chapters.DedupExamples | scrape.py:522-535 | Two concrete cases: an id match drops the content-bearing copy, and a number match drops a retitled chapter. |
| ChapterSort.ChapterKey | scrape.py:501-509 | A number sorts last (key `inf`) iff it holds no decimal digit. Python's finite keys can also overflow to `inf`; see "Left out". |
| ChapterSort.ChapterKeyOfDigits | scrape.py:503-504 | A string of digits keys as its value. |
| ChapterSort.ChapterKeyOfNat | scrape.py:503-504 | The decimal rendering of `n` keys as `n`. |
| ChapterSort.NatToStringValue | scrape.py:503-504 | Reading back the decimal rendering of `n` gives `n`. |
| ChapterSort.ChapterKeyOfDecimal | scrape.py:503-504 | `whole.frac` keys as its decimal value, which Python's `float()` then rounds to the nearest double. |
| ChapterSort.ParseUnsignedDecimal | scrape.py:503-504 | The decimal reader reads `whole.frac` as its value. |
| ChapterSort.ParseDecimalHasDigit | scrape.py:503-504 | Whatever reads as a decimal holds a digit. |
| ChapterSort.ParseUnsignedHasDigit | scrape.py:503-504 | Whatever the unsigned reader accepts holds a digit. |
| ChapterSort.ParseUnsignedNoLead | scrape.py:503-505 | A body that starts with neither a digit nor a point is not a decimal. |
| ChapterSort.ParseDecimalLetter | scrape.py:503-505 | A number that starts with a letter is not a decimal, so the token fallback applies. |
| ChapterSort.FirstNumberToken | scrape.py:506-508 | The token fallback finds a value iff the string holds a digit. |
| ChapterSort.FirstDigit | scrape.py:506 | The token search starts at the first digit, and everything before it is not a digit. |
| ChapterSort.FirstNumberTokenDigits | scrape.py:506-508 | After a digit-free prefix, the first token of `prefix + digits` is the value of `digits`. |
| ChapterSort.ChapterKeyOfToken | scrape.py:505-508 | A number that starts with a letter and then holds digits keys as the value of those digits. |
| ChapterSort.DigitRun | scrape.py:506 | The leading digit run is all digits, and maximal. |
| ChapterSort.DigitRunAll | scrape.py:506 | The leading digit run of an all-digit string is the whole string. |
| ChapterSort.DigitRunPrefix | scrape.py:506 | The leading digit run stops at the first non-digit. |
| ChapterSort.KeyLeTotal | scrape.py:511 | The key order is total and antisymmetric. |
| ChapterSort.InsertPermutation | scrape.py:511 | Insertion adds exactly one element. |
| ChapterSort.InsertSorted | scrape.py:511 | Insertion keeps a sorted list sorted. |
| ChapterSort.InsertWithKey | scrape.py:511 | Insertion puts the element ahead of the equal-key elements already present. |
| ChapterSort.SortByPermutation | scrape.py:511 | The sort returns a permutation of its input. |
| ChapterSort.SortBySorted | scrape.py:511 | The sort output's keys never decrease. |
| ChapterSort.SortByStable | scrape.py:511 | The sort is stable: the elements of each key keep their input order. |
| ChapterSort.SortChapters | scrape.py:499-511 | `sort_chapters` returns the same chapters, each as often as in its input. |
| ChapterSort.SortChaptersCorrect | scrape.py:499-511 | `sort_chapters` returns a permutation of the chapters that is non-decreasing by key and stable on ties. |
| ChapterSort.SortFive | scrape.py:511 | Keys 3, 1, 2.5, 10 and inf are ordered 1, 2.5, 3, 10, inf. |
| ChapterSort.ExampleKeys | scrape.py:501-509 | "3", "1", "2.5", "abc 10" and "xyz" key as 3, 1, 2.5, 10 and inf. |
| ChapterSort.SortExample | scrape.py:499-511 | Chapters numbered "3", "1", "2.5", "abc 10" and "xyz" sort as "1", "2.5", "3", "abc 10", "xyz". |
| ChapterSort.KeyOfDecimalExample | scrape.py:503-504 | "2.5" keys as 2.5. |
| ChapterSort.KeyOfTokenExample | scrape.py:505-508 | "abc 10" keys as 10 through the token fallback. |
| ChapterSort.KeyOfWordExample | scrape.py:509 | "xyz" keys as inf. |
| ChapterSort.KeyOfOneDigit | scrape.py:503-504 | A single digit keys as its value. |
| ContentRetry.GetChapterContentWithRetry | scrape.py:465-497 | The retry loop returns the first accepted body among the first `max_retries` outcomes, makes exactly the fetches the specification counts, and takes exactly the specified waits. |
| ContentRetry.FetchesBound | scrape.py:467 | The loop never makes more than `max_retries` fetches. When it returns nothing, it made all of them. |
| ContentRetry.FetchesLastAccepted | scrape.py:482-483 | A body is returned iff the last fetch made was accepted, and the body returned is that fetch's. |
| ContentRetry.FetchesFrom | scrape.py:467-483 | The fetches counted from attempt `k` stay within the outcomes. |
| ContentRetry.RetryFirstAccepted | scrape.py:467-483 | A returned body is the first accepted one: every earlier attempt failed. |
| ContentRetry.RetryNoneIff | scrape.py:480-497 | Nothing is returned iff no attempt within the budget yields an accepted body. |
| ContentRetry.RetryFrom | scrape.py:467-483 | A returned body is more than 10 characters long once stripped. |
| ContentRetry.WaitsFollowRaised | scrape.py:489-493 | Every wait is `delay * (k + 1)` for a 0-based attempt `k` that raised and was not the last allowed. There are at most `max_retries - 1` waits. |
| ContentRetry.NoWaitWithoutRaise | scrape.py:484-487 | Missing elements and short bodies never wait. |
| ContentRetry.WaitsWhenAllRaise | scrape.py:489-495 | When every attempt raises, the waits are `delay, 2*delay, ...`, one per attempt except after the last allowed one. |
| ContentRetry.RetryExhaustionExample | scrape.py:465-497 | Three raised attempts give no content, after exactly three fetches and waits of 2 and 4 seconds. |
| Collector.ExistingChapters | scrape.py:267-271 | Without a truthy stored data set there are no stored chapters. |
| Collector.CollectChapterStubs | scrape.py:276-310 | The listing walk returns the specified queue. It stops at the first page that failed, has no stubs or has no "Next" link, and fetches no page after it. |
| Collector.Queued | scrape.py:276-310 | Every queued stub was listed on some page and does not exist among the stored chapters. |
| Collector.QueueNewStubs | scrape.py:292-294 | Appending a page's stubs adds exactly those that do not exist among the stored chapters, in page order. |
| Collector.NewStubsAreNew | scrape.py:292-294 | Every queued stub of a page comes from that page and does not exist among the stored chapters. |
| Collector.QueuedAreNew | scrape.py:276-310 | Every queued stub was listed on some page and does not exist among the stored chapters. |
| Collector.WalkStopsAt | scrape.py:276-310 | The queue is the new stubs of the pages before the stopping page, concatenated in page order, followed by the stopping page's new stubs. |
| Collector.FailedPageKeepsQueue | scrape.py:308-310 | A failed page ends the walk and keeps the stubs queued so far. |
| Collector.EmptyPageStops | scrape.py:287-290 | A page without stubs ends the walk even when it has a "Next" link. |
| Collector.LastPageWithoutNext | scrape.py:292-303 | A page without a "Next" link contributes its new stubs and ends the walk. |
| Collector.Processed | scrape.py:322-338 | A processed chapter keeps its id, number, title, url, original time and novel slug, and is stamped with the start time. With a url, its content is the body the retry loop returns and it is stamped with the fetch time. The content is then more than 10 characters long once stripped. Without a body it holds "Failed to fetch content". Without a url it holds "No chapter URL available" and keeps its old fetch time. |
| Collector.ProcessChapter | scrape.py:322-338 | One iteration's work on a chapter gives the specified processed chapter. |
| Collector.ProcessAll | scrape.py:316-341 | Processing keeps the number of chapters. |
| Collector.ProcessAllAt | scrape.py:316-341 | The `i`-th new chapter is the `i`-th queued chapter processed with its own environment: each chapter appears once, in order. |
| Collector.ProcessChapters | scrape.py:315-356 | The processing loop returns every queued chapter processed, in order, and writes exactly the specified partial documents. |
| Collector.CheckpointsUpTo | scrape.py:344 | Checkpoints lie between 1 and the count reached. |
| Collector.CheckpointsIff | scrape.py:344 | `k` is a checkpoint iff `k % 10 == 0` or `k == n`. The checkpoints are strictly increasing. |
| Collector.CheckpointsBetween | scrape.py:344 | Counts that are not checkpoints add none. |
| Collector.CheckpointExamples | scrape.py:344 | 23 chapters give checkpoints 10, 20 and 23; 0 chapters give none. |
| Collector.SavesAtCheckpoints | scrape.py:340-345 | The partial documents written are one per checkpoint `k`, in order, each holding the first `k` processed chapters. |
| Collector.SavesFor | scrape.py:344-345 | One document per checkpoint. |
| Collector.SavesForSnoc | scrape.py:344-345 | A further checkpoint adds its document at the end. |
| Collector.PartialNovelInfo | scrape.py:372-373 | `novel_info` is the stored one, or `{}` when the stored set lacks it, or `{"slug": slug}` without a stored set. |
| Collector.PartialSaveDocument | scrape.py:365-386 | A partial document is marked partial, names the novel and its save time, reports its own chapter count, and reads "`<n>` chapters processed". Its chapters are the stored ones merged with the new ones, unsorted. |
| Collector.GetAllChaptersForNovel | scrape.py:260-363 | The whole collection returns the stored chapters merged with the processed queue and sorted, and writes exactly one partial document per checkpoint. |
| Collector.UnknownProcessed | scrape.py:321-360 | Processing changes no id or number, so the same chapters survive the final merge with the same numbers. |
| Collector.ProcessedMergeNumbered | scrape.py:359-360 | If the merge of the queue is numbered, so is the merge of the processed queue, and the final sort applies. |
| Collector.FinalIsLastSaveSorted | scrape.py:342-360 | With a non-empty queue, the result is the last partial document's chapters, sorted. |
| Collector.LastSaveIsMerge | scrape.py:344-345 | The last partial document holds every processed chapter merged into the stored ones. |
| Collector.AllChapters | scrape.py:359-360 | The result holds every stored chapter, each at least as often as stored, and at most one more chapter per queued stub. |
| Collector.FinalIsSortedMerge | scrape.py:359-360 | The result is a permutation of the stored chapters merged with the new ones, ordered by chapter key; chapters with equal keys keep their merged order (the sort is stable). |
| Novels.FirstWithSlug | scrape.py:562-564 | The search finds the first novel with the slug, or reports that none has it. |
| Novels.NovelsIndex.constructor | scrape.py:635-636 | The index starts as a copy of the loaded list. |
| Novels.NovelsIndex.Update | scrape.py:559-571 | The update overwrites, in place, the first novel with the same slug, or appends the novel. |
| Novels.Upsert | scrape.py:559-571 | The updated novel is in the list afterwards, which grows by at most one. |
| Novels.UpsertEffect | scrape.py:559-571 | With a match, the length is kept, the first match is replaced and every other entry is unchanged. Without one, the novel is appended. |
| Novels.UpsertIdempotent | scrape.py:559-571 | Updating twice with the same novel is updating once. |
| Novels.NovelDataSlug | scrape.py:654-658 | Merging details over a listing record keeps its slug and has a `title` key; the detail page's title, possibly null, replaces the listing's. |
| Novels.FirstPass | scrape.py:642-664 | The first-pass loop leaves the specified index in the object and returns the detailed novels and every index it wrote. |
| Novels.ScrapeAllNovelsPassOne | scrape.py:616-664 | An empty listing gives an empty result. Otherwise the loaded index is copied and passed through the first pass. |
| Novels.FirstPassUpTo | scrape.py:642-664 | The pass writes the index once per detailed novel, never more often than novels were listed. The index never shrinks and grows by at most one per detailed novel. |
| Novels.FirstPassStep | scrape.py:642-664 | A listed novel whose slug is already indexed is skipped. Any other is merged with its details and appended, and the index is written. |
| Novels.FirstPassIndex | scrape.py:642-664 | The index is always the loaded list followed by the detailed novels, and the `j`-th write holds the first `j + 1` of them. |
| Novels.FirstPassFresh | scrape.py:648-650 | No detailed novel shares its slug with a loaded novel or with an earlier detailed one. |
| Novels.FirstPassCovers | scrape.py:642-664 | After the pass, every listed slug is in the index. |
| Novels.FirstPassAppends | scrape.py:642-664 | Every newly detailed novel is appended. The detailed list has distinct slugs, none of them among the loaded ones. Every listed slug ends up indexed. |
| Novels.HasSlugAppend | scrape.py:568 | Appending a novel makes its slug present and keeps every slug present. |
| Slugs.RemoveDisallowed | scrape.py:612 | Removing characters never lengthens the text. |
| Slugs.RemoveDisallowedKept | scrape.py:612 | After `re.sub(r'[^\w\s-]', '', t)` only word characters, whitespace and hyphens remain. |
| Slugs.RemoveDisallowedFixed | scrape.py:612 | Text made of allowed characters is unchanged. |
| Slugs.RemoveDisallowedWords | scrape.py:612 | The word characters are all kept, in order. |
| Slugs.RemoveDisallowedAppend | scrape.py:612 | The removal works character by character. |
| Slugs.Collapse | scrape.py:613 | Collapsing runs of hyphens and whitespace gives empty output only for empty input. |
| Slugs.CollapseNoSpace | scrape.py:613 | After `re.sub(r'[-\s]+', '-', t)` no whitespace remains. |
| Slugs.CollapseLast | scrape.py:613 | The output ends with a hyphen iff the input ends with a hyphen or whitespace. |
| Slugs.CollapseNoDoubleHyphen | scrape.py:613 | The output never holds two hyphens in a row. |
| Slugs.CollapseWords | scrape.py:613 | The word characters are all kept, in order. |
| Slugs.CollapseFixed | scrape.py:613 | Text without whitespace or double hyphens is unchanged. |
| Slugs.CollapseChars | scrape.py:613 | Collapsing slug characters and whitespace leaves slug characters. |
| Slugs.CollapseSnocWord | scrape.py:613 | A word character is copied through. |
| Slugs.CollapseAppendWord | scrape.py:613 | A run of word characters is copied through. |
| Slugs.WordsSnoc | scrape.py:609-614 | Word characters of `s + [c]` are those of `s`, plus `c` when it is a word character. |
| Slugs.WordsAppend | scrape.py:609-614 | The word characters of a concatenation are those of each part. |
| Slugs.WordsOfSpaces | scrape.py:611 | Whitespace holds no word characters. |
| Slugs.WordsDropLeft | scrape.py:611 | Dropping leading whitespace keeps the word characters. |
| Slugs.WordsDropRight | scrape.py:611 | Dropping trailing whitespace keeps the word characters. |
| Slugs.WordsStrip | scrape.py:611 | `strip()` keeps the word characters. |
| Slugs.Slugify | scrape.py:609-614 | A slug holds only lower-case letters, digits, `_` and `-`, and no two hyphens in a row. |
| Slugs.SlugifyKeepsWords | scrape.py:609-614 | A slug holds exactly the lower-cased word characters of the title, in order. |
| Slugs.LowerFixed | scrape.py:611 | Text without capitals is its own lower case. |
| Slugs.LowerOfSlugChars | scrape.py:611 | Slug characters are their own lower case. |
| Slugs.StripOfSlugChars | scrape.py:611 | Slug characters are their own strip. |
| Slugs.RemoveOfSlugChars | scrape.py:612 | Slug characters survive the removal. |
| Slugs.SlugCharsAscii | scrape.py:609-614 | Slug characters are ASCII. |
| Slugs.SlugFixed | scrape.py:609-614 | A well-formed slug is its own slug. |
| Slugs.SlugifyIdempotent | scrape.py:609-614 | Slugifying a slug gives it back. |
| Slugs.SlugifyExample | scrape.py:609-614 | " Martial Peak!" becomes "martial-peak". |
| Slugs.LowerExample | scrape.py:611 | " Martial Peak!" lower-cases to " martial peak!". |
| Slugs.StripExample | scrape.py:611 | " martial peak!" strips to "martial peak!". |
| Slugs.RemoveExample | scrape.py:612 | "martial peak!" loses its "!". |
| Slugs.CollapseExample | scrape.py:613 | "martial peak" becomes "martial-peak". |
| Slugs.Segments | scrape.py:110 | Splitting a path always gives at least one segment. |
| Slugs.PathSlug | scrape.py:110 | The slug from a link path holds no slash. |
| Slugs.PathSlugRoundTrip | scrape.py:110 | For slash-free segments joined by `/` and padded with slashes, the slug is the last segment. |
| Slugs.SegmentsOfPath | scrape.py:110 | Stripping the padding slashes and splitting gives the joined segments back. |
| Slugs.StripSlashesAround | scrape.py:110 | `strip('/')` removes exactly the padding slashes. |
| Slugs.TrimLeftSlashes | scrape.py:110 | Leading slashes are removed, and nothing more. |
| Slugs.TrimRightSlashes | scrape.py:110 | Trailing slashes are removed, and nothing more. |
| Slugs.JoinEnds | scrape.py:110 | A joined path starts with its first segment and ends with its last. |
| Slugs.JoinBoundary | scrape.py:110 | A joined path of non-empty end segments starts and ends with their characters. |
| Slugs.ChapterIdFromPath | scrape.py:437-441 | A chapter id has no slash and is the last path segment. |
| Slugs.ChapterIdRoundTrip | scrape.py:437-441 | A path `.../chapter/<id>` gives back `<id>`. |
| Slugs.ChapterIdNone | scrape.py:437-441 | A path with fewer than three segments, or without "chapter" before the last, gives no id. |
| Text.LeadingSpaces | scrape.py:482 | The leading whitespace count stops at a non-space. |
| Text.LeadingSpacesAreSpaces | scrape.py:482 | Every counted leading character is whitespace. |
| Text.TrailingSpaces | scrape.py:482 | The trailing whitespace count stops at a non-space. |
| Text.TrailingSpacesAreSpaces | scrape.py:482 | Every counted trailing character is whitespace. |
| Text.Strip | scrape.py:482 | `strip()` output neither starts nor ends with whitespace. |
| Text.StripFacts | scrape.py:482 | `strip()` gives empty output iff the text is all whitespace, and its output is the contiguous part of the text that starts after the leading whitespace. |
| Text.StripNoSpace | scrape.py:482 | Text that neither starts nor ends with whitespace is its own strip. |
| Text.TrimSlashesLeft | scrape.py:110 | The result does not start with a slash. |
| Text.TrimSlashesRight | scrape.py:110 | The result is a prefix of the text that does not end with a slash. |
| Text.StripSlashes | scrape.py:110 | `strip('/')` output neither starts nor ends with a slash. |
| Text.LowerChar | scrape.py:611 | A lower-cased character is not a capital, and only capitals change. |
| Text.Lower | scrape.py:611 | `lower()` maps each character on its own and keeps the length. |
| Text.IndexOf | scrape.py:110 | The separator search stops at the first separator, or at the end. |
| Text.IndexOfFirst | scrape.py:110 | No separator comes before the one found. |
| Text.IndexOfPrefix | scrape.py:110 | The first separator after a separator-free prefix is at the end of that prefix. |
| Text.Split | scrape.py:110 | `split('/')` always gives at least one piece. |
| Text.SplitJoin | scrape.py:110 | Joining the pieces of a split gives the text back. |
| Text.SplitNoSep | scrape.py:110 | No piece of a split holds the separator. |
| Text.JoinSplit | scrape.py:110 | Splitting a join of separator-free pieces gives the pieces back. |
| Text.NatToString | scrape.py:381 | `str(n)` is a non-empty string of digits without a leading zero. |

## Left out

- HTTP requests, `raise_for_status` and BeautifulSoup are not modelled. This covers `extract_novel_info`, `extract_novel_detail`, `extract_chapters_from_page`, `extract_chapter_info`, `get_text`, script removal and the "Next Page" link test. Each fetch is an input: a `ListingPage`, an `Attempt`, or a details object.
- Novel-list pagination is not modelled. `get_novel_list_paginated` and `build_novel_list_url` sit outside the chapter bookkeeping, and the listed novels are an input.
- File I/O is not modelled: `json.dump`, `json.load`, `os.makedirs` and `load_existing_*`. The documents and index snapshots the crawler would write are returned as values. A failed write, logged and ignored at scrape.py:394-395, cannot happen in the model.
- `time.sleep` is not modelled. Retry waits are returned as a list; the fixed one- and two-second pauses between pages, chapters and novels are dropped.
- Clock readings are not modelled. `get_current_timestamp` is replaced by timestamps supplied per chapter (`ChapterEnv`).
- Logging is not modelled.
- The per-chapter `except` branch at scrape.py:347-353 is not modelled. Once fetches are inputs, nothing in the `try` block can raise.
- The second pass of `scrape_all_novels_complete` (scrape.py:672-698) is not modelled. Neither is `save_complete_novel_to_json`. Both only load, call the modelled collection, and write.
- `urljoin` and `urlparse` are not modelled. The chapter id is derived from an already-extracted path string.
- Dictionary aliasing is not modelled. Chapters are values, so the in-place mutation of a queued stub dict, shared with the page list, is a record update.
- A JSON key that is missing and a key that holds null are both `None`. Where the source tells them apart, the model does not:
  - `chapter.get('number', '0')` keys a chapter with no number key as 0;
  - an explicit null number makes `chapter_key` raise.
- The stored data set is modelled by its three keys: `metadata`, `novel_info` and `chapters`. This has two consequences:
  - a stored document that holds only other keys is truthy in Python, so `novel_info` becomes `{}` (scrape.py:373), while the model counts it as absent and writes `{"slug": slug}`;
  - a stored `"chapters": null` makes Python fail at `existing_chapters.copy()` (scrape.py:524), while the model treats it as an empty list.
- ChapterSort.ChapterKey: `float()` also accepts `nan`, `inf`, exponents, underscores and non-ASCII digits and spaces, but the model reads only plain ASCII decimals (optional sign, digits, optional point). Regex `\d` is likewise restricted to ASCII digits.
- ChapterSort.ChapterKey: keys are exact rationals, while Python rounds each to the nearest binary64 double. Two effects follow:
  - numbers that round to the same double tie in Python but are ordered in the model, as "9007199254740992" and "9007199254740993" are;
  - a number beyond about 1.8e308, such as "1" followed by 309 zeros, keys as `inf` in Python and ties with the digit-free numbers. The model gives it a finite key.
- ChapterSort.SortChapters: requires every chapter to have a number. A null number makes `chapter_key` raise at scrape.py:506.
- Collector.GetAllChaptersForNovel: requires every merged chapter to have a number, for the same reason.
- Collector.CollectChapterStubs: requires a page at which the walk stops. A listing that never stops would be walked forever.
- ContentRetry.GetChapterContentWithRetry: requires an outcome for every possible attempt. Outcomes past the first accepted one are never read.
- Collector.ProcessChapters: requires one environment per queued chapter, each with at least three outcomes.
- Novels.NovelsIndex.Update: requires a "title" key. The source's log line reads `updated_novel['title']`, which raises without one.
- Slugs.Slugify: requires ASCII text. Python's `lower()`, `strip()`, `\w` and `\s` follow Unicode, which the model does not.
- ContentRetry.RetryFrom: the length test strips only ASCII whitespace, while Python's `strip()` also removes Unicode whitespace. The body reaches the test already stripped piece by piece by `get_text(separator='\n', strip=True)` (scrape.py:481), so it neither starts nor ends with whitespace of either kind and the two tests agree on every body the crawler sees.
