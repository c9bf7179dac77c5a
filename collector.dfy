/**
 `get_all_chapters_for_novel` (scrape.py:260-363) and the document written by
 `save_partial_novel_data` (scrape.py:365-395): walk the chapter listing,
 queue the stubs not already stored, fetch every queued chapter's content,
 write a partial document at each checkpoint, and return the stored and new
 chapters merged and sorted. Every fetch is replaced by its outcome and every
 clock reading by a given timestamp.
 */
module Collector {
  import opened Wrappers
  import opened Text
  import opened Json
  import opened Chapters
  import opened ChapterSort
  import opened ContentRetry

  // ---------------------------------------------------------------------------
  // The stored data set

  /** A loaded `data/novels/<slug>.json` document, by the three keys the crawler
      reads; `None` is a missing key. */
  datatype Dataset = Dataset(metadata: Option<Value>, novelInfo: Option<Value>, chapters: Option<seq<Chapter>>)

  /** Python truthiness of `existing_data`: present and not an empty dict. */
  predicate DatasetTruthy(data: Option<Dataset>) {
    data.Some? && (data.value.metadata.Some? || data.value.novelInfo.Some? || data.value.chapters.Some?)
  }

  /** The stored chapters: `existing_data['chapters']` when the data set is
      truthy and has that key, else none. */
  function ExistingChapters(data: Option<Dataset>): (r: seq<Chapter>)
    ensures !DatasetTruthy(data) ==> r == []
  {
    if DatasetTruthy(data) && data.value.chapters.Some? then data.value.chapters.value else []
  }

  // ---------------------------------------------------------------------------
  // The listing walk (scrape.py:276-310)

  /** What fetching one listing page yields: an error (the request or the
      parsing raised), or the chapter stubs on the page and whether it shows
      a "Next" link. */
  datatype ListingPage = FetchFailed | Listed(stubs: seq<Chapter>, hasNext: bool)

  /** The walk ends at this page: on an error, on a page without stubs
      (whatever its links say), or on a page without a "Next" link. */
  predicate Stops(p: ListingPage) {
    p.FetchFailed? || |p.stubs| == 0 || !p.hasNext
  }

  /** Some page ends the walk; otherwise the crawler would fetch forever. */
  predicate Terminates(pages: seq<ListingPage>) {
    exists i :: 0 <= i < |pages| && Stops(pages[i])
  }

  /** The stubs of one page that `is_chapter_exists` does not find among the
      stored chapters, in page order. */
  function NewStubs(existing: seq<Chapter>, stubs: seq<Chapter>): seq<Chapter> {
    Filter(stubs, c => !ChapterExists(existing, c))
  }

  /** The elements of `s` that satisfy `keep`, in order. */
  function Filter<T>(s: seq<T>, keep: T -> bool): seq<T> {
    if |s| == 0 then []
    else Filter(s[..|s| - 1], keep) + (if keep(s[|s| - 1]) then [s[|s| - 1]] else [])
  }

  /** The new stubs of one fetched page; a failed fetch has none. */
  function PageNew(existing: seq<Chapter>, p: ListingPage): seq<Chapter> {
    if p.Listed? then NewStubs(existing, p.stubs) else []
  }

  /** The queue the walk builds from page `i + 1` on. */
  function QueuedFrom(existing: seq<Chapter>, pages: seq<ListingPage>, i: nat): seq<Chapter>
    decreases |pages| - i
  {
    if i >= |pages| then []
    else
      match pages[i]
      case FetchFailed => []
      case Listed(stubs, hasNext) =>
        if |stubs| == 0 then []
        else NewStubs(existing, stubs) + (if hasNext then QueuedFrom(existing, pages, i + 1) else [])
  }

  /** The queue the walk builds over `pages`, page 1 first. */
  function Queued(existing: seq<Chapter>, pages: seq<ListingPage>): (queue: seq<Chapter>)
    ensures forall c :: c in queue ==>
      !ChapterExists(existing, c) && exists j :: 0 <= j < |pages| && pages[j].Listed? && c in pages[j].stubs
  {
    QueuedAreNew(existing, pages, 0);
    QueuedFrom(existing, pages, 0)
  }

  /** The new stubs of pages `i + 1 .. n`, with no stopping rule. */
  function GatheredFrom(existing: seq<Chapter>, pages: seq<ListingPage>, i: nat, n: nat): seq<Chapter>
    requires n <= |pages|
    decreases n - i
  {
    if i >= n then [] else PageNew(existing, pages[i]) + GatheredFrom(existing, pages, i + 1, n)
  }

  /** The listing walk. `pages[k]` is what fetching page `k + 1` yields;
      `fetched` is the number of the last page fetched. */
  method CollectChapterStubs(existing: seq<Chapter>, pages: seq<ListingPage>)
    returns (queue: seq<Chapter>, fetched: nat)
    requires Terminates(pages)
    ensures queue == Queued(existing, pages)
    ensures 1 <= fetched <= |pages| && Stops(pages[fetched - 1])
    ensures forall j :: 0 <= j < fetched - 1 ==> !Stops(pages[j])
  {
    queue := [];
    var page := 1;
    while true
      invariant 1 <= page <= |pages|
      invariant forall j :: 0 <= j < page - 1 ==> !Stops(pages[j])
      invariant Queued(existing, pages) == queue + QueuedFrom(existing, pages, page - 1)
      decreases |pages| - page
    {
      var p := pages[page - 1];
      if p.FetchFailed? || |p.stubs| == 0 {
        WalkEndsEmpty(existing, pages, page - 1, queue);
        break;
      }
      ghost var before := queue;
      queue := QueueNewStubs(existing, queue, p.stubs);
      WalkTakesPage(existing, pages, page - 1, Queued(existing, pages), before, queue);
      if !p.hasNext {
        break;
      }
      MorePages(pages, page);
      page := page + 1;
    }
    fetched := page;
  }

  /** The walk ends with the queue it has on a failed or empty page. */
  lemma WalkEndsEmpty(existing: seq<Chapter>, pages: seq<ListingPage>, i: nat, queue: seq<Chapter>)
    requires i < |pages| && (pages[i].FetchFailed? || |pages[i].stubs| == 0)
    requires Queued(existing, pages) == queue + QueuedFrom(existing, pages, i)
    ensures queue == Queued(existing, pages)
  {
    assert queue + [] == queue;
  }

  /** A listed page with stubs adds its new stubs to the queue; the walk ends
      there without a "Next" link and goes on to the next page with one. */
  lemma WalkTakesPage(existing: seq<Chapter>, pages: seq<ListingPage>, i: nat, all: seq<Chapter>,
                      before: seq<Chapter>, queue: seq<Chapter>)
    requires i < |pages| && pages[i].Listed? && |pages[i].stubs| > 0
    requires all == before + QueuedFrom(existing, pages, i)
    requires queue == before + NewStubs(existing, pages[i].stubs)
    ensures !pages[i].hasNext ==> queue == all
    ensures pages[i].hasNext ==> all == queue + QueuedFrom(existing, pages, i + 1)
  {
    if !pages[i].hasNext {
      assert QueuedFrom(existing, pages, i) == NewStubs(existing, pages[i].stubs) + [];
    }
  }

  /** A walk that has passed `page` pages without stopping has more to fetch. */
  lemma MorePages(pages: seq<ListingPage>, page: nat)
    requires Terminates(pages) && page <= |pages|
    requires forall j :: 0 <= j < page ==> !Stops(pages[j])
    ensures page < |pages|
  {
  }

  /** The inner loop over one page: append the stubs `is_chapter_exists`
      does not find. */
  method QueueNewStubs(existing: seq<Chapter>, queue: seq<Chapter>, stubs: seq<Chapter>)
    returns (added: seq<Chapter>)
    ensures added == queue + NewStubs(existing, stubs)
  {
    added := queue;
    for k := 0 to |stubs|
      invariant added == queue + NewStubs(existing, stubs[..k])
    {
      assert stubs[..k + 1][..k] == stubs[..k];
      if !ChapterExists(existing, stubs[k]) {
        added := added + [stubs[k]];
      }
    }
    assert stubs[..|stubs|] == stubs;
  }

  /** Every stub `NewStubs` keeps is on the page and not found by `is_chapter_exists`. */
  lemma {:induction false} NewStubsAreNew(existing: seq<Chapter>, stubs: seq<Chapter>)
    ensures forall c :: c in NewStubs(existing, stubs) ==> c in stubs && !ChapterExists(existing, c)
  {
    if stubs != [] {
      NewStubsAreNew(existing, stubs[..|stubs| - 1]);
    }
  }

  /** The queue holds only stubs listed on a page the walk reached and not
      already stored. */
  lemma {:induction false} QueuedAreNew(existing: seq<Chapter>, pages: seq<ListingPage>, i: nat)
    ensures forall c :: c in QueuedFrom(existing, pages, i) ==>
      !ChapterExists(existing, c) && exists j :: i <= j < |pages| && pages[j].Listed? && c in pages[j].stubs
    decreases |pages| - i
  {
    if i < |pages| && pages[i].Listed? && pages[i].stubs != [] {
      NewStubsAreNew(existing, pages[i].stubs);
      QueuedAreNew(existing, pages, i + 1);
    }
  }

  /** Where the walk stops: with no stop among pages `i + 1 .. s`, the queue
      from page `i + 1` is the new stubs of those pages, plus those of the
      stopping page when it was listed; later pages are never looked at. */
  lemma {:induction false} WalkStopsAt(existing: seq<Chapter>, pages: seq<ListingPage>, i: nat, s: nat)
    requires i <= s < |pages|
    requires forall j :: i <= j < s ==> !Stops(pages[j])
    requires Stops(pages[s])
    ensures QueuedFrom(existing, pages, i) == GatheredFrom(existing, pages, i, s) + PageNew(existing, pages[s])
    decreases s - i
  {
    var here := PageNew(existing, pages[i]);
    if i < s {
      WalkStopsAt(existing, pages, i + 1, s);
      assert QueuedFrom(existing, pages, i) == here + QueuedFrom(existing, pages, i + 1);
      assert GatheredFrom(existing, pages, i, s) == here + GatheredFrom(existing, pages, i + 1, s);
    } else {
      assert GatheredFrom(existing, pages, i, s) + here == here;
      if pages[s].Listed? && |pages[s].stubs| == 0 {
        assert here == [];
      } else if pages[s].Listed? {
        assert QueuedFrom(existing, pages, i) == here + [];
      }
    }
  }

  /** A failing page keeps the queue built from the pages before it. */
  lemma FailedPageKeepsQueue(existing: seq<Chapter>, pages: seq<ListingPage>, s: nat)
    requires s < |pages| && pages[s].FetchFailed?
    requires forall j :: 0 <= j < s ==> !Stops(pages[j])
    ensures Queued(existing, pages) == GatheredFrom(existing, pages, 0, s)
  {
    WalkStopsAt(existing, pages, 0, s);
  }

  /** A page without stubs ends the walk even when it shows a "Next" link. */
  lemma EmptyPageStops(existing: seq<Chapter>, pages: seq<ListingPage>, s: nat)
    requires s < |pages| && pages[s] == Listed([], true)
    requires forall j :: 0 <= j < s ==> !Stops(pages[j])
    ensures Queued(existing, pages) == GatheredFrom(existing, pages, 0, s)
  {
    WalkStopsAt(existing, pages, 0, s);
  }

  /** A page without a "Next" link is the last one whose stubs are queued. */
  lemma LastPageWithoutNext(existing: seq<Chapter>, pages: seq<ListingPage>, s: nat)
    requires s < |pages| && pages[s].Listed? && !pages[s].hasNext
    requires forall j :: 0 <= j < s ==> !Stops(pages[j])
    ensures Queued(existing, pages) == GatheredFrom(existing, pages, 0, s) + NewStubs(existing, pages[s].stubs)
  {
    WalkStopsAt(existing, pages, 0, s);
  }

  // ---------------------------------------------------------------------------
  // Processing one queued chapter (scrape.py:322-343)

  /** What the environment supplies while one chapter is processed: the
      timestamp taken before the fetch, what each fetch attempt yields, the
      timestamp taken after it, and the one a checkpoint after this chapter
      writes into its metadata. */
  datatype ChapterEnv = ChapterEnv(startedAt: string, attempts: seq<Attempt>, finishedAt: string, savedAt: string)

  const FailedToFetch: string := "Failed to fetch content"
  const NoChapterUrl: string := "No chapter URL available"

  /** The chapter after processing: stamped, then either given the fetched
      content or marked with why it has none. */
  function Processed(c: Chapter, env: ChapterEnv): (r: Chapter)
    ensures r.id == c.id && r.number == c.number && r.title == c.title && r.url == c.url
    ensures r.scrapedAt == Some(env.startedAt)
    ensures r.content.Some? ==> Truthy(c.url) && r.content == RetryFrom(env.attempts, 0, MaxRetries)
    ensures r.content.Some? ==> r.error == c.error
    ensures !Truthy(c.url) ==> r.content == None && r.error == Some(NoChapterUrl)
    ensures Truthy(c.url) && r.content.None? ==> r.error == Some(FailedToFetch)
    ensures Truthy(c.url) ==> r.content == RetryFrom(env.attempts, 0, MaxRetries) && r.contentScrapedAt == Some(env.finishedAt)
    ensures !Truthy(c.url) ==> r.contentScrapedAt == c.contentScrapedAt
    ensures r.originalTime == c.originalTime && r.novelSlug == c.novelSlug
    ensures r.content.Some? ==> |Strip(r.content.value)| > 10
  {
    var stamped := c.(scrapedAt := Some(env.startedAt));
    if Truthy(c.url) then
      var content := RetryFrom(env.attempts, 0, MaxRetries);
      var fetched := stamped.(content := content, contentScrapedAt := Some(env.finishedAt));
      if content.Some? then fetched else fetched.(content := None, error := Some(FailedToFetch))
    else stamped.(content := None, error := Some(NoChapterUrl))
  }

  /** Every queued chapter processed in order, each with its own environment. */
  function ProcessAll(queue: seq<Chapter>, envs: seq<ChapterEnv>): (r: seq<Chapter>)
    requires |envs| >= |queue|
    ensures |r| == |queue|
  {
    if queue == [] then []
    else ProcessAll(queue[..|queue| - 1], envs) + [Processed(queue[|queue| - 1], envs[|queue| - 1])]
  }

  lemma {:induction false} ProcessAllAt(queue: seq<Chapter>, envs: seq<ChapterEnv>)
    requires |envs| >= |queue|
    ensures forall i :: 0 <= i < |queue| ==> ProcessAll(queue, envs)[i] == Processed(queue[i], envs[i])
  {
    if queue != [] {
      ProcessAllAt(queue[..|queue| - 1], envs);
    }
  }

  // ---------------------------------------------------------------------------
  // Checkpoints and the partial document (scrape.py:342-344, 365-386)

  /** A partial save happens after the `k`-th of `n` chapters. */
  predicate IsCheckpoint(k: nat, n: nat) {
    k % 10 == 0 || k == n
  }

  /** The processed counts at which partial saves happen, among the first `k` chapters. */
  function CheckpointsUpTo(k: nat, n: nat): (cps: seq<nat>)
    ensures forall j :: 0 <= j < |cps| ==> 1 <= cps[j] <= k
  {
    if k == 0 then [] else CheckpointsUpTo(k - 1, n) + (if IsCheckpoint(k, n) then [k] else [])
  }

  /** The processed counts at which partial saves happen for `n` chapters. */
  function Checkpoints(n: nat): seq<nat> {
    CheckpointsUpTo(n, n)
  }

  /** The checkpoints are exactly the counts `1..n` that are multiples of ten
      or `n` itself, in increasing order. */
  lemma {:induction false} CheckpointsIff(k: nat, n: nat)
    ensures forall j :: j in CheckpointsUpTo(k, n) <==> 1 <= j <= k && IsCheckpoint(j, n)
    ensures forall a, b :: 0 <= a < b < |CheckpointsUpTo(k, n)| ==> CheckpointsUpTo(k, n)[a] < CheckpointsUpTo(k, n)[b]
    ensures forall a :: 0 <= a < |CheckpointsUpTo(k, n)| ==> CheckpointsUpTo(k, n)[a] <= k
  {
    if k > 0 {
      CheckpointsIff(k - 1, n);
    }
  }

  /** Twenty-three chapters are saved after 10, 20 and 23; none are saved for none. */
  lemma CheckpointExamples()
    ensures Checkpoints(23) == [10, 20, 23]
    ensures Checkpoints(0) == []
  {
    CheckpointsBetween(0, 9, 23);
    assert CheckpointsUpTo(10, 23) == [10];
    CheckpointsBetween(10, 19, 23);
    assert CheckpointsUpTo(20, 23) == [10, 20];
    CheckpointsBetween(20, 22, 23);
    assert CheckpointsUpTo(23, 23) == [10, 20, 23];
  }

  /** No checkpoint between `a` and `b` adds nothing to the list. */
  lemma {:induction false} CheckpointsBetween(a: nat, b: nat, n: nat)
    requires a <= b
    requires forall j :: a < j <= b ==> !IsCheckpoint(j, n)
    ensures CheckpointsUpTo(b, n) == CheckpointsUpTo(a, n)
  {
    if a < b {
      CheckpointsBetween(a, b - 1, n);
    }
  }

  /** The `metadata` object of a partial document. */
  datatype Metadata = Metadata(
    scrapedAt: string,
    totalChapters: nat,
    novelSlug: string,
    currentProgress: string,
    isPartialSave: bool)

  /** The document `save_partial_novel_data` writes. */
  datatype PartialDocument = PartialDocument(metadata: Metadata, novelInfo: Value, chapters: seq<Chapter>)

  /** `novel_info` in a partial document: the stored one (an empty object when
      the stored data set lacks it), or `{"slug": novel_slug}` when there is
      no stored data set. */
  function PartialNovelInfo(slug: string, data: Option<Dataset>): (v: Value)
    ensures !DatasetTruthy(data) ==> v == Obj(map["slug" := Str(slug)])
    ensures DatasetTruthy(data) && data.value.novelInfo.Some? ==> v == data.value.novelInfo.value
    ensures DatasetTruthy(data) && data.value.novelInfo.None? ==> v == Obj(map[])
  {
    if DatasetTruthy(data) then
      match data.value.novelInfo
      case Some(info) => info
      case None => Obj(map[])
    else Obj(map["slug" := Str(slug)])
  }

  /** The partial document after `current` chapters have been processed. */
  function PartialSaveDocument(slug: string, data: Option<Dataset>, newChapters: seq<Chapter>, current: nat, savedAt: string)
    : (doc: PartialDocument)
    ensures doc.metadata.isPartialSave && doc.metadata.novelSlug == slug && doc.metadata.scrapedAt == savedAt
    ensures doc.metadata.totalChapters == |doc.chapters|
    ensures doc.metadata.currentProgress == NatToString(current) + " chapters processed"
    ensures doc.chapters == Merge(ExistingChapters(data), newChapters)
  {
    var merged := Merge(ExistingChapters(data), newChapters);
    PartialDocument(
      Metadata(savedAt, |merged|, slug, NatToString(current) + " chapters processed", true),
      PartialNovelInfo(slug, data),
      merged)
  }

  /** A partial document keeps every stored chapter first and in order, and
      holds the stored chapters merged with the new ones, unsorted. */
  lemma PartialDocumentChapters(slug: string, data: Option<Dataset>, newChapters: seq<Chapter>, current: nat, savedAt: string)
    ensures PartialSaveDocument(slug, data, newChapters, current, savedAt).chapters == Merge(ExistingChapters(data), newChapters)
    ensures PartialSaveDocument(slug, data, newChapters, current, savedAt).chapters[..|ExistingChapters(data)|] == ExistingChapters(data)
  {
    var existing := ExistingChapters(data);
    MergeShape(existing, newChapters, Stub(None, None, None, None));
  }

  /** The partial document written once `at` chapters have been processed. */
  function SaveAt(slug: string, data: Option<Dataset>, processed: seq<Chapter>, envs: seq<ChapterEnv>, at: nat)
    : PartialDocument
    requires 1 <= at <= |processed| <= |envs|
  {
    PartialSaveDocument(slug, data, processed[..at], at, envs[at - 1].savedAt)
  }

  /** The partial documents written while the first `k` of the processed
      chapters are appended. */
  function SavesUpTo(slug: string, data: Option<Dataset>, processed: seq<Chapter>, envs: seq<ChapterEnv>, k: nat)
    : seq<PartialDocument>
    requires k <= |processed| <= |envs|
  {
    if k == 0 then []
    else
      SavesUpTo(slug, data, processed, envs, k - 1)
      + (if IsCheckpoint(k, |processed|) then [SaveAt(slug, data, processed, envs, k)] else [])
  }

  /** One partial document per entry of `cps`, in order. */
  function SavesFor(slug: string, data: Option<Dataset>, processed: seq<Chapter>, envs: seq<ChapterEnv>, cps: seq<nat>)
    : (saves: seq<PartialDocument>)
    requires |processed| <= |envs|
    requires forall j :: 0 <= j < |cps| ==> 1 <= cps[j] <= |processed|
    ensures |saves| == |cps|
  {
    seq(|cps|, j requires 0 <= j < |cps| => SaveAt(slug, data, processed, envs, cps[j]))
  }

  lemma SavesForSnoc(slug: string, data: Option<Dataset>, processed: seq<Chapter>, envs: seq<ChapterEnv>, cps: seq<nat>, at: nat)
    requires |processed| <= |envs| && 1 <= at <= |processed|
    requires forall j :: 0 <= j < |cps| ==> 1 <= cps[j] <= |processed|
    ensures SavesFor(slug, data, processed, envs, cps + [at])
      == SavesFor(slug, data, processed, envs, cps) + [SaveAt(slug, data, processed, envs, at)]
  {
  }

  /** The saves line up with the checkpoints: exactly one document per
      checkpoint `k`, in order, holding the first `k` processed chapters
      merged into the stored ones. */
  lemma {:induction false} SavesAtCheckpoints(slug: string, data: Option<Dataset>, processed: seq<Chapter>, envs: seq<ChapterEnv>, k: nat)
    requires k <= |processed| <= |envs|
    ensures SavesUpTo(slug, data, processed, envs, k) == SavesFor(slug, data, processed, envs, CheckpointsUpTo(k, |processed|))
  {
    if k > 0 {
      var n := |processed|;
      SavesAtCheckpoints(slug, data, processed, envs, k - 1);
      if IsCheckpoint(k, n) {
        SavesForSnoc(slug, data, processed, envs, CheckpointsUpTo(k - 1, n), k);
      }
    }
  }

  // ---------------------------------------------------------------------------
  // The processing loop and the result (scrape.py:315-363)

  /** One iteration's work on a queued chapter: stamp it, fetch its content
      when it has a url, and record why it has none otherwise. */
  method ProcessChapter(c: Chapter, env: ChapterEnv) returns (r: Chapter)
    requires |env.attempts| >= MaxRetries
    ensures r == Processed(c, env)
  {
    r := c.(scrapedAt := Some(env.startedAt));
    if Truthy(r.url) {
      var content, _, _ := GetChapterContentWithRetry(env.attempts, MaxRetries, Delay);
      r := r.(content := content, contentScrapedAt := Some(env.finishedAt));
      if content.None? {
        r := r.(content := None, error := Some(FailedToFetch));
      }
    } else {
      r := r.(content := None, error := Some(NoChapterUrl));
    }
  }

  /** How one processed chapter extends the chapters and the saves so far. */
  lemma ProcessStep(slug: string, data: Option<Dataset>, processed: seq<Chapter>, envs: seq<ChapterEnv>, i: nat,
                    newChapters: seq<Chapter>, saves: seq<PartialDocument>)
    requires 1 <= i <= |processed| <= |envs|
    requires newChapters == processed[..i - 1]
    requires saves == SavesUpTo(slug, data, processed, envs, i - 1)
    ensures newChapters + [processed[i - 1]] == processed[..i]
    ensures SavesUpTo(slug, data, processed, envs, i)
      == if IsCheckpoint(i, |processed|)
         then saves + [PartialSaveDocument(slug, data, processed[..i], i, envs[i - 1].savedAt)]
         else saves
  {
    assert processed[..i] == processed[..i - 1] + [processed[i - 1]];
  }

  /** The processing loop: each queued chapter is stamped, fetched with up to
      three attempts and appended; a partial document is written after every
      tenth chapter and after the last. */
  method ProcessChapters(slug: string, data: Option<Dataset>, queue: seq<Chapter>, envs: seq<ChapterEnv>)
    returns (newChapters: seq<Chapter>, saves: seq<PartialDocument>)
    requires |envs| >= |queue|
    requires forall k :: 0 <= k < |envs| ==> |envs[k].attempts| >= MaxRetries
    ensures newChapters == ProcessAll(queue, envs)
    ensures saves == SavesUpTo(slug, data, newChapters, envs, |queue|)
  {
    newChapters, saves := [], [];
    var processedCount := 0;
    ghost var processed := ProcessAll(queue, envs);
    ProcessAllAt(queue, envs);
    for i := 1 to |queue| + 1
      invariant processedCount == i - 1 == |newChapters|
      invariant newChapters == processed[..i - 1]
      invariant saves == SavesUpTo(slug, data, processed, envs, i - 1)
    {
      var env := envs[i - 1];
      var chapter := ProcessChapter(queue[i - 1], env);
      ProcessStep(slug, data, processed, envs, i, newChapters, saves);
      newChapters := newChapters + [chapter];
      processedCount := processedCount + 1;
      if processedCount % 10 == 0 || processedCount == |queue| {
        saves := saves + [PartialSaveDocument(slug, data, newChapters, i, env.savedAt)];
      }
    }
    assert processed[..|queue|] == processed;
  }

  /** What `get_all_chapters_for_novel` returns: the stored chapters merged
      with the processed queue, sorted. */
  function AllChapters(data: Option<Dataset>, pages: seq<ListingPage>, envs: seq<ChapterEnv>): (r: seq<Chapter>)
    requires |envs| >= |Queued(ExistingChapters(data), pages)|
    requires Numbered(Merge(ExistingChapters(data), Queued(ExistingChapters(data), pages)))
    ensures |ExistingChapters(data)| <= |r| <= |ExistingChapters(data)| + |Queued(ExistingChapters(data), pages)|
    ensures multiset(ExistingChapters(data)) <= multiset(r)
  {
    var existing := ExistingChapters(data);
    var queue := Queued(existing, pages);
    ProcessedMergeNumbered(existing, queue, envs);
    var merged := Merge(existing, ProcessAll(queue, envs));
    assert merged == existing + merged[|existing|..];
    SortChapters(merged)
  }

  /** `get_all_chapters_for_novel`: the listing walk, the processing loop and
      the final merge and sort. The sort needs every merged chapter to have a
      number; the loop needs an outcome for every fetch it may make. */
  method GetAllChaptersForNovel(slug: string, data: Option<Dataset>, pages: seq<ListingPage>, envs: seq<ChapterEnv>)
    returns (finalChapters: seq<Chapter>, saves: seq<PartialDocument>)
    requires Terminates(pages)
    requires |envs| >= |Queued(ExistingChapters(data), pages)|
    requires forall k :: 0 <= k < |envs| ==> |envs[k].attempts| >= MaxRetries
    requires Numbered(Merge(ExistingChapters(data), Queued(ExistingChapters(data), pages)))
    ensures finalChapters == AllChapters(data, pages, envs)
    ensures saves == SavesUpTo(slug, data, ProcessAll(Queued(ExistingChapters(data), pages), envs), envs,
                               |Queued(ExistingChapters(data), pages)|)
  {
    var existing := ExistingChapters(data);
    var queue, _ := CollectChapterStubs(existing, pages);
    var newChapters;
    newChapters, saves := ProcessChapters(slug, data, queue, envs);
    ProcessedMergeNumbered(existing, queue, envs);
    var merged := MergeChapters(existing, newChapters);
    finalChapters := SortChapters(merged);
  }

  // ---------------------------------------------------------------------------
  // Properties of the result

  /** Processing changes neither id nor number, so it keeps and drops the same
      queued chapters in the merge. */
  lemma {:induction false} UnknownProcessed(queue: seq<Chapter>, envs: seq<ChapterEnv>, ids: set<string>, numbers: set<string>)
    requires |envs| >= |queue|
    ensures |Unknown(ProcessAll(queue, envs), ids, numbers)| == |Unknown(queue, ids, numbers)|
    ensures forall j :: 0 <= j < |Unknown(queue, ids, numbers)| ==>
      Unknown(ProcessAll(queue, envs), ids, numbers)[j].number == Unknown(queue, ids, numbers)[j].number
  {
    if queue != [] {
      var init := queue[..|queue| - 1];
      UnknownProcessed(init, envs, ids, numbers);
      assert ProcessAll(queue, envs)[..|queue| - 1] == ProcessAll(init, envs);
    }
  }

  /** When the stored and queued chapters merge into numbered chapters, so do
      the stored and processed ones. */
  lemma ProcessedMergeNumbered(existing: seq<Chapter>, queue: seq<Chapter>, envs: seq<ChapterEnv>)
    requires |envs| >= |queue|
    requires Numbered(Merge(existing, queue))
    ensures Numbered(Merge(existing, ProcessAll(queue, envs)))
  {
    var ids, numbers := KnownIds(existing), KnownNumbers(existing);
    UnknownProcessed(queue, envs, ids, numbers);
    var m := Merge(existing, queue);
    var m' := Merge(existing, ProcessAll(queue, envs));
    forall i | 0 <= i < |m'| ensures m'[i].number.Some? {
      if i >= |existing| {
        assert m'[i] == Unknown(ProcessAll(queue, envs), ids, numbers)[i - |existing|];
        assert m[i] == Unknown(queue, ids, numbers)[i - |existing|];
      } else {
        assert m'[i] == m[i];
      }
    }
  }

  /** The final list is the last partial document's chapters, sorted: the
      last checkpoint comes after every queued chapter. */
  lemma FinalIsLastSaveSorted(slug: string, data: Option<Dataset>, pages: seq<ListingPage>, envs: seq<ChapterEnv>)
    requires |envs| >= |Queued(ExistingChapters(data), pages)|
    requires Numbered(Merge(ExistingChapters(data), Queued(ExistingChapters(data), pages)))
    requires Queued(ExistingChapters(data), pages) != []
    ensures
      var queue := Queued(ExistingChapters(data), pages);
      var saves := SavesUpTo(slug, data, ProcessAll(queue, envs), envs, |queue|);
      |saves| > 0 && Numbered(saves[|saves| - 1].chapters)
      && AllChapters(data, pages, envs) == SortChapters(saves[|saves| - 1].chapters)
  {
    var queue := Queued(ExistingChapters(data), pages);
    ProcessedMergeNumbered(ExistingChapters(data), queue, envs);
    LastSaveIsMerge(slug, data, ProcessAll(queue, envs), envs);
  }

  /** The last partial document holds every processed chapter merged into
      the stored ones. */
  lemma LastSaveIsMerge(slug: string, data: Option<Dataset>, processed: seq<Chapter>, envs: seq<ChapterEnv>)
    requires 1 <= |processed| <= |envs|
    ensures
      var saves := SavesUpTo(slug, data, processed, envs, |processed|);
      |saves| > 0 && saves[|saves| - 1].chapters == Merge(ExistingChapters(data), processed)
  {
    assert processed[..|processed|] == processed;
  }

  /** The final list holds exactly the stored chapters and the merged new
      ones, each as often as before, ordered by sort key; chapters with equal
      keys keep their merged order. */
  lemma FinalIsSortedMerge(data: Option<Dataset>, pages: seq<ListingPage>, envs: seq<ChapterEnv>, k: Key)
    requires |envs| >= |Queued(ExistingChapters(data), pages)|
    requires Numbered(Merge(ExistingChapters(data), Queued(ExistingChapters(data), pages)))
    ensures
      var merged := Merge(ExistingChapters(data), ProcessAll(Queued(ExistingChapters(data), pages), envs));
      multiset(AllChapters(data, pages, envs)) == multiset(merged)
      && SortedBy(AllChapters(data, pages, envs), SortKey)
      && WithKey(AllChapters(data, pages, envs), SortKey, k) == WithKey(merged, SortKey, k)
  {
    var existing := ExistingChapters(data);
    var queue := Queued(existing, pages);
    ProcessedMergeNumbered(existing, queue, envs);
    SortChaptersCorrect(Merge(existing, ProcessAll(queue, envs)), k);
  }
}
