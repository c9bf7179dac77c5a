/**
 The novels index (`data/novels.json`) and the first pass of
 `scrape_all_novels_complete` (scrape.py:616-670): novels found on the listing
 that the index does not hold yet get their details fetched, merged in and
 appended, and the index is written after each one.
 */
module Novels {
  import opened Wrappers
  import opened Json

  /** A novel record: a JSON object. */
  type Novel = map<string, Value>

  /** `novel.get('slug')`: a missing key reads as null. */
  function SlugOf(n: Novel): Value {
    if "slug" in n then n["slug"] else Null
  }

  /** Some novel of the list has the given slug. */
  predicate HasSlug(novels: seq<Novel>, slug: Value) {
    exists i :: 0 <= i < |novels| && SlugOf(novels[i]) == slug
  }

  /** The position of the first novel with the given slug, or the length of
      the list when there is none. */
  function FirstWithSlug(novels: seq<Novel>, slug: Value): (i: nat)
    ensures i <= |novels|
    ensures i < |novels| ==> SlugOf(novels[i]) == slug
    ensures forall j :: 0 <= j < i ==> SlugOf(novels[j]) != slug
  {
    if novels == [] then 0
    else if SlugOf(novels[0]) == slug then 0
    else 1 + FirstWithSlug(novels[1..], slug)
  }

  /** What `update_novel_in_list` leaves in the list: the first novel with the
      same slug replaced, or the novel appended when none has it. */
  function Upsert(novels: seq<Novel>, updated: Novel): (r: seq<Novel>)
    ensures updated in r
    ensures |novels| <= |r| <= |novels| + 1
  {
    var i := FirstWithSlug(novels, SlugOf(updated));
    if i < |novels| then
      var r := novels[i := updated];
      assert r[i] == updated;
      r
    else novels + [updated]
  }

  /** The index being updated in place. */
  class NovelsIndex {
    var novels: seq<Novel>

    /** `existing_novels_list.copy()`. */
    constructor (loaded: seq<Novel>)
      ensures novels == loaded
    {
      novels := loaded;
    }

    /** `update_novel_in_list`: overwrite the first novel with the same slug,
        or append. The log line reads `updated_novel['title']`, which raises
        when the key is missing. */
    method Update(updated: Novel)
      requires "title" in updated
      modifies this
      ensures novels == Upsert(old(novels), updated)
    {
      var slug := SlugOf(updated);
      for i := 0 to |novels|
        invariant novels == old(novels)
        invariant forall j :: 0 <= j < i ==> SlugOf(novels[j]) != slug
      {
        if SlugOf(novels[i]) == slug {
          novels := novels[i := updated];
          return;
        }
      }
      novels := novels + [updated];
    }
  }

  /** With a novel of the same slug, the list keeps its length, the first
      such novel is replaced and every other entry is unchanged; without one,
      the novel is appended. */
  lemma UpsertEffect(novels: seq<Novel>, updated: Novel)
    ensures HasSlug(novels, SlugOf(updated)) ==>
      var i := FirstWithSlug(novels, SlugOf(updated));
      var r := Upsert(novels, updated);
      |r| == |novels| && r[i] == updated
      && (forall j :: 0 <= j < |novels| && j != i ==> r[j] == novels[j])
      && (forall j :: 0 <= j < i ==> SlugOf(novels[j]) != SlugOf(updated))
    ensures !HasSlug(novels, SlugOf(updated)) ==> Upsert(novels, updated) == novels + [updated]
  {
    var i := FirstWithSlug(novels, SlugOf(updated));
    if i < |novels| {
      assert SlugOf(novels[i]) == SlugOf(updated);
    }
  }

  /** Updating twice with the same novel is updating once. */
  lemma UpsertIdempotent(novels: seq<Novel>, updated: Novel)
    ensures Upsert(Upsert(novels, updated), updated) == Upsert(novels, updated)
  {
    var slug := SlugOf(updated);
    var i := FirstWithSlug(novels, slug);
    var once := Upsert(novels, updated);
    var k := FirstWithSlug(once, slug);
    if i < |novels| {
      assert once[i] == updated;
      assert forall j :: 0 <= j < i ==> once[j] == novels[j];
      assert k == i;
    } else {
      assert once[|novels|] == updated;
      assert forall j :: 0 <= j < |novels| ==> once[j] == novels[j];
      assert k == |novels|;
    }
  }

  // ---------------------------------------------------------------------------
  // The first pass of scrape_all_novels_complete (scrape.py:642-670)

  /** `{**novel, **detail}` when the details fetch gave a non-empty object,
      otherwise the listing record itself. */
  function NovelData(novel: Novel, detail: Option<Novel>): Novel {
    if detail.Some? && detail.value != map[] then novel + detail.value else novel
  }

  /** The listing records are indexed as `novel['slug']` and `novel['title']`. */
  predicate ListingRecord(novel: Novel) {
    "slug" in novel && "title" in novel
  }

  /** A details object carries the slug it was fetched for, as
      `extract_novel_detail` writes it. */
  predicate DetailFor(novel: Novel, detail: Option<Novel>) {
    detail.Some? && "slug" in detail.value ==> "slug" in novel && detail.value["slug"] == novel["slug"]
  }

  /** The inputs of the first pass: listing records, and for each the details
      fetch result. */
  predicate PassInputs(listing: seq<Novel>, details: seq<Option<Novel>>) {
    |details| >= |listing|
    && forall i :: 0 <= i < |listing| ==> ListingRecord(listing[i]) && DetailFor(listing[i], details[i])
  }

  /** The state of the first pass: the index, the newly detailed novels, and
      every index written to disk, in order. */
  datatype PassOne = PassOne(index: seq<Novel>, detailed: seq<Novel>, snapshots: seq<seq<Novel>>)

  /** The first pass over the first `k` listing records. */
  function FirstPassUpTo(loaded: seq<Novel>, listing: seq<Novel>, details: seq<Option<Novel>>, k: nat): (r: PassOne)
    requires k <= |listing| <= |details|
    ensures |r.snapshots| == |r.detailed| <= k
    ensures |loaded| <= |r.index| <= |loaded| + |r.detailed|
  {
    if k == 0 then PassOne(loaded, [], [])
    else
      var prev := FirstPassUpTo(loaded, listing, details, k - 1);
      var novel := listing[k - 1];
      if HasSlug(prev.index, SlugOf(novel)) then prev
      else
        var data := NovelData(novel, details[k - 1]);
        var index := Upsert(prev.index, data);
        PassOne(index, prev.detailed + [data], prev.snapshots + [index])
  }

  /** The first pass: skip listed novels the index already holds (including
      ones added earlier in the pass), fetch and merge the details of the
      others, update the index and write it. */
  method FirstPass(index: NovelsIndex, listing: seq<Novel>, details: seq<Option<Novel>>)
    returns (detailed: seq<Novel>, snapshots: seq<seq<Novel>>)
    requires PassInputs(listing, details)
    modifies index
    ensures
      var r := FirstPassUpTo(old(index.novels), listing, details, |listing|);
      index.novels == r.index && detailed == r.detailed && snapshots == r.snapshots
  {
    detailed, snapshots := [], [];
    for i := 0 to |listing|
      invariant
        var r := FirstPassUpTo(old(index.novels), listing, details, i);
        index.novels == r.index && detailed == r.detailed && snapshots == r.snapshots
    {
      var novel := listing[i];
      var slug := novel["slug"];
      if HasSlug(index.novels, slug) {
        continue;
      }
      var data := NovelData(novel, details[i]);
      NovelDataSlug(novel, details[i]);
      detailed := detailed + [data];
      index.Update(data);
      snapshots := snapshots + [index.novels];
    }
  }

  /** `scrape_all_novels_complete` up to the end of its first pass: no listed
      novel gives an empty result; otherwise the loaded index is copied and
      updated. Returns the index, the novels whose details were fetched and
      the indexes written. */
  method ScrapeAllNovelsPassOne(loaded: seq<Novel>, listing: seq<Novel>, details: seq<Option<Novel>>)
    returns (novels: seq<Novel>, detailed: seq<Novel>, snapshots: seq<seq<Novel>>)
    requires PassInputs(listing, details)
    ensures listing == [] ==> novels == [] && detailed == [] && snapshots == []
    ensures listing != [] ==>
      var r := FirstPassUpTo(loaded, listing, details, |listing|);
      novels == r.index && detailed == r.detailed && snapshots == r.snapshots
  {
    if listing == [] {
      return [], [], [];
    }
    var index := new NovelsIndex(loaded);
    detailed, snapshots := FirstPass(index, listing, details);
    novels := index.novels;
  }

  /** The merged record keeps the listing record's slug. */
  lemma NovelDataSlug(novel: Novel, detail: Option<Novel>)
    requires ListingRecord(novel) && DetailFor(novel, detail)
    ensures SlugOf(NovelData(novel, detail)) == SlugOf(novel)
    ensures "title" in NovelData(novel, detail)
  {
  }

  /** One step of the first pass on the listed `novel`, whose merged record
      is `data`: a novel already in the index changes nothing; otherwise its
      merged record is appended to the index and to the detailed novels, and
      the new index is written. */
  ghost predicate Step(prev: PassOne, r: PassOne, novel: Novel, data: Novel) {
    if HasSlug(prev.index, SlugOf(novel)) then r == prev
    else (SlugOf(data) == SlugOf(novel)
      && r.index == prev.index + [data]
      && r.detailed == prev.detailed + [data]
      && r.snapshots == prev.snapshots + [r.index])
  }

  /** Each round of the pass is one such step. */
  lemma FirstPassStep(loaded: seq<Novel>, listing: seq<Novel>, details: seq<Option<Novel>>, k: nat)
    requires PassInputs(listing, details) && 0 < k <= |listing|
    ensures Step(FirstPassUpTo(loaded, listing, details, k - 1), FirstPassUpTo(loaded, listing, details, k),
      listing[k - 1], NovelData(listing[k - 1], details[k - 1]))
  {
    var prev := FirstPassUpTo(loaded, listing, details, k - 1);
    var novel := listing[k - 1];
    var data := NovelData(novel, details[k - 1]);
    NovelDataSlug(novel, details[k - 1]);
    UpsertEffect(prev.index, data);
  }

  /** The index is the loaded one followed by the detailed novels, and the
      j-th write holds the loaded index and the first j + 1 of them. */
  ghost predicate Appended(loaded: seq<Novel>, r: PassOne) {
    r.index == loaded + r.detailed
    && |r.snapshots| == |r.detailed|
    && (forall j :: 0 <= j < |r.snapshots| ==> r.snapshots[j] == loaded + r.detailed[..j + 1])
  }

  /** The first pass only appends to the loaded index. */
  lemma {:induction false} FirstPassIndex(loaded: seq<Novel>, listing: seq<Novel>, details: seq<Option<Novel>>, k: nat)
    requires PassInputs(listing, details) && k <= |listing|
    ensures Appended(loaded, FirstPassUpTo(loaded, listing, details, k))
  {
    if k > 0 {
      FirstPassIndex(loaded, listing, details, k - 1);
      FirstPassStep(loaded, listing, details, k);
      var prev := FirstPassUpTo(loaded, listing, details, k - 1);
      var r := FirstPassUpTo(loaded, listing, details, k);
      IndexStep(loaded, prev, r, listing[k - 1], NovelData(listing[k - 1], details[k - 1]));
    }
  }

  /** One step of the pass keeps the index the loaded one followed by the
      detailed novels, with one write per detailed novel. */
  lemma IndexStep(loaded: seq<Novel>, prev: PassOne, r: PassOne, novel: Novel, data: Novel)
    requires Appended(loaded, prev)
    requires Step(prev, r, novel, data)
    ensures Appended(loaded, r)
  {
    if !HasSlug(prev.index, SlugOf(novel)) {
      assert r.detailed[..|r.detailed|] == r.detailed;
      forall j | 0 <= j < |prev.snapshots|
        ensures r.snapshots[j] == loaded + r.detailed[..j + 1]
      {
        assert r.detailed[..j + 1] == prev.detailed[..j + 1];
      }
    }
  }

  /** Each detailed novel's slug differs from those of every novel before it
      in the loaded index followed by the detailed novels. */
  ghost predicate Fresh(loaded: seq<Novel>, detailed: seq<Novel>) {
    forall a, i :: 0 <= a < |detailed| && 0 <= i < |loaded| + a ==>
      SlugOf((loaded + detailed)[i]) != SlugOf(detailed[a])
  }

  /** Each detailed novel's slug differs from those of every novel before it
      in the index. */
  lemma {:induction false} FirstPassFresh(loaded: seq<Novel>, listing: seq<Novel>, details: seq<Option<Novel>>, k: nat)
    requires PassInputs(listing, details) && k <= |listing|
    ensures Fresh(loaded, FirstPassUpTo(loaded, listing, details, k).detailed)
  {
    if k > 0 {
      FirstPassFresh(loaded, listing, details, k - 1);
      FirstPassIndex(loaded, listing, details, k - 1);
      FirstPassStep(loaded, listing, details, k);
      var prev := FirstPassUpTo(loaded, listing, details, k - 1);
      var r := FirstPassUpTo(loaded, listing, details, k);
      FreshStep(loaded, prev, r, listing[k - 1], NovelData(listing[k - 1], details[k - 1]));
    }
  }

  /** One step of the pass appends only a novel whose slug the index lacks. */
  lemma FreshStep(loaded: seq<Novel>, prev: PassOne, r: PassOne, novel: Novel, data: Novel)
    requires Appended(loaded, prev)
    requires Fresh(loaded, prev.detailed)
    requires Step(prev, r, novel, data)
    ensures Fresh(loaded, r.detailed)
  {
    if !HasSlug(prev.index, SlugOf(novel)) {
      forall a, i | 0 <= a < |r.detailed| && 0 <= i < |loaded| + a
        ensures SlugOf((loaded + r.detailed)[i]) != SlugOf(r.detailed[a])
      {
        assert (loaded + r.detailed)[i] == (loaded + prev.detailed)[i];
        if a < |prev.detailed| {
          assert r.detailed[a] == prev.detailed[a];
        } else {
          assert (loaded + prev.detailed)[i] == prev.index[i];
        }
      }
    }
  }

  /** The slug of each of the first `k` listed novels is in the index. */
  ghost predicate Covers(index: seq<Novel>, listing: seq<Novel>, k: nat)
    requires k <= |listing|
  {
    forall j :: 0 <= j < k ==> HasSlug(index, SlugOf(listing[j]))
  }

  /** Every listed novel's slug is in the index after the pass reaches it. */
  lemma {:induction false} FirstPassCovers(loaded: seq<Novel>, listing: seq<Novel>, details: seq<Option<Novel>>, k: nat)
    requires PassInputs(listing, details) && k <= |listing|
    ensures Covers(FirstPassUpTo(loaded, listing, details, k).index, listing, k)
  {
    if k > 0 {
      FirstPassCovers(loaded, listing, details, k - 1);
      FirstPassStep(loaded, listing, details, k);
      var prev := FirstPassUpTo(loaded, listing, details, k - 1);
      var r := FirstPassUpTo(loaded, listing, details, k);
      CoversStep(prev, r, listing, k, NovelData(listing[k - 1], details[k - 1]));
    }
  }

  lemma CoversStep(prev: PassOne, r: PassOne, listing: seq<Novel>, k: nat, data: Novel)
    requires 0 < k <= |listing|
    requires Covers(prev.index, listing, k - 1)
    requires Step(prev, r, listing[k - 1], data)
    ensures Covers(r.index, listing, k)
  {
    HasSlugAppend(prev.index, data);
  }

  /** Appending a novel keeps every slug of the list and adds its own. */
  lemma HasSlugAppend(novels: seq<Novel>, novel: Novel)
    ensures HasSlug(novels + [novel], SlugOf(novel))
    ensures forall slug :: HasSlug(novels, slug) ==> HasSlug(novels + [novel], slug)
  {
    assert (novels + [novel])[|novels|] == novel;
    forall slug | HasSlug(novels, slug)
      ensures HasSlug(novels + [novel], slug)
    {
      var i :| 0 <= i < |novels| && SlugOf(novels[i]) == slug;
      assert (novels + [novel])[i] == novels[i];
    }
  }

  /** The first pass only appends: the index is the loaded one followed by
      the newly detailed novels, whose slugs are distinct and absent from the
      loaded index; each write holds the index as it was at that point; and
      every listed novel's slug ends up in the index. */
  lemma FirstPassAppends(loaded: seq<Novel>, listing: seq<Novel>, details: seq<Option<Novel>>)
    requires PassInputs(listing, details)
    ensures
      var r := FirstPassUpTo(loaded, listing, details, |listing|);
      r.index == loaded + r.detailed
      && |r.snapshots| == |r.detailed|
      && (forall j :: 0 <= j < |r.snapshots| ==> r.snapshots[j] == loaded + r.detailed[..j + 1])
      && (forall a, b :: 0 <= a < b < |r.detailed| ==> SlugOf(r.detailed[a]) != SlugOf(r.detailed[b]))
      && (forall a, i :: 0 <= a < |r.detailed| && 0 <= i < |loaded| ==> SlugOf(r.detailed[a]) != SlugOf(loaded[i]))
      && (forall j :: 0 <= j < |listing| ==> HasSlug(r.index, SlugOf(listing[j])))
  {
    var r := FirstPassUpTo(loaded, listing, details, |listing|);
    FirstPassIndex(loaded, listing, details, |listing|);
    FirstPassFresh(loaded, listing, details, |listing|);
    FirstPassCovers(loaded, listing, details, |listing|);
    forall a, b | 0 <= a < b < |r.detailed|
      ensures SlugOf(r.detailed[a]) != SlugOf(r.detailed[b])
    {
      assert (loaded + r.detailed)[|loaded| + a] == r.detailed[a];
    }
    forall a, i | 0 <= a < |r.detailed| && 0 <= i < |loaded|
      ensures SlugOf(r.detailed[a]) != SlugOf(loaded[i])
    {
      assert (loaded + r.detailed)[i] == loaded[i];
    }
  }
}
