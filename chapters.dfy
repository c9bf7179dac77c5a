/**
 Chapter records and the two identity rules the crawler uses for them:
 `is_chapter_exists` (scrape.py:513-520), which decides whether a listed stub
 is queued, and `merge_chapters` (scrape.py:522-535), which decides whether a
 processed chapter joins the stored set.
 */
module Chapters {
  import opened Wrappers

  /** A chapter as `extract_chapter_info` builds it and the processing loop
      fills it in; a `None` field is a JSON null (or a missing key). */
  datatype Chapter = Chapter(
    id: Option<string>,
    number: Option<string>,
    title: Option<string>,
    url: Option<string>,
    originalTime: Option<string>,
    novelSlug: string,
    content: Option<string>,
    scrapedAt: Option<string>,
    contentScrapedAt: Option<string>,
    error: Option<string>)

  /** Python truthiness of an optional string: present and not empty. */
  predicate Truthy(x: Option<string>) {
    x.Some? && x.value != ""
  }

  // ---------------------------------------------------------------------------
  // is_chapter_exists

  /** One step of `is_chapter_exists`: equal ids (two missing ids are equal,
      as `None == None` in Python), or equal numbers together with equal titles. */
  predicate SameChapter(existing: Chapter, candidate: Chapter) {
    existing.id == candidate.id
    || (existing.number == candidate.number && existing.title == candidate.title)
  }

  /** The linear search of `is_chapter_exists`: it answers true exactly when
      some stored chapter has the same id, or the same number and the same
      title, so an empty store never matches. */
  function ChapterExists(existing: seq<Chapter>, candidate: Chapter): (b: bool)
    ensures b <==> exists i :: 0 <= i < |existing| && SameChapter(existing[i], candidate)
  {
    if existing == [] then false
    else
      assert forall i :: 1 <= i < |existing| ==> existing[1..][i - 1] == existing[i];
      SameChapter(existing[0], candidate) || ChapterExists(existing[1..], candidate)
  }

  /** A quirk of comparing ids with `==`: once any stored chapter lacks an id,
      every listed stub without an id counts as already stored, whatever its
      number and title. */
  lemma MissingIdMatchesMissingId(existing: seq<Chapter>, candidate: Chapter, k: nat)
    requires k < |existing| && existing[k].id.None?
    requires candidate.id.None?
    ensures ChapterExists(existing, candidate)
  {
    assert SameChapter(existing[k], candidate);
  }

  // ---------------------------------------------------------------------------
  // merge_chapters

  /** The ids of the stored chapters that have a truthy id. */
  function KnownIds(existing: seq<Chapter>): set<string> {
    set c | c in existing && Truthy(c.id) :: c.id.value
  }

  /** The numbers of the stored chapters that have a truthy number. */
  function KnownNumbers(existing: seq<Chapter>): set<string> {
    set c | c in existing && Truthy(c.number) :: c.number.value
  }

  /** The skip test of `merge_chapters`: the id is among the known ids or the
      number among the known numbers (`None in s` is false in Python). */
  predicate IsKnown(c: Chapter, ids: set<string>, numbers: set<string>) {
    (c.id.Some? && c.id.value in ids) || (c.number.Some? && c.number.value in numbers)
  }

  /** The incoming chapters that pass the skip test, in their order. */
  function Unknown(incoming: seq<Chapter>, ids: set<string>, numbers: set<string>): (r: seq<Chapter>)
    ensures |r| <= |incoming|
  {
    if incoming == [] then []
    else
      var last := incoming[|incoming| - 1];
      Unknown(incoming[..|incoming| - 1], ids, numbers)
      + (if IsKnown(last, ids, numbers) then [] else [last])
  }

  /** What `merge_chapters` returns: the stored chapters, then the incoming
      chapters whose id and number are both unknown to the stored ones. The
      known sets come from `existing` only. */
  function Merge(existing: seq<Chapter>, incoming: seq<Chapter>): (r: seq<Chapter>)
    ensures |existing| <= |r| <= |existing| + |incoming|
    ensures r[..|existing|] == existing
  {
    existing + Unknown(incoming, KnownIds(existing), KnownNumbers(existing))
  }

  /** `merge_chapters`: copy the stored list, build the two sets, then append
      every incoming chapter that passes the skip test. */
  method MergeChapters(existing: seq<Chapter>, incoming: seq<Chapter>) returns (merged: seq<Chapter>)
    ensures merged == Merge(existing, incoming)
  {
    merged := existing;
    var ids: set<string> := {};
    var numbers: set<string> := {};
    for j := 0 to |existing|
      invariant ids == KnownIds(existing[..j])
      invariant numbers == KnownNumbers(existing[..j])
    {
      KnownSnoc(existing[..j], existing[j]);
      assert existing[..j + 1] == existing[..j] + [existing[j]];
      if Truthy(existing[j].id) {
        ids := ids + {existing[j].id.value};
      }
      if Truthy(existing[j].number) {
        numbers := numbers + {existing[j].number.value};
      }
    }
    assert existing[..|existing|] == existing;
    for i := 0 to |incoming|
      invariant merged == existing + Unknown(incoming[..i], ids, numbers)
    {
      assert incoming[..i + 1][..i] == incoming[..i];
      var c := incoming[i];
      if (c.id.Some? && c.id.value in ids) || (c.number.Some? && c.number.value in numbers) {
        continue;
      }
      merged := merged + [c];
    }
    assert incoming[..|incoming|] == incoming;
  }

  lemma KnownSnoc(s: seq<Chapter>, c: Chapter)
    ensures KnownIds(s + [c]) == KnownIds(s) + (if Truthy(c.id) then {c.id.value} else {})
    ensures KnownNumbers(s + [c]) == KnownNumbers(s) + (if Truthy(c.number) then {c.number.value} else {})
  {
    assert forall x :: x in s + [c] <==> x in s || x == c;
  }

  lemma KnownAppend(a: seq<Chapter>, b: seq<Chapter>)
    ensures KnownIds(a + b) == KnownIds(a) + KnownIds(b)
    ensures KnownNumbers(a + b) == KnownNumbers(a) + KnownNumbers(b)
  {
    assert forall x :: x in a + b <==> x in a || x in b;
  }

  /** The filter distributes over concatenation: it keeps the incoming order. */
  lemma {:induction false} UnknownAppend(a: seq<Chapter>, b: seq<Chapter>, ids: set<string>, numbers: set<string>)
    ensures Unknown(a + b, ids, numbers) == Unknown(a, ids, numbers) + Unknown(b, ids, numbers)
    decreases |b|
  {
    if b != [] {
      var b' := b[..|b| - 1];
      assert (a + b)[..|a + b| - 1] == a + b';
      UnknownAppend(a, b', ids, numbers);
    } else {
      assert a + b == a;
    }
  }

  /** Every incoming chapter is kept as many times as it occurs when it is
      unknown, and dropped altogether when it is known. */
  lemma {:induction false} UnknownCounts(incoming: seq<Chapter>, ids: set<string>, numbers: set<string>, c: Chapter)
    ensures multiset(Unknown(incoming, ids, numbers))[c] ==
      if IsKnown(c, ids, numbers) then 0 else multiset(incoming)[c]
  {
    if incoming != [] {
      var init := incoming[..|incoming| - 1];
      UnknownCounts(init, ids, numbers, c);
      assert incoming == init + [incoming[|incoming| - 1]];
    }
  }

  /** The filter is empty exactly when every incoming chapter is known. */
  lemma {:induction false} UnknownEmptyIff(incoming: seq<Chapter>, ids: set<string>, numbers: set<string>)
    ensures Unknown(incoming, ids, numbers) == [] <==>
      forall i :: 0 <= i < |incoming| ==> IsKnown(incoming[i], ids, numbers)
  {
    if incoming != [] {
      var init := incoming[..|incoming| - 1];
      UnknownEmptyIff(init, ids, numbers);
      assert forall i :: 0 <= i < |init| ==> init[i] == incoming[i];
    }
  }

  /** With larger known sets the filter keeps nothing new. */
  lemma {:induction false} UnknownShrinks(incoming: seq<Chapter>, ids: set<string>, numbers: set<string>, ids': set<string>, numbers': set<string>)
    requires ids <= ids' && numbers <= numbers'
    requires forall i :: 0 <= i < |incoming| && !IsKnown(incoming[i], ids, numbers) ==> IsKnown(incoming[i], ids', numbers')
    ensures Unknown(incoming, ids', numbers') == []
  {
    UnknownEmptyIff(incoming, ids', numbers');
  }

  /** A chapter that carries a truthy id or a truthy number. */
  predicate Identified(c: Chapter) {
    Truthy(c.id) || Truthy(c.number)
  }

  /** The merged list starts with the stored chapters unchanged; what follows
      are exactly the unknown incoming chapters, each with its multiplicity. */
  lemma MergeShape(existing: seq<Chapter>, incoming: seq<Chapter>, c: Chapter)
    ensures |Merge(existing, incoming)| >= |existing|
    ensures Merge(existing, incoming)[..|existing|] == existing
    ensures multiset(Merge(existing, incoming)[|existing|..])[c] ==
      if IsKnown(c, KnownIds(existing), KnownNumbers(existing)) then 0 else multiset(incoming)[c]
  {
    var m := Merge(existing, incoming);
    assert m[|existing|..] == Unknown(incoming, KnownIds(existing), KnownNumbers(existing));
    UnknownCounts(incoming, KnownIds(existing), KnownNumbers(existing), c);
  }

  /** Merging one batch after another is merging their concatenation, as long
      as the known sets do not change in between; in particular the incoming
      order is kept. */
  lemma MergeConcat(existing: seq<Chapter>, a: seq<Chapter>, b: seq<Chapter>)
    ensures Merge(existing, a + b) ==
      Merge(existing, a) + Unknown(b, KnownIds(existing), KnownNumbers(existing))
  {
    UnknownAppend(a, b, KnownIds(existing), KnownNumbers(existing));
  }

  /** Re-merging the same batch changes nothing exactly when every chapter of
      the batch has a truthy id or a truthy number; a chapter with neither is
      never recognised and is appended again on every merge. */
  lemma MergeIdempotentIff(existing: seq<Chapter>, incoming: seq<Chapter>)
    ensures Merge(Merge(existing, incoming), incoming) == Merge(existing, incoming) <==>
      forall i :: 0 <= i < |incoming| ==> Identified(incoming[i])
  {
    var ids, numbers := KnownIds(existing), KnownNumbers(existing);
    var added := Unknown(incoming, ids, numbers);
    var m := Merge(existing, incoming);
    KnownAppend(existing, added);
    var ids', numbers' := KnownIds(m), KnownNumbers(m);
    if forall i :: 0 <= i < |incoming| ==> Identified(incoming[i]) {
      forall i | 0 <= i < |incoming| && !IsKnown(incoming[i], ids, numbers)
        ensures IsKnown(incoming[i], ids', numbers')
      {
        var c := incoming[i];
        assert c in incoming;
        UnknownCounts(incoming, ids, numbers, c);
        assert c in multiset(added);
        assert c in added;
        assert Truthy(c.id) ==> c.id.value in KnownIds(added);
        assert Truthy(c.number) ==> c.number.value in KnownNumbers(added);
      }
      UnknownShrinks(incoming, ids, numbers, ids', numbers');
      assert Merge(m, incoming) == m + [];
    } else {
      var i :| 0 <= i < |incoming| && !Identified(incoming[i]);
      var c := incoming[i];
      assert c in incoming;
      UnknownCounts(incoming, ids', numbers', c);
      assert !IsKnown(c, ids', numbers');
      assert |Unknown(incoming, ids', numbers')| > 0;
      assert |Merge(m, incoming)| > |m|;
    }
  }

  /** A batch holding the same unknown chapter twice keeps both copies: the
      known sets are not updated while the batch is scanned. */
  lemma DuplicatesInBatchKept(existing: seq<Chapter>, c: Chapter)
    requires !IsKnown(c, KnownIds(existing), KnownNumbers(existing))
    ensures Merge(existing, [c, c]) == existing + [c, c]
  {
    var ids, numbers := KnownIds(existing), KnownNumbers(existing);
    assert [c, c][..1] == [c];
    assert [c][..0] == [];
    assert Unknown([c], ids, numbers) == [c];
    assert Unknown([c, c], ids, numbers) == [c, c];
  }

  /** A stored chapter with the same truthy number suppresses an incoming one,
      whatever its title or content. */
  lemma NumberMatchDrops(existing: seq<Chapter>, k: nat, c: Chapter)
    requires k < |existing| && Truthy(existing[k].number) && c.number == existing[k].number
    ensures Merge(existing, [c]) == existing
  {
    assert existing[k] in existing;
    assert c.number.value in KnownNumbers(existing);
    assert [c][..0] == [];
    assert Unknown([c], KnownIds(existing), KnownNumbers(existing)) == [];
  }

  /** A stored chapter with the same truthy id suppresses an incoming one,
      whatever its number or content: the first write wins. */
  lemma IdMatchDrops(existing: seq<Chapter>, k: nat, c: Chapter)
    requires k < |existing| && Truthy(existing[k].id) && c.id == existing[k].id
    ensures Merge(existing, [c]) == existing
  {
    assert existing[k] in existing;
    assert c.id.value in KnownIds(existing);
    assert [c][..0] == [];
    assert Unknown([c], KnownIds(existing), KnownNumbers(existing)) == [];
  }

  function Stub(id: Option<string>, number: Option<string>, title: Option<string>, content: Option<string>): Chapter {
    Chapter(id, number, title, None, None, "novel", content, None, None, None)
  }

  /** Two dedup cases: an incoming chapter with the id
      "c1" is dropped although it brings content, and an incoming chapter
      without id numbered "5" is dropped although its title differs. */
  lemma DedupExamples()
    ensures Merge([Stub(Some("c1"), Some("1"), None, None)], [Stub(Some("c1"), Some("1"), None, Some("X"))])
      == [Stub(Some("c1"), Some("1"), None, None)]
    ensures Merge([Stub(None, Some("5"), Some("Foo"), None)], [Stub(None, Some("5"), Some("Bar"), None)])
      == [Stub(None, Some("5"), Some("Foo"), None)]
  {
    IdMatchDrops([Stub(Some("c1"), Some("1"), None, None)], 0, Stub(Some("c1"), Some("1"), None, Some("X")));
    NumberMatchDrops([Stub(None, Some("5"), Some("Foo"), None)], 0, Stub(None, Some("5"), Some("Bar"), None));
  }
}
