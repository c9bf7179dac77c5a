/**
 The crawler's small string helpers: `slugify` (scrape.py:609-614), the slug
 taken from the last segment of a novel's link path (scrape.py:110), and the
 chapter id taken from a chapter link's path (scrape.py:437-441). Regular
 expressions are written out as the character classes they match on ASCII
 text.
 */
module Slugs {
  import opened Wrappers
  import opened Text

  // ---------------------------------------------------------------------------
  // slugify

  /** Characters `[^\w\s-]` does not match: they survive the first substitution. */
  predicate Kept(c: char) {
    IsWordChar(c) || IsSpace(c) || c == '-'
  }

  /** Characters of the class `[-\s]`. */
  predicate IsSep(c: char) {
    c == '-' || IsSpace(c)
  }

  /** The characters a slug is made of: lower-case letters, digits, `_` and `-`. */
  predicate IsSlugChar(c: char) {
    ('a' <= c <= 'z') || IsDigit(c) || c == '_' || c == '-'
  }

  predicate NoUpper(s: string) {
    forall i :: 0 <= i < |s| ==> !('A' <= s[i] <= 'Z')
  }

  /** `re.sub(r'[^\w\s-]', '', s)`: every character outside the class is deleted. */
  function RemoveDisallowed(s: string): (r: string)
    ensures |r| <= |s|
    decreases |s|
  {
    if |s| == 0 then []
    else
      var c := s[|s| - 1];
      RemoveDisallowed(s[..|s| - 1]) + (if Kept(c) then [c] else [])
  }

  /** `re.sub(r'[-\s]+', '-', s)`: every maximal run of hyphens and whitespace
      becomes a single hyphen. */
  function Collapse(s: string): (r: string)
    ensures |r| == 0 <==> |s| == 0
    decreases |s|
  {
    if |s| == 0 then []
    else
      var init := s[..|s| - 1];
      var c := s[|s| - 1];
      var r := Collapse(init);
      if !IsSep(c) then r + [c]
      else if |init| > 0 && IsSep(init[|init| - 1]) then r
      else r + ['-']
  }

  /** `slugify(text)` on ASCII text: lower-case, strip, drop the characters
      outside `[\w\s-]`, then collapse the runs of `[-\s]`. A slug is made of
      lower-case letters, digits, `_` and single hyphens. */
  function Slugify(text: string): (slug: string)
    requires IsAscii(text)
    ensures forall i :: 0 <= i < |slug| ==> IsSlugChar(slug[i])
    ensures NoDoubleHyphen(slug)
  {
    var lowered := Lower(text);
    var stripped := Strip(lowered);
    StripFacts(lowered);
    assert NoUpper(stripped);
    var kept := RemoveDisallowed(stripped);
    RemoveDisallowedKept(stripped);
    CollapseChars(kept);
    CollapseNoDoubleHyphen(kept);
    Collapse(kept)
  }

  /** The word characters of a string, in order. */
  function Words(s: string): string
    decreases |s|
  {
    if |s| == 0 then []
    else
      var c := s[|s| - 1];
      Words(s[..|s| - 1]) + (if IsWordChar(c) then [c] else [])
  }

  /** No two hyphens in a row. */
  predicate NoDoubleHyphen(s: string) {
    forall i :: 0 <= i < |s| - 1 ==> !(s[i] == '-' && s[i + 1] == '-')
  }

  /** The substitution keeps only characters of the class, and introduces
      no capital. */
  lemma {:induction false} RemoveDisallowedKept(s: string)
    ensures forall i :: 0 <= i < |RemoveDisallowed(s)| ==> Kept(RemoveDisallowed(s)[i])
    ensures NoUpper(s) ==> NoUpper(RemoveDisallowed(s))
    decreases |s|
  {
    if |s| > 0 {
      RemoveDisallowedKept(s[..|s| - 1]);
    }
  }

  /** Text made only of characters of the class is left as it is. */
  lemma {:induction false} RemoveDisallowedFixed(s: string)
    requires forall i :: 0 <= i < |s| ==> Kept(s[i])
    ensures RemoveDisallowed(s) == s
    decreases |s|
  {
    if |s| > 0 {
      var init := s[..|s| - 1];
      RemoveDisallowedFixed(init);
      assert s == init + [s[|s| - 1]];
    }
  }

  /** The substitution keeps every word character, in order. */
  lemma {:induction false} RemoveDisallowedWords(s: string)
    ensures Words(RemoveDisallowed(s)) == Words(s)
    decreases |s|
  {
    if |s| > 0 {
      var init := s[..|s| - 1];
      var c := s[|s| - 1];
      RemoveDisallowedWords(init);
      var r0 := RemoveDisallowed(init);
      if Kept(c) {
        WordsSnoc(r0, c);
      } else {
        assert RemoveDisallowed(s) == r0;
      }
    }
  }

  /** The collapsed text holds no whitespace. */
  lemma {:induction false} CollapseNoSpace(s: string)
    ensures forall i :: 0 <= i < |Collapse(s)| ==> !IsSpace(Collapse(s)[i])
    decreases |s|
  {
    if |s| > 0 {
      CollapseNoSpace(s[..|s| - 1]);
    }
  }

  /** The collapsed text ends with a hyphen exactly when the text ends with
      a run of separators. */
  lemma {:induction false} CollapseLast(s: string)
    requires |s| > 0
    ensures IsSep(s[|s| - 1]) <==> Collapse(s)[|Collapse(s)| - 1] == '-'
    decreases |s|
  {
    var init := s[..|s| - 1];
    if |init| > 0 && IsSep(s[|s| - 1]) && IsSep(init[|init| - 1]) {
      CollapseLast(init);
    }
  }

  /** The collapsed text holds no two hyphens in a row. */
  lemma {:induction false} CollapseNoDoubleHyphen(s: string)
    ensures NoDoubleHyphen(Collapse(s))
    decreases |s|
  {
    if |s| > 0 {
      var init := s[..|s| - 1];
      CollapseNoDoubleHyphen(init);
      if |init| > 0 {
        CollapseLast(init);
      }
    }
  }

  /** Collapsing keeps the word characters, in order. */
  lemma {:induction false} CollapseWords(s: string)
    ensures Words(Collapse(s)) == Words(s)
    decreases |s|
  {
    if |s| > 0 {
      var init := s[..|s| - 1];
      var c := s[|s| - 1];
      CollapseWords(init);
      var r0 := Collapse(init);
      if !IsSep(c) {
        WordsSnoc(r0, c);
      } else if !(|init| > 0 && IsSep(init[|init| - 1])) {
        WordsSnoc(r0, '-');
      }
    }
  }

  /** Text already free of whitespace and of double hyphens collapses to itself. */
  lemma {:induction false} CollapseFixed(s: string)
    requires forall i :: 0 <= i < |s| ==> !IsSpace(s[i])
    requires NoDoubleHyphen(s)
    ensures Collapse(s) == s
    decreases |s|
  {
    if |s| > 0 {
      var init := s[..|s| - 1];
      CollapseFixed(init);
      assert s == init + [s[|s| - 1]];
    }
  }

  /** The collapsed text keeps only hyphens and characters of the input that
      are not separators. */
  lemma {:induction false} CollapseChars(s: string)
    requires forall i :: 0 <= i < |s| ==> IsSlugChar(s[i]) || IsSpace(s[i])
    ensures forall i :: 0 <= i < |Collapse(s)| ==> IsSlugChar(Collapse(s)[i])
    decreases |s|
  {
    if |s| > 0 {
      CollapseChars(s[..|s| - 1]);
    }
  }

  lemma WordsSnoc(s: string, c: char)
    ensures Words(s + [c]) == Words(s) + (if IsWordChar(c) then [c] else [])
  {
    assert (s + [c])[..|s|] == s;
  }

  lemma {:induction false} WordsAppend(a: string, b: string)
    ensures Words(a + b) == Words(a) + Words(b)
    decreases |b|
  {
    if |b| > 0 {
      var init := b[..|b| - 1];
      WordsAppend(a, init);
      assert a + b == (a + init) + [b[|b| - 1]];
      WordsSnoc(a + init, b[|b| - 1]);
    } else {
      assert a + b == a;
    }
  }

  lemma {:induction false} WordsOfSpaces(s: string)
    requires forall i :: 0 <= i < |s| ==> IsSpace(s[i])
    ensures Words(s) == []
    decreases |s|
  {
    if |s| > 0 {
      WordsOfSpaces(s[..|s| - 1]);
    }
  }

  /** Dropping leading whitespace keeps the word characters. */
  lemma WordsDropLeft(s: string, n: nat)
    requires n <= |s|
    requires forall i :: 0 <= i < n ==> IsSpace(s[i])
    ensures Words(s[n..]) == Words(s)
  {
    assert s == s[..n] + s[n..];
    WordsAppend(s[..n], s[n..]);
    WordsOfSpaces(s[..n]);
  }

  /** Dropping trailing whitespace keeps the word characters. */
  lemma WordsDropRight(s: string, k: nat)
    requires k <= |s|
    requires forall i :: k <= i < |s| ==> IsSpace(s[i])
    ensures Words(s[..k]) == Words(s)
  {
    assert s == s[..k] + s[k..];
    WordsAppend(s[..k], s[k..]);
    WordsOfSpaces(s[k..]);
  }

  /** Stripping removes whitespace only, never a word character. */
  lemma WordsStrip(s: string)
    ensures Words(Strip(s)) == Words(s)
  {
    var n := LeadingSpaces(s);
    LeadingSpacesAreSpaces(s);
    WordsDropLeft(s, n);
    var left := s[n..];
    TrailingSpacesAreSpaces(left);
    WordsDropRight(left, |left| - TrailingSpaces(left));
  }

  /** Slugifying keeps every letter, digit and underscore of the text, lower-cased
      and in order. */
  lemma SlugifyKeepsWords(text: string)
    requires IsAscii(text)
    ensures Words(Slugify(text)) == Words(Lower(text))
  {
    var stripped := Strip(Lower(text));
    WordsStrip(Lower(text));
    RemoveDisallowedWords(stripped);
    CollapseWords(RemoveDisallowed(stripped));
  }

  /** Lower-casing text without capitals changes nothing. */
  lemma LowerFixed(s: string)
    requires NoUpper(s)
    ensures Lower(s) == s
  {
  }

  /** Slug characters are left alone by each stage of `slugify`. */
  lemma LowerOfSlugChars(s: string)
    requires forall i :: 0 <= i < |s| ==> IsSlugChar(s[i])
    ensures Lower(s) == s
  {
    assert NoUpper(s);
    LowerFixed(s);
  }

  lemma StripOfSlugChars(s: string)
    requires forall i :: 0 <= i < |s| ==> IsSlugChar(s[i])
    ensures Strip(s) == s
  {
    StripNoSpace(s);
  }

  lemma RemoveOfSlugChars(s: string)
    requires forall i :: 0 <= i < |s| ==> IsSlugChar(s[i])
    ensures RemoveDisallowed(s) == s
  {
    assert forall i :: 0 <= i < |s| ==> Kept(s[i]);
    RemoveDisallowedFixed(s);
  }

  /** Slug characters are ASCII. */
  lemma SlugCharsAscii(s: string)
    requires forall i :: 0 <= i < |s| ==> IsSlugChar(s[i])
    ensures IsAscii(s)
  {
  }

  /** Text made of slug characters without double hyphens is its own slug. */
  lemma SlugFixed(s: string)
    requires forall i :: 0 <= i < |s| ==> IsSlugChar(s[i])
    requires NoDoubleHyphen(s)
    requires IsAscii(s)
    ensures Slugify(s) == s
  {
    LowerOfSlugChars(s);
    StripOfSlugChars(s);
    RemoveOfSlugChars(s);
    CollapseFixed(s);
  }

  /** A slug is its own slug. */
  lemma SlugifyIdempotent(text: string)
    requires IsAscii(text)
    ensures IsAscii(Slugify(text))
    ensures Slugify(Slugify(text)) == Slugify(text)
  {
    SlugCharsAscii(Slugify(text));
    SlugFixed(Slugify(text));
  }

  lemma {:induction false} RemoveDisallowedAppend(a: string, b: string)
    ensures RemoveDisallowed(a + b) == RemoveDisallowed(a) + RemoveDisallowed(b)
    decreases |b|
  {
    if |b| > 0 {
      var init := b[..|b| - 1];
      RemoveDisallowedAppend(a, init);
      assert (a + b)[..|a + b| - 1] == a + init;
    } else {
      assert a + b == a;
    }
  }

  lemma CollapseSnocWord(t: string, c: char)
    requires !IsSep(c)
    ensures Collapse(t + [c]) == Collapse(t) + [c]
  {
    assert (t + [c])[..|t|] == t;
  }

  /** Characters outside the separator class pass through `Collapse` unchanged. */
  lemma {:induction false} CollapseAppendWord(s: string, w: string)
    requires forall i :: 0 <= i < |w| ==> !IsSep(w[i])
    ensures Collapse(s + w) == Collapse(s) + w
    decreases |w|
  {
    if |w| > 0 {
      var init := w[..|w| - 1];
      var c := w[|w| - 1];
      CollapseAppendWord(s, init);
      assert s + w == (s + init) + [c];
      CollapseSnocWord(s + init, c);
      assert w == init + [c];
    } else {
      assert s + w == s;
    }
  }

  /** Punctuation goes, and the space between words becomes a hyphen. */
  lemma SlugifyExample(title: string)
    requires title == " Martial Peak!"
    ensures Slugify(title) == "martial-peak"
  {
    var lowered := Lower(title);
    LowerExample(title);
    var stripped := Strip(lowered);
    StripExample(lowered);
    RemoveExample(stripped);
    CollapseExample(RemoveDisallowed(stripped));
  }

  lemma LowerExample(title: string)
    requires title == " Martial Peak!"
    ensures Lower(title) == " martial peak!"
  {
  }

  lemma StripExample(lowered: string)
    requires lowered == " martial peak!"
    ensures Strip(lowered) == "martial peak!"
  {
    assert LeadingSpaces(lowered) == 1;
    assert TrailingSpaces(lowered[1..]) == 0;
  }

  lemma RemoveExample(stripped: string)
    requires stripped == "martial peak!"
    ensures RemoveDisallowed(stripped) == "martial peak"
  {
    assert stripped == "martial peak" + "!";
    RemoveDisallowedAppend("martial peak", "!");
    RemoveDisallowedFixed("martial peak");
    assert RemoveDisallowed("!") == [];
  }

  lemma CollapseExample(kept: string)
    requires kept == "martial peak"
    ensures Collapse(kept) == "martial-peak"
  {
    assert kept == "martial" + " " + "peak";
    CollapseAppendWord("martial" + " ", "peak");
    CollapseFixed("martial");
    assert Collapse("martial" + " ") == "martial" + "-";
  }

  // ---------------------------------------------------------------------------
  // Slug and chapter id from a link path

  /** `path.strip('/').split('/')`. */
  function Segments(path: string): (parts: seq<string>)
    ensures |parts| >= 1
  {
    Split(StripSlashes(path), '/')
  }

  /** `novel_path.strip('/').split('/')[-1]`: the last path segment. */
  function PathSlug(path: string): (slug: string)
    ensures NoSep(slug, '/')
  {
    var parts := Segments(path);
    SplitNoSep(StripSlashes(path), '/');
    parts[|parts| - 1]
  }

  /** The chapter id: the last segment of a path of at least three segments
      whose second-to-last segment is `chapter`; none otherwise. */
  function ChapterIdFromPath(path: string): (id: Option<string>)
    ensures id.Some? ==> NoSep(id.value, '/') && id.value == PathSlug(path)
  {
    var parts := Segments(path);
    SplitNoSep(StripSlashes(path), '/');
    if |parts| >= 3 && parts[|parts| - 2] == "chapter" then Some(parts[|parts| - 1]) else None
  }

  /** `n` slashes. */
  function Slashes(n: nat): (s: string)
    ensures |s| == n && forall i :: 0 <= i < n ==> s[i] == '/'
  {
    seq(n, _ => '/')
  }

  lemma {:induction false} TrimLeftSlashes(m: nat, x: string)
    requires x != [] && x[0] != '/'
    ensures TrimSlashesLeft(Slashes(m) + x) == x
  {
    if m > 0 {
      TrimLeftSlashes(m - 1, x);
      assert (Slashes(m) + x)[1..] == Slashes(m - 1) + x;
    } else {
      assert Slashes(m) + x == x;
    }
  }

  lemma {:induction false} TrimRightSlashes(x: string, n: nat)
    requires x != [] && x[|x| - 1] != '/'
    ensures TrimSlashesRight(x + Slashes(n)) == x
  {
    if n > 0 {
      TrimRightSlashes(x, n - 1);
      assert (x + Slashes(n))[..|x| + n - 1] == x + Slashes(n - 1);
    } else {
      assert x + Slashes(n) == x;
    }
  }

  /** A joined path starts with its first segment and ends with its last. */
  lemma {:induction false} JoinEnds(parts: seq<string>, sep: char)
    requires |parts| >= 1
    ensures |Join(parts, sep)| >= |parts[0]| && Join(parts, sep)[..|parts[0]|] == parts[0]
    ensures |Join(parts, sep)| >= |parts[|parts| - 1]|
    ensures Join(parts, sep)[|Join(parts, sep)| - |parts[|parts| - 1]|..] == parts[|parts| - 1]
    decreases |parts|
  {
    if |parts| > 1 {
      JoinEnds(parts[1..], sep);
      var rest := Join(parts[1..], sep);
      assert Join(parts, sep) == parts[0] + [sep] + rest;
    }
  }

  /** `strip('/')` removes exactly the surrounding slashes. */
  lemma StripSlashesAround(m: nat, x: string, n: nat)
    requires x != [] && x[0] != '/' && x[|x| - 1] != '/'
    ensures StripSlashes(Slashes(m) + x + Slashes(n)) == x
  {
    assert Slashes(m) + x + Slashes(n) == Slashes(m) + (x + Slashes(n));
    TrimLeftSlashes(m, x + Slashes(n));
    TrimRightSlashes(x, n);
  }

  /** A joined path begins with the first character of its first segment and
      ends with the last character of its last one. */
  lemma JoinBoundary(parts: seq<string>, sep: char)
    requires |parts| >= 1 && parts[0] != [] && parts[|parts| - 1] != []
    ensures Join(parts, sep) != []
    ensures Join(parts, sep)[0] == parts[0][0]
    ensures Join(parts, sep)[|Join(parts, sep)| - 1] == parts[|parts| - 1][|parts[|parts| - 1]| - 1]
  {
    JoinEnds(parts, sep);
    var x := Join(parts, sep);
    var last := parts[|parts| - 1];
    assert x[..|parts[0]|][0] == x[0];
    assert x[|x| - |last|..][|last| - 1] == x[|x| - 1];
  }

  /** Surrounding slashes aside, a path made of segments free of `/` whose
      first and last segments are not empty splits back into those segments. */
  lemma SegmentsOfPath(m: nat, parts: seq<string>, n: nat)
    requires |parts| >= 1 && parts[0] != [] && parts[|parts| - 1] != []
    requires forall j :: 0 <= j < |parts| ==> NoSep(parts[j], '/')
    ensures Segments(Slashes(m) + Join(parts, '/') + Slashes(n)) == parts
  {
    var x := Join(parts, '/');
    JoinBoundary(parts, '/');
    StripSlashesAround(m, x, n);
    JoinSplit(parts, '/');
    assert Segments(Slashes(m) + x + Slashes(n)) == Split(x, '/');
  }

  /** The slug of `/<segments>/<slug>/` is `<slug>`. */
  lemma PathSlugRoundTrip(m: nat, parts: seq<string>, n: nat)
    requires |parts| >= 1 && parts[0] != [] && parts[|parts| - 1] != []
    requires forall j :: 0 <= j < |parts| ==> NoSep(parts[j], '/')
    ensures PathSlug(Slashes(m) + Join(parts, '/') + Slashes(n)) == parts[|parts| - 1]
  {
    var path := Slashes(m) + Join(parts, '/') + Slashes(n);
    SegmentsOfPath(m, parts, n);
    PathSlugIsLastSegment(path, parts);
  }

  lemma PathSlugIsLastSegment(path: string, parts: seq<string>)
    requires Segments(path) == parts
    ensures PathSlug(path) == parts[|parts| - 1]
  {
  }

  /** The chapter id of `/<segments>/chapter/<id>` is `<id>`, whatever the
      surrounding slashes. */
  lemma ChapterIdRoundTrip(m: nat, parts: seq<string>, n: nat)
    requires |parts| >= 3 && parts[0] != [] && parts[|parts| - 1] != []
    requires forall j :: 0 <= j < |parts| ==> NoSep(parts[j], '/')
    requires parts[|parts| - 2] == "chapter"
    ensures ChapterIdFromPath(Slashes(m) + Join(parts, '/') + Slashes(n)) == Some(parts[|parts| - 1])
  {
    var path := Slashes(m) + Join(parts, '/') + Slashes(n);
    SegmentsOfPath(m, parts, n);
    ChapterIdOfSegments(path, parts);
  }

  lemma ChapterIdOfSegments(path: string, parts: seq<string>)
    requires Segments(path) == parts
    ensures ChapterIdFromPath(path)
      == if |parts| >= 3 && parts[|parts| - 2] == "chapter" then Some(parts[|parts| - 1]) else None
  {
  }

  /** A path with fewer than three segments, or whose second-to-last segment
      is not `chapter`, has no chapter id. */
  lemma ChapterIdNone(m: nat, parts: seq<string>, n: nat)
    requires |parts| >= 1 && parts[0] != [] && parts[|parts| - 1] != []
    requires forall j :: 0 <= j < |parts| ==> NoSep(parts[j], '/')
    requires |parts| < 3 || parts[|parts| - 2] != "chapter"
    ensures ChapterIdFromPath(Slashes(m) + Join(parts, '/') + Slashes(n)) == None
  {
    var path := Slashes(m) + Join(parts, '/') + Slashes(n);
    SegmentsOfPath(m, parts, n);
    ChapterIdOfSegments(path, parts);
  }
}
