/**
 * The chapter index: the short-slug map, the files a slug may live in, the reading order
 * of the mapped chapters, and previous/next navigation in that order.
 */
module ChapterContent {
  import opened Wrappers
  import opened Text
  import opened JsObject
  import Sorting

  /** `chapterSlugMap`, in key order: short slug to file slug. */
  const SlugMap: seq<(string, string)> := [
    ("part0/ch0", "part0/ch0-preface"),
    ("part1/ch1", "part1/ch1-Crystal-Structures"),
    ("part1/ch2", "part1/ch2-Quantum-Energy-Band"),
    ("part1/ch3", "part1/ch3-Statistics-Thermal-Equilibrium"),
    ("part3/ch4", "part3/ch4-Carrier-Transport")
  ]

  /** `Object.keys(chapterSlugMap)`. */
  function Keys(m: seq<(string, string)>): (ks: seq<string>)
    ensures |ks| == |m| && forall i :: 0 <= i < |m| ==> ks[i] == m[i].0
  {
    seq(|m|, i requires 0 <= i < |m| => m[i].0)
  }

  /** The value stored under `k`. */
  function Lookup(m: seq<(string, string)>, k: string): (r: Option<string>)
    ensures r.None? <==> forall i :: 0 <= i < |m| ==> m[i].0 != k
    ensures r.Some? ==> exists i :: 0 <= i < |m| && m[i] == (k, r.value)
  {
    if m == [] then None
    else if m[0].0 == k then Some(m[0].1)
    else Lookup(m[1..], k)
  }

  /**
   * `chapterSlugMap[slug] || slug`: the mapped file slug, or the slug itself. A name the map
   * inherits from `Object.prototype` reads as a function or an object, truthy but not a
   * string: None.
   */
  function MappedSlug(slug: string): Option<string> {
    match Lookup(SlugMap, slug)
    case Some(v) => Some(if v != "" then v else slug)
    case None => if slug in PrototypeMembers then None else Some(slug)
  }

  /**
   * A known slug becomes its file slug; an unknown one is used as it is, unless it names an
   * inherited member, which is exactly when there is no string to use.
   */
  lemma MappedSlugMeaning(slug: string)
    ensures (forall i :: 0 <= i < |SlugMap| ==> SlugMap[i].0 != slug) && slug !in PrototypeMembers
      ==> MappedSlug(slug) == Some(slug)
    ensures forall i :: 0 <= i < |SlugMap| && SlugMap[i].0 == slug ==> MappedSlug(slug) == Some(SlugMap[i].1)
    ensures MappedSlug(slug).None? <==> slug in PrototypeMembers
  {
    if Lookup(SlugMap, slug).Some? {
      SlugMapOwnKeys(slug);
    }
    forall i | 0 <= i < |SlugMap| && SlugMap[i].0 == slug
      ensures MappedSlug(slug) == Some(SlugMap[i].1)
    {
      SlugMapLookupAt(i);
    }
  }

  /** Each short slug looks up its own file slug. */
  lemma SlugMapLookupAt(i: nat)
    requires i < |SlugMap|
    ensures Lookup(SlugMap, SlugMap[i].0) == Some(SlugMap[i].1)
  {
    var m := SlugMap;
    assert m[1..][1..][1..][1..] == [m[4]];
    if i == 0 {
    } else if i == 1 {
      assert Lookup(m, m[1].0) == Lookup(m[1..], m[1].0);
    } else if i == 2 {
      assert Lookup(m, m[2].0) == Lookup(m[1..][1..], m[2].0);
    } else if i == 3 {
      assert Lookup(m, m[3].0) == Lookup(m[1..][1..][1..], m[3].0);
    } else {
      assert Lookup(m, m[4].0) == Lookup(m[1..][1..][1..][1..], m[4].0);
    }
  }

  /**
   * Every short slug has nine characters and starts with `p`; the only nine-character
   * inherited name starts with `_`. So no short slug is an inherited member name.
   */
  lemma SlugMapOwnKeys(slug: string)
    requires Lookup(SlugMap, slug).Some?
    ensures slug !in PrototypeMembers
  {
    SlugKeysShape();
    MembersOfNine();
  }

  lemma SlugKeysShape()
    ensures forall i :: 0 <= i < |SlugMap| ==> |SlugMap[i].0| == 9 && SlugMap[i].0[0] == 'p'
  {
    assert SlugMap[0].0 == "part0/ch0" && SlugMap[1].0 == "part1/ch1" && SlugMap[2].0 == "part1/ch2";
    assert SlugMap[3].0 == "part1/ch3" && SlugMap[4].0 == "part3/ch4";
  }

  lemma MembersOfNine()
    ensures forall m :: m in PrototypeMembers && |m| == 9 ==> m[0] == '_'
  {
  }

  // ----- getChapterBySlug: where the file is looked for -----

  /** The paths tried, relative to the content directory, in order. */
  function CandidatePaths(mapped: string): (ps: seq<string>)
    ensures 4 <= |ps| <= 6
  {
    var base := "chapters/" + mapped;
    [base + ".mdx", base + ".md", base + "/index.mdx", base + "/index.md"]
      + if '/' in mapped then [base + ".mdx", base + ".md"] else []
  }

  /** The first path `read` can read, with its contents. */
  function FirstReadable(ps: seq<string>, read: string -> Option<string>): (r: Option<(string, string)>)
    ensures r.None? <==> forall i :: 0 <= i < |ps| ==> read(ps[i]).None?
    ensures r.Some? ==> exists i :: (0 <= i < |ps| && ps[i] == r.value.0 && read(ps[i]) == Some(r.value.1)
      && forall j :: 0 <= j < i ==> read(ps[j]).None?)
  {
    if ps == [] then None
    else match read(ps[0])
      case Some(text) => Some((ps[0], text))
      case None =>
        var r := FirstReadable(ps[1..], read);
        assert r.Some? ==> exists i :: (0 <= i < |ps| && ps[i] == r.value.0 && read(ps[i]) == Some(r.value.1)
          && forall j :: 0 <= j < i ==> read(ps[j]).None?) by {
          if r.Some? {
            var i :| 0 <= i < |ps[1..]| && ps[1..][i] == r.value.0 && read(ps[1..][i]) == Some(r.value.1)
              && forall j :: 0 <= j < i ==> read(ps[1..][j]).None?;
            assert ps[i + 1] == r.value.0;
            assert forall j :: 0 <= j < i + 1 ==> read(ps[j]).None? by {
              forall j | 0 <= j < i + 1 ensures read(ps[j]).None? {
                if j > 0 { assert ps[j] == ps[1..][j - 1]; }
              }
            }
          }
        }
        r
  }

  /**
   * The file a slug resolves to: the first readable candidate for its mapped slug, or
   * None (the source logs and returns `null`). `read` stands for `readFileSync`. Without a
   * string mapped slug, `mappedSlug.includes` throws before any read, and the surrounding
   * `try` returns `null` too.
   */
  function ChapterFile(slug: string, read: string -> Option<string>): Option<(string, string)> {
    match MappedSlug(slug)
    case None => None
    case Some(mapped) => FirstReadable(CandidatePaths(mapped), read)
  }

  /** A slug naming an inherited member finds no file, whatever can be read. */
  lemma InheritedSlugHasNoFile(slug: string, read: string -> Option<string>)
    requires slug in PrototypeMembers
    ensures ChapterFile(slug, read).None?
  {
    MappedSlugMeaning(slug);
  }

  /**
   * The two paths added for slugs with a `/` repeat the first two, so they never change
   * the outcome: the file is found among the four basic candidates or not at all.
   */
  lemma ChapterFileBasicCandidates(slug: string, read: string -> Option<string>)
    requires MappedSlug(slug).Some?
    ensures ChapterFile(slug, read) == FirstReadable(CandidatePaths(MappedSlug(slug).value)[..4], read)
  {
    CandidatesBasic(MappedSlug(slug).value, read);
  }

  /** For any mapped slug, the first readable candidate is among the first four. */
  lemma CandidatesBasic(mapped: string, read: string -> Option<string>)
    ensures FirstReadable(CandidatePaths(mapped), read) == FirstReadable(CandidatePaths(mapped)[..4], read)
  {
    var ps := CandidatePaths(mapped);
    var r := FirstReadable(ps, read);
    var r4 := FirstReadable(ps[..4], read);
    if |ps| == 6 {
      assert ps[4] == ps[0] && ps[5] == ps[1];
    }
    if r4.Some? {
      var i :| 0 <= i < 4 && ps[..4][i] == r4.value.0 && read(ps[..4][i]) == Some(r4.value.1)
        && forall j :: 0 <= j < i ==> read(ps[..4][j]).None?;
      FirstReadableAt(ps, read, i);
      FirstReadableAt(ps[..4], read, i);
    }
  }

  /** When `ps[i]` is the first readable path, it is the one found. */
  lemma {:induction false} FirstReadableAt(ps: seq<string>, read: string -> Option<string>, i: nat)
    requires i < |ps| && read(ps[i]).Some? && forall j :: 0 <= j < i ==> read(ps[j]).None?
    ensures FirstReadable(ps, read) == Some((ps[i], read(ps[i]).value))
  {
    if i > 0 {
      FirstReadableAt(ps[1..], read, i - 1);
    }
  }

  // ----- getChapterOrder -----

  /** `s.replace(pat, '')` with a string pattern: only the first occurrence is removed. */
  function RemoveFirst(s: string, pat: string): (r: string)
    ensures IndexOf(s, pat) < 0 ==> r == s
    ensures IndexOf(s, pat) >= 0 ==> |r| == |s| - |pat|
  {
    var i := IndexOf(s, pat);
    if i < 0 then s else s[..i] + s[i + |pat|..]
  }

  /**
   * `parseSlug`: the part number of the first path segment without `part` and the
   * chapter number of the second without `ch`; None where JavaScript would fail or
   * get `NaN`.
   */
  function ParseSlug(slug: string): Option<(int, int)> {
    var parts := Split(slug, '/');
    if |parts| < 2 then None
    else match (ParseInt(RemoveFirst(parts[0], "part")), ParseInt(RemoveFirst(parts[1], "ch")))
      case (Some(p), Some(c)) => Some((p, c))
      case _ => None
  }

  /** The sort key of a slug; the keys of the slug map all parse. */
  function SlugKey(slug: string): (int, int) {
    match ParseSlug(slug)
    case Some(k) => k
    case None => (0, 0)
  }

  /** The comparator: by part number, then by chapter number. */
  function SlugLe(a: string, b: string): bool {
    SlugKey(a).0 < SlugKey(b).0 || (SlugKey(a).0 == SlugKey(b).0 && SlugKey(a).1 <= SlugKey(b).1)
  }

  lemma SlugLeTotalPreorder()
    ensures Sorting.TotalPreorder(SlugLe)
  {
  }

  lemma RemoveFirstAtStart(pat: string, rest: string)
    ensures RemoveFirst(pat + rest, pat) == rest
  {
    var s := pat + rest;
    assert OccursAt(s, pat, 0) by { assert s[0..|pat|] == pat; }
    assert s[..0] + s[|pat|..] == rest;
  }

  /** A slug `part<p>/ch<c>` with one-digit numbers parses to `(p, c)`. */
  lemma ParseSlugOf(p: nat, c: nat)
    requires p < 10 && c < 10
    ensures ParseSlug("part" + [DigitChar(p)] + "/ch" + [DigitChar(c)]) == Some((p, c))
  {
    var a := "part" + [DigitChar(p)];
    var b := "ch" + [DigitChar(c)];
    assert "part" + [DigitChar(p)] + "/ch" + [DigitChar(c)] == a + ['/'] + b;
    SplitCons(a, b, '/');
    SplitNoSep(b, '/');
    RemoveFirstAtStart("part", [DigitChar(p)]);
    RemoveFirstAtStart("ch", [DigitChar(c)]);
    ParseIntOfNumeral(p);
    ParseIntOfNumeral(c);
  }

  /** `getChapterOrder`: the map's keys, stably sorted by (part, chapter). */
  function ChapterOrder(): seq<string> {
    Sorting.Sort(Keys(SlugMap), SlugLe)
  }

  /** The order holds every key of the slug map exactly as often as the map does, sorted. */
  lemma ChapterOrderMeaning()
    ensures multiset(ChapterOrder()) == multiset(Keys(SlugMap))
    ensures forall i, j :: 0 <= i < j < |ChapterOrder()| ==> SlugLe(ChapterOrder()[i], ChapterOrder()[j])
  {
    SlugLeTotalPreorder();
    Sorting.SortSorted(Keys(SlugMap), SlugLe);
  }

  // ----- getChapterNavigation -----

  predicate NoDups(xs: seq<string>) {
    forall i, j :: 0 <= i < j < |xs| ==> xs[i] != xs[j]
  }

  lemma {:induction false} NoDupsCount(xs: seq<string>, x: string)
    requires NoDups(xs)
    ensures multiset(xs)[x] <= 1
  {
    if xs != [] {
      assert xs == [xs[0]] + xs[1..];
      NoDupsCount(xs[1..], x);
      if x == xs[0] {
        assert x !in xs[1..];
      }
    }
  }

  lemma RepeatCount(xs: seq<string>, i: nat, j: nat)
    requires i < j < |xs| && xs[i] == xs[j]
    ensures multiset(xs)[xs[i]] >= 2
  {
    assert xs == xs[..j] + [xs[j]] + xs[j + 1..];
    assert xs[..j][i] == xs[i];
  }

  /** A rearrangement of a list without repeats has none. */
  lemma NoDupsPermutation(a: seq<string>, b: seq<string>)
    requires multiset(a) == multiset(b) && NoDups(a)
    ensures NoDups(b)
  {
    forall i, j | 0 <= i < j < |b| ensures b[i] != b[j] {
      if b[i] == b[j] {
        RepeatCount(b, i, j);
        NoDupsCount(a, b[i]);
      }
    }
  }

  lemma ChapterOrderNoDups()
    ensures NoDups(ChapterOrder())
  {
    assert NoDups(Keys(SlugMap));
    ChapterOrderMeaning();
    NoDupsPermutation(Keys(SlugMap), ChapterOrder());
  }

  /** `indexOf`: the first position of `x`, or -1. */
  function IndexIn(xs: seq<string>, x: string): (r: int)
    ensures -1 <= r < |xs|
    ensures r == -1 <==> x !in xs
    ensures r >= 0 ==> xs[r] == x && x !in xs[..r]
  {
    if xs == [] then -1
    else if xs[0] == x then 0
    else
      var r := IndexIn(xs[1..], x);
      assert r >= 0 ==> xs[..r + 1] == [xs[0]] + xs[1..][..r];
      if r < 0 then -1 else r + 1
  }

  /** The chapters before and after `slug` in `order`, when there are such chapters. */
  datatype Navigation = Navigation(prev: Option<string>, next: Option<string>)

  function NavigationIn(order: seq<string>, slug: string): Navigation {
    var i := IndexIn(order, slug);
    if i == -1 then Navigation(None, None)
    else Navigation(
      if i > 0 then Some(order[i - 1]) else None,
      if i < |order| - 1 then Some(order[i + 1]) else None)
  }

  /** `getChapterNavigation`. */
  function ChapterNavigation(slug: string): Navigation {
    NavigationIn(ChapterOrder(), slug)
  }

  /** An unknown slug has neither neighbour. */
  lemma NavigationUnknown(order: seq<string>, slug: string)
    requires slug !in order
    ensures NavigationIn(order, slug) == Navigation(None, None)
  {
  }

  /**
   * In an order without repeats, the chapter at `i` has the immediate neighbours: no
   * previous one exactly when it is first, no next one exactly when it is last.
   */
  lemma NavigationNeighbours(order: seq<string>, i: nat)
    requires NoDups(order) && i < |order|
    ensures NavigationIn(order, order[i]).prev == if i > 0 then Some(order[i - 1]) else None
    ensures NavigationIn(order, order[i]).next == if i + 1 < |order| then Some(order[i + 1]) else None
  {
    assert IndexIn(order, order[i]) == i;
  }

  /** Going to the next chapter and then back returns to where one started. */
  lemma NavigationRoundTrip(order: seq<string>, slug: string)
    requires NoDups(order) && NavigationIn(order, slug).next.Some?
    ensures NavigationIn(order, NavigationIn(order, slug).next.value).prev == Some(slug)
  {
    var i := IndexIn(order, slug);
    NavigationNeighbours(order, i);
    NavigationNeighbours(order, i + 1);
  }

  /** The chapter order has no repeats, so navigation in it has all the properties above. */
  lemma ChapterNavigationNeighbours(i: nat)
    requires i < |ChapterOrder()|
    ensures ChapterNavigation(ChapterOrder()[i]).prev == if i > 0 then Some(ChapterOrder()[i - 1]) else None
    ensures ChapterNavigation(ChapterOrder()[i]).next
      == if i + 1 < |ChapterOrder()| then Some(ChapterOrder()[i + 1]) else None
  {
    ChapterOrderNoDups();
    NavigationNeighbours(ChapterOrder(), i);
  }
}
