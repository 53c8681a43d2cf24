/**
 * `perform_search_cmd` (main.py): normalise the query, walk the categories in
 * registry order and each existing directory in its enumeration order, keep
 * the (category, file) pairs whose lowered file or category name contains
 * the query, and show the first ten with a download button each when the
 * button's callback fits in 64 UTF-8 bytes.
 */
module Search {
  import opened Common
  import opened Text
  import opened Callbacks

  /** One search result: `(idx, cat_name, file_name)`. */
  datatype Hit = Hit(index: nat, category: string, file: string)

  const MinQueryLength: nat := 3
  const ShownLimit: nat := 10
  const CallbackLimit: nat := 64

  /** `message.text.lower().strip()`. */
  function NormalizeQuery(text: string): string {
    Strip(Lower(text))
  }

  predicate Matches(q: string, category: string, file: string) {
    Contains(Lower(file), q) || Contains(Lower(category), q)
  }

  /** The hits among the first `m` files of one directory, in enumeration order. */
  function FileHits(q: string, idx: nat, category: string, files: seq<string>, m: nat): seq<Hit>
    requires m <= |files|
  {
    if m == 0 then []
    else FileHits(q, idx, category, files, m - 1)
         + (if Matches(q, category, files[m - 1]) then [Hit(idx, category, files[m - 1])] else [])
  }

  /** The hits among the first `n` categories; a category without a directory contributes none. */
  function CategoryHits(q: string, categories: seq<string>, dirs: map<string, seq<string>>, n: nat): seq<Hit>
    requires n <= |categories|
  {
    if n == 0 then []
    else
      var category := categories[n - 1];
      CategoryHits(q, categories, dirs, n - 1)
      + (if category in dirs then FileHits(q, n - 1, category, dirs[category], |dirs[category]|) else [])
  }

  /** The `results.append` loop nest of `perform_search_cmd`. */
  method CollectHits(q: string, categories: seq<string>, dirs: map<string, seq<string>>) returns (results: seq<Hit>)
    ensures results == CategoryHits(q, categories, dirs, |categories|)
  {
    results := [];
    for idx := 0 to |categories|
      invariant results == CategoryHits(q, categories, dirs, idx)
    {
      var category := categories[idx];
      if category in dirs {
        var files := dirs[category];
        for j := 0 to |files|
          invariant results == CategoryHits(q, categories, dirs, idx) + FileHits(q, idx, category, files, j)
        {
          if Contains(Lower(files[j]), q) || Contains(Lower(category), q) {
            results := results + [Hit(idx, category, files[j])];
          }
        }
      }
    }
  }

  /** A pair is a hit when its category exists at that index, its file is in the directory, and one of the names matches. */
  predicate IsHit(q: string, categories: seq<string>, dirs: map<string, seq<string>>, n: nat, h: Hit) {
    && h.index < n && h.index < |categories|
    && h.category == categories[h.index]
    && h.category in dirs && h.file in dirs[h.category]
    && Matches(q, h.category, h.file)
  }

  lemma {:induction false} FileHitsExactly(q: string, idx: nat, category: string, files: seq<string>, m: nat, h: Hit)
    requires m <= |files|
    ensures h in FileHits(q, idx, category, files, m) <==>
      h.index == idx && h.category == category && h.file in files[..m] && Matches(q, category, h.file)
  {
    if m > 0 {
      FileHitsExactly(q, idx, category, files, m - 1, h);
      assert files[..m] == files[..m - 1] + [files[m - 1]];
    }
  }

  /** The results are exactly the matching (category, file) pairs: nothing missed, nothing extra. */
  lemma {:induction false} HitsExactly(q: string, categories: seq<string>, dirs: map<string, seq<string>>, n: nat, h: Hit)
    requires n <= |categories|
    ensures h in CategoryHits(q, categories, dirs, n) <==> IsHit(q, categories, dirs, n, h)
  {
    if n > 0 {
      HitsExactly(q, categories, dirs, n - 1, h);
      var category := categories[n - 1];
      if category in dirs {
        var files := dirs[category];
        FileHitsExactly(q, n - 1, category, files, |files|, h);
        assert files[..|files|] == files;
      }
    }
  }

  lemma {:induction false} FileHitsIndex(q: string, idx: nat, category: string, files: seq<string>, m: nat)
    requires m <= |files|
    ensures forall h :: h in FileHits(q, idx, category, files, m) ==> h.index == idx
  {
    if m > 0 {
      FileHitsIndex(q, idx, category, files, m - 1);
    }
  }

  predicate CategoryMajor(hits: seq<Hit>) {
    forall i, j :: 0 <= i < j < |hits| ==> hits[i].index <= hits[j].index
  }

  /** Results are category-major: their category indices never decrease. */
  lemma {:induction false} HitsCategoryMajor(q: string, categories: seq<string>, dirs: map<string, seq<string>>, n: nat)
    requires n <= |categories|
    ensures CategoryMajor(CategoryHits(q, categories, dirs, n))
  {
    if n > 0 {
      HitsCategoryMajor(q, categories, dirs, n - 1);
      var before := CategoryHits(q, categories, dirs, n - 1);
      var category := categories[n - 1];
      var added := if category in dirs then FileHits(q, n - 1, category, dirs[category], |dirs[category]|) else [];
      if category in dirs {
        FileHitsIndex(q, n - 1, category, dirs[category], |dirs[category]|);
      }
      assert forall h :: h in added ==> h.index == n - 1;
      forall h | h in before ensures h.index < n - 1 {
        HitsExactly(q, categories, dirs, n - 1, h);
      }
      var hits := before + added;
      forall i, j | 0 <= i < j < |hits| ensures hits[i].index <= hits[j].index {
        if j < |before| {
          assert hits[i] == before[i] && hits[j] == before[j];
          assert before[i].index <= before[j].index;
        } else {
          assert hits[j] == added[j - |before|];
          assert hits[j] in added;
          if i < |before| {
            assert hits[i] == before[i];
            assert hits[i] in before;
            assert hits[i].index < n - 1;
          } else {
            assert hits[i] == added[i - |before|];
            assert hits[i] in added;
            assert hits[i].index == n - 1;
          }
          assert hits[j].index == n - 1;
        }
      }
    }
  }

  /** Where `f` first stands in a listing. */
  function Position(files: seq<string>, f: string): (r: nat)
    requires f in files
    ensures r < |files| && files[r] == f && f !in files[..r]
  {
    if files[0] == f then 0
    else
      var r := 1 + Position(files[1..], f);
      assert files[..r] == [files[0]] + files[1..][..r - 1];
      r
  }

  /** `b` comes after `a` in the listing of `a`'s category. */
  predicate ListedBefore(dirs: map<string, seq<string>>, a: Hit, b: Hit) {
    && a.category in dirs && a.file in dirs[a.category] && b.file in dirs[a.category]
    && Position(dirs[a.category], a.file) < Position(dirs[a.category], b.file)
  }

  /** Every hit is listed before the later ones of the same category. */
  predicate InListingOrder(dirs: map<string, seq<string>>, hits: seq<Hit>) {
    forall i, j :: 0 <= i < j < |hits| && hits[i].index == hits[j].index ==> ListedBefore(dirs, hits[i], hits[j])
  }

  /** The hits of one directory follow its enumeration order. */
  lemma {:induction false} FileHitsListingOrder(q: string, idx: nat, category: string, dirs: map<string, seq<string>>, m: nat)
    requires category in dirs && m <= |dirs[category]| && NoDuplicates(dirs[category])
    ensures forall h :: h in FileHits(q, idx, category, dirs[category], m) ==>
      h.index == idx && h.category == category && h.file in dirs[category] && Position(dirs[category], h.file) < m
    ensures InListingOrder(dirs, FileHits(q, idx, category, dirs[category], m))
  {
    if m > 0 {
      var files := dirs[category];
      FileHitsListingOrder(q, idx, category, dirs, m - 1);
      var before := FileHits(q, idx, category, files, m - 1);
      assert Position(files, files[m - 1]) == m - 1;
      var hits := FileHits(q, idx, category, files, m);
      forall i, j | 0 <= i < j < |hits| ensures ListedBefore(dirs, hits[i], hits[j]) {
        if j < |before| {
          assert hits[i] == before[i] && hits[j] == before[j];
        } else {
          assert hits[i] == before[i] && hits[i] in before;
          assert hits[j] == Hit(idx, category, files[m - 1]);
        }
      }
    }
  }

  /** Within one category the results follow the directory's enumeration order. */
  lemma {:induction false} HitsListingOrder(q: string, categories: seq<string>, dirs: map<string, seq<string>>, n: nat)
    requires n <= |categories|
    requires forall c :: c in dirs ==> NoDuplicates(dirs[c])
    ensures InListingOrder(dirs, CategoryHits(q, categories, dirs, n))
  {
    if n > 0 {
      HitsListingOrder(q, categories, dirs, n - 1);
      var before := CategoryHits(q, categories, dirs, n - 1);
      var category := categories[n - 1];
      var added := if category in dirs then FileHits(q, n - 1, category, dirs[category], |dirs[category]|) else [];
      if category in dirs {
        FileHitsIndex(q, n - 1, category, dirs[category], |dirs[category]|);
        FileHitsListingOrder(q, n - 1, category, dirs, |dirs[category]|);
      }
      forall h | h in before ensures h.index < n - 1 {
        HitsExactly(q, categories, dirs, n - 1, h);
      }
      var hits := before + added;
      forall i, j | 0 <= i < j < |hits| && hits[i].index == hits[j].index ensures ListedBefore(dirs, hits[i], hits[j]) {
        if j < |before| {
          assert hits[i] == before[i] && hits[j] == before[j];
        } else if |before| <= i {
          assert category in dirs;
          var a, b := i - |before|, j - |before|;
          assert hits[i] == added[a] && hits[j] == added[b];
          assert ListedBefore(dirs, added[a], added[b]);
        }
      }
    }
  }

  /** Bytes of one character in UTF-8. */
  function Utf8Width(c: char): nat {
    if c as int < 0x80 then 1 else if c as int < 0x800 then 2 else if c as int < 0x10000 then 3 else 4
  }

  /** `len(s.encode('utf-8'))`. */
  function Utf8Length(s: string): (r: nat)
    ensures r >= |s|
  {
    if s == [] then 0 else Utf8Width(s[0]) + Utf8Length(s[1..])
  }

  /** A hit's download callback is short enough for a button: under 64 UTF-8 bytes. */
  predicate Fits(h: Hit) {
    Utf8Length(DownloadData(h.index, h.file)) < CallbackLimit
  }

  /** The download callbacks of the shown hits, skipping those of 64 bytes or more. */
  function Buttons(shown: seq<Hit>): (r: seq<string>)
    ensures |r| <= |shown|
    ensures forall h :: h in shown && Fits(h) ==> DownloadData(h.index, h.file) in r
  {
    if shown == [] then []
    else
      var data := DownloadData(shown[0].index, shown[0].file);
      (if Utf8Length(data) < CallbackLimit then [data] else []) + Buttons(shown[1..])
  }

  /** Buttons keep the order of the results: those of a longer list extend those of its prefix. */
  lemma {:induction false} ButtonsInOrder(a: seq<Hit>, b: seq<Hit>)
    ensures Buttons(a + b) == Buttons(a) + Buttons(b)
  {
    if a != [] {
      assert (a + b)[1..] == a[1..] + b;
      ButtonsInOrder(a[1..], b);
    } else {
      assert a + b == b;
    }
  }

  /** One hit gets exactly one button when its callback fits, and none otherwise. */
  lemma ButtonOfOne(h: Hit)
    ensures Buttons([h]) == if Fits(h) then [DownloadData(h.index, h.file)] else []
  {
    assert [h][1..] == [];
  }

  lemma {:induction false} ButtonsResolve(shown: seq<Hit>, count: nat)
    requires forall h :: h in shown ==> h.index < count
    ensures forall b :: b in Buttons(shown) ==>
      Utf8Length(b) < CallbackLimit &&
      exists h :: h in shown && ParseDownload(b, count) == Ok((h.index, h.file))
  {
    if shown != [] {
      ButtonsResolve(shown[1..], count);
      DownloadDataRoundTrip(shown[0].index, shown[0].file, count);
      forall b | b in Buttons(shown[1..])
        ensures exists h :: h in shown && ParseDownload(b, count) == Ok((h.index, h.file))
      {
        var h :| h in shown[1..] && ParseDownload(b, count) == Ok((h.index, h.file));
        assert h in shown;
      }
    }
  }

  datatype SearchOutcome =
    | QueryTooShort
    | NoResults(query: string)
    | Found(query: string, total: nat, shown: seq<Hit>, buttons: seq<string>)


  /**
   * `perform_search_cmd`: a query shorter than three characters after
   * normalising is refused; otherwise all hits are collected and the first
   * `min(10, |hits|)` are shown, with the buttons that fit.
   */
  method PerformSearch(text: string, categories: seq<string>, dirs: map<string, seq<string>>) returns (outcome: SearchOutcome)
    ensures outcome == QueryTooShort <==> |NormalizeQuery(text)| < MinQueryLength
    ensures |NormalizeQuery(text)| >= MinQueryLength ==>
      var q := NormalizeQuery(text);
      var hits := CategoryHits(q, categories, dirs, |categories|);
      && (hits == [] ==> outcome == NoResults(q))
      && (hits != [] ==>
            var shown := hits[..Min(ShownLimit, |hits|)];
            outcome == Found(q, |hits|, shown, Buttons(shown)))
  {
    var q := NormalizeQuery(text);
    if |q| < MinQueryLength {
      return QueryTooShort;
    }
    var results := CollectHits(q, categories, dirs);
    if results == [] {
      return NoResults(q);
    }
    var shown := results[..Min(ShownLimit, |results|)];
    outcome := Found(q, |results|, shown, Buttons(shown));
  }

  /**
   * What a found search shows: at most ten hits, the first ones in
   * category-then-listing order, each a genuine match, and buttons that
   * all resolve to one of them.
   */
  lemma FoundShowsFirstHits(text: string, categories: seq<string>, dirs: map<string, seq<string>>)
    requires |NormalizeQuery(text)| >= MinQueryLength
    ensures var q := NormalizeQuery(text);
      var hits := CategoryHits(q, categories, dirs, |categories|);
      var shown := hits[..Min(ShownLimit, |hits|)];
      && |shown| <= ShownLimit
      && (|hits| <= ShownLimit ==> shown == hits)
      && (forall h :: h in shown ==> IsHit(q, categories, dirs, |categories|, h))
      && (forall b :: b in Buttons(shown) ==> exists h :: h in shown && ParseDownload(b, |categories|) == Ok((h.index, h.file)))
  {
    var q := NormalizeQuery(text);
    var hits := CategoryHits(q, categories, dirs, |categories|);
    var shown := hits[..Min(ShownLimit, |hits|)];
    forall h | h in shown ensures IsHit(q, categories, dirs, |categories|, h) {
      HitsExactly(q, categories, dirs, |categories|, h);
    }
    ButtonsResolve(shown, |categories|);
  }
}
