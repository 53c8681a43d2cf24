/**
 * Listing a category (main.py `list_files_in_category`, `show_page_files`):
 * the directory's names sorted as Python sorts strings, cut into pages of
 * five, and the navigation row of `get_pagination_keyboard`.
 */
module Paging {
  import opened Common
  import opened Text
  import opened Callbacks

  // ----- Python's string order and `sorted` -----

  /** Python's `a <= b` on strings: code-point lexicographic order. */
  predicate LexLe(a: string, b: string) {
    a == [] || (b != [] && (a[0] < b[0] || (a[0] == b[0] && LexLe(a[1..], b[1..]))))
  }

  lemma {:induction false} LexTotal(a: string, b: string)
    ensures LexLe(a, b) || LexLe(b, a)
  {
    if a != [] && b != [] && a[0] == b[0] {
      LexTotal(a[1..], b[1..]);
    }
  }

  lemma {:induction false} LexReflexive(a: string)
    ensures LexLe(a, a)
  {
    if a != [] {
      LexReflexive(a[1..]);
    }
  }

  lemma {:induction false} LexTransitive(a: string, b: string, c: string)
    requires LexLe(a, b) && LexLe(b, c)
    ensures LexLe(a, c)
  {
    if a != [] && a[0] == b[0] && b[0] == c[0] {
      LexTransitive(a[1..], b[1..], c[1..]);
    }
  }

  lemma {:induction false} LexAntisymmetric(a: string, b: string)
    requires LexLe(a, b) && LexLe(b, a)
    ensures a == b
  {
    if a != [] {
      LexAntisymmetric(a[1..], b[1..]);
      assert a == [a[0]] + a[1..] && b == [b[0]] + b[1..];
    }
  }

  predicate Sorted(s: seq<string>) {
    forall i, j :: 0 <= i < j < |s| ==> LexLe(s[i], s[j])
  }

  /** Removing the head of a sequence removes one copy of it from the multiset. */
  lemma MultisetTail(s: seq<string>)
    requires s != []
    ensures multiset(s[1..]) == multiset(s) - multiset{s[0]}
    ensures multiset(s) == multiset{s[0]} + multiset(s[1..])
  {
    assert s == [s[0]] + s[1..];
  }

  /** A name at or below every element of a sorted sequence may be put in front of it. */
  lemma {:induction false} ConsSorted(h: string, rest: seq<string>)
    requires Sorted(rest)
    requires forall y :: y in multiset(rest) ==> LexLe(h, y)
    ensures Sorted([h] + rest)
  {
    forall i, j | 0 <= i < j < |rest| + 1 ensures LexLe(([h] + rest)[i], ([h] + rest)[j]) {
      assert ([h] + rest)[j] == rest[j - 1];
      if i == 0 {
        assert rest[j - 1] in multiset(rest);
      } else {
        assert ([h] + rest)[i] == rest[i - 1];
      }
    }
  }

  lemma {:induction false} BelowHead(x: string, s: seq<string>)
    requires Sorted(s) && s != [] && LexLe(x, s[0])
    ensures forall y :: y in multiset(s) ==> LexLe(x, y)
  {
    forall y | y in multiset(s) ensures LexLe(x, y) {
      SortedHeadIsLeast(s, y);
      LexTransitive(x, s[0], y);
    }
  }

  /** Putting a name in front of a sorted sequence it does not exceed. */
  lemma InsertFront(x: string, s: seq<string>)
    requires Sorted(s) && s != [] && LexLe(x, s[0])
    ensures Sorted([x] + s) && multiset([x] + s) == multiset(s) + multiset{x}
  {
    BelowHead(x, s);
    ConsSorted(x, s);
  }

  /** The head of a sorted sequence is at or below everything the insertion into its tail holds. */
  lemma {:induction false} HeadBelowInsertion(x: string, s: seq<string>, rest: seq<string>)
    requires Sorted(s) && s != [] && LexLe(s[0], x)
    requires multiset(rest) == multiset(s[1..]) + multiset{x}
    ensures forall y :: y in multiset(rest) ==> LexLe(s[0], y)
  {
    forall y | y in multiset(rest) ensures LexLe(s[0], y) {
      if y != x {
        assert y in s[1..];
        var k :| 0 <= k < |s| - 1 && s[1..][k] == y;
        assert s[k + 1] == y;
      }
    }
  }

  /** Keeping the head of a sorted sequence in front of the insertion into its tail. */
  lemma InsertBehind(x: string, s: seq<string>, rest: seq<string>)
    requires Sorted(s) && s != [] && !LexLe(x, s[0])
    requires Sorted(rest) && multiset(rest) == multiset(s[1..]) + multiset{x}
    ensures Sorted([s[0]] + rest) && multiset([s[0]] + rest) == multiset(s) + multiset{x}
  {
    LexTotal(x, s[0]);
    HeadBelowInsertion(x, s, rest);
    ConsSorted(s[0], rest);
    MultisetTail(s);
  }

  function Insert(x: string, s: seq<string>): (r: seq<string>)
    requires Sorted(s)
    ensures Sorted(r) && multiset(r) == multiset(s) + multiset{x}
  {
    if s == [] then [x]
    else if LexLe(x, s[0]) then
      InsertFront(x, s);
      [x] + s
    else
      SortedTail(s);
      var rest := Insert(x, s[1..]);
      InsertBehind(x, s, rest);
      [s[0]] + rest
  }

  /** Python's `sorted(names)`: ascending, and a rearrangement of its input. */
  function SortNames(names: seq<string>): (r: seq<string>)
    ensures Sorted(r) && multiset(r) == multiset(names)
    ensures |r| == |names|
  {
    if names == [] then []
    else
      assert names == [names[0]] + names[1..];
      Insert(names[0], SortNames(names[1..]))
  }

  /** The head of a sorted sequence is below each of its elements. */
  lemma SortedHeadIsLeast(s: seq<string>, x: string)
    requires Sorted(s) && x in multiset(s)
    ensures LexLe(s[0], x)
  {
    var k :| 0 <= k < |s| && s[k] == x;
    if k == 0 {
      LexReflexive(x);
    }
  }

  lemma SortedTail(s: seq<string>)
    requires Sorted(s) && s != []
    ensures Sorted(s[1..])
  {
    forall i, j | 0 <= i < j < |s| - 1 ensures LexLe(s[1..][i], s[1..][j]) {
      assert s[1..][i] == s[i + 1] && s[1..][j] == s[j + 1];
    }
  }

  /** Two sorted arrangements of the same non-empty names start with the same name. */
  lemma SortedHeadsAgree(s: seq<string>, t: seq<string>)
    requires Sorted(s) && Sorted(t) && multiset(s) == multiset(t) && s != []
    ensures t != [] && s[0] == t[0]
  {
    assert s[0] in multiset(s);
    assert t[0] in multiset(t);
    SortedHeadIsLeast(s, t[0]);
    SortedHeadIsLeast(t, s[0]);
    LexAntisymmetric(s[0], t[0]);
  }

  /**
   * Two sorted arrangements of the same names are identical: the pages do
   * not depend on the order in which the directory enumerates its files.
   */
  lemma {:induction false} SortedUnique(s: seq<string>, t: seq<string>)
    requires Sorted(s) && Sorted(t) && multiset(s) == multiset(t)
    ensures s == t
  {
    if s == [] {
      assert |t| == |multiset(t)|;
    } else {
      SortedHeadsAgree(s, t);
      MultisetTail(s);
      MultisetTail(t);
      SortedTail(s);
      SortedTail(t);
      SortedUnique(s[1..], t[1..]);
      assert s == [s[0]] + s[1..] && t == [t[0]] + t[1..];
    }
  }

  lemma SortIgnoresEnumerationOrder(a: seq<string>, b: seq<string>)
    requires multiset(a) == multiset(b)
    ensures SortNames(a) == SortNames(b)
  {
    SortedUnique(SortNames(a), SortNames(b));
  }

  // ----- Pages -----

  const PageSize: nat := 5

  /** `(n + PAGE_SIZE - 1) // PAGE_SIZE`. */
  function TotalPages(n: nat): nat {
    (n + PageSize - 1) / PageSize
  }

  /** The page count is the ceiling of n / 5; an empty listing has zero pages, not one. */
  lemma TotalPagesIsCeiling(n: nat)
    ensures TotalPages(n) * PageSize >= n
    ensures TotalPages(n) == 0 || (TotalPages(n) - 1) * PageSize < n
    ensures TotalPages(n) == 0 <==> n == 0
  {
  }


  /** A page as the handlers show it: its number, the page count, the number of its first line, its names. */
  datatype PageView = PageView(page: nat, totalPages: nat, firstNumber: nat, items: seq<string>)

  /**
   * Page `page` of an already sorted listing: `sorted[start:end]` with
   * `start = (page - 1) * 5` and `end = min(start + 5, n)`, provided
   * `1 <= page <= total_pages`.
   */
  function PageOf(sorted: seq<string>, page: int): (r: Option<PageView>)
    ensures r.Some? <==> 1 <= page <= TotalPages(|sorted|)
    ensures r.Some? ==> 1 <= |r.value.items| <= PageSize
    ensures r.Some? ==>
      var start := (page - 1) * PageSize;
      && r.value.page == page && r.value.totalPages == TotalPages(|sorted|)
      && r.value.firstNumber == start + 1
      && start + |r.value.items| <= |sorted|
      && r.value.items == sorted[start..start + |r.value.items|]
      && (|r.value.items| < PageSize ==> page == TotalPages(|sorted|))
  {
    var total := TotalPages(|sorted|);
    if 1 <= page <= total then
      var start := (page - 1) * PageSize;
      var end := Min(start + PageSize, |sorted|);
      Some(PageView(page, total, start + 1, sorted[start..end]))
    else None
  }

  /** The names on pages 1..k, in page order. */
  function PagesUpTo(sorted: seq<string>, k: nat): seq<string>
    requires k <= TotalPages(|sorted|)
  {
    if k == 0 then [] else PagesUpTo(sorted, k - 1) + PageOf(sorted, k).value.items
  }

  lemma {:induction false} PagesUpToPrefix(sorted: seq<string>, k: nat)
    requires k <= TotalPages(|sorted|)
    ensures PagesUpTo(sorted, k) == sorted[..Min(k * PageSize, |sorted|)]
  {
    if k > 0 {
      PagesUpToPrefix(sorted, k - 1);
      var start := (k - 1) * PageSize;
      assert sorted[..start] + sorted[start..Min(start + PageSize, |sorted|)]
          == sorted[..Min(k * PageSize, |sorted|)];
    }
  }

  /** Concatenating every page, first to last, gives back the whole sorted listing. */
  lemma PagesCoverListing(sorted: seq<string>)
    ensures PagesUpTo(sorted, TotalPages(|sorted|)) == sorted
  {
    PagesUpToPrefix(sorted, TotalPages(|sorted|));
  }

  /** What `list_files_in_category` shows: nothing for a missing or empty directory, else page 1. */
  datatype Listing = EmptyCategory | FirstPage(view: PageView)

  function ListCategory(dir: Option<seq<string>>): (r: Listing)
    ensures r.EmptyCategory? <==> dir.None? || dir.value == []
  {
    if dir.None? || dir.value == [] then EmptyCategory
    else
      var sorted := SortNames(dir.value);
      var total := TotalPages(|sorted|);
      FirstPage(PageView(1, total, 1, sorted[..Min(PageSize, |sorted|)]))
  }

  /** The first listing screen is exactly page 1 of the paged view. */
  lemma ListingIsPageOne(dir: Option<seq<string>>)
    requires dir.Some? && dir.value != []
    ensures PageOf(SortNames(dir.value), 1) == Some(ListCategory(dir).view)
  {
    assert |SortNames(dir.value)| == |multiset(dir.value)|;
  }

  datatype PageError = CategoryMissing | InvalidPage

  /** What `show_page_files` shows once the callback is parsed: refused when the directory is missing or the page out of range. */
  function ShowPage(dir: Option<seq<string>>, page: int): (r: Result<PageView, PageError>)
    ensures r == Err(CategoryMissing) <==> dir.None?
    ensures r.Ok? <==> dir.Some? && PageOf(SortNames(dir.value), page).Some?
    ensures dir.Some? && dir.value == [] ==> r == Err(InvalidPage)
  {
    if dir.None? then Err(CategoryMissing)
    else
      match PageOf(SortNames(dir.value), page)
      case None => Err(InvalidPage)
      case Some(v) => Ok(v)
  }

  // ----- The keyboard -----

  /** A file button: the caption shows at most 30 characters of the name. */
  datatype FileButton = FileButton(caption: string, data: string)

  datatype NavButton = Prev(data: string) | Indicator(page: nat, totalPages: nat) | Next(data: string)

  datatype Keyboard = Keyboard(files: seq<FileButton>, nav: seq<NavButton>, back: string)

  /** A button caption: names longer than 30 characters are cut to 30 and marked with "...". */
  function DisplayName(name: string): (r: string)
    ensures |r| <= 33
    ensures |name| <= 30 ==> r == name
    ensures |name| > 30 ==> |r| == 33 && r[..30] == name[..30] && r[30..] == "..."
  {
    if |name| > 30 then name[..30] + "..." else name
  }

  /** Captions of names up to 30 characters tell the names apart. */
  lemma CaptionsOfShortNames(a: string, b: string)
    requires |a| <= 30 && |b| <= 30
    ensures DisplayName(a) == DisplayName(b) <==> a == b
  {
  }

  /** Two long names that agree on their first 30 characters get the same caption. */
  lemma CaptionsCollide(a: string, b: string)
    requires |a| > 30 && |b| > 30 && a[..30] == b[..30]
    ensures DisplayName(a) == DisplayName(b)
  {
  }

  /** `get_pagination_keyboard` with the default "page_list" prefix. */
  function PaginationKeyboard(idx: nat, page: nat, total: nat, names: seq<string>): Keyboard {
    var files := seq(|names|, i requires 0 <= i < |names| =>
      FileButton("\U{2B07}\U{FE0F} " + DisplayName(names[i]), DownloadData(idx, names[i])));
    Keyboard(files, NavRow(idx, page, total), "show_categories_list")
  }

  /** The row under the file buttons: back arrow, "page/total" indicator, forward arrow. */
  function NavRow(idx: nat, page: nat, total: nat): seq<NavButton> {
    (if page > 1 then [Prev(PageData(idx, page - 1))] else [])
    + [Indicator(page, total)]
    + (if page < total then [Next(PageData(idx, page + 1))] else [])
  }

  predicate HasPrev(nav: seq<NavButton>) {
    exists b :: b in nav && b.Prev?
  }

  predicate HasNext(nav: seq<NavButton>) {
    exists b :: b in nav && b.Next?
  }

  /**
   * The navigation row: a back arrow exactly when page > 1, a forward arrow
   * exactly when page < total, and each arrow's callback parses to the
   * neighbouring page of the same category.
   */
  lemma NavigationRow(idx: nat, page: nat, total: nat, count: nat)
    requires idx < count
    ensures var nav := NavRow(idx, page, total);
      && (HasPrev(nav) <==> page > 1)
      && (HasNext(nav) <==> page < total)
      && (forall b :: b in nav && b.Prev? ==> ParsePage(b.data, count) == Ok((idx, page - 1)))
      && (forall b :: b in nav && b.Next? ==> ParsePage(b.data, count) == Ok((idx, page + 1)))
  {
    var nav := NavRow(idx, page, total);
    var prev := if page > 1 then [Prev(PageData(idx, page - 1))] else [];
    var next := if page < total then [Next(PageData(idx, page + 1))] else [];
    assert nav == prev + [Indicator(page, total)] + next;
    forall b | b in nav && b.Prev?
      ensures page > 1 && b == Prev(PageData(idx, page - 1))
    {
      assert b in prev;
    }
    forall b | b in nav && b.Next?
      ensures page < total && b == Next(PageData(idx, page + 1))
    {
      assert b in next;
    }
    if page > 1 {
      PageDataRoundTrip(idx, page - 1, count);
      assert nav[0] in nav;
    }
    if page < total {
      PageDataRoundTrip(idx, page + 1, count);
      assert nav[|nav| - 1] in nav;
    }
  }

  /** Every file button's callback parses back to its category and its whole file name. */
  lemma FileButtonsParse(idx: nat, page: nat, total: nat, names: seq<string>, count: nat)
    requires idx < count
    ensures var k := PaginationKeyboard(idx, page, total, names);
      && |k.files| == |names|
      && (forall i :: 0 <= i < |names| ==> ParseDownload(k.files[i].data, count) == Ok((idx, names[i])))
  {
    var k := PaginationKeyboard(idx, page, total, names);
    forall i | 0 <= i < |names|
      ensures ParseDownload(k.files[i].data, count) == Ok((idx, names[i]))
    {
      DownloadDataRoundTrip(idx, names[i], count);
    }
  }
}
