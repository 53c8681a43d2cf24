/**
 * The inline-button callback strings of main.py and the handlers' parsing of
 * them: `category_idx_{i}`, `list_idx_{i}`, `page_list_{idx}_{page}` and
 * `download_{idx}_{name}`.
 */
module Callbacks {
  import opened Common
  import opened Text

  function CategoryData(i: nat): string {
    "category_idx_" + NatToString(i)
  }

  function ListData(i: nat): string {
    "list_idx_" + NatToString(i)
  }

  function PageData(idx: nat, page: nat): string {
    "page_list_" + NatToString(idx) + "_" + NatToString(page)
  }

  function DownloadData(idx: nat, name: string): string {
    "download_" + NatToString(idx) + "_" + name
  }

  /** `Malformed` stands for the IndexError/ValueError branch, `BadIndex` for the range check. */
  datatype CallbackError = Malformed | BadIndex(index: int)

  /** Range check shared by all handlers: `0 <= idx < len(CATEGORIES)`. */
  function CheckIndex(i: int, count: nat): (r: Result<nat, CallbackError>)
    ensures r.Ok? <==> 0 <= i < count
    ensures r.Ok? ==> r.value == i
  {
    if 0 <= i < count then Ok(i) else Err(BadIndex(i))
  }

  /** `int(data.split("_", 2)[2])`, then the range check (category_chosen, list_files_in_category). */
  function ParseChoice(data: string, count: nat): Result<nat, CallbackError> {
    var parts := Split(data, '_', 2);
    if |parts| < 3 then Err(Malformed)
    else
      match ParseInt(parts[2])
      case None => Err(Malformed)
      case Some(i) => CheckIndex(i, count)
  }

  /** `parts = data.split("_")`, `int(parts[2])`, `int(parts[3])`, then the range check (show_page_files). */
  function ParsePage(data: string, count: nat): Result<(nat, int), CallbackError> {
    var parts := Split(data, '_', -1);
    if |parts| < 4 then Err(Malformed)
    else
      match (ParseInt(parts[2]), ParseInt(parts[3]))
      case (Some(i), Some(page)) =>
        (match CheckIndex(i, count)
         case Ok(idx) => Ok((idx, page))
         case Err(e) => Err(e))
      case _ => Err(Malformed)
  }

  /**
   * `parts = data.split("_", 2)`, `int(parts[1])`, `parts[2]`, then the range
   * check (download_file_cmd): everything after the second '_' is the name.
   */
  function ParseDownload(data: string, count: nat): Result<(nat, string), CallbackError> {
    var parts := Split(data, '_', 2);
    if |parts| < 2 then Err(Malformed)
    else
      match ParseInt(parts[1])
      case None => Err(Malformed)
      case Some(i) =>
        if |parts| < 3 then Err(Malformed)
        else
          match CheckIndex(i, count)
          case Ok(idx) => Ok((idx, parts[2]))
          case Err(e) => Err(e)
  }

  lemma NumeralHasNoUnderscore(n: nat)
    ensures '_' !in NatToString(n)
  {
  }

  /** A two-limited split of `{head}_{middle}_{tail}` gives the three fields back. */
  lemma ChoiceParts(head: string, middle: string, tail: string)
    requires '_' !in head && '_' !in middle
    ensures Split(head + "_" + middle + "_" + tail, '_', 2) == [head, middle, tail]
  {
    assert head + "_" + middle + "_" + tail == head + ['_'] + (middle + ['_'] + tail);
    SplitHead(head, '_', middle + ['_'] + tail, 2);
    SplitHead(middle, '_', tail, 1);
  }

  /** `ParseChoice` undoes `{head}_{middle}_{i}` for any underscore-free head and middle. */
  lemma ChoiceRoundTrip(head: string, middle: string, i: nat, count: nat)
    requires '_' !in head && '_' !in middle
    ensures ParseChoice(head + "_" + middle + "_" + NatToString(i), count)
         == if i < count then Ok(i) else Err(BadIndex(i))
  {
    var n := NatToString(i);
    ChoiceParts(head, middle, n);
    ParseNatToString(i);
  }

  /** The category buttons of the upload menu parse back to their index; an index out of range is refused. */
  lemma CategoryDataRoundTrip(i: nat, count: nat)
    ensures ParseChoice(CategoryData(i), count) == if i < count then Ok(i) else Err(BadIndex(i))
  {
    assert CategoryData(i) == "category" + "_" + "idx" + "_" + NatToString(i);
    ChoiceRoundTrip("category", "idx", i, count);
  }

  /** The category buttons of the listing menu parse back the same way. */
  lemma ListDataRoundTrip(i: nat, count: nat)
    ensures ParseChoice(ListData(i), count) == if i < count then Ok(i) else Err(BadIndex(i))
  {
    assert ListData(i) == "list" + "_" + "idx" + "_" + NatToString(i);
    ChoiceRoundTrip("list", "idx", i, count);
  }

  /** A pagination button parses back to its category index and page. */
  lemma PageDataRoundTrip(idx: nat, page: nat, count: nat)
    ensures ParsePage(PageData(idx, page), count) == if idx < count then Ok((idx, page as int)) else Err(BadIndex(idx))
  {
    assert PageData(idx, page) == "page" + "_" + "list" + "_" + NatToString(idx) + "_" + NatToString(page);
    PageRoundTrip("page", "list", idx, page, count);
  }

  lemma SplitFourFields(f1: string, f2: string, f3: string, f4: string)
    requires '_' !in f1 && '_' !in f2 && '_' !in f3 && '_' !in f4
    ensures Split(f1 + "_" + (f2 + "_" + (f3 + "_" + f4)), '_', -1) == [f1, f2, f3, f4]
  {
    SplitNone(f4, '_', -1);
    SplitHead(f3, '_', f4, -1);
    SplitHead(f2, '_', f3 + "_" + f4, -1);
    SplitHead(f1, '_', f2 + "_" + (f3 + "_" + f4), -1);
  }

  lemma {:induction false} PageRoundTrip(head: string, middle: string, idx: nat, page: nat, count: nat)
    requires '_' !in head && '_' !in middle
    ensures ParsePage(head + "_" + middle + "_" + NatToString(idx) + "_" + NatToString(page), count)
         == if idx < count then Ok((idx, page as int)) else Err(BadIndex(idx))
  {
    var a, b := NatToString(idx), NatToString(page);
    var data := head + "_" + middle + "_" + a + "_" + b;
    assert data == head + "_" + (middle + "_" + (a + "_" + b));
    NumeralHasNoUnderscore(idx);
    NumeralHasNoUnderscore(page);
    SplitFourFields(head, middle, a, b);
    ParseNatToString(idx);
    ParseNatToString(page);
  }

  /** A download button parses back to its index and the whole name, even when the name contains '_'. */
  lemma DownloadDataRoundTrip(idx: nat, name: string, count: nat)
    ensures ParseDownload(DownloadData(idx, name), count) == if idx < count then Ok((idx, name)) else Err(BadIndex(idx))
  {
    var a := NatToString(idx);
    assert DownloadData(idx, name) == "download" + "_" + (a + "_" + name);
    NumeralHasNoUnderscore(idx);
    SplitHead("download", '_', a + "_" + name, 2);
    SplitHead(a, '_', name, 1);
    ParseNatToString(idx);
  }
}
