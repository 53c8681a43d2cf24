/**
 * The bot's mutable state and the handlers that change it: the category
 * list with its persisted CATEGORIES value, the files directory (one
 * listing per category, in enumeration order) and the upload statistics.
 */
module Repository {
  import opened Common
  import opened Text
  import opened FileNames
  import opened Callbacks
  import opened Paging
  import opened Search
  import opened Stats
  import opened Registry

  /** What a user sends to upload: a document with its own name, or a photo named after its unique id. */
  datatype Attachment = Document(fileName: string, size: int) | Photo(uniqueId: string, size: int)

  /** `message.document.file_name`, or `f"photo_{file_unique_id}.jpg"` for a photo. */
  function OriginalName(a: Attachment): string {
    match a
    case Document(name, _) => name
    case Photo(id, _) => "photo_" + id + ".jpg"
  }

  function FileSet(files: seq<string>): set<string> {
    set f | f in files
  }

  /**
   * `DirFailed` stands for `mkdir` raising: it happens outside the handler's
   * `try`, so nothing is written, counted or answered.
   */
  datatype UploadOutcome =
    | NoCategory
    | Rejected(reason: Rejection)
    | DirFailed
    | SaveFailed(name: string, counter: nat)
    | Saved(name: string, counter: nat)

  /**
   * `saved` is the CATEGORIES value written back to config.ini. `ReplyFailed`
   * is a confirmation that raised after the write: the name is taken out of
   * the list again, but config.ini keeps it.
   */
  datatype AddOutcome =
    | AddDenied
    | AddRejected(error: AddError)
    | AddFailed(name: string)
    | ReplyFailed(name: string, saved: string)
    | Added(name: string, saved: string)

  datatype DeleteOutcome =
    | DeleteDenied
    | DeleteRejected(error: DeleteError)
    | DeleteFailed(category: string, file: string)
    | Deleted(category: string, file: string)

  /** The three answers of `show_stats_cmd`: none at all, "no uploads yet", or the sender's record. */
  datatype StatsReply = Ignored | NoUploads | Personal(record: UserRecord)

  datatype PageRequestError = BadPageCallback(error: CallbackError) | PageRefused(reason: PageError)

  datatype DownloadError = BadDownloadCallback(error: CallbackError) | FileMissing(category: string, file: string)

  /** No directory lists a name twice. */
  predicate DirsValid(dirs: map<string, seq<string>>) {
    forall c :: c in dirs ==> NoDuplicates(dirs[c])
  }

  lemma UpdateDir(dirs: map<string, seq<string>>, c: string, files: seq<string>)
    requires DirsValid(dirs) && NoDuplicates(files)
    ensures DirsValid(dirs[c := files])
  {
  }

  lemma AppendFresh(files: seq<string>, name: string)
    requires NoDuplicates(files) && name !in files
    ensures NoDuplicates(files + [name])
  {
  }

  class Catalog {
    const admins: set<int>
    const authorized: set<int>
    const maxFileSize: int
    const allowedExtensions: seq<string>
    /** The word characters of the sanitising pattern. */
    const word: WordClass

    /** CATEGORIES, as parsed at start-up and updated by /addcategory. */
    var categories: seq<string>
    /** FILES_DIR: the regular files of each existing category directory, in enumeration order. */
    var dirs: map<string, seq<string>>
    /** user_stats.json, in key order. */
    var stats: seq<Entry>

    /**
     * Every category name survives a save and reload, no directory lists a
     * name twice, and the statistics hold one entry per user.
     */
    ghost predicate Valid()
      reads this
    {
      && AllStorable(categories)
      && DirsValid(dirs)
      && UniqueIds(stats)
    }

    /** Start-up: the category list is parsed from the configured value. */
    constructor (admins: set<int>, authorized: set<int>, maxFileSize: int, allowedExtensions: seq<string>,
                 word: WordClass, categoriesValue: string, dirs: map<string, seq<string>>, stats: seq<Entry>)
      requires DirsValid(dirs)
      requires UniqueIds(stats)
      ensures Valid()
      ensures this.admins == admins && this.authorized == authorized && this.maxFileSize == maxFileSize
      ensures this.allowedExtensions == allowedExtensions && this.word == word
      ensures categories == ParseCategories(categoriesValue)
      ensures this.dirs == dirs && this.stats == stats
    {
      this.admins := admins;
      this.authorized := authorized;
      this.maxFileSize := maxFileSize;
      this.allowedExtensions := allowedExtensions;
      this.word := word;
      this.categories := ParseCategories(categoriesValue);
      this.dirs := dirs;
      this.stats := stats;
    }

    /** `is_authorized`: listed users and administrators may use the bot. */
    predicate IsAuthorized(uid: int) {
      uid in authorized || uid in admins
    }

    /** The listing of a category directory, empty when the directory does not exist. */
    function Files(c: string): (r: seq<string>)
      reads this
      ensures c !in dirs ==> r == []
    {
      if c in dirs then dirs[c] else []
    }

    function DirOf(c: string): (r: Option<seq<string>>)
      reads this
      ensures r.Some? <==> c in dirs
    {
      if c in dirs then Some(dirs[c]) else None
    }

    // ----- Uploading -----

    /** `update_user_stats`: the sender's entry is replaced by one with a count one higher. */
    method RecordUpload(user: User, now: string)
      requires Valid()
      modifies this
      ensures Valid()
      ensures stats == Record(old(stats), user, now)
      ensures UploadCount(stats, user.id) == UploadCount(old(stats), user.id) + 1
      ensures categories == old(categories) && dirs == old(dirs)
    {
      RecordEffect(stats, user, now);
      stats := Record(stats, user, now);
    }

    /**
     * The placement half of `handle_file`: create the category directory,
     * pick the first free name of the collision sequence, save the file and
     * count the upload. `mkdirFails` stands for creating the directory
     * raising, `saveFails` for the download raising before any file is
     * written.
     */
    method Place(user: User, c: string, fileName: string, now: string, mkdirFails: bool, saveFails: bool)
      returns (outcome: UploadOutcome)
      requires Valid()
      modifies this
      ensures Valid()
      ensures categories == old(categories)
      ensures outcome.Saved? || outcome.SaveFailed? || outcome.DirFailed?
      ensures outcome.DirFailed? <==> mkdirFails
      ensures outcome.Saved? <==> !mkdirFails && !saveFails
      ensures outcome.DirFailed? ==> dirs == old(dirs) && stats == old(stats)
      ensures !outcome.DirFailed? ==>
        && outcome.name == Candidate(fileName, outcome.counter)
        && !PathExists(FileSet(old(Files(c))), outcome.name)
        && AllTaken(FileSet(old(Files(c))), fileName, outcome.counter)
      ensures outcome.Saved? ==>
        && dirs == old(dirs)[c := old(Files(c)) + [outcome.name]]
        && outcome.name !in old(Files(c))
        && stats == Record(old(stats), user, now)
      ensures outcome.SaveFailed? ==> dirs == old(dirs)[c := old(Files(c))] && stats == old(stats)
    {
      if mkdirFails {
        return DirFailed;
      }
      var original, before := dirs, Files(c);
      UpdateDir(original, c, before);
      dirs := original[c := before];
      var name, counter := ResolveCollision(FileSet(before), fileName);
      if saveFails {
        return SaveFailed(name, counter);
      }
      AppendFresh(before, name);
      UpdateDir(original, c, before + [name]);
      dirs := original[c := before + [name]];
      RecordUpload(user, now);
      outcome := Saved(name, counter);
    }

    /**
     * `handle_file` after a category was chosen: sanitise the name, check
     * size and extension, then place the file.
     */
    method Upload(user: User, category: Option<string>, attachment: Attachment, now: string, mkdirFails: bool, saveFails: bool)
      returns (outcome: UploadOutcome)
      requires Valid()
      modifies this
      ensures Valid()
      ensures categories == old(categories)
      ensures outcome == NoCategory <==> category.None?
      ensures category.Some? ==>
        var rejection := Admission(Sanitize(word, OriginalName(attachment)), attachment.size, maxFileSize, allowedExtensions);
        && (outcome.Rejected? <==> rejection.Some?)
        && (outcome.Rejected? ==> outcome.reason == rejection.value)
        && (outcome.DirFailed? <==> rejection.None? && mkdirFails)
        && (outcome.Saved? <==> rejection.None? && !mkdirFails && !saveFails)
      ensures outcome.NoCategory? || outcome.Rejected? || outcome.DirFailed? ==> dirs == old(dirs) && stats == old(stats)
      ensures outcome.Saved? || outcome.SaveFailed? ==>
        var before := old(Files(category.value));
        && outcome.name == Candidate(Sanitize(word, OriginalName(attachment)), outcome.counter)
        && !PathExists(FileSet(before), outcome.name)
        && AllTaken(FileSet(before), Sanitize(word, OriginalName(attachment)), outcome.counter)
      ensures outcome.Saved? ==>
        && dirs == old(dirs)[category.value := old(Files(category.value)) + [outcome.name]]
        && stats == Record(old(stats), user, now)
      ensures outcome.SaveFailed? ==>
        dirs == old(dirs)[category.value := old(Files(category.value))] && stats == old(stats)
    {
      if category.None? {
        return NoCategory;
      }
      var fileName := Sanitize(word, OriginalName(attachment));
      var rejection := Admission(fileName, attachment.size, maxFileSize, allowedExtensions);
      if rejection.Some? {
        return Rejected(rejection.value);
      }
      outcome := Place(user, category.value, fileName, now, mkdirFails, saveFails);
    }

    // ----- The category registry -----

    /**
     * The part of `process_add_category` after the checks: append the name,
     * create its directory, save the list as a comma-join and confirm; if
     * any of these raises, remove the name from the list again.
     * `replyFails` stands for the confirmation message raising.
     */
    method Append(name: string, mkdirFails: bool, writeFails: bool, replyFails: bool) returns (outcome: AddOutcome)
      requires Valid()
      requires Storable(name) && name !in categories
      modifies this
      ensures Valid()
      ensures stats == old(stats)
      ensures outcome.Added? <==> !mkdirFails && !writeFails && !replyFails
      ensures outcome.ReplyFailed? <==> !mkdirFails && !writeFails && replyFails
      ensures outcome.Added? || outcome.AddFailed? || outcome.ReplyFailed?
      ensures outcome.name == name
      ensures outcome.Added? ==>
        && categories == old(categories) + [name]
        && outcome.saved == Join(categories, ',')
      ensures outcome.ReplyFailed? ==> outcome.saved == Join(old(categories) + [name], ',')
      ensures !outcome.Added? ==> categories == old(categories)
      ensures mkdirFails ==> dirs == old(dirs)
      ensures !mkdirFails ==> dirs == old(dirs)[name := old(Files(name))]
    {
      var before, original, files := categories, dirs, Files(name);
      RollbackRestores(before, name);
      StorableAppend(before, name);
      categories := before + [name];
      if mkdirFails {
        categories := RemoveFirst(before + [name], name);
        return AddFailed(name);
      }
      UpdateDir(original, name, files);
      dirs := original[name := files];
      if writeFails {
        categories := RemoveFirst(before + [name], name);
        return AddFailed(name);
      }
      var saved := Join(before + [name], ',');
      if replyFails {
        categories := RemoveFirst(before + [name], name);
        return ReplyFailed(name, saved);
      }
      outcome := Added(name, saved);
    }

    /**
     * `process_add_category` for an administrator: the stripped name must
     * be non-empty, new and free of commas before it is appended.
     */
    method AddCategory(actor: int, raw: string, mkdirFails: bool, writeFails: bool, replyFails: bool) returns (outcome: AddOutcome)
      requires Valid()
      modifies this
      ensures Valid()
      ensures stats == old(stats)
      ensures outcome == AddDenied <==> actor !in admins
      ensures actor in admins && AddName(old(categories), Strip(raw)).Err? ==>
        outcome == AddRejected(AddName(old(categories), Strip(raw)).error)
      ensures outcome.Added? <==> actor in admins && AddName(old(categories), Strip(raw)).Ok? && !mkdirFails && !writeFails && !replyFails
      ensures outcome.ReplyFailed? <==> actor in admins && AddName(old(categories), Strip(raw)).Ok? && !mkdirFails && !writeFails && replyFails
      ensures outcome.ReplyFailed? ==>
        && outcome.name == Strip(raw)
        && outcome.saved == Join(old(categories) + [outcome.name], ',')
      ensures outcome.Added? ==>
        && outcome.name == Strip(raw)
        && categories == old(categories) + [outcome.name]
        && outcome.saved == Join(categories, ',')
        && dirs == old(dirs)[outcome.name := old(Files(outcome.name))]
      ensures !outcome.Added? ==> categories == old(categories)
      ensures outcome.AddDenied? || outcome.AddRejected? || (outcome.AddFailed? && mkdirFails) ==> dirs == old(dirs)
      ensures (outcome.AddFailed? && !mkdirFails) || outcome.ReplyFailed? ==> dirs == old(dirs)[outcome.name := old(Files(outcome.name))]
    {
      if actor !in admins {
        return AddDenied;
      }
      var name := Strip(raw);
      var check := AddName(categories, name);
      if check.Err? {
        return AddRejected(check.error);
      }
      StripIdempotent(raw);
      outcome := Append(name, mkdirFails, writeFails, replyFails);
    }

    /** Whatever list a successful add saves loads back unchanged at the next start-up. */
    lemma SavedListReloads()
      requires Valid()
      ensures ParseCategories(Join(categories, ',')) == categories
    {
      ParseJoinRoundTrip(categories);
    }

    /**
     * `delete_file_cmd` once its arguments are parsed: the category must be
     * resolvable and the file present; then the file is unlinked.
     * `unlinkFails` stands for `unlink` raising.
     */
    method DeleteFile(actor: int, target: DeleteTarget, unlinkFails: bool) returns (outcome: DeleteOutcome)
      requires Valid()
      modifies this
      ensures Valid()
      ensures categories == old(categories) && stats == old(stats)
      ensures outcome == DeleteDenied <==> actor !in admins
      ensures actor in admins && TargetCategory(categories, target).Err? ==>
        outcome == DeleteRejected(TargetCategory(categories, target).error)
      ensures actor in admins && TargetCategory(categories, target).Ok? ==>
        var c := TargetCategory(categories, target).value;
        && (target.file !in old(Files(c)) <==> outcome == DeleteRejected(FileNotFound(c, target.file)))
        && (outcome.Deleted? <==> target.file in old(Files(c)) && !unlinkFails)
      ensures outcome.Deleted? ==>
        var c := outcome.category;
        && c == TargetCategory(categories, target).value && outcome.file == target.file
        && dirs == old(dirs)[c := RemoveFile(old(dirs)[c], target.file)]
      ensures !outcome.Deleted? ==> dirs == old(dirs)
    {
      if actor !in admins {
        return DeleteDenied;
      }
      var resolved := TargetCategory(categories, target);
      if resolved.Err? {
        return DeleteRejected(resolved.error);
      }
      var c := resolved.value;
      if target.file !in Files(c) {
        return DeleteRejected(FileNotFound(c, target.file));
      }
      if unlinkFails {
        return DeleteFailed(c, target.file);
      }
      dirs := dirs[c := RemoveFile(dirs[c], target.file)];
      outcome := Deleted(c, target.file);
    }

    // ----- Browsing -----

    /** `category_chosen`: the category a `category_idx_{i}` button selects for an upload. */
    function ChooseCategory(data: string): (r: Result<string, CallbackError>)
      reads this
      ensures r.Ok? ==> r.value in categories
    {
      match ParseChoice(data, |categories|)
      case Ok(i) => Ok(categories[i])
      case Err(e) => Err(e)
    }

    /** `list_files_in_category`: page 1 of the category a `list_idx_{i}` button names. */
    function OpenCategory(data: string): (r: Result<Listing, CallbackError>)
      reads this
    {
      match ParseChoice(data, |categories|)
      case Ok(i) => Ok(ListCategory(DirOf(categories[i])))
      case Err(e) => Err(e)
    }

    /** `show_page_files`: the page a `page_list_{idx}_{page}` button names. */
    function OpenPage(data: string): (r: Result<PageView, PageRequestError>)
      reads this
    {
      match ParsePage(data, |categories|)
      case Err(e) => Err(BadPageCallback(e))
      case Ok((i, page)) =>
        match ShowPage(DirOf(categories[i]), page)
        case Ok(v) => Ok(v)
        case Err(e) => Err(PageRefused(e))
    }

    /** `download_file_cmd`: the (category, file) a `download_{idx}_{name}` button names, if that file exists. */
    function ResolveDownload(data: string): (r: Result<(string, string), DownloadError>)
      reads this
      ensures r.Ok? ==> r.value.0 in categories && r.value.1 in Files(r.value.0)
    {
      match ParseDownload(data, |categories|)
      case Err(e) => Err(BadDownloadCallback(e))
      case Ok((i, name)) =>
        var c := categories[i];
        if name in Files(c) then Ok((c, name)) else Err(FileMissing(c, name))
    }

    /** Every category button of the upload menu selects its own category. */
    lemma CategoryButtonsSelect(i: nat)
      requires i < |categories|
      ensures ChooseCategory(CategoryData(i)) == Ok(categories[i])
    {
      CategoryDataRoundTrip(i, |categories|);
    }

    /** Every category button of the listing menu opens page 1 of its own category. */
    lemma ListButtonsOpen(i: nat)
      requires i < |categories|
      ensures OpenCategory(ListData(i)) == Ok(ListCategory(DirOf(categories[i])))
    {
      ListDataRoundTrip(i, |categories|);
    }

    /** A page button opens that page of its own category, or is refused exactly when the page is out of range. */
    lemma PageButtonsOpen(i: nat, page: nat)
      requires i < |categories|
      ensures categories[i] !in dirs ==> OpenPage(PageData(i, page)) == Err(PageRefused(CategoryMissing))
      ensures categories[i] in dirs ==>
        (OpenPage(PageData(i, page)).Ok? <==> 1 <= page <= TotalPages(|dirs[categories[i]]|))
      ensures OpenPage(PageData(i, page)).Ok? ==>
        Some(OpenPage(PageData(i, page)).value) == PageOf(SortNames(dirs[categories[i]]), page)
    {
      PageDataRoundTrip(i, page, |categories|);
      assert ParsePage(PageData(i, page), |categories|) == Ok((i, page as int));
    }

    /** A download button for a file present in a category fetches exactly that file. */
    lemma DownloadButtonsFetch(i: nat, file: string)
      requires i < |categories| && file in Files(categories[i])
      ensures ResolveDownload(DownloadData(i, file)) == Ok((categories[i], file))
    {
      DownloadDataRoundTrip(i, file, |categories|);
    }

    /** Every download button a search shows fetches one of the shown hits. */
    lemma SearchButtonsFetch(text: string)
      requires |NormalizeQuery(text)| >= MinQueryLength
      ensures var q := NormalizeQuery(text);
        var hits := CategoryHits(q, categories, dirs, |categories|);
        var shown := hits[..Min(ShownLimit, |hits|)];
        forall b :: b in Buttons(shown) ==>
          exists h :: h in shown && ResolveDownload(b) == Ok((h.category, h.file))
    {
      var q := NormalizeQuery(text);
      var hits := CategoryHits(q, categories, dirs, |categories|);
      var shown := hits[..Min(ShownLimit, |hits|)];
      FoundShowsFirstHits(text, categories, dirs);
      forall b | b in Buttons(shown)
        ensures exists h :: h in shown && ResolveDownload(b) == Ok((h.category, h.file))
      {
        var h :| h in shown && ParseDownload(b, |categories|) == Ok((h.index, h.file));
        assert IsHit(q, categories, dirs, |categories|, h);
      }
    }

    // ----- Statistics -----

    /**
     * `show_stats_cmd`: nothing for a user who is not authorized, otherwise
     * the sender's own record when it shows an upload.
     */
    function MyStats(uid: int): (r: StatsReply)
      reads this
      ensures r.Ignored? <==> !IsAuthorized(uid)
      ensures r.Personal? <==> IsAuthorized(uid) && UploadCount(stats, uid) > 0
      ensures r.Personal? ==> Lookup(stats, uid) == Some(r.record)
    {
      if !IsAuthorized(uid) then Ignored
      else match PersonalStats(stats, uid)
        case Some(rec) => Personal(rec)
        case None => NoUploads
    }

    /** An administrator sees their own statistics without being listed as an authorized user. */
    lemma AdminsSeeOwnStats(uid: int)
      requires uid in admins
      ensures MyStats(uid) == if UploadCount(stats, uid) > 0 then Personal(Lookup(stats, uid).value) else NoUploads
    {
    }

    /** `show_all_stats_cmd`: administrators only. */
    function AllStats(actor: int): (r: Option<Summary>)
      reads this
      ensures r.Some? <==> actor in admins
      ensures r.Some? ==> r.value == Summarize(stats)
    {
      if actor in admins then Some(Summarize(stats)) else None
    }
  }
}
