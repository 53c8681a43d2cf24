/**
 * The category registry: the comma-separated CATEGORIES value of config.ini
 * and the in-memory list parsed from it (main.py `load_config`,
 * `process_add_category`), and the two parsed forms of `/delete`.
 */
module Registry {
  import opened Common
  import opened Text

  /** A name that survives a save and reload unchanged: stripped, non-empty, free of commas. */
  predicate Storable(name: string) {
    name != [] && Strip(name) == name && ',' !in name
  }

  predicate AllStorable(names: seq<string>) {
    forall n :: n in names ==> Storable(n)
  }

  /** Every name in `names` is the non-empty strip of some piece. */
  predicate StrippedFrom(names: seq<string>, pieces: seq<string>) {
    forall n :: n in names ==> n != [] && Strip(n) == n && exists p :: p in pieces && n == Strip(p)
  }

  lemma StorableAppend(names: seq<string>, name: string)
    requires AllStorable(names) && Storable(name)
    ensures AllStorable(names + [name])
  {
  }

  /** Strips every piece and drops the empty ones, keeping the order. */
  function CleanNames(pieces: seq<string>): (r: seq<string>)
    ensures |r| <= |pieces|
  {
    if pieces == [] then []
    else
      var t := Strip(pieces[0]);
      (if t != [] then [t] else []) + CleanNames(pieces[1..])
  }

  /** Every kept name is the non-empty strip of a piece, and is itself stripped. */
  lemma {:induction false} CleanNamesStripped(pieces: seq<string>)
    ensures StrippedFrom(CleanNames(pieces), pieces)
  {
    if pieces != [] {
      var t := Strip(pieces[0]);
      var rest := CleanNames(pieces[1..]);
      CleanNamesStripped(pieces[1..]);
      StripIdempotent(pieces[0]);
      forall n | n in CleanNames(pieces) ensures n != [] && Strip(n) == n && exists p :: p in pieces && n == Strip(p) {
        if n in rest {
          var p :| p in pieces[1..] && n == Strip(p);
          assert p in pieces;
        } else {
          assert n == t && pieces[0] in pieces;
        }
      }
    }
  }

  /** Every piece that strips to something non-empty has its strip among `names`. */
  predicate KeepsEvery(names: seq<string>, pieces: seq<string>) {
    forall i :: 0 <= i < |pieces| && Strip(pieces[i]) != [] ==> Strip(pieces[i]) in names
  }

  /** No non-blank piece is lost. */
  lemma {:induction false} CleanNamesKeepsEvery(pieces: seq<string>)
    ensures KeepsEvery(CleanNames(pieces), pieces)
  {
    if pieces != [] {
      var head: seq<string> := if Strip(pieces[0]) != [] then [Strip(pieces[0])] else [];
      var rest := CleanNames(pieces[1..]);
      assert CleanNames(pieces) == head + rest;
      CleanNamesKeepsEvery(pieces[1..]);
      forall i | 0 <= i < |pieces| && Strip(pieces[i]) != [] ensures Strip(pieces[i]) in head + rest {
        if i > 0 {
          assert pieces[i] == pieces[1..][i - 1];
          assert Strip(pieces[i]) in rest;
        }
      }
    }
  }

  /** Cleaning works piece by piece, so the names come out in the order of their pieces. */
  lemma {:induction false} CleanNamesConcat(a: seq<string>, b: seq<string>)
    ensures CleanNames(a + b) == CleanNames(a) + CleanNames(b)
  {
    if a == [] {
      assert a + b == b;
    } else {
      ConcatTail(a, b);
      var head: seq<string> := if Strip(a[0]) != [] then [Strip(a[0])] else [];
      var front, back := CleanNames(a[1..]), CleanNames(b);
      CleanNamesConcat(a[1..], b);
      assert CleanNames(a + b) == head + (front + back);
      assert CleanNames(a) == head + front;
      ConcatAssoc(head, front, back);
    }
  }

  lemma ConcatAssoc(x: seq<string>, y: seq<string>, z: seq<string>)
    ensures x + (y + z) == (x + y) + z
  {
  }

  lemma ConcatTail(a: seq<string>, b: seq<string>)
    requires a != []
    ensures (a + b)[0] == a[0] && (a + b)[1..] == a[1..] + b
  {
  }

  /** A single piece contributes its strip, unless that is empty. */
  lemma CleanNamesOne(p: string)
    ensures CleanNames([p]) == if Strip(p) != [] then [Strip(p)] else []
  {
    assert [p][1..] == [];
  }

  /** `[cat.strip() for cat in value.split(',') if cat.strip()]`. */
  function ParseCategories(value: string): (r: seq<string>)
    ensures AllStorable(r)
  {
    var pieces := Split(value, ',', -1);
    var r := CleanNames(pieces);
    CleanNamesStripped(pieces);
    SplitPartsClean(value, ',');
    assert forall n :: n in r ==> ',' !in n by {
      forall n | n in r ensures ',' !in n {
        var p :| p in pieces && n == Strip(p);
        if ',' in n {
          StripKeepsChars(p, ',');
        }
      }
    }
    r
  }

  /** Every comma-separated piece of the configured value that is not blank becomes a category. */
  lemma ParseKeepsEvery(value: string)
    ensures KeepsEvery(ParseCategories(value), Split(value, ',', -1))
  {
    CleanNamesKeepsEvery(Split(value, ',', -1));
  }

  lemma {:induction false} CleanStorable(names: seq<string>)
    requires AllStorable(names)
    ensures CleanNames(names) == names
  {
    if names != [] {
      assert names[0] in names;
      CleanStorable(names[1..]);
    }
  }

  /**
   * What `','.join(CATEGORIES)` writes back reads back as the same list,
   * provided every name is storable.
   */
  lemma ParseJoinRoundTrip(names: seq<string>)
    requires AllStorable(names)
    ensures ParseCategories(Join(names, ',')) == names
  {
    if names == [] {
      assert Split([], ',', -1) == [[]];
    } else {
      SplitJoin(names, ',');
      CleanStorable(names);
    }
  }

  /** Re-saving a freshly loaded list changes nothing on the next load. */
  lemma ReloadIsStable(value: string)
    ensures ParseCategories(Join(ParseCategories(value), ',')) == ParseCategories(value)
  {
    ParseJoinRoundTrip(ParseCategories(value));
  }

  // ----- Adding a category -----

  datatype AddError = EmptyName | AlreadyExists | ContainsSeparator

  /** The checks of `process_add_category` as written: a non-empty name not yet in the list is appended. */
  function AddNameAsWritten(categories: seq<string>, name: string): (r: Result<seq<string>, AddError>)
    ensures r.Ok? <==> name != [] && name !in categories
    ensures r.Ok? ==> r.value == categories + [name]
    ensures r.Err? ==> r.error == (if name == [] then EmptyName else AlreadyExists)
  {
    if name == [] then Err(EmptyName)
    else if name in categories then Err(AlreadyExists)
    else Ok(categories + [name])
  }

  lemma {:induction false} JoinSplitLast(before: seq<string>, left: string, right: string)
    ensures Join(before + [left + [','] + right], ',') == Join(before + [left, right], ',')
  {
    if before != [] {
      assert (before + [left + [','] + right])[1..] == before[1..] + [left + [','] + right];
      assert (before + [left, right])[1..] == before[1..] + [left, right];
      JoinSplitLast(before[1..], left, right);
    }
  }

  /**
   * A name with a comma passes the checks as written, but the saved list
   * reads back split at the comma: adding "b,c" to ["A"] saves "A,b,c",
   * which loads as ["A", "b", "c"].
   */
  lemma CommaNameSplitsOnReload(before: seq<string>, left: string, right: string)
    requires AllStorable(before)
    requires Storable(left) && Storable(right)
    ensures var name := left + [','] + right;
      && AddNameAsWritten(before, name) == Ok(before + [name])
      && ParseCategories(Join(before + [name], ',')) == before + [left, right]
      && ParseCategories(Join(before + [name], ',')) != before + [name]
  {
    var name := left + [','] + right;
    assert name[|left|] == ',';
    assert name !in before;
    JoinSplitLast(before, left, right);
    ParseJoinRoundTrip(before + [left, right]);
  }

  /** `process_add_category` with the separator also rejected, so that what is saved reloads as it was. */
  function AddName(categories: seq<string>, name: string): (r: Result<seq<string>, AddError>)
    ensures r.Ok? <==> name != [] && name !in categories && ',' !in name
    ensures r.Ok? ==> r.value == categories + [name]
    ensures r.Err? && name == [] ==> r.error == EmptyName
    ensures r.Err? && name != [] && name in categories ==> r.error == AlreadyExists
  {
    if name == [] then Err(EmptyName)
    else if name in categories then Err(AlreadyExists)
    else if ',' in name then Err(ContainsSeparator)
    else Ok(categories + [name])
  }

  /** A stripped name accepted into a storable list keeps the list storable, so the save reloads exactly. */
  lemma AddKeepsReloadable(categories: seq<string>, name: string)
    requires AllStorable(categories)
    requires Strip(name) == name
    requires AddName(categories, name).Ok?
    ensures AllStorable(AddName(categories, name).value)
    ensures ParseCategories(Join(AddName(categories, name).value, ',')) == categories + [name]
  {
    ParseJoinRoundTrip(categories + [name]);
  }

  /** Python's `list.remove(x)`: drops the first occurrence. */
  function RemoveFirst(s: seq<string>, x: string): (r: seq<string>)
    requires x in s
    ensures |r| == |s| - 1
    ensures multiset(r) == multiset(s) - multiset{x}
  {
    if s[0] == x then
      assert s == [x] + s[1..];
      s[1..]
    else
      assert s == [s[0]] + s[1..];
      [s[0]] + RemoveFirst(s[1..], x)
  }

  /** The position of the first occurrence of `x` in `s`. */
  function FirstIndex(s: seq<string>, x: string): (k: nat)
    requires x in s
    ensures k < |s| && s[k] == x && x !in s[..k]
  {
    if s[0] == x then 0
    else
      var k := 1 + FirstIndex(s[1..], x);
      assert s[..k] == [s[0]] + s[1..][..k - 1];
      k
  }

  /** `remove` cuts out exactly the first occurrence; what precedes and follows it stays in order. */
  lemma {:induction false} RemoveFirstMeaning(s: seq<string>, x: string)
    requires x in s
    ensures var k := FirstIndex(s, x); RemoveFirst(s, x) == s[..k] + s[k + 1..]
  {
    if s[0] != x {
      RemoveFirstMeaning(s[1..], x);
      CutBehindHead(s, FirstIndex(s[1..], x));
    }
  }

  /** Cutting position `k` out of the tail is cutting position `k + 1` out of the whole. */
  lemma CutBehindHead(s: seq<string>, k: nat)
    requires k + 1 < |s|
    ensures [s[0]] + (s[1..][..k] + s[1..][k + 1..]) == s[..k + 1] + s[k + 2..]
  {
    assert s[..k + 1] == [s[0]] + s[1..][..k];
    assert s[k + 2..] == s[1..][k + 1..];
  }

  /** The roll-back after a failed add removes the appended name and nothing else. */
  lemma {:induction false} RollbackRestores(categories: seq<string>, name: string)
    requires name !in categories
    ensures RemoveFirst(categories + [name], name) == categories
  {
    if categories != [] {
      assert (categories + [name])[1..] == categories[1..] + [name];
      RollbackRestores(categories[1..], name);
    }
  }

  /**
   * A confirmation that fails after the write leaves the two lists out of
   * step: the running bot has dropped the name again, while the next
   * start-up loads it from the saved value.
   */
  lemma ReplyFailureDesyncs(before: seq<string>, name: string)
    requires AllStorable(before) && Storable(name) && name !in before
    ensures RemoveFirst(before + [name], name) == before
    ensures ParseCategories(Join(before + [name], ',')) == before + [name]
    ensures name in ParseCategories(Join(before + [name], ',')) && name !in RemoveFirst(before + [name], name)
  {
    RollbackRestores(before, name);
    StorableAppend(before, name);
    ParseJoinRoundTrip(before + [name]);
  }

  // ----- Deleting a file -----

  /** The two argument forms of `/delete`, once parsed: a category index or a category name, and a file name. */
  datatype DeleteTarget = ByIndex(index: int, file: string) | ByName(category: string, file: string)

  datatype DeleteError = BadCategoryIndex(index: int) | UnknownCategory(name: string) | FileNotFound(category: string, file: string)

  /** The category a `/delete` names: an index must be in range, a name must be registered. */
  function TargetCategory(categories: seq<string>, t: DeleteTarget): (r: Result<string, DeleteError>)
    ensures r.Ok? ==> r.value in categories
    ensures r.Ok? <==> match t
      case ByIndex(i, _) => 0 <= i < |categories|
      case ByName(c, _) => c in categories
    ensures t.ByIndex? && r.Ok? ==> r.value == categories[t.index]
    ensures t.ByName? && r.Ok? ==> r.value == t.category
  {
    match t
    case ByIndex(i, _) => if 0 <= i < |categories| then Ok(categories[i]) else Err(BadCategoryIndex(i))
    case ByName(c, _) => if c in categories then Ok(c) else Err(UnknownCategory(c))
  }

  /** A directory listing after `unlink`: the named file is gone, the rest keep their order. */
  function RemoveFile(files: seq<string>, name: string): (r: seq<string>)
    ensures forall f :: f in r <==> f in files && f != name
    ensures NoDuplicates(files) ==> NoDuplicates(r)
    ensures name !in files ==> r == files
  {
    if files == [] then []
    else
      var rest := RemoveFile(files[1..], name);
      if files[0] == name then rest
      else
        assert NoDuplicates(files) ==> files[0] !in files[1..];
        [files[0]] + rest
  }

  /** In a listing without duplicates, deleting a present file removes exactly one entry. */
  lemma {:induction false} RemoveFileCount(files: seq<string>, name: string)
    requires NoDuplicates(files) && name in files
    ensures |RemoveFile(files, name)| == |files| - 1
  {
    if files[0] != name {
      assert NoDuplicates(files[1..]) by {
        forall i, j | 0 <= i < j < |files| - 1 ensures files[1..][i] != files[1..][j] {
          assert files[1..][i] == files[i + 1] && files[1..][j] == files[j + 1];
        }
      }
      RemoveFileCount(files[1..], name);
    } else {
      assert name !in files[1..] by {
        forall k | 0 <= k < |files| - 1 ensures files[1..][k] != name {
          assert files[1..][k] == files[k + 1];
        }
      }
    }
  }
}
