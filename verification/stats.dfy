/**
 * Per-user upload statistics (main.py `update_user_stats`, `show_stats_cmd`,
 * `show_all_stats_cmd`). The JSON object of user_stats.json is an
 * insertion-ordered dictionary; it is modelled as a sequence of entries with
 * distinct user ids, so that the order among equal counts is the dictionary's.
 */
module Stats {
  import opened Common
  import opened Text

  /** The sender of a message: a Telegram id and an optional username. */
  datatype User = User(id: int, username: Option<string>)

  datatype UserRecord = UserRecord(username: string, filesUploaded: int, lastActivity: string)

  datatype Entry = Entry(uid: int, record: UserRecord)

  predicate UniqueIds(entries: seq<Entry>) {
    forall i, j :: 0 <= i < j < |entries| ==> entries[i].uid != entries[j].uid
  }

  function Lookup(entries: seq<Entry>, uid: int): Option<UserRecord> {
    if entries == [] then None
    else if entries[0].uid == uid then Some(entries[0].record)
    else Lookup(entries[1..], uid)
  }

  /** `stats.get(uid, {}).get("files_uploaded", 0)`. */
  function UploadCount(entries: seq<Entry>, uid: int): int {
    match Lookup(entries, uid)
    case Some(r) => r.filesUploaded
    case None => 0
  }

  /** `user.username or f"User_{user.id}"`: a missing or empty username falls back to the id. */
  function DisplayName(user: User): (r: string)
    ensures r != []
    ensures user.username.Some? && user.username.value != [] ==> r == user.username.value
    ensures user.username.None? || user.username.value == [] ==> r == "User_" + IntToString(user.id)
  {
    match user.username
    case Some(name) => if name != [] then name else "User_" + IntToString(user.id)
    case None => "User_" + IntToString(user.id)
  }

  /** `stats[uid] = record`: replaces the entry in place, or appends it when the id is new. */
  function Upsert(entries: seq<Entry>, e: Entry): seq<Entry> {
    if entries == [] then [e]
    else if entries[0].uid == e.uid then [e] + entries[1..]
    else [entries[0]] + Upsert(entries[1..], e)
  }

  /** A new id goes at the end of the dictionary. */
  lemma {:induction false} UpsertAppends(entries: seq<Entry>, e: Entry)
    requires Lookup(entries, e.uid).None?
    ensures Upsert(entries, e) == entries + [e]
  {
    if entries != [] {
      UpsertAppends(entries[1..], e);
      assert entries == [entries[0]] + entries[1..];
    }
  }

  /** An id already present keeps its position; only its record changes. */
  lemma {:induction false} UpsertReplaces(entries: seq<Entry>, e: Entry, i: int)
    requires UniqueIds(entries) && 0 <= i < |entries| && entries[i].uid == e.uid
    ensures Upsert(entries, e) == entries[i := e]
  {
    if i == 0 {
      assert [e] + entries[1..] == entries[0 := e];
    } else {
      assert entries[0].uid != e.uid;
      UniqueTail(entries);
      assert entries[1..][i - 1] == entries[i];
      UpsertReplaces(entries[1..], e, i - 1);
      assert [entries[0]] + entries[1..][i - 1 := e] == entries[i := e];
    }
  }

  lemma UniqueTail(entries: seq<Entry>)
    requires UniqueIds(entries) && entries != []
    ensures UniqueIds(entries[1..])
  {
    forall i, j | 0 <= i < j < |entries| - 1 ensures entries[1..][i].uid != entries[1..][j].uid {
      assert entries[1..][i] == entries[i + 1] && entries[1..][j] == entries[j + 1];
    }
  }

  lemma {:induction false} UpsertEffect(entries: seq<Entry>, e: Entry)
    ensures Lookup(entries, e.uid).None? ==> Upsert(entries, e) == entries + [e]
    ensures forall i :: 0 <= i < |entries| && entries[i].uid == e.uid && UniqueIds(entries) ==> Upsert(entries, e) == entries[i := e]
    ensures Lookup(Upsert(entries, e), e.uid) == Some(e.record)
    ensures forall u :: u != e.uid ==> Lookup(Upsert(entries, e), u) == Lookup(entries, u)
    ensures forall x :: x in Upsert(entries, e) ==> x == e || x in entries
    ensures |Upsert(entries, e)| == |entries| + (if Lookup(entries, e.uid).None? then 1 else 0)
    ensures UniqueIds(entries) ==> UniqueIds(Upsert(entries, e))
  {
    if Lookup(entries, e.uid).None? {
      UpsertAppends(entries, e);
    }
    forall i | 0 <= i < |entries| && entries[i].uid == e.uid && UniqueIds(entries) ensures Upsert(entries, e) == entries[i := e] {
      UpsertReplaces(entries, e, i);
    }
    if entries != [] && entries[0].uid != e.uid {
      UpsertEffect(entries[1..], e);
      var r := Upsert(entries, e);
      assert r == [entries[0]] + Upsert(entries[1..], e);
      if UniqueIds(entries) {
        assert UniqueIds(entries[1..]) by {
          forall i, j | 0 <= i < j < |entries| - 1 ensures entries[1..][i].uid != entries[1..][j].uid {
            assert entries[1..][i] == entries[i + 1] && entries[1..][j] == entries[j + 1];
          }
        }
        forall j | 0 < j < |r| ensures r[0].uid != r[j].uid {
          assert r[j] in Upsert(entries[1..], e);
          if r[j] != e {
            var k :| 0 <= k < |entries[1..]| && entries[1..][k] == r[j];
            assert entries[k + 1] == r[j];
          }
        }
      }
    } else if entries != [] {
      var r := Upsert(entries, e);
      forall u | u != e.uid ensures Lookup(r, u) == Lookup(entries, u) {
        assert r[1..] == entries[1..];
      }
      if UniqueIds(entries) {
        forall i, j | 0 <= i < j < |r| ensures r[i].uid != r[j].uid {
          assert r[i].uid == entries[i].uid && r[j].uid == entries[j].uid;
        }
      }
    }
  }

  /** `update_user_stats`: the new record for the user, with the count one higher than before (0 if absent). */
  function Record(entries: seq<Entry>, user: User, now: string): seq<Entry> {
    Upsert(entries, Entry(user.id, UserRecord(DisplayName(user), UploadCount(entries, user.id) + 1, now)))
  }

  /**
   * Recording an upload raises the user's count by exactly one, replaces the
   * username and the timestamp, leaves every other user's record unchanged,
   * and adds an entry only for a user who had none.
   */
  lemma RecordEffect(entries: seq<Entry>, user: User, now: string)
    ensures Lookup(Record(entries, user, now), user.id)
         == Some(UserRecord(DisplayName(user), UploadCount(entries, user.id) + 1, now))
    ensures UploadCount(Record(entries, user, now), user.id) == UploadCount(entries, user.id) + 1
    ensures forall u :: u != user.id ==> Lookup(Record(entries, user, now), u) == Lookup(entries, u)
    ensures |Record(entries, user, now)| == |entries| + (if Lookup(entries, user.id).None? then 1 else 0)
    ensures UniqueIds(entries) ==> UniqueIds(Record(entries, user, now))
  {
    var e := Entry(user.id, UserRecord(DisplayName(user), UploadCount(entries, user.id) + 1, now));
    assert Record(entries, user, now) == Upsert(entries, e);
    UpsertEffect(entries, e);
  }

  /** Recording one upload per timestamp in `nows`, in order. */
  ghost function RecordAll(entries: seq<Entry>, user: User, nows: seq<string>): seq<Entry>
    decreases nows
  {
    if nows == [] then entries else RecordAll(Record(entries, user, nows[0]), user, nows[1..])
  }

  /** K recorded uploads raise the user's count by exactly K and leave the other users alone. */
  lemma {:induction false} RecordManyTimes(entries: seq<Entry>, user: User, nows: seq<string>)
    ensures UploadCount(RecordAll(entries, user, nows), user.id) == UploadCount(entries, user.id) + |nows|
    ensures forall u :: u != user.id ==> Lookup(RecordAll(entries, user, nows), u) == Lookup(entries, u)
    decreases nows
  {
    if nows != [] {
      RecordEffect(entries, user, nows[0]);
      RecordManyTimes(Record(entries, user, nows[0]), user, nows[1..]);
    }
  }

  /** `show_stats_cmd`: a user sees their record only when it shows at least one upload. */
  function PersonalStats(entries: seq<Entry>, uid: int): (r: Option<UserRecord>)
    ensures r.Some? ==> Lookup(entries, uid) == r && r.value.filesUploaded > 0
    ensures r.None? ==> UploadCount(entries, uid) <= 0
  {
    match Lookup(entries, uid)
    case Some(rec) => if rec.filesUploaded > 0 then Some(rec) else None
    case None => None
  }

  /** After an upload by a user whose count was not negative, that user's personal statistics are shown. */
  lemma UploadMakesStatsVisible(entries: seq<Entry>, user: User, now: string)
    requires UploadCount(entries, user.id) >= 0
    ensures PersonalStats(Record(entries, user, now), user.id)
         == Some(UserRecord(DisplayName(user), UploadCount(entries, user.id) + 1, now))
  {
    RecordEffect(entries, user, now);
  }

  // ----- The administrators' summary -----

  /** `valid_stats`: the users with at least one upload, in dictionary order. */
  function Uploaders(entries: seq<Entry>): (r: seq<Entry>)
    ensures forall e :: e in r <==> e in entries && e.record.filesUploaded > 0
    ensures |r| <= |entries|
    ensures forall c :: c > 0 ==> WithCount(r, c) == WithCount(entries, c)
  {
    if entries == [] then []
    else
      var rest := Uploaders(entries[1..]);
      if entries[0].record.filesUploaded > 0 then
        assert ([entries[0]] + rest)[0] == entries[0] && ([entries[0]] + rest)[1..] == rest;
        [entries[0]] + rest
      else
        rest
  }

  predicate ByCountDesc(s: seq<Entry>) {
    forall i, j :: 0 <= i < j < |s| ==> s[i].record.filesUploaded >= s[j].record.filesUploaded
  }

  /** An entry whose count is at least the head's may go in front of a descending sequence. */
  lemma {:induction false} CountFront(e: Entry, s: seq<Entry>)
    requires ByCountDesc(s) && s != [] && e.record.filesUploaded >= s[0].record.filesUploaded
    ensures ByCountDesc([e] + s)
  {
    forall i, j | 0 <= i < j < |s| + 1
      ensures ([e] + s)[i].record.filesUploaded >= ([e] + s)[j].record.filesUploaded
    {
      assert ([e] + s)[j] == s[j - 1];
      if i > 0 {
        assert ([e] + s)[i] == s[i - 1];
      }
    }
  }

  /** The head of a descending sequence stays in front of the insertion into its tail. */
  lemma {:induction false} CountBehind(e: Entry, s: seq<Entry>, rest: seq<Entry>)
    requires ByCountDesc(s) && s != [] && e.record.filesUploaded < s[0].record.filesUploaded
    requires ByCountDesc(rest) && multiset(rest) == multiset(s[1..]) + multiset{e}
    ensures ByCountDesc([s[0]] + rest) && multiset([s[0]] + rest) == multiset(s) + multiset{e}
  {
    forall j | 0 <= j < |rest| ensures s[0].record.filesUploaded >= rest[j].record.filesUploaded {
      assert rest[j] in multiset(rest);
      if rest[j] != e {
        assert rest[j] in s[1..];
        var k :| 0 <= k < |s| - 1 && s[1..][k] == rest[j];
        assert s[k + 1] == rest[j];
      }
    }
    forall i, j | 0 <= i < j < |rest| + 1
      ensures ([s[0]] + rest)[i].record.filesUploaded >= ([s[0]] + rest)[j].record.filesUploaded
    {
      assert ([s[0]] + rest)[j] == rest[j - 1];
      if i > 0 {
        assert ([s[0]] + rest)[i] == rest[i - 1];
      }
    }
    assert s == [s[0]] + s[1..];
  }

  /** Inserts `e` before the first entry with a smaller count, so earlier entries stay first among equals. */
  function InsertByCount(e: Entry, s: seq<Entry>): (r: seq<Entry>)
    requires ByCountDesc(s)
    ensures ByCountDesc(r) && multiset(r) == multiset(s) + multiset{e}
  {
    if s == [] then [e]
    else if e.record.filesUploaded >= s[0].record.filesUploaded then
      CountFront(e, s);
      [e] + s
    else
      assert ByCountDesc(s[1..]) by {
        forall i, j | 0 <= i < j < |s| - 1 ensures s[1..][i].record.filesUploaded >= s[1..][j].record.filesUploaded {
          assert s[1..][i] == s[i + 1] && s[1..][j] == s[j + 1];
        }
      }
      var rest := InsertByCount(e, s[1..]);
      CountBehind(e, s, rest);
      [s[0]] + rest
  }

  /** `sorted(..., key=files_uploaded, reverse=True)`: by count, largest first, as a rearrangement. */
  function SortByCount(s: seq<Entry>): (r: seq<Entry>)
    ensures ByCountDesc(r) && multiset(r) == multiset(s)
    ensures |r| == |s|
  {
    if s == [] then []
    else
      assert s == [s[0]] + s[1..];
      InsertByCount(s[0], SortByCount(s[1..]))
  }

  /** The entries of `s` with exactly `c` uploads, in their order in `s`. */
  function WithCount(s: seq<Entry>, c: int): seq<Entry> {
    if s == [] then []
    else (if s[0].record.filesUploaded == c then [s[0]] else []) + WithCount(s[1..], c)
  }

  lemma DescTail(s: seq<Entry>)
    requires ByCountDesc(s) && s != []
    ensures ByCountDesc(s[1..])
  {
    forall i, j | 0 <= i < j < |s| - 1 ensures s[1..][i].record.filesUploaded >= s[1..][j].record.filesUploaded {
      assert s[1..][i] == s[i + 1] && s[1..][j] == s[j + 1];
    }
  }

  /** An inserted entry goes in front of every entry that ties with it. */
  lemma {:induction false} InsertByCountStable(e: Entry, t: seq<Entry>, c: int)
    requires ByCountDesc(t)
    ensures WithCount(InsertByCount(e, t), c) == (if e.record.filesUploaded == c then [e] else []) + WithCount(t, c)
  {
    var mine: seq<Entry> := if e.record.filesUploaded == c then [e] else [];
    if t == [] {
      assert WithCount([e], c) == mine + [] by {
        assert [e][1..] == [];
      }
    } else if e.record.filesUploaded >= t[0].record.filesUploaded {
      assert ([e] + t)[0] == e && ([e] + t)[1..] == t;
    } else {
      DescTail(t);
      var rest := InsertByCount(e, t[1..]);
      InsertByCountStable(e, t[1..], c);
      assert ([t[0]] + rest)[0] == t[0] && ([t[0]] + rest)[1..] == rest;
      var head: seq<Entry> := if t[0].record.filesUploaded == c then [t[0]] else [];
      assert head == [] || mine == [];
      calc {
        WithCount([t[0]] + rest, c);
        head + WithCount(rest, c);
        head + (mine + WithCount(t[1..], c));
        mine + (head + WithCount(t[1..], c));
        mine + WithCount(t, c);
      }
    }
  }

  /**
   * The sort is stable, as Python's is: entries with the same count keep
   * the order they had in the input.
   */
  lemma {:induction false} SortByCountStable(s: seq<Entry>, c: int)
    ensures WithCount(SortByCount(s), c) == WithCount(s, c)
  {
    if s != [] {
      SortByCountStable(s[1..], c);
      InsertByCountStable(s[0], SortByCount(s[1..]), c);
    }
  }

  /**
   * In the administrators' ranking, users with the same count appear in the
   * order of the statistics dictionary, that is, of their first upload.
   */
  lemma TiesFollowDictionaryOrder(entries: seq<Entry>, c: int)
    requires c > 0
    ensures WithCount(SortByCount(Uploaders(entries)), c) == WithCount(entries, c)
  {
    SortByCountStable(Uploaders(entries), c);
  }

  function TotalUploads(s: seq<Entry>): int {
    if s == [] then 0 else s[0].record.filesUploaded + TotalUploads(s[1..])
  }

  const TopLimit: nat := 10

  datatype Summary = NoStats | NoUploaders | Report(top: seq<Entry>, uploaders: nat, totalUploads: int)

  /** `show_all_stats_cmd` once the sender is known to be an administrator. */
  function Summarize(entries: seq<Entry>): (r: Summary)
    ensures r == NoStats <==> entries == []
  {
    if entries == [] then NoStats
    else
      var valid := Uploaders(entries);
      if valid == [] then NoUploaders
      else
        var sorted := SortByCount(valid);
        Report(if |sorted| > TopLimit then sorted[..TopLimit] else sorted, |valid|, TotalUploads(valid))
  }

  lemma {:induction false} TotalOfPositives(s: seq<Entry>)
    requires forall e :: e in s ==> e.record.filesUploaded > 0
    ensures TotalUploads(s) >= |s|
  {
    if s != [] {
      assert s[0] in s;
      TotalOfPositives(s[1..]);
    }
  }

  /** A prefix of a list sorted by count holds the largest counts: nothing after the cut exceeds anything before it. */
  lemma {:induction false} PrefixHoldsLargest(sorted: seq<Entry>, n: nat, e: Entry, t: Entry)
    requires ByCountDesc(sorted) && n <= |sorted|
    requires e in sorted && e !in sorted[..n] && t in sorted[..n]
    ensures t.record.filesUploaded >= e.record.filesUploaded
  {
    var k :| 0 <= k < |sorted| && sorted[k] == e;
    var m :| 0 <= m < n && sorted[..n][m] == t;
    assert sorted[m] == t;
    assert k >= n by {
      assert forall i :: 0 <= i < n ==> sorted[i] == sorted[..n][i];
    }
  }

  lemma NoUploadersMeaning(entries: seq<Entry>)
    ensures Summarize(entries) == NoUploaders <==>
      entries != [] && forall e :: e in entries ==> e.record.filesUploaded <= 0
  {
    var valid := Uploaders(entries);
    if valid != [] {
      assert valid[0] in valid;
    }
  }

  /** Nobody in `pool` but outside `top` has a larger count than anyone in `top`. */
  predicate Outranks(top: seq<Entry>, pool: seq<Entry>) {
    forall e, t :: e in pool && e !in top && t in top ==> t.record.filesUploaded >= e.record.filesUploaded
  }

  lemma {:induction false} PrefixByCount(sorted: seq<Entry>, n: nat)
    requires ByCountDesc(sorted) && n <= |sorted|
    ensures ByCountDesc(sorted[..n])
  {
    forall i, j | 0 <= i < j < n
      ensures sorted[..n][i].record.filesUploaded >= sorted[..n][j].record.filesUploaded
    {
      assert sorted[..n][i] == sorted[i] && sorted[..n][j] == sorted[j];
    }
  }

  /** The first `n` entries of the sorted uploaders, as the report keeps them. */
  lemma {:induction false} TopOfSorted(valid: seq<Entry>, n: nat)
    requires n <= |valid|
    ensures var top := SortByCount(valid)[..n];
      && ByCountDesc(top)
      && (forall e :: e in top ==> e in valid)
      && Outranks(top, valid)
  {
    var sorted := SortByCount(valid);
    var top := sorted[..n];
    PrefixByCount(sorted, n);
    forall e | e in top ensures e in valid {
      assert e in multiset(sorted);
    }
    forall e, t | e in valid && e !in top && t in top
      ensures t.record.filesUploaded >= e.record.filesUploaded
    {
      assert e in multiset(sorted);
      PrefixHoldsLargest(sorted, n, e, t);
    }
  }

  /**
   * The report's meaning: at most ten users, all with positive counts,
   * listed from the largest count down, nobody left out having more than
   * anyone listed, and totals taken over every user with a positive count.
   */
  lemma ReportMeaning(entries: seq<Entry>)
    requires Summarize(entries).Report?
    ensures var r := Summarize(entries);
      && |r.top| == (if r.uploaders < TopLimit then r.uploaders else TopLimit)
      && ByCountDesc(r.top)
      && (forall e :: e in r.top ==> e in entries && e.record.filesUploaded > 0)
      && (forall e, t :: e in entries && e.record.filesUploaded > 0 && e !in r.top && t in r.top ==>
            t.record.filesUploaded >= e.record.filesUploaded)
      && r.uploaders == |Uploaders(entries)|
      && r.totalUploads == TotalUploads(Uploaders(entries))
      && r.totalUploads >= r.uploaders
  {
    var valid := Uploaders(entries);
    var n := if |valid| > TopLimit then TopLimit else |valid|;
    TopOfSorted(valid, n);
    var sorted := SortByCount(valid);
    assert Summarize(entries).top == sorted[..n] by {
      if |sorted| <= TopLimit {
        assert sorted[..n] == sorted;
      }
    }
    TotalOfPositives(valid);
  }
}
