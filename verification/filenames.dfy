/**
 * Naming of uploaded files (main.py `handle_file`): the sanitising
 * substitution, `os.path.splitext`, the size and extension admission rule,
 * and the loop that picks a free name inside the category directory.
 */
module FileNames {
  import opened Common
  import opened Text

  /**
   * The regular-expression class `\w`. Its exact Unicode extent is left
   * abstract; like Python's it contains '_' and contains neither the path
   * separator nor NUL.
   */
  type WordClass = w: char -> bool | w('_') && !w('/') && !w('\0') witness (c: char) => c == '_'

  /** The characters `[\w\.\-\[\]\(\)]` that sanitising keeps. */
  predicate Kept(w: WordClass, c: char) {
    w(c) || c == '.' || c == '-' || c == '[' || c == ']' || c == '(' || c == ')'
  }

  predicate AllKept(w: WordClass, s: string) {
    forall i :: 0 <= i < |s| ==> Kept(w, s[i])
  }

  /** The rest of `s` after its leading run of characters that are not kept. */
  function SkipRun(w: WordClass, s: string): (r: string)
    ensures |r| <= |s|
    ensures r == [] || Kept(w, r[0])
  {
    if s != [] && !Kept(w, s[0]) then SkipRun(w, s[1..]) else s
  }

  /**
   * `re.sub(r'[^\w\.\-\[\]\(\)]+', '_', s)`: every maximal run of characters
   * that are not kept becomes a single '_'.
   */
  function Sanitize(w: WordClass, s: string): (r: string)
    ensures AllKept(w, r)
    ensures |r| <= |s|
    decreases |s|
  {
    if s == [] then []
    else if Kept(w, s[0]) then [s[0]] + Sanitize(w, s[1..])
    else "_" + Sanitize(w, SkipRun(w, s[1..]))
  }

  /** A string made only of kept characters is left alone. */
  lemma {:induction false} SanitizeKeepsClean(w: WordClass, s: string)
    requires AllKept(w, s)
    ensures Sanitize(w, s) == s
  {
    if s != [] {
      SanitizeKeepsClean(w, s[1..]);
    }
  }

  /** Sanitising is idempotent, and a string is unchanged exactly when all its characters are kept. */
  lemma SanitizeIdempotent(w: WordClass, s: string)
    ensures Sanitize(w, Sanitize(w, s)) == Sanitize(w, s)
    ensures Sanitize(w, s) == s <==> AllKept(w, s)
  {
    SanitizeKeepsClean(w, Sanitize(w, s));
    if AllKept(w, s) {
      SanitizeKeepsClean(w, s);
    }
  }

  /** A whole run of rejected characters, however long, is replaced by one '_'. */
  lemma {:induction false} SanitizeRun(w: WordClass, run: string, rest: string)
    requires run != [] && forall i :: 0 <= i < |run| ==> !Kept(w, run[i])
    requires rest == [] || Kept(w, rest[0])
    ensures Sanitize(w, run + rest) == "_" + Sanitize(w, rest)
  {
    SkipRunPast(w, run[1..], rest);
    assert (run + rest)[1..] == run[1..] + rest;
  }

  /** Characters that are kept pass through unchanged in front of whatever follows. */
  lemma {:induction false} SanitizeKeptPrefix(w: WordClass, k: string, s: string)
    requires AllKept(w, k)
    ensures Sanitize(w, k + s) == k + Sanitize(w, s)
  {
    if k != [] {
      assert Kept(w, k[0]);
      assert (k + s)[0] == k[0] && (k + s)[1..] == k[1..] + s;
      SanitizeKeptPrefix(w, k[1..], s);
      assert [k[0]] + (k[1..] + Sanitize(w, s)) == k + Sanitize(w, s);
    } else {
      assert k + s == s;
    }
  }

  /** Anywhere in a name, a maximal run of rejected characters becomes a single '_'. */
  lemma SanitizeRunAfter(w: WordClass, k: string, run: string, rest: string)
    requires AllKept(w, k)
    requires run != [] && forall i :: 0 <= i < |run| ==> !Kept(w, run[i])
    requires rest == [] || Kept(w, rest[0])
    ensures Sanitize(w, k + run + rest) == k + "_" + Sanitize(w, rest)
  {
    assert k + run + rest == k + (run + rest);
    SanitizeKeptPrefix(w, k, run + rest);
    SanitizeRun(w, run, rest);
  }

  lemma {:induction false} SkipRunPast(w: WordClass, run: string, rest: string)
    requires forall i :: 0 <= i < |run| ==> !Kept(w, run[i])
    requires rest == [] || Kept(w, rest[0])
    ensures SkipRun(w, run + rest) == rest
  {
    if run != [] {
      SkipRunPast(w, run[1..], rest);
      assert (run + rest)[1..] == run[1..] + rest;
    }
  }

  /** Position of the last `c` in `s`, or -1 (Python's `str.rfind`). */
  function LastIndexOf(s: string, c: char): (k: int)
    ensures -1 <= k < |s|
    ensures k >= 0 ==> s[k] == c
    ensures forall j :: k < j < |s| ==> s[j] != c
  {
    if s == [] then -1
    else if s[|s| - 1] == c then |s| - 1
    else LastIndexOf(s[..|s| - 1], c)
  }

  /**
   * The dot that `os.path.splitext` splits at: the last '.' of the name lies
   * after its last '/', and some character between the two is not a dot.
   */
  predicate DotStartsExtension(p: string) {
    var sepIndex := LastIndexOf(p, '/');
    var dotIndex := LastIndexOf(p, '.');
    dotIndex > sepIndex && exists i :: sepIndex < i < dotIndex && p[i] != '.'
  }

  /**
   * `os.path.splitext` on POSIX: the extension starts at the last '.' of the
   * last path segment, provided some character before that dot in the
   * segment is not a dot (so the leading dots of ".bashrc" or "..x" start
   * no extension).
   */
  function SplitExt(p: string): (r: (string, string))
    ensures r.0 + r.1 == p
    ensures r.1 == [] || (r.1[0] == '.' && '.' !in r.1[1..] && '/' !in r.1)
    ensures r.1 != [] <==> DotStartsExtension(p)
    ensures r.1 != [] ==> r.1 == p[LastIndexOf(p, '.')..]
  {
    var sepIndex := LastIndexOf(p, '/');
    var dotIndex := LastIndexOf(p, '.');
    if dotIndex > sepIndex && exists i :: sepIndex < i < dotIndex && p[i] != '.' then
      assert forall j :: dotIndex < j < |p| ==> p[j] != '.' && p[j] != '/';
      (p[..dotIndex], p[dotIndex..])
    else
      (p, [])
  }

  /** A name whose only dots are leading ones, such as ".bashrc" or "..", has no extension. */
  lemma LeadingDotsNoExtension(p: string)
    requires '/' !in p
    requires forall i :: 0 <= i < |p| && p[i] == '.' ==> forall j :: 0 <= j < i ==> p[j] == '.'
    ensures SplitExt(p) == (p, [])
  {
  }

  /** A stem whose last path segment holds a character other than a dot. */
  predicate SegmentHasNonDot(stem: string) {
    exists i :: LastIndexOf(stem, '/') < i < |stem| && stem[i] != '.'
  }

  /**
   * A dot and a suffix free of dots and slashes, after a stem whose last
   * segment is not all dots, are split off as the extension, whatever dots
   * the stem holds: "a.b" + ".pdf" splits as ("a.b", ".pdf").
   */
  lemma SplitExtOf(stem: string, e: string)
    requires SegmentHasNonDot(stem)
    requires '.' !in e && '/' !in e
    ensures SplitExt(stem + "." + e) == (stem, "." + e)
  {
    var p := stem + "." + e;
    assert forall j :: 0 <= j < |stem| ==> p[j] == stem[j];
    assert forall j :: |stem| < j < |p| ==> p[j] == e[j - |stem| - 1];
    assert p[|stem|] == '.';
    var s := LastIndexOf(stem, '/');
    assert LastIndexOf(p, '.') == |stem|;
    assert s >= 0 ==> p[s] == '/';
    assert forall j :: s < j < |p| ==> p[j] != '/';
    assert LastIndexOf(p, '/') == s;
    var i :| s < i < |stem| && stem[i] != '.';
    assert p[i] != '.';
    assert p[..|stem|] == stem && p[|stem|..] == "." + e;
  }

  /** The extension the admission rule compares: `os.path.splitext(name)[1].lower()`. */
  function Extension(name: string): (ext: string)
    ensures ext == [] || ext[0] == '.'
    ensures |ext| <= |name|
    ensures ext != [] <==> DotStartsExtension(name)
    ensures ext != [] ==> ext == Lower(name[LastIndexOf(name, '.')..])
  {
    Lower(SplitExt(name).1)
  }

  datatype Rejection = TooLarge | DisallowedExtension(ext: string)

  /**
   * The admission checks of `handle_file`, in the source's order: the size
   * limit first, then the extension allow-list, where "*" is a wildcard only
   * as the first entry. `None` means the upload is admitted.
   */
  function Admission(name: string, size: int, maxSize: int, allowed: seq<string>): (r: Option<Rejection>)
    ensures r == Some(TooLarge) <==> size > maxSize
    ensures r.None? ==> size <= maxSize && allowed != []
  {
    if size > maxSize then Some(TooLarge)
    else
      var ext := Extension(name);
      if allowed == [] || (ext !in allowed && allowed[0] != "*") then Some(DisallowedExtension(ext))
      else None
  }

  /**
   * Admission, stated through the allow-list's meaning: within the size
   * limit, a leading "*" admits everything; otherwise exactly the listed
   * extensions are admitted, and a "*" further down the list admits nothing.
   */
  lemma AdmissionMeaning(name: string, size: int, maxSize: int, allowed: seq<string>)
    requires size <= maxSize
    ensures allowed != [] && allowed[0] == "*" ==> Admission(name, size, maxSize, allowed).None?
    ensures allowed == [] || allowed[0] != "*" ==>
      (Admission(name, size, maxSize, allowed).None? <==>
       Extension(name) in (set e | e in allowed && e != "*"))
  {
    var ext := Extension(name);
    assert ext != "*";
  }

  /** Extensions are compared case-insensitively: "Notes.PDF" is admitted when ".pdf" is listed. */
  lemma AdmissionIgnoresCase(stem: string, e: string, size: int, maxSize: int, allowed: seq<string>)
    requires SegmentHasNonDot(stem)
    requires '.' !in e && '/' !in e
    requires size <= maxSize && Lower("." + e) in allowed
    ensures Admission(stem + "." + e, size, maxSize, allowed).None?
  {
    SplitExtOf(stem, e);
  }

  /** The names under which a path always exists in a directory: the directory itself and its parent. */
  const SpecialNames: set<string> := {"", ".", ".."}

  /** `(save_dir / name).exists()` for a directory holding the regular files `files`. */
  predicate PathExists(files: set<string>, name: string) {
    name in SpecialNames || name in files
  }

  /**
   * The k-th name the collision loop tries: the name itself for k = 0, and
   * `f"{stem}_{k}{ext}"` built from the unsuffixed name's split otherwise.
   */
  function Candidate(fileName: string, k: nat): string {
    if k == 0 then fileName
    else
      var (stem, ext) := SplitExt(fileName);
      stem + "_" + NatToString(k) + ext
  }

  /** Different counters give different names, so the loop never retries a name. */
  lemma CandidateInjective(fileName: string, j: nat, k: nat)
    requires Candidate(fileName, j) == Candidate(fileName, k)
    ensures j == k
  {
    var (stem, ext) := SplitExt(fileName);
    if j != 0 && k != 0 {
      var a, b := Candidate(fileName, j), Candidate(fileName, k);
      assert |NatToString(j)| == |NatToString(k)|;
      assert a[|stem| + 1..|a| - |ext|] == NatToString(j);
      assert b[|stem| + 1..|b| - |ext|] == NatToString(k);
      NatToStringInjective(j, k);
    }
  }

  /** The names tried before counter value `n`. */
  ghost function Tried(fileName: string, n: nat): set<string> {
    if n == 0 then {} else Tried(fileName, n - 1) + {Candidate(fileName, n - 1)}
  }

  lemma NotYetTried(fileName: string, n: nat)
    ensures Candidate(fileName, n) !in Tried(fileName, n)
  {
    if Candidate(fileName, n) in Tried(fileName, n) {
      TriedHasCandidate(fileName, n, Candidate(fileName, n));
      var j :| 0 <= j < n && Candidate(fileName, n) == Candidate(fileName, j);
      CandidateInjective(fileName, n, j);
    }
  }

  lemma {:induction false} TriedHasCandidate(fileName: string, n: nat, x: string)
    requires x in Tried(fileName, n)
    ensures exists j :: 0 <= j < n && x == Candidate(fileName, j)
  {
    if x != Candidate(fileName, n - 1) {
      TriedHasCandidate(fileName, n - 1, x);
    }
  }

  lemma {:induction false} SubsetCard(a: set<string>, b: set<string>)
    requires a <= b
    ensures |a| <= |b|
  {
    if a != {} {
      var x :| x in a;
      SubsetCard(a - {x}, b - {x});
    }
  }

  /** One more round of the loop tries a name not tried before, so the tried set grows by one within the bound. */
  lemma TryOneMore(fileName: string, n: nat, universe: set<string>)
    requires Tried(fileName, n) <= universe && Candidate(fileName, n) in universe
    ensures Tried(fileName, n + 1) <= universe
    ensures |Tried(fileName, n)| < |Tried(fileName, n + 1)| <= |universe|
  {
    NotYetTried(fileName, n);
    SubsetCard(Tried(fileName, n + 1), universe);
  }

  /** Every candidate below counter value `n` names an existing path. */
  predicate AllTaken(files: set<string>, fileName: string, n: nat) {
    forall j :: 0 <= j < n ==> PathExists(files, Candidate(fileName, j))
  }

  lemma TakenOneMore(files: set<string>, fileName: string, n: nat)
    requires AllTaken(files, fileName, n) && PathExists(files, Candidate(fileName, n))
    ensures AllTaken(files, fileName, n + 1)
  {
  }

  /**
   * The `while file_path.exists()` loop of `handle_file`: returns the first
   * candidate that does not exist, together with the counter it stopped at.
   * Every earlier candidate exists, so the name is the unsuffixed one when
   * that is free and `stem_k+ext` for the smallest free k otherwise.
   */
  method ResolveCollision(files: set<string>, fileName: string) returns (name: string, counter: nat)
    ensures !PathExists(files, name)
    ensures name == Candidate(fileName, counter)
    ensures AllTaken(files, fileName, counter)
  {
    ghost var universe := files + SpecialNames;
    name, counter := fileName, 0;
    while PathExists(files, name)
      invariant name == Candidate(fileName, counter)
      invariant AllTaken(files, fileName, counter)
      invariant Tried(fileName, counter) <= universe
      decreases |universe| - |Tried(fileName, counter)|
    {
      TryOneMore(fileName, counter, universe);
      TakenOneMore(files, fileName, counter);
      counter := counter + 1;
      name := Candidate(fileName, counter);
    }
  }

  /** Scenario: "notes.pdf" is free in an empty directory; once it is taken the next upload becomes "notes_1.pdf". */
  lemma CollisionScenario()
    ensures Candidate("notes.pdf", 1) == "notes_1.pdf"
    ensures !PathExists({}, Candidate("notes.pdf", 0)) && PathExists({"notes.pdf"}, Candidate("notes.pdf", 0))
  {
    var p := "notes.pdf";
    assert p[5] == '.' && p[0] == 'n';
    assert forall j :: 0 <= j < |p| && j != 5 ==> p[j] != '.';
    assert forall j :: 0 <= j < |p| ==> p[j] != '/';
    assert LastIndexOf(p, '.') == 5 && LastIndexOf(p, '/') == -1;
    assert p[..5] == "notes" && p[5..] == ".pdf";
    assert SplitExt(p) == ("notes", ".pdf");
  }
}
