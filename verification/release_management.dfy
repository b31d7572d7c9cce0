/** The `release_management` command: list release files by creation date,
    show the newest, disable one (keep it under `.disabled`) or delete one. */
module Catalog {
  import opened Results
  import opened Text
  import opened BlobStore

  // ----- listing -----

  /** What `listdir` reports for one directory: its subdirectories and its
      files, each in listing order. */
  datatype Dir = Dir(subdirs: seq<SubDir>, files: seq<string>)
  datatype SubDir = SubDir(name: string, dir: Dir)

  /** Each name joined onto `path`, in order. */
  function JoinAll(path: string, names: seq<string>): (r: seq<string>)
    ensures |r| == |names|
    ensures forall i :: 0 <= i < |names| ==> r[i] == Join(path, names[i])
  {
    if |names| == 0 then [] else [Join(path, names[0])] + JoinAll(path, names[1..])
  }

  /** `get_files_list(recursive, path)`, where `d` is the directory found at `path`. */
  function FilesList(recursive: bool, path: string, d: Dir): seq<string>
    decreases d, 1
  {
    (if recursive then SubdirFiles(path, d, 0) else []) + JoinAll(path, d.files)
  }

  /** A non-recursive listing is the directory's own files; a recursive one
      ends with them, after everything found in the subdirectories. */
  lemma FilesListOwnFilesLast(recursive: bool, path: string, d: Dir)
    ensures !recursive ==> FilesList(recursive, path, d) == JoinAll(path, d.files)
    ensures var r := FilesList(recursive, path, d);
      |r| >= |d.files| && r[|r| - |d.files|..] == JoinAll(path, d.files)
  {
  }

  /** The recursive listings of the subdirectories `i..` of `d`, in order. */
  function SubdirFiles(path: string, d: Dir, i: nat): seq<string>
    requires i <= |d.subdirs|
    decreases d, 0, |d.subdirs| - i
  {
    if i == |d.subdirs| then []
    else FilesList(true, Join(path, d.subdirs[i].name), d.subdirs[i].dir) + SubdirFiles(path, d, i + 1)
  }

  /** `d` holds a file `name` reached through the subdirectory names `dirs`. */
  ghost predicate FileAt(d: Dir, dirs: seq<string>, name: string)
    decreases |dirs|
  {
    if |dirs| == 0 then name in d.files
    else exists k :: 0 <= k < |d.subdirs| && d.subdirs[k].name == dirs[0] && FileAt(d.subdirs[k].dir, dirs[1..], name)
  }

  /** The path of that file, joined one component at a time onto `path`. */
  function PathOf(path: string, dirs: seq<string>, name: string): string
    decreases |dirs|
  {
    if |dirs| == 0 then Join(path, name) else PathOf(Join(path, dirs[0]), dirs[1..], name)
  }

  /** The recursive listing holds the path of every file of the subtree, and nothing else. */
  lemma RecursiveListingIsSubtree(path: string, d: Dir, x: string)
    ensures x in FilesList(true, path, d) <==> exists dirs, name :: FileAt(d, dirs, name) && x == PathOf(path, dirs, name)
  {
    if x in FilesList(true, path, d) {
      ListedIsInTree(path, d, x);
    }
    if exists dirs, name :: FileAt(d, dirs, name) && x == PathOf(path, dirs, name) {
      var dirs, name :| FileAt(d, dirs, name) && x == PathOf(path, dirs, name);
      TreeIsListed(path, d, dirs, name);
    }
  }

  lemma {:induction false} ListedIsInTree(path: string, d: Dir, x: string)
    requires x in FilesList(true, path, d)
    ensures exists dirs, name :: FileAt(d, dirs, name) && x == PathOf(path, dirs, name)
    decreases d, 1
  {
    var own := JoinAll(path, d.files);
    var subs := SubdirFiles(path, d, 0);
    assert FilesList(true, path, d) == subs + own;
    if x in own {
      var i :| 0 <= i < |own| && own[i] == x;
      assert FileAt(d, [], d.files[i]) && x == PathOf(path, [], d.files[i]);
    } else {
      SubdirListedIsInTree(path, d, 0, x);
    }
  }

  lemma {:induction false} SubdirListedIsInTree(path: string, d: Dir, i: nat, x: string)
    requires i <= |d.subdirs| && x in SubdirFiles(path, d, i)
    ensures exists dirs, name :: FileAt(d, dirs, name) && x == PathOf(path, dirs, name)
    decreases d, 0, |d.subdirs| - i
  {
    var sub := d.subdirs[i];
    var here := FilesList(true, Join(path, sub.name), sub.dir);
    if x in here {
      ListedIsInTree(Join(path, sub.name), sub.dir, x);
      var dirs, name :| FileAt(sub.dir, dirs, name) && x == PathOf(Join(path, sub.name), dirs, name);
      var full := [sub.name] + dirs;
      assert full[1..] == dirs;
      assert FileAt(d, full, name);
      assert x == PathOf(path, full, name);
    } else {
      SubdirListedIsInTree(path, d, i + 1, x);
    }
  }

  lemma {:induction false} TreeIsListed(path: string, d: Dir, dirs: seq<string>, name: string)
    requires FileAt(d, dirs, name)
    ensures PathOf(path, dirs, name) in FilesList(true, path, d)
    decreases |dirs|
  {
    var own := JoinAll(path, d.files);
    assert FilesList(true, path, d) == SubdirFiles(path, d, 0) + own;
    if |dirs| == 0 {
      var i :| 0 <= i < |d.files| && d.files[i] == name;
      assert own[i] == PathOf(path, dirs, name);
    } else {
      var k :| 0 <= k < |d.subdirs| && d.subdirs[k].name == dirs[0] && FileAt(d.subdirs[k].dir, dirs[1..], name);
      TreeIsListed(Join(path, dirs[0]), d.subdirs[k].dir, dirs[1..], name);
      SubdirListingContains(path, d, 0, k);
    }
  }

  lemma {:induction false} SubdirListingContains(path: string, d: Dir, i: nat, k: nat)
    requires i <= k < |d.subdirs|
    ensures forall x :: x in FilesList(true, Join(path, d.subdirs[k].name), d.subdirs[k].dir) ==> x in SubdirFiles(path, d, i)
    decreases k - i
  {
    if i < k {
      SubdirListingContains(path, d, i + 1, k);
    }
  }

  // ----- filter and sort -----

  /** The files whose names pass IsJsonName, in their listed order. */
  function JsonOnly(files: seq<string>): seq<string>
  {
    if |files| == 0 then [] else JsonHead(files) + JsonOnly(files[1..])
  }

  /** The first listed file if it is a release file, else nothing. */
  function JsonHead(files: seq<string>): seq<string>
    requires |files| > 0
  {
    if IsJsonName(files[0]) then [files[0]] else []
  }

  /** Every release file is kept as often as it was listed, and nothing else is kept. */
  lemma {:induction false} JsonOnlyCounts(files: seq<string>)
    ensures forall x :: multiset(JsonOnly(files))[x] == if IsJsonName(x) then multiset(files)[x] else 0
  {
    if |files| > 0 {
      assert files == [files[0]] + files[1..];
      JsonOnlyCounts(files[1..]);
    }
  }

  /** The filter keeps the listed order: filtering a concatenation filters each
      part in turn. */
  lemma {:induction false} JsonOnlyKeepsOrder(a: seq<string>, b: seq<string>)
    ensures JsonOnly(a + b) == JsonOnly(a) + JsonOnly(b)
  {
    if |a| == 0 {
      assert a + b == b;
    } else {
      var ab := a + b;
      assert ab[1..] == a[1..] + b;
      JsonOnlyKeepsOrder(a[1..], b);
      assert JsonHead(ab) == JsonHead(a) by { assert ab[0] == a[0]; }
      ConcatAssoc(JsonHead(a), JsonOnly(a[1..]), JsonOnly(b));
    }
  }

  lemma ConcatAssoc<T>(h: seq<T>, x: seq<T>, y: seq<T>)
    ensures h + (x + y) == (h + x) + y
  {
  }

  /** A single name is kept exactly when it passes IsJsonName. */
  lemma JsonOnlyOne(x: string)
    ensures JsonOnly([x]) == if IsJsonName(x) then [x] else []
  {
    assert [x][1..] == [];
  }

  ghost predicate SortedByKey(s: seq<string>, key: string -> int)
  {
    forall i, j :: 0 <= i < j < |s| ==> key(s[i]) <= key(s[j])
  }

  /** The elements of `s` whose key is `k`, in their order in `s`. */
  function WithKey(s: seq<string>, key: string -> int, k: int): (r: seq<string>)
    ensures forall x {:trigger x in r} :: x in r <==> x in s && key(x) == k
  {
    if |s| == 0 then []
    else (if key(s[0]) == k then [s[0]] else []) + WithKey(s[1..], key, k)
  }

  /** Puts `x` before the first element whose key is not smaller than its own. */
  function InsertByKey(x: string, s: seq<string>, key: string -> int): seq<string>
  {
    if |s| == 0 then [x]
    else if key(s[0]) < key(x) then [s[0]] + InsertByKey(x, s[1..], key)
    else [x] + s
  }

  lemma {:induction false} InsertAddsOne(x: string, s: seq<string>, key: string -> int)
    ensures multiset(InsertByKey(x, s, key)) == multiset(s) + multiset{x}
  {
    if |s| > 0 && key(s[0]) < key(x) {
      InsertAddsOne(x, s[1..], key);
      assert s == [s[0]] + s[1..];
    }
  }

  lemma {:induction false} InsertKeepsOrder(x: string, s: seq<string>, key: string -> int)
    requires SortedByKey(s, key)
    ensures SortedByKey(InsertByKey(x, s, key), key)
  {
    if |s| > 0 && key(s[0]) < key(x) {
      var rest := InsertByKey(x, s[1..], key);
      InsertKeepsOrder(x, s[1..], key);
      InsertAboveBound(x, s[1..], key, key(s[0]));
      PrependLeast(s[0], rest, key);
    } else if |s| > 0 {
      PrependLeast(x, s, key);
    }
  }

  /** Inserting keeps every element at or above a common lower bound. */
  lemma {:induction false} InsertAboveBound(x: string, s: seq<string>, key: string -> int, b: int)
    requires b <= key(x) && forall i :: 0 <= i < |s| ==> b <= key(s[i])
    ensures forall i :: 0 <= i < |InsertByKey(x, s, key)| ==> b <= key(InsertByKey(x, s, key)[i])
  {
    if |s| > 0 && key(s[0]) < key(x) {
      InsertAboveBound(x, s[1..], key, b);
      var r := InsertByKey(x, s, key);
      assert r == [s[0]] + InsertByKey(x, s[1..], key);
    }
  }

  lemma PrependLeast(x: string, s: seq<string>, key: string -> int)
    requires SortedByKey(s, key)
    requires forall i :: 0 <= i < |s| ==> key(x) <= key(s[i])
    ensures SortedByKey([x] + s, key)
  {
    var r := [x] + s;
    forall i, j | 0 <= i < j < |r|
      ensures key(r[i]) <= key(r[j])
    {
      assert r[j] == s[j - 1];
      if i > 0 {
        assert r[i] == s[i - 1];
      }
    }
  }

  /** `sorted(files, key=key)`: Python's sort is stable. */
  function SortByKey(s: seq<string>, key: string -> int): seq<string>
  {
    if |s| == 0 then [] else InsertByKey(s[0], SortByKey(s[1..], key), key)
  }

  /** The sort returns a permutation of its input in non-decreasing key order. */
  lemma {:induction false} SortIsOrderedPermutation(s: seq<string>, key: string -> int)
    ensures multiset(SortByKey(s, key)) == multiset(s)
    ensures SortedByKey(SortByKey(s, key), key)
  {
    if |s| > 0 {
      SortIsOrderedPermutation(s[1..], key);
      InsertKeepsOrder(s[0], SortByKey(s[1..], key), key);
      InsertAddsOne(s[0], SortByKey(s[1..], key), key);
      assert s == [s[0]] + s[1..];
    }
  }

  lemma {:induction false} InsertKeepsTies(x: string, s: seq<string>, key: string -> int, k: int)
    ensures WithKey(InsertByKey(x, s, key), key, k) == (if key(x) == k then [x] else []) + WithKey(s, key, k)
  {
    if |s| > 0 && key(s[0]) < key(x) {
      InsertKeepsTies(x, s[1..], key, k);
      var r := InsertByKey(x, s, key);
      assert r[1..] == InsertByKey(x, s[1..], key);
    }
  }

  /** Stability: elements with equal keys keep their discovery order. */
  lemma {:induction false} SortIsStable(s: seq<string>, key: string -> int, k: int)
    ensures WithKey(SortByKey(s, key), key, k) == WithKey(s, key, k)
  {
    if |s| > 0 {
      SortIsStable(s[1..], key, k);
      InsertKeepsTies(s[0], SortByKey(s[1..], key), key, k);
    }
  }

  /** The sort is fully determined by its contract: any ordering by key that
      keeps ties in discovery order is the one `sorted` returns. */
  lemma StableSortIsUnique(s: seq<string>, t: seq<string>, key: string -> int)
    requires SortedByKey(t, key)
    requires forall k :: WithKey(t, key, k) == WithKey(s, key, k)
    ensures t == SortByKey(s, key)
  {
    var u := SortByKey(s, key);
    SortIsOrderedPermutation(s, key);
    forall k
      ensures WithKey(t, key, k) == WithKey(u, key, k)
    {
      SortIsStable(s, key, k);
    }
    SameTiesSameSequence(t, u, key);
  }

  lemma {:induction false} SameTiesSameSequence(t: seq<string>, u: seq<string>, key: string -> int)
    requires SortedByKey(t, key) && SortedByKey(u, key)
    requires forall k :: WithKey(t, key, k) == WithKey(u, key, k)
    ensures t == u
    decreases |t|
  {
    if |u| > 0 {
      InOwnTies(u, key, 0);
    }
    if |t| > 0 {
      InOwnTies(t, key, 0);
    }
    if |t| > 0 && |u| > 0 {
      HeadsAgree(t, u, key);
      forall k
        ensures WithKey(t[1..], key, k) == WithKey(u[1..], key, k)
      {
        DropHead(t, u, key, k);
      }
      SameTiesSameSequence(t[1..], u[1..], key);
      assert t == [t[0]] + t[1..] && u == [u[0]] + u[1..];
    }
  }

  lemma InOwnTies(s: seq<string>, key: string -> int, i: int)
    requires 0 <= i < |s|
    ensures s[i] in WithKey(s, key, key(s[i]))
  {
  }

  /** Two orderings by key with the same ties start with the same element. */
  lemma HeadsAgree(t: seq<string>, u: seq<string>, key: string -> int)
    requires |t| > 0 && |u| > 0
    requires SortedByKey(t, key) && SortedByKey(u, key)
    requires WithKey(t, key, key(t[0])) == WithKey(u, key, key(t[0]))
    requires WithKey(t, key, key(u[0])) == WithKey(u, key, key(u[0]))
    ensures t[0] == u[0]
  {
    var k0, k1 := key(t[0]), key(u[0]);
    assert t[0] in WithKey(t, key, k0);
    assert t[0] in WithKey(u, key, k0);
    var i :| 0 <= i < |u| && u[i] == t[0];
    assert u[0] in WithKey(u, key, k1);
    assert u[0] in WithKey(t, key, k1);
    var j :| 0 <= j < |t| && t[j] == u[0];
    assert k1 <= key(u[i]);
    assert k0 <= key(t[j]);
    assert k0 == k1;
    assert WithKey(t, key, k0)[0] == t[0];
    assert WithKey(u, key, k0)[0] == u[0];
  }

  lemma DropHead(t: seq<string>, u: seq<string>, key: string -> int, k: int)
    requires |t| > 0 && |u| > 0 && t[0] == u[0]
    requires WithKey(t, key, k) == WithKey(u, key, k)
    ensures WithKey(t[1..], key, k) == WithKey(u[1..], key, k)
  {
    var a, b := WithKey(t[1..], key, k), WithKey(u[1..], key, k);
    if key(t[0]) == k {
      assert WithKey(t, key, k) == [t[0]] + a;
      assert WithKey(u, key, k) == [t[0]] + b;
      assert ([t[0]] + a)[1..] == a && ([t[0]] + b)[1..] == b;
    } else {
      assert WithKey(t, key, k) == a;
      assert WithKey(u, key, k) == b;
    }
  }

  /** `sort_create_date`: the creation time the storage records for a file, in
      whole seconds; a name the storage does not hold gets 0. */
  function CreatedTimes(store: Store): (r: string -> int)
    ensures forall f :: f in store ==> r(f) == store[f].created
  {
    f => if f in store then store[f].created else 0
  }

  /** The release files of the listing, ordered by `created` (`sort_create_date`). */
  function SortedReleases(recursive: bool, root: Dir, created: string -> int): seq<string>
  {
    SortByKey(JsonOnly(FilesList(recursive, "", root)), created)
  }

  /** The catalog holds exactly the listed release files, each as often as it
      was listed, in non-decreasing order of creation time. */
  lemma CatalogContents(recursive: bool, root: Dir, created: string -> int)
    ensures var c := SortedReleases(recursive, root, created);
      && (forall x :: multiset(c)[x] == if IsJsonName(x) then multiset(FilesList(recursive, "", root))[x] else 0)
      && SortedByKey(c, created)
  {
    JsonOnlyCounts(FilesList(recursive, "", root));
    SortIsOrderedPermutation(JsonOnly(FilesList(recursive, "", root)), created);
  }

  /** The catalog keeps listed release files with equal timestamps in discovery order. */
  lemma CatalogTiesInDiscoveryOrder(recursive: bool, root: Dir, created: string -> int, k: int)
    ensures WithKey(SortedReleases(recursive, root, created), created, k) == WithKey(JsonOnly(FilesList(recursive, "", root)), created, k)
  {
    SortIsStable(JsonOnly(FilesList(recursive, "", root)), created, k);
  }

  // ----- errors and results -----

  /** Why a catalog command stopped. The last three are the Python exceptions
      the command raises as written. */
  datatype CatalogError =
    | NotJson(key: string)
    | NoReleaseFile(key: string)
    | NoReleasesFound
    | UndefinedName(name: string)
    | MissingAttribute(name: string)
    | IndexOutOfRange

  /** The newest release: the final element of the sorted catalog. */
  function Last(catalog: seq<string>): (r: Result<string, CatalogError>)
    ensures r.Success? <==> |catalog| > 0
    ensures r.Success? ==> r.value == catalog[|catalog| - 1]
    ensures r.Failure? ==> r.error == NoReleasesFound
  {
    if |catalog| == 0 then Failure(NoReleasesFound) else Success(catalog[|catalog| - 1])
  }

  /** The last file of the sorted catalog has the greatest timestamp, and of the
      files sharing that timestamp it is the one discovered last. */
  lemma LastIsNewest(files: seq<string>, created: string -> int)
    requires |files| > 0
    ensures Last(SortByKey(files, created)).Success?
    ensures var x := Last(SortByKey(files, created)).value;
      var ties := WithKey(files, created, created(x));
      && x in files
      && (forall y :: y in files ==> created(y) <= created(x))
      && |ties| > 0 && x == ties[|ties| - 1]
  {
    var s := SortByKey(files, created);
    SortIsOrderedPermutation(files, created);
    assert |s| > 0 by {
      assert files[0] in multiset(s);
    }
    var x := s[|s| - 1];
    assert x in multiset(files);
    forall y | y in files
      ensures created(y) <= created(x)
    {
      assert y in multiset(s);
    }
    SortIsStable(files, created, created(x));
    LastOfTies(s, created);
  }

  lemma {:induction false} LastOfTies(s: seq<string>, key: string -> int)
    requires |s| > 0
    ensures |WithKey(s, key, key(s[|s| - 1]))| > 0
    ensures WithKey(s, key, key(s[|s| - 1]))[|WithKey(s, key, key(s[|s| - 1]))| - 1] == s[|s| - 1]
  {
    var k := key(s[|s| - 1]);
    if |s| > 1 {
      assert s[1..][|s| - 2] == s[|s| - 1];
      LastOfTies(s[1..], key);
      assert WithKey(s, key, k) == (if key(s[0]) == k then [s[0]] else []) + WithKey(s[1..], key, k);
    }
  }

  // ----- disable and delete -----

  /** The suffix a disabled release file gets. */
  const DisabledSuffix := ".disabled"

  /** A disabled key no longer passes the release-file filter. */
  lemma DisabledKeyIsNotJson(key: string)
    ensures !IsJsonName(key + DisabledSuffix)
  {
    var k := key + DisabledSuffix;
    assert LastFive(k) == "abled";
  }

  /** `--disable-release key`: copy the file to `key.disabled`, then delete `key`. */
  function Disable(store: Store, key: string, now: int): (r: Result<Store, CatalogError>)
    ensures !IsJsonName(key) ==> r == Failure(NotJson(key))
    ensures IsJsonName(key) && key !in store ==> r == Failure(NoReleaseFile(key))
    ensures r.Success? <==> IsJsonName(key) && key in store
    ensures r.Success? ==>
      && key !in r.value
      && key + DisabledSuffix in r.value
      && r.value[key + DisabledSuffix].content == store[key].content
      && forall k :: k != key && k != key + DisabledSuffix ==>
           (k in r.value <==> k in store) && (k in store ==> r.value[k] == store[k])
  {
    if !IsJsonName(key) then Failure(NotJson(key))
    else if key !in store then Failure(NoReleaseFile(key))
    else
      var copy := key + DisabledSuffix;
      assert copy != key;
      Success(BlobStore.Delete(Save(store, copy, store[key].content, now), key))
  }

  /** A disable removes exactly its key from the release files the storage
      holds; the copy it makes is left out of every catalog, even one built
      from a listing that found it. */
  lemma DisabledLeavesCatalog(store: Store, key: string, now: int, recursive: bool, root: Dir, created: string -> int)
    requires Disable(store, key, now).Success?
    ensures forall k :: IsJsonName(k) ==> (k in Disable(store, key, now).value <==> k in store && k != key)
    ensures key + DisabledSuffix !in SortedReleases(recursive, root, created)
  {
    DisabledKeyIsNotJson(key);
    CatalogContents(recursive, root, created);
    var c := SortedReleases(recursive, root, created);
    assert multiset(c)[key + DisabledSuffix] == 0;
  }

  /** `--delete-release key`: remove the file; no name check. */
  function DeleteRelease(store: Store, key: string): (r: Result<Store, CatalogError>)
    ensures key !in store ==> r == Failure(NoReleaseFile(key))
    ensures r.Success? <==> key in store
    ensures r.Success? ==> r.value.Keys == store.Keys - {key} && forall k :: k in r.value ==> r.value[k] == store[k]
  {
    if key !in store then Failure(NoReleaseFile(key)) else Success(BlobStore.Delete(store, key))
  }

  // ----- the command -----

  /** The parsed command-line options. */
  datatype Options = Options(displayList: bool, displayLast: bool, recursive: bool,
                             disableRelease: Option<string>, deleteRelease: Option<string>, verbosity: int)

  /** Python truthiness of an optional string option: set and non-empty. */
  predicate Given(o: Option<string>)
  {
    o.Some? && |o.value| > 0
  }

  /** One run: the lines written to stdout, the storage afterwards, and the
      error the command ended with, if any. Storage changes made before an
      error are kept. */
  datatype Run = Run(output: seq<string>, store: Store, error: Option<CatalogError>)

  /** The `--display-list` and `--display-last` output at verbosity `v`;
      `emptyLast` is what asking for the last file of an empty catalog ends with. */
  function Displays(list: bool, last: bool, v: int, catalog: seq<string>, emptyLast: CatalogError)
    : (r: (seq<string>, Option<CatalogError>))
    ensures r.1.Some? <==> last && v != 0 && |catalog| == 0
    ensures r.1.Some? ==> r.1.value == emptyLast
    ensures v == 0 || (!list && !last) ==> r.0 == []
    ensures |r.0| == (if list && v != 0 then (if v > 1 then 1 else 0) + |catalog| else 0)
                   + (if last && v != 0 then (if v > 1 then 1 else 0) + (if |catalog| > 0 then 1 else 0) else 0)
    ensures list && v == 1 ==> |r.0| >= |catalog| && r.0[..|catalog|] == catalog
    ensures list && v > 1 ==> |r.0| > |catalog| && r.0[0] == ListHeading && r.0[1..|catalog| + 1] == catalog
    ensures last && v != 0 && |catalog| > 0 ==>
      Last(catalog).Success? && |r.0| > 0 && r.0[|r.0| - 1] == Last(catalog).value
    ensures last && v > 1 ==>
      var h := if |catalog| > 0 then 2 else 1;
      |r.0| >= h && r.0[|r.0| - h] == LastHeading
  {
    var listing :=
      if list && v != 0 then (if v > 1 then [ListHeading] else []) + catalog
      else [];
    if last && v != 0 then
      var header := if v > 1 then [LastHeading] else [];
      match Last(catalog)
      case Failure(_) => (listing + header, Some(emptyLast))
      case Success(file) => (listing + header + [file], None)
    else (listing, None)
  }

  const ListHeading := "Listing files by creation date:"
  const LastHeading := "Last file created: "

  /** Asked for the last file, the command shows the newest listed release file,
      the one discovered last among those sharing its creation time. */
  lemma DisplayedLastIsNewest(list: bool, v: int, recursive: bool, root: Dir, created: string -> int)
    requires v != 0 && |JsonOnly(FilesList(recursive, "", root))| > 0
    ensures var shown := Displays(list, true, v, SortedReleases(recursive, root, created), NoReleasesFound);
      var found := JsonOnly(FilesList(recursive, "", root));
      && shown.1.None? && |shown.0| > 0
      && shown.0[|shown.0| - 1] in found
      && (forall y :: y in found ==> created(y) <= created(shown.0[|shown.0| - 1]))
      && var ties := WithKey(found, created, created(shown.0[|shown.0| - 1]));
         |ties| > 0 && ties[|ties| - 1] == shown.0[|shown.0| - 1]
  {
    LastIsNewest(JsonOnly(FilesList(recursive, "", root)), created);
  }

  /** The success line of a disable names the old key and then the new one. */
  function DisabledMessage(key: string): (r: string)
    ensures |r| == 6 + |key| + 14 + |key| + |DisabledSuffix| + 15
    ensures r[6..6 + |key|] == key
    ensures r[20 + |key|..20 + 2 * |key| + |DisabledSuffix|] == key + DisabledSuffix
  {
    "File `" + key + "` changed to `" + key + DisabledSuffix + "` with success."
  }

  /** The success line of a delete names the deleted key. */
  function DeletedMessage(key: string): (r: string)
    ensures |r| == 6 + |key| + 23 && r[6..6 + |key|] == key
  {
    "File `" + key + "` deleted with success."
  }

  /** `handle` with each option read from its own argument, `exists` called on
      the storage and a missing last file reported as an error of its own. */
  function Handle(opts: Options, root: Dir, store: Store, now: int): (r: Run)
    ensures !Given(opts.disableRelease) && !Given(opts.deleteRelease) ==> r.store == store
    ensures r.error.None? && Given(opts.deleteRelease) ==> opts.deleteRelease.value !in r.store
    ensures Given(opts.disableRelease) && !IsJsonName(opts.disableRelease.value) ==> r.store == store && r.error.Some?
  {
    var shown := Displays(opts.displayList, opts.displayLast, opts.verbosity, Listing(opts, root, store), NoReleasesFound);
    if shown.1.Some? then Run(shown.0, store, shown.1)
    else
      var disabled := if Given(opts.disableRelease) then Disable(store, opts.disableRelease.value, now) else Success(store);
      if disabled.Failure? then Run(shown.0, store, Some(disabled.error))
      else
        var out := shown.0 + (if Given(opts.disableRelease) && opts.verbosity > 1
                              then [DisabledMessage(opts.disableRelease.value)] else []);
        var deleted := if Given(opts.deleteRelease) then DeleteRelease(disabled.value, opts.deleteRelease.value)
                       else Success(disabled.value);
        if deleted.Failure? then Run(out, disabled.value, Some(deleted.error))
        else
          Run(out + (if Given(opts.deleteRelease) && opts.verbosity > 1
                     then [DeletedMessage(opts.deleteRelease.value)] else []),
              deleted.value, None)
  }

  /** Asked only to delete, the command removes exactly that key, or fails
      with the store untouched when the key is absent. */
  lemma HandleDeletesOnlyTarget(opts: Options, root: Dir, store: Store, now: int)
    requires Displays(opts.displayList, opts.displayLast, opts.verbosity, Listing(opts, root, store), NoReleasesFound).1.None?
    requires !Given(opts.disableRelease) && Given(opts.deleteRelease)
    ensures var r := Handle(opts, root, store, now);
      var key := opts.deleteRelease.value;
      && (key in store <==> r.error.None?)
      && (key !in store ==> r.store == store && r.error == Some(NoReleaseFile(key)))
      && (key in store ==> r.store.Keys == store.Keys - {key} && forall k :: k in r.store ==> r.store[k] == store[k])
  {
  }

  /** Asked only to disable, the command moves the content to `key.disabled`,
      or fails with the store untouched. */
  lemma HandleDisablesOnlyTarget(opts: Options, root: Dir, store: Store, now: int)
    requires Displays(opts.displayList, opts.displayLast, opts.verbosity, Listing(opts, root, store), NoReleasesFound).1.None?
    requires Given(opts.disableRelease) && !Given(opts.deleteRelease)
    ensures var r := Handle(opts, root, store, now);
      var key := opts.disableRelease.value;
      && (r.error.None? <==> IsJsonName(key) && key in store)
      && (r.error.Some? ==> r.store == store)
      && (r.error.None? ==> key !in r.store && r.store[key + DisabledSuffix].content == store[key].content)
  {
  }

  /** `handle` as the source has it: the delete option is read from the
      disable argument, the storage is asked for `exist` (an attribute it
      lacks), `CommandError` is used without being imported, and the last file
      of an empty catalog is indexed without a check. */
  function HandleAsWritten(opts: Options, root: Dir, store: Store): (r: Run)
    ensures r.store == store
  {
    AsWrittenOn(opts, Listing(opts, root, store), store)
  }

  /** The sorted release files, computed only when a display option is set;
      `root` is what the storage lists, and the times are the ones it records. */
  function Listing(opts: Options, root: Dir, store: Store): seq<string>
  {
    if opts.displayList || opts.displayLast then SortedReleases(opts.recursive, root, CreatedTimes(store)) else []
  }

  /** The command as written, once the catalog is known. */
  function AsWrittenOn(opts: Options, catalog: seq<string>, store: Store): (r: Run)
    ensures r.store == store
  {
    var disableFile := opts.disableRelease;
    var deleteFile := opts.disableRelease;
    var shown := Displays(opts.displayList, opts.displayLast, opts.verbosity, catalog, IndexOutOfRange);
    if shown.1.Some? then Run(shown.0, store, shown.1)
    else if Given(disableFile) then
      if !IsJsonName(disableFile.value) then Run(shown.0, store, Some(UndefinedName("CommandError")))
      else Run(shown.0, store, Some(MissingAttribute("exist")))
    else if Given(deleteFile) then Run(shown.0, store, Some(MissingAttribute("exist")))
    else Run(shown.0, store, None)
  }

  /** As written, the value of `--delete-release` has no effect at all, for any catalog. */
  lemma AsWrittenIgnoresDelete(opts: Options, other: Option<string>, catalog: seq<string>, store: Store)
    ensures AsWrittenOn(opts, catalog, store) == AsWrittenOn(opts.(deleteRelease := other), catalog, store)
  {
  }

  /** A concrete run: `--delete-release r1.json` alone leaves `r1.json` in place
      as written, while the corrected command removes it. */
  lemma DeleteAliasExample()
    ensures var store := map["r1.json" := Blob(Opaque([]), 100)];
      var opts := Options(false, false, false, None, Some("r1.json"), 2);
      && HandleAsWritten(opts, Dir([], []), store) == Run([], store, None)
      && Handle(opts, Dir([], []), store, 200) == Run(["File `r1.json` deleted with success."], map[], None)
  {
    var store := map["r1.json" := Blob(Opaque([]), 100)];
    var opts := Options(false, false, false, None, Some("r1.json"), 2);
    assert !Given(opts.disableRelease) && Given(opts.deleteRelease);
    assert BlobStore.Delete(store, "r1.json") == map[];
    assert "File `" + "r1.json" + "` deleted with success." == "File `r1.json` deleted with success.";
    assert DeletedMessage("r1.json") == "File `r1.json` deleted with success.";
  }

  /** As written, disabling never succeeds: a release-file name reaches the
      `exist` call and fails with AttributeError, leaving the file in place. */
  lemma AsWrittenDisableFails(opts: Options, root: Dir, store: Store)
    requires Displays(opts.displayList, opts.displayLast, opts.verbosity, Listing(opts, root, store), IndexOutOfRange).1.None?
    requires Given(opts.disableRelease) && IsJsonName(opts.disableRelease.value)
    ensures HandleAsWritten(opts, root, store).error == Some(MissingAttribute("exist"))
    ensures HandleAsWritten(opts, root, store).store == store
  {
  }

  /** As written, a name that is not a release file raises NameError, since
      `CommandError` is not imported. */
  lemma AsWrittenBadNameIsNameError(opts: Options, root: Dir, store: Store, now: int)
    requires Displays(opts.displayList, opts.displayLast, opts.verbosity, Listing(opts, root, store), IndexOutOfRange).1.None?
    requires Given(opts.disableRelease) && !IsJsonName(opts.disableRelease.value)
    ensures HandleAsWritten(opts, root, store).error == Some(UndefinedName("CommandError"))
    ensures Handle(opts, root, store, now).error == Some(NotJson(opts.disableRelease.value))
  {
  }

  /** As written, showing the last file of an empty catalog raises IndexError;
      the corrected command reports that no release was found. */
  lemma AsWrittenLastOnEmpty(opts: Options, root: Dir, store: Store, now: int)
    requires opts.displayLast && opts.verbosity != 0
    requires |SortedReleases(opts.recursive, root, CreatedTimes(store))| == 0
    ensures HandleAsWritten(opts, root, store).error == Some(IndexOutOfRange)
    ensures Handle(opts, root, store, now).error == Some(NoReleasesFound)
  {
  }
}
