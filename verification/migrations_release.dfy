/** The `migrations_release` command: snapshot the leaf migration of every
    migrated app and store it as the release artifact `<release>.json`. */
module Release {
  import opened Results
  import opened Text
  import opened Migrations
  import opened BlobStore

  /** Some app has more than one leaf node; `nodes` are that app's leaves. */
  datatype ReleaseError = ConflictingMigrations(app: string, nodes: seq<MigrationKey>)

  /** The outcome of one run: the storage afterwards and what was built. */
  datatype SnapshotRun = SnapshotRun(store: Store, result: Result<seq<Entry>, ReleaseError>)

  /** The storage key of a release: the release name followed by `.json`. */
  function ReleasePath(release: string): (r: string)
    ensures |r| == |release| + 5 && r[..|release|] == release && r[|release|..] == ".json"
    ensures IsJsonName(r)
  {
    var r := release + ".json";
    assert LastFive(r) == ".json";
    r
  }

  /** Different release names never share an artifact. */
  lemma ReleasePathInjective(a: string, b: string)
    requires ReleasePath(a) == ReleasePath(b)
    ensures a == b
  {
    assert a == ReleasePath(a)[..|a|];
  }

  /** Puts `x` into a strictly sorted list of app names, keeping it strictly sorted. */
  function InsertApp(x: string, s: seq<string>): (r: seq<string>)
    requires StrictlySorted(s)
    ensures StrictlySorted(r)
    ensures forall y :: y in r <==> y == x || y in s
  {
    if |s| == 0 then [x]
    else if x == s[0] then s
    else if StrLt(x, s[0]) then
      BelowHead(x, s);
      [x] + s
    else
      StrLtTotal(x, s[0]);
      var rest := InsertApp(x, s[1..]);
      assert forall y :: y in s[1..] ==> StrLt(s[0], y) by {
        forall y | y in s[1..]
          ensures StrLt(s[0], y)
        {
          var k :| 0 <= k < |s[1..]| && s[1..][k] == y;
          assert s[k + 1] == y;
        }
      }
      PrependBelow(s[0], rest);
      [s[0]] + rest
  }

  lemma PrependBelow(x: string, s: seq<string>)
    requires StrictlySorted(s)
    requires forall y :: y in s ==> StrLt(x, y)
    ensures StrictlySorted([x] + s)
  {
    forall i, j | 0 <= i < j < |[x] + s|
      ensures StrLt(([x] + s)[i], ([x] + s)[j])
    {
      if i == 0 {
        assert ([x] + s)[j] == s[j - 1];
      }
    }
  }

  lemma BelowHead(x: string, s: seq<string>)
    requires StrictlySorted(s) && |s| > 0 && StrLt(x, s[0])
    ensures StrictlySorted([x] + s)
  {
    forall j | 0 < j < |s|
      ensures StrLt(x, s[j])
    {
      StrLtTransitive(x, s[0], s[j]);
    }
  }

  /** `sorted(loader.migrated_apps)`: the distinct app names in ascending order;
      `apps` is any enumeration of the set of migrated apps. */
  function SortedApps(apps: seq<string>): (r: seq<string>)
    ensures StrictlySorted(r)
    ensures forall y :: y in r <==> y in apps
  {
    if |apps| == 0 then [] else InsertApp(apps[0], SortedApps(apps[1..]))
  }

  /** The loop of the command over `apps` in the given order: skip an app
      without leaves, stop at the first app with several, record the rest. */
  function CollectLeaves(apps: seq<string>, leaves: string -> seq<MigrationKey>): (r: Result<seq<Entry>, ReleaseError>)
    ensures r.Success? <==> forall i :: 0 <= i < |apps| ==> |leaves(apps[i])| <= 1
    ensures r.Success? ==> forall e :: e in r.value ==>
      e.app in apps && |leaves(e.app)| == 1 && e.migration == leaves(e.app)[0].name
    ensures r.Success? ==> forall a :: a in apps && |leaves(a)| == 1 ==> Entry(a, leaves(a)[0].name) in r.value
    ensures r.Success? && StrictlySorted(apps) ==>
      forall i, j :: 0 <= i < j < |r.value| ==> StrLt(r.value[i].app, r.value[j].app)
    ensures r.Failure? ==> exists i :: 0 <= i < |apps| && FirstConflictAt(apps, leaves, i, r.error)
  {
    if |apps| == 0 then Success([])
    else
      var nodes := leaves(apps[0]);
      if |nodes| == 0 then
        var rest := CollectLeaves(apps[1..], leaves);
        if rest.Failure? then ShiftConflict(apps, leaves, rest.error); rest else rest
      else if |nodes| > 1 then
        assert FirstConflictAt(apps, leaves, 0, ConflictingMigrations(apps[0], nodes));
        Failure(ConflictingMigrations(apps[0], nodes))
      else
        var rest := CollectLeaves(apps[1..], leaves);
        if rest.Failure? then ShiftConflict(apps, leaves, rest.error); rest
        else Success([Entry(apps[0], nodes[0].name)] + rest.value)
  }

  /** `e` reports `apps[i]`, the first app in `apps` with more than one leaf. */
  ghost predicate FirstConflictAt(apps: seq<string>, leaves: string -> seq<MigrationKey>, i: int, e: ReleaseError)
    requires 0 <= i < |apps|
  {
    && e == ConflictingMigrations(apps[i], leaves(apps[i]))
    && |leaves(apps[i])| > 1
    && forall j :: 0 <= j < i ==> |leaves(apps[j])| <= 1
  }

  lemma ShiftConflict(apps: seq<string>, leaves: string -> seq<MigrationKey>, e: ReleaseError)
    requires |apps| > 0 && |leaves(apps[0])| <= 1
    requires exists i :: 0 <= i < |apps| - 1 && FirstConflictAt(apps[1..], leaves, i, e)
    ensures exists i :: 0 <= i < |apps| && FirstConflictAt(apps, leaves, i, e)
  {
    var i :| 0 <= i < |apps| - 1 && FirstConflictAt(apps[1..], leaves, i, e);
    assert FirstConflictAt(apps, leaves, i + 1, e);
  }

  /** The release mapping of `handle`, as an association list in key order. */
  function BuildRelease(migratedApps: seq<string>, leaves: string -> seq<MigrationKey>): (r: Result<seq<Entry>, ReleaseError>)
    ensures r.Success? <==> forall a :: a in migratedApps ==> |leaves(a)| <= 1
    ensures r.Success? ==> forall e :: e in r.value ==>
      e.app in migratedApps && |leaves(e.app)| == 1 && e.migration == leaves(e.app)[0].name
    ensures r.Success? ==> forall a :: a in migratedApps && |leaves(a)| == 1 ==> Entry(a, leaves(a)[0].name) in r.value
    ensures r.Success? ==> forall i, j :: 0 <= i < j < |r.value| ==> StrLt(r.value[i].app, r.value[j].app)
    ensures r.Failure? ==> r.error.app in migratedApps && |r.error.nodes| > 1 && r.error.nodes == leaves(r.error.app)
  {
    var sorted := SortedApps(migratedApps);
    var r := CollectLeaves(sorted, leaves);
    assert r.Success? <== forall a :: a in migratedApps ==> |leaves(a)| <= 1;
    assert r.Success? ==> forall a :: a in migratedApps ==> |leaves(a)| <= 1 by {
      if r.Success? {
        forall a | a in migratedApps
          ensures |leaves(a)| <= 1
        {
          var k :| 0 <= k < |sorted| && sorted[k] == a;
        }
      }
    }
    r
  }

  /** An app with no leaf nodes has no entry in the release. */
  lemma AppWithoutLeavesHasNoEntry(migratedApps: seq<string>, leaves: string -> seq<MigrationKey>, app: string)
    requires BuildRelease(migratedApps, leaves).Success?
    requires |leaves(app)| == 0
    ensures forall e :: e in BuildRelease(migratedApps, leaves).value ==> e.app != app
  {
  }

  /** Apps are visited in ascending order, so the reported conflict is the
      smallest conflicting app name. */
  lemma BuildReleaseReportsFirstConflict(migratedApps: seq<string>, leaves: string -> seq<MigrationKey>)
    requires BuildRelease(migratedApps, leaves).Failure?
    ensures forall a :: a in migratedApps && StrLt(a, BuildRelease(migratedApps, leaves).error.app) ==> |leaves(a)| <= 1
  {
    var sorted := SortedApps(migratedApps);
    var e := BuildRelease(migratedApps, leaves).error;
    var i :| 0 <= i < |sorted| && FirstConflictAt(sorted, leaves, i, e);
    forall a | a in migratedApps && StrLt(a, e.app)
      ensures |leaves(a)| <= 1
    {
      var j :| 0 <= j < |sorted| && sorted[j] == a;
      if j == i {
        StrLtIrreflexive(a);
      } else if j > i {
        StrLtTotal(sorted[i], sorted[j]);
      }
    }
  }

  /** One run of the command: on success exactly one write, of the mapping under
      `<release>.json`; on a conflict no write at all. */
  function CreateSnapshot(store: Store, release: string, migratedApps: seq<string>,
                          leaves: string -> seq<MigrationKey>, now: int): (r: SnapshotRun)
    ensures r.result == BuildRelease(migratedApps, leaves)
    ensures r.result.Failure? ==> r.store == store
    ensures r.result.Success? ==> r.store == Save(store, ReleasePath(release), Document(r.result.value), now)
  {
    match BuildRelease(migratedApps, leaves)
    case Failure(e) => SnapshotRun(store, Failure(e))
    case Success(entries) =>
      SnapshotRun(Save(store, ReleasePath(release), Document(entries), now), Success(entries))
  }

  /** The mapping the command writes is a JSON object: no app appears twice. */
  lemma BuildReleaseDistinctApps(migratedApps: seq<string>, leaves: string -> seq<MigrationKey>)
    requires BuildRelease(migratedApps, leaves).Success?
    ensures DistinctApps(BuildRelease(migratedApps, leaves).value)
  {
    var r := BuildRelease(migratedApps, leaves).value;
    forall i, j | 0 <= i < j < |r|
      ensures r[i].app != r[j].app
    {
      StrLtIrreflexive(r[i].app);
    }
  }

  const ConflictHead := "Conflicting migrations detected; multiple leaf nodes in the migration graph: ("
  const ConflictTail := ").\nTo fix them run 'python manage.py makemigrations --merge'"

  /** The text of the conflict error: the conflicting leaves between a fixed
      opening and the advice to merge them. */
  function ConflictMessage(e: ReleaseError): (r: string)
    ensures |r| == |ConflictHead| + |NodeList(e.nodes)| + |ConflictTail|
    ensures r[..|ConflictHead|] == ConflictHead
    ensures r[|ConflictHead|..|ConflictHead| + |NodeList(e.nodes)|] == NodeList(e.nodes)
    ensures r[|r| - |ConflictTail|..] == ConflictTail
  {
    ConflictHead + NodeList(e.nodes) + ConflictTail
  }

  /** Each leaf as "name in app", separated by "; ". */
  function NodeList(nodes: seq<MigrationKey>): (r: string)
    ensures r == "" <==> |nodes| == 0
  {
    if |nodes| == 0 then ""
    else if |nodes| == 1 then LeafText(nodes[0])
    else LeafText(nodes[0]) + "; " + NodeList(nodes[1..])
  }

  function LeafText(k: MigrationKey): string
  {
    k.name + " in " + k.app
  }

  /** The leaf list names every one of the conflicting leaves. */
  lemma {:induction false} NodeListNamesEveryLeaf(nodes: seq<MigrationKey>, k: nat)
    requires k < |nodes|
    ensures Occurs(LeafText(nodes[k]), NodeList(nodes))
  {
    var t := LeafText(nodes[k]);
    if k == 0 {
      var tail := if |nodes| == 1 then "" else "; " + NodeList(nodes[1..]);
      assert NodeList(nodes) == "" + t + tail;
      assert OccursAt(t, t, 0);
      OccursInside(t, t, 0, "", tail);
    } else {
      NodeListNamesEveryLeaf(nodes[1..], k - 1);
      var rest := NodeList(nodes[1..]);
      var i :| OccursAt(t, rest, i);
      var p := LeafText(nodes[0]) + "; ";
      assert NodeList(nodes) == p + rest + "";
      OccursInside(t, rest, i, p, "");
    }
  }

  /** The conflict error names every leaf of the conflicting app. */
  lemma ConflictMessageNamesEveryLeaf(e: ReleaseError, k: nat)
    requires k < |e.nodes|
    ensures Occurs(LeafText(e.nodes[k]), ConflictMessage(e))
  {
    var t := LeafText(e.nodes[k]);
    NodeListNamesEveryLeaf(e.nodes, k);
    var i :| OccursAt(t, NodeList(e.nodes), i);
    OccursInside(t, NodeList(e.nodes), i, ConflictHead, ConflictTail);
  }
}
