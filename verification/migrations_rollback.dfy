/** The `migrations_rollback` command: validate that reverting to a stored
    release is safe, then hand the plan to the executor for real execution. */
module Rollback {
  import opened Results
  import opened Migrations
  import opened BlobStore
  import Release

  /** Why a rollback stopped before `migrate` was called. */
  datatype RollbackError =
    | NoReleaseFile(path: string)
      /** `json.load` raised on the stored bytes. */
    | UndecodableRelease(path: string)
      /** The document decoded to a JSON value other than an object, which has
          no `items` (AttributeError). */
    | NoItems(path: string)
      /** The live graph has apps with several leaves: app -> leaf names. */
    | ConflictingMigrations(conflicts: map<string, seq<string>>)
    | NothingToRollback
      /** The plan would apply the named migration instead of reverting it. */
    | WouldApply(migration: string)

  /** The arguments the executor's migrate is called with, keyword flags included,
      and the lines written to stdout just before it. */
  datatype MigrateCall = MigrateCall(targets: seq<Entry>, plan: seq<PlanStep>, fake: bool, fakeInitial: bool,
                                     preamble: seq<string>)

  /** Index of the first step of `plan` that is not currently applied. */
  function FirstUnapplied(plan: seq<PlanStep>): (r: Option<nat>)
    ensures r.None? <==> forall i :: 0 <= i < |plan| ==> plan[i].applied
    ensures r.Some? ==> r.value < |plan| && !plan[r.value].applied
    ensures r.Some? ==> forall i :: 0 <= i < r.value ==> plan[i].applied
  {
    if |plan| == 0 then None
    else if !plan[0].applied then Some(0)
    else match FirstUnapplied(plan[1..])
      case None => None
      case Some(i) => Some(i + 1)
  }

  /** The "  Revert <app> <name>" lines, one per plan step, in plan order. */
  function RevertLines(plan: seq<PlanStep>): (r: seq<string>)
    ensures |r| == |plan|
    ensures forall i :: 0 <= i < |plan| ==>
      r[i] == "  Revert " + plan[i].migration.app + " " + plan[i].migration.name
  {
    if |plan| == 0 then []
    else ["  Revert " + plan[0].migration.app + " " + plan[0].migration.name] + RevertLines(plan[1..])
  }

  /** What is written before `migrate` runs: nothing below verbosity 1. */
  function Preamble(verbosity: int, plan: seq<PlanStep>): (r: seq<string>)
    ensures verbosity < 1 ==> r == []
    ensures verbosity >= 1 ==>
              && |r| == |plan| + 2 && r[0] == "Operations to perform:"
              && r[1..|plan| + 1] == RevertLines(plan) && r[|plan| + 1] == "Running migrations:"
  {
    if verbosity >= 1 then ["Operations to perform:"] + RevertLines(plan) + ["Running migrations:"] else []
  }

  /** `handle`: `conflicts` is what `detect_conflicts` reports for the live graph
      and `planFor` is `migration_plan`; neither is consulted before it is needed. */
  function Rollback(store: Store, release: string, verbosity: int, conflicts: map<string, seq<string>>,
                    planFor: seq<Entry> -> seq<PlanStep>): (r: Result<MigrateCall, RollbackError>)
    ensures Release.ReleasePath(release) !in store ==> r == Failure(NoReleaseFile(Release.ReleasePath(release)))
    ensures Release.ReleasePath(release) in store && store[Release.ReleasePath(release)].content.Opaque? ==>
      r == Failure(UndecodableRelease(Release.ReleasePath(release)))
    ensures Release.ReleasePath(release) in store && store[Release.ReleasePath(release)].content.NotAnObject? ==>
      r == Failure(NoItems(Release.ReleasePath(release)))
    ensures r.Success? <==>
      && Release.ReleasePath(release) in store
      && store[Release.ReleasePath(release)].content.Document?
      && |conflicts| == 0
      && |planFor(store[Release.ReleasePath(release)].content.entries)| > 0
      && forall s :: s in planFor(store[Release.ReleasePath(release)].content.entries) ==> s.applied
    ensures r.Success? ==>
      && r.value.targets == store[Release.ReleasePath(release)].content.entries
      && r.value.plan == planFor(r.value.targets)
      && !r.value.fake && !r.value.fakeInitial
      && r.value.preamble == Preamble(verbosity, r.value.plan)
  {
    var path := Release.ReleasePath(release);
    if path !in store then Failure(NoReleaseFile(path))
    else match store[path].content
      case Opaque(_) => Failure(UndecodableRelease(path))
      case NotAnObject => Failure(NoItems(path))
      case Document(targets) =>
        if |conflicts| > 0 then Failure(ConflictingMigrations(conflicts))
        else
          var plan := planFor(targets);
          if |plan| == 0 then Failure(NothingToRollback)
          else match FirstUnapplied(plan)
            case Some(i) => Failure(WouldApply(plan[i].migration.name))
            case None => Success(MigrateCall(targets, plan, false, false, Preamble(verbosity, plan)))
  }

  /** A missing artifact is reported before the database is looked at: the
      outcome does not depend on the live graph or the planner. */
  lemma MissingReleaseFirst(store: Store, release: string, v1: int, v2: int,
                            c1: map<string, seq<string>>, c2: map<string, seq<string>>,
                            p1: seq<Entry> -> seq<PlanStep>, p2: seq<Entry> -> seq<PlanStep>)
    requires Release.ReleasePath(release) !in store
    ensures Rollback(store, release, v1, c1, p1) == Rollback(store, release, v2, c2, p2)
    ensures Rollback(store, release, v1, c1, p1).Failure?
  {
  }

  /** Live conflicts stop the command before any plan is computed: the
      outcome is the conflict error, whatever the planner would return. */
  lemma ConflictsBeforePlan(store: Store, release: string, verbosity: int, conflicts: map<string, seq<string>>,
                            p1: seq<Entry> -> seq<PlanStep>, p2: seq<Entry> -> seq<PlanStep>)
    requires Release.ReleasePath(release) in store && store[Release.ReleasePath(release)].content.Document?
    requires |conflicts| > 0
    ensures Rollback(store, release, verbosity, conflicts, p1) == Failure(ConflictingMigrations(conflicts))
    ensures Rollback(store, release, verbosity, conflicts, p1) == Rollback(store, release, verbosity, conflicts, p2)
  {
  }

  /** An empty plan is an error, not a successful no-op. */
  lemma EmptyPlanIsNothingToRollback(store: Store, release: string, verbosity: int,
                                     planFor: seq<Entry> -> seq<PlanStep>)
    requires Release.ReleasePath(release) in store && store[Release.ReleasePath(release)].content.Document?
    requires |planFor(store[Release.ReleasePath(release)].content.entries)| == 0
    ensures Rollback(store, release, verbosity, map[], planFor) == Failure(NothingToRollback)
  {
  }

  /** A plan with a step still to be applied is refused, naming the first such step. */
  lemma ForwardStepIsRefused(store: Store, release: string, verbosity: int,
                             planFor: seq<Entry> -> seq<PlanStep>, k: nat)
    requires Release.ReleasePath(release) in store && store[Release.ReleasePath(release)].content.Document?
    requires var plan := planFor(store[Release.ReleasePath(release)].content.entries);
      k < |plan| && !plan[k].applied && forall i :: 0 <= i < k ==> plan[i].applied
    ensures Rollback(store, release, verbosity, map[], planFor)
      == Failure(WouldApply(planFor(store[Release.ReleasePath(release)].content.entries)[k].migration.name))
  {
  }

  /** A release just written by the snapshot command is found and decoded by
      the rollback command, which then plans for exactly its entries. */
  lemma SnapshotThenRollback(store: Store, release: string, migratedApps: seq<string>,
                             leaves: string -> seq<MigrationKey>, now: int, verbosity: int,
                             planFor: seq<Entry> -> seq<PlanStep>)
    requires Release.CreateSnapshot(store, release, migratedApps, leaves, now).result.Success?
    ensures var run := Release.CreateSnapshot(store, release, migratedApps, leaves, now);
      var r := Rollback(run.store, release, verbosity, map[], planFor);
      && (r.Failure? ==> r.error == NothingToRollback || r.error.WouldApply?)
      && (r.Success? ==> r.value.targets == run.result.value)
      && (|planFor(run.result.value)| > 0 && (forall s :: s in planFor(run.result.value) ==> s.applied)
          ==> r.Success?)
  {
  }

  // ----- progress callback -----

  /** One call of `migration_progress_callback(action, migration, fake)`;
      `migration` is the already rendered `str(migration)`. */
  datatype Event = Event(action: string, migration: string, fake: bool)

  /** The text one callback writes, elapsed-time suffixes left out. `write`
      ends a line unless `ending=""` was passed, as for the start events. */
  function ProgressText(verbosity: int, e: Event): (r: string)
    ensures verbosity < 1 ==> r == ""
    ensures verbosity >= 1 && e.action in {"apply_success", "unapply_success"} ==>
      r == if e.fake then " FAKED\n" else " OK\n"
    ensures verbosity >= 1 && e.action == "render_success" ==> r == " DONE\n"
    ensures verbosity >= 1 && e.action == "apply_start" ==> r == "  Applying " + e.migration + "..."
    ensures verbosity >= 1 && e.action == "unapply_start" ==> r == "  Unapplying " + e.migration + "..."
    ensures verbosity >= 1 && e.action == "render_start" ==> r == "  Rendering model states..."
    ensures verbosity >= 1 && IsProgressAction(e.action) ==> r != ""
    ensures !IsProgressAction(e.action) ==> r == ""
  {
    if verbosity < 1 then ""
    else if e.action == "apply_start" then "  Applying " + e.migration + "..."
    else if e.action == "apply_success" then (if e.fake then " FAKED" else " OK") + "\n"
    else if e.action == "unapply_start" then "  Unapplying " + e.migration + "..."
    else if e.action == "unapply_success" then (if e.fake then " FAKED" else " OK") + "\n"
    else if e.action == "render_start" then "  Rendering model states..."
    else if e.action == "render_success" then " DONE\n"
    else ""
  }

  /** The six actions the executor reports. */
  predicate IsProgressAction(action: string)
  {
    action in {"apply_start", "apply_success", "unapply_start", "unapply_success", "render_start", "render_success"}
  }

  /** Everything the callback writes for a sequence of events. */
  function Transcript(verbosity: int, events: seq<Event>): string
  {
    if |events| == 0 then "" else ProgressText(verbosity, events[0]) + Transcript(verbosity, events[1..])
  }

  /** The events a real (not faked) backward migration over `plan` reports:
      the model states are rendered first, then every step is unapplied in
      plan order. The render events carry no migration; "" stands for it. */
  function RevertEvents(plan: seq<PlanStep>): (r: seq<Event>)
    ensures |r| == 2 * |plan| + 2
    ensures r[0].action == "render_start" && r[1].action == "render_success"
    ensures forall i :: 0 <= i < |plan| ==>
      r[2 * i + 2] == Event("unapply_start", Label(plan[i].migration), false)
      && r[2 * i + 3] == Event("unapply_success", Label(plan[i].migration), false)
  {
    [Event("render_start", "", false), Event("render_success", "", false)] + UnapplyEvents(plan)
  }

  /** The unapply events of the steps of `plan`, two per step. */
  function UnapplyEvents(plan: seq<PlanStep>): (r: seq<Event>)
    ensures |r| == 2 * |plan|
    ensures forall i :: 0 <= i < |plan| ==>
      r[2 * i] == Event("unapply_start", Label(plan[i].migration), false)
      && r[2 * i + 1] == Event("unapply_success", Label(plan[i].migration), false)
  {
    if |plan| == 0 then []
    else [Event("unapply_start", Label(plan[0].migration), false),
          Event("unapply_success", Label(plan[0].migration), false)] + UnapplyEvents(plan[1..])
  }

  /** At verbosity 0 the callback is silent, whatever happens. */
  lemma {:induction false} SilentAtVerbosityZero(events: seq<Event>)
    ensures Transcript(0, events) == ""
  {
    if |events| > 0 {
      SilentAtVerbosityZero(events[1..]);
    }
  }

  /** A real revert of the plan prints "  Rendering model states... DONE", then
      one "  Unapplying app.name... OK" line per step, in plan order. */
  lemma RevertTranscript(verbosity: int, plan: seq<PlanStep>)
    requires verbosity >= 1
    ensures Transcript(verbosity, RevertEvents(plan)) == RevertReport(plan)
  {
    var ev := RevertEvents(plan);
    assert ev[1..][1..] == ev[2..] == UnapplyEvents(plan);
    assert ProgressText(verbosity, ev[0]) == "  Rendering model states...";
    assert ProgressText(verbosity, ev[1]) == " DONE\n";
    UnapplyTranscript(verbosity, plan);
  }

  lemma {:induction false} UnapplyTranscript(verbosity: int, plan: seq<PlanStep>)
    requires verbosity >= 1
    ensures Transcript(verbosity, UnapplyEvents(plan)) == UnapplyReport(plan)
  {
    if |plan| > 0 {
      var ev := UnapplyEvents(plan);
      assert ev[2..] == UnapplyEvents(plan[1..]);
      UnapplyTranscript(verbosity, plan[1..]);
      assert Transcript(verbosity, ev) == ProgressText(verbosity, ev[0]) + Transcript(verbosity, ev[1..]);
      assert ev[1..][1..] == ev[2..];
      var shown := Label(plan[0].migration);
      assert ProgressText(verbosity, ev[0]) == "  Unapplying " + shown + "...";
      assert ProgressText(verbosity, ev[1]) == " OK\n";
    }
  }

  /** The expected output of a real revert: the rendering line, then one line per step. */
  function RevertReport(plan: seq<PlanStep>): string
  {
    "  Rendering model states... DONE\n" + UnapplyReport(plan)
  }

  function UnapplyReport(plan: seq<PlanStep>): string
  {
    if |plan| == 0 then "" else "  Unapplying " + Label(plan[0].migration) + "... OK\n" + UnapplyReport(plan[1..])
  }
}
