/** The values the migration framework hands to the commands. The graph,
    the loader and the executor themselves are not part of this model. */
module Migrations {

  /** A graph node: the `(app_label, migration_name)` pair of one migration. */
  datatype MigrationKey = MigrationKey(app: string, name: string)

  /** One entry of a release mapping: app -> leaf migration name. */
  datatype Entry = Entry(app: string, migration: string)

  /** No app has two entries, as in the items of a decoded JSON object. */
  ghost predicate DistinctApps(entries: seq<Entry>)
  {
    forall i, j :: 0 <= i < j < |entries| ==> entries[i].app != entries[j].app
  }

  /** One step of a migration plan, tagged with whether it is currently applied. */
  datatype PlanStep = PlanStep(migration: MigrationKey, applied: bool)

  /** `str(migration)`, which the framework renders as `app.name`. */
  function Label(m: MigrationKey): string
  {
    m.app + "." + m.name
  }
}
