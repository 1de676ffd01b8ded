/** Schema migration v1: add each listed column that is missing, then fill its NULLs with the default. */
module MigrationV1 {
  import opened Wrappers

  datatype ColumnDef = ColumnDef(name: string, sqlType: string)

  /** A row maps column names to values; `None` is SQL NULL. Text is the only value kind needed here. */
  type Row = map<string, Option<string>>

  datatype Table = Table(columns: seq<ColumnDef>, rows: seq<Row>)

  /** An entry of a migration list. */
  datatype Migration = Migration(name: string, sqlType: string, defaultValue: Option<string>)

  /** What the database answered to the three statements a migration can issue:
      PRAGMA table_info, ALTER TABLE ... ADD COLUMN and the default-filling UPDATE. */
  datatype StepOutcome = StepOutcome(pragmaOk: bool, alterOk: bool, updateOk: bool)

  /** The columns added to `users`. */
  const Migrations: seq<Migration> := [
    Migration("pfp", "TEXT", Some("/avatars/defaultpfp.png")),
    Migration("theme", "TEXT", Some("default")),
    Migration("biography", "TEXT", Some("User has not written their Bio.")),
    Migration("indexable", "BOOLEAN", Some("1")),
    Migration("banner", "TEXT", None),
    Migration("discriminator", "TEXT", Some("0001"))
  ]

  /** The column added to `posts`. */
  const UploadsMigrations: seq<Migration> := [
    Migration("filename", "TEXT", None)
  ]

  /** `columns.some((col) => col.name === columnName)` over the PRAGMA table_info result. */
  function ColumnExists(columns: seq<ColumnDef>, name: string): (b: bool)
    ensures b <==> exists i :: 0 <= i < |columns| && columns[i].name == name
  {
    if columns == [] then false
    else if columns[0].name == name then true
    else
      var rest := ColumnExists(columns[1..], name);
      assert rest ==> exists i :: 1 <= i < |columns| && columns[i].name == name by {
        if rest {
          var i :| 0 <= i < |columns[1..]| && columns[1..][i].name == name;
          assert columns[i + 1].name == name;
        }
      }
      rest
  }

  lemma ColumnExistsAppend(columns: seq<ColumnDef>, more: seq<ColumnDef>, name: string)
    requires ColumnExists(columns, name)
    ensures ColumnExists(columns + more, name)
  {
    var i :| 0 <= i < |columns| && columns[i].name == name;
    assert (columns + more)[i] == columns[i];
  }

  /** `ALTER TABLE t ADD COLUMN name type`: the column goes last and every row holds NULL in it. */
  function AddColumn(t: Table, c: ColumnDef): (r: Table)
    ensures ColumnExists(r.columns, c.name)
    ensures r.columns == t.columns + [c]
    ensures |r.rows| == |t.rows|
    ensures forall i :: 0 <= i < |r.rows| ==> r.rows[i].Keys == t.rows[i].Keys + {c.name} && r.rows[i][c.name] == None
    ensures forall i, k :: 0 <= i < |r.rows| && k in t.rows[i] && k != c.name ==> r.rows[i][k] == t.rows[i][k]
  {
    var r := Table(t.columns + [c], seq(|t.rows|, i requires 0 <= i < |t.rows| => t.rows[i][c.name := None]));
    assert r.columns[|t.columns|] == c;
    r
  }

  /** `UPDATE t SET name = v WHERE name IS NULL`. */
  function FillNulls(t: Table, name: string, v: string): (r: Table)
    ensures r.columns == t.columns && |r.rows| == |t.rows|
    ensures forall i :: 0 <= i < |r.rows| ==> r.rows[i].Keys == t.rows[i].Keys
    // no NULL is left in the column
    ensures forall i :: 0 <= i < |r.rows| && name in r.rows[i] ==> r.rows[i][name].Some?
    // the NULLs that were there became v
    ensures forall i :: 0 <= i < |r.rows| && name in t.rows[i] && t.rows[i][name].None? ==> r.rows[i][name] == Some(v)
    // every value that was not NULL in that column, and every other column, is untouched
    ensures forall i, k :: 0 <= i < |r.rows| && k in t.rows[i] && (k != name || t.rows[i][k].Some?) ==>
              r.rows[i][k] == t.rows[i][k]
  {
    Table(t.columns, seq(|t.rows|, i requires 0 <= i < |t.rows| =>
      if name in t.rows[i] && t.rows[i][name].None? then t.rows[i][name := Some(v)] else t.rows[i]))
  }

  /** Filling twice is filling once. */
  lemma FillNullsIdempotent(t: Table, name: string, v: string)
    ensures FillNulls(FillNulls(t, name, v), name, v) == FillNulls(t, name, v)
  {
    var once := FillNulls(t, name, v);
    var twice := FillNulls(once, name, v);
    forall i | 0 <= i < |once.rows|
      ensures twice.rows[i] == once.rows[i]
    {
      assert twice.rows[i].Keys == once.rows[i].Keys;
      forall k | k in once.rows[i]
        ensures twice.rows[i][k] == once.rows[i][k]
      {
        if k == name {
          assert once.rows[i][k].Some?;
        }
      }
    }
  }

  /** One migration as its chain of callbacks runs it. */
  function Step(t: Table, m: Migration, o: StepOutcome): (r: Table)
    // a column that is there already is skipped
    ensures ColumnExists(t.columns, m.name) ==> r == t
    // a failed PRAGMA or ALTER skips the rest of this migration
    ensures !o.pragmaOk || !o.alterOk ==> r == t
    ensures o.pragmaOk && o.alterOk ==> ColumnExists(r.columns, m.name)
    ensures r.columns == t.columns || r.columns == t.columns + [ColumnDef(m.name, m.sqlType)]
    ensures |r.rows| == |t.rows|
    // values in columns that existed before are never touched
    ensures forall i, k :: 0 <= i < |t.rows| && k in t.rows[i] && ColumnExists(t.columns, k) ==>
              k in r.rows[i] && r.rows[i][k] == t.rows[i][k]
    // an added column with a default holds it in every row; one without holds NULL everywhere
    ensures r != t && m.defaultValue.Some? && o.updateOk ==>
              forall i :: 0 <= i < |r.rows| ==> m.name in r.rows[i] && r.rows[i][m.name] == m.defaultValue
    ensures r != t && (m.defaultValue.None? || !o.updateOk) ==>
              forall i :: 0 <= i < |r.rows| ==> m.name in r.rows[i] && r.rows[i][m.name] == None
  {
    if !o.pragmaOk || ColumnExists(t.columns, m.name) || !o.alterOk then t
    else
      var added := AddColumn(t, ColumnDef(m.name, m.sqlType));
      if m.defaultValue.Some? && o.updateOk then FillNulls(added, m.name, m.defaultValue.value) else added
  }

  /** A whole migration list, one step after another. */
  function Run(t: Table, ms: seq<Migration>, os: seq<StepOutcome>): (r: Table)
    requires |os| == |ms|
    // a run only ever appends columns, and keeps the rows
    ensures t.columns <= r.columns
    ensures |r.rows| == |t.rows|
    decreases |ms|
  {
    if |ms| == 0 then t
    else Step(Run(t, ms[..|ms| - 1], os[..|ms| - 1]), ms[|ms| - 1], os[|ms| - 1])
  }

  /** No PRAGMA and no ALTER failed. */
  predicate NoSchemaFaults(os: seq<StepOutcome>) {
    forall i :: 0 <= i < |os| ==> os[i].pragmaOk && os[i].alterOk
  }

  /** An entry whose PRAGMA and ALTER succeed has its column afterwards, whatever happened to the others. */
  lemma {:induction false} RunAddsEntry(t: Table, ms: seq<Migration>, os: seq<StepOutcome>, j: nat)
    requires |os| == |ms| && j < |ms| && os[j].pragmaOk && os[j].alterOk
    ensures ColumnExists(Run(t, ms, os).columns, ms[j].name)
  {
    var n := |ms| - 1;
    var before := Run(t, ms[..n], os[..n]);
    var after := Step(before, ms[n], os[n]);
    if j < n {
      assert ms[..n][j] == ms[j] && os[..n][j] == os[j];
      RunAddsEntry(t, ms[..n], os[..n], j);
      ColumnExistsAppend(before.columns, after.columns[|before.columns|..], ms[j].name);
      assert before.columns + after.columns[|before.columns|..] == after.columns;
    }
  }

  /** Without schema faults every listed column exists afterwards. */
  lemma RunAddsAll(t: Table, ms: seq<Migration>, os: seq<StepOutcome>)
    requires |os| == |ms| && NoSchemaFaults(os)
    ensures forall i :: 0 <= i < |ms| ==> ColumnExists(Run(t, ms, os).columns, ms[i].name)
  {
    forall i | 0 <= i < |ms|
      ensures ColumnExists(Run(t, ms, os).columns, ms[i].name)
    {
      RunAddsEntry(t, ms, os, i);
    }
  }

  /** When every listed column is present, a run changes nothing, whatever the database answers. */
  lemma {:induction false} RunSkipsPresent(t: Table, ms: seq<Migration>, os: seq<StepOutcome>)
    requires |os| == |ms|
    requires forall i :: 0 <= i < |ms| ==> ColumnExists(t.columns, ms[i].name)
    ensures Run(t, ms, os) == t
  {
    if |ms| > 0 {
      var n := |ms| - 1;
      assert forall i :: 0 <= i < n ==> ms[..n][i] == ms[i];
      RunSkipsPresent(t, ms[..n], os[..n]);
    }
  }

  /** Running the migrations again after a run without schema faults changes nothing. */
  lemma RunIdempotent(t: Table, ms: seq<Migration>, first: seq<StepOutcome>, second: seq<StepOutcome>)
    requires |first| == |ms| && |second| == |ms| && NoSchemaFaults(first)
    ensures Run(Run(t, ms, first), ms, second) == Run(t, ms, first)
  {
    RunAddsAll(t, ms, first);
    RunSkipsPresent(Run(t, ms, first), ms, second);
  }

  /** A run never alters a value held in a column that existed before it. */
  lemma {:induction false} RunKeepsExistingValues(t: Table, ms: seq<Migration>, os: seq<StepOutcome>, i: nat, k: string)
    requires |os| == |ms|
    requires i < |t.rows| && k in t.rows[i] && ColumnExists(t.columns, k)
    ensures |Run(t, ms, os).rows| == |t.rows|
    ensures k in Run(t, ms, os).rows[i] && Run(t, ms, os).rows[i][k] == t.rows[i][k]
  {
    if |ms| > 0 {
      var n := |ms| - 1;
      var before := Run(t, ms[..n], os[..n]);
      RunKeepsExistingValues(t, ms[..n], os[..n], i, k);
      ColumnExistsAppend(t.columns, before.columns[|t.columns|..], k);
      assert t.columns + before.columns[|t.columns|..] == before.columns;
    }
  }

  /** The body of one iteration of either forEach: columnExists, then ALTER, then the UPDATE,
      each callback returning early on error. This is the imperative rendering of the
      decision chain that `Step` specifies, not a second definition of it. */
  method ApplyMigration(t: Table, m: Migration, o: StepOutcome) returns (r: Table)
    ensures r == Step(t, m, o)
  {
    r := t;
    if !o.pragmaOk {
      return;   // error checking the column: logged, migration skipped
    }
    var present := ColumnExists(t.columns, m.name);
    if present {
      return;   // already exists: skipped
    }
    if !o.alterOk {
      return;   // error adding the column: logged, no default fill
    }
    r := AddColumn(r, ColumnDef(m.name, m.sqlType));
    if m.defaultValue.Some? && o.updateOk {
      r := FillNulls(r, m.name, m.defaultValue.value);
    }
  }

  /** The tables the script works on. */
  class Database {
    var users: Table
    var posts: Table

    constructor (users: Table, posts: Table)
      ensures this.users == users && this.posts == posts
    {
      this.users := users;
      this.posts := posts;
    }

    /** applyMigrations: the users list, in order; `outcomes[i]` is what the database answered for entry i. */
    method ApplyMigrations(outcomes: seq<StepOutcome>)
      requires |outcomes| == |Migrations|
      modifies this`users
      ensures users == Run(old(users), Migrations, outcomes)
      ensures posts == old(posts)
    {
      for i := 0 to |Migrations|
        invariant users == Run(old(users), Migrations[..i], outcomes[..i])
      {
        assert Migrations[..i + 1][..i] == Migrations[..i] && outcomes[..i + 1][..i] == outcomes[..i];
        var m, o := Migrations[i], outcomes[i];
        users := ApplyMigration(users, m, o);
      }
      assert Migrations[..|Migrations|] == Migrations && outcomes[..|outcomes|] == outcomes;
    }

    /** applyPostMigrations: the posts list. */
    method ApplyPostMigrations(outcomes: seq<StepOutcome>)
      requires |outcomes| == |UploadsMigrations|
      modifies this`posts
      ensures posts == Run(old(posts), UploadsMigrations, outcomes)
      ensures users == old(users)
    {
      for i := 0 to |UploadsMigrations|
        invariant posts == Run(old(posts), UploadsMigrations[..i], outcomes[..i])
      {
        assert UploadsMigrations[..i + 1][..i] == UploadsMigrations[..i] && outcomes[..i + 1][..i] == outcomes[..i];
        var m, o := UploadsMigrations[i], outcomes[i];
        posts := ApplyMigration(posts, m, o);
      }
      assert UploadsMigrations[..|UploadsMigrations|] == UploadsMigrations && outcomes[..|outcomes|] == outcomes;
    }

    /** The script: both lists, users first. */
    method Migrate(userOutcomes: seq<StepOutcome>, postOutcomes: seq<StepOutcome>)
      requires |userOutcomes| == |Migrations| && |postOutcomes| == |UploadsMigrations|
      modifies this
      ensures users == Run(old(users), Migrations, userOutcomes)
      ensures posts == Run(old(posts), UploadsMigrations, postOutcomes)
    {
      ApplyMigrations(userOutcomes);
      ApplyPostMigrations(postOutcomes);
    }
  }

  /** After a run without schema faults `users` has all six columns and `posts` has `filename`. */
  lemma ListedColumnsExist(users: Table, posts: Table, userOutcomes: seq<StepOutcome>, postOutcomes: seq<StepOutcome>)
    requires |userOutcomes| == |Migrations| && |postOutcomes| == |UploadsMigrations|
    requires NoSchemaFaults(userOutcomes) && NoSchemaFaults(postOutcomes)
    ensures var u := Run(users, Migrations, userOutcomes).columns;
            ColumnExists(u, "pfp") && ColumnExists(u, "theme") && ColumnExists(u, "biography")
            && ColumnExists(u, "indexable") && ColumnExists(u, "banner") && ColumnExists(u, "discriminator")
    ensures ColumnExists(Run(posts, UploadsMigrations, postOutcomes).columns, "filename")
  {
    RunAddsAll(users, Migrations, userOutcomes);
    RunAddsAll(posts, UploadsMigrations, postOutcomes);
    assert Migrations[0].name == "pfp" && Migrations[1].name == "theme" && Migrations[2].name == "biography";
    assert Migrations[3].name == "indexable" && Migrations[4].name == "banner" && Migrations[5].name == "discriminator";
    assert UploadsMigrations[0].name == "filename";
  }
}
