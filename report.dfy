/**
 * What the script prints once the loop has finished: the `mv` section, then a
 * blank line and the SQL section, one line per entry of each list.
 */
module Report {
  import opened Wrappers
  import opened MigrationName
  import opened RenamePlan

  const MvHeader: string := "# mv commands:"
  const SqlHeader: string := "# SQL updates for inventory_schema_migrations (run these in psql):"

  /** `f"mv {oldp.as_posix()} {newp.as_posix()}"`. */
  function MvLine(r: Rename): string
  {
    "mv " + r.oldPath + " " + r.newPath
  }

  /** The `update` statement for one pair of base names. */
  function SqlLine(u: SqlUpdate): string
  {
    "update inventory_schema_migrations set name='" + u.newBase + "' where name='" + u.oldBase + "';"
  }

  function MvLines(renames: seq<Rename>): (lines: seq<string>)
    ensures |lines| == |renames|
  {
    if renames == [] then [] else MvLines(renames[..|renames| - 1]) + [MvLine(renames[|renames| - 1])]
  }

  function SqlLines(updates: seq<SqlUpdate>): (lines: seq<string>)
    ensures |lines| == |updates|
  {
    if updates == [] then [] else SqlLines(updates[..|updates| - 1]) + [SqlLine(updates[|updates| - 1])]
  }

  /** The printed lines, in order; the `"\n"` before the SQL header is the blank line. */
  function Output(plan: Plan): seq<string>
  {
    [MvHeader] + MvLines(plan.renames) + ["", SqlHeader] + SqlLines(plan.sqlUpdates)
  }

  /** The two printing loops, collecting the lines instead of writing them. */
  method Render(plan: Plan) returns (lines: seq<string>)
    ensures lines == Output(plan)
  {
    lines := [MvHeader];
    for k := 0 to |plan.renames|
      invariant lines == [MvHeader] + MvLines(plan.renames[..k])
    {
      assert plan.renames[..k + 1][..k] == plan.renames[..k];
      lines := lines + [MvLine(plan.renames[k])];
    }
    assert plan.renames[..|plan.renames|] == plan.renames;
    lines := lines + ["", SqlHeader];
    var head := lines;
    for k := 0 to |plan.sqlUpdates|
      invariant lines == head + SqlLines(plan.sqlUpdates[..k])
    {
      assert plan.sqlUpdates[..k + 1][..k] == plan.sqlUpdates[..k];
      lines := lines + [SqlLine(plan.sqlUpdates[k])];
    }
    assert plan.sqlUpdates[..|plan.sqlUpdates|] == plan.sqlUpdates;
  }

  lemma {:induction false} MvLinesAt(renames: seq<Rename>, k: nat)
    requires k < |renames|
    ensures MvLines(renames)[k] == MvLine(renames[k])
  {
    if k < |renames| - 1 {
      MvLinesAt(renames[..|renames| - 1], k);
    }
  }

  lemma {:induction false} SqlLinesAt(updates: seq<SqlUpdate>, k: nat)
    requires k < |updates|
    ensures SqlLines(updates)[k] == SqlLine(updates[k])
  {
    if k < |updates| - 1 {
      SqlLinesAt(updates[..|updates| - 1], k);
    }
  }

  /**
   * The layout of the output: the `mv` header, one `mv` line per rename in list
   * order, a blank line, the SQL header, and one `update` line per pair in list order.
   */
  lemma OutputLayout(plan: Plan)
    ensures var out, n := Output(plan), |plan.renames|;
      |out| == n + |plan.sqlUpdates| + 3
      && out[0] == MvHeader && out[n + 1] == "" && out[n + 2] == SqlHeader
      && (forall k :: 0 <= k < n ==> out[1 + k] == MvLine(plan.renames[k]))
      && (forall k :: 0 <= k < |plan.sqlUpdates| ==> out[n + 3 + k] == SqlLine(plan.sqlUpdates[k]))
  {
    var n := |plan.renames|;
    forall k | 0 <= k < n
      ensures Output(plan)[1 + k] == MvLine(plan.renames[k])
    {
      MvLinesAt(plan.renames, k);
    }
    forall k | 0 <= k < |plan.sqlUpdates|
      ensures Output(plan)[n + 3 + k] == SqlLine(plan.sqlUpdates[k])
    {
      SqlLinesAt(plan.sqlUpdates, k);
    }
  }

  /** With nothing to rename only the two headers and the blank line between them are printed. */
  lemma EmptyOutput()
    ensures Output(Plan([], [])) == [MvHeader, "", SqlHeader]
  {
  }

  /** A whole run: no output at all when the loop raises, otherwise the two sections. */
  function Run(names: seq<string>): Result<seq<string>, PlanError>
  {
    match PlanOf(names)
    case Failure(e) => Failure(e)
    case Success(plan) => Success(Output(plan))
  }

  /** The script over a sorted listing: build the plan, then print it. */
  method RunScript(names: seq<string>) returns (result: Result<seq<string>, PlanError>)
    requires StrictlySorted(names)
    ensures result == Run(names)
  {
    var plan := BuildPlan(names);
    if plan.Failure? {
      return Failure(plan.error);
    }
    var lines := Render(plan.value);
    result := Success(lines);
  }

  /**
   * A run prints nothing exactly when some matching name has an invalid stamp, and
   * the error then names the first such name.
   */
  lemma {:induction false} RunFails(names: seq<string>)
    ensures Run(names).Failure? <==> exists i :: 0 <= i < |names| && StepOf(names[i]).Abort?
    ensures Run(names).Failure? ==>
      exists i :: FirstAbort(names, i) && Run(names).error == InvalidTimestamp(names[i])
  {
    PlanFailure(names);
  }

  /**
   * In the output of an aligned plan the k-th `mv` line and the k-th `update` line
   * are about the same file: the `mv` moves `<old base>.ts` to `<new base>.ts` inside
   * `src/migrations`, and the `update` renames `<old base>` to `<new base>`.
   */
  lemma PairedLines(plan: Plan, k: nat)
    requires Aligned(plan) && k < |plan.renames|
    ensures var out, n, u := Output(plan), |plan.renames|, plan.sqlUpdates[k];
      |out| == 2 * n + 3
      && out[1 + k] == "mv " + MigrationPath(u.oldBase + Extension) + " " + MigrationPath(u.newBase + Extension)
      && out[n + 3 + k] == SqlLine(u)
  {
    OutputLayout(plan);
  }

  /** Every run that prints prints an aligned plan: both sections pair up line by line. */
  lemma {:induction false} RunPrintsAligned(names: seq<string>)
    requires Run(names).Success?
    ensures Run(names) == Success(Output(PlanOf(names).value)) && Aligned(PlanOf(names).value)
  {
    PlanAligned(names);
  }

  /**
   * Every name whose step emits gets its `mv` line and its `update` line, each in
   * scan order among the lines of its section.
   */
  lemma {:induction false} RunPrintsEveryRename(names: seq<string>, i: nat)
    requires Run(names).Success? && i < |names| && StepOf(names[i]).Emit?
    ensures var out, n, k := Run(names).value, EmitCount(StepsOf(names)), EmitCount(StepsOf(names)[..i]);
      |out| == 2 * n + 3 && k < n
      && out[1 + k] == MvLine(StepOf(names[i]).rename)
      && out[n + 3 + k] == SqlLine(StepOf(names[i]).update)
  {
    PlanCount(names);
    PlanComplete(names, i);
    OutputLayout(PlanOf(names).value);
  }

  /** An empty directory prints the two headers with the blank line between them. */
  lemma EmptyRun()
    ensures Run([]) == Success([MvHeader, "", SqlHeader])
  {
    EmptyOutput();
  }

  /** A listing with only a non-matching name prints the two headers and nothing else. */
  lemma {:induction false} UnmatchedOnlyRun(names: seq<string>)
    requires names == ["notes.ts"]
    ensures Run(names) == Success([MvHeader, "", SqlHeader])
  {
    assert ParseName(names[0]).None?;
    NothingToDo(names);
    EmptyOutput();
  }

  /** The printed lines of a plan with a single entry. */
  lemma SingleEntryOutput(r: Rename, u: SqlUpdate)
    ensures Output(Plan([r], [u])) == [MvHeader, MvLine(r), "", SqlHeader, SqlLine(u)]
  {
    assert [r][..0] == [] && [u][..0] == [];
  }

  /** The run over the example listing prints exactly these five lines. */
  lemma {:induction false} ExampleRun(names: seq<string>)
    requires names == ["20230615143000_create_orders.ts"]
    ensures Run(names) == Success([
      "# mv commands:",
      "mv src/migrations/" + "20230615143000_create_orders.ts" + " src/migrations/" + "1686839400000_create_orders.ts",
      "",
      "# SQL updates for inventory_schema_migrations (run these in psql):",
      "update inventory_schema_migrations set name='" + "1686839400000_create_orders"
        + "' where name='" + "20230615143000_create_orders" + "';"])
  {
    var oldName, newName := "20230615143000_create_orders.ts", "1686839400000_create_orders.ts";
    var r := Rename("src/migrations/" + oldName, "src/migrations/" + newName);
    var u := SqlUpdate("20230615143000_create_orders", "1686839400000_create_orders");
    PlanExample(names);
    SingleEntryOutput(r, u);
    MvLineSpelling(oldName, newName);
  }

  /** The `mv` line of a move inside `src/migrations`. */
  lemma MvLineSpelling(oldName: string, newName: string)
    ensures MvLine(Rename("src/migrations/" + oldName, "src/migrations/" + newName))
      == "mv src/migrations/" + oldName + " src/migrations/" + newName
  {
    assert "mv " + "src/migrations/" == "mv src/migrations/";
    assert " " + "src/migrations/" == " src/migrations/";
  }
}
