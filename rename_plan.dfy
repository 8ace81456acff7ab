/**
 * The main loop of the script: for each migration file name, in sorted order,
 * either skip it, stop with the error `strptime` raises, or append one `mv`
 * pair and one SQL pair to the two lists.
 */
module RenamePlan {
  import opened Wrappers
  import opened Decimal
  import opened Stamp
  import opened MigrationName

  /** `MIG_DIR`. */
  const MigrationsDir: string := "src/migrations"

  /** `(MIG_DIR / name).as_posix()`. */
  function MigrationPath(name: string): string
  {
    MigrationsDir + "/" + name
  }

  /** An entry of `renames`: old path, new path. */
  datatype Rename = Rename(oldPath: string, newPath: string)

  /** An entry of `sql_updates`: old base name, new base name. */
  datatype SqlUpdate = SqlUpdate(oldBase: string, newBase: string)

  /** The two lists the loop builds. */
  datatype Plan = Plan(renames: seq<Rename>, sqlUpdates: seq<SqlUpdate>)

  /** The `ValueError` raised for a matching name whose 14 digits are no valid UTC instant. */
  datatype PlanError = InvalidTimestamp(name: string)

  /** What one iteration of the loop does with one name. */
  datatype Step = Skip | Emit(rename: Rename, update: SqlUpdate) | Abort

  /** Both entries of an emitted step describe the same file, and the move is not a no-op. */
  predicate SameFile(r: Rename, u: SqlUpdate)
  {
    r.oldPath == MigrationPath(u.oldBase + Extension)
    && r.newPath == MigrationPath(u.newBase + Extension)
    && r.oldPath != r.newPath
  }

  lemma MigrationPathInjective(a: string, b: string)
    ensures MigrationPath(a) == MigrationPath(b) <==> a == b
  {
    if MigrationPath(a) == MigrationPath(b) {
      var k := |MigrationsDir + "/"|;
      assert a == MigrationPath(a)[k..];
      assert b == MigrationPath(b)[k..];
    }
  }

  function StepOf(name: string): (st: Step)
    ensures ParseName(name).None? ==> st.Skip?
    ensures st.Abort? <==> ParseName(name).Some? && !ValidStamp(ParseName(name).value.stamp)
    ensures st.Emit? ==> SameFile(st.rename, st.update) && st.rename.oldPath == MigrationPath(name)
    ensures st.Emit? ==> ParseName(name).Some? && ValidStamp(ParseName(name).value.stamp)
    ensures st.Emit? ==> var p := ParseName(name).value;
      st.update == SqlUpdate(OldBase(name), NewBase(UnixMs(p.stamp), p.rest))
  {
    match ParseName(name)
    case None => Skip
    case Some(p) =>
      if !ValidStamp(p.stamp) then Abort
      else
        var newBase := NewBase(UnixMs(p.stamp), p.rest);
        var newName := newBase + Extension;
        if newName == name then Skip
        else
          MigrationPathInjective(name, newName);
          Emit(Rename(MigrationPath(name), MigrationPath(newName)), SqlUpdate(OldBase(name), newBase))
  }

  /** One iteration of the loop once its step is known: a failure stays, a skip changes nothing, an emit appends. */
  function Apply(acc: Result<Plan, PlanError>, name: string, st: Step): Result<Plan, PlanError>
  {
    match acc
    case Failure(_) => acc
    case Success(plan) =>
      match st
      case Skip => acc
      case Abort => Failure(InvalidTimestamp(name))
      case Emit(r, u) => Success(Plan(plan.renames + [r], plan.sqlUpdates + [u]))
  }

  /** One iteration of the loop over `name`. */
  function Advance(acc: Result<Plan, PlanError>, name: string): Result<Plan, PlanError>
  {
    Apply(acc, name, StepOf(name))
  }

  /** The loop over a list of names, as a function of that list. */
  function PlanOf(names: seq<string>): Result<Plan, PlanError>
  {
    if names == [] then Success(Plan([], []))
    else Advance(PlanOf(names[..|names| - 1]), names[|names| - 1])
  }

  lemma PlanOfPrefix(names: seq<string>, i: nat)
    requires i < |names|
    ensures PlanOf(names[..i + 1]) == Advance(PlanOf(names[..i]), names[i])
  {
    assert names[..i + 1][..i] == names[..i];
  }

  /** `sorted(...)` of distinct directory entries. */
  predicate StrictlySorted(names: seq<string>)
  {
    forall i, j :: 0 <= i < j < |names| ==> LexLess(names[i], names[j])
  }

  /** The loop of lines 18-38, run over the sorted migration file names. */
  method BuildPlan(names: seq<string>) returns (result: Result<Plan, PlanError>)
    requires StrictlySorted(names)
    ensures result == PlanOf(names)
    ensures result.Success? ==> PlanInOrder(result.value)
  {
    var renames: seq<Rename> := [];
    var sqlUpdates: seq<SqlUpdate> := [];
    for i := 0 to |names|
      invariant PlanOf(names[..i]) == Success(Plan(renames, sqlUpdates))
    {
      var name := names[i];
      PlanOfPrefix(names, i);
      var m := ParseName(name);
      if m.None? {
        continue;
      }
      var stamp, rest := m.value.stamp, m.value.rest;
      if !ValidStamp(stamp) {
        result := Failure(InvalidTimestamp(name));
        PlanOfFailureSticks(names, i + 1);
        return;
      }
      var unixMs := UnixMs(stamp);
      var oldBase := OldBase(name);
      var newBase := NewBase(unixMs, rest);
      var newName := newBase + Extension;
      if newName == name {
        continue;
      }
      renames := renames + [Rename(MigrationPath(name), MigrationPath(newName))];
      sqlUpdates := sqlUpdates + [SqlUpdate(oldBase, newBase)];
    }
    assert names[..|names|] == names;
    result := Success(Plan(renames, sqlUpdates));
    PlanOrdered(names);
  }

  /** Once the loop has failed on a prefix, it fails the same way on the whole list. */
  lemma {:induction false} PlanOfFailureSticks(names: seq<string>, i: nat)
    requires i <= |names| && PlanOf(names[..i]).Failure?
    ensures PlanOf(names) == PlanOf(names[..i])
    decreases |names| - i
  {
    if i < |names| {
      PlanOfPrefix(names, i);
      PlanOfFailureSticks(names, i + 1);
    } else {
      assert names[..i] == names;
    }
  }

  // ---------------------------------------------------------------------------
  // The loop over steps given in advance
  //
  // The facts about the plan are proved once over an arbitrary sequence of steps,
  // so that the per-name computation behind `StepOf` stays out of those proofs.

  /** The loop when the step for each name is given. */
  function Collect(names: seq<string>, steps: seq<Step>): Result<Plan, PlanError>
    requires |steps| == |names|
  {
    if names == [] then Success(Plan([], []))
    else Apply(Collect(names[..|names| - 1], steps[..|steps| - 1]), names[|names| - 1], steps[|steps| - 1])
  }

  /** The steps the loop takes over a listing. */
  function StepsOf(names: seq<string>): (steps: seq<Step>)
    ensures |steps| == |names| && forall i :: 0 <= i < |names| ==> steps[i] == StepOf(names[i])
  {
    seq(|names|, i requires 0 <= i < |names| => StepOf(names[i]))
  }

  lemma {:induction false} PlanOfCollect(names: seq<string>)
    ensures PlanOf(names) == Collect(names, StepsOf(names))
  {
    if names != [] {
      var n := |names|;
      PlanOfCollect(names[..n - 1]);
      assert StepsOf(names)[..n - 1] == StepsOf(names[..n - 1]);
    }
  }

  /** What `StepOf` promises about an emitted step, for a sequence of steps. */
  predicate EmitsOwnFile(names: seq<string>, steps: seq<Step>)
    requires |steps| == |names|
  {
    forall i :: 0 <= i < |names| && steps[i].Emit? ==>
      SameFile(steps[i].rename, steps[i].update) && steps[i].rename.oldPath == MigrationPath(names[i])
  }

  lemma StepsOfEmitOwnFile(names: seq<string>)
    ensures EmitsOwnFile(names, StepsOf(names))
  {
    forall i | 0 <= i < |names| && StepsOf(names)[i].Emit?
      ensures SameFile(StepsOf(names)[i].rename, StepsOf(names)[i].update)
      ensures StepsOf(names)[i].rename.oldPath == MigrationPath(names[i])
    {
      assert StepsOf(names)[i] == StepOf(names[i]);
    }
  }

  // ---------------------------------------------------------------------------
  // What the plan promises

  /** Renames and SQL updates are index-aligned, entry by entry about the same file. */
  predicate Aligned(plan: Plan)
  {
    |plan.renames| == |plan.sqlUpdates|
    && forall k :: 0 <= k < |plan.renames| ==> SameFile(plan.renames[k], plan.sqlUpdates[k])
  }

  /** The old paths of the renames strictly increase. */
  predicate PlanInOrder(plan: Plan)
  {
    forall i, j :: 0 <= i < j < |plan.renames| ==> LexLess(plan.renames[i].oldPath, plan.renames[j].oldPath)
  }

  /** Every entry is the emitted step of one of the names. */
  predicate FromSteps(plan: Plan, steps: seq<Step>)
    requires |plan.renames| == |plan.sqlUpdates|
  {
    forall k :: 0 <= k < |plan.renames| ==>
      exists i :: 0 <= i < |steps| && steps[i] == Emit(plan.renames[k], plan.sqlUpdates[k])
  }

  /** Every entry comes from one input name that the loop emitted. */
  predicate FromInputs(plan: Plan, names: seq<string>)
    requires |plan.renames| == |plan.sqlUpdates|
  {
    forall k :: 0 <= k < |plan.renames| ==>
      exists i :: 0 <= i < |names| && StepOf(names[i]) == Emit(plan.renames[k], plan.sqlUpdates[k])
  }

  lemma {:induction false} CollectAligned(names: seq<string>, steps: seq<Step>)
    requires |steps| == |names| && EmitsOwnFile(names, steps) && Collect(names, steps).Success?
    ensures Aligned(Collect(names, steps).value)
    ensures FromSteps(Collect(names, steps).value, steps)
  {
    if names != [] {
      var n := |names|;
      var init, first := names[..n - 1], steps[..n - 1];
      assert forall i :: 0 <= i < n - 1 ==> first[i] == steps[i] && init[i] == names[i];
      CollectAligned(init, first);
      var plan := Collect(names, steps).value;
      var prev := Collect(init, first).value;
      forall k | 0 <= k < |plan.renames|
        ensures exists i :: 0 <= i < n && steps[i] == Emit(plan.renames[k], plan.sqlUpdates[k])
      {
        if k < |prev.renames| {
          var i :| 0 <= i < n - 1 && first[i] == Emit(prev.renames[k], prev.sqlUpdates[k]);
          assert steps[i] == first[i];
        } else {
          assert steps[n - 1] == Emit(plan.renames[k], plan.sqlUpdates[k]);
        }
      }
    }
  }

  lemma {:induction false} PlanAligned(names: seq<string>)
    requires PlanOf(names).Success?
    ensures Aligned(PlanOf(names).value)
    ensures FromInputs(PlanOf(names).value, names)
  {
    var steps := StepsOf(names);
    PlanOfCollect(names);
    StepsOfEmitOwnFile(names);
    CollectAligned(names, steps);
    var plan := PlanOf(names).value;
    forall k | 0 <= k < |plan.renames|
      ensures exists i :: 0 <= i < |names| && StepOf(names[i]) == Emit(plan.renames[k], plan.sqlUpdates[k])
    {
      var i :| 0 <= i < |steps| && steps[i] == Emit(plan.renames[k], plan.sqlUpdates[k]);
      assert StepOf(names[i]) == steps[i];
    }
  }

  lemma {:induction false} LexLessIrreflexive(a: string)
    ensures !LexLess(a, a)
  {
    if a != [] {
      LexLessIrreflexive(a[1..]);
    }
  }

  lemma MigrationPathOrder(a: string, b: string)
    ensures LexLess(MigrationPath(a), MigrationPath(b)) <==> LexLess(a, b)
  {
    var dir := MigrationsDir + "/";
    assert MigrationPath(a) == dir + a && MigrationPath(b) == dir + b;
    LexLessConcat(dir, a, dir, b);
    LexLessIrreflexive(dir);
  }

  /** Every rename moves a file whose name sorts before any name above the listing. */
  lemma {:induction false} CollectBelow(names: seq<string>, steps: seq<Step>, x: string)
    requires |steps| == |names| && EmitsOwnFile(names, steps) && Collect(names, steps).Success?
    requires forall i :: 0 <= i < |names| ==> LexLess(names[i], x)
    ensures forall k :: 0 <= k < |Collect(names, steps).value.renames| ==>
      LexLess(Collect(names, steps).value.renames[k].oldPath, MigrationPath(x))
  {
    if names != [] {
      var n := |names|;
      var init, first := names[..n - 1], steps[..n - 1];
      assert forall i :: 0 <= i < n - 1 ==> first[i] == steps[i] && init[i] == names[i];
      CollectBelow(init, first, x);
      MigrationPathOrder(names[n - 1], x);
    }
  }

  lemma {:induction false} CollectOrdered(names: seq<string>, steps: seq<Step>)
    requires |steps| == |names| && EmitsOwnFile(names, steps) && Collect(names, steps).Success?
    requires StrictlySorted(names)
    ensures PlanInOrder(Collect(names, steps).value)
  {
    if names != [] {
      var n := |names|;
      var init, first := names[..n - 1], steps[..n - 1];
      assert forall i :: 0 <= i < n - 1 ==> first[i] == steps[i] && init[i] == names[i];
      CollectOrdered(init, first);
      CollectBelow(init, first, names[n - 1]);
    }
  }

  /** Sorted names give renames in the same order: entries keep the scan order. */
  lemma {:induction false} PlanOrdered(names: seq<string>)
    requires StrictlySorted(names) && PlanOf(names).Success?
    ensures PlanInOrder(PlanOf(names).value)
  {
    PlanOfCollect(names);
    StepsOfEmitOwnFile(names);
    CollectOrdered(names, StepsOf(names));
  }

  /** `i` is the first index whose step aborts. */
  predicate FirstAbortStep(steps: seq<Step>, i: int)
  {
    0 <= i < |steps| && steps[i].Abort? && forall j :: 0 <= j < i ==> !steps[j].Abort?
  }

  lemma {:induction false} CollectFailure(names: seq<string>, steps: seq<Step>)
    requires |steps| == |names|
    ensures Collect(names, steps).Failure? <==> exists i :: 0 <= i < |steps| && steps[i].Abort?
    ensures Collect(names, steps).Failure? ==>
      exists i :: FirstAbortStep(steps, i) && Collect(names, steps).error == InvalidTimestamp(names[i])
  {
    if names != [] {
      var n := |names|;
      var init, first := names[..n - 1], steps[..n - 1];
      assert forall i :: 0 <= i < n - 1 ==> first[i] == steps[i] && init[i] == names[i];
      CollectFailure(init, first);
      if Collect(init, first).Failure? {
        var i :| FirstAbortStep(first, i) && Collect(init, first).error == InvalidTimestamp(init[i]);
        assert FirstAbortStep(steps, i);
      } else if steps[n - 1].Abort? {
        assert FirstAbortStep(steps, n - 1);
      } else {
        assert forall j :: 0 <= j < n ==> !steps[j].Abort?;
      }
    }
  }

  /** The index of the first name whose step aborts. */
  predicate FirstAbort(names: seq<string>, i: int)
  {
    0 <= i < |names| && StepOf(names[i]).Abort?
    && forall j :: 0 <= j < i ==> !StepOf(names[j]).Abort?
  }

  /** The run fails exactly when some matching name has an invalid stamp, and it names the first one. */
  lemma {:induction false} PlanFailure(names: seq<string>)
    ensures PlanOf(names).Failure? <==> exists i :: 0 <= i < |names| && StepOf(names[i]).Abort?
    ensures PlanOf(names).Failure? ==>
      exists i :: FirstAbort(names, i) && PlanOf(names).error == InvalidTimestamp(names[i])
  {
    var steps := StepsOf(names);
    PlanOfCollect(names);
    CollectFailure(names, steps);
    if PlanOf(names).Failure? {
      var i :| FirstAbortStep(steps, i) && PlanOf(names).error == InvalidTimestamp(names[i]);
      assert FirstAbort(names, i);
    }
  }

  lemma {:induction false} CollectSkips(names: seq<string>, steps: seq<Step>)
    requires |steps| == |names| && forall i :: 0 <= i < |steps| ==> steps[i].Skip?
    ensures Collect(names, steps) == Success(Plan([], []))
  {
    if names != [] {
      CollectSkips(names[..|names| - 1], steps[..|steps| - 1]);
    }
  }

  /** When the loop skips every name, the plan is empty. */
  lemma {:induction false} NothingToDo(names: seq<string>)
    requires forall i :: 0 <= i < |names| ==> StepOf(names[i]).Skip?
    ensures PlanOf(names) == Success(Plan([], []))
  {
    PlanOfCollect(names);
    CollectSkips(names, StepsOf(names));
  }

  /** How many of the steps emit an entry. */
  function EmitCount(steps: seq<Step>): (n: nat)
    ensures n <= |steps|
  {
    if steps == [] then 0
    else EmitCount(steps[..|steps| - 1]) + (if steps[|steps| - 1].Emit? then 1 else 0)
  }

  /** A loop that has not failed on the whole list has not failed on any prefix of it. */
  lemma CollectPrefixSucceeds(names: seq<string>, steps: seq<Step>)
    requires |steps| == |names| && names != [] && Collect(names, steps).Success?
    ensures Collect(names[..|names| - 1], steps[..|steps| - 1]).Success?
  {
  }

  /** The plan holds one entry per emitted step. */
  lemma {:induction false} CollectCount(names: seq<string>, steps: seq<Step>)
    requires |steps| == |names| && Collect(names, steps).Success?
    ensures |Collect(names, steps).value.renames| == EmitCount(steps)
    ensures |Collect(names, steps).value.sqlUpdates| == EmitCount(steps)
  {
    if names != [] {
      CollectPrefixSucceeds(names, steps);
      CollectCount(names[..|names| - 1], steps[..|steps| - 1]);
    }
  }

  /**
   * Every emitted step has its entry in the plan, at the position given by the
   * number of emitted steps before it.
   */
  lemma {:induction false} CollectComplete(names: seq<string>, steps: seq<Step>, i: nat)
    requires |steps| == |names| && Collect(names, steps).Success?
    requires i < |steps| && steps[i].Emit?
    ensures var plan, k := Collect(names, steps).value, EmitCount(steps[..i]);
      k < |plan.renames| && k < |plan.sqlUpdates|
      && plan.renames[k] == steps[i].rename && plan.sqlUpdates[k] == steps[i].update
  {
    var n := |names|;
    var init, first := names[..n - 1], steps[..n - 1];
    CollectPrefixSucceeds(names, steps);
    CollectCount(init, first);
    if i < n - 1 {
      CollectComplete(init, first, i);
      assert first[i] == steps[i];
      assert first[..i] == steps[..i];
    } else {
      assert first == steps[..i];
    }
  }

  /** The plan holds exactly one entry per name whose step emits. */
  lemma {:induction false} PlanCount(names: seq<string>)
    requires PlanOf(names).Success?
    ensures |PlanOf(names).value.renames| == EmitCount(StepsOf(names))
    ensures |PlanOf(names).value.sqlUpdates| == EmitCount(StepsOf(names))
  {
    PlanOfCollect(names);
    CollectCount(names, StepsOf(names));
  }

  /**
   * Every name whose step emits lands in both lists, in scan order: its entry is
   * preceded by exactly the entries of the emitting names before it.
   */
  lemma {:induction false} PlanComplete(names: seq<string>, i: nat)
    requires PlanOf(names).Success? && i < |names| && StepOf(names[i]).Emit?
    ensures var plan, k := PlanOf(names).value, EmitCount(StepsOf(names)[..i]);
      k < |plan.renames| && k < |plan.sqlUpdates|
      && plan.renames[k] == StepOf(names[i]).rename && plan.sqlUpdates[k] == StepOf(names[i]).update
  {
    PlanOfCollect(names);
    assert StepsOf(names)[i] == StepOf(names[i]);
    CollectComplete(names, StepsOf(names), i);
  }

  /** A name that does not match the pattern is never renamed: no entry moves that file. */
  lemma {:induction false} UnmatchedNotRenamed(names: seq<string>, i: nat)
    requires PlanOf(names).Success? && i < |names| && ParseName(names[i]).None?
    ensures forall k :: 0 <= k < |PlanOf(names).value.renames| ==>
      PlanOf(names).value.renames[k].oldPath != MigrationPath(names[i])
  {
    var plan := PlanOf(names).value;
    PlanAligned(names);
    forall k | 0 <= k < |plan.renames|
      ensures plan.renames[k].oldPath != MigrationPath(names[i])
    {
      var j :| 0 <= j < |names| && StepOf(names[j]) == Emit(plan.renames[k], plan.sqlUpdates[k]);
      MigrationPathInjective(names[i], names[j]);
      assert StepOf(names[i]).Skip?;
    }
  }

  /** The loop over a one-name listing takes that name's step from the empty plan. */
  lemma SinglePlan(names: seq<string>)
    requires |names| == 1
    ensures PlanOf(names) == Apply(Success(Plan([], [])), names[0], StepOf(names[0]))
  {
    assert names[..0] == [];
  }

  /** The name a file gets from its own step: the new name when the step emits, the name itself otherwise. */
  function RenamedName(name: string): string
  {
    match StepOf(name)
    case Emit(_, u) => u.newBase + Extension
    case _ => name
  }

  /** A file whose stamp is before 2286-11-20T17:46:40Z is skipped by a second run. */
  lemma SecondRunSkips(name: string)
    requires !StepOf(name).Abort?
    requires ParseName(name).Some? ==> LexLess(ParseName(name).value.stamp, CutoffStamp)
    ensures StepOf(RenamedName(name)).Skip?
  {
    if StepOf(name).Emit? {
      var p := ParseName(name).value;
      ParseNameSpelling(name, p.stamp, p.rest);
      BeforeCutoff(p.stamp);
      NewNameMatches(UnixMs(p.stamp), p.rest);
      assert RenamedName(name) == NewName(UnixMs(p.stamp), p.rest);
    }
  }

  /** A second run over files that each carry the name their own step gave them finds nothing to do. */
  lemma SecondRunOverRenamed(names: seq<string>, later: seq<string>)
    requires PlanOf(names).Success?
    requires forall i :: 0 <= i < |names| && ParseName(names[i]).Some? ==>
      LexLess(ParseName(names[i]).value.stamp, CutoffStamp)
    requires forall k :: 0 <= k < |later| ==> exists i :: 0 <= i < |names| && later[k] == RenamedName(names[i])
    ensures PlanOf(later) == Success(Plan([], []))
  {
    PlanFailure(names);
    forall k | 0 <= k < |later|
      ensures StepOf(later[k]).Skip?
    {
      var i :| 0 <= i < |names| && later[k] == RenamedName(names[i]);
      SecondRunSkips(names[i]);
    }
    NothingToDo(later);
  }

  /**
   * `later` lists the directory once the printed `mv` commands have run: each of its
   * names is the target of some rename of the plan, or one of the old names that no
   * rename moves.
   */
  predicate AfterMoves(plan: Plan, names: seq<string>, later: seq<string>)
  {
    forall k :: 0 <= k < |later| ==>
      (exists j :: 0 <= j < |plan.renames| && plan.renames[j].newPath == MigrationPath(later[k]))
      || (exists i :: 0 <= i < |names| && later[k] == names[i]
            && forall j :: 0 <= j < |plan.renames| ==> plan.renames[j].oldPath != MigrationPath(names[i]))
  }

  /** After the printed moves every file carries the name its own step gave it. */
  lemma {:induction false} MovedNames(names: seq<string>, later: seq<string>)
    requires PlanOf(names).Success? && AfterMoves(PlanOf(names).value, names, later)
    ensures forall k :: 0 <= k < |later| ==> exists i :: 0 <= i < |names| && later[k] == RenamedName(names[i])
  {
    var plan := PlanOf(names).value;
    PlanAligned(names);
    PlanFailure(names);
    forall k | 0 <= k < |later|
      ensures exists i :: 0 <= i < |names| && later[k] == RenamedName(names[i])
    {
      if j :| 0 <= j < |plan.renames| && plan.renames[j].newPath == MigrationPath(later[k]) {
        var i :| 0 <= i < |names| && StepOf(names[i]) == Emit(plan.renames[j], plan.sqlUpdates[j]);
        assert RenamedName(names[i]) == plan.sqlUpdates[j].newBase + Extension;
        MigrationPathInjective(later[k], RenamedName(names[i]));
      } else {
        var i :| 0 <= i < |names| && later[k] == names[i]
          && forall j :: 0 <= j < |plan.renames| ==> plan.renames[j].oldPath != MigrationPath(names[i]);
        if StepOf(names[i]).Emit? {
          PlanComplete(names, i);
          assert false;
        }
        assert RenamedName(names[i]) == names[i];
      }
    }
  }

  /**
   * Running the script again over the directory as the printed `mv` commands left it
   * finds nothing to do, as long as every stamp is before 2286-11-20T17:46:40Z
   * (`later` is any listing of it).
   */
  lemma {:induction false} SecondRunFindsNothing(names: seq<string>, later: seq<string>)
    requires PlanOf(names).Success?
    requires forall i :: 0 <= i < |names| && ParseName(names[i]).Some? ==>
      LexLess(ParseName(names[i]).value.stamp, CutoffStamp)
    requires AfterMoves(PlanOf(names).value, names, later)
    ensures PlanOf(later) == Success(Plan([], []))
  {
    MovedNames(names, later);
    SecondRunOverRenamed(names, later);
  }

  /** The step of a matching name with a valid stamp, spelled out from its groups. */
  lemma StepOfMatch(name: string, stamp: string, rest: string, newBase: string)
    requires ParseName(name) == Some(NameParts(stamp, rest)) && ValidStamp(stamp)
    requires newBase == NewBase(UnixMs(stamp), rest) && newBase + Extension != name
    ensures StepOf(name) == Emit(Rename(MigrationPath(name), MigrationPath(newBase + Extension)),
                                 SqlUpdate(OldBase(name), newBase))
  {
  }

  lemma NewBaseExample()
    ensures NewBase(1686839400000, "create_orders") == "1686839400000_create_orders"
  {
    MillisecondsSpelling();
  }

  /** `(MIG_DIR / name).as_posix()` is the name behind `src/migrations/`. */
  lemma MigrationPathSpelling(name: string)
    ensures MigrationPath(name) == "src/migrations/" + name
  {
    assert MigrationsDir + "/" == "src/migrations/";
  }

  lemma ExampleParts(name: string)
    requires name == "20230615143000_create_orders.ts"
    ensures ParseName(name) == Some(NameParts("20230615143000", "create_orders"))
    ensures OldBase(name) == "20230615143000_create_orders"
  {
    var stamp, rest := "20230615143000", "create_orders";
    assert name == stamp + "_" + rest + Extension;
    assert IsStamp(stamp) && NoLineFeed(rest);
    ParseNameSpelling(name, stamp, rest);
  }

  /** The first migration of the example listing is renamed to its Unix-milliseconds name. */
  lemma StepExample(name: string)
    requires name == "20230615143000_create_orders.ts"
    ensures StepOf(name) == Emit(
      Rename("src/migrations/" + "20230615143000_create_orders.ts", "src/migrations/" + "1686839400000_create_orders.ts"),
      SqlUpdate("20230615143000_create_orders", "1686839400000_create_orders"))
  {
    var newBase := "1686839400000_create_orders";
    ExampleParts(name);
    UnixMsExample();
    NewBaseExample();
    StepOfMatch(name, "20230615143000", "create_orders", newBase);
    MigrationPathSpelling(name);
    MigrationPathSpelling(newBase + Extension);
    assert newBase + Extension == "1686839400000_create_orders.ts";
  }

  /** The loop over the example listing: one rename and one SQL pair. */
  lemma {:induction false} PlanExample(names: seq<string>)
    requires names == ["20230615143000_create_orders.ts"]
    ensures PlanOf(names) == Success(Plan(
      [Rename("src/migrations/" + "20230615143000_create_orders.ts", "src/migrations/" + "1686839400000_create_orders.ts")],
      [SqlUpdate("20230615143000_create_orders", "1686839400000_create_orders")]))
  {
    var r := Rename("src/migrations/" + "20230615143000_create_orders.ts", "src/migrations/" + "1686839400000_create_orders.ts");
    var u := SqlUpdate("20230615143000_create_orders", "1686839400000_create_orders");
    StepExample(names[0]);
    SinglePlan(names);
    assert Apply(Success(Plan([], [])), names[0], Emit(r, u)) == Success(Plan([] + [r], [] + [u]));
    assert [] + [r] == [r] && [] + [u] == [u];
  }

  /** `str(n)` of the example's milliseconds, digit by digit. */
  lemma MillisecondsSpelling()
    ensures IntToDecimal(1686839400000) == "1686839400000"
  {
    assert NatToDecimal(1) == "1";
    assert NatToDecimal(16) == "16";
    assert NatToDecimal(168) == "168";
    assert NatToDecimal(1686) == "1686";
    assert NatToDecimal(16868) == "16868";
    assert NatToDecimal(168683) == "168683";
    assert NatToDecimal(1686839) == "1686839";
    assert NatToDecimal(16868394) == "16868394";
    assert NatToDecimal(168683940) == "168683940";
    assert NatToDecimal(1686839400) == "1686839400";
    assert NatToDecimal(16868394000) == "16868394000";
    assert NatToDecimal(168683940000) == "168683940000";
    assert NatToDecimal(1686839400000) == "1686839400000";
  }

  /**
   * Renaming is not idempotent past 2286-11-20: a file stamped 2300-01-01 is renamed
   * to 14 digits that match the pattern again but read as month 37, so a second run
   * over the renamed directory stops with an error.
   */
  lemma SecondRunAbortsExample(name: string)
    requires name == "23000101000000_far_future.ts"
    ensures StepOf(name).Emit? && RenamedName(name) == "10413792000000_far_future.ts"
    ensures StepOf(RenamedName(name)).Abort?
  {
    var stamp, rest := "23000101000000", "far_future";
    FarFutureParts(name);
    FarFutureExample();
    FarFutureBase();
    StepOfMatch(name, stamp, rest, "10413792000000_far_future");
    FarFutureAborts("10413792000000_far_future.ts");
  }

  lemma FarFutureParts(name: string)
    requires name == "23000101000000_far_future.ts"
    ensures ParseName(name) == Some(NameParts("23000101000000", "far_future"))
  {
    var stamp, rest := "23000101000000", "far_future";
    assert name == stamp + "_" + rest + Extension;
    assert IsStamp(stamp) && NoLineFeed(rest);
    ParseNameSpelling(name, stamp, rest);
  }

  lemma FarFutureBase()
    ensures NewBase(10413792000000, "far_future") == "10413792000000_far_future"
  {
    FarFutureSpelling();
  }

  lemma FarFutureSpelling()
    ensures IntToDecimal(10413792000000) == "10413792000000"
  {
    assert NatToDecimal(1) == "1";
    assert NatToDecimal(10) == "10";
    assert NatToDecimal(104) == "104";
    assert NatToDecimal(1041) == "1041";
    assert NatToDecimal(10413) == "10413";
    assert NatToDecimal(104137) == "104137";
    assert NatToDecimal(1041379) == "1041379";
    assert NatToDecimal(10413792) == "10413792";
    assert NatToDecimal(104137920) == "104137920";
    assert NatToDecimal(1041379200) == "1041379200";
    assert NatToDecimal(10413792000) == "10413792000";
    assert NatToDecimal(104137920000) == "104137920000";
    assert NatToDecimal(1041379200000) == "1041379200000";
    assert NatToDecimal(10413792000000) == "10413792000000";
  }

  lemma FarFutureAborts(name: string)
    requires name == "10413792000000_far_future.ts"
    ensures StepOf(name).Abort?
  {
    var stamp, rest := "10413792000000", "far_future";
    assert name == stamp + "_" + rest + Extension;
    assert IsStamp(stamp) && NoLineFeed(rest);
    ParseNameSpelling(name, stamp, rest);
    FarFutureMsIsNoStamp();
  }
}
