/** `ConnectionProof.write` (envelope.py) as one caller runs it, while any number of other callers act on the
    same directory between its system calls, each of which may fail. */
module PublishRun {
  import opened Bytes
  import opened Publish

  /** What the system calls of one call meet: `count` failures so far. */
  class Faults {
    ghost var count: nat

    constructor ()
      ensures count == 0
    {
      count := 0;
    }

    /** Whether the next system call fails. */
    method Strike() returns (failed: bool)
      modifies this
      ensures count == old(count) + if failed then 1 else 0
    {
      failed := *;
      count := count + if failed then 1 else 0;
    }

    /** The next system call fails, for instance because no name was free. */
    method MustStrike()
      modifies this
      ensures count == old(count) + 1
    {
      count := count + 1;
    }
  }

  /** The directory all callers share. `writers` and `steps` record where each call stands and the run so far. */
  class Directory {
    const plans: seq<Plan>
    ghost const initial: State
    var entries: map<Name, Inode>
    var files: map<Inode, bytes>
    var writers: seq<Writer>
    ghost var steps: seq<Step>

    function Current(): State
      reads this
    {
      State(entries, files, writers)
    }

    ghost predicate Valid()
      reads this
    {
      && ValidPlans(plans, initial) && Begins(plans, initial) && |writers| == |plans|
      && Run(plans, initial, steps) == Some(Current())
    }

    constructor (plans: seq<Plan>, entries: map<Name, Inode>, files: map<Inode, bytes>)
      requires ValidPlans(plans, State(entries, files, [])) && forall n :: n in entries ==> entries[n] in files
      ensures Valid() && this.plans == plans && Current() == initial && steps == []
      ensures this.entries == entries && this.files == files
    {
      this.plans, this.entries, this.files := plans, entries, files;
      writers, steps := seq(|plans|, _ => Ready), [];
      initial := State(entries, files, seq(|plans|, _ => Ready));
    }

    /** One enabled step happens. */
    method Take(s: Step)
      requires Valid() && Enabled(plans, Current(), s)
      modifies this
      ensures Valid() && steps == old(steps) + [s] && Current() == Apply(plans, old(Current()), s)
    {
      hide ValidPlans, Begins, Enabled, Apply;
      var next := Apply(plans, Current(), s);
      entries, files, writers := next.entries, next.files, next.writers;
      steps := steps + [s];
      assert steps[..|steps| - 1] == old(steps);
    }

    /** Other callers take any steps they can; they cannot touch this call's file or move it. */
    method Interfere(i: nat)
      requires Valid() && i < |plans|
      modifies this
      ensures Valid() && old(steps) <= steps && writers[i] == old(writers[i])
      ensures FileOf(writers[i]).Some? ==>
                && FileOf(writers[i]).value in files && FileOf(writers[i]).value in old(files)
                && files[FileOf(writers[i]).value] == old(files)[FileOf(writers[i]).value]
    {
      hide ValidPlans, Begins, Enabled, Apply, Run, IsStaging;
      var turns: nat := *;
      FileExists(plans, initial, steps, i);
      while turns > 0
        invariant Valid() && old(steps) <= steps && writers[i] == old(writers[i])
        invariant FileOf(writers[i]).Some? ==>
                    && FileOf(writers[i]).value in files && FileOf(writers[i]).value in old(files)
                    && files[FileOf(writers[i]).value] == old(files)[FileOf(writers[i]).value]
      {
        var s: Step := *;
        if s.writer != i && Enabled(plans, Current(), s) {
          OthersKeepFile(plans, initial, steps, s, i);
          Take(s);
        }
        turns := turns - 1;
      }
    }

    /** The `with` block: write the content in pieces of any size, flush, sync and close. */
    method Stage(i: nat, inode: Inode, faults: Faults) returns (ok: bool)
      requires Valid() && i < |plans| && writers[i].Writing? && writers[i].inode == inode
      modifies this, faults
      ensures Valid() && old(steps) <= steps
      ensures ok <==> faults.count == old(faults.count)
      ensures faults.count >= old(faults.count)
      ensures ok ==> writers[i] == Staged(old(writers[i]).name, inode)
      ensures !ok ==> writers[i] == Cleaning(old(writers[i]).name, inode, Failed)
    {
      hide ValidPlans, Begins, Run, IsStaging;
      FileExists(plans, initial, steps, i);
      var content := plans[i].content;
      while |files[inode]| < |content|
        invariant Valid() && old(steps) <= steps && writers[i] == old(writers[i])
        invariant inode in files && files[inode] <= content && faults.count == old(faults.count)
        decreases |content| - |files[inode]|
      {
        Interfere(i);
        var failed := faults.Strike();
        if failed {
          Take(Step(i, Fail));
          return false;
        }
        var count: int := *;
        if count < 1 || count > |content| - |files[inode]| {
          count := |content| - |files[inode]|;
        }
        Take(Step(i, Append(count)));
      }
      Interfere(i);
      var failed := faults.Strike();
      if failed {
        Take(Step(i, Fail));
        return false;
      }
      Take(Step(i, Close));
      return true;
    }

    /** An exclusively created staging file, or nothing. */
    method CreateTemporary(i: nat, faults: Faults) returns (temporary: Option<Name>)
      requires Valid() && i < |plans| && writers[i] == Ready
      modifies this, faults
      ensures temporary.Some? <==> faults.count == old(faults.count)
      ensures faults.count >= old(faults.count)
      ensures Valid() && old(steps) <= steps
      ensures match temporary
              case None => writers[i] == Finished(None, Failed, None)
              case Some(name) => writers[i].Writing? && writers[i].name == name
    {
      hide ValidPlans, Begins, Run;
      Interfere(i);
      var name: Name, inode: Inode := *, *;
      var failed := faults.Strike();
      if !failed && (!IsStaging(name) || name in entries || inode in files) {
        faults.MustStrike();
        failed := true;
      }
      if failed {
        Take(Step(i, Fail));
        return None;
      }
      Take(Step(i, Create(name, inode)));
      return Some(name);
    }

    /** `os.replace` or `os.link`; `owned` says whether the staging name still belongs to this call. */
    method PublishStaged(i: nat, faults: Faults) returns (outcome: Outcome, owned: bool)
      requires Valid() && i < |plans| && writers[i].Staged?
      modifies this, faults
      ensures outcome == Failed <==> faults.count != old(faults.count)
      ensures faults.count >= old(faults.count)
      ensures Valid() && old(steps) <= steps
      ensures writers[i] == if owned then Cleaning(old(writers[i]).name, old(writers[i]).inode, outcome)
                            else Finished(Some(old(writers[i]).inode), outcome, None)
      ensures outcome == Refused ==> !plans[i].overwrite
    {
      hide ValidPlans, Begins, Run, IsStaging;
      Interfere(i);
      var failed := faults.Strike();
      if failed {
        Take(Step(i, Fail));
        return Failed, true;
      }
      OwnedNameExists(plans, initial, steps, i);
      if plans[i].overwrite {
        Take(Step(i, Replace));
        return Published, false;
      }
      outcome := if plans[i].destination in entries then Refused else Published;
      Take(Step(i, Link));
      return outcome, true;
    }

    /** The `finally` block: unlink the staging name; a failure to is suppressed. */
    method CleanUp(i: nat, faults: Faults)
      requires Valid() && i < |plans| && writers[i].Cleaning?
      modifies this, faults
      ensures Valid() && old(steps) <= steps
      ensures faults.count >= old(faults.count)
      ensures writers[i].Finished? && writers[i].outcome == old(writers[i]).outcome
      ensures writers[i].leaked == if faults.count == old(faults.count) then None else Some(old(writers[i]).name)
    {
      hide ValidPlans, Begins, Run, IsStaging;
      Interfere(i);
      var failed := faults.Strike();
      if failed {
        Take(Step(i, Fail));
      } else {
        Take(Step(i, Unlink));
      }
    }

    /** `write`. However the others act and whichever call fails, it ends finished with the outcome it reports;
        what that means for the directory is what `Publish` proves of every run. */
    method Write(i: nat, faults: Faults) returns (outcome: Outcome)
      requires Valid() && i < |plans| && writers[i] == Ready
      modifies this, faults
      ensures faults.count >= old(faults.count)
      ensures Valid() && old(steps) <= steps
      ensures writers[i].Finished? && writers[i].outcome == outcome
      ensures faults.count == old(faults.count) ==> outcome != Failed && writers[i].leaked == None
      ensures outcome == Published || outcome == Refused ==> plans[i].destination in entries
      ensures outcome == Refused ==> !plans[i].overwrite
      ensures outcome == Published && !plans[i].overwrite ==> plans[i].destination !in initial.entries
      ensures outcome == Failed || writers[i].leaked.Some? ==> Step(i, Fail) in steps
    {
      hide ValidPlans, Begins, Run, IsStaging;
      var temporary := CreateTemporary(i, faults);
      if temporary.None? {
        OutcomeMeans(plans, initial, steps, i);
        return Failed;
      }
      outcome := Failed;
      var owned := true;
      var staged := Stage(i, writers[i].inode, faults);
      if staged {
        outcome, owned := PublishStaged(i, faults);
      }
      if owned {
        CleanUp(i, faults);
      }
      OutcomeMeans(plans, initial, steps, i);
    }
  }

  lemma FileExists(plans: seq<Plan>, initial: State, steps: seq<Step>, i: nat)
    requires ValidPlans(plans, initial) && Begins(plans, initial) && Run(plans, initial, steps).Some? && i < |plans|
    ensures var st := Run(plans, initial, steps).value;
            FileOf(st.writers[i]).Some? ==>
              FileOf(st.writers[i]).value in st.files && st.files[FileOf(st.writers[i]).value] <= plans[i].content
  {
    hide IsStaging, Run;
    EveryRunIsGood(plans, initial, steps);
    assert FileOk(plans, initial, Run(plans, initial, steps).value, i);
  }

  lemma OwnedNameExists(plans: seq<Plan>, initial: State, steps: seq<Step>, i: nat)
    requires ValidPlans(plans, initial) && Begins(plans, initial) && Run(plans, initial, steps).Some? && i < |plans|
    ensures var st := Run(plans, initial, steps).value;
            Owns(st.writers[i]) ==> st.writers[i].name in st.entries
  {
    hide IsStaging, Run;
    EveryRunIsGood(plans, initial, steps);
    assert NameOk(initial, Run(plans, initial, steps).value, i);
  }

  lemma OthersKeepFile(plans: seq<Plan>, initial: State, steps: seq<Step>, s: Step, i: nat)
    requires ValidPlans(plans, initial) && Begins(plans, initial) && Run(plans, initial, steps).Some? && i < |plans|
    requires s.writer != i && Enabled(plans, Run(plans, initial, steps).value, s)
    ensures var st := Run(plans, initial, steps).value;
            var next := Apply(plans, st, s);
            && next.writers[i] == st.writers[i]
            && (FileOf(st.writers[i]).Some? && FileOf(st.writers[i]).value in st.files ==>
                  && FileOf(st.writers[i]).value in next.files
                  && next.files[FileOf(st.writers[i]).value] == st.files[FileOf(st.writers[i]).value])
  {
    hide IsStaging, Run;
    EveryRunIsGood(plans, initial, steps);
    var st := Run(plans, initial, steps).value;
    FileStep(plans, initial, st, s, i);
    FileOfMoved(plans, st, s);
    if FileOf(st.writers[i]).Some? {
      assert FileOf(st.writers[i]) != FileOf(st.writers[s.writer]);
    }
  }

  lemma OutcomeMeans(plans: seq<Plan>, initial: State, steps: seq<Step>, i: nat)
    requires ValidPlans(plans, initial) && Begins(plans, initial) && Run(plans, initial, steps).Some? && i < |plans|
    ensures var st := Run(plans, initial, steps).value;
            && (HasPublished(st.writers[i]) || WasRefused(st.writers[i]) ==> plans[i].destination in st.entries)
            && (HasPublished(st.writers[i]) && !plans[i].overwrite ==> plans[i].destination !in initial.entries)
            && (st.writers[i].Finished? && (st.writers[i].outcome == Failed || st.writers[i].leaked.Some?) ==>
                  Step(i, Fail) in steps)
  {
    hide IsStaging, Run;
    FailuresAreSteps(plans, initial, steps, i);
    EveryRunIsGood(plans, initial, steps);
  }
}
