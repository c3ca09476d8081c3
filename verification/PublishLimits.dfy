/** When publication is safe: destinations that a staging file could get are the only danger, and they always are. */
module PublishLimits {
  import opened Bytes
  import opened Publish

  // ---------- building runs ----------

  lemma RunOn(plans: seq<Plan>, initial: State, steps: seq<Step>, st: State, s: Step)
    requires |initial.writers| == |plans| && Run(plans, initial, steps) == Some(st) && Enabled(plans, st, s)
    ensures Run(plans, initial, steps + [s]) == Some(Apply(plans, st, s))
  {
    hide Enabled, Apply;
    assert (steps + [s])[..|steps|] == steps;
  }

  lemma RunNothing(plans: seq<Plan>, initial: State)
    requires |initial.writers| == |plans|
    ensures Run(plans, initial, []) == Some(initial)
  {
  }

  lemma FreshInode(used: set<Inode>) returns (inode: Inode)
    ensures inode !in used && forall n :: n in used ==> n < inode
  {
    if used == {} {
      inode := 0;
    } else {
      var n :| n in used;
      inode := FreshInode(used - {n});
      inode := if inode > n then inode else n + 1;
      assert forall k :: k in used ==> k == n || k in used - {n};
    }
  }

  predicate StepsOf(steps: seq<Step>, i: nat) {
    forall k :: 0 <= k < |steps| ==> steps[k].writer == i && steps[k].action != Fail
  }

  /** A call stages its whole content under a free staging name. */
  lemma Stages(plans: seq<Plan>, initial: State, steps: seq<Step>, st: State, i: nat, name: Name)
    returns (more: seq<Step>, inode: Inode)
    requires |initial.writers| == |plans| && Run(plans, initial, steps) == Some(st)
    requires i < |plans| && st.writers[i] == Ready && IsStaging(name) && name !in st.entries
    ensures inode !in st.files && StepsOf(more, i)
    ensures Run(plans, initial, steps + more)
            == Some(State(st.entries[name := inode], st.files[inode := plans[i].content],
                          st.writers[i := Staged(name, inode)]))
  {
    hide IsStaging, Run;
    inode := FreshInode(st.files.Keys);
    var content := plans[i].content;
    var create, append, close := Step(i, Create(name, inode)), Step(i, Append(|content|)), Step(i, Close);
    more := [create, append, close];
    var st1 := Apply(plans, st, create);
    RunOn(plans, initial, steps, st, create);
    var st2 := Apply(plans, st1, append);
    RunOn(plans, initial, steps + [create], st1, append);
    assert content[..|content|] == content && st2.files == st.files[inode := content];
    assert st2.writers[i := Staged(name, inode)] == st.writers[i := Staged(name, inode)];
    RunOn(plans, initial, steps + [create] + [append], st2, close);
    assert steps + more == steps + [create] + [append] + [close];
  }

  // ---------- incomplete files ----------

  /** The name is absent, as it was at first, or leads to the complete content of a call that published there;
      and it never disappears. */
  ghost predicate Settled(plans: seq<Plan>, initial: State, st: State, name: Name)
    requires |plans| == |st.writers|
  {
    && (name in initial.entries ==> name in st.entries)
    && (name in st.entries ==>
          && st.entries[name] in st.files
          && (|| (name in initial.entries && initial.entries[name] in initial.files
                  && st.entries[name] == initial.entries[name]
                  && st.files[st.entries[name]] == initial.files[initial.entries[name]])
              || exists i: nat :: PublishedAs(plans, st, i, name) && st.files[st.entries[name]] == plans[i].content))
  }

  /** Under a name that any call may happen to choose for its staging file, an unpublished and still empty file
      can be seen. */
  lemma StagingNamesAreExposed(plans: seq<Plan>, initial: State, name: Name, i: nat) returns (steps: seq<Step>)
    requires Begins(plans, initial) && i < |plans| && !IsSafe(initial, name)
    ensures Run(plans, initial, steps).Some?
    ensures var st := Run(plans, initial, steps).value;
            && name in st.entries && st.entries[name] in st.files && st.files[st.entries[name]] == []
            && forall j: nat :: !PublishedAs(plans, st, j, name)
  {
    hide IsStaging;
    var inode := FreshInode(initial.files.Keys);
    var create := Step(i, Create(name, inode));
    steps := [] + [create];
    RunNothing(plans, initial);
    RunOn(plans, initial, [], initial, create);
    hide Run;
  }

  /** Every destination of every call is settled at every moment of every run exactly when every destination
      shaped like a staging name was there at the start. */
  lemma DestinationsSettledExactly(plans: seq<Plan>, initial: State)
    requires Begins(plans, initial)
    ensures ValidPlans(plans, initial) <==>
            forall steps, i: nat :: i < |plans| && Run(plans, initial, steps).Some? ==>
              Settled(plans, initial, Run(plans, initial, steps).value, plans[i].destination)
  {
    hide IsStaging, IsSafe, Run;
    if ValidPlans(plans, initial) {
      forall steps, i: nat | i < |plans| && Run(plans, initial, steps).Some?
        ensures Settled(plans, initial, Run(plans, initial, steps).value, plans[i].destination)
      {
        SafeIsSettled(plans, initial, steps, plans[i].destination);
      }
    } else {
      var i :| 0 <= i < |plans| && !IsSafe(initial, plans[i].destination);
      var steps := StagingNamesAreExposed(plans, initial, plans[i].destination, i);
      UnsafeIsFree(initial, plans[i].destination);
      assert !Settled(plans, initial, Run(plans, initial, steps).value, plans[i].destination);
    }
  }

  lemma UnsafeIsFree(initial: State, name: Name)
    requires !IsSafe(initial, name)
    ensures IsStaging(name) && name !in initial.entries
  {
  }

  lemma SafeIsSettled(plans: seq<Plan>, initial: State, steps: seq<Step>, name: Name)
    requires ValidPlans(plans, initial) && Begins(plans, initial) && Run(plans, initial, steps).Some?
    requires IsSafe(initial, name)
    ensures Settled(plans, initial, Run(plans, initial, steps).value, name)
  {
    hide IsSafe, Run, FilesKept, DestinationsKept, FirstWins;
    var st := Run(plans, initial, steps).value;
    EveryRunIsGood(plans, initial, steps);
    if name in st.entries {
      DestinationAlwaysComplete(plans, initial, steps, st, name);
    }
  }

  // ---------- other calls' destinations ----------

  /** One overwriting call for a free staging name endangers all others: a call for any other destination can
      publish that call's content as its own. */
  lemma WrongContentPublished(plans: seq<Plan>, initial: State, i: nat, j: nat, other: Name) returns (steps: seq<Step>)
    requires Begins(plans, initial) && i < |plans| && j < |plans| && i != j
    requires plans[j].overwrite && !IsSafe(initial, plans[j].destination)
    requires !IsSafe(initial, other) && other != plans[j].destination
    requires plans[i].destination != plans[j].destination && plans[i].destination != other
    requires plans[i].overwrite || plans[i].destination !in initial.entries
    ensures forall k :: 0 <= k < |steps| ==> steps[k].action != Fail
    ensures Run(plans, initial, steps).Some?
    ensures var st, d := Run(plans, initial, steps).value, plans[i].destination;
            && PublishedAs(plans, st, i, d) && d in st.entries && st.entries[d] in st.files
            && st.files[st.entries[d]] == plans[j].content
  {
    hide IsStaging, Run;
    var x, d := plans[j].destination, plans[i].destination;
    RunNothing(plans, initial);
    var first, a := Stages(plans, initial, [], initial, i, x);
    assert [] + first == first;
    var st1 := Run(plans, initial, first).value;
    var second, b := Stages(plans, initial, first, st1, j, other);
    var st2 := Run(plans, initial, first + second).value;
    var replace := Step(j, Replace);
    var st3 := Apply(plans, st2, replace);
    RunOn(plans, initial, first + second, st2, replace);
    var publish := Step(i, if plans[i].overwrite then Replace else Link);
    steps := first + second + [replace] + [publish];
    RunOn(plans, initial, first + second + [replace], st3, publish);
  }

  // ---------- a call that is in its own way ----------

  /** A call whose destination is a free staging name can choose it for its staging file. It then refuses to
      overwrite its own file and removes it: no step fails and nothing is published. */
  lemma RefusesItself(plans: seq<Plan>, initial: State, steps: seq<Step>, st: State, i: nat)
    returns (more: seq<Step>, end: State, inode: Inode)
    requires |initial.writers| == |plans| && Run(plans, initial, steps) == Some(st)
    requires i < |plans| && st.writers[i] == Ready && !plans[i].overwrite
    requires IsStaging(plans[i].destination) && plans[i].destination !in st.entries
    ensures StepsOf(more, i) && Run(plans, initial, steps + more) == Some(end)
    ensures end.entries == st.entries && end.writers == st.writers[i := Finished(Some(inode), Refused, None)]
  {
    hide IsStaging, Run;
    var name := plans[i].destination;
    var staging;
    staging, inode := Stages(plans, initial, steps, st, i, name);
    var st1 := Run(plans, initial, steps + staging).value;
    var link, unlink := Step(i, Link), Step(i, Unlink);
    var st2 := Apply(plans, st1, link);
    RunOn(plans, initial, steps + staging, st1, link);
    end := Apply(plans, st2, unlink);
    RunOn(plans, initial, steps + staging + [link], st2, unlink);
    more := staging + [link] + [unlink];
    assert steps + more == steps + staging + [link] + [unlink];
    assert end.entries == st.entries;
  }

  /** So can all calls for the name, one after the other. */
  lemma {:induction false} AllRefused(plans: seq<Plan>, initial: State, name: Name, n: nat)
    returns (steps: seq<Step>, end: State)
    requires Begins(plans, initial) && n <= |plans| && !IsSafe(initial, name)
    requires forall i :: CallFor(plans, i, name) ==> !plans[i].overwrite
    ensures Run(plans, initial, steps) == Some(end) && end.entries == initial.entries
    ensures forall k :: 0 <= k < |steps| ==> steps[k].action != Fail
    ensures forall i :: 0 <= i < n && CallFor(plans, i, name) ==>
              end.writers[i].Finished? && end.writers[i].outcome == Refused
    ensures forall i :: 0 <= i < |plans| && (i >= n || !CallFor(plans, i, name)) ==> end.writers[i] == Ready
  {
    hide IsStaging, Run;
    if n == 0 {
      steps, end := [], initial;
      RunNothing(plans, initial);
    } else {
      steps, end := AllRefused(plans, initial, name, n - 1);
      if CallFor(plans, n - 1, name) {
        var more, inode;
        more, end, inode := RefusesItself(plans, initial, steps, end, n - 1);
        steps := steps + more;
      }
    }
  }

  ghost predicate Won(plans: seq<Plan>, st: State, name: Name)
    requires |plans| == |st.writers|
  {
    exists winner: nat :: PublishedAs(plans, st, winner, name)
  }

  /** Calls that may not overwrite and a free name: without failing steps one of them always publishes exactly
      when the name is not shaped like a staging name. */
  lemma OneWinsExactly(plans: seq<Plan>, initial: State, name: Name)
    requires Begins(plans, initial) && name !in initial.entries && exists i: nat :: CallFor(plans, i, name)
    requires forall i :: CallFor(plans, i, name) ==> !plans[i].overwrite
    requires forall i :: 0 <= i < |plans| && plans[i].destination != name ==> IsSafe(initial, plans[i].destination)
    ensures !IsStaging(name) <==>
            forall steps :: Undisturbed(plans, initial, steps, name) ==>
              Won(plans, Run(plans, initial, steps).value, name)
  {
    hide IsStaging, Run;
    if IsStaging(name) {
      var steps, end := AllRefused(plans, initial, name, |plans|);
      assert Undisturbed(plans, initial, steps, name);
      assert !Won(plans, end, name);
    } else {
      forall steps | Undisturbed(plans, initial, steps, name)
        ensures Won(plans, Run(plans, initial, steps).value, name)
      {
        var winner := WithoutFailuresOneWins(plans, initial, steps, Run(plans, initial, steps).value, name);
      }
    }
  }
}
