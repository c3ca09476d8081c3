/** Atomic publication (`ConnectionProof.write`, envelope.py): any number of writers stage, link or replace, and
    clean up over one directory. Steps interleave freely and every one of them may fail. */
module Publish {
  import opened Bytes

  type Name = string
  type Inode = nat

  /** What one call was asked to do. */
  datatype Plan = Plan(destination: Name, content: bytes, overwrite: bool)

  datatype Outcome = Published | Refused | Failed

  /** Where a call stands. A staging file is owned from its creation until it has been renamed or unlinked;
      `leaked` is a staging name whose unlink failed. */
  datatype Writer =
    | Ready
    | Writing(name: Name, inode: Inode)
    | Staged(name: Name, inode: Inode)
    | Cleaning(name: Name, inode: Inode, outcome: Outcome)
    | Finished(file: Option<Inode>, outcome: Outcome, leaked: Option<Name>)

  /** A directory: names to inodes (a link is an inode of its own), inodes to bytes. */
  datatype State = State(entries: map<Name, Inode>, files: map<Inode, bytes>, writers: seq<Writer>)

  datatype Action =
    | Create(name: Name, inode: Inode) | Append(count: nat) | Close | Replace | Link | Unlink | Fail

  datatype Step = Step(writer: nat, action: Action)

  const PREFIX := ".p2c-proof-"
  const SUFFIX := ".tmp"

  const RANDOM_CHARACTERS := "abcdefghijklmnopqrstuvwxyz0123456789_"
  const RANDOM_LENGTH := 8

  /** The names that a staging file can get. */
  predicate IsStaging(name: Name) {
    && |name| == |PREFIX| + RANDOM_LENGTH + |SUFFIX|
    && name[..|PREFIX|] == PREFIX && name[|PREFIX| + RANDOM_LENGTH..] == SUFFIX
    && forall i :: |PREFIX| <= i < |PREFIX| + RANDOM_LENGTH ==> name[i] in RANDOM_CHARACTERS
  }

  /** No staging file can ever get the name: it has another shape, or it was taken from the start. */
  predicate IsSafe(initial: State, name: Name) {
    IsStaging(name) ==> name in initial.entries
  }

  /** Nobody publishes under a name that a staging file could get. */
  predicate ValidPlans(plans: seq<Plan>, initial: State) {
    forall i :: 0 <= i < |plans| ==> IsSafe(initial, plans[i].destination)
  }

  predicate Begins(plans: seq<Plan>, st: State) {
    && |st.writers| == |plans| && (forall i :: 0 <= i < |plans| ==> st.writers[i] == Ready)
    && forall n :: n in st.entries ==> st.entries[n] in st.files
  }

  // ---------- one step ----------

  /** A staging file is created exclusively; an append writes the next bytes; closing needs them all. */
  predicate Enabled(plans: seq<Plan>, st: State, s: Step)
    requires |st.writers| == |plans|
  {
    s.writer < |plans| &&
    var plan, w := plans[s.writer], st.writers[s.writer];
    match s.action
    case Create(name, inode) => w.Ready? && IsStaging(name) && name !in st.entries && inode !in st.files
    case Append(count) =>
      w.Writing? && w.inode in st.files && |st.files[w.inode]| + count <= |plan.content|
    case Close => w.Writing? && w.inode in st.files && st.files[w.inode] == plan.content
    case Replace => w.Staged? && plan.overwrite && w.name in st.entries
    case Link => w.Staged? && !plan.overwrite && w.name in st.entries
    case Unlink => w.Cleaning?
    case Fail => !w.Finished?
  }

  function Moved(st: State, i: nat, w: Writer): State
    requires i < |st.writers|
  {
    st.(writers := st.writers[i := w])
  }

  function Apply(plans: seq<Plan>, st: State, s: Step): (next: State)
    requires |st.writers| == |plans| && Enabled(plans, st, s)
    ensures |next.writers| == |plans|
  {
    var i := s.writer;
    var plan, w := plans[i], st.writers[i];
    match s.action
    case Create(name, inode) =>
      Moved(st.(entries := st.entries[name := inode], files := st.files[inode := []]), i, Writing(name, inode))
    case Append(count) =>
      st.(files := st.files[w.inode := plan.content[..|st.files[w.inode]| + count]])
    case Close => Moved(st, i, Staged(w.name, w.inode))
    case Replace =>
      Moved(st.(entries := (st.entries - {w.name})[plan.destination := st.entries[w.name]]), i,
            Finished(Some(w.inode), Published, None))
    case Link =>
      if plan.destination in st.entries then Moved(st, i, Cleaning(w.name, w.inode, Refused))
      else Moved(st.(entries := st.entries[plan.destination := st.entries[w.name]]), i,
                 Cleaning(w.name, w.inode, Published))
    case Unlink =>
      Moved(st.(entries := st.entries - {w.name}), i, Finished(Some(w.inode), w.outcome, None))
    case Fail =>
      match w
      case Ready => Moved(st, i, Finished(None, Failed, None))
      case Cleaning(name, inode, outcome) => Moved(st, i, Finished(Some(inode), outcome, Some(name)))
      case _ => Moved(st, i, Cleaning(w.name, w.inode, Failed))
  }

  /** The state after the steps, if each was enabled. */
  function Run(plans: seq<Plan>, initial: State, steps: seq<Step>): (r: Option<State>)
    requires |initial.writers| == |plans|
    ensures r.Some? ==> |r.value.writers| == |plans|
  {
    if steps == [] then Some(initial)
    else
      var st :- Run(plans, initial, steps[..|steps| - 1]);
      var s := steps[|steps| - 1];
      if Enabled(plans, st, s) then Some(Apply(plans, st, s)) else None
  }

  // ---------- the invariant ----------

  /** The inode a call created, if it did. */
  function FileOf(w: Writer): Option<Inode> {
    match w
    case Ready => None
    case Finished(file, _, _) => file
    case _ => Some(w.inode)
  }

  predicate Owns(w: Writer) {
    w.Writing? || w.Staged? || w.Cleaning?
  }

  predicate HasPublished(w: Writer) {
    (w.Cleaning? || w.Finished?) && w.outcome == Published
  }

  predicate WasRefused(w: Writer) {
    (w.Cleaning? || w.Finished?) && w.outcome == Refused
  }

  predicate IsFile(w: Writer, inode: Inode) {
    FileOf(w) == Some(inode)
  }

  /** The call's file was not there before and holds a prefix of the content to publish: all of it once the
      file is staged or published. */
  ghost predicate FileOk(plans: seq<Plan>, initial: State, st: State, i: nat)
    requires i < |plans| == |st.writers|
  {
    var w := st.writers[i];
    && (HasPublished(w) ==> FileOf(w).Some?)
    && (FileOf(w).Some? ==>
          && FileOf(w).value in st.files && FileOf(w).value !in initial.files
          && st.files[FileOf(w).value] <= plans[i].content
          && (w.Staged? || HasPublished(w) ==> st.files[FileOf(w).value] == plans[i].content))
  }

  /** No two calls share a file, and no file that was there before ever changes. */
  ghost predicate FilesKept(plans: seq<Plan>, initial: State, st: State)
    requires |plans| == |st.writers|
  {
    && (forall i :: 0 <= i < |plans| ==> FileOk(plans, initial, st, i))
    && (forall i, j :: 0 <= i < j < |plans| && FileOf(st.writers[i]).Some? ==>
          FileOf(st.writers[i]) != FileOf(st.writers[j]))
    && (forall n :: n in initial.files ==> n in st.files && st.files[n] == initial.files[n])
  }

  /** An owned staging name is new and leads to the call's file. */
  ghost predicate NameOk(initial: State, st: State, i: nat)
    requires i < |st.writers|
  {
    var w := st.writers[i];
    Owns(w) ==> && IsStaging(w.name) && w.name !in initial.entries
                && w.name in st.entries && st.entries[w.name] == w.inode
  }

  ghost predicate Holds(st: State, i: nat, name: Name)
    requires i < |st.writers|
  {
    (Owns(st.writers[i]) && st.writers[i].name == name)
    || (st.writers[i].Finished? && st.writers[i].leaked == Some(name))
  }

  /** A staging name in the directory was there before, is owned, or was leaked by a failed unlink. */
  ghost predicate NamesKept(initial: State, st: State) {
    && (forall i :: 0 <= i < |st.writers| ==> NameOk(initial, st, i))
    && (forall n :: n in initial.entries ==> n in st.entries)
    && (forall n :: n in st.entries && IsStaging(n) && n !in initial.entries ==>
          exists i :: 0 <= i < |st.writers| && Holds(st, i, n))
  }

  ghost predicate PublishedAs(plans: seq<Plan>, st: State, i: nat, name: Name)
    requires |plans| == |st.writers|
  {
    i < |plans| && HasPublished(st.writers[i]) && plans[i].destination == name
  }

  /** Every safe name leads where it led before or to the file of a call that published there. */
  ghost predicate DestinationsKept(plans: seq<Plan>, initial: State, st: State)
    requires |plans| == |st.writers|
  {
    && (forall n :: n in st.entries && IsSafe(initial, n) ==>
          || (n in initial.entries && st.entries[n] == initial.entries[n])
          || exists i: nat :: PublishedAs(plans, st, i, n) && IsFile(st.writers[i], st.entries[n]))
    && (forall i :: 0 <= i < |plans| && (HasPublished(st.writers[i]) || WasRefused(st.writers[i])) ==>
          plans[i].destination in st.entries)
  }

  /** A call that may not overwrite publishes only where nothing was, and only one such call does. */
  ghost predicate FirstWins(plans: seq<Plan>, initial: State, st: State)
    requires |plans| == |st.writers|
  {
    && (forall i :: 0 <= i < |plans| && !plans[i].overwrite && HasPublished(st.writers[i]) ==>
          plans[i].destination !in initial.entries)
    && (forall i, j :: 0 <= i < j < |plans| && !plans[i].overwrite && !plans[j].overwrite
                       && HasPublished(st.writers[i]) && HasPublished(st.writers[j]) ==>
          plans[i].destination != plans[j].destination)
  }

  ghost predicate Good(plans: seq<Plan>, initial: State, st: State)
    requires |plans| == |st.writers|
  {
    FilesKept(plans, initial, st) && NamesKept(initial, st) && DestinationsKept(plans, initial, st)
    && FirstWins(plans, initial, st)
  }

  // ---------- every step keeps it ----------

  lemma FileStep(plans: seq<Plan>, initial: State, st: State, s: Step, i: nat)
    requires i < |plans| == |st.writers| && Enabled(plans, st, s) && FilesKept(plans, initial, st)
    ensures FileOk(plans, initial, Apply(plans, st, s), i)
    ensures i != s.writer ==> Apply(plans, st, s).writers[i] == st.writers[i]
  {
    hide IsStaging;
    assert FileOk(plans, initial, st, i) && FileOk(plans, initial, st, s.writer);
    if i != s.writer && FileOf(st.writers[i]).Some? {
      assert FileOf(st.writers[i]) != FileOf(st.writers[s.writer]);
    }
  }

  /** A call's file stays its file; a new one is a new inode. */
  lemma FileOfMoved(plans: seq<Plan>, st: State, s: Step)
    requires |plans| == |st.writers| && Enabled(plans, st, s)
    ensures var w, v := st.writers[s.writer], Apply(plans, st, s).writers[s.writer];
            FileOf(v) == FileOf(w) || (FileOf(w) == None && FileOf(v).Some? && FileOf(v).value !in st.files)
    ensures forall n :: n in st.files && FileOf(st.writers[s.writer]) != Some(n) ==>
              n in Apply(plans, st, s).files && Apply(plans, st, s).files[n] == st.files[n]
  {
    hide IsStaging;
  }

  lemma FilesStep(plans: seq<Plan>, initial: State, st: State, s: Step)
    requires |plans| == |st.writers| && Enabled(plans, st, s) && FilesKept(plans, initial, st)
    ensures FilesKept(plans, initial, Apply(plans, st, s))
  {
    var next := Apply(plans, st, s);
    hide Apply, Enabled, IsStaging, HasPublished, FileOf;
    forall i | 0 <= i < |plans|
      ensures FileOk(plans, initial, next, i) && (i != s.writer ==> next.writers[i] == st.writers[i])
    {
      FileStep(plans, initial, st, s, i);
    }
    FileOfMoved(plans, st, s);
    assert FileOk(plans, initial, st, s.writer);
    forall i, j | 0 <= i < j < |plans| && FileOf(next.writers[i]).Some?
      ensures FileOf(next.writers[i]) != FileOf(next.writers[j])
    {
      assert FileOk(plans, initial, st, i) && FileOk(plans, initial, st, j);
    }
  }

  lemma NameStep(plans: seq<Plan>, initial: State, st: State, s: Step, i: nat)
    requires i < |plans| == |st.writers| && ValidPlans(plans, initial) && Enabled(plans, st, s)
    requires FilesKept(plans, initial, st) && NamesKept(initial, st)
    ensures NameOk(initial, Apply(plans, st, s), i)
  {
    hide IsStaging;
    var k := s.writer;
    assert NameOk(initial, st, k) && NameOk(initial, st, i);
    if i != k && Owns(st.writers[i]) && Owns(st.writers[k]) {
      assert FileOf(st.writers[i]) != FileOf(st.writers[k]);
      assert st.writers[i].name != st.writers[k].name;
    }
  }

  lemma HeldStep(plans: seq<Plan>, initial: State, st: State, s: Step, n: Name)
    requires |plans| == |st.writers| && ValidPlans(plans, initial) && Enabled(plans, st, s) && NamesKept(initial, st)
    requires IsStaging(n) && n in Apply(plans, st, s).entries
    ensures n in initial.entries || exists i :: 0 <= i < |plans| && Holds(Apply(plans, st, s), i, n)
  {
    hide IsStaging;
    var next, k := Apply(plans, st, s), s.writer;
    assert NameOk(initial, st, k);
    if n !in initial.entries {
      if n in st.entries {
        var i :| 0 <= i < |st.writers| && Holds(st, i, n);
        assert Holds(next, i, n);
      } else {
        assert Holds(next, k, n);
      }
    }
  }

  lemma NamesStep(plans: seq<Plan>, initial: State, st: State, s: Step)
    requires |plans| == |st.writers| && ValidPlans(plans, initial) && Enabled(plans, st, s)
    requires FilesKept(plans, initial, st) && NamesKept(initial, st)
    ensures NamesKept(initial, Apply(plans, st, s))
  {
    var next := Apply(plans, st, s);
    forall n | n in initial.entries ensures n in next.entries {
      assert NameOk(initial, st, s.writer);
    }
    hide Apply, Enabled, IsStaging, NameOk, Holds;
    forall i | 0 <= i < |plans| ensures NameOk(initial, next, i) {
      NameStep(plans, initial, st, s, i);
    }
    forall n | n in next.entries && IsStaging(n)
      ensures n in initial.entries || exists i :: 0 <= i < |plans| && Holds(next, i, n)
    {
      HeldStep(plans, initial, st, s, n);
    }
  }

  lemma DestinationsStep(plans: seq<Plan>, initial: State, st: State, s: Step)
    requires |plans| == |st.writers| && ValidPlans(plans, initial) && Enabled(plans, st, s)
    requires NamesKept(initial, st) && DestinationsKept(plans, initial, st)
    ensures DestinationsKept(plans, initial, Apply(plans, st, s))
  {
    var next := Apply(plans, st, s);
    forall n | n in next.entries && IsSafe(initial, n)
      ensures (n in initial.entries && next.entries[n] == initial.entries[n])
              || exists i: nat :: PublishedAs(plans, next, i, n) && IsFile(next.writers[i], next.entries[n])
    {
      EntryStep(plans, initial, st, s, n);
    }
    RefusedStep(plans, initial, st, s);
    hide Apply, Enabled, IsStaging, PublishedAs;
  }

  lemma EntryStep(plans: seq<Plan>, initial: State, st: State, s: Step, n: Name)
    requires |plans| == |st.writers| && ValidPlans(plans, initial) && Enabled(plans, st, s)
    requires NamesKept(initial, st) && DestinationsKept(plans, initial, st)
    requires n in Apply(plans, st, s).entries && IsSafe(initial, n)
    ensures var next := Apply(plans, st, s);
            (n in initial.entries && next.entries[n] == initial.entries[n])
            || exists i: nat :: PublishedAs(plans, next, i, n) && IsFile(next.writers[i], next.entries[n])
  {
    hide IsStaging;
    var next, k := Apply(plans, st, s), s.writer;
    assert NameOk(initial, st, k);
    if n in st.entries && next.entries[n] == st.entries[n] {
      if !(n in initial.entries && st.entries[n] == initial.entries[n]) {
        var i: nat :| PublishedAs(plans, st, i, n) && IsFile(st.writers[i], st.entries[n]);
        PublishedStays(plans, st, s, i, n, st.entries[n]);
      }
    } else {
      assert PublishedAs(plans, next, k, n) && IsFile(next.writers[k], next.entries[n]);
    }
  }

  lemma PublishedStays(plans: seq<Plan>, st: State, s: Step, i: nat, n: Name, inode: Inode)
    requires |plans| == |st.writers| && Enabled(plans, st, s)
    requires PublishedAs(plans, st, i, n) && IsFile(st.writers[i], inode)
    ensures PublishedAs(plans, Apply(plans, st, s), i, n) && IsFile(Apply(plans, st, s).writers[i], inode)
  {
    hide IsStaging;
  }

  lemma RefusedStep(plans: seq<Plan>, initial: State, st: State, s: Step)
    requires |plans| == |st.writers| && ValidPlans(plans, initial) && Enabled(plans, st, s)
    requires NamesKept(initial, st) && DestinationsKept(plans, initial, st)
    ensures var next := Apply(plans, st, s);
            forall i :: 0 <= i < |plans| && (HasPublished(next.writers[i]) || WasRefused(next.writers[i])) ==>
              plans[i].destination in next.entries
  {
    hide IsStaging, IsFile;
    assert NameOk(initial, st, s.writer);
  }

  /** Only the call that moves can newly publish, and without leave to overwrite only where nothing was. */
  lemma NewPublisher(plans: seq<Plan>, st: State, s: Step, i: nat)
    requires i < |plans| == |st.writers| && Enabled(plans, st, s) && HasPublished(Apply(plans, st, s).writers[i])
    ensures HasPublished(st.writers[i])
            || (i == s.writer && (!plans[i].overwrite ==> plans[i].destination !in st.entries))
  {
    hide IsStaging;
  }

  /** What holds whatever the destinations are: names that were there stay, no two calls own one name, and what a
      call published without leave to overwrite stays, under a name that nobody owns. */
  ghost predicate Orderly(plans: seq<Plan>, initial: State, st: State)
    requires |plans| == |st.writers|
  {
    && (forall n :: n in initial.entries ==> n in st.entries)
    && (forall i :: 0 <= i < |plans| && Owns(st.writers[i]) ==>
          st.writers[i].name in st.entries && st.writers[i].name !in initial.entries)
    && (forall i, j :: 0 <= i < j < |plans| && Owns(st.writers[i]) && Owns(st.writers[j]) ==>
          st.writers[i].name != st.writers[j].name)
    && (forall i :: 0 <= i < |plans| && !plans[i].overwrite && HasPublished(st.writers[i]) ==>
          plans[i].destination in st.entries && !Owned(st, plans[i].destination))
    && FirstWins(plans, initial, st)
  }

  ghost predicate Owned(st: State, name: Name) {
    exists i :: 0 <= i < |st.writers| && Owns(st.writers[i]) && st.writers[i].name == name
  }

  /** A step removes only a name that the moving call owns, and a call comes to own only a name that was free. */
  lemma OwnersStep(plans: seq<Plan>, st: State, s: Step)
    requires |plans| == |st.writers| && Enabled(plans, st, s)
    ensures s.writer < |plans|
    ensures var next, w, v := Apply(plans, st, s), st.writers[s.writer], Apply(plans, st, s).writers[s.writer];
            && next.writers == st.writers[s.writer := v]
            && (forall n :: n in st.entries && n !in next.entries ==> Owns(w) && w.name == n && !Owns(v))
            && (Owns(v) ==> if Owns(w) then v.name == w.name else v.name !in st.entries && v.name in next.entries)
            && (HasPublished(v) && !HasPublished(w) && !plans[s.writer].overwrite ==>
                  Owns(v) && v.name in st.entries && plans[s.writer].destination !in st.entries
                  && plans[s.writer].destination in next.entries)
  {
    hide IsStaging;
  }

  lemma OwnedStays(plans: seq<Plan>, initial: State, st: State, s: Step)
    requires |plans| == |st.writers| && Enabled(plans, st, s) && Orderly(plans, initial, st)
    ensures var next := Apply(plans, st, s);
            && (forall n :: n in initial.entries ==> n in next.entries)
            && (forall i :: 0 <= i < |plans| && Owns(next.writers[i]) ==>
                  next.writers[i].name in next.entries && next.writers[i].name !in initial.entries)
            && (forall i, j :: 0 <= i < j < |plans| && Owns(next.writers[i]) && Owns(next.writers[j]) ==>
                  next.writers[i].name != next.writers[j].name)
  {
    hide IsStaging, Apply, Enabled, HasPublished, Owned, FirstWins;
    OwnersStep(plans, st, s);
  }

  lemma PublishedUnowned(plans: seq<Plan>, initial: State, st: State, s: Step, i: nat)
    requires i < |plans| == |st.writers| && Enabled(plans, st, s) && Orderly(plans, initial, st)
    requires !plans[i].overwrite && HasPublished(Apply(plans, st, s).writers[i])
    ensures plans[i].destination in Apply(plans, st, s).entries && !Owned(Apply(plans, st, s), plans[i].destination)
  {
    hide IsStaging, Apply, Enabled, HasPublished, FirstWins;
    var next, d, k := Apply(plans, st, s), plans[i].destination, s.writer;
    OwnersStep(plans, st, s);
    if HasPublished(st.writers[i]) {
      assert d in st.entries && !Owned(st, d);
      assert Owns(st.writers[k]) && st.writers[k].name == d ==> Owned(st, d);
      if j :| 0 <= j < |next.writers| && Owns(next.writers[j]) && next.writers[j].name == d {
        assert false;
      }
    } else {
      assert i == k by {
        NewPublisher(plans, st, s, i);
      }
      assert d !in st.entries by {
        NewPublisher(plans, st, s, i);
      }
      if j :| 0 <= j < |next.writers| && Owns(next.writers[j]) && next.writers[j].name == d {
        assert false;
      }
    }
  }

  lemma OrderlyStep(plans: seq<Plan>, initial: State, st: State, s: Step)
    requires |plans| == |st.writers| && Enabled(plans, st, s) && Orderly(plans, initial, st)
    ensures Orderly(plans, initial, Apply(plans, st, s))
  {
    hide IsStaging, Apply, Enabled, HasPublished, Owns, Owned;
    var next := Apply(plans, st, s);
    OwnedStays(plans, initial, st, s);
    forall i | 0 <= i < |plans| && HasPublished(next.writers[i])
      ensures HasPublished(st.writers[i])
              || (i == s.writer && (!plans[i].overwrite ==> plans[i].destination !in st.entries))
    {
      NewPublisher(plans, st, s, i);
    }
    forall i | 0 <= i < |plans| && !plans[i].overwrite && HasPublished(next.writers[i])
      ensures plans[i].destination in next.entries && !Owned(next, plans[i].destination)
    {
      PublishedUnowned(plans, initial, st, s, i);
    }
  }

  lemma OrderlyMeansFirstWins(plans: seq<Plan>, initial: State, st: State)
    requires |plans| == |st.writers| && Orderly(plans, initial, st)
    ensures FirstWins(plans, initial, st)
  {
  }

  lemma {:induction false} EveryRunIsOrderly(plans: seq<Plan>, initial: State, steps: seq<Step>)
    requires Begins(plans, initial) && Run(plans, initial, steps).Some?
    ensures Orderly(plans, initial, Run(plans, initial, steps).value)
  {
    hide IsStaging, Enabled, Apply;
    if steps != [] {
      hide Orderly;
      EveryRunIsOrderly(plans, initial, steps[..|steps| - 1]);
      OrderlyStep(plans, initial, Run(plans, initial, steps[..|steps| - 1]).value, steps[|steps| - 1]);
      assert Orderly(plans, initial, Run(plans, initial, steps).value);
    } else {
      assert Orderly(plans, initial, initial);
    }
  }

  /** Over every interleaving of every number of writers, with any step failing. */
  lemma {:induction false} EveryRunIsGood(plans: seq<Plan>, initial: State, steps: seq<Step>)
    requires ValidPlans(plans, initial) && Begins(plans, initial) && Run(plans, initial, steps).Some?
    ensures Good(plans, initial, Run(plans, initial, steps).value)
  {
    hide IsStaging, Enabled, Apply;
    if steps != [] {
      hide FilesKept, NamesKept, DestinationsKept, FirstWins;
      var st, s := Run(plans, initial, steps[..|steps| - 1]).value, steps[|steps| - 1];
      EveryRunIsGood(plans, initial, steps[..|steps| - 1]);
      FilesStep(plans, initial, st, s);
      NamesStep(plans, initial, st, s);
      DestinationsStep(plans, initial, st, s);
      EveryRunIsOrderly(plans, initial, steps);
      OrderlyMeansFirstWins(plans, initial, Run(plans, initial, steps).value);
      assert Good(plans, initial, Run(plans, initial, steps).value);
    } else {
      assert Good(plans, initial, initial);
    }
  }

  // ---------- what it means ----------

  predicate CallFor(plans: seq<Plan>, i: int, name: Name) {
    0 <= i < |plans| && plans[i].destination == name
  }

  /** At every moment of every run a safe name leads to what it led to at first, with its bytes unchanged, or to
      the complete content of one call that published there. */
  lemma DestinationAlwaysComplete(plans: seq<Plan>, initial: State, steps: seq<Step>, st: State, name: Name)
    requires ValidPlans(plans, initial) && Begins(plans, initial) && Run(plans, initial, steps) == Some(st)
    requires name in st.entries && IsSafe(initial, name)
    ensures st.entries[name] in st.files
    ensures || (name in initial.entries && st.entries[name] == initial.entries[name]
                && st.files[st.entries[name]] == initial.files[initial.entries[name]])
            || exists i: nat :: PublishedAs(plans, st, i, name) && st.files[st.entries[name]] == plans[i].content
  {
    hide IsStaging, Run, Owns, WasRefused;
    EveryRunIsGood(plans, initial, steps);
    if !(name in initial.entries && st.entries[name] == initial.entries[name]) {
      var i: nat :| PublishedAs(plans, st, i, name) && IsFile(st.writers[i], st.entries[name]);
      assert FileOk(plans, initial, st, i);
    }
  }

  /** Names that nobody publishes to, staging or not, keep their entry and their bytes. */
  lemma UnrelatedNamesUntouched(plans: seq<Plan>, initial: State, steps: seq<Step>, st: State, name: Name)
    requires ValidPlans(plans, initial) && Begins(plans, initial) && Run(plans, initial, steps) == Some(st)
    requires forall i :: 0 <= i < |plans| ==> plans[i].destination != name
    ensures name in initial.entries ==> && name in st.entries && st.entries[name] == initial.entries[name]
                                        && st.entries[name] in st.files
                                        && st.files[st.entries[name]] == initial.files[initial.entries[name]]
    ensures name !in initial.entries && !IsStaging(name) ==> name !in st.entries
  {
    hide IsStaging, Run, Owns, WasRefused;
    EveryRunIsGood(plans, initial, steps);
  }

  lemma {:induction false} PublishedKept(plans: seq<Plan>, initial: State, before: seq<Step>, after: seq<Step>, i: nat,
                                          name: Name, inode: Inode)
    requires |initial.writers| == |plans| && Run(plans, initial, before).Some? && Run(plans, initial, after).Some?
    requires before <= after
    requires PublishedAs(plans, Run(plans, initial, before).value, i, name)
    requires IsFile(Run(plans, initial, before).value.writers[i], inode)
    ensures PublishedAs(plans, Run(plans, initial, after).value, i, name)
    ensures IsFile(Run(plans, initial, after).value.writers[i], inode)
    decreases |after|
  {
    hide IsStaging, Enabled, Apply, PublishedAs, IsFile;
    if before == after {
      assert before == after;
    } else {
      var front, last := after[..|after| - 1], after[|after| - 1];
      assert before <= front;
      PublishedKept(plans, initial, before, front, i, name, inode);
      PublishedStays(plans, Run(plans, initial, front).value, last, i, name, inode);
    }
  }

  /** Once a safe name is in the directory, at the start or through a call, calls that may not overwrite never
      change its entry or its bytes, whatever else happens. */
  lemma NoOverwriteKeepsEntries(plans: seq<Plan>, initial: State, before: seq<Step>, after: seq<Step>, st: State,
                                end: State, name: Name)
    requires ValidPlans(plans, initial) && Begins(plans, initial) && before <= after
    requires Run(plans, initial, before) == Some(st) && Run(plans, initial, after) == Some(end)
    requires name in st.entries && IsSafe(initial, name)
    requires forall i :: CallFor(plans, i, name) ==> !plans[i].overwrite
    ensures name in end.entries && end.entries[name] == st.entries[name]
    ensures st.entries[name] in st.files && st.entries[name] in end.files
    ensures end.files[st.entries[name]] == st.files[st.entries[name]]
  {
    hide IsSafe, Run, Owns, WasRefused, HasPublished;
    EveryRunIsGood(plans, initial, before);
    EveryRunIsGood(plans, initial, after);
    if name in initial.entries {
      StaysInitial(plans, initial, st, name);
      StaysInitial(plans, initial, end, name);
    } else {
      var i: nat :| PublishedAs(plans, st, i, name) && IsFile(st.writers[i], st.entries[name]);
      PublishedKept(plans, initial, before, after, i, name, st.entries[name]);
      assert FileOk(plans, initial, st, i) && FileOk(plans, initial, end, i);
      assert name in end.entries;
      var j: nat :| PublishedAs(plans, end, j, name) && IsFile(end.writers[j], end.entries[name]);
      assert CallFor(plans, i, name) && CallFor(plans, j, name);
    }
  }

  lemma StaysInitial(plans: seq<Plan>, initial: State, st: State, name: Name)
    requires |plans| == |st.writers| && Good(plans, initial, st)
    requires name in initial.entries && initial.entries[name] in initial.files && IsSafe(initial, name)
    requires forall i :: CallFor(plans, i, name) ==> !plans[i].overwrite
    ensures name in st.entries && st.entries[name] == initial.entries[name]
    ensures st.entries[name] in st.files && st.files[st.entries[name]] == initial.files[initial.entries[name]]
  {
    hide IsSafe, Owns, WasRefused, HasPublished, FileOk;
    assert forall i: nat :: PublishedAs(plans, st, i, name) ==> CallFor(plans, i, name);
  }

  /** Among calls that may not overwrite at most one succeeds for a name, and none if the name was taken,
      whatever the destinations are. */
  lemma AtMostOneSucceeds(plans: seq<Plan>, initial: State, steps: seq<Step>, st: State, i: nat, j: nat)
    requires Begins(plans, initial) && Run(plans, initial, steps) == Some(st)
    requires i < |plans| && j < |plans| && !plans[i].overwrite && !plans[j].overwrite
    requires plans[i].destination == plans[j].destination
    requires HasPublished(st.writers[i]) && HasPublished(st.writers[j])
    ensures i == j && plans[i].destination !in initial.entries
  {
    hide IsStaging, Run;
    EveryRunIsOrderly(plans, initial, steps);
  }

  /** If the name was free and every call for it either published or was refused, exactly one published. */
  lemma ExactlyOneSucceeds(plans: seq<Plan>, initial: State, steps: seq<Step>, st: State, name: Name)
    returns (winner: nat)
    requires ValidPlans(plans, initial) && Begins(plans, initial) && Run(plans, initial, steps) == Some(st)
    requires name !in initial.entries && exists i: nat :: CallFor(plans, i, name)
    requires forall i :: CallFor(plans, i, name) ==>
               !plans[i].overwrite && st.writers[i].Finished? && st.writers[i].outcome != Failed
    ensures PublishedAs(plans, st, winner, name)
    ensures forall i :: CallFor(plans, i, name) && i != winner ==> st.writers[i].outcome == Refused
    ensures name in st.entries && st.entries[name] in st.files && st.files[st.entries[name]] == plans[winner].content
  {
    hide IsStaging, Run, Owns;
    EveryRunIsGood(plans, initial, steps);
    var first: nat :| CallFor(plans, first, name);
    assert HasPublished(st.writers[first]) || WasRefused(st.writers[first]);
    winner :| PublishedAs(plans, st, winner, name) && IsFile(st.writers[winner], st.entries[name]);
    assert CallFor(plans, winner, name);
    assert FileOk(plans, initial, st, winner);
    forall i: nat | CallFor(plans, i, name) && i != winner ensures st.writers[i].outcome == Refused {
      if HasPublished(st.writers[i]) {
        AtMostOneSucceeds(plans, initial, steps, st, i, winner);
      }
    }
  }

  /** When every call has finished, the only new staging names left are those whose own unlink failed. */
  lemma NoStagingLeft(plans: seq<Plan>, initial: State, steps: seq<Step>, st: State, name: Name)
    requires ValidPlans(plans, initial) && Begins(plans, initial) && Run(plans, initial, steps) == Some(st)
    requires forall i :: 0 <= i < |plans| ==> st.writers[i].Finished?
    requires name in st.entries && IsStaging(name) && name !in initial.entries
    ensures exists i :: 0 <= i < |plans| && st.writers[i].leaked == Some(name)
  {
    hide IsStaging, Run;
    EveryRunIsGood(plans, initial, steps);
    var i :| 0 <= i < |plans| && Holds(st, i, name);
    assert st.writers[i].leaked == Some(name);
  }

  // ---------- failure and success ----------

  predicate FailedCall(w: Writer) {
    (w.Cleaning? || w.Finished?) && w.outcome == Failed
  }

  predicate FailedOrLeaked(w: Writer) {
    FailedCall(w) || (w.Finished? && w.leaked.Some?)
  }

  lemma FailureStep(plans: seq<Plan>, st: State, s: Step, i: nat)
    requires i < |plans| == |st.writers| && Enabled(plans, st, s) && s != Step(i, Fail)
    ensures FailedOrLeaked(Apply(plans, st, s).writers[i]) ==> FailedOrLeaked(st.writers[i])
  {
    hide IsStaging;
  }

  /** A call fails, or leaves its staging name behind, only if one of its own steps failed. */
  lemma {:induction false} FailuresAreSteps(plans: seq<Plan>, initial: State, steps: seq<Step>, i: nat)
    requires Begins(plans, initial) && Run(plans, initial, steps).Some? && i < |plans|
    ensures FailedOrLeaked(Run(plans, initial, steps).value.writers[i]) ==> Step(i, Fail) in steps
  {
    hide IsStaging, Enabled, Apply;
    if steps != [] {
      var front, last := steps[..|steps| - 1], steps[|steps| - 1];
      FailuresAreSteps(plans, initial, front, i);
      assert steps == front + [last];
      if last != Step(i, Fail) {
        FailureStep(plans, Run(plans, initial, front).value, last, i);
      }
    }
  }

  /** No step of a call for the name fails, and all of them have finished. */
  ghost predicate Undisturbed(plans: seq<Plan>, initial: State, steps: seq<Step>, name: Name)
    requires |initial.writers| == |plans|
  {
    && Run(plans, initial, steps).Some?
    && (forall k :: 0 <= k < |steps| && steps[k].action == Fail ==> !CallFor(plans, steps[k].writer, name))
    && forall i :: CallFor(plans, i, name) ==> Run(plans, initial, steps).value.writers[i].Finished?
  }

  /** If no step of the calls for a free name fails, exactly one of them has published when they are finished,
      and they leave nothing else that is new. */
  lemma WithoutFailuresOneWins(plans: seq<Plan>, initial: State, steps: seq<Step>, st: State, name: Name)
    returns (winner: nat)
    requires ValidPlans(plans, initial) && Begins(plans, initial) && Run(plans, initial, steps) == Some(st)
    requires name !in initial.entries && exists i: nat :: CallFor(plans, i, name)
    requires forall i :: CallFor(plans, i, name) ==> !plans[i].overwrite
    requires Undisturbed(plans, initial, steps, name)
    ensures PublishedAs(plans, st, winner, name)
    ensures forall i :: CallFor(plans, i, name) && i != winner ==> st.writers[i].outcome == Refused
    ensures name in st.entries && st.entries[name] in st.files && st.files[st.entries[name]] == plans[winner].content
    ensures forall n :: n in st.entries ==> || n == name || n in initial.entries
                                            || exists i :: 0 <= i < |plans| && LeftBy(plans, st, i, n)
    ensures forall i, n :: CallFor(plans, i, name) && n != name ==> !LeftBy(plans, st, i, n)
  {
    hide IsStaging, Run, Owns;
    forall i: nat | CallFor(plans, i, name) ensures st.writers[i].outcome != Failed && st.writers[i].leaked == None {
      FailuresAreSteps(plans, initial, steps, i);
    }
    winner := ExactlyOneSucceeds(plans, initial, steps, st, name);
    EveryRunIsGood(plans, initial, steps);
    NewNamesAreLeft(plans, initial, st);
    hide Good;
    forall i, n | CallFor(plans, i, name) && n != name ensures !LeftBy(plans, st, i, n) {
      FinishedLeaves(plans, st, i, n);
    }
  }

  lemma FinishedLeaves(plans: seq<Plan>, st: State, i: nat, name: Name)
    requires i < |plans| == |st.writers| && st.writers[i].Finished? && st.writers[i].leaked == None
    requires plans[i].destination != name
    ensures !LeftBy(plans, st, i, name)
  {
  }

  /** The name is one that the call published, stages under or leaked. */
  ghost predicate LeftBy(plans: seq<Plan>, st: State, i: nat, name: Name)
    requires |plans| == |st.writers|
  {
    PublishedAs(plans, st, i, name) || (i < |plans| && Holds(st, i, name))
  }

  lemma NewNamesAreLeft(plans: seq<Plan>, initial: State, st: State)
    requires |plans| == |st.writers| && Good(plans, initial, st)
    ensures forall n :: n in st.entries && n !in initial.entries ==>
              exists i :: 0 <= i < |plans| && LeftBy(plans, st, i, n)
  {
    hide IsStaging, FileOk, FilesKept, FirstWins, Holds;
    forall n | n in st.entries && n !in initial.entries
      ensures exists i :: 0 <= i < |plans| && LeftBy(plans, st, i, n)
    {
      if IsStaging(n) {
        var i :| 0 <= i < |st.writers| && Holds(st, i, n);
        assert LeftBy(plans, st, i, n);
      } else {
        var i: nat :| PublishedAs(plans, st, i, n) && IsFile(st.writers[i], st.entries[n]);
        assert LeftBy(plans, st, i, n);
      }
    }
  }

  /** Publication is one step: just before it the name leads where it led; just after it to the whole content,
      and no other name but the call's own staging name has changed. */
  lemma PublicationIsAtomic(plans: seq<Plan>, initial: State, steps: seq<Step>, st: State, s: Step)
    requires ValidPlans(plans, initial) && Begins(plans, initial) && Run(plans, initial, steps) == Some(st)
    requires Enabled(plans, st, s) && (s.action == Replace || s.action == Link)
    requires s.action == Link ==> plans[s.writer].destination !in st.entries
    ensures var next, d := Apply(plans, st, s), plans[s.writer].destination;
            && d in next.entries && next.entries[d] in next.files
            && next.files[next.entries[d]] == plans[s.writer].content && next.files == st.files
            && (forall n :: n != d && n != st.writers[s.writer].name ==>
                  (n in next.entries <==> n in st.entries) && (n in st.entries ==> next.entries[n] == st.entries[n]))
            && (s.action == Replace ==> st.writers[s.writer].name !in next.entries)
  {
    hide IsStaging;
    EveryRunIsGood(plans, initial, steps);
    assert FileOk(plans, initial, st, s.writer) && NameOk(initial, st, s.writer);
  }
}
