/**
 The generator's projects on disk, and what `check` may conclude.
 */
module Stamp {
  import opened Bytes

  type Source = seq<byte>

  /** Hashing taken as injective. */
  datatype Digest = Digest(of: Source)

  /** The generated files: nothing or not everything, or all of what one source generates. */
  datatype Output = Incomplete | Complete(source: Source)

  datatype Gen = Gen(files: Output, stamp: Option<Digest>)

  /** A project directory: its one interface file and its `gen` directory, if they exist. */
  datatype Disk = Disk(wit: Option<Source>, gen: Option<Gen>)

  /** A generator run in progress: what was loaded, and what was read for the hash. */
  datatype Run =
    | Idle
    | Created(isNew: bool)
    | Loaded(loaded: Source, isNew: bool)
    | Hashed(loaded: Source, hashed: Source, isNew: bool)
    | Cleared(loaded: Source, hashed: Source, isNew: bool)
    | Generated(loaded: Source, hashed: Source, isNew: bool)
    | Stamped(isNew: bool)

  datatype State = State(disk: Option<Disk>, run: Run)

  datatype Step =
    | Edit(wit: Source)           // the user writes the interface file
    | Remove                      // the user removes the interface file
    | NewStart(starter: Source)   // `new`: directory and starter file
    | RegenStart                  // `regen` on a managed project
    | Load                        // wit::load
    | ReadForHash                 // first statement of rewrite_gen
    | Clear(made: bool)           // remove gen/ if there is one, then create it empty, or fail to
    | Generate(all: bool)         // schema.json and the backend's files, or some of them and a failure
    | WriteStamp                  // MANIFEST, last
    | Finish                      // success
    | Fail(cleaned: bool)         // an error at this point; `new` then tries to remove its directory

  /** `load_managed` and `is_fresh`: a stamp, an interface file, and equal hashes. */
  predicate Fresh(d: Disk) {
    && d.gen.Some? && d.gen.value.stamp.Some? && d.wit.Some?
    && d.gen.value.stamp.value == Digest(d.wit.value)
  }

  /** What `check` promises of a fresh project: gen/ is all of what its current source generates. */
  predicate Honest(d: Disk) {
    Fresh(d) ==> d.gen.value.files == Complete(d.wit.value)
  }

  function Busy(r: Run): bool {
    !r.Idle?
  }

  predicate Enabled(s: State, step: Step) {
    match step
    case Edit(_) => s.disk.Some?
    case Remove => s.disk.Some?
    case NewStart(_) => s.run.Idle? && s.disk.None?
    case RegenStart =>
      && s.run.Idle? && s.disk.Some? && s.disk.value.wit.Some?
      && s.disk.value.gen.Some? && s.disk.value.gen.value.stamp.Some?
    case Load => s.run.Created? && s.disk.Some? && s.disk.value.wit.Some?
    case ReadForHash => s.run.Loaded? && s.disk.Some? && s.disk.value.wit.Some?
    case Clear(_) => s.run.Hashed? && s.disk.Some?
    case Generate(_) => s.run.Cleared? && s.disk.Some? && s.disk.value.gen.Some?
    case WriteStamp => s.run.Generated? && s.disk.Some? && s.disk.value.gen.Some?
    case Finish => s.run.Stamped?
    case Fail(cleaned) => Busy(s.run) && (cleaned ==> s.run.isNew)
  }

  function Next(s: State, step: Step): State
    requires Enabled(s, step)
  {
    match step
    case Edit(w) => s.(disk := Some(s.disk.value.(wit := Some(w))))
    case Remove => s.(disk := Some(s.disk.value.(wit := None)))
    case NewStart(w) => State(Some(Disk(Some(w), None)), Created(true))
    case RegenStart => s.(run := Created(false))
    case Load => s.(run := Loaded(s.disk.value.wit.value, s.run.isNew))
    case ReadForHash => s.(run := Hashed(s.run.loaded, s.disk.value.wit.value, s.run.isNew))
    case Clear(made) =>
      State(Some(s.disk.value.(gen := if made then Some(Gen(Incomplete, None)) else None)),
            Cleared(s.run.loaded, s.run.hashed, s.run.isNew))
    case Generate(all) =>
      if all then
        State(Some(s.disk.value.(gen := Some(Gen(Complete(s.run.loaded), None)))),
              Generated(s.run.loaded, s.run.hashed, s.run.isNew))
      else
        s
    case WriteStamp =>
      var gen := s.disk.value.gen.value;
      State(Some(s.disk.value.(gen := Some(gen.(stamp := Some(Digest(s.run.hashed)))))), Stamped(s.run.isNew))
    case Finish => s.(run := Idle)
    case Fail(cleaned) => if cleaned then State(None, Idle) else s.(run := Idle)
  }

  // ---------------------------------------------------------------------------
  // Safety
  // ---------------------------------------------------------------------------

  predicate HasStamp(d: Disk) {
    d.gen.Some? && d.gen.value.stamp.Some?
  }

  /** A stamp is only ever there together with everything some source generates. */
  ghost predicate Stamps(d: Disk) {
    HasStamp(d) ==> d.gen.value.files.Complete?
  }

  ghost predicate Inv(s: State) {
    && (s.disk.Some? ==> Stamps(s.disk.value))
    && (s.run.Cleared? && s.disk.Some? ==> !HasStamp(s.disk.value))
    && (s.run.Generated? && s.disk.Some? && s.disk.value.gen.Some? ==>
          s.disk.value.gen.value == Gen(Complete(s.run.loaded), None))
  }

  lemma StepKeepsInv(s: State, step: Step)
    requires Inv(s) && Enabled(s, step)
    ensures Inv(Next(s, step))
  {
  }

  /** A directory nobody has generated into, and no run. */
  predicate Initial(s: State) {
    s.run.Idle? && (s.disk.Some? ==> s.disk.value.gen.None?)
  }

  ghost predicate IsRun(states: seq<State>, steps: seq<Step>) {
    && |states| == |steps| + 1
    && Initial(states[0])
    && forall i :: 0 <= i < |steps| ==> Enabled(states[i], steps[i]) && states[i + 1] == Next(states[i], steps[i])
  }

  lemma {:induction false} RunKeepsInv(states: seq<State>, steps: seq<Step>, i: nat)
    requires IsRun(states, steps) && i < |states|
    ensures Inv(states[i])
  {
    if i > 0 {
      RunKeepsInv(states, steps, i - 1);
      assert Enabled(states[i - 1], steps[i - 1]) && states[i - 1 + 1] == Next(states[i - 1], steps[i - 1]);
      StepKeepsInv(states[i - 1], steps[i - 1]);
    }
  }

  predicate Holds(s: State, gen: Gen) {
    s.disk.Some? && s.disk.value.gen == Some(gen)
  }

  /** From step `j` on nothing touched the generated directory, and step `j` wrote its stamp. */
  ghost predicate LastStamp(states: seq<State>, steps: seq<Step>, j: nat, i: nat)
    requires IsRun(states, steps) && i < |states|
  {
    && j < i && steps[j].WriteStamp? && states[j].run.Generated?
    && (forall k :: j < k < i ==> !steps[k].WriteStamp?)
    && forall k :: j < k <= i ==>
         Holds(states[k], Gen(Complete(states[j].run.loaded), Some(Digest(states[j].run.hashed))))
  }

  lemma {:induction false} StampedBy(states: seq<State>, steps: seq<Step>, i: nat) returns (j: nat)
    requires IsRun(states, steps) && i < |states| && states[i].disk.Some? && HasStamp(states[i].disk.value)
    ensures LastStamp(states, steps, j, i)
  {
    var before, step := states[i - 1], steps[i - 1];
    assert Enabled(before, step) && states[i - 1 + 1] == Next(before, step);
    RunKeepsInv(states, steps, i - 1);
    if step.WriteStamp? {
      j := i - 1;
    } else {
      j := StampedBy(states, steps, i - 1);
    }
  }

  /**
   At every moment of every run, a project `check` calls fresh is completely generated from
   its current source if and only if the run that stamped it had loaded what it hashed.
   */
  lemma FreshIsHonest(states: seq<State>, steps: seq<Step>, i: nat) returns (j: nat)
    requires IsRun(states, steps) && i < |states| && states[i].disk.Some? && Fresh(states[i].disk.value)
    ensures LastStamp(states, steps, j, i)
    ensures Honest(states[i].disk.value) <==> states[j].run.loaded == states[j].run.hashed
  {
    j := StampedBy(states, steps, i);
  }

  /** Nobody edits the interface between its loading and its hashing. */
  ghost predicate Undisturbed(states: seq<State>, steps: seq<Step>)
    requires IsRun(states, steps)
  {
    forall i :: 0 <= i < |steps| && states[i].run.Loaded? ==> !steps[i].Edit?
  }

  ghost predicate Same(s: State) {
    && (s.run.Hashed? || s.run.Cleared? || s.run.Generated? ==> s.run.loaded == s.run.hashed)
    && (s.run.Loaded? && s.disk.Some? && s.disk.value.wit.Some? ==> s.disk.value.wit.value == s.run.loaded)
  }

  lemma {:induction false} LoadedIsHashed(states: seq<State>, steps: seq<Step>, i: nat)
    requires IsRun(states, steps) && Undisturbed(states, steps) && i < |states|
    ensures Same(states[i])
  {
    if i > 0 {
      LoadedIsHashed(states, steps, i - 1);
      assert Enabled(states[i - 1], steps[i - 1]) && states[i - 1 + 1] == Next(states[i - 1], steps[i - 1]);
    }
  }

  /** Then every fresh project is honest. */
  lemma UndisturbedIsHonest(states: seq<State>, steps: seq<Step>, i: nat)
    requires IsRun(states, steps) && Undisturbed(states, steps) && i < |states| && states[i].disk.Some?
    ensures Honest(states[i].disk.value)
  {
    if Fresh(states[i].disk.value) {
      var j := FreshIsHonest(states, steps, i);
      LoadedIsHashed(states, steps, j);
    }
  }

  // ---------------------------------------------------------------------------
  // The window the stamp does not cover
  // ---------------------------------------------------------------------------

  /** A run in which the interface is `w1` when it is loaded and `w2` when it is hashed. */
  lemma EditedWhileLoaded(w1: Source, w2: Source) returns (states: seq<State>, steps: seq<Step>)
    ensures IsRun(states, steps) && states[|steps|].disk.Some?
    ensures Fresh(states[|steps|].disk.value)
    ensures Honest(states[|steps|].disk.value) <==> w1 == w2
  {
    steps := [NewStart(w1), Load, Edit(w2), ReadForHash, Clear(true), Generate(true), WriteStamp];
    var d1, d2 := Disk(Some(w1), None), Disk(Some(w2), None);
    var done := Gen(Complete(w1), None);
    states := [
      State(None, Idle), State(Some(d1), Created(true)), State(Some(d1), Loaded(w1, true)),
      State(Some(d2), Loaded(w1, true)), State(Some(d2), Hashed(w1, w2, true)),
      State(Some(d2.(gen := Some(Gen(Incomplete, None)))), Cleared(w1, w2, true)),
      State(Some(d2.(gen := Some(done))), Generated(w1, w2, true)),
      State(Some(d2.(gen := Some(done.(stamp := Some(Digest(w2)))))), Stamped(true))];
    forall i | 0 <= i < |steps| ensures Enabled(states[i], steps[i]) && states[i + 1] == Next(states[i], steps[i]) {
      if i == 0 {
      } else if i == 1 {
      } else if i == 2 {
      } else if i == 3 {
      } else if i == 4 {
      } else if i == 5 {
      } else {
      }
    }
  }

  // ---------------------------------------------------------------------------
  // After a failure
  // ---------------------------------------------------------------------------

  /** No generator is running, and there is a directory without a stamp. */
  predicate Lost(s: State) {
    s.run.Idle? && s.disk.Some? && !HasStamp(s.disk.value)
  }

  /**
   A directory without a stamp never gets one again: `regen` asks for the stamp, and `new`
   for a name that is not taken.
   */
  lemma {:induction false} LostForGood(states: seq<State>, steps: seq<Step>, i: nat, k: nat)
    requires IsRun(states, steps) && i <= k < |states| && Lost(states[i])
    ensures Lost(states[k])
  {
    if i < k {
      LostForGood(states, steps, i, k - 1);
      assert Enabled(states[k - 1], steps[k - 1]) && states[k - 1 + 1] == Next(states[k - 1], steps[k - 1]);
    }
  }

  /** A `regen` that has not cleared the directory still has the stamp it started with. */
  ghost predicate StampKept(s: State) {
    Busy(s.run) && !s.run.isNew ==>
      && s.disk.Some?
      && (!(s.run.Cleared? || s.run.Generated?) ==> HasStamp(s.disk.value))
  }

  lemma {:induction false} RegenKeepsStamp(states: seq<State>, steps: seq<Step>, i: nat)
    requires IsRun(states, steps) && i < |states|
    ensures StampKept(states[i])
  {
    if i > 0 {
      RegenKeepsStamp(states, steps, i - 1);
      assert Enabled(states[i - 1], steps[i - 1]) && states[i - 1 + 1] == Next(states[i - 1], steps[i - 1]);
    }
  }

  /**
   A `regen` that fails is lost for good exactly if it fails after it has cleared the
   directory and before it has stamped it; otherwise it can be repeated at once, as long
   as there is an interface file.
   */
  lemma FailedRegenIsLost(states: seq<State>, steps: seq<Step>, i: nat)
    requires IsRun(states, steps) && i < |steps|
    requires steps[i].Fail? && !states[i].run.isNew
    ensures var cleared := states[i].run.Cleared? || states[i].run.Generated?;
            && (cleared <==> forall k :: i < k < |states| ==> Lost(states[k]))
            && states[i + 1].disk.Some? && (cleared <==> !HasStamp(states[i + 1].disk.value))
            && (Enabled(states[i + 1], RegenStart) <==> !cleared && states[i + 1].disk.value.wit.Some?)
  {
    RunKeepsInv(states, steps, i);
    RegenKeepsStamp(states, steps, i);
    assert Enabled(states[i], steps[i]) && states[i + 1] == Next(states[i], steps[i]);
    assert states[i + 1].run.Idle?;
    if states[i].run.Cleared? || states[i].run.Generated? {
      forall k | i < k < |states| ensures Lost(states[k]) {
        LostForGood(states, steps, i + 1, k);
      }
    }
  }

  /** A run goes on with any step its last state allows. */
  lemma Extend(states: seq<State>, steps: seq<Step>, step: Step) returns (more: seq<State>)
    requires IsRun(states, steps) && Enabled(states[|steps|], step)
    ensures IsRun(more, steps + [step]) && more[..|states|] == states
    ensures more[|steps| + 1] == Next(states[|steps|], step)
  {
    more := states + [Next(states[|steps|], step)];
    var longer := steps + [step];
    forall i | 0 <= i < |longer| ensures Enabled(more[i], longer[i]) && more[i + 1] == Next(more[i], longer[i]) {
      if i < |steps| {
        assert Enabled(states[i], steps[i]) && states[i + 1] == Next(states[i], steps[i]);
      }
    }
  }

  /** A run that makes a project. */
  lemma ProjectCanBeMade(w: Source) returns (states: seq<State>, steps: seq<Step>)
    ensures IsRun(states, steps)
    ensures states[|steps|] == State(Some(Disk(Some(w), Some(Gen(Complete(w), Some(Digest(w)))))), Idle)
  {
    hide IsRun;
    states, steps := [State(None, Idle)], [];
    RunStart(states);
    states := Extend(states, steps, NewStart(w));
    steps := steps + [NewStart(w)];
    states := Extend(states, steps, Load);
    steps := steps + [Load];
    states := Extend(states, steps, ReadForHash);
    steps := steps + [ReadForHash];
    states := Extend(states, steps, Clear(true));
    steps := steps + [Clear(true)];
    states := Extend(states, steps, Generate(true));
    steps := steps + [Generate(true)];
    states := Extend(states, steps, WriteStamp);
    steps := steps + [WriteStamp];
    states := Extend(states, steps, Finish);
    steps := steps + [Finish];
  }

  lemma RunStart(states: seq<State>)
    requires |states| == 1 && Initial(states[0])
    ensures IsRun(states, [])
  {
  }

  /** A run that reaches such a failure: `regen` of a fresh project clears the directory and then fails. */
  lemma RegenCanBeLost(w: Source) returns (states: seq<State>, steps: seq<Step>, i: nat)
    ensures IsRun(states, steps) && i == |steps| - 1
    ensures steps[i] == Fail(false) && states[i].run.Cleared? && !states[i].run.isNew && Lost(states[i + 1])
    ensures i >= 4 && steps[i - 4] == RegenStart && states[i - 4].disk.Some?
    ensures Fresh(states[i - 4].disk.value) && Honest(states[i - 4].disk.value)
  {
    hide IsRun;
    states, steps := ProjectCanBeMade(w);
    var n := |steps|;
    RunLength(states, steps);
    var made := states;
    states := Extend(states, steps, RegenStart);
    steps := steps + [RegenStart];
    states := Extend(states, steps, Load);
    steps := steps + [Load];
    states := Extend(states, steps, ReadForHash);
    steps := steps + [ReadForHash];
    states := Extend(states, steps, Clear(true));
    steps := steps + [Clear(true)];
    RunLength(states, steps);
    var cleared := states;
    i := |steps|;
    states := Extend(states, steps, Fail(false));
    steps := steps + [Fail(false)];
    assert states[i] == cleared[i];
    assert states[n] == states[..n + 1][n] == made[n];
  }

  lemma RunLength(states: seq<State>, steps: seq<Step>)
    requires IsRun(states, steps)
    ensures |states| == |steps| + 1
  {
  }

  // ---------------------------------------------------------------------------
  // rewrite_gen
  // ---------------------------------------------------------------------------

  /** The steps that statements make of which number `failing` is the one that fails, if it is reached. */
  function RewriteSteps(hasWit: bool, hasGen: bool, failing: nat): seq<Step> {
    if !hasWit || failing == 0 then []
    else if failing == 1 && hasGen then [ReadForHash]
    else if failing <= 2 then [ReadForHash, Clear(false)]
    else if failing == 3 then [ReadForHash, Clear(true)]
    else if failing == 4 then [ReadForHash, Clear(true), Generate(false)]
    else if failing == 5 then [ReadForHash, Clear(true), Generate(true)]
    else [ReadForHash, Clear(true), Generate(true), WriteStamp]
  }

  ghost predicate Applies(s: State, steps: seq<Step>)
    decreases |steps|
  {
    steps != [] ==> Enabled(s, steps[0]) && Applies(Next(s, steps[0]), steps[1..])
  }

  ghost function After(s: State, steps: seq<Step>): State
    requires Applies(s, steps)
    decreases |steps|
  {
    if steps == [] then s else After(Next(s, steps[0]), steps[1..])
  }

  /** What the steps leave behind. */
  function Rewritten(d: Disk, loaded: Source, failing: nat): Disk {
    if d.wit.None? || failing == 0 || (failing == 1 && d.gen.Some?) then d
    else if failing <= 2 then d.(gen := None)
    else if failing <= 4 then d.(gen := Some(Gen(Incomplete, None)))
    else if failing == 5 then d.(gen := Some(Gen(Complete(loaded), None)))
    else d.(gen := Some(Gen(Complete(loaded), Some(Digest(d.wit.value)))))
  }

  lemma StepThen(s: State, step: Step, rest: seq<Step>)
    requires Enabled(s, step) && Applies(Next(s, step), rest)
    ensures Applies(s, [step] + rest) && After(s, [step] + rest) == After(Next(s, step), rest)
  {
    hide Enabled;
    hide Next;
    assert ([step] + rest)[0] == step && ([step] + rest)[1..] == rest;
  }

  lemma RewriteFollows(d: Disk, loaded: Source, failing: nat)
    ensures var start := State(Some(d), Loaded(loaded, false));
            var steps := RewriteSteps(d.wit.Some?, d.gen.Some?, failing);
            Applies(start, steps) && After(start, steps).disk == Some(Rewritten(d, loaded, failing))
  {
    if d.wit.Some? && failing > 0 {
      var s0 := State(Some(d), Loaded(loaded, false));
      var s1 := Next(s0, ReadForHash);
      if failing == 1 && d.gen.Some? {
        StepThen(s0, ReadForHash, []);
      } else {
        var made := failing > 2;
        var s2 := Next(s1, Clear(made));
        var rest: seq<Step> := [];
        if failing == 4 {
          StepThen(s2, Generate(false), []);
          rest := [Generate(false)];
        } else if failing == 5 {
          StepThen(s2, Generate(true), []);
          rest := [Generate(true)];
        } else if failing > 5 {
          StepThen(Next(s2, Generate(true)), WriteStamp, []);
          StepThen(s2, Generate(true), [WriteStamp]);
          rest := [Generate(true), WriteStamp];
          assert [Generate(true)] + [WriteStamp] == rest;
        }
        StepThen(s1, Clear(made), rest);
        StepThen(s0, ReadForHash, [Clear(made)] + rest);
        assert [ReadForHash] + ([Clear(made)] + rest) == RewriteSteps(true, d.gen.Some?, failing);
      }
    }
  }

  /** A project directory that is written to. */
  class Project {
    var wit: Option<Source>
    var gen: Option<Gen>

    constructor (wit: Option<Source>, gen: Option<Gen>)
      ensures this.wit == wit && this.gen == gen
    {
      this.wit := wit;
      this.gen := gen;
    }

    ghost function OnDisk(): Disk
      reads this
    {
      Disk(wit, gen)
    }

    /**
     The statements of `rewrite_gen` in order; statement `failing` is the one that
     fails, if it is reached. Whatever happens, no stamp is left over output that is
     not complete.
     */
    method RewriteGen(loaded: Source, failing: nat) returns (ok: bool)
      requires Stamps(OnDisk())
      modifies this
      ensures wit == old(wit)
      ensures ok <==> old(wit).Some? && failing > 5
      ensures ok ==> gen == Some(Gen(Complete(loaded), Some(Digest(wit.value))))
      ensures !ok && wit.Some? && failing == 5 ==> gen == Some(Gen(Complete(loaded), None))
      ensures !ok && (wit.None? || failing <= 1) ==> gen == old(gen)
      ensures !ok && wit.Some? && failing > 1 ==> gen.None? || gen.value.stamp.None?
      ensures Stamps(OnDisk())
      ensures ok ==> (Honest(OnDisk()) <==> wit == Some(loaded))
      ensures !ok && old(Honest(OnDisk())) ==> Honest(OnDisk())
      ensures var start := State(Some(old(OnDisk())), Loaded(loaded, false));
              var steps := RewriteSteps(old(wit).Some?, old(gen).Some?, failing);
              Applies(start, steps) && After(start, steps).disk == Some(OnDisk())
    {
      RewriteFollows(OnDisk(), loaded, failing);
      if wit.None? || failing == 0 {
        return false;
      }
      var bytes := wit.value;
      if gen.Some? {
        if failing == 1 {
          return false;
        }
        gen := None;
      }
      if failing <= 2 {
        return false;
      }
      gen := Some(Gen(Incomplete, None));
      if failing == 3 {
        return false;
      }
      if failing == 4 {
        return false;
      }
      gen := Some(Gen(Complete(loaded), None));
      if failing == 5 {
        return false;
      }
      gen := Some(Gen(Complete(loaded), Some(Digest(bytes))));
      return true;
    }
  }
}
