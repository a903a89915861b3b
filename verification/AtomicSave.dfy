// Concurrent savers of the configuration in src/state.py.  `_save_config` takes no
// lock of its own: any number of threads can be inside it, each first sealing the
// protected part into the vault's sidecar, then writing the public document to a
// temporary file of its own and renaming that over the primary file, or, when that
// fails, doing the same with the fallback file.  The process can die between any two
// steps, or in the middle of a write; saves that had not begun are then made by a
// later process, among whatever the dead one left behind.
module AtomicSave {
  import opened Wrappers

  datatype Target = Primary | Fallback

  /** One call of `_save_config`: the protected part it seals, the text it writes and
      the random names of its temporary files. */
  datatype Saver = Saver(secret: string, text: string, temporary: Target -> string)

  datatype Progress =
    | Idle
    | Ready(to: Target)              // about to create the temporary file
    | Writing(to: Target, done: nat)
    | Renamed(to: Target)
    | Failed(to: Target)
    | Finished

  /** The files, and how far each saver is. */
  datatype State = State(
    files: map<Target, string>, sidecar: Option<string>, temporaries: map<string, string>, at: seq<Progress>)

  datatype Step =
    | Seal(i: nat)                          // vault.encrypt_json
    | SkipSeal(i: nat)                      // vault locked or not configured
    | Open(i: nat, to: Target)              // the temporary file appears, empty
    | OpenFails(i: nat, to: Target)         // an OSError before it does
    | Write(i: nat, to: Target, n: nat)     // the next n characters reach the file
    | Rename(i: nat, to: Target)            // os.replace
    | Fail(i: nat, to: Target)              // an OSError while writing or renaming
    | Unlink(i: nat, to: Target)            // the finally clause
    | UnlinkFails(i: nat, to: Target)       // an OSError in it, which is swallowed
    | Crash                                 // every saver at work is gone; the files stay

  function NameOf(savers: seq<Saver>, i: nat, to: Target): string
    requires i < |savers|
  {
    savers[i].temporary(to)
  }

  /** Temporary names are drawn at random: all are different, and none is on disk. */
  ghost predicate FreshNames(savers: seq<Saver>, leftover: map<string, string>) {
    && (forall i, to, j, to' :: 0 <= i < |savers| && 0 <= j < |savers| && (i, to) != (j, to') ==>
          NameOf(savers, i, to) != NameOf(savers, j, to'))
    && (forall i, to :: 0 <= i < |savers| ==> NameOf(savers, i, to) !in leftover)
  }

  /** Any files to begin with, leftovers of earlier crashes among them. */
  function Start(savers: seq<Saver>, files: map<Target, string>, sidecar: Option<string>,
                 leftover: map<string, string>): State
  {
    State(files, sidecar, leftover, seq(|savers|, i => Idle))
  }

  predicate Enabled(savers: seq<Saver>, s: State, e: Step) {
    |s.at| == |savers| &&
    match e
    case Crash => true
    case Seal(i) => i < |s.at| && s.at[i] == Idle
    case SkipSeal(i) => i < |s.at| && s.at[i] == Idle
    case Open(i, to) => i < |s.at| && s.at[i] == Ready(to)
    case OpenFails(i, to) => i < |s.at| && s.at[i] == Ready(to)
    case Write(i, to, n) =>
      i < |s.at| && s.at[i].Writing? && s.at[i].to == to && s.at[i].done + n <= |savers[i].text|
      && NameOf(savers, i, to) in s.temporaries
    case Rename(i, to) =>
      i < |s.at| && s.at[i] == Writing(to, |savers[i].text|) && NameOf(savers, i, to) in s.temporaries
    case Fail(i, to) => i < |s.at| && s.at[i].Writing? && s.at[i].to == to
    case Unlink(i, to) => i < |s.at| && (s.at[i] == Renamed(to) || s.at[i] == Failed(to))
    case UnlinkFails(i, to) => i < |s.at| && (s.at[i] == Renamed(to) || s.at[i] == Failed(to))
  }

  /** After a failed primary write the fallback file is tried, after any other end of
      the finally clause the save is over. */
  function AfterUnlink(p: Progress): Progress {
    if p == Failed(Primary) then Ready(Fallback) else Finished
  }

  function Next(savers: seq<Saver>, s: State, e: Step): State
    requires Enabled(savers, s, e)
  {
    match e
    case Crash => s.(at := seq(|s.at|, i requires 0 <= i < |s.at| => if s.at[i] == Idle then Idle else Finished))
    case Seal(i) => s.(sidecar := Some(savers[i].secret), at := s.at[i := Ready(Primary)])
    case SkipSeal(i) => s.(at := s.at[i := Ready(Primary)])
    case Open(i, to) =>
      s.(temporaries := s.temporaries[NameOf(savers, i, to) := ""], at := s.at[i := Writing(to, 0)])
    case OpenFails(i, to) => s.(at := s.at[i := AfterUnlink(Failed(to))])
    case Write(i, to, n) =>
      var name, done := NameOf(savers, i, to), s.at[i].done;
      s.(temporaries := s.temporaries[name := s.temporaries[name] + savers[i].text[done..done + n]],
         at := s.at[i := Writing(to, done + n)])
    case Rename(i, to) =>
      s.(files := s.files[to := s.temporaries[NameOf(savers, i, to)]],
         temporaries := s.temporaries - {NameOf(savers, i, to)},
         at := s.at[i := Renamed(to)])
    case Fail(i, to) => s.(at := s.at[i := Failed(to)])
    case Unlink(i, to) =>
      s.(temporaries := s.temporaries - {NameOf(savers, i, to)}, at := s.at[i := AfterUnlink(s.at[i])])
    case UnlinkFails(i, to) => s.(at := s.at[i := AfterUnlink(s.at[i])])
  }

  /** How a save goes on after an error: the fallback file is tried after the primary one
      failed to open, to be written or to be renamed, whether or not its temporary file
      can be removed; after the fallback file nothing is. No file but the temporary one
      changes on the way. */
  lemma AfterErrors(savers: seq<Saver>, s: State, i: nat, to: Target)
    requires |s.at| == |savers| && i < |savers|
    ensures s.at[i] == Ready(to) ==>
              && Enabled(savers, s, OpenFails(i, to))
              && Next(savers, s, OpenFails(i, to)) ==
                 s.(at := s.at[i := if to.Primary? then Ready(Fallback) else Finished])
    ensures s.at[i] == Failed(to) ==>
              && Enabled(savers, s, Unlink(i, to)) && Enabled(savers, s, UnlinkFails(i, to))
              && Next(savers, s, UnlinkFails(i, to)) ==
                 s.(at := s.at[i := if to.Primary? then Ready(Fallback) else Finished])
              && Next(savers, s, Unlink(i, to)) ==
                 Next(savers, s, UnlinkFails(i, to)).(temporaries := s.temporaries - {savers[i].temporary(to)})
    ensures s.at[i] == Renamed(to) ==>
              && Enabled(savers, s, Unlink(i, to)) && Next(savers, s, Unlink(i, to)).at[i] == Finished
              && Enabled(savers, s, UnlinkFails(i, to)) && Next(savers, s, UnlinkFails(i, to)).at[i] == Finished
  {
  }

  /** The process can die at any time: savers that had begun are gone, the files stay. */
  lemma AfterCrash(savers: seq<Saver>, s: State, i: nat)
    requires |s.at| == |savers| && i < |savers|
    ensures Enabled(savers, s, Crash)
    ensures var after := Next(savers, s, Crash);
            && after.files == s.files && after.sidecar == s.sidecar && after.temporaries == s.temporaries
            && |after.at| == |s.at| && after.at[i] == if s.at[i].Idle? then Idle else Finished
  {
  }

  /** The state after a sequence of steps, if each of them can happen in its turn. */
  function After(savers: seq<Saver>, from: State, steps: seq<Step>): Option<State> {
    if steps == [] then Some(from)
    else
      var mid := After(savers, from, steps[..|steps| - 1]);
      var e := steps[|steps| - 1];
      if mid.Some? && Enabled(savers, mid.value, e) then Some(Next(savers, mid.value, e)) else None
  }

  /** The saver whose rename over `to` came last, and the one whose sealing did. */
  function LastRename(steps: seq<Step>, to: Target): Option<nat> {
    if steps == [] then None
    else
      var e := steps[|steps| - 1];
      if e.Rename? && e.to == to then Some(e.i) else LastRename(steps[..|steps| - 1], to)
  }

  function LastSeal(steps: seq<Step>): Option<nat> {
    if steps == [] then None
    else if steps[|steps| - 1].Seal? then Some(steps[|steps| - 1].i)
    else LastSeal(steps[..|steps| - 1])
  }

  // ---------- every file is whole ----------

  /** Whatever the others do, a writing saver's temporary file holds what it wrote. */
  ghost predicate OwnText(savers: seq<Saver>, s: State) {
    && |s.at| == |savers|
    && forall i :: 0 <= i < |savers| && s.at[i].Writing? ==>
         && s.at[i].done <= |savers[i].text|
         && NameOf(savers, i, s.at[i].to) in s.temporaries
         && s.temporaries[NameOf(savers, i, s.at[i].to)] == savers[i].text[..s.at[i].done]
  }

  lemma StepKeepsOwnText(savers: seq<Saver>, leftover: map<string, string>, s: State, e: Step)
    requires FreshNames(savers, leftover) && OwnText(savers, s) && Enabled(savers, s, e)
    ensures OwnText(savers, Next(savers, s, e))
  {
    if e.Write? {
      var done, text := s.at[e.i].done, savers[e.i].text;
      assert text[..done] + text[done..done + e.n] == text[..done + e.n];
    }
  }

  function Content(files: map<Target, string>, to: Target): Option<string> {
    if to in files then Some(files[to]) else None
  }

  function TextOf(savers: seq<Saver>, i: Option<nat>, original: Option<string>): Option<string> {
    if i.Some? && i.value < |savers| then Some(savers[i.value].text) else original
  }

  function SecretOf(savers: seq<Saver>, i: Option<nat>, original: Option<string>): Option<string> {
    if i.Some? && i.value < |savers| then Some(savers[i.value].secret) else original
  }

  /** Safety over every interleaving, with failures and crashes after any steps and
      saves after the crashes: each of the two files is the original or the complete
      text of the saver that renamed over it last, and the sidecar is the original or
      the complete part of the saver that sealed last. */
  lemma {:induction false} FilesAreWhole(savers: seq<Saver>, files: map<Target, string>, sidecar: Option<string>,
                                         leftover: map<string, string>, steps: seq<Step>, to: State)
    requires FreshNames(savers, leftover)
    requires After(savers, Start(savers, files, sidecar, leftover), steps) == Some(to)
    ensures OwnText(savers, to)
    ensures forall t: Target :: Content(to.files, t) == TextOf(savers, LastRename(steps, t), Content(files, t))
    ensures to.sidecar == SecretOf(savers, LastSeal(steps), sidecar)
  {
    if steps != [] {
      var n := |steps| - 1;
      var mid := After(savers, Start(savers, files, sidecar, leftover), steps[..n]).value;
      FilesAreWhole(savers, files, sidecar, leftover, steps[..n], mid);
      StepKeepsOwnText(savers, leftover, mid, steps[n]);
      if steps[n].Rename? {
        var text := savers[steps[n].i].text;
        assert text[..|text|] == text;
      }
    }
  }

  // ---------- what the next load sees ----------

  /** `_load_config`: the primary file if it can be parsed, else the fallback. */
  function Loaded(files: map<Target, string>, readable: string -> bool): Option<string> {
    if Primary in files && readable(files[Primary]) then Some(files[Primary])
    else if Fallback in files && readable(files[Fallback]) then Some(files[Fallback])
    else None
  }

  /** The last save of a run that got through, and where it went. */
  function LastSaved(steps: seq<Step>): Option<(nat, Target)> {
    if steps == [] then None
    else
      var e := steps[|steps| - 1];
      if e.Rename? then Some((e.i, e.to)) else LastSaved(steps[..|steps| - 1])
  }

  lemma {:induction false} LastSavedIsLastRename(steps: seq<Step>)
    requires LastSaved(steps).Some?
    ensures LastRename(steps, LastSaved(steps).value.1) == Some(LastSaved(steps).value.0)
  {
    if !steps[|steps| - 1].Rename? {
      LastSavedIsLastRename(steps[..|steps| - 1]);
    }
  }

  lemma {:induction false} RenamedBySomeone(savers: seq<Saver>, from: State, steps: seq<Step>, t: Target)
    requires After(savers, from, steps).Some? && LastRename(steps, t).Some?
    ensures LastRename(steps, t).value < |savers|
  {
    var n := |steps| - 1;
    if !(steps[n].Rename? && steps[n].to == t) {
      RenamedBySomeone(savers, from, steps[..n], t);
    }
  }

  /** In every interleaving, whatever failed or crashed: a load returns the document of
      the save that got through last exactly when that went to the primary file, or
      there is no other readable primary file. */
  lemma LoadSeesLastSavedIff(savers: seq<Saver>, files: map<Target, string>, sidecar: Option<string>,
                             leftover: map<string, string>, steps: seq<Step>, to: State, readable: string -> bool)
    requires FreshNames(savers, leftover) && forall i :: 0 <= i < |savers| ==> readable(savers[i].text)
    requires After(savers, Start(savers, files, sidecar, leftover), steps) == Some(to)
    requires LastSaved(steps).Some?
    ensures LastSaved(steps).value.0 < |savers|
    ensures var (last, t) := LastSaved(steps).value;
            Loaded(to.files, readable) == Some(savers[last].text) <==>
            || t == Primary
            || (LastRename(steps, Primary).None? && !(Primary in files && readable(files[Primary])))
            || (Primary in to.files && to.files[Primary] == savers[last].text)
  {
    var (last, t) := LastSaved(steps).value;
    FilesAreWhole(savers, files, sidecar, leftover, steps, to);
    LastSavedIsLastRename(steps);
    RenamedBySomeone(savers, Start(savers, files, sidecar, leftover), steps, t);
    assert Content(to.files, t) == Some(savers[last].text);
    assert Content(to.files, Primary) == TextOf(savers, LastRename(steps, Primary), Content(files, Primary));
    if LastRename(steps, Primary).Some? {
      RenamedBySomeone(savers, Start(savers, files, sidecar, leftover), steps, Primary);
    }
  }

  // ---------- whether both parts come from one save ----------

  lemma {:induction false} SealedBySomeone(savers: seq<Saver>, from: State, steps: seq<Step>)
    requires After(savers, from, steps).Some? && LastSeal(steps).Some?
    ensures LastSeal(steps).value < |savers|
  {
    var n := |steps| - 1;
    if !steps[n].Seal? {
      SealedBySomeone(savers, from, steps[..n]);
    }
  }

  /** No two saves have the same protected part or the same text. */
  ghost predicate TellApart(savers: seq<Saver>) {
    forall i, j :: 0 <= i < j < |savers| ==> savers[i].secret != savers[j].secret && savers[i].text != savers[j].text
  }

  /** The sidecar and the primary file are the two parts of one save. */
  ghost predicate PartsOfOneSave(savers: seq<Saver>, s: State) {
    exists i :: 0 <= i < |savers| && s.sidecar == Some(savers[i].secret)
                && Content(s.files, Primary) == Some(savers[i].text)
  }

  /** In any run that sealed and replaced the primary file at all: exactly when the two
      parts come from one save. */
  lemma PartsOfOneSaveIff(savers: seq<Saver>, files: map<Target, string>, sidecar: Option<string>,
                          leftover: map<string, string>, steps: seq<Step>, to: State)
    requires FreshNames(savers, leftover) && TellApart(savers)
    requires After(savers, Start(savers, files, sidecar, leftover), steps) == Some(to)
    requires LastSeal(steps).Some? && LastRename(steps, Primary).Some?
    ensures PartsOfOneSave(savers, to) <==> LastSeal(steps) == LastRename(steps, Primary)
  {
    var from := Start(savers, files, sidecar, leftover);
    FilesAreWhole(savers, files, sidecar, leftover, steps, to);
    SealedBySomeone(savers, from, steps);
    RenamedBySomeone(savers, from, steps, Primary);
    var sealer, renamer := LastSeal(steps).value, LastRename(steps, Primary).value;
    assert to.sidecar == Some(savers[sealer].secret);
    assert Content(to.files, Primary) == Some(savers[renamer].text);
  }

  predicate Busy(s: State, i: nat)
    requires i < |s.at|
  {
    !s.at[i].Idle? && !s.at[i].Finished?
  }

  ghost predicate AllQuiet(s: State) {
    forall i :: 0 <= i < |s.at| ==> !Busy(s, i)
  }

  /** A step of a save that seals and in which no write fails; a swallowed failure to
      remove the temporary file does no harm. */
  predicate Smooth(e: Step) {
    e.Seal? || e.Unlink? || e.UnlinkFails? || ((e.Open? || e.Write? || e.Rename?) && e.to == Primary)
  }

  /** Each saver starts only while all others have not begun or are done. */
  ghost predicate OneAtATime(savers: seq<Saver>, from: State, steps: seq<Step>) {
    steps == [] ||
    var n := |steps| - 1;
    && OneAtATime(savers, from, steps[..n]) && Smooth(steps[n])
    && (steps[n].Seal? ==> After(savers, from, steps[..n]).Some? && AllQuiet(After(savers, from, steps[..n]).value))
  }

  /** The saver at work sealed last; from its rename on, and between saves, the saver
      that sealed last has also renamed last. */
  ghost predicate InStep(s: State, seal: Option<nat>, rename: Option<nat>) {
    && (forall i :: 0 <= i < |s.at| && Busy(s, i) ==>
          && seal == Some(i) && s.at[i].to == Primary && !s.at[i].Failed?
          && (s.at[i].Renamed? ==> rename == Some(i)))
    && (AllQuiet(s) ==> seal == rename)
  }

  lemma StepInStep(savers: seq<Saver>, s: State, e: Step, seal: Option<nat>, rename: Option<nat>)
    requires Enabled(savers, s, e) && Smooth(e) && InStep(s, seal, rename)
    requires e.Seal? ==> AllQuiet(s)
    ensures InStep(Next(savers, s, e), if e.Seal? then Some(e.i) else seal,
                   if e.Rename? then Some(e.i) else rename)
  {
    var s' := Next(savers, s, e);
    var seal' := if e.Seal? then Some(e.i) else seal;
    var rename' := if e.Rename? then Some(e.i) else rename;
    assert !e.Seal? ==> Busy(s, e.i);
    forall i | 0 <= i < |s'.at| && Busy(s', i)
      ensures seal' == Some(i) && s'.at[i].to == Primary && !s'.at[i].Failed?
      ensures s'.at[i].Renamed? ==> rename' == Some(i)
    {
      assert i != e.i ==> s'.at[i] == s.at[i] && Busy(s, i);
    }
    assert Busy(s', e.i) || s'.at[e.i] == Finished;
  }

  lemma {:induction false} OneAtATimeInStep(savers: seq<Saver>, files: map<Target, string>, sidecar: Option<string>,
                                            leftover: map<string, string>, steps: seq<Step>, to: State)
    requires After(savers, Start(savers, files, sidecar, leftover), steps) == Some(to)
    requires OneAtATime(savers, Start(savers, files, sidecar, leftover), steps)
    ensures InStep(to, LastSeal(steps), LastRename(steps, Primary))
  {
    if steps != [] {
      var n := |steps| - 1;
      var mid := After(savers, Start(savers, files, sidecar, leftover), steps[..n]).value;
      OneAtATimeInStep(savers, files, sidecar, leftover, steps[..n], mid);
      StepInStep(savers, mid, steps[n], LastSeal(steps[..n]), LastRename(steps[..n], Primary));
    }
  }

  /** What callers can rely on: saves that do not overlap, and in which no write fails,
      always leave the two parts of one save. */
  lemma SerialSavesTogether(savers: seq<Saver>, files: map<Target, string>, sidecar: Option<string>,
                            leftover: map<string, string>, steps: seq<Step>, to: State)
    requires FreshNames(savers, leftover) && steps != []
    requires After(savers, Start(savers, files, sidecar, leftover), steps) == Some(to)
    requires OneAtATime(savers, Start(savers, files, sidecar, leftover), steps) && AllQuiet(to)
    ensures LastSeal(steps).Some? && LastSeal(steps) == LastRename(steps, Primary)
    ensures PartsOfOneSave(savers, to)
  {
    var from := Start(savers, files, sidecar, leftover);
    OneAtATimeInStep(savers, files, sidecar, leftover, steps, to);
    SomeoneSealed(savers, from, steps, to);
    FilesAreWhole(savers, files, sidecar, leftover, steps, to);
    SealedBySomeone(savers, from, steps);
    var last := LastSeal(steps).value;
    assert Content(to.files, Primary) == TextOf(savers, LastRename(steps, Primary), Content(files, Primary));
    assert to.sidecar == Some(savers[last].secret) && Content(to.files, Primary) == Some(savers[last].text);
  }

  /** The first step of such a run is a sealing, for nobody else has begun. */
  lemma {:induction false} SomeoneSealed(savers: seq<Saver>, from: State, steps: seq<Step>, to: State)
    requires After(savers, from, steps) == Some(to) && OneAtATime(savers, from, steps)
    requires AllQuiet(from) && steps != []
    ensures LastSeal(steps).Some?
  {
    var n := |steps| - 1;
    if n > 0 {
      SomeoneSealed(savers, from, steps[..n], After(savers, from, steps[..n]).value);
    } else {
      assert steps[..n] == [];
      assert steps[n].Seal? || Busy(from, steps[n].i);
    }
  }

  // ---------- temporary files ----------

  /** What a saver has done about one of its temporary files. */
  datatype Trace = Trace(created: bool, renamed: bool, failed: bool, removed: bool, stuck: bool)

  const UNTOUCHED := Trace(false, false, false, false, false)

  function TraceOf(steps: seq<Step>, i: nat, to: Target): Trace {
    Trace(Open(i, to) in steps, Rename(i, to) in steps, Fail(i, to) in steps,
          Unlink(i, to) in steps, UnlinkFails(i, to) in steps)
  }

  /** The temporary file for `to` is still to come. */
  predicate NotYet(p: Progress, to: Target) {
    p == Idle || p == Ready(to) || (to == Fallback && !p.Finished? && p.to == Primary)
  }

  /** What the progress of a saver says about its steps; nothing once it was killed. */
  predicate Fits(p: Progress, to: Target, t: Trace, crashed: bool) {
    if NotYet(p, to) then t == UNTOUCHED
    else if p.Writing? && p.to == to then t == UNTOUCHED.(created := true)
    else if p == Renamed(to) then t == UNTOUCHED.(created := true, renamed := true)
    else if p == Failed(to) then t == UNTOUCHED.(created := true, failed := true)
    else crashed || t == UNTOUCHED || (t.created && t.renamed != t.failed && t.removed != t.stuck)
  }

  /** The step is about saver `i` and its temporary file for `to`. */
  predicate Concerns(e: Step, i: nat, to: Target) {
    !e.Crash? && !e.Seal? && !e.SkipSeal? && e.i == i && e.to == to
  }

  /** One more step in a trace. */
  function Traced(t: Trace, e: Step, i: nat, to: Target): Trace {
    t.(created := t.created || e == Open(i, to), renamed := t.renamed || e == Rename(i, to),
       failed := t.failed || e == Fail(i, to), removed := t.removed || e == Unlink(i, to),
       stuck := t.stuck || e == UnlinkFails(i, to))
  }

  lemma TraceSnoc(steps: seq<Step>, e: Step, i: nat, to: Target)
    ensures TraceOf(steps + [e], i, to) == Traced(TraceOf(steps, i, to), e, i, to)
    ensures Crash in steps + [e] <==> Crash in steps || e == Crash
    ensures !Concerns(e, i, to) ==> Traced(TraceOf(steps, i, to), e, i, to) == TraceOf(steps, i, to)
  {
  }

  lemma OwnStepFits(savers: seq<Saver>, s: State, e: Step, i: nat, to: Target, t: Trace, crashed: bool)
    requires Enabled(savers, s, e) && i < |savers| && Fits(s.at[i], to, t, crashed) && Concerns(e, i, to)
    ensures Fits(Next(savers, s, e).at[i], to, Traced(t, e, i, to), crashed)
  {
  }

  lemma BystanderStays(savers: seq<Saver>, s: State, e: Step, i: nat)
    requires Enabled(savers, s, e) && i < |savers| && (e.Crash? || e.i != i)
    ensures Next(savers, s, e).at[i] == if e.Crash? && s.at[i] != Idle then Finished else s.at[i]
  {
  }

  /** Where a saver's own step takes it. */
  lemma OwnProgress(savers: seq<Saver>, s: State, e: Step, i: nat, to: Target)
    requires Enabled(savers, s, e) && i < |savers| && !e.Crash? && e.i == i && !Concerns(e, i, to)
    ensures var p, p' := s.at[i], Next(savers, s, e).at[i];
            if p == Idle then p' == Ready(Primary)
            else !p.Finished? && p.to != to
                 && (p'.Finished? || p'.to == p.to || (p.to == Primary && p' == Ready(Fallback)))
  {
  }

  lemma OtherStepFits(savers: seq<Saver>, s: State, e: Step, i: nat, to: Target, t: Trace, crashed: bool)
    requires Enabled(savers, s, e) && i < |savers| && Fits(s.at[i], to, t, crashed) && !Concerns(e, i, to)
    ensures Fits(Next(savers, s, e).at[i], to, t, crashed || e == Crash)
  {
    if e.Crash? || e.i != i {
      BystanderStays(savers, s, e, i);
    } else {
      OwnProgress(savers, s, e, i, to);
    }
  }

  lemma StepFits(savers: seq<Saver>, s: State, steps: seq<Step>, e: Step, i: nat, to: Target)
    requires Enabled(savers, s, e) && i < |savers| && Fits(s.at[i], to, TraceOf(steps, i, to), Crash in steps)
    ensures Fits(Next(savers, s, e).at[i], to, TraceOf(steps + [e], i, to), Crash in steps + [e])
  {
    if Concerns(e, i, to) {
      OwnStepFits(savers, s, e, i, to, TraceOf(steps, i, to), Crash in steps);
    } else {
      OtherStepFits(savers, s, e, i, to, TraceOf(steps, i, to), Crash in steps);
    }
    TraceSnoc(steps, e, i, to);
  }

  lemma {:induction false} TraceFits(savers: seq<Saver>, files: map<Target, string>, sidecar: Option<string>,
                                     leftover: map<string, string>, steps: seq<Step>, end: State, i: nat, to: Target)
    requires After(savers, Start(savers, files, sidecar, leftover), steps) == Some(end) && i < |savers|
    ensures |end.at| == |savers| && Fits(end.at[i], to, TraceOf(steps, i, to), Crash in steps)
  {
    if steps != [] {
      var n := |steps| - 1;
      var mid := After(savers, Start(savers, files, sidecar, leftover), steps[..n]).value;
      TraceFits(savers, files, sidecar, leftover, steps[..n], mid, i, to);
      StepFits(savers, mid, steps[..n], steps[n], i, to);
      assert steps == steps[..n] + [steps[n]];
    }
  }

  predicate TraceLeftOpen(t: Trace) {
    t.created && !t.renamed && !t.removed
  }

  lemma OwnStepOnFile(savers: seq<Saver>, s: State, e: Step, i: nat, to: Target, t: Trace, crashed: bool)
    requires Enabled(savers, s, e) && i < |savers| && Fits(s.at[i], to, t, crashed) && Concerns(e, i, to)
    requires NameOf(savers, i, to) in s.temporaries <==> TraceLeftOpen(t)
    ensures NameOf(savers, i, to) in Next(savers, s, e).temporaries <==> TraceLeftOpen(Traced(t, e, i, to))
  {
  }

  lemma OtherStepOnFile(savers: seq<Saver>, s: State, e: Step, name: string)
    requires Enabled(savers, s, e)
    requires e.Crash? || e.Seal? || e.SkipSeal? || NameOf(savers, e.i, e.to) != name
    ensures name in Next(savers, s, e).temporaries <==> name in s.temporaries
    ensures name in s.temporaries ==> Next(savers, s, e).temporaries[name] == s.temporaries[name]
  {
  }

  /** At any time of any run, crashes included: a saver's temporary file is there
      exactly when it was created and neither renamed nor removed. */
  lemma {:induction false} TemporaryIff(savers: seq<Saver>, files: map<Target, string>, sidecar: Option<string>,
                                        leftover: map<string, string>, steps: seq<Step>, end: State, i: nat, to: Target)
    requires FreshNames(savers, leftover) && i < |savers|
    requires After(savers, Start(savers, files, sidecar, leftover), steps) == Some(end)
    ensures NameOf(savers, i, to) in end.temporaries <==>
            Open(i, to) in steps && Rename(i, to) !in steps && Unlink(i, to) !in steps
  {
    if steps != [] {
      var n := |steps| - 1;
      var e := steps[n];
      var trace := TraceOf(steps[..n], i, to);
      var mid := After(savers, Start(savers, files, sidecar, leftover), steps[..n]).value;
      TemporaryIff(savers, files, sidecar, leftover, steps[..n], mid, i, to);
      TraceFits(savers, files, sidecar, leftover, steps[..n], mid, i, to);
      if Concerns(e, i, to) {
        OwnStepOnFile(savers, mid, e, i, to, trace, Crash in steps[..n]);
      } else {
        OtherStepOnFile(savers, mid, e, NameOf(savers, i, to));
        OtherStepFits(savers, mid, e, i, to, trace, Crash in steps[..n]);
      }
      assert steps == steps[..n] + [e];
      TraceSnoc(steps[..n], e, i, to);
      assert TraceLeftOpen(TraceOf(steps, i, to)) <==> NameOf(savers, i, to) in end.temporaries;
    }
  }

  ghost predicate IsTemporary(savers: seq<Saver>, name: string) {
    exists i, to :: 0 <= i < |savers| && NameOf(savers, i, to) == name
  }

  /** All other files in those directories stay as they are. */
  lemma {:induction false} OthersUntouched(savers: seq<Saver>, files: map<Target, string>, sidecar: Option<string>,
                                           leftover: map<string, string>, steps: seq<Step>, end: State, name: string)
    requires After(savers, Start(savers, files, sidecar, leftover), steps) == Some(end)
    requires !IsTemporary(savers, name)
    ensures name in end.temporaries <==> name in leftover
    ensures name in leftover ==> end.temporaries[name] == leftover[name]
  {
    if steps != [] {
      var n := |steps| - 1;
      var e := steps[n];
      var mid := After(savers, Start(savers, files, sidecar, leftover), steps[..n]).value;
      OthersUntouched(savers, files, sidecar, leftover, steps[..n], mid, name);
      OtherStepOnFile(savers, mid, e, name);
    }
  }

  /** Exactly what is left behind by a saver that came to its end without a crash: the
      file it failed to write or rename and then failed to remove, an error that
      `_atomic_write_text` swallows. */
  lemma LeftBehindIff(savers: seq<Saver>, files: map<Target, string>, sidecar: Option<string>,
                      leftover: map<string, string>, steps: seq<Step>, end: State, i: nat, to: Target)
    requires FreshNames(savers, leftover) && i < |savers|
    requires After(savers, Start(savers, files, sidecar, leftover), steps) == Some(end)
    requires Crash !in steps && |end.at| == |savers| && end.at[i] == Finished
    ensures NameOf(savers, i, to) in end.temporaries <==> Fail(i, to) in steps && UnlinkFails(i, to) in steps
  {
    TemporaryIff(savers, files, sidecar, leftover, steps, end, i, to);
    TraceFits(savers, files, sidecar, leftover, steps, end, i, to);
  }

  /** So without a crash, and when every removal works, nothing is left behind once
      every saver is done. */
  lemma NoTemporariesLeft(savers: seq<Saver>, files: map<Target, string>, sidecar: Option<string>,
                          leftover: map<string, string>, steps: seq<Step>, end: State)
    requires FreshNames(savers, leftover)
    requires After(savers, Start(savers, files, sidecar, leftover), steps) == Some(end)
    requires Crash !in steps && forall i, to :: UnlinkFails(i, to) !in steps
    requires |end.at| == |savers| && forall i :: 0 <= i < |savers| ==> end.at[i] == Finished
    ensures end.temporaries == leftover
  {
    forall name
      ensures name in end.temporaries <==> name in leftover
      ensures name in leftover ==> end.temporaries[name] == leftover[name]
    {
      if IsTemporary(savers, name) {
        var i, to :| 0 <= i < |savers| && NameOf(savers, i, to) == name;
        LeftBehindIff(savers, files, sidecar, leftover, steps, end, i, to);
      } else {
        OthersUntouched(savers, files, sidecar, leftover, steps, end, name);
      }
    }
  }

  // ---------- particular runs ----------

  lemma Extend(savers: seq<Saver>, from: State, steps: seq<Step>, mid: State, e: Step)
    returns (longer: seq<Step>, to: State)
    requires After(savers, from, steps) == Some(mid) && Enabled(savers, mid, e)
    ensures After(savers, from, longer) == Some(to) && to == Next(savers, mid, e)
    ensures Crash in longer <==> Crash in steps || e == Crash
  {
    longer, to := steps + [e], Next(savers, mid, e);
    assert longer[..|steps|] == steps;
  }

  /** A saver writes its whole temporary file for one target. */
  lemma Fill(savers: seq<Saver>, from: State, steps: seq<Step>, mid: State, i: nat, t: Target)
    returns (longer: seq<Step>, to: State)
    requires After(savers, from, steps) == Some(mid)
    requires |mid.at| == |savers| && i < |savers| && mid.at[i] == Ready(t)
    ensures After(savers, from, longer) == Some(to)
    ensures Crash in longer <==> Crash in steps
    ensures to == mid.(temporaries := mid.temporaries[NameOf(savers, i, t) := savers[i].text],
                       at := mid.at[i := Writing(t, |savers[i].text|)])
  {
    var e1, s1 := Extend(savers, from, steps, mid, Open(i, t));
    longer, to := Extend(savers, from, e1, s1, Write(i, t, |savers[i].text|));
    assert "" + savers[i].text[0..0 + |savers[i].text|] == savers[i].text;
  }

  /** A saver seals and writes its temporary file for the primary one. */
  lemma Prepare(savers: seq<Saver>, from: State, steps: seq<Step>, mid: State, i: nat)
    returns (longer: seq<Step>, to: State)
    requires After(savers, from, steps) == Some(mid)
    requires |mid.at| == |savers| && i < |savers| && mid.at[i] == Idle
    ensures After(savers, from, longer) == Some(to)
    ensures Crash in longer <==> Crash in steps
    ensures to == State(mid.files, Some(savers[i].secret),
                        mid.temporaries[NameOf(savers, i, Primary) := savers[i].text],
                        mid.at[i := Writing(Primary, |savers[i].text|)])
  {
    var e1, s1 := Extend(savers, from, steps, mid, Seal(i));
    longer, to := Fill(savers, from, e1, s1, i, Primary);
  }

  /** A saver renames and cleans up. */
  lemma Commit(savers: seq<Saver>, from: State, steps: seq<Step>, mid: State, i: nat, t: Target)
    returns (longer: seq<Step>, to: State)
    requires After(savers, from, steps) == Some(mid)
    requires |mid.at| == |savers| && i < |savers| && mid.at[i] == Writing(t, |savers[i].text|)
    requires NameOf(savers, i, t) in mid.temporaries && mid.temporaries[NameOf(savers, i, t)] == savers[i].text
    ensures After(savers, from, longer) == Some(to)
    ensures Crash in longer <==> Crash in steps
    ensures to == mid.(files := mid.files[t := savers[i].text],
                       temporaries := mid.temporaries - {NameOf(savers, i, t)}, at := mid.at[i := Finished])
  {
    var e1, s1 := Extend(savers, from, steps, mid, Rename(i, t));
    longer, to := Extend(savers, from, e1, s1, Unlink(i, t));
  }

  /** A saver that nobody interrupts leaves both its parts, from any state. */
  lemma UninterruptedSave(savers: seq<Saver>, from: State, steps: seq<Step>, mid: State, i: nat)
    returns (longer: seq<Step>, to: State)
    requires After(savers, from, steps) == Some(mid)
    requires |mid.at| == |savers| && i < |savers| && mid.at[i] == Idle
    ensures After(savers, from, longer) == Some(to)
    ensures to.files == mid.files[Primary := savers[i].text] && to.sidecar == Some(savers[i].secret)
    ensures |to.at| == |savers| && to.at[i] == Finished
  {
    var e1, s1 := Prepare(savers, from, steps, mid, i);
    longer, to := Commit(savers, from, e1, s1, i, Primary);
  }

  /** A saver whose primary rename fails, and whose temporary file cannot be removed
      either, still saves to the fallback file, and leaves that temporary file behind
      with nothing having crashed. */
  lemma LeftoverRun(a: Saver, files: map<Target, string>) returns (steps: seq<Step>, end: State)
    requires a.temporary(Primary) != a.temporary(Fallback)
    ensures After([a], Start([a], files, None, map[]), steps) == Some(end) && Crash !in steps
    ensures end.at == [Finished] && end.files == files[Fallback := a.text]
    ensures end.temporaries == map[a.temporary(Primary) := a.text]
  {
    var s0 := Start([a], files, None, map[]);
    var e1, s1 := Prepare([a], s0, [], s0, 0);
    var e2, s2 := Extend([a], s0, e1, s1, Fail(0, Primary));
    var e3, s3 := Extend([a], s0, e2, s2, UnlinkFails(0, Primary));
    var e4, s4 := Fill([a], s0, e3, s3, 0, Fallback);
    steps, end := Commit([a], s0, e4, s4, 0, Fallback);
  }

  /** The two parts need not come from the same save: two savers that interleave can
      leave the protected part of one beside the public part of the other, with every
      saver done and no crash. */
  lemma PartsCanDiffer(a: Saver, b: Saver) returns (steps: seq<Step>, end: State)
    requires a.temporary(Primary) != b.temporary(Primary)
    ensures After([a, b], Start([a, b], map[], None, map[]), steps) == Some(end) && Crash !in steps
    ensures end.sidecar == Some(b.secret) && end.files == map[Primary := a.text]
    ensures end.at == [Finished, Finished]
  {
    var savers := [a, b];
    var s0 := Start(savers, map[], None, map[]);
    var e1, s1 := Prepare(savers, s0, [], s0, 0);
    var e2, s2 := Prepare(savers, s0, e1, s1, 1);
    var e3, s3 := Commit(savers, s0, e2, s2, 1, Primary);
    steps, end := Commit(savers, s0, e3, s3, 0, Primary);
  }
}
