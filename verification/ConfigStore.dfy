// The split configuration of src/state.py: a public document in one of two files, an
// encrypted sidecar for the protected fields, and the globals in memory.
//
// One value of `System` is the machine between two operations.  What the vault, the
// files and the random generator do during an operation is a parameter of it.
module ConfigStore {
  import opened Wrappers
  import opened ConfigDocument
  import opened Passwords
  import PyText

  // ---------- the machine ----------

  datatype File = Missing | Garbled | Holds(document: Document)

  /** The vault decrypts a sealed sidecar to what was sealed, or fails. */
  datatype Sidecar = Unsealed | SealedWith(fields: Document)

  datatype Disk = Disk(primary: File, fallback: File, sidecar: Sidecar)

  datatype Vault = Vault(configured: bool, unlocked: bool)

  /** The globals: the protected ones, and all others as the fields they are saved to. */
  datatype Globals = Globals(secrets: Secrets, open: Document)

  datatype System = System(disk: Disk, vault: Vault, memory: Option<Globals>)

  // ---------- reading and writing ----------

  /** `_load_config`: the primary file if it can be read, else the fallback. */
  function LoadConfig(disk: Disk): Document {
    if disk.primary.Holds? then disk.primary.document
    else if disk.fallback.Holds? then disk.fallback.document
    else map[]
  }

  /** What can go wrong during a save. `firstLookup` and `secondLookup` fail when the
      vault cannot even be asked whether it is configured. */
  datatype SaveFaults = SaveFaults(firstLookup: bool, encrypt: bool, secondLookup: bool, primary: bool, fallback: bool)

  function Values(g: Globals): Document {
    Collected(g.secrets) + g.open
  }

  /** The save gets as far as sealing the protected fields. */
  predicate Seals(vault: Vault, faults: SaveFaults) {
    vault.configured && vault.unlocked && !faults.firstLookup && !faults.encrypt
  }

  /** The protected fields stay out of the public document. */
  predicate Withholds(vault: Vault, faults: SaveFaults) {
    vault.configured &&
    (!(faults.firstLookup || (vault.unlocked && faults.encrypt)) || !faults.secondLookup)
  }

  function Public(g: Globals, vault: Vault, faults: SaveFaults): Document {
    if Withholds(vault, faults) then Values(g) - PROTECTED else Values(g)
  }

  function Write(disk: Disk, d: Document, faults: SaveFaults): Disk {
    if !faults.primary then disk.(primary := Holds(d))
    else if !faults.fallback then disk.(fallback := Holds(d))
    else disk
  }

  /** `_save_config` */
  function SaveDisk(disk: Disk, vault: Vault, g: Globals, faults: SaveFaults): Disk {
    var sealed :=
      if Seals(vault, faults) then disk.(sidecar := SealedWith(SealedFields(Values(g)))) else disk;
    Write(sealed, Public(g, vault, faults), faults)
  }

  /** The write lands in the file that a load reads. */
  predicate Reaches(disk: Disk, faults: SaveFaults) {
    !faults.primary || (!faults.fallback && !disk.primary.Holds?)
  }

  /** Exactly when the next load sees the document just written: unless the primary
      write failed while an older readable primary exists, or both writes failed (or
      the document was there already). */
  lemma LoadSeesLastSaveIff(disk: Disk, d: Document, faults: SaveFaults)
    ensures LoadConfig(Write(disk, d, faults)) == d <==> Reaches(disk, faults) || LoadConfig(disk) == d
    ensures !Reaches(disk, faults) ==> LoadConfig(Write(disk, d, faults)) == LoadConfig(disk)
  {
  }

  /** What a save writes for the settings that are not protected: their values, whatever
      becomes of the protected fields. */
  lemma SettingsAreWritten(g: Globals, vault: Vault, faults: SaveFaults)
    requires Clean(g.open)
    ensures Public(g, vault, faults) - PROTECTED == g.open
    ensures forall key :: key in g.open ==>
              key in Public(g, vault, faults) && Public(g, vault, faults)[key] == g.open[key]
  {
    CollectedIsProtected(g.secrets);
  }

  lemma CollectedIsProtected(secrets: Secrets)
    ensures Collected(secrets).Keys <= PROTECTED
  {
  }

  /** So the next load sees them with any vault and any faults, if the write lands in the
      file it reads; otherwise it sees what it saw before. */
  lemma LoadSeesSettings(disk: Disk, vault: Vault, g: Globals, faults: SaveFaults)
    requires Clean(g.open)
    ensures Reaches(disk, faults) ==> LoadConfig(SaveDisk(disk, vault, g, faults)) - PROTECTED == g.open
    ensures !Reaches(disk, faults) ==> LoadConfig(SaveDisk(disk, vault, g, faults)) == LoadConfig(disk)
  {
    SettingsAreWritten(g, vault, faults);
    LoadSeesLastSaveIff(disk, Public(g, vault, faults), faults);
  }

  /** Exactly when a save with a configured vault writes protected fields in the
      clear: when protecting them failed and the vault could not be asked again. */
  lemma PublicCleanIff(g: Globals, vault: Vault, faults: SaveFaults)
    requires Clean(g.open) && vault.configured
    ensures Clean(Public(g, vault, faults)) <==>
            !((faults.firstLookup || (vault.unlocked && faults.encrypt)) && faults.secondLookup)
  {
    assert "totp_secret" in Values(g) && "totp_secret" in PROTECTED;
  }

  // ---------- the operations ----------

  /** How an automatic unlock of a locked vault ends. */
  datatype Unlocking = Opened | StayedLocked | Raised

  /** What can happen while the configuration is read at start or after an unlock:
      asking for the vault can raise, an automatic unlock can fail in two ways, and
      the sidecar may not decrypt. */
  datatype ReadFaults = ReadFaults(lookupRaises: bool, unlocking: Unlocking, decrypts: bool) {
    predicate AutoUnlocks() {
      !lookupRaises && unlocking.Opened?
    }

    /** An existing sidecar is read from an open vault. */
    predicate Reads() {
      !lookupRaises && decrypts
    }
  }

  /** The named fields a document has. */
  function Part(fields: Document, names: set<string>): Document {
    map key | key in fields && key in names :: fields[key]
  }

  /** `_merge_protected_config`, with the vault already in its final state. */
  function Merged(config: Document, disk: Disk, vault: Vault, decrypts: bool): Document {
    if vault.configured && vault.unlocked && disk.sidecar.SealedWith? && decrypts
    then config + Part(disk.sidecar.fields, PROTECTED)
    else config
  }

  /** Merging changes protected fields only. */
  lemma MergedKeepsSettings(config: Document, disk: Disk, vault: Vault, decrypts: bool)
    ensures Merged(config, disk, vault, decrypts) - PROTECTED == config - PROTECTED
  {
  }

  /** The file part of the migration: the migrated document replaces the primary file.
      It is given up when a password cannot be hashed or the file not be written. */
  function AfterMigration(disk: Disk, h: Hashing, writeFails: bool): (Disk, Document) {
    var config := LoadConfig(disk);
    match Migrate(config, h)
    case None => (disk, config)
    case Some(migrated) =>
      if migrated == config || writeFails then (disk, config)
      else (disk.(primary := Holds(migrated)), migrated)
  }

  datatype Step =
    | Boot(h: Hashing, migrationFails: bool, read: ReadFaults, secret: string, save: SaveFaults)
    | SetAndSave(secrets: Secrets, open: Document, save: SaveFaults)
    | Save(save: SaveFaults)
    | Configure
    | Lock
    | UnlockAndReload(read: ReadFaults, secret: string)
    | Stop

  /** Loading at import time, with a fresh random secret, and the save that follows. */
  function BootSystem(s: System, e: Step): System
    requires e.Boot?
  {
    var (disk, config) := AfterMigration(s.disk, e.h, e.migrationFails);
    var vault := s.vault.(unlocked := s.vault.configured && e.read.AutoUnlocks());
    var merged := Merged(config, disk, vault, e.read.Reads());
    var g := Globals(Load(merged, e.secret), merged - PROTECTED);
    System(SaveDisk(disk, vault, g, e.save), vault, Some(g))
  }

  /** `reload_protected_vault_state` after a successful unlock; a failed decryption of
      an existing sidecar leaves the globals alone. */
  function ReloadSystem(s: System, decrypts: bool, secret: string): System
    requires s.memory.Some?
  {
    if s.disk.sidecar.SealedWith? && !decrypts then s
    else
      var g := s.memory.value;
      var merged := Merged(LoadConfig(s.disk), s.disk, s.vault, decrypts);
      s.(memory := Some(g.(secrets :=
        Load(merged, if g.secrets.totpSecret != "" then g.secrets.totpSecret else secret))))
  }

  /** A setter: the globals take new values and are saved. */
  function Saved(s: System, g: Globals, faults: SaveFaults): System {
    System(SaveDisk(s.disk, s.vault, g, faults), s.vault, Some(g))
  }

  predicate Possible(s: System, e: Step) {
    match e
    case Boot(_, _, _, secret, _) => s.memory.None? && secret != ""
    case SetAndSave(_, open, _) => s.memory.Some? && Clean(open)
    case Save(_) => s.memory.Some?
    case Configure => s.memory.Some? && !s.vault.configured
    case Lock => s.memory.Some? && s.vault.configured
    case UnlockAndReload(_, secret) => s.memory.Some? && s.vault.configured && secret != ""
    case Stop => true
  }

  function Next(s: System, e: Step): System
    requires Possible(s, e)
  {
    match e
    case Boot(_, _, _, _, _) => BootSystem(s, e)
    case SetAndSave(secrets, open, faults) => Saved(s, Globals(secrets, open), faults)
    case Save(faults) => s.(disk := SaveDisk(s.disk, s.vault, s.memory.value, faults))
    case Configure => s.(vault := Vault(true, true))
    case Lock => s.(vault := s.vault.(unlocked := false))
    case UnlockAndReload(read, secret) =>
      ReloadSystem(s.(vault := s.vault.(unlocked := true)), read.Reads(), secret)
    case Stop => System(s.disk, s.vault.(unlocked := false), None)
  }

  function Run(s: System, es: seq<Step>): Option<System> {
    if es == [] then Some(s)
    else
      var mid := Run(s, es[..|es| - 1]);
      var e := es[|es| - 1];
      if mid.Some? && Possible(mid.value, e) then Some(Next(mid.value, e)) else None
  }

  // ---------- the reference: one value that is kept ----------

  /** What the user sees: the protected globals that the vault keeps, whether it is
      open, and the protected globals in use. No documents, no files, no merging. */
  datatype Kept = Kept(secrets: Secrets, unlocked: bool, current: Option<Secrets>)

  function KeptNext(k: Kept, e: Step): Kept {
    match e
    case Boot(_, _, read, secret, faults) =>
      if read.AutoUnlocks() then
        var restored := Restored(k.secrets, secret);
        Kept(if faults.firstLookup || faults.encrypt then k.secrets else restored, true, Some(restored))
      else Kept(k.secrets, false, Some(Blank(secret)))
    case SetAndSave(secrets, _, faults) =>
      Kept(if k.unlocked && !faults.firstLookup && !faults.encrypt then secrets else k.secrets,
           k.unlocked, Some(secrets))
    case Save(faults) =>
      if k.unlocked && !faults.firstLookup && !faults.encrypt && k.current.Some?
      then k.(secrets := k.current.value) else k
    case Configure => k
    case Lock => k.(unlocked := false)
    case UnlockAndReload(_, secret) =>
      var using := if k.current.Some? && k.current.value.totpSecret != "" then k.current.value.totpSecret else secret;
      Kept(k.secrets, true, Some(Restored(k.secrets, using)))
    case Stop => Kept(k.secrets, false, None)
  }

  function KeptRun(k: Kept, es: seq<Step>): Kept {
    if es == [] then k else KeptNext(KeptRun(k, es[..|es| - 1]), es[|es| - 1])
  }

  /** The sidecar holds the protected fields of these globals, whatever the other
      fields were when it was sealed. */
  ghost predicate HoldsSecrets(sidecar: Sidecar, secrets: Secrets) {
    sidecar.SealedWith? && sidecar.fields == SealedFields(Collected(secrets))
  }

  ghost predicate Refines(s: System, k: Kept) {
    && s.vault.configured && s.vault.unlocked == k.unlocked
    && HoldsSecrets(s.disk.sidecar, k.secrets)
    && Clean(LoadConfig(s.disk))
    && (s.memory.Some? <==> k.current.Some?)
    && (s.memory.Some? ==> s.memory.value.secrets == k.current.value && Clean(s.memory.value.open))
  }

  predicate FailsTwice(faults: SaveFaults) {
    (faults.firstLookup || faults.encrypt) && faults.secondLookup
  }

  /** The assumptions on the vault: a sidecar decrypts whenever it is read, and the
      vault never fails twice in one save. */
  predicate VaultWorks(e: Step) {
    match e
    case Boot(_, _, read, _, faults) => (read.AutoUnlocks() ==> read.Reads()) && !FailsTwice(faults)
    case SetAndSave(_, _, faults) => !FailsTwice(faults)
    case Save(faults) => !FailsTwice(faults)
    case UnlockAndReload(read, _) => read.Reads()
    case _ => true
  }

  lemma SealedIgnoresOpen(secrets: Secrets, open: Document)
    requires Clean(open)
    ensures SealedFields(Collected(secrets) + open) == SealedFields(Collected(secrets))
  {
  }

  lemma SaveRefines(disk: Disk, vault: Vault, g: Globals, faults: SaveFaults)
    requires vault.configured && Clean(g.open) && Clean(LoadConfig(disk)) && !FailsTwice(faults)
    ensures var after := SaveDisk(disk, vault, g, faults);
            && Clean(LoadConfig(after))
            && after.sidecar == (if Seals(vault, faults) then SealedWith(SealedFields(Collected(g.secrets)))
                                 else disk.sidecar)
  {
    SealedIgnoresOpen(g.secrets, g.open);
    PublicCleanIff(g, vault, faults);
  }

  lemma MergedLoads(config: Document, secrets: Secrets, secret: string)
    ensures Load(config + Part(SealedFields(Collected(secrets)), PROTECTED), secret) == Restored(secrets, secret)
  {
    assert Part(SealedFields(Collected(secrets)), PROTECTED) == SealedFields(Collected(secrets));
    SealedIgnoresOpen(secrets, map[]);
    assert Collected(secrets) + map[] == Collected(secrets);
    LoadSealed(secrets, config, map[], secret);
  }

  lemma NothingToMigrate(d: Document, h: Hashing)
    requires "admin_password" !in d && "community_password" !in d
    ensures Migrate(d, h) == Some(d)
  {
    SettledIsFixed(d, h);
  }

  lemma BootRefines(s: System, k: Kept, e: Step)
    requires e.Boot? && Refines(s, k) && Possible(s, e) && VaultWorks(e)
    ensures Refines(Next(s, e), KeptNext(k, e))
  {
    var config := LoadConfig(s.disk);
    NothingToMigrate(config, e.h);
    var vault := Vault(true, e.read.AutoUnlocks());
    if e.read.AutoUnlocks() {
      MergedLoads(config, k.secrets, e.secret);
    } else {
      LoadClean(config, e.secret);
    }
    MergedKeepsSettings(config, s.disk, vault, e.read.Reads());
    var g := Globals(Load(Merged(config, s.disk, vault, e.read.Reads()), e.secret), config - PROTECTED);
    SaveRefines(s.disk, vault, g, e.save);
  }

  lemma StepRefines(s: System, k: Kept, e: Step)
    requires Refines(s, k) && Possible(s, e) && VaultWorks(e)
    ensures Refines(Next(s, e), KeptNext(k, e))
  {
    match e
    case Boot(_, _, _, _, _) => BootRefines(s, k, e);
    case SetAndSave(secrets, open, faults) => SaveRefines(s.disk, s.vault, Globals(secrets, open), faults);
    case Save(faults) => SaveRefines(s.disk, s.vault, s.memory.value, faults);
    case Configure =>
    case Lock =>
    case UnlockAndReload(read, secret) =>
      var using := s.memory.value.secrets.totpSecret;
      MergedLoads(LoadConfig(s.disk), k.secrets, if using != "" then using else secret);
    case Stop =>
  }

  /** Over every run of starts, settings, saves, locks, unlocks and stops, whatever
      writes fail: the documents, the files and the merging together are one kept
      value.  In particular the sidecar always holds the protected fields of the last
      save that sealed, locked saves leave it alone, the loaded public document never
      holds a protected field, and an unlock brings the kept value back as the loader
      normalises it. */
  lemma {:induction false} RunsKeepSecrets(s: System, k: Kept, es: seq<Step>)
    requires Refines(s, k) && Run(s, es).Some?
    requires forall i :: 0 <= i < |es| ==> VaultWorks(es[i])
    ensures Refines(Run(s, es).value, KeptRun(k, es))
  {
    if es != [] {
      var n := |es| - 1;
      RunsKeepSecrets(s, k, es[..n]);
      StepRefines(Run(s, es[..n]).value, KeptRun(k, es[..n]), es[n]);
    }
  }

  /** The step ends with a save that seals the protected fields. */
  predicate SealsIn(s: System, e: Step)
    requires Possible(s, e)
  {
    match e
    case Boot(_, _, read, _, faults) => Seals(Vault(s.vault.configured, read.AutoUnlocks()), faults)
    case SetAndSave(_, _, faults) => Seals(s.vault, faults)
    case Save(faults) => Seals(s.vault, faults)
    case _ => false
  }

  ghost predicate SealsAt(s: System, es: seq<Step>, i: nat)
    requires i < |es|
  {
    Run(s, es[..i]).Some? && Possible(Run(s, es[..i]).value, es[i]) && SealsIn(Run(s, es[..i]).value, es[i])
  }

  lemma SealsAtPrefix(s: System, es: seq<Step>, n: nat, i: nat)
    requires i < n <= |es|
    ensures SealsAt(s, es[..n], i) <==> SealsAt(s, es, i)
    ensures es[..n][..i + 1] == es[..i + 1]
  {
    assert es[..n][..i] == es[..i];
  }

  /** The globals that are not protected are saved to fields that are not either. */
  ghost predicate OpenIsClean(s: System) {
    s.memory.Some? ==> Clean(s.memory.value.open)
  }

  /** What one step does to the sidecar, whatever fails in it. */
  lemma StepSeals(s: System, e: Step)
    requires OpenIsClean(s) && Possible(s, e)
    ensures OpenIsClean(Next(s, e))
    ensures SealsIn(s, e) ==> Next(s, e).memory.Some?
                              && HoldsSecrets(Next(s, e).disk.sidecar, Next(s, e).memory.value.secrets)
    ensures !SealsIn(s, e) ==> Next(s, e).disk.sidecar == s.disk.sidecar
  {
    if Next(s, e).memory.Some? {
      SealedIgnoresOpen(Next(s, e).memory.value.secrets, Next(s, e).memory.value.open);
    }
  }

  lemma {:induction false} OpenStaysClean(s: System, es: seq<Step>)
    requires OpenIsClean(s) && Run(s, es).Some?
    ensures OpenIsClean(Run(s, es).value)
  {
    if es != [] {
      var n := |es| - 1;
      OpenStaysClean(s, es[..n]);
      StepSeals(Run(s, es[..n]).value, es[n]);
    }
  }

  /** What the last step of a run does to the sidecar. */
  lemma LastStepSeals(s: System, es: seq<Step>)
    requires es != [] && OpenIsClean(s) && Run(s, es).Some?
    ensures Run(s, es[..|es| - 1]).Some?
    ensures var end := Run(s, es).value;
            if SealsAt(s, es, |es| - 1)
            then end.memory.Some? && HoldsSecrets(end.disk.sidecar, end.memory.value.secrets)
            else end.disk.sidecar == Run(s, es[..|es| - 1]).value.disk.sidecar
  {
    var n := |es| - 1;
    OpenStaysClean(s, es[..n]);
    StepSeals(Run(s, es[..n]).value, es[n]);
  }

  /** The last marked place; `None` when there is none. */
  predicate IsLast(marks: seq<bool>, i: Option<nat>) {
    && (i.Some? ==> i.value < |marks| && marks[i.value])
    && forall j :: 0 <= j < |marks| && (i.Some? ==> i.value < j) ==> !marks[j]
  }

  lemma LastSnoc(marks: seq<bool>, mark: bool, before: Option<nat>)
    requires IsLast(marks, before)
    ensures IsLast(marks + [mark], if mark then Some(|marks|) else before)
  {
  }

  lemma MarkBefore(marks: seq<bool>, mark: bool, i: nat)
    requires i < |marks|
    ensures (marks + [mark])[i] == marks[i]
  {
  }

  /** Which steps of a run seal. */
  ghost function Sealings(s: System, es: seq<Step>): (marks: seq<bool>)
    ensures |marks| == |es|
  {
    if es == [] then [] else Sealings(s, es[..|es| - 1]) + [SealsAt(s, es, |es| - 1)]
  }

  lemma {:induction false} SealingsAre(s: System, es: seq<Step>, i: nat)
    requires i < |es|
    ensures Sealings(s, es)[i] <==> SealsAt(s, es, i)
    decreases |es|
  {
    if i < |es| - 1 {
      SealingsAre(s, es[..|es| - 1], i);
      SealsAtPrefix(s, es, |es| - 1, i);
      MarkBefore(Sealings(s, es[..|es| - 1]), SealsAt(s, es, |es| - 1), i);
    }
  }

  /** Step `i` sealed and no later one did; `None` when no step sealed. */
  ghost predicate IsLastSealing(s: System, es: seq<Step>, i: Option<nat>) {
    IsLast(Sealings(s, es), i)
  }

  lemma LastSealingSnoc(s: System, es: seq<Step>, before: Option<nat>)
    requires es != [] && IsLastSealing(s, es[..|es| - 1], before)
    ensures IsLastSealing(s, es, if SealsAt(s, es, |es| - 1) then Some(|es| - 1) else before)
  {
    LastSnoc(Sealings(s, es[..|es| - 1]), SealsAt(s, es, |es| - 1), before);
  }

  /** The sidecar holds the protected globals there were right after step `i`. */
  ghost predicate HoldsAfter(s: System, es: seq<Step>, i: nat, sidecar: Sidecar)
    requires i < |es|
  {
    var after := Run(s, es[..i + 1]);
    after.Some? && after.value.memory.Some? && HoldsSecrets(sidecar, after.value.memory.value.secrets)
  }

  lemma SealedByLast(s: System, es: seq<Step>)
    requires es != [] && OpenIsClean(s) && Run(s, es).Some?
    requires SealsAt(s, es, |es| - 1)
    ensures HoldsAfter(s, es, |es| - 1, Run(s, es).value.disk.sidecar)
  {
    LastStepSeals(s, es);
    assert es[..|es|] == es;
  }

  lemma SealedEarlier(s: System, es: seq<Step>, i: nat, sidecar: Sidecar)
    requires i < |es| - 1 && HoldsAfter(s, es[..|es| - 1], i, sidecar)
    ensures HoldsAfter(s, es, i, sidecar)
  {
    assert es[..|es| - 1][..i + 1] == es[..i + 1];
  }

  /** At the end of any run, from any files and any vault, whatever failed in it: the
      sidecar holds exactly what was in memory right after the last step that sealed;
      if none did, it is as it was. */
  lemma {:induction false} SidecarIsLastSealed(s: System, es: seq<Step>) returns (i: Option<nat>)
    requires OpenIsClean(s) && Run(s, es).Some?
    ensures IsLastSealing(s, es, i)
    ensures i.None? ==> Run(s, es).value.disk.sidecar == s.disk.sidecar
    ensures i.Some? ==> HoldsAfter(s, es, i.value, Run(s, es).value.disk.sidecar)
  {
    if es == [] {
      i := None;
    } else {
      LastStepSeals(s, es);
      var before := SidecarIsLastSealed(s, es[..|es| - 1]);
      if SealsAt(s, es, |es| - 1) {
        i := Some(|es| - 1);
        SealedByLast(s, es);
      } else {
        i := before;
        if i.Some? {
          SealedEarlier(s, es, i.value, Run(s, es).value.disk.sidecar);
        }
      }
      LastSealingSnoc(s, es, before);
    }
  }

  /** A step that cannot reach the open vault: everything but an unlock, an automatic
      unlock, and a first configuration. */
  predicate StaysLocked(e: Step) {
    match e
    case Boot(_, _, read, _, _) => !read.AutoUnlocks()
    case UnlockAndReload(_, _) => false
    case _ => true
  }

  lemma {:induction false} LockedRunKeeps(k: Kept, es: seq<Step>)
    requires !k.unlocked && forall i :: 0 <= i < |es| ==> StaysLocked(es[i])
    ensures KeptRun(k, es).secrets == k.secrets && !KeptRun(k, es).unlocked
  {
    if es != [] {
      LockedRunKeeps(k, es[..|es| - 1]);
    }
  }

  /** Whatever fails meanwhile, a vault that stays locked keeps its sidecar. */
  lemma {:induction false} LockedRunKeepsSidecar(s: System, es: seq<Step>)
    requires s.vault == Vault(true, false) && Run(s, es).Some?
    requires forall i :: 0 <= i < |es| ==> StaysLocked(es[i])
    ensures Run(s, es).value.vault == Vault(true, false) && Run(s, es).value.disk.sidecar == s.disk.sidecar
  {
    if es != [] {
      var n := |es| - 1;
      LockedRunKeepsSidecar(s, es[..n]);
      LockedStepKeepsSidecar(Run(s, es[..n]).value, es[n]);
    }
  }

  lemma LockedStepKeepsSidecar(s: System, e: Step)
    requires s.vault == Vault(true, false) && Possible(s, e) && StaysLocked(e)
    ensures Next(s, e).vault == Vault(true, false) && Next(s, e).disk.sidecar == s.disk.sidecar
  {
  }

  /** An unlock that can read the sidecar loads the sealed globals, whatever the public
      document is. */
  lemma UnlockFromSidecar(s: System, secrets: Secrets, unlock: Step)
    requires unlock.UnlockAndReload? && Possible(s, unlock) && unlock.read.Reads()
    requires HoldsSecrets(s.disk.sidecar, secrets)
    ensures var using := s.memory.value.secrets.totpSecret;
            Next(s, unlock).memory.Some?
            && Next(s, unlock).memory.value.secrets == Restored(secrets, if using != "" then using else unlock.secret)
  {
    var using := s.memory.value.secrets.totpSecret;
    MergedLoads(LoadConfig(s.disk), secrets, if using != "" then using else unlock.secret);
  }

  /** Any number of locked saves, restarts and settings, whatever fails in them, then an
      unlock: the protected globals are those kept before, as the loader normalises
      them. */
  lemma UnlockAfterLockedRun(s: System, kept: Secrets, es: seq<Step>, unlock: Step)
    requires s.vault == Vault(true, false) && HoldsSecrets(s.disk.sidecar, kept)
    requires forall i :: 0 <= i < |es| ==> StaysLocked(es[i])
    requires unlock.UnlockAndReload? && unlock.read.Reads()
    requires Run(s, es).Some? && Possible(Run(s, es).value, unlock)
    ensures Run(s, es).value.disk.sidecar == s.disk.sidecar
    ensures var after := Next(Run(s, es).value, unlock);
            && after.memory.Some?
            && (exists secret :: secret != "" && after.memory.value.secrets == Restored(kept, secret))
            && (kept.totpSecret != "" ==> after.memory.value.secrets == Restored(kept, unlock.secret))
  {
    LockedRunKeepsSidecar(s, es);
    UnlockFromSidecar(Run(s, es).value, kept, unlock);
  }

  // ---------- how the sidecar comes about, and how it is lost ----------

  /** A first save with the vault just opened reaches that state exactly when its
      public part reaches the document a load would read, or that was clean before. */
  lemma FirstUnlockedSaveIff(s: System, faults: SaveFaults)
    requires s.memory.Some? && Clean(s.memory.value.open) && Seals(s.vault, faults)
    ensures var after := Next(s, Save(faults));
            Refines(after, Kept(s.memory.value.secrets, true, Some(s.memory.value.secrets))) <==>
            Reaches(s.disk, faults) || Clean(LoadConfig(s.disk))
  {
    SealedIgnoresOpen(s.memory.value.secrets, s.memory.value.open);
    PublicCleanIff(s.memory.value, s.vault, faults);
  }

  /** Globals with different authenticator secrets have different sealed fields. */
  lemma OtherSecretsSealDifferently(sidecar: Sidecar, a: Secrets, b: Secrets)
    requires HoldsSecrets(sidecar, a) && a.totpSecret != b.totpSecret
    ensures !HoldsSecrets(sidecar, b)
  {
    assert SealedFields(Collected(a))["totp_secret"] == Text(a.totpSecret);
    assert SealedFields(Collected(b))["totp_secret"] == Text(b.totpSecret);
  }

  /** The kept secrets are still there, if need be as the loader normalises them. */
  ghost predicate StillHolds(sidecar: Sidecar, secrets: Secrets, secret: string) {
    HoldsSecrets(sidecar, secrets) || HoldsSecrets(sidecar, Restored(secrets, secret))
  }

  /** Sealing globals with another authenticator secret loses what was kept. */
  lemma SealedOver(sidecar: Sidecar, over: Secrets, kept: Secrets, secret: string)
    requires HoldsSecrets(sidecar, over)
    requires kept.totpSecret != "" && over.totpSecret != kept.totpSecret
    ensures !StillHolds(sidecar, kept, secret)
  {
    OtherSecretsSealDifferently(sidecar, over, kept);
    OtherSecretsSealDifferently(sidecar, over, Restored(kept, secret));
  }

  /** A start that reads an open vault loads the sealed globals, whatever the public
      document is and whatever its migration makes of it. */
  lemma StartFromSidecar(s: System, secrets: Secrets, e: Step)
    requires e.Boot? && Possible(s, e) && s.vault.configured && HoldsSecrets(s.disk.sidecar, secrets)
    requires e.read.AutoUnlocks() && e.read.Reads()
    ensures Next(s, e).memory.value.secrets == Restored(secrets, e.secret)
  {
    MergedLoads(AfterMigration(s.disk, e.h, e.migrationFails).1, secrets, e.secret);
  }

  /** A start that opens the vault but cannot decrypt its sidecar has blank globals. */
  lemma BlindStart(s: System, k: Kept, e: Step)
    requires Refines(s, k) && Possible(s, e) && e.Boot?
    requires e.read.AutoUnlocks() && !e.read.Reads()
    ensures Next(s, e).memory.value.secrets == Blank(e.secret)
  {
    NothingToMigrate(LoadConfig(s.disk), e.h);
    LoadClean(LoadConfig(s.disk), e.secret);
  }

  /** A start that opens the vault but fails to decrypt its sidecar destroys it with
      the save at import time. Exactly then the kept secrets are lost (the fresh
      authenticator secret differs from the kept one): a start that stays locked,
      one that decrypts and one whose save fails to seal keep them. */
  lemma StartKeepsSecretsIff(s: System, k: Kept, e: Step)
    requires Refines(s, k) && Possible(s, e) && e.Boot?
    requires k.secrets.totpSecret != "" && e.secret != k.secrets.totpSecret
    ensures StillHolds(Next(s, e).disk.sidecar, k.secrets, e.secret) <==>
            !e.read.AutoUnlocks() || e.read.Reads() || e.save.firstLookup || e.save.encrypt
  {
    StepSeals(s, e);
    if SealsIn(s, e) {
      if e.read.Reads() {
        StartFromSidecar(s, k.secrets, e);
      } else {
        BlindStart(s, k, e);
        SealedOver(Next(s, e).disk.sidecar, Blank(e.secret), k.secrets, e.secret);
      }
    }
  }

  /** The same danger after an unlock: when its reload fails, the vault is open but the
      globals are the old ones. The next save then loses the kept secrets, exactly
      when it seals. */
  lemma SaveAfterUnlockKeepsSecretsIff(s: System, k: Kept, unlock: Step, faults: SaveFaults)
    requires Refines(s, k) && Possible(s, unlock) && unlock.UnlockAndReload?
    requires k.secrets.totpSecret != "" && s.memory.value.secrets.totpSecret != k.secrets.totpSecret
    ensures var sidecar := Next(Next(s, unlock), Save(faults)).disk.sidecar;
            && (StillHolds(sidecar, k.secrets, unlock.secret) <==>
                unlock.read.Reads() || faults.firstLookup || faults.encrypt)
            && (!unlock.read.Reads() && !faults.firstLookup && !faults.encrypt ==>
                HoldsSecrets(sidecar, s.memory.value.secrets))
  {
    var unlocked := Next(s, unlock);
    StepSeals(s, unlock);
    StepSeals(unlocked, Save(faults));
    if SealsIn(unlocked, Save(faults)) {
      if unlock.read.Reads() {
        UnlockFromSidecar(s, k.secrets, unlock);
      } else {
        SealedOver(Next(unlocked, Save(faults)).disk.sidecar, s.memory.value.secrets, k.secrets, unlock.secret);
      }
    }
  }

  // ---------- clear text that stays on disk ----------

  datatype Place = PrimaryPlace | FallbackPlace

  function FileAt(disk: Disk, place: Place): File {
    match place case PrimaryPlace => disk.primary case FallbackPlace => disk.fallback
  }

  predicate ShowsSecrets(f: File) {
    f.Holds? && !Clean(f.document)
  }

  /** The save a step ends with. */
  function SaveOf(e: Step): Option<SaveFaults> {
    match e
    case Boot(_, _, _, _, faults) => Some(faults)
    case SetAndSave(_, _, faults) => Some(faults)
    case Save(faults) => Some(faults)
    case _ => None
  }

  predicate Replaces(e: Step, place: Place) {
    match SaveOf(e)
    case None => false
    case Some(faults) => if place.PrimaryPlace? then !faults.primary else faults.primary && !faults.fallback
  }

  /** With a vault configured a step replaces a file by a clean document or leaves it
      alone. */
  lemma StepOnFile(s: System, k: Kept, e: Step, place: Place)
    requires Refines(s, k) && Possible(s, e) && VaultWorks(e)
    ensures if Replaces(e, place) then !ShowsSecrets(FileAt(Next(s, e).disk, place))
            else FileAt(Next(s, e).disk, place) == FileAt(s.disk, place)
  {
    match e
    case Boot(_, _, _, _, faults) =>
      NothingToMigrate(LoadConfig(s.disk), e.h);
      PublicCleanIff(Next(s, e).memory.value, Next(s, e).vault, faults);
    case SetAndSave(secrets, open, faults) => PublicCleanIff(Globals(secrets, open), s.vault, faults);
    case Save(faults) => PublicCleanIff(s.memory.value, s.vault, faults);
    case _ =>
  }

  ghost predicate LeftAlone(es: seq<Step>, place: Place) {
    forall i :: 0 <= i < |es| ==> !Replaces(es[i], place)
  }

  lemma LeftAloneSnoc(es: seq<Step>, place: Place)
    requires es != []
    ensures LeftAlone(es, place) <==> LeftAlone(es[..|es| - 1], place) && !Replaces(es[|es| - 1], place)
  {
    assert forall i :: 0 <= i < |es| - 1 ==> es[..|es| - 1][i] == es[i];
  }

  lemma LastStepOnFile(s: System, k: Kept, es: seq<Step>, place: Place)
    requires es != [] && Refines(s, k) && Run(s, es).Some?
    requires forall i :: 0 <= i < |es| ==> VaultWorks(es[i])
    ensures Run(s, es[..|es| - 1]).Some?
    ensures if Replaces(es[|es| - 1], place) then !ShowsSecrets(FileAt(Run(s, es).value.disk, place))
            else FileAt(Run(s, es).value.disk, place) == FileAt(Run(s, es[..|es| - 1]).value.disk, place)
  {
    var n := |es| - 1;
    RunsKeepSecrets(s, k, es[..n]);
    StepOnFile(Run(s, es[..n]).value, KeptRun(k, es[..n]), es[n], place);
  }

  /** Exactly which file holds protected fields in the clear after a run with a vault:
      one that did at its start, and that no save of the run replaced. */
  lemma {:induction false} FileShowsSecretsIff(s: System, k: Kept, es: seq<Step>, place: Place)
    requires Refines(s, k) && Run(s, es).Some?
    requires forall i :: 0 <= i < |es| ==> VaultWorks(es[i])
    ensures ShowsSecrets(FileAt(Run(s, es).value.disk, place)) <==>
            ShowsSecrets(FileAt(s.disk, place)) && LeftAlone(es, place)
  {
    if es != [] {
      LastStepOnFile(s, k, es, place);
      FileShowsSecretsIff(s, k, es[..|es| - 1], place);
      LeftAloneSnoc(es, place);
    }
  }

  // ---------- runs from an empty disk ----------

  const NO_FAULTS := SaveFaults(false, false, false, false, false)

  const NO_FIELDS: Document := map[]

  const EMPTY := System(Disk(Missing, Missing, Unsealed), Vault(false, false), None)

  lemma RunOne(s: System, e: Step)
    requires Possible(s, e)
    ensures Run(s, [e]) == Some(Next(s, e))
  {
    assert [e][..0] == [];
  }

  lemma RunSnoc(s: System, es: seq<Step>, e: Step)
    requires Run(s, es).Some? && Possible(Run(s, es).value, e)
    ensures Run(s, es + [e]) == Some(Next(Run(s, es).value, e))
  {
    assert (es + [e])[..|es|] == es;
  }

  /** A first start with working files, except that the primary one may not be
      writable, and the configuration of a vault. */
  function FirstStart(h: Hashing, secret: string, faults: SaveFaults): seq<Step> {
    [Boot(h, false, ReadFaults(false, StayedLocked, true), secret, faults)] + [Configure]
  }

  lemma EmptyDocument(secret: string)
    ensures NO_FIELDS - PROTECTED == NO_FIELDS && Load(NO_FIELDS, secret) == Blank(secret)
  {
    LoadClean(NO_FIELDS, secret);
  }

  /** The globals a first start comes to. */
  function FirstGlobals(secret: string): Globals {
    Globals(Blank(secret), NO_FIELDS)
  }

  lemma FirstBoot(boot: Step)
    requires boot.Boot? && !boot.migrationFails && boot.read.unlocking.StayedLocked? && boot.secret != ""
    ensures Next(EMPTY, boot) == System(Write(EMPTY.disk, Values(FirstGlobals(boot.secret)), boot.save),
                                        Vault(false, false), Some(FirstGlobals(boot.secret)))
  {
    NothingToMigrate(NO_FIELDS, boot.h);
    EmptyDocument(boot.secret);
  }

  lemma FirstStartRuns(h: Hashing, secret: string, faults: SaveFaults)
    requires secret != ""
    ensures Run(EMPTY, FirstStart(h, secret, faults)) ==
            Some(System(Write(EMPTY.disk, Values(FirstGlobals(secret)), faults), Vault(true, true),
                        Some(FirstGlobals(secret))))
  {
    var boot := FirstStart(h, secret, faults)[0];
    FirstBoot(boot);
    RunOne(EMPTY, boot);
    RunSnoc(EMPTY, [boot], Configure);
  }

  /** The same followed by a save that seals. */
  function SetUp(h: Hashing, secret: string, faults: SaveFaults): seq<Step> {
    FirstStart(h, secret, faults) + [Save(NO_FAULTS)]
  }

  lemma PublicOfFirst(secret: string)
    ensures Values(FirstGlobals(secret)) - PROTECTED == NO_FIELDS
    ensures !Clean(Values(FirstGlobals(secret)))
  {
    assert "totp_secret" in Values(FirstGlobals(secret)) && "totp_secret" in PROTECTED;
  }

  lemma FirstSave(s: System, secret: string)
    requires s.vault == Vault(true, true) && s.memory == Some(FirstGlobals(secret))
    ensures var after := Next(s, Save(NO_FAULTS));
            && Refines(after, Kept(Blank(secret), true, Some(Blank(secret))))
            && after == s.(disk := Disk(Holds(NO_FIELDS), s.disk.fallback,
                                        SealedWith(SealedFields(Collected(Blank(secret))))))
  {
    FirstUnlockedSaveIff(s, NO_FAULTS);
    SealedIgnoresOpen(Blank(secret), NO_FIELDS);
    PublicOfFirst(secret);
  }

  lemma SetUpRuns(h: Hashing, secret: string, faults: SaveFaults) returns (s: System, k: Kept)
    requires secret != ""
    ensures Run(EMPTY, SetUp(h, secret, faults)) == Some(s) && Refines(s, k)
    ensures k == Kept(Blank(secret), true, Some(Blank(secret)))
    ensures s.memory == Some(FirstGlobals(secret)) && s.disk.primary == Holds(NO_FIELDS)
    ensures s.disk.fallback == if faults.primary && !faults.fallback
                               then Holds(Values(FirstGlobals(secret))) else Missing
  {
    FirstStartRuns(h, secret, faults);
    var before := Run(EMPTY, FirstStart(h, secret, faults)).value;
    FirstSave(before, secret);
    RunSnoc(EMPTY, FirstStart(h, secret, faults), Save(NO_FAULTS));
    s := Next(before, Save(NO_FAULTS));
    k := Kept(Blank(secret), true, Some(Blank(secret)));
  }

  /** The vault's lookup fails twice in one save: the authenticator secret is in the
      public document although the vault is configured. */
  lemma ClearTextRun(h: Hashing, secret: string)
    requires secret != ""
    ensures var es := SetUp(h, secret, NO_FAULTS) + [Save(SaveFaults(true, false, true, false, false))];
            Run(EMPTY, es).Some? && Run(EMPTY, es).value.vault.configured
            && Get(LoadConfig(Run(EMPTY, es).value.disk), "totp_secret") == Text(secret)
  {
    var s, k := SetUpRuns(h, secret, NO_FAULTS);
    RunSnoc(EMPTY, SetUp(h, secret, NO_FAULTS), Save(SaveFaults(true, false, true, false, false)));
    CollectedTexts(Blank(secret));
    assert "totp_secret" in Values(s.memory.value);
  }

  /** A setting that is saved while the primary file cannot be written. */
  function ThemeStep(secret: string, setting: Value): Step {
    SetAndSave(Blank(secret), map["theme" := setting], SaveFaults(false, false, false, true, false))
  }

  lemma UnseenSave(s: System, secret: string, setting: Value)
    requires s.memory.Some? && s.disk.primary == Holds(NO_FIELDS)
    ensures Possible(s, ThemeStep(secret, setting))
    ensures var disk := Next(s, ThemeStep(secret, setting)).disk;
            && disk.primary == Holds(NO_FIELDS)
            && disk.fallback.Holds? && "theme" in disk.fallback.document
            && disk.fallback.document["theme"] == setting
  {
    var g := Globals(Blank(secret), map["theme" := setting]);
    SettingsAreWritten(g, s.vault, ThemeStep(secret, setting).save);
    assert "theme" in g.open;
  }

  /** The fallback file has the setting, the next load does not. */
  lemma UnseenSaveRun(h: Hashing, secret: string, setting: Value)
    requires secret != ""
    ensures var end := Run(EMPTY, SetUp(h, secret, NO_FAULTS) + [ThemeStep(secret, setting)]);
            && end.Some? && end.value.disk.fallback.Holds?
            && "theme" in end.value.disk.fallback.document && end.value.disk.fallback.document["theme"] == setting
            && "theme" !in LoadConfig(end.value.disk)
  {
    var s, k := SetUpRuns(h, secret, NO_FAULTS);
    UnseenSave(s, secret, setting);
    RunSnoc(EMPTY, SetUp(h, secret, NO_FAULTS), ThemeStep(secret, setting));
  }

  /** A restart that opens the vault but cannot decrypt its sidecar. */
  lemma BlindStartRun(h: Hashing, secret: string, drawn: string)
    requires secret != "" && drawn != "" && drawn != secret
    ensures var boot := Boot(h, false, ReadFaults(false, Opened, false), drawn, NO_FAULTS);
            var es := SetUp(h, secret, NO_FAULTS) + [Lock] + [Stop] + [boot];
            Run(EMPTY, es).Some? && !StillHolds(Run(EMPTY, es).value.disk.sidecar, Blank(secret), drawn)
  {
    var s, k := SetUpRuns(h, secret, NO_FAULTS);
    var boot := Boot(h, false, ReadFaults(false, Opened, false), drawn, NO_FAULTS);
    var s', k', es := LockAndStop(SetUp(h, secret, NO_FAULTS), s, k);
    StartKeepsSecretsIff(s', k', boot);
    RunSnoc(EMPTY, es, boot);
  }

  lemma LockAndStop(es: seq<Step>, s: System, k: Kept) returns (s': System, k': Kept, longer: seq<Step>)
    requires Run(EMPTY, es) == Some(s) && Refines(s, k) && s.memory.Some?
    ensures longer == es + [Lock] + [Stop] && Run(EMPTY, longer) == Some(s')
    ensures Refines(s', k') && k' == Kept(k.secrets, false, None)
  {
    longer := es + [Lock] + [Stop];
    s' := Next(Next(s, Lock), Stop);
    k' := KeptNext(KeptNext(k, Lock), Stop);
    RunSnoc(EMPTY, es, Lock);
    RunSnoc(EMPTY, es + [Lock], Stop);
    StepRefines(s, k, Lock);
    StepRefines(Next(s, Lock), KeptNext(k, Lock), Stop);
  }

  /** A locked restart, an unlock whose reload fails, and a save. */
  lemma StaleSaveRun(h: Hashing, secret: string, drawn: string)
    requires secret != "" && drawn != "" && drawn != secret
    ensures var boot := Boot(h, false, ReadFaults(false, StayedLocked, true), drawn, NO_FAULTS);
            var unlock := UnlockAndReload(ReadFaults(false, Opened, false), drawn);
            var es := SetUp(h, secret, NO_FAULTS) + [Lock] + [Stop] + [boot] + [unlock] + [Save(NO_FAULTS)];
            Run(EMPTY, es).Some? && HoldsSecrets(Run(EMPTY, es).value.disk.sidecar, Blank(drawn))
            && !StillHolds(Run(EMPTY, es).value.disk.sidecar, Blank(secret), drawn)
  {
    var s, k := SetUpRuns(h, secret, NO_FAULTS);
    var boot := Boot(h, false, ReadFaults(false, StayedLocked, true), drawn, NO_FAULTS);
    var unlock := UnlockAndReload(ReadFaults(false, Opened, false), drawn);
    var s', k', es := LockAndStop(SetUp(h, secret, NO_FAULTS), s, k);
    RunSnoc(EMPTY, es, boot);
    StepRefines(s', k', boot);
    var running := Next(s', boot);
    RunSnoc(EMPTY, es + [boot], unlock);
    RunSnoc(EMPTY, es + [boot] + [unlock], Save(NO_FAULTS));
    SaveAfterUnlockKeepsSecretsIff(running, KeptNext(k', boot), unlock, NO_FAULTS);
  }

  /** A first start that can only write the fallback file leaves the authenticator
      secret there for good: saves that reach the primary file do not touch it. */
  lemma OldFallbackRun(h: Hashing, secret: string, s: System, es: seq<Step>)
    requires secret != "" && Run(EMPTY, SetUp(h, secret, SaveFaults(false, false, false, true, false))) == Some(s)
    requires Run(s, es).Some? && LeftAlone(es, FallbackPlace) && forall i :: 0 <= i < |es| ==> VaultWorks(es[i])
    ensures ShowsSecrets(Run(s, es).value.disk.fallback)
  {
    var s', k := SetUpRuns(h, secret, SaveFaults(false, false, false, true, false));
    PublicOfFirst(secret);
    FileShowsSecretsIff(s, k, es, FallbackPlace);
  }

  // ---------- what is loaded without a sidecar ----------

  /** A start that cannot read a sidecar, for whatever reason, has the globals of the
      public document, clear-text secrets included. */
  lemma StartFromDocument(s: System, e: Step)
    requires e.Boot? && Possible(s, e)
    requires !s.vault.configured || !e.read.AutoUnlocks() || s.disk.sidecar.Unsealed? || !e.read.Reads()
    ensures Next(s, e).memory.Some?
    ensures Next(s, e).memory.value.secrets == Load(AfterMigration(s.disk, e.h, e.migrationFails).1, e.secret)
    ensures Next(s, e).vault == Vault(s.vault.configured, s.vault.configured && e.read.AutoUnlocks())
  {
  }

  /** So does a reload when there is no sidecar; with one that cannot be read it changes
      nothing but the vault, which is open. */
  lemma ReloadWithoutSidecar(s: System, unlock: Step)
    requires unlock.UnlockAndReload? && Possible(s, unlock)
    ensures Next(s, unlock).vault == Vault(true, true) && Next(s, unlock).disk == s.disk
    ensures Next(s, unlock).memory.Some? && Next(s, unlock).memory.value.open == s.memory.value.open
    ensures s.disk.sidecar.Unsealed? ==>
              var using := s.memory.value.secrets.totpSecret;
              Next(s, unlock).memory.value.secrets
              == Load(LoadConfig(s.disk), if using != "" then using else unlock.secret)
    ensures s.disk.sidecar.SealedWith? && !unlock.read.Reads() ==> Next(s, unlock).memory == s.memory
  {
  }

  // ---------- the settings that are not protected ----------

  lemma MigrationKeepsSettings(disk: Disk, h: Hashing, writeFails: bool)
    ensures AfterMigration(disk, h, writeFails).1 - PROTECTED == LoadConfig(disk) - PROTECTED
    ensures LoadConfig(AfterMigration(disk, h, writeFails).0) == AfterMigration(disk, h, writeFails).1
    ensures var (after, config) := AfterMigration(disk, h, writeFails);
            && after == (if config == LoadConfig(disk) then disk else disk.(primary := Holds(config)))
            && config == (if writeFails || Migrate(LoadConfig(disk), h).None? then LoadConfig(disk)
                          else Migrate(LoadConfig(disk), h).value)
  {
    var d := LoadConfig(disk);
    if Migrate(d, h).Some? {
      var m := Migrate(d, h).value;
      forall key | key !in PROTECTED
        ensures key in m <==> key in d
        ensures key in d ==> m[key] == d[key]
      {
        ProtectedIff(key);
        OtherFieldsUntouched(d, h, key);
      }
      assert m - PROTECTED == d - PROTECTED;
    }
  }

  /** The settings a step leaves in memory, and those a load would find: a start takes
      over what it finds, a setter its arguments, and a save that reaches the file a load
      reads makes the two the same, with and without a vault. */
  lemma SettingsStep(s: System, e: Step)
    requires OpenIsClean(s) && Possible(s, e)
    ensures var after := Next(s, e);
            var found, finds := LoadConfig(s.disk) - PROTECTED, LoadConfig(after.disk) - PROTECTED;
            match e
            case Boot(_, _, _, _, _) => after.memory.Some? && after.memory.value.open == found && finds == found
            case SetAndSave(_, open, faults) =>
              after.memory.Some? && after.memory.value.open == open
              && finds == if Reaches(s.disk, faults) then open else found
            case Save(faults) =>
              after.memory == s.memory && finds == if Reaches(s.disk, faults) then s.memory.value.open else found
            case Stop => after.memory == None && finds == found
            case _ => after.memory.Some? && after.memory.value.open == s.memory.value.open && finds == found
  {
    match e
    case Boot(h, migrationFails, _, _, faults) =>
      var (disk, config) := AfterMigration(s.disk, h, migrationFails);
      MigrationKeepsSettings(s.disk, h, migrationFails);
      MergedKeepsSettings(config, disk, Next(s, e).vault, e.read.Reads());
      LoadSeesSettings(disk, Next(s, e).vault, Next(s, e).memory.value, faults);
    case SetAndSave(secrets, open, faults) => LoadSeesSettings(s.disk, s.vault, Globals(secrets, open), faults);
    case Save(faults) => LoadSeesSettings(s.disk, s.vault, s.memory.value, faults);
    case _ =>
  }

  /** Save, stop and start: every setting is back, with any vault and whatever the start
      meets, if the save reached the file that the start reads. */
  lemma RestartKeepsSettings(s: System, faults: SaveFaults, boot: Step)
    requires s.memory.Some? && Clean(s.memory.value.open) && Reaches(s.disk, faults)
    requires boot.Boot? && boot.secret != ""
    ensures Next(Next(Next(s, Save(faults)), Stop), boot).memory.value.open == s.memory.value.open
  {
    var saved := Next(s, Save(faults));
    SettingsStep(s, Save(faults));
    SettingsStep(saved, Stop);
    SettingsStep(Next(saved, Stop), boot);
  }

  /** Settings in memory, if the program runs, and in the document a load would find. */
  ghost predicate HasSettings(s: System, open: Document) {
    LoadConfig(s.disk) - PROTECTED == open && (s.memory.Some? ==> s.memory.value.open == open)
  }

  predicate SetsNothing(e: Step) {
    !e.SetAndSave?
  }

  /** Over every run without a setter, whatever fails in it and whatever the vault does,
      the settings stay what they were. */
  lemma {:induction false} SettingsSurvive(s: System, es: seq<Step>, open: Document)
    requires HasSettings(s, open) && Clean(open) && Run(s, es).Some?
    requires forall i :: 0 <= i < |es| ==> SetsNothing(es[i])
    ensures HasSettings(Run(s, es).value, open)
  {
    if es != [] {
      var n := |es| - 1;
      SettingsSurvive(s, es[..n], open);
      assert SetsNothing(es[n]);
      SettingsStep(Run(s, es[..n]).value, es[n]);
    }
  }

  // ---------- restarts ----------

  /** Without a vault a save and a restart bring the protected globals back as the
      loader normalises them, if the load reads what was saved. */
  lemma RestartWithoutVault(s: System, faults: SaveFaults, boot: Step)
    requires s.memory.Some? && Clean(s.memory.value.open) && !s.vault.configured
    requires Reaches(s.disk, faults) || LoadConfig(s.disk) == Values(s.memory.value)
    requires boot.Boot? && boot.secret != ""
    ensures var back := Next(Next(Next(s, Save(faults)), Stop), boot);
            back.memory.value.secrets == Restored(s.memory.value.secrets, boot.secret)
  {
    LoadSeesLastSaveIff(s.disk, Values(s.memory.value), faults);
    StartAfterSave(Next(s, Save(faults)), boot);
  }

  /** With an open vault the same holds through the sidecar, whatever writes of the
      public document fail. */
  lemma RestartWithVault(s: System, faults: SaveFaults, boot: Step)
    requires s.memory.Some? && Clean(s.memory.value.open) && Seals(s.vault, faults)
    requires boot.Boot? && boot.secret != "" && boot.read.AutoUnlocks() && boot.read.Reads()
    ensures var back := Next(Next(Next(s, Save(faults)), Stop), boot);
            back.memory.value.secrets == Restored(s.memory.value.secrets, boot.secret)
  {
    SealedIgnoresOpen(s.memory.value.secrets, s.memory.value.open);
    StartFromSidecar(Next(Next(s, Save(faults)), Stop), s.memory.value.secrets, boot);
  }

  /** `save_public_config` and a restart, from the globals before the call: where a clear
      text was in use exactly that text is accepted, elsewhere exactly what the credential
      accepted. With an open vault whatever writes fail, and without a vault if the load
      reads what was saved. */
  lemma RestartAcceptsSamePasswords(s: System, h: Hashing, faults: SaveFaults, boot: Step, password: string)
    requires Ideal(h) && s.memory.Some? && Clean(s.memory.value.open)
    requires Rehashed(s.memory.value.secrets, h).Some?
    requires boot.Boot? && boot.secret != ""
    requires if s.vault.configured
             then Seals(s.vault, faults) && boot.read.AutoUnlocks() && boot.read.Reads()
             else Reaches(s.disk, faults)
    ensures var before := s.memory.value.secrets;
            var saved := Saved(s, Globals(Rehashed(before, h).value, s.memory.value.open), faults);
            var back := Next(Next(saved, Stop), boot).memory.value.secrets;
            && (Accepts(h.verify, back.adminCredential, back.adminPassword, password) <==>
                if before.adminPassword != "" then password == before.adminPassword
                else before.adminCredential != "" && h.verify(password, before.adminCredential))
            && (Accepts(h.verify, back.communityCredential, back.communityPassword, password) <==>
                if before.communityPassword != "" then password == before.communityPassword
                else before.communityCredential != "" && h.verify(password, before.communityCredential))
  {
    var before := s.memory.value.secrets;
    var rehashed := Rehashed(before, h).value;
    var changed := s.(memory := Some(s.memory.value.(secrets := rehashed)));
    assert Next(changed, Save(faults)) == Saved(s, Globals(rehashed, s.memory.value.open), faults);
    if s.vault.configured {
      RestartWithVault(changed, faults, boot);
    } else {
      RestartWithoutVault(changed, faults, boot);
    }
    RehashedSurvives(before, h, boot.secret, Admin);
    RehashedSurvives(before, h, boot.secret, Community);
    RehashedAccepts(before, h, password);
  }

  // ---------- clear-text passwords at start ----------

  /** The start hashes every pending password and writes the migrated document. */
  predicate Migrates(d: Document, e: Step)
    requires e.Boot?
  {
    CanHash(d, e.h) && !e.migrationFails
  }

  lemma LoadPasswords(d: Document, secret: string, role: Role)
    ensures PlainIn(Load(d, secret), role) == PlainOf(d, role)
    ensures CredentialIn(Load(d, secret), role) == CredentialOf(d, role)
  {
  }

  /** One password's fields in the document a start goes on with. */
  lemma AfterMigrationFields(disk: Disk, e: Step, role: Role)
    requires e.Boot? && Ideal(e.h)
    ensures var d, config := LoadConfig(disk), AfterMigration(disk, e.h, e.migrationFails).1;
            if Migrates(d, e) then Turned(d, config, role, e.h) else config == d
    ensures LoadConfig(AfterMigration(disk, e.h, e.migrationFails).0) == AfterMigration(disk, e.h, e.migrationFails).1
  {
    MigratesIff(LoadConfig(disk), e.h);
    if Migrates(LoadConfig(disk), e) {
      MigratedFields(LoadConfig(disk), e.h, role);
    }
  }

  /** The passwords a start without a vault accepts, by the document it finds: the one
      its credential knows, and its clear text; migration drops the clear text beside a
      credential and makes text beyond ASCII usable. */
  lemma StartAccepts(s: System, e: Step, role: Role, password: string)
    requires e.Boot? && Possible(s, e) && !s.vault.configured && Ideal(e.h)
    ensures var d := LoadConfig(s.disk);
            var plain, credential := PlainOf(d, role), CredentialOf(d, role);
            AcceptedBy(e.h.verify, Next(s, e).memory.value.secrets, role, password) <==>
            || (credential != "" && e.h.verify(password, credential))
            || (plain != "" && password == plain
                && if Migrates(d, e) then credential == "" else PyText.IsAscii(plain))
  {
    AfterMigrationFields(s.disk, e, role);
    LoadPasswords(AfterMigration(s.disk, e.h, e.migrationFails).1, e.secret, role);
  }

  lemma SavedFields(g: Globals, role: Role)
    requires Clean(g.open)
    ensures LegacyField(role) !in Values(g) && CredentialOf(Values(g), role) == CredentialIn(g.secrets, role)
  {
  }

  /** The document a start without a vault leaves for the next one. */
  lemma StartLeaves(s: System, e: Step, role: Role)
    requires e.Boot? && Possible(s, e) && !s.vault.configured && Ideal(e.h)
    ensures var (disk, config) := AfterMigration(s.disk, e.h, e.migrationFails);
            var left := LoadConfig(Next(s, e).disk);
            if Reaches(disk, e.save)
            then LegacyField(role) !in left && CredentialOf(left, role) == CredentialOf(config, role)
            else left == config
  {
    var (disk, config) := AfterMigration(s.disk, e.h, e.migrationFails);
    var g := Globals(Load(config, e.secret), config - PROTECTED);
    AfterMigrationFields(s.disk, e, role);
    LoadPasswords(config, e.secret, role);
    SavedFields(g, role);
    LoadSeesLastSaveIff(disk, Values(g), e.save);
  }

  /** Exactly when a clear-text password that has no credential survives the first
      start: that start migrates it, which one refused password or a failed write
      prevents; or else its save, which drops clear text, does not reach the file the
      next start reads, and that start can still use the text it finds. No other
      password is ever accepted. */
  lemma PlainPasswordSurvivesIff(s: System, first: Step, second: Step, role: Role, password: string)
    requires s.memory.None? && !s.vault.configured && Pending(LoadConfig(s.disk), role)
    requires first.Boot? && first.secret != "" && Ideal(first.h)
    requires second.Boot? && second.secret != "" && Ideal(second.h) && second.h.verify == first.h.verify
    ensures var d := LoadConfig(s.disk);
            var later := Next(Next(Next(s, first), Stop), second).memory.value.secrets;
            AcceptedBy(first.h.verify, later, role, password) <==>
            && password == PlainOf(d, role)
            && (Migrates(d, first)
                || (!Reaches(s.disk, first.save) && (Migrates(d, second) || PyText.IsAscii(PlainOf(d, role)))))
  {
    AfterMigrationFields(s.disk, first, role);
    StartLeaves(s, first, role);
    StartAccepts(Next(Next(s, first), Stop), second, role, password);
  }

  /** An old configuration with one clear-text password, and a start without a vault. */
  function Legacy(role: Role): Document {
    map[LegacyField(role) := Text("pw")]
  }

  function Unvaulted(disk: Disk): System {
    System(disk, Vault(false, false), None)
  }

  /** The first start accepts the password, the second one accepts none. */
  ghost predicate Forgets(s: System, first: Step, second: Step, role: Role)
    requires s.memory.None? && first.Boot? && first.secret != "" && second.Boot? && second.secret != ""
  {
    && AcceptedBy(first.h.verify, Next(s, first).memory.value.secrets, role, "pw")
    && forall password ::
         !AcceptedBy(first.h.verify, Next(Next(Next(s, first), Stop), second).memory.value.secrets, role, password)
  }

  lemma PlainPasswordForgotten(s: System, first: Step, second: Step, role: Role)
    requires s.memory.None? && !s.vault.configured && LoadConfig(s.disk) == Legacy(role)
    requires first.Boot? && first.secret != "" && Ideal(first.h)
    requires second.Boot? && second.secret != "" && Ideal(second.h) && second.h.verify == first.h.verify
    requires !Migrates(LoadConfig(s.disk), first) && Reaches(s.disk, first.save)
    ensures Forgets(s, first, second, role)
  {
    assert PlainOf(Legacy(role), role) == "pw";
    assert CredentialOf(Legacy(role), role) == "";
    StartAccepts(s, first, role, "pw");
    forall password
      ensures !AcceptedBy(first.h.verify, Next(Next(Next(s, first), Stop), second).memory.value.secrets, role, password)
    {
      PlainPasswordSurvivesIff(s, first, second, role, password);
    }
  }

  /** No write fails, but hashing refuses the password, say because it is too short. */
  lemma RefusedPasswordIsForgotten(first: Step, second: Step, role: Role)
    requires first.Boot? && first.secret != "" && Ideal(first.h) && !first.save.primary && !first.migrationFails
    requires second.Boot? && second.secret != "" && Ideal(second.h) && second.h.verify == first.h.verify
    requires first.h.hash("pw", first.h.salt(role)) == None
    ensures Forgets(Unvaulted(Disk(Holds(Legacy(role)), Missing, Unsealed)), first, second, role)
  {
    var s := Unvaulted(Disk(Holds(Legacy(role)), Missing, Unsealed));
    assert PlainOf(Legacy(role), role) == "pw" && Pending(Legacy(role), role);
    PlainPasswordForgotten(s, first, second, role);
  }

  /** The profile directory cannot be written and the fallback file holds the
      configuration: neither the migration nor the primary save gets through, and the
      save to the fallback file drops the password. */
  lemma FallbackSaveForgetsPassword(first: Step, second: Step, role: Role)
    requires first.Boot? && first.secret != "" && Ideal(first.h)
    requires first.migrationFails && first.save.primary && !first.save.fallback
    requires second.Boot? && second.secret != "" && Ideal(second.h) && second.h.verify == first.h.verify
    ensures Forgets(Unvaulted(Disk(Missing, Holds(Legacy(role)), Unsealed)), first, second, role)
  {
    PlainPasswordForgotten(Unvaulted(Disk(Missing, Holds(Legacy(role)), Unsealed)), first, second, role);
  }

  /** A start without a vault and without a migration. */
  lemma StartUnmigrated(s: System, e: Step)
    requires e.Boot? && Possible(s, e) && !s.vault.configured
    requires e.migrationFails || Migrate(LoadConfig(s.disk), e.h) in {None, Some(LoadConfig(s.disk))}
    ensures var config := LoadConfig(s.disk);
            && Next(s, e).memory == Some(Globals(Load(config, e.secret), config - PROTECTED))
            && Next(s, e).vault == s.vault.(unlocked := false)
  {
  }

  lemma StartAfterSave(s: System, boot: Step)
    requires s.memory.Some? && !s.vault.configured && Clean(s.memory.value.open)
    requires LoadConfig(s.disk) == Values(s.memory.value)
    requires boot.Boot? && boot.secret != ""
    ensures Next(Next(s, Stop), boot).memory.value.secrets == Restored(s.memory.value.secrets, boot.secret)
  {
    var stopped := Next(s, Stop);
    var g := s.memory.value;
    assert "admin_password" !in Values(g) && "community_password" !in Values(g);
    NothingToMigrate(Values(g), boot.h);
    StartUnmigrated(stopped, boot);
    LoadPlain(g.secrets, g.open, boot.secret);
  }
}
