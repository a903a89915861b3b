// The functions of src/state.py that read and write the configuration, statement by
// statement, each proved against the machine of module ConfigStore.
module ServerState {
  import opened Wrappers
  import opened ConfigDocument
  import opened ConfigStore
  import opened Passwords
  import opened PyDict
  import PyText
  import TrustedDevices

  class State {
    // files
    var primary: File
    var fallback: File
    var sidecar: Sidecar
    // the data vault
    var configured: bool
    var unlocked: bool
    // module globals
    var secrets: Secrets
    var open: Document
    var localPassword: string
    var bootError: bool

    function OnDisk(): Disk
      reads this
    {
      Disk(primary, fallback, sidecar)
    }

    function Now(): System
      reads this
    {
      System(OnDisk(), Vault(configured, unlocked), Some(Globals(secrets, open)))
    }

    /** Importing the module: load, migrate, merge, derive the globals, save. */
    constructor (disk: Disk, vaultConfigured: bool, h: Hashing, migrationFails: bool, read: ReadFaults,
                 randomSecret: string, faults: SaveFaults)
      ensures Now() == BootSystem(System(disk, Vault(vaultConfigured, false), None),
                                  ConfigStore.Boot(h, migrationFails, read, randomSecret, faults))
      ensures localPassword == secrets.localPassword
    {
      primary, fallback, sidecar := disk.primary, disk.fallback, disk.sidecar;
      configured, unlocked, bootError := vaultConfigured, false, false;
      secrets, open, localPassword := Blank(randomSecret), map[], "";
      new;
      Import(h, migrationFails, read, randomSecret, faults);
    }

    method Import(h: Hashing, migrationFails: bool, read: ReadFaults, randomSecret: string, faults: SaveFaults)
      requires !unlocked
      modifies this
      ensures configured == old(configured)
      ensures Now() == BootSystem(System(old(OnDisk()), Vault(old(configured), false), None),
                                  ConfigStore.Boot(h, migrationFails, read, randomSecret, faults))
      ensures localPassword == secrets.localPassword
    {
      var config := LoadAndMigrate(h, migrationFails);
      DeriveGlobals(config, read, randomSecret);
      SaveConfig(faults);
    }

    /** The globals derived at import time from the merged configuration. */
    method DeriveGlobals(config: Document, read: ReadFaults, randomSecret: string)
      modifies this`secrets, this`open, this`localPassword, this`unlocked, this`bootError
      ensures unlocked == (old(unlocked) || (configured && read.AutoUnlocks()))
      ensures secrets == Load(Merged(config, OnDisk(), Vault(configured, unlocked), read.Reads()), randomSecret)
      ensures open == Merged(config, OnDisk(), Vault(configured, unlocked), read.Reads()) - PROTECTED
      ensures localPassword == secrets.localPassword
    {
      var merged := MergeProtectedConfig(config, read);
      secrets := Load(merged, randomSecret);
      localPassword := secrets.localPassword;
      open := merged - PROTECTED;
    }

    /** Loading and the one-time migration, which is given up when it raises or cannot be
        written. */
    method LoadAndMigrate(h: Hashing, migrationFails: bool) returns (config: Document)
      modifies this`primary
      ensures (OnDisk(), config) == AfterMigration(old(OnDisk()), h, migrationFails)
    {
      config := ReadConfig();
      var migration := MigratePasswordCredentials(config, h);
      var migrated := if migration.Ok? then migration.value else config;
      if migrated != config && !migrationFails {
        primary := Holds(migrated);
        config := migrated;
      }
    }

    /** `_load_config` */
    method ReadConfig() returns (config: Document)
      ensures config == LoadConfig(OnDisk())
    {
      var files := [primary, fallback];
      var i := 0;
      while i < |files|
        invariant 0 <= i <= |files|
        invariant i > 0 ==> !files[0].Holds?
        invariant i > 1 ==> !files[1].Holds?
      {
        if files[i].Holds? {
          return files[i].document;
        }
        i := i + 1;
      }
      config := map[];
    }

    /** `_migrate_password_credentials`: both pairs in turn. It raises when hashing
        refuses a password, or makes a credential that does not verify. */
    method MigratePasswordCredentials(config: Document, h: Hashing) returns (r: Result<Document>)
      ensures r.Ok? ==> Migrate(config, h) == Some(r.value)
      ensures r.Err? ==> Migrate(config, h) == None && r.error in {ValueError, RuntimeError}
      ensures r.Ok? <==> Hashes(config, Admin, h) && Hashes(config, Community, h)
    {
      MigratesOnlyVerified(config, h);
      var migrated := config;
      var roles := [Admin, Community];
      var i := 0;
      while i < |roles|
        invariant 0 <= i <= |roles|
        invariant i == 0 ==> migrated == config
        invariant i == 1 ==> MigrateOne(config, Admin, h) == Some(migrated)
        invariant i == 2 ==> Migrate(config, h) == Some(migrated)
      {
        var legacy, credential := LegacyField(roles[i]), CredentialField(roles[i]);
        var plaintext := AsText(Get(migrated, legacy));
        if plaintext != "" && AsText(Get(migrated, credential)) == "" {
          var candidate := h.hash(plaintext, h.salt(roles[i]));
          if candidate.None? {
            return Err(ValueError);
          }
          if !h.verify(plaintext, candidate.value) {
            return Err(RuntimeError);
          }
          migrated := migrated[credential := Text(candidate.value)];
        }
        if AsText(Get(migrated, credential)) != "" {
          migrated := migrated - {legacy};
        }
        i := i + 1;
      }
      r := Ok(migrated);
    }

    /** The loop that copies the named fields of one document over another. */
    static method CopyFields(config: Document, fields: Document, names: set<string>) returns (merged: Document)
      ensures merged == config + Part(fields, names)
    {
      merged := config;
      var left := names;
      while left != {}
        invariant left <= names
        invariant merged == config + Part(fields, names - left)
        decreases |left|
      {
        var key :| key in left;
        if key in fields {
          merged := merged[key := fields[key]];
        }
        PartGrows(fields, names - left, key);
        assert names - (left - {key}) == (names - left) + {key};
        left := left - {key};
      }
      assert names - left == names;
    }

    static lemma PartGrows(fields: Document, names: set<string>, key: string)
      ensures Part(fields, names + {key}) ==
              if key in fields then Part(fields, names)[key := fields[key]] else Part(fields, names)
    {
    }

    /** `_merge_protected_config`: an automatic unlock is tried only on a locked vault.
        Whatever raises, be it the vault's lookup, its unlock or the decryption, the
        public document alone is used and the error remembered. */
    method MergeProtectedConfig(config: Document, read: ReadFaults) returns (merged: Document)
      modifies this`unlocked, this`bootError
      ensures unlocked == (old(unlocked) || (configured && read.AutoUnlocks()))
      ensures merged == Merged(config, OnDisk(), Vault(configured, unlocked), read.Reads())
      ensures bootError ==
              (read.lookupRaises
               || (configured && !old(unlocked) && read.unlocking.Raised?)
               || (if configured && unlocked && sidecar.SealedWith? then !read.decrypts else old(bootError)))
    {
      if read.lookupRaises {
        bootError := true;
        return config;
      }
      if !configured {
        return config;
      }
      if !unlocked {
        if read.unlocking.Raised? {
          bootError := true;
          return config;
        }
        unlocked := read.unlocking.Opened?;
      }
      if !unlocked || sidecar.Unsealed? {
        return config;
      }
      if !read.decrypts {
        bootError := true;
        return config;
      }
      merged := CopyFields(config, sidecar.fields, PROTECTED);
      bootError := false;
    }

    /** `_save_config`: seal, withhold, write, with both exception handlers. */
    method SaveConfig(faults: SaveFaults)
      modifies this`primary, this`fallback, this`sidecar
      ensures OnDisk() == SaveDisk(old(OnDisk()), Vault(configured, unlocked), Globals(secrets, open), faults)
    {
      var values := Values(Globals(secrets, open));
      var public := values;
      var raised := faults.firstLookup;
      if !raised && configured {
        if unlocked {
          if faults.encrypt {
            raised := true;
          } else {
            sidecar := SealedWith(SealedFields(values));
          }
        }
        if !raised {
          public := PopAll(values, PROTECTED);
        }
      }
      if raised && !faults.secondLookup && configured {
        public := PopAll(values, PROTECTED);
      }
      if !faults.primary {
        primary := Holds(public);
      } else if !faults.fallback {
        fallback := Holds(public);
      }
    }

    /** A setter: assign the globals it is about, then save. */
    method SetAndSave(newSecrets: Secrets, newOpen: Document, faults: SaveFaults)
      modifies this`primary, this`fallback, this`sidecar, this`secrets, this`open
      ensures Now() == Saved(old(Now()), Globals(newSecrets, newOpen), faults)
      ensures secrets == newSecrets && open == newOpen
    {
      secrets, open := newSecrets, newOpen;
      SaveConfig(faults);
    }

    /** `save_public_config`: when hashing refuses a password it raises before the save,
        possibly with the other password hashed already. */
    method SavePublicConfig(h: Hashing, faults: SaveFaults) returns (r: Result<()>)
      modifies this`primary, this`fallback, this`sidecar, this`secrets
      ensures r.Ok? <==> Rehashed(old(secrets), h).Some?
      ensures old(secrets).adminPassword == "" ==> secrets.adminCredential == old(secrets).adminCredential
      ensures old(secrets).communityPassword == "" ==> secrets.communityCredential == old(secrets).communityCredential
      ensures r.Ok? ==> secrets == Rehashed(old(secrets), h).value
                        && Now() == Saved(old(Now()), Globals(secrets, open), faults)
      ensures r.Err? ==> r.error == ValueError && OnDisk() == old(OnDisk())
      ensures r.Err? ==> secrets == if RehashedOne(old(secrets), Community, h).Some?
                                    then RehashedOne(old(secrets), Community, h).value else old(secrets)
    {
      if secrets.communityPassword != "" {
        var credential := h.hash(secrets.communityPassword, h.salt(Community));
        if credential.None? {
          return Err(ValueError);
        }
        secrets := secrets.(communityCredential := credential.value);
      }
      if secrets.adminPassword != "" {
        var credential := h.hash(secrets.adminPassword, h.salt(Admin));
        if credential.None? {
          return Err(ValueError);
        }
        secrets := secrets.(adminCredential := credential.value);
      }
      SaveConfig(faults);
      r := Ok(());
    }

    /** `verify_admin_password`: the credential first, then the clear text. */
    method VerifyAdminPassword(verify: Verify, password: string) returns (r: Result<bool>)
      ensures r == Ok(true) <==> (secrets.adminCredential != "" && verify(password, secrets.adminCredential))
                                 || (secrets.adminPassword != "" && password == secrets.adminPassword
                                     && PyText.IsAscii(password))
      ensures r == Answer(verify, secrets.adminCredential, secrets.adminPassword, password)
    {
      if secrets.adminCredential != "" && verify(password, secrets.adminCredential) {
        return Ok(true);
      }
      if secrets.adminPassword == "" {
        return Ok(false);
      }
      r := TrustedDevices.ComparesEqual(password, secrets.adminPassword);
    }

    /** `verify_community_password` */
    method VerifyCommunityPassword(verify: Verify, password: string) returns (r: Result<bool>)
      ensures r == Ok(true) <==> (secrets.communityCredential != "" && verify(password, secrets.communityCredential))
                                 || (secrets.communityPassword != "" && password == secrets.communityPassword
                                     && PyText.IsAscii(password))
      ensures r == Answer(verify, secrets.communityCredential, secrets.communityPassword, password)
    {
      if secrets.communityCredential != "" && verify(password, secrets.communityCredential) {
        return Ok(true);
      }
      if secrets.communityPassword == "" {
        return Ok(false);
      }
      r := TrustedDevices.ComparesEqual(password, secrets.communityPassword);
    }

    /** `reload_protected_vault_state`: refuses a vault that is not open; when an
        existing sidecar cannot be read, the globals stay as they were. Its own lookup
        of the vault is not guarded. */
    method ReloadProtectedVaultState(lookupRaises: bool, read: ReadFaults, randomSecret: string)
      returns (r: Result<bool>)
      modifies this`secrets, this`localPassword, this`bootError, this`unlocked
      ensures localPassword == if r == Ok(true) then secrets.localPassword else old(localPassword)
      ensures r.Err? <==> lookupRaises
      ensures r.Err? ==> Now() == old(Now()) && bootError == old(bootError)
      ensures r.Ok? ==> (r.value <==> configured && old(unlocked) && (sidecar.SealedWith? ==> read.Reads()))
      ensures r.Ok? ==> Now() == if configured && old(unlocked)
                                 then ReloadSystem(old(Now()), read.Reads(), randomSecret) else old(Now())
      ensures r.Ok? ==> bootError == if configured && old(unlocked) then !r.value else old(bootError)
    {
      if lookupRaises {
        return Err(RuntimeError);
      }
      if !configured || !unlocked {
        return Ok(false);
      }
      var config := ReadConfig();
      var merged := MergeProtectedConfig(config, read);
      if sidecar.SealedWith? && bootError {
        return Ok(false);
      }
      secrets := Load(merged, if secrets.totpSecret != "" then secrets.totpSecret else randomSecret);
      localPassword := secrets.localPassword;
      bootError := false;
      r := Ok(true);
    }

    /** `try_auto_unlock_data_vault`: `unlocking` is the outcome of the one automatic
        route the vault's mode allows. Whatever raises is remembered; an existing
        sidecar that cannot be read is as well; a vault that just stays locked is not. */
    method TryAutoUnlockDataVault(lookupRaises: bool, unlocking: Unlocking, reloadRaises: bool, read: ReadFaults,
                                  randomSecret: string) returns (ok: bool)
      requires randomSecret != ""
      modifies this`secrets, this`localPassword, this`bootError, this`unlocked
      ensures localPassword == if ok && configured then secrets.localPassword else old(localPassword)
      ensures lookupRaises ==> !ok && Now() == old(Now()) && bootError
      ensures !lookupRaises && !configured ==> ok && Now() == old(Now()) && !bootError
      ensures !lookupRaises && configured && !old(unlocked) && !unlocking.Opened? ==>
                !ok && Now() == old(Now()) && bootError == (unlocking.Raised? || old(bootError))
      ensures !lookupRaises && configured && (old(unlocked) || unlocking.Opened?) ==>
                && bootError == !ok
                && (ok <==> !reloadRaises && (sidecar.SealedWith? ==> read.Reads()))
                && Now() == if reloadRaises then old(Now()).(vault := Vault(true, true))
                            else Next(old(Now()), UnlockAndReload(read, randomSecret))
    {
      if lookupRaises {
        bootError := true;
        return false;
      }
      if !configured {
        bootError := false;
        return true;
      }
      if !unlocked {
        if !unlocking.Opened? {
          if unlocking.Raised? {
            bootError := true;
          }
          return false;
        }
        unlocked := true;
      }
      var reloaded := ReloadProtectedVaultState(reloadRaises, read, randomSecret);
      if reloaded.Err? {
        bootError := true;
        return false;
      }
      if !reloaded.value {
        return false;
      }
      bootError := false;
      ok := true;
    }
  }
}
