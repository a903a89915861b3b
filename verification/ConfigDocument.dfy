// The configuration document of src/state.py: what the protected globals become when
// they are saved, and what the loader makes of a document again.
//
// Documents are maps from field names to values that are already parsed; the JSON
// text itself is not modelled.
module ConfigDocument {
  import FolderHistory
  import HiddenPaths
  import TrustedDevices

  type FolderEntry = FolderHistory.Entry<string>
  type PairEntry = FolderHistory.Entry<seq<string>>

  datatype Value =
    | Null
    | Text(text: string)
    | Time(time: real)
    | Devices(devices: map<string, TrustedDevices.Device>)
    | Folders(folders: seq<FolderEntry>)
    | Pairs(pairs: seq<PairEntry>)
    | Hidden(hidden: map<string, seq<string>>)
    | Setting(setting: string)

  type Document = map<string, Value>

  /** `_PROTECTED_CONFIG_FIELDS` */
  const PROTECTED: set<string> := {
    "totp_secret", "trusted_devices", "community_password", "admin_password",
    "community_password_credential", "admin_password_credential", "web_password_credential",
    "local_password", "local_password_saved_at", "folder_share_history", "folder_pair_history",
    "hidden_paths"}

  lemma ProtectedIff(key: string)
    ensures key in PROTECTED <==>
            || key == "totp_secret" || key == "trusted_devices" || key == "hidden_paths"
            || key == "community_password" || key == "community_password_credential"
            || key == "admin_password" || key == "admin_password_credential" || key == "web_password_credential"
            || key == "local_password" || key == "local_password_saved_at"
            || key == "folder_share_history" || key == "folder_pair_history"
  {
  }

  /** The globals behind the protected fields. */
  datatype Secrets = Secrets(
    totpSecret: string,
    trustedDevices: map<string, TrustedDevices.Device>,
    communityPassword: string,
    adminPassword: string,
    communityCredential: string,
    adminCredential: string,
    webCredential: string,
    localPassword: string,
    localPasswordSavedAt: real,
    folderShareHistory: seq<FolderEntry>,
    folderPairHistory: seq<PairEntry>,
    hiddenPaths: map<string, seq<string>>)

  // ---------- saving ----------

  /** What `_save_config` collects for the protected fields. The clear-text passwords
      are not among them. */
  function Collected(s: Secrets): Document {
    map["totp_secret" := Text(s.totpSecret),
        "trusted_devices" := Devices(s.trustedDevices),
        "community_password_credential" := Text(s.communityCredential),
        "admin_password_credential" := Text(s.adminCredential),
        "web_password_credential" := Text(s.webCredential),
        "local_password" := Text(s.localPassword),
        "local_password_saved_at" := Time(s.localPasswordSavedAt),
        "folder_share_history" := Folders(s.folderShareHistory),
        "folder_pair_history" := Pairs(s.folderPairHistory),
        "hidden_paths" := Hidden(s.hiddenPaths)]
  }

  /** `{key: values.get(key) for key in _PROTECTED_CONFIG_FIELDS}` */
  function SealedFields(values: Document): Document {
    map key | key in PROTECTED :: if key in values then values[key] else Null
  }

  predicate Clean(d: Document) {
    forall key :: key in d ==> key !in PROTECTED
  }

  // ---------- loading ----------

  /** `config.get(key)` */
  function Get(d: Document, key: string): Value {
    if key in d then d[key] else Null
  }

  /** `str(value or "")` */
  function AsText(v: Value): string {
    if v.Text? then v.text else ""
  }

  function AtLeastOne(n: int): int {
    if n < 1 then 1 else n
  }

  function LoadFolders(es: seq<FolderEntry>): seq<FolderEntry> {
    if es == [] then []
    else
      (if es[0].id != "" then [es[0].(shareCount := AtLeastOne(es[0].shareCount))] else []) + LoadFolders(es[1..])
  }

  function LoadPairs(es: seq<PairEntry>): seq<PairEntry> {
    if es == [] then []
    else
      (if |es[0].id| == 2 then [es[0].(shareCount := AtLeastOne(es[0].shareCount))] else []) + LoadPairs(es[1..])
  }

  /** The loader keeps usable history entries in order, with counts of at least one. */
  lemma LoadFoldersIs(id: string, count: int, at: real, rest: seq<FolderEntry>)
    ensures LoadFolders([]) == []
    ensures LoadFolders([FolderHistory.Entry(id, count, at)] + rest) ==
            if id == "" then LoadFolders(rest)
            else [FolderHistory.Entry(id, if count <= 1 then 1 else count, at)] + LoadFolders(rest)
  {
    assert ([FolderHistory.Entry(id, count, at)] + rest)[1..] == rest;
    assert [] + LoadFolders(rest) == LoadFolders(rest);
  }

  lemma LoadPairsIs(paths: seq<string>, count: int, at: real, rest: seq<PairEntry>)
    ensures LoadPairs([]) == []
    ensures LoadPairs([FolderHistory.Entry(paths, count, at)] + rest) ==
            if |paths| != 2 then LoadPairs(rest)
            else [FolderHistory.Entry(paths, if count <= 1 then 1 else count, at)] + LoadPairs(rest)
  {
    assert ([FolderHistory.Entry(paths, count, at)] + rest)[1..] == rest;
    assert [] + LoadPairs(rest) == LoadPairs(rest);
  }

  function LoadHidden(table: map<string, seq<string>>): map<string, seq<string>> {
    map slot | slot in {"slot-1", "slot-2"} ::
      if slot in table then HiddenPaths.LoadSlot(table[slot]) else []
  }

  /** The globals the loader derives from a document; `secret` is used when the
      document has no authenticator secret. */
  function Load(d: Document, secret: string): Secrets {
    Secrets(
      if AsText(Get(d, "totp_secret")) != "" then AsText(Get(d, "totp_secret")) else secret,
      match Get(d, "trusted_devices") case Devices(devices) => devices case _ => map[],
      AsText(Get(d, "community_password")),
      AsText(Get(d, "admin_password")),
      AsText(Get(d, "community_password_credential")),
      AsText(Get(d, "admin_password_credential")),
      AsText(Get(d, "web_password_credential")),
      AsText(Get(d, "local_password")),
      match Get(d, "local_password_saved_at") case Time(t) => t case _ => 0.0,
      match Get(d, "folder_share_history") case Folders(es) => LoadFolders(es) case _ => [],
      match Get(d, "folder_pair_history") case Pairs(es) => LoadPairs(es) case _ => [],
      LoadHidden(match Get(d, "hidden_paths") case Hidden(table) => table case _ => map[]))
  }

  /** What a document without protected fields leaves in memory. */
  function Blank(secret: string): Secrets {
    Secrets(secret, map[], "", "", "", "", "", "", 0.0, [], [], map["slot-1" := [], "slot-2" := []])
  }

  /** What saving and loading makes of the protected globals. */
  function Restored(s: Secrets, secret: string): Secrets {
    Secrets(
      if s.totpSecret != "" then s.totpSecret else secret,
      s.trustedDevices, "", "", s.communityCredential, s.adminCredential, s.webCredential,
      s.localPassword, s.localPasswordSavedAt,
      LoadFolders(s.folderShareHistory), LoadPairs(s.folderPairHistory), LoadHidden(s.hiddenPaths))
  }

  /** The loader looks at the protected fields only. */
  lemma LoadDependsOn(d: Document, e: Document, secret: string)
    requires forall key :: key in PROTECTED ==> Get(d, key) == Get(e, key)
    ensures Load(d, secret) == Load(e, secret)
  {
  }

  lemma LoadClean(d: Document, secret: string)
    requires Clean(d)
    ensures Load(d, secret) == Blank(secret)
    ensures Load(d, secret) ==
            Secrets(secret, map[], "", "", "", "", "", "", 0.0, [], [], map["slot-1" := [], "slot-2" := []])
  {
    LoadDependsOn(d, map[], secret);
    assert HiddenPaths.LoadSlot([]) == [];
    assert LoadHidden(map[]) == map["slot-1" := [], "slot-2" := []];
  }

  lemma CollectedTexts(s: Secrets)
    ensures var d := Collected(s);
            && AsText(Get(d, "totp_secret")) == s.totpSecret
            && AsText(Get(d, "community_password")) == "" == AsText(Get(d, "admin_password"))
            && AsText(Get(d, "community_password_credential")) == s.communityCredential
            && AsText(Get(d, "admin_password_credential")) == s.adminCredential
            && AsText(Get(d, "web_password_credential")) == s.webCredential
            && AsText(Get(d, "local_password")) == s.localPassword
  {
  }

  lemma CollectedOthers(s: Secrets)
    ensures var d := Collected(s);
            && Get(d, "trusted_devices") == Devices(s.trustedDevices)
            && Get(d, "local_password_saved_at") == Time(s.localPasswordSavedAt)
            && Get(d, "folder_share_history") == Folders(s.folderShareHistory)
            && Get(d, "folder_pair_history") == Pairs(s.folderPairHistory)
            && Get(d, "hidden_paths") == Hidden(s.hiddenPaths)
  {
  }

  lemma LoadCollected(s: Secrets, secret: string)
    ensures Load(Collected(s), secret) == Restored(s, secret)
  {
    CollectedTexts(s);
    CollectedOthers(s);
  }

  /** The same for a document that was saved without a vault. */
  lemma LoadPlain(s: Secrets, open: Document, secret: string)
    requires Clean(open)
    ensures Load(Collected(s) + open, secret) == Restored(s, secret)
  {
    LoadCollected(s, secret);
    LoadDependsOn(Collected(s) + open, Collected(s), secret);
  }

  /** The sealed fields override whatever the public document says about them. */
  lemma LoadSealed(s: Secrets, rest: Document, open: Document, secret: string)
    requires Clean(open)
    ensures Load(rest + SealedFields(Collected(s) + open), secret) == Restored(s, secret)
  {
    var values := Collected(s) + open;
    LoadPlain(s, open, secret);
    forall key | key in PROTECTED
      ensures Get(rest + SealedFields(values), key) == Get(values, key)
    {
      SealedGet(rest, values, key);
    }
    LoadDependsOn(rest + SealedFields(values), values, secret);
  }

  lemma SealedGet(rest: Document, values: Document, key: string)
    requires key in PROTECTED
    ensures Get(rest + SealedFields(values), key) == Get(values, key)
  {
  }

  // ---------- what survives exactly ----------

  ghost predicate KeptFolders(es: seq<FolderEntry>) {
    forall i :: 0 <= i < |es| ==> es[i].id != "" && es[i].shareCount >= 1
  }

  ghost predicate KeptPairs(es: seq<PairEntry>) {
    forall i :: 0 <= i < |es| ==> |es[i].id| == 2 && es[i].shareCount >= 1
  }

  lemma {:induction false} LoadFoldersIff(es: seq<FolderEntry>)
    ensures LoadFolders(es) == es <==> KeptFolders(es)
    ensures |LoadFolders(es)| <= |es|
  {
    if es != [] {
      LoadFoldersIff(es[1..]);
      assert es == [es[0]] + es[1..];
      if LoadFolders(es) == es {
        assert es[0].id != "" && LoadFolders(es)[0] == es[0] && LoadFolders(es)[1..] == LoadFolders(es[1..]);
      }
      if KeptFolders(es) {
        assert KeptFolders(es[1..]);
      }
      assert forall i :: 0 < i < |es| ==> es[i] == es[1..][i - 1];
    }
  }

  lemma {:induction false} LoadPairsIff(es: seq<PairEntry>)
    ensures LoadPairs(es) == es <==> KeptPairs(es)
    ensures |LoadPairs(es)| <= |es|
  {
    if es != [] {
      LoadPairsIff(es[1..]);
      assert es == [es[0]] + es[1..];
      if LoadPairs(es) == es {
        assert |es[0].id| == 2 && LoadPairs(es)[0] == es[0] && LoadPairs(es)[1..] == LoadPairs(es[1..]);
      }
      if KeptPairs(es) {
        assert KeptPairs(es[1..]);
      }
      assert forall i :: 0 < i < |es| ==> es[i] == es[1..][i - 1];
    }
  }

  /** Exactly which globals survive a save and a load unchanged: a secret is set, no
      clear-text password is in use, every history entry is usable, and the two slots
      of hidden paths are as the loader would write them. */
  lemma RestoredIff(s: Secrets, secret: string)
    requires secret != ""
    ensures Restored(s, secret) == s <==>
            && s.totpSecret != ""
            && s.communityPassword == "" && s.adminPassword == ""
            && KeptFolders(s.folderShareHistory) && KeptPairs(s.folderPairHistory)
            && s.hiddenPaths.Keys == {"slot-1", "slot-2"}
            && HiddenPaths.LoadSlot(s.hiddenPaths["slot-1"]) == s.hiddenPaths["slot-1"]
            && HiddenPaths.LoadSlot(s.hiddenPaths["slot-2"]) == s.hiddenPaths["slot-2"]
  {
    LoadFoldersIff(s.folderShareHistory);
    LoadPairsIff(s.folderPairHistory);
    var h := s.hiddenPaths;
    var loaded := LoadHidden(h);
    assert loaded.Keys == {"slot-1", "slot-2"};
    if loaded == h {
      assert loaded["slot-1"] == h["slot-1"] && loaded["slot-2"] == h["slot-2"];
    } else if h.Keys == {"slot-1", "slot-2"} {
      assert exists slot :: slot in loaded && loaded[slot] != h[slot];
    }
  }
}
