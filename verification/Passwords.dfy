// Administrator and community passwords of src/state.py: hashed credentials, the
// clear-text passwords that older configurations hold, and the step from one to the
// other.
//
// Hashing and verifying are parameters.  `hash_password` may refuse a password (it
// raises for one that is too short, for instance); all that is assumed of it is that
// a credential it does make accepts exactly the password it was made from.
module Passwords {
  import opened Wrappers
  import opened ConfigDocument
  import opened PyText
  import TrustedDevices

  datatype Role = Admin | Community

  type Hash = (string, string) -> Option<string>    // password, salt; `None` when refused
  type Verify = (string, string) -> bool            // password, credential

  /** The two functions, and the salts drawn by one migration or save. */
  datatype Hashing = Hashing(hash: Hash, verify: Verify, salt: Role -> string)

  ghost predicate Ideal(h: Hashing) {
    && (forall p, salt :: h.hash(p, salt).Some? ==> h.hash(p, salt).value != "")
    && (forall p, q, salt :: h.hash(p, salt).Some? ==> (h.verify(q, h.hash(p, salt).value) <==> q == p))
  }

  // ---------- checking a password ----------

  /** `verify_admin_password` and `verify_community_password`: the credential first,
      then the clear-text password, whose comparison raises beyond ASCII. */
  function Answer(verify: Verify, credential: string, plain: string, password: string): Result<bool> {
    if credential != "" && verify(password, credential) then Ok(true)
    else if plain != "" then TrustedDevices.ComparesEqual(password, plain)
    else Ok(false)
  }

  predicate Accepts(verify: Verify, credential: string, plain: string, password: string) {
    Answer(verify, credential, plain, password) == Ok(true)
  }

  /** The answer in words: true for what the credential knows and for the clear text; the
      clear text cannot be compared when it, or the password, goes beyond ASCII. */
  lemma AnswerIs(verify: Verify, credential: string, plain: string, password: string)
    ensures var known := credential != "" && verify(password, credential);
            && (Answer(verify, credential, plain, password) == Ok(true) <==>
                known || (plain != "" && password == plain && IsAscii(plain)))
            && (Answer(verify, credential, plain, password).Err? <==>
                !known && plain != "" && !(IsAscii(plain) && IsAscii(password)))
  {
  }

  /** Two settings accept the same passwords. */
  ghost predicate SameAccepted(verify: Verify, credential: string, plain: string, credential': string, plain': string) {
    forall q :: Accepts(verify, credential, plain, q) <==> Accepts(verify, credential', plain', q)
  }

  // ---------- migrating a configuration ----------

  function LegacyField(role: Role): string {
    match role case Admin => "admin_password" case Community => "community_password"
  }

  function CredentialField(role: Role): string {
    match role case Admin => "admin_password_credential" case Community => "community_password_credential"
  }

  function PlainOf(d: Document, role: Role): string {
    AsText(Get(d, LegacyField(role)))
  }

  function CredentialOf(d: Document, role: Role): string {
    AsText(Get(d, CredentialField(role)))
  }

  /** A clear-text password without a credential. */
  predicate Pending(d: Document, role: Role) {
    PlainOf(d, role) != "" && CredentialOf(d, role) == ""
  }

  /** `if migrated.get(credential): migrated.pop(legacy, None)` */
  function WithoutLegacy(d: Document, role: Role): Document {
    if CredentialOf(d, role) != "" then d - {LegacyField(role)} else d
  }

  /** One turn of the loop; `None` when hashing refuses, or its result does not verify. */
  function MigrateOne(d: Document, role: Role, h: Hashing): Option<Document> {
    if Pending(d, role) then
      match h.hash(PlainOf(d, role), h.salt(role))
      case None => None
      case Some(candidate) =>
        if h.verify(PlainOf(d, role), candidate)
        then Some(WithoutLegacy(d[CredentialField(role) := Text(candidate)], role)) else None
    else Some(WithoutLegacy(d, role))
  }

  /** `_migrate_password_credentials`; `None` when it raises. */
  function Migrate(d: Document, h: Hashing): Option<Document> {
    match MigrateOne(d, Admin, h)
    case None => None
    case Some(admin) => MigrateOne(admin, Community, h)
  }

  /** Every pending password can be hashed. */
  predicate CanHash(d: Document, h: Hashing) {
    forall role: Role :: Pending(d, role) ==> h.hash(PlainOf(d, role), h.salt(role)).Some?
  }

  /** Migrating one password does not touch the other one's fields. */
  lemma OtherUntouched(d: Document, role: Role, h: Hashing, other: Role)
    requires role != other && MigrateOne(d, role, h).Some?
    ensures var e := MigrateOne(d, role, h).value;
            && PlainOf(e, other) == PlainOf(d, other) && CredentialOf(e, other) == CredentialOf(d, other)
            && (LegacyField(other) in e <==> LegacyField(other) in d)
  {
  }

  /** A pending password gets a credential that verifies. */
  predicate Hashes(d: Document, role: Role, h: Hashing) {
    Pending(d, role) ==>
      h.hash(PlainOf(d, role), h.salt(role)).Some?
      && h.verify(PlainOf(d, role), h.hash(PlainOf(d, role), h.salt(role)).value)
  }

  /** Migration happens exactly when every pending password gets a credential that
      verifies; one that does not keeps the other from being migrated as well. */
  lemma MigratesOnlyVerified(d: Document, h: Hashing)
    ensures Migrate(d, h).Some? <==> Hashes(d, Admin, h) && Hashes(d, Community, h)
  {
    if MigrateOne(d, Admin, h).Some? {
      OtherUntouched(d, Admin, h, Community);
    }
  }

  /** With ideal hashing that is when every pending password can be hashed. */
  lemma MigratesIff(d: Document, h: Hashing)
    requires Ideal(h)
    ensures Migrate(d, h).Some? <==> CanHash(d, h)
  {
    MigratesOnlyVerified(d, h);
    assert CanHash(d, h) <==>
           (Pending(d, Admin) ==> h.hash(PlainOf(d, Admin), h.salt(Admin)).Some?)
           && (Pending(d, Community) ==> h.hash(PlainOf(d, Community), h.salt(Community)).Some?);
  }

  /** One password's fields after its turn. */
  predicate Turned(before: Document, after: Document, role: Role, h: Hashing) {
    && (Pending(before, role) ==> h.hash(PlainOf(before, role), h.salt(role)).Some?)
    && CredentialOf(after, role) == (if Pending(before, role) then h.hash(PlainOf(before, role), h.salt(role)).value
                                     else CredentialOf(before, role))
    && (LegacyField(role) in after <==> LegacyField(role) in before && CredentialOf(after, role) == "")
    && PlainOf(after, role) == if CredentialOf(after, role) != "" then "" else PlainOf(before, role)
  }

  /** Migration touches the four password fields only. */
  lemma OtherFieldsUntouched(d: Document, h: Hashing, key: string)
    requires Migrate(d, h).Some?
    requires key != "admin_password" && key != "admin_password_credential"
    requires key != "community_password" && key != "community_password_credential"
    ensures key in Migrate(d, h).value <==> key in d
    ensures key in d ==> Migrate(d, h).value[key] == d[key]
  {
  }

  lemma OneTurn(d: Document, role: Role, h: Hashing)
    requires MigrateOne(d, role, h).Some?
    ensures Turned(d, MigrateOne(d, role, h).value, role, h)
  {
  }

  /** What migration does to each password's two fields. */
  lemma MigratedFields(d: Document, h: Hashing, role: Role)
    requires Migrate(d, h).Some?
    ensures Turned(d, Migrate(d, h).value, role, h)
  {
    var admin := MigrateOne(d, Admin, h).value;
    OneTurn(d, Admin, h);
    OneTurn(admin, Community, h);
    OtherUntouched(d, Admin, h, Community);
    OtherUntouched(admin, Community, h, Admin);
  }

  /** Nothing is left to migrate: no clear text, or at least none beside a credential. */
  predicate Settled(d: Document, role: Role) {
    if CredentialOf(d, role) != "" then LegacyField(role) !in d else PlainOf(d, role) == ""
  }

  lemma SettledIsFixed(d: Document, h: Hashing)
    requires Settled(d, Admin) && Settled(d, Community)
    ensures Migrate(d, h) == Some(d)
  {
    assert forall role: Role :: LegacyField(role) !in d ==> d - {LegacyField(role)} == d;
  }

  /** A second migration changes nothing, whatever salts and whatever hashing it has. */
  lemma MigrateTwice(d: Document, h: Hashing, other: Hashing)
    requires Ideal(h) && Migrate(d, h).Some?
    ensures Migrate(Migrate(d, h).value, other) == Migrate(d, h)
  {
    MigratedFields(d, h, Admin);
    MigratedFields(d, h, Community);
    SettledIsFixed(Migrate(d, h).value, other);
  }

  /** Exactly when migration keeps the set of accepted passwords. With no credential
      before, it does for every ASCII password; a password beyond ASCII, which the
      clear-text comparison could never accept, becomes usable. With a credential
      already there, the clear text is dropped, so it does unless that text was an
      acceptable password the credential does not know. */
  lemma MigrationKeepsAcceptanceIff(d: Document, h: Hashing, role: Role)
    requires Ideal(h) && Migrate(d, h).Some?
    ensures var plain, credential := PlainOf(d, role), CredentialOf(d, role);
            var after := Migrate(d, h).value;
            SameAccepted(h.verify, credential, plain, CredentialOf(after, role), PlainOf(after, role))
            <==>
            plain == "" || (if credential == "" then IsAscii(plain) else IsAscii(plain) ==> h.verify(plain, credential))
  {
    var plain, credential := PlainOf(d, role), CredentialOf(d, role);
    var after := Migrate(d, h).value;
    MigratedFields(d, h, role);
    var credential', plain' := CredentialOf(after, role), PlainOf(after, role);
    if plain != "" {
      assert Accepts(h.verify, credential', plain', plain) <==> h.verify(plain, credential');
      assert Accepts(h.verify, credential, plain, plain) <==>
             IsAscii(plain) || (credential != "" && h.verify(plain, credential));
    }
  }

  /** Never fewer: with no credential before, whatever was accepted still is. */
  lemma MigrationLosesNothing(d: Document, h: Hashing, role: Role, password: string)
    requires Ideal(h) && Migrate(d, h).Some?
    requires CredentialOf(d, role) == "" && Accepts(h.verify, "", PlainOf(d, role), password)
    ensures var after := Migrate(d, h).value;
            Accepts(h.verify, CredentialOf(after, role), PlainOf(after, role), password)
            && PlainOf(after, role) == ""
  {
    MigratedFields(d, h, role);
  }

  // ---------- the globals ----------

  function PlainIn(s: Secrets, role: Role): string {
    match role case Admin => s.adminPassword case Community => s.communityPassword
  }

  function CredentialIn(s: Secrets, role: Role): string {
    match role case Admin => s.adminCredential case Community => s.communityCredential
  }

  function WithCredential(s: Secrets, role: Role, credential: string): Secrets {
    match role
    case Admin => s.(adminCredential := credential)
    case Community => s.(communityCredential := credential)
  }

  /** `verify_admin_password` and `verify_community_password` on the globals. */
  predicate AcceptedBy(verify: Verify, s: Secrets, role: Role, password: string) {
    Accepts(verify, CredentialIn(s, role), PlainIn(s, role), password)
  }

  // ---------- saving ----------

  /** A password in use becomes a credential; `None` when hashing refuses it. */
  function RehashedOne(s: Secrets, role: Role, h: Hashing): Option<Secrets> {
    if PlainIn(s, role) == "" then Some(s)
    else
      match h.hash(PlainIn(s, role), h.salt(role))
      case None => None
      case Some(credential) => Some(WithCredential(s, role, credential))
  }

  /** `save_public_config` before its save; `None` when it raises. */
  function Rehashed(s: Secrets, h: Hashing): Option<Secrets> {
    match RehashedOne(s, Community, h)
    case None => None
    case Some(mid) => RehashedOne(mid, Admin, h)
  }

  /** What `save_public_config` does to the globals: a clear text in use gets a credential
      made from it, and a credential without a clear text beside it stays; nothing else
      changes. It raises exactly when a clear text in use cannot be hashed. */
  lemma RehashedIs(s: Secrets, h: Hashing)
    ensures Rehashed(s, h).Some? <==>
            && (s.communityPassword == "" || h.hash(s.communityPassword, h.salt(Community)).Some?)
            && (s.adminPassword == "" || h.hash(s.adminPassword, h.salt(Admin)).Some?)
    ensures Rehashed(s, h).Some? ==>
              var r := Rehashed(s, h).value;
              && r == s.(adminCredential := r.adminCredential, communityCredential := r.communityCredential)
              && (s.adminPassword == "" ==> r.adminCredential == s.adminCredential)
              && (s.communityPassword == "" ==> r.communityCredential == s.communityCredential)
              && (s.adminPassword != "" ==> Some(r.adminCredential) == h.hash(s.adminPassword, h.salt(Admin)))
              && (s.communityPassword != "" ==>
                    Some(r.communityCredential) == h.hash(s.communityPassword, h.salt(Community)))
  {
  }

  /** The passwords accepted afterwards: with a clear text in use exactly that text,
      without one exactly those the credential accepted before. */
  lemma RehashedAccepts(s: Secrets, h: Hashing, password: string)
    requires Ideal(h) && Rehashed(s, h).Some?
    ensures var r := Rehashed(s, h).value;
            && (Accepts(h.verify, r.adminCredential, r.adminPassword, password) <==>
                if s.adminPassword != "" then password == s.adminPassword
                else s.adminCredential != "" && h.verify(password, s.adminCredential))
            && (Accepts(h.verify, r.communityCredential, r.communityPassword, password) <==>
                if s.communityPassword != "" then password == s.communityPassword
                else s.communityCredential != "" && h.verify(password, s.communityCredential))
  {
    RehashedIs(s, h);
  }

  /** A save keeps credentials and drops clear text. So a restart accepts the same
      passwords exactly when the clear text is empty, useless, or known to the
      credential. */
  lemma DroppingPlainKeepsIff(verify: Verify, credential: string, plain: string)
    ensures SameAccepted(verify, credential, plain, credential, "") <==>
            plain == "" || !IsAscii(plain) || (credential != "" && verify(plain, credential))
  {
    assert Accepts(verify, credential, plain, plain) <==>
           (credential != "" && verify(plain, credential)) || (plain != "" && IsAscii(plain));
    assert Accepts(verify, credential, "", plain) <==> credential != "" && verify(plain, credential);
  }

  /** After `save_public_config` that condition always holds. */
  lemma RehashedSurvives(s: Secrets, h: Hashing, secret: string, role: Role)
    requires Ideal(h) && Rehashed(s, h).Some?
    ensures var saved := Rehashed(s, h).value;
            var back := Restored(saved, secret);
            && PlainIn(saved, role) == PlainIn(s, role)
            && (PlainIn(s, role) != "" ==> h.verify(PlainIn(s, role), CredentialIn(saved, role)))
            && SameAccepted(h.verify, CredentialIn(saved, role), PlainIn(saved, role),
                            CredentialIn(back, role), PlainIn(back, role))
  {
    var saved := Rehashed(s, h).value;
    DroppingPlainKeepsIff(h.verify, CredentialIn(saved, role), PlainIn(saved, role));
  }
}
