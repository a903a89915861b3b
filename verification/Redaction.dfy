// Structured redaction of src/application/observability.py: log payloads are trees,
// and everything below a sensitive key is replaced before a sink sees it.
//
// Lower-casing and the pattern-based scrubbing of plain text are parameters; nothing
// is assumed of either.
module Redaction {
  import opened Wrappers

  datatype Atom = NoneAtom | Bool(b: bool) | Int(i: int) | Float(r: real)

  /** Sequences of any kind are `Items`; a value of any other type is known by its
      `str()`. */
  datatype Value =
    | Mapping(entries: seq<(string, Value)>)
    | Items(items: seq<Value>)
    | Text(text: string)
    | Scalar(atom: Atom)
    | Other(repr: string)

  const SENSITIVE_KEYS: set<string> := {
    "password", "local_password", "admin_password", "community_password",
    "web_password", "credential", "credential_hash", "token", "access_token",
    "refresh_token", "totp", "totp_secret", "private_key", "secret", "code",
    "recovery_key", "recovery_phrase", "dek", "kek", "vault_key",
    "wrapped_dek", "remembered_key", "data_vault_key"}

  const SENSITIVE_PARTS: seq<string> := ["password", "token", "secret", "credential", "private_key"]

  const REDACTED := Text("<redacted>")

  /** `part in s` */
  predicate Contains(s: string, part: string) {
    part <= s || (s != "" && Contains(s[1..], part))
  }

  /** `s` has `part` as its slice from position `i`. */
  predicate HasAt(s: string, part: string, i: nat) {
    i + |part| <= |s| && s[i..i + |part|] == part
  }

  lemma {:induction false} ContainsAt(s: string, part: string, i: nat)
    requires HasAt(s, part, i)
    ensures Contains(s, part)
  {
    if i == 0 {
      assert s[..|part|] == part;
    } else {
      assert s[1..][i - 1..i - 1 + |part|] == part;
      ContainsAt(s[1..], part, i - 1);
    }
  }

  lemma {:induction false} ContainedAt(s: string, part: string) returns (i: nat)
    requires Contains(s, part)
    ensures HasAt(s, part, i)
  {
    if part <= s {
      i := 0;
    } else {
      i := ContainedAt(s[1..], part);
      i := i + 1;
      assert s[1..][i - 1..i - 1 + |part|] == s[i..i + |part|];
    }
  }

  datatype Redactor = Redactor(lower: string -> string, scrub: string -> string) {

    predicate Sensitive(key: string) {
      lower(key) in SENSITIVE_KEYS || exists i :: 0 <= i < |SENSITIVE_PARTS| && Contains(lower(key), SENSITIVE_PARTS[i])
    }

    /** `_redact` */
    function Redact(v: Value, key: string): Value
      decreases v
    {
      if Sensitive(key) then REDACTED
      else
        match v
        case Mapping(entries) =>
          Mapping(seq(|entries|, i requires 0 <= i < |entries| =>
            (entries[i].0, Redact(entries[i].1, entries[i].0))))
        case Items(items) => Items(seq(|items|, i requires 0 <= i < |items| => Redact(items[i], "")))
        case Text(text) => Text(scrub(text))
        case Scalar(atom) => v
        case Other(repr) => Text(repr)
    }

    // ---------- what is replaced ----------

    /** Every value is replaced under a key that, in lower case, has one of the five
        parts anywhere in it. */
    lemma PartsAreReplaced(v: Value, key: string, part: string, i: nat)
      requires part in ["password", "token", "secret", "credential", "private_key"]
      requires i + |part| <= |lower(key)| && lower(key)[i..i + |part|] == part
      ensures Redact(v, key) == Text("<redacted>")
    {
      ContainsAt(lower(key), part, i);
      var j :| 0 <= j < 5 && ["password", "token", "secret", "credential", "private_key"][j] == part;
      assert SENSITIVE_PARTS[j] == part;
    }

    /** So is every value under one of the listed names. */
    lemma NamesAreReplaced(v: Value, key: string)
      requires lower(key) in [
                 "password", "local_password", "admin_password", "community_password", "web_password",
                 "credential", "credential_hash", "token", "access_token", "refresh_token", "totp", "totp_secret",
                 "private_key", "secret", "code", "recovery_key", "recovery_phrase", "dek", "kek", "vault_key",
                 "wrapped_dek", "remembered_key", "data_vault_key"]
      ensures Redact(v, key) == Text("<redacted>")
    {
    }

    /** Under any other key nothing is replaced: mappings keep their keys and sequences
        their length, scalars stay, texts are scrubbed, and anything else becomes text. */
    lemma OthersAreKept(v: Value, key: string)
      requires lower(key) !in [
                 "password", "local_password", "admin_password", "community_password", "web_password",
                 "credential", "credential_hash", "token", "access_token", "refresh_token", "totp", "totp_secret",
                 "private_key", "secret", "code", "recovery_key", "recovery_phrase", "dek", "kek", "vault_key",
                 "wrapped_dek", "remembered_key", "data_vault_key"]
      requires forall part, i: nat {:trigger HasAt(lower(key), part, i)} ::
                 part in ["password", "token", "secret", "credential", "private_key"] ==> !HasAt(lower(key), part, i)
      ensures match v
              case Mapping(entries) =>
                Redact(v, key).Mapping? && |Redact(v, key).entries| == |entries|
                && forall i :: 0 <= i < |entries| ==>
                     Redact(v, key).entries[i] == (entries[i].0, Redact(entries[i].1, entries[i].0))
              case Items(items) =>
                Redact(v, key).Items? && |Redact(v, key).items| == |items|
                && forall i :: 0 <= i < |items| ==> Redact(v, key).items[i] == Redact(items[i], "")
              case Text(text) => Redact(v, key) == Text(scrub(text))
              case Scalar(atom) => Redact(v, key) == v
              case Other(repr) => Redact(v, key) == Text(repr)
    {
      forall j | 0 <= j < |SENSITIVE_PARTS|
        ensures !Contains(lower(key), SENSITIVE_PARTS[j])
      {
        assert SENSITIVE_PARTS[j] in ["password", "token", "secret", "credential", "private_key"];
        if Contains(lower(key), SENSITIVE_PARTS[j]) {
          var i := ContainedAt(lower(key), SENSITIVE_PARTS[j]);
        }
      }
      assert !Sensitive(key);
    }

    /** In particular a field like `credential_changed` never shows. */
    lemma CredentialChangedIsReplaced(v: Value)
      requires lower("credential_changed") == "credential_changed"
      ensures Redact(v, "credential_changed") == Text("<redacted>")
    {
      assert "credential_changed"[0..10] == "credential";
      PartsAreReplaced(v, "credential_changed", "credential", 0);
    }

    // ---------- what the output tells ----------

    /** The two trees are the same outside the sensitive keys. */
    ghost predicate OnlySecretsDiffer(v: Value, w: Value, key: string)
      decreases v
    {
      Sensitive(key) ||
      match (v, w)
      case (Mapping(a), Mapping(b)) =>
        |a| == |b| && forall i :: 0 <= i < |a| ==> a[i].0 == b[i].0 && OnlySecretsDiffer(a[i].1, b[i].1, a[i].0)
      case (Items(a), Items(b)) => |a| == |b| && forall i :: 0 <= i < |a| ==> OnlySecretsDiffer(a[i], b[i], "")
      case _ => v == w
    }

    /** What a plain leaf shows. */
    function Shown(v: Value): Option<string> {
      match v
      case Text(text) => Some(scrub(text))
      case Other(repr) => Some(repr)
      case _ => None
    }

    /** The two trees look the same from outside: keys, lengths, scalars and scrubbed
        texts agree everywhere but below sensitive keys. */
    ghost predicate LookAlike(v: Value, w: Value, key: string)
      decreases v
    {
      Sensitive(key) ||
      match (v, w)
      case (Mapping(a), Mapping(b)) =>
        |a| == |b| && forall i :: 0 <= i < |a| ==> a[i].0 == b[i].0 && LookAlike(a[i].1, b[i].1, a[i].0)
      case (Items(a), Items(b)) => |a| == |b| && forall i :: 0 <= i < |a| ==> LookAlike(a[i], b[i], "")
      case (Scalar(a), Scalar(b)) => a == b
      case _ => Shown(v).Some? && Shown(v) == Shown(w)
    }

    /** The output tells exactly that much: two payloads redact to the same tree if and
        only if they look alike, at any depth. */
    lemma {:induction false} RedactsAlikeIff(v: Value, w: Value, key: string)
      ensures Redact(v, key) == Redact(w, key) <==> LookAlike(v, w, key)
      decreases v
    {
      if !Sensitive(key) {
        match (v, w) {
          case (Mapping(a), Mapping(b)) =>
            if |a| == |b| {
              forall i | 0 <= i < |a|
                ensures Redact(a[i].1, a[i].0) == Redact(b[i].1, a[i].0) <==> LookAlike(a[i].1, b[i].1, a[i].0)
              {
                RedactsAlikeIff(a[i].1, b[i].1, a[i].0);
              }
            }
            EntriesAlike(v, w, key);
          case (Items(a), Items(b)) =>
            if |a| == |b| {
              forall i | 0 <= i < |a|
                ensures Redact(a[i], "") == Redact(b[i], "") <==> LookAlike(a[i], b[i], "")
              {
                RedactsAlikeIff(a[i], b[i], "");
              }
            }
            ItemsAlike(v, w, key);
          case _ =>
        }
      }
    }

    lemma EntriesAlike(v: Value, w: Value, key: string)
      requires !Sensitive(key) && v.Mapping? && w.Mapping?
      ensures Redact(v, key) == Redact(w, key) <==>
              |v.entries| == |w.entries| &&
              forall i :: 0 <= i < |v.entries| ==>
                v.entries[i].0 == w.entries[i].0 &&
                Redact(v.entries[i].1, v.entries[i].0) == Redact(w.entries[i].1, v.entries[i].0)
    {
      var r, t := Redact(v, key).entries, Redact(w, key).entries;
      if |v.entries| == |w.entries| {
        assert r == t <==> forall i :: 0 <= i < |r| ==> r[i] == t[i];
        assert forall i :: 0 <= i < |r| ==> r[i] == (v.entries[i].0, Redact(v.entries[i].1, v.entries[i].0));
        assert forall i :: 0 <= i < |t| ==> t[i] == (w.entries[i].0, Redact(w.entries[i].1, w.entries[i].0));
      }
    }

    lemma ItemsAlike(v: Value, w: Value, key: string)
      requires !Sensitive(key) && v.Items? && w.Items?
      ensures Redact(v, key) == Redact(w, key) <==>
              |v.items| == |w.items| &&
              forall i :: 0 <= i < |v.items| ==> Redact(v.items[i], "") == Redact(w.items[i], "")
    {
      var r, t := Redact(v, key).items, Redact(w, key).items;
      if |v.items| == |w.items| {
        assert r == t <==> forall i :: 0 <= i < |r| ==> r[i] == t[i];
        assert forall i :: 0 <= i < |r| ==> r[i] == Redact(v.items[i], "");
        assert forall i :: 0 <= i < |t| ==> t[i] == Redact(w.items[i], "");
      }
    }

    lemma {:induction false} SecretsOnlyLookAlike(v: Value, w: Value, key: string)
      requires OnlySecretsDiffer(v, w, key)
      ensures LookAlike(v, w, key)
      decreases v
    {
      if !Sensitive(key) {
        match (v, w) {
          case (Mapping(a), Mapping(b)) =>
            forall i | 0 <= i < |a|
              ensures LookAlike(a[i].1, b[i].1, a[i].0)
            {
              SecretsOnlyLookAlike(a[i].1, b[i].1, a[i].0);
            }
          case (Items(a), Items(b)) =>
            forall i | 0 <= i < |a|
              ensures LookAlike(a[i], b[i], "")
            {
              SecretsOnlyLookAlike(a[i], b[i], "");
            }
          case _ =>
        }
      }
    }

    /** Redaction is independent of secrets at any depth. */
    lemma SecretsDoNotShow(v: Value, w: Value, key: string)
      requires OnlySecretsDiffer(v, w, key)
      ensures Redact(v, key) == Redact(w, key)
    {
      SecretsOnlyLookAlike(v, w, key);
      RedactsAlikeIff(v, w, key);
    }

    // ---------- paths ----------

    /** The subtree at a path of positions, with the key it is filed under. */
    static function Follow(v: Value, key: string, path: seq<nat>): Option<(Value, string)>
      decreases path
    {
      if path == [] then Some((v, key))
      else
        match v
        case Mapping(entries) =>
          if path[0] < |entries| then Follow(entries[path[0]].1, entries[path[0]].0, path[1..]) else None
        case Items(items) => if path[0] < |items| then Follow(items[path[0]], "", path[1..]) else None
        case _ => None
    }

    /** Every step of the path before its end leads through keys that are not sensitive. */
    ghost predicate Open(v: Value, key: string, path: seq<nat>)
      decreases path
    {
      path == [] ||
      (!Sensitive(key) &&
       match v
       case Mapping(entries) =>
         path[0] < |entries| ==> Open(entries[path[0]].1, entries[path[0]].0, path[1..])
       case Items(items) => path[0] < |items| ==> Open(items[path[0]], "", path[1..])
       case _ => true)
    }

    /** Shape is preserved: along any path that stays outside sensitive keys the output
        has a subtree exactly where the input has one, filed under the same key, and it
        is that subtree redacted. */
    lemma {:induction false} ShapePreserved(v: Value, key: string, path: seq<nat>)
      requires Open(v, key, path)
      ensures var before, after := Follow(v, key, path), Follow(Redact(v, key), key, path);
              && (before.None? <==> after.None?)
              && (before.Some? ==> after.value == (Redact(before.value.0, before.value.1), before.value.1))
      decreases path
    {
      if path != [] {
        match v
        case Mapping(entries) =>
          if path[0] < |entries| { ShapePreserved(entries[path[0]].1, entries[path[0]].0, path[1..]); }
        case Items(items) =>
          if path[0] < |items| { ShapePreserved(items[path[0]], "", path[1..]); }
        case _ =>
      }
    }

    /** Nothing is found below a sensitive key. */
    lemma {:induction false} NothingBelowSecrets(v: Value, key: string, path: seq<nat>)
      requires !Open(v, key, path)
      ensures Follow(Redact(v, key), key, path).None?
      decreases path
    {
      if !Sensitive(key) {
        match v
        case Mapping(entries) => NothingBelowSecrets(entries[path[0]].1, entries[path[0]].0, path[1..]);
        case Items(items) => NothingBelowSecrets(items[path[0]], "", path[1..]);
        case _ =>
      }
    }
  }

  // ---------- the logger ----------

  type Payload = map<string, Value>

  /** The payload after the caller's fields: the last field of a name wins, over the
      fixed fields too. */
  function Updated(base: Payload, fields: seq<(string, Value)>, r: Redactor): Payload {
    if fields == [] then base
    else
      var (key, v) := fields[|fields| - 1];
      Updated(base, fields[..|fields| - 1], r)[key := r.Redact(v, key)]
  }

  /** The last of the fields with this name, if there is one. */
  function LastField(fields: seq<(string, Value)>, key: string): Option<Value> {
    if fields == [] then None
    else if fields[|fields| - 1].0 == key then Some(fields[|fields| - 1].1)
    else LastField(fields[..|fields| - 1], key)
  }

  /** Each name of the payload shows the last field of that name, redacted under it, or
      else the fixed value. */
  lemma {:induction false} UpdatedIs(base: Payload, fields: seq<(string, Value)>, r: Redactor, key: string)
    ensures key in Updated(base, fields, r) <==> key in base || LastField(fields, key).Some?
    ensures LastField(fields, key).Some? ==>
              Updated(base, fields, r)[key] == r.Redact(LastField(fields, key).value, key)
    ensures LastField(fields, key).None? && key in base ==> Updated(base, fields, r)[key] == base[key]
  {
    if fields != [] {
      UpdatedIs(base, fields[..|fields| - 1], r, key);
    }
  }

  predicate Shows(payload: Payload, key: string, text: string) {
    key in payload && payload[key] == Text(text)
  }

  lemma {:induction false} LastFieldOf(fields: seq<(string, Value)>, i: nat)
    requires i < |fields|
    ensures LastField(fields, fields[i].0).Some?
  {
    if i < |fields| - 1 {
      LastFieldOf(fields[..|fields| - 1], i);
    }
  }

  lemma PayloadIs(base: Payload, fields: seq<(string, Value)>, r: Redactor)
    ensures var payload := Updated(base, fields, r);
            && (forall key :: key in payload && LastField(fields, key).Some? ==>
                  payload[key] == r.Redact(LastField(fields, key).value, key))
            && (forall i :: 0 <= i < |fields| ==> fields[i].0 in payload)
            && (forall key :: key in base && LastField(fields, key).None? ==>
                  key in payload && payload[key] == base[key])
  {
    forall key
      ensures key in Updated(base, fields, r) <==> key in base || LastField(fields, key).Some?
      ensures LastField(fields, key).Some? ==>
                Updated(base, fields, r)[key] == r.Redact(LastField(fields, key).value, key)
      ensures LastField(fields, key).None? && key in base ==> Updated(base, fields, r)[key] == base[key]
    {
      UpdatedIs(base, fields, r, key);
    }
    forall i | 0 <= i < |fields|
      ensures fields[i].0 in Updated(base, fields, r)
    {
      LastFieldOf(fields, i);
    }
  }

  /** The fields every log call has. */
  function Fixed(component: string, event: string, level: string, operation: string, status: string,
                 correlationId: string, timestamp: string): Payload
  {
    map["timestamp" := Text(timestamp), "level" := Text(level), "event" := Text(event),
        "component" := Text(component), "operation" := Text(operation), "status" := Text(status),
        "correlation_id" := Text(correlationId)]
  }

  /** The seven values, each under its name unless a field of the call has that name. */
  ghost predicate FixedFieldsShow(payload: Payload, fields: seq<(string, Value)>, component: string, event: string,
                                  level: string, operation: string, status: string, correlationId: string,
                                  timestamp: string)
  {
    && (LastField(fields, "timestamp").None? ==> Shows(payload, "timestamp", timestamp))
    && (LastField(fields, "level").None? ==> Shows(payload, "level", level))
    && (LastField(fields, "event").None? ==> Shows(payload, "event", event))
    && (LastField(fields, "component").None? ==> Shows(payload, "component", component))
    && (LastField(fields, "operation").None? ==> Shows(payload, "operation", operation))
    && (LastField(fields, "status").None? ==> Shows(payload, "status", status))
    && (LastField(fields, "correlation_id").None? ==> Shows(payload, "correlation_id", correlationId))
  }

  lemma FixedShow(fields: seq<(string, Value)>, r: Redactor, component: string, event: string, level: string,
                  operation: string, status: string, correlationId: string, timestamp: string)
    ensures FixedFieldsShow(Updated(Fixed(component, event, level, operation, status, correlationId, timestamp),
                                    fields, r),
                            fields, component, event, level, operation, status, correlationId, timestamp)
  {
    var base := Fixed(component, event, level, operation, status, correlationId, timestamp);
    FixedIs(component, event, level, operation, status, correlationId, timestamp);
    PayloadIs(base, fields, r);
  }

  lemma FixedIs(component: string, event: string, level: string, operation: string, status: string,
                correlationId: string, timestamp: string)
    ensures var base := Fixed(component, event, level, operation, status, correlationId, timestamp);
            && Shows(base, "timestamp", timestamp) && Shows(base, "level", level) && Shows(base, "event", event)
            && Shows(base, "component", component) && Shows(base, "operation", operation)
            && Shows(base, "status", status) && Shows(base, "correlation_id", correlationId)
  {
  }

  class StructuredLogger {
    var emitted: seq<Payload>
    const component: string
    const redactor: Redactor

    constructor (component: string, redactor: Redactor)
      ensures emitted == [] && this.component == component && this.redactor == redactor
    {
      emitted := [];
      this.component, this.redactor := component, redactor;
    }

    /** `StructuredLogger.emit`: every field is redacted under its name, the last field of a
        name wins, and the fixed values show where no field has their name. */
    method Emit(event: string, level: string, operation: string, status: string,
                correlationId: string, timestamp: string, fields: seq<(string, Value)>)
      modifies this
      ensures emitted == old(emitted) +
              [Updated(Fixed(component, event, redactor.lower(level), operation, status, correlationId, timestamp),
                       fields, redactor)]
      ensures var payload := emitted[|emitted| - 1];
              forall key :: key in payload && LastField(fields, key).Some? ==>
                payload[key] == redactor.Redact(LastField(fields, key).value, key)
      ensures var payload := emitted[|emitted| - 1];
              forall i :: 0 <= i < |fields| ==> fields[i].0 in payload
      ensures FixedFieldsShow(emitted[|emitted| - 1], fields, component, event, redactor.lower(level), operation,
                              status, correlationId, timestamp)
    {
      var payload := Fixed(component, event, redactor.lower(level), operation, status, correlationId, timestamp);
      var i := 0;
      while i < |fields|
        invariant 0 <= i <= |fields|
        invariant emitted == old(emitted)
        invariant payload ==
                  Updated(Fixed(component, event, redactor.lower(level), operation, status, correlationId, timestamp),
                          fields[..i], redactor)
      {
        payload := payload[fields[i].0 := redactor.Redact(fields[i].1, fields[i].0)];
        assert fields[..i + 1][..i] == fields[..i];
        i := i + 1;
      }
      assert fields[..i] == fields;
      FixedShow(fields, redactor, component, event, redactor.lower(level), operation, status, correlationId, timestamp);
      PayloadIs(Fixed(component, event, redactor.lower(level), operation, status, correlationId, timestamp), fields,
                redactor);
      emitted := emitted + [payload];
    }
  }

  /** Two log calls whose fields differ only below sensitive keys emit the same. */
  lemma {:induction false} PayloadsIndependentOfSecrets(base: Payload, a: seq<(string, Value)>, b: seq<(string, Value)>,
                                                        r: Redactor)
    requires |a| == |b|
    requires forall i :: 0 <= i < |a| ==> a[i].0 == b[i].0 && r.OnlySecretsDiffer(a[i].1, b[i].1, a[i].0)
    ensures Updated(base, a, r) == Updated(base, b, r)
  {
    if a != [] {
      var n := |a| - 1;
      PayloadsIndependentOfSecrets(base, a[..n], b[..n], r);
      r.SecretsDoNotShow(a[n].1, b[n].1, a[n].0);
    }
  }
}
