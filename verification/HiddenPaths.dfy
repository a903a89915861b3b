// HIDDEN_PATHS of src/state.py: per shared-root slot a sorted list of hidden folder
// paths, edited by `set_hidden_path` and normalised again whenever it is loaded.
module HiddenPaths {
  import opened PyText
  import opened Wrappers

  // ---------- text order ----------

  /** `a < b` on Python strings */
  predicate Before(a: string, b: string) {
    b != "" && (a == "" || a[0] < b[0] || (a[0] == b[0] && Before(a[1..], b[1..])))
  }

  lemma {:induction false} BeforeTransitive(a: string, b: string, c: string)
    requires Before(a, b) && Before(b, c)
    ensures Before(a, c)
  {
    if a != "" && a[0] == b[0] && b[0] == c[0] {
      BeforeTransitive(a[1..], b[1..], c[1..]);
    }
  }

  lemma {:induction false} BeforeTrichotomy(a: string, b: string)
    ensures Before(a, b) || Before(b, a) || a == b
    ensures !(Before(a, b) && Before(b, a))
    ensures !Before(a, a)
  {
    if a != "" {
      BeforeTrichotomy(a[1..], if b == "" then "" else b[1..]);
      if b != "" && a[0] == b[0] && a[1..] == b[1..] {
        assert a == [a[0]] + a[1..] && b == [b[0]] + b[1..];
      }
    }
  }

  /** The order of Python strings: by the first character that differs, a prefix first. */
  lemma {:induction false} BeforeIff(a: string, b: string)
    ensures Before(a, b) <==> a < b || exists k :: 0 <= k < |a| && k < |b| && a[..k] == b[..k] && a[k] < b[k]
  {
    if a != [] && b != [] && a[0] == b[0] {
      BeforeIff(a[1..], b[1..]);
      BeforeShifted(a, b);
    } else if a != [] && b != [] {
      assert a[..0] == b[..0];
    }
  }

  /** The same statement one character further on. */
  lemma BeforeShifted(a: string, b: string)
    requires a != [] && b != [] && a[0] == b[0]
    ensures a < b <==> a[1..] < b[1..]
    ensures (exists k :: 0 <= k < |a| && k < |b| && a[..k] == b[..k] && a[k] < b[k]) <==>
            exists k :: 0 <= k < |a[1..]| && k < |b[1..]| && a[1..][..k] == b[1..][..k] && a[1..][k] < b[1..][k]
  {
    assert a == [a[0]] + a[1..] && b == [b[0]] + b[1..];
    forall k | 0 <= k < |a[1..]| && k < |b[1..]| && a[1..][..k] == b[1..][..k] && a[1..][k] < b[1..][k]
      ensures a[..k + 1] == b[..k + 1] && a[k + 1] < b[k + 1]
    {
      assert a[..k + 1] == [a[0]] + a[1..][..k] && b[..k + 1] == [b[0]] + b[1..][..k];
    }
    forall k | 0 < k < |a| && k < |b| && a[..k] == b[..k] && a[k] < b[k]
      ensures a[1..][..k - 1] == b[1..][..k - 1] && a[1..][k - 1] < b[1..][k - 1]
    {
      assert a[1..][..k - 1] == a[..k][1..] && b[1..][..k - 1] == b[..k][1..];
    }
  }

  predicate StrictlySorted(s: seq<string>) {
    forall i, j :: 0 <= i < j < |s| ==> Before(s[i], s[j])
  }

  /** The sorted list with `x` added, unless it is there. */
  function Insert(s: seq<string>, x: string): seq<string> {
    if s == [] || Before(x, s[0]) then [x] + s
    else if s[0] == x then s
    else [s[0]] + Insert(s[1..], x)
  }

  function Without(s: seq<string>, x: string): seq<string> {
    if s == [] then [] else if s[0] == x then s[1..] else [s[0]] + Without(s[1..], x)
  }

  lemma {:induction false} InsertSorted(s: seq<string>, x: string)
    requires StrictlySorted(s)
    ensures StrictlySorted(Insert(s, x))
    ensures forall y :: y in Insert(s, x) <==> y in s || y == x
  {
    if s == [] {
    } else if Before(x, s[0]) {
      forall j | 0 < j < |s|
        ensures Before(x, s[j])
      {
        BeforeTransitive(x, s[0], s[j]);
      }
    } else if s[0] != x {
      BeforeTrichotomy(x, s[0]);
      InsertSorted(s[1..], x);
      var rest := Insert(s[1..], x);
      assert s == [s[0]] + s[1..];
      forall j | 0 <= j < |rest|
        ensures Before(s[0], rest[j])
      {
        assert rest[j] in rest;
        if rest[j] in s[1..] {
          var k :| 0 <= k < |s[1..]| && s[1..][k] == rest[j];
          assert s[k + 1] == rest[j];
        }
      }
    }
  }

  lemma {:induction false} WithoutSorted(s: seq<string>, x: string)
    requires StrictlySorted(s)
    ensures StrictlySorted(Without(s, x))
    ensures forall y :: y in Without(s, x) <==> y in s && y != x
  {
    if s != [] {
      assert s == [s[0]] + s[1..];
      if s[0] == x {
        BeforeTrichotomy(x, x);
        assert forall j :: 0 < j < |s| ==> Before(x, s[j]);
      } else {
        WithoutSorted(s[1..], x);
        var rest := Without(s[1..], x);
        forall j | 0 <= j < |rest|
          ensures Before(s[0], rest[j])
        {
          assert rest[j] in s[1..];
          var k :| 0 <= k < |s[1..]| && s[1..][k] == rest[j];
          assert s[k + 1] == rest[j];
        }
      }
    }
  }

  /** A strictly sorted list is determined by its members. */
  lemma {:induction false} SortedIsUnique(s: seq<string>, t: seq<string>)
    requires StrictlySorted(s) && StrictlySorted(t)
    requires forall x :: x in s <==> x in t
    ensures s == t
  {
    assert t != [] ==> t[0] in t;
    if s != [] {
      assert s[0] in t;
      FirstIsLeast(s, t[0]);
      FirstIsLeast(t, s[0]);
      BeforeTrichotomy(s[0], t[0]);
      forall x
        ensures x in s[1..] <==> x in t[1..]
      {
        TailMembers(s, x);
        TailMembers(t, x);
      }
      SortedIsUnique(s[1..], t[1..]);
      assert s == [s[0]] + s[1..] && t == [t[0]] + t[1..];
    }
  }

  lemma FirstIsLeast(s: seq<string>, x: string)
    requires StrictlySorted(s) && x in s
    ensures s[0] == x || Before(s[0], x)
  {
    var k :| 0 <= k < |s| && s[k] == x;
  }

  lemma TailMembers(s: seq<string>, x: string)
    requires StrictlySorted(s) && s != []
    ensures x in s[1..] <==> x in s && x != s[0]
  {
    assert s == [s[0]] + s[1..];
    BeforeTrichotomy(s[0], s[0]);
    if x in s[1..] {
      var k :| 0 <= k < |s[1..]| && s[1..][k] == x;
      assert s[k + 1] == x && Before(s[0], s[k + 1]);
    }
  }

  // ---------- normal form ----------

  /** `s.replace("\\", "/")` */
  function Slashes(s: string): (r: string)
    ensures |r| == |s|
    ensures forall i :: 0 <= i < |s| ==> r[i] == if s[i] == '\\' then '/' else s[i]
  {
    seq(|s|, i requires 0 <= i < |s| => if s[i] == '\\' then '/' else s[i])
  }

  /** `s.split("/")` */
  function Segments(s: string): seq<string> {
    if s == "" then [""]
    else if s[0] == '/' then [""] + Segments(s[1..])
    else
      var rest := Segments(s[1..]);
      if rest == [] then [[s[0]]] else [[s[0]] + rest[0]] + rest[1..]
  }

  /** `"/".join(parts)` */
  function Joined(parts: seq<string>): string {
    if parts == [] then "" else if |parts| == 1 then parts[0] else parts[0] + "/" + Joined(parts[1..])
  }

  lemma JoinedAfterSlash(rest: seq<string>)
    requires rest != []
    ensures Joined([""] + rest) == "/" + Joined(rest)
  {
    assert ([""] + rest)[1..] == rest;
    assert "" + "/" + Joined(rest) == "/" + Joined(rest);
  }

  lemma JoinedLonger(c: char, rest: seq<string>)
    requires rest != []
    ensures Joined([[c] + rest[0]] + rest[1..]) == [c] + Joined(rest)
  {
    var parts := [[c] + rest[0]] + rest[1..];
    assert parts[1..] == rest[1..];
    if |rest| > 1 {
      assert [c] + rest[0] + "/" + Joined(rest[1..]) == [c] + (rest[0] + "/" + Joined(rest[1..]));
    }
  }

  /** Splitting is right: the segments joined again are the text, and no segment
      contains the separator. */
  lemma {:induction false} SegmentsJoined(s: string)
    ensures Segments(s) != [] && Joined(Segments(s)) == s
    ensures forall i :: 0 <= i < |Segments(s)| ==> '/' !in Segments(s)[i]
  {
    if s != "" {
      SegmentsJoined(s[1..]);
      assert s == [s[0]] + s[1..];
      if s[0] == '/' {
        JoinedAfterSlash(Segments(s[1..]));
      } else {
        JoinedLonger(s[0], Segments(s[1..]));
      }
    }
  }

  function Clean(path: string): string {
    "/" + StripSlash(Slashes(path))
  }

  predicate Rejected(clean: string) {
    clean == "/" || ".." in Segments(clean)
  }

  predicate NormalPath(p: string) {
    && |p| > 1 && p[0] == '/'
    && (forall i :: 0 <= i < |p| ==> p[i] != '\\')
    && Trimmed(p[1..], IsSlash)
    && ".." !in Segments(p)
  }

  lemma SlashesFixed(s: string)
    requires forall i :: 0 <= i < |s| ==> s[i] != '\\'
    ensures Slashes(s) == s
  {
  }

  /** What the normal form is: a slash, and the path with its backslashes turned, of which
      only slashes at either end are dropped. */
  lemma CleanShape(path: string) returns (from: nat, to: nat)
    ensures from <= to <= |path| && |Clean(path)| == to - from + 1 && Clean(path)[0] == '/'
    ensures forall i :: from <= i < to ==> Clean(path)[i - from + 1] == if path[i] == '\\' then '/' else path[i]
    ensures forall i :: 0 <= i < from || to <= i < |path| ==> path[i] == '/' || path[i] == '\\'
    ensures from < to ==> Clean(path)[1] != '/' && Clean(path)[to - from] != '/'
  {
    from, to := StripShape(Slashes(path), IsSlash);
  }

  lemma CleanHasNoBackslash(path: string)
    ensures forall i :: 0 <= i < |Clean(path)| ==> Clean(path)[i] != '\\'
  {
    var from, to := CleanShape(path);
    forall i | 0 <= i < |Clean(path)|
      ensures Clean(path)[i] != '\\'
    {
      if i > 0 {
        var k := from + i - 1;
        assert Clean(path)[k - from + 1] == if path[k] == '\\' then '/' else path[k];
      }
    }
  }

  lemma CleanIsTrimmed(path: string)
    ensures Clean(path)[1..] == StripSlash(Slashes(path)) && Trimmed(Clean(path)[1..], IsSlash)
  {
    var _, _ := StripShape(Slashes(path), IsSlash);
  }

  /** Accepted paths are in normal form, and the normal form is its own. */
  lemma CleanIsNormal(path: string)
    ensures !Rejected(Clean(path)) <==> NormalPath(Clean(path))
    ensures Clean(Clean(path)) == Clean(path)
  {
    CleanHasNoBackslash(path);
    CleanIsTrimmed(path);
    NormalIsFixed(Clean(path));
  }

  lemma NormalIsFixed(clean: string)
    requires |clean| > 0 && clean[0] == '/' && Trimmed(clean[1..], IsSlash)
    requires forall i :: 0 <= i < |clean| ==> clean[i] != '\\'
    ensures Clean(clean) == clean
  {
    SlashesFixed(clean);
    assert StripSlash(clean) == StripSlash(clean[1..]);
    var _, _ := StripShape(clean[1..], IsSlash);
  }

  // ---------- the loader ----------

  /** What the loader makes of one stored path, when it keeps it. */
  function Loaded(path: string): string {
    "/" + StripSlash(Slashes(StripSpace(path)))
  }

  predicate Kept(path: string) {
    StripSlash(StripSpace(path)) != ""
  }

  /** The same in characters: a stored path loses blanks at both ends, then slashes, and
      is dropped when nothing but slashes is left before its backslashes are turned. */
  lemma LoadedShape(path: string)
    ensures Loaded(path) == Clean(StripSpace(path))
    ensures Kept(path) <==> exists i :: 0 <= i < |StripSpace(path)| && StripSpace(path)[i] != '/'
  {
    var s := StripSpace(path);
    var from, to := StripShape(s, IsSlash);
    if Kept(path) {
      assert StripSlash(s)[0] == s[from];
    }
  }

  function LoadSlot(paths: seq<string>): seq<string> {
    if paths == [] then []
    else
      var n := |paths| - 1;
      var loaded := LoadSlot(paths[..n]);
      if Kept(paths[n]) then Insert(loaded, Loaded(paths[n])) else loaded
  }

  /** `y` is what the loader makes of some path of the list. */
  ghost predicate Yields(paths: seq<string>, y: string) {
    exists i :: 0 <= i < |paths| && Kept(paths[i]) && Loaded(paths[i]) == y
  }

  lemma YieldsSnoc(paths: seq<string>, last: string, y: string)
    ensures Yields(paths + [last], y) <==> Yields(paths, y) || (Kept(last) && Loaded(last) == y)
  {
    var longer := paths + [last];
    if Yields(paths, y) {
      var i :| 0 <= i < |paths| && Kept(paths[i]) && Loaded(paths[i]) == y;
      assert longer[i] == paths[i];
    }
    assert longer[|paths|] == last;
  }

  /** The loader yields `sorted({...})`: strictly sorted, with exactly the kept paths. */
  lemma {:induction false} LoadSlotIsSortedSet(paths: seq<string>)
    ensures StrictlySorted(LoadSlot(paths))
    ensures forall y :: y in LoadSlot(paths) <==> Yields(paths, y)
  {
    if paths != [] {
      var n := |paths| - 1;
      LoadSlotIsSortedSet(paths[..n]);
      InsertSorted(LoadSlot(paths[..n]), Loaded(paths[n]));
      forall y
        ensures y in LoadSlot(paths) <==> Yields(paths, y)
      {
        assert paths == paths[..n] + [paths[n]];
        YieldsSnoc(paths[..n], paths[n], y);
      }
    }
  }

  predicate EndsInSpace(p: string) {
    p != "" && IsSpace(p[|p| - 1])
  }

  /** One stored path comes back unchanged exactly when it does not end in
      whitespace; otherwise it comes back shorter, if at all. */
  lemma LoadedIff(p: string)
    requires NormalPath(p)
    ensures !EndsInSpace(p) ==> Kept(p) && Loaded(p) == p
    ensures EndsInSpace(p) && Kept(p) ==> |Loaded(p)| < |p|
  {
    var from, to := StripShape(p, IsSpace);
    var trimmed := StripSpace(p);
    var from', to' := StripShape(p[1..], IsSlash);
    if EndsInSpace(p) {
      assert !Trimmed(p, IsSpace);
      assert |trimmed| < |p|;
      var s := Slashes(trimmed);
      if trimmed == p[from..to] && trimmed != "" {
        StripKeepsFront(p);
        assert s[0] == '/';
        assert StripSlash(s) == StripSlash(s[1..]);
        var a, b := StripShape(s[1..], IsSlash);
      }
    } else {
      assert trimmed == p;
      SlashesFixed(p);
      assert StripSlash(p) == StripSlash(p[1..]);
      assert StripSlash(p[1..]) == p[1..];
      assert p == "/" + p[1..];
    }
  }

  lemma StripKeepsFront(p: string)
    requires p != "" && !IsSpace(p[0])
    ensures StripSpace(p) <= p && StripSpace(p) != ""
  {
    StripRightShape(p, IsSpace);
    StripRightKeeps(p);
  }

  lemma {:induction false} StripRightKeeps(p: string)
    requires p != "" && !IsSpace(p[0])
    ensures StripRight(p, IsSpace) != ""
  {
    if |p| > 1 && IsSpace(p[|p| - 1]) {
      StripRightKeeps(p[..|p| - 1]);
    }
  }

  lemma LongestEndingInSpace(values: seq<string>, n: nat) returns (k: nat)
    requires n <= |values| && exists i :: 0 <= i < n && EndsInSpace(values[i])
    ensures k < n && EndsInSpace(values[k])
    ensures forall i :: 0 <= i < n && EndsInSpace(values[i]) ==> |values[i]| <= |values[k]|
  {
    if exists i :: 0 <= i < n - 1 && EndsInSpace(values[i]) {
      k := LongestEndingInSpace(values, n - 1);
      if EndsInSpace(values[n - 1]) && |values[n - 1]| > |values[k]| {
        k := n - 1;
      }
    } else {
      k := n - 1;
    }
  }

  /** Saving and loading reproduces a slot exactly when none of its paths ends in
      whitespace. */
  lemma ReloadIff(values: seq<string>)
    requires StrictlySorted(values)
    requires forall i :: 0 <= i < |values| ==> NormalPath(values[i])
    ensures LoadSlot(values) == values <==> forall i :: 0 <= i < |values| ==> !EndsInSpace(values[i])
  {
    LoadSlotIsSortedSet(values);
    if forall i :: 0 <= i < |values| ==> !EndsInSpace(values[i]) {
      forall i | 0 <= i < |values|
        ensures Kept(values[i]) && Loaded(values[i]) == values[i]
      {
        LoadedIff(values[i]);
      }
      forall y
        ensures y in LoadSlot(values) <==> y in values
      {
        if y in values {
          var i :| 0 <= i < |values| && values[i] == y;
          assert Kept(values[i]) && Loaded(values[i]) == y;
        }
      }
      SortedIsUnique(LoadSlot(values), values);
    } else {
      var k := LongestEndingInSpace(values, |values|);
      if values[k] in LoadSlot(values) {
        var i :| 0 <= i < |values| && Kept(values[i]) && Loaded(values[i]) == values[k];
        LoadedIff(values[i]);
        assert false;
      }
      assert values[k] in values;
    }
  }

  // ---------- runs of set_hidden_path ----------

  /** `known` says whether the slot had a shared root at the time of the call. */
  datatype Call = Call(slot: string, path: string, hidden: bool, known: bool)

  predicate Accepted(c: Call) {
    c.known && !Rejected(Clean(c.path))
  }

  function SlotOf(table: map<string, seq<string>>, slot: string): seq<string> {
    if slot in table then table[slot] else []
  }

  function Step(table: map<string, seq<string>>, c: Call): map<string, seq<string>> {
    if !Accepted(c) then table
    else
      var values := SlotOf(table, c.slot);
      table[c.slot := if c.hidden then Insert(values, Clean(c.path)) else Without(values, Clean(c.path))]
  }

  function TableAfter(calls: seq<Call>): map<string, seq<string>> {
    if calls == [] then map[]
    else Step(TableAfter(calls[..|calls| - 1]), calls[|calls| - 1])
  }

  /** The folders hidden after the calls: a plain set. */
  function HiddenAfter(calls: seq<Call>, slot: string): set<string> {
    if calls == [] then {}
    else
      var n := |calls| - 1;
      var before := HiddenAfter(calls[..n], slot);
      if calls[n].slot != slot || !Accepted(calls[n]) then before
      else if calls[n].hidden then before + {Clean(calls[n].path)}
      else before - {Clean(calls[n].path)}
  }

  /** After every run from the empty table each slot is strictly sorted (hence free
      of duplicates), in normal form, and lists exactly the hidden folders. */
  lemma {:induction false} TableMeansSet(calls: seq<Call>, slot: string)
    ensures StrictlySorted(SlotOf(TableAfter(calls), slot))
    ensures forall y :: y in SlotOf(TableAfter(calls), slot) <==> y in HiddenAfter(calls, slot)
    ensures forall y :: y in HiddenAfter(calls, slot) ==> NormalPath(y)
  {
    if calls != [] {
      var n := |calls| - 1;
      TableMeansSet(calls[..n], slot);
      if calls[n].slot == slot && Accepted(calls[n]) {
        var values := SlotOf(TableAfter(calls[..n]), slot);
        InsertSorted(values, Clean(calls[n].path));
        WithoutSorted(values, Clean(calls[n].path));
        CleanIsNormal(calls[n].path);
      }
    }
  }

  /** What a restart makes of a slot after any run. */
  lemma RunSurvivesReloadIff(calls: seq<Call>, slot: string)
    ensures var values := SlotOf(TableAfter(calls), slot);
            LoadSlot(values) == values <==>
            forall y :: y in HiddenAfter(calls, slot) ==> !EndsInSpace(y)
  {
    TableMeansSet(calls, slot);
    var values := SlotOf(TableAfter(calls), slot);
    assert forall i :: 0 <= i < |values| ==> values[i] in values;
    ReloadIff(values);
    if forall i :: 0 <= i < |values| ==> !EndsInSpace(values[i]) {
      forall y | y in HiddenAfter(calls, slot)
        ensures !EndsInSpace(y)
      {
        assert y in values;
      }
    }
  }

  lemma BlankIsClean()
    ensures Clean("b ") == "/b " && Segments("/b ") == ["", "b "]
  {
    assert Slashes("b ") == "b ";
    assert StripSlash("b ") == "b ";
    assert "/b "[1..] == "b " && "b "[1..] == " " && " "[1..] == "";
    assert Segments("") == [""] && [' '] + "" == " " && ['b'] + " " == "b ";
    assert Segments(" ") == [" "] + [""][1..];
    assert Segments("b ") == ["b "] + [" "][1..];
  }

  lemma BlankIsDropped()
    ensures Kept("/b ") && Loaded("/b ") == "/b"
  {
    assert StripSpace("/b ") == "/b" by {
      assert "/b "[..2] == "/b";
    }
    assert Slashes("/b") == "/b";
    assert StripSlash("/b") == "b" by {
      assert "/b"[1..] == "b";
    }
  }

  /** A folder whose name ends in a blank: hidden now, and another one after a restart. */
  lemma TrailingBlankRun()
    ensures var calls := [Call("slot-1", "b ", true, true)];
            SlotOf(TableAfter(calls), "slot-1") == ["/b "] && LoadSlot(["/b "]) == ["/b"]
  {
    var calls := [Call("slot-1", "b ", true, true)];
    BlankIsClean();
    assert TableAfter(calls[..0]) == map[];
    BlankIsDropped();
    assert LoadSlot(["/b "][..0]) == [];
  }

  lemma NothingToInsert(values: seq<string>, clean: string)
    requires StrictlySorted(values) && clean in values
    ensures Insert(values, clean) == values
  {
    InsertSorted(values, clean);
    SortedIsUnique(Insert(values, clean), values);
  }

  lemma NothingToRemove(values: seq<string>, clean: string)
    requires StrictlySorted(values) && clean !in values
    ensures Without(values, clean) == values
  {
    WithoutSorted(values, clean);
    SortedIsUnique(Without(values, clean), values);
  }

  lemma CallSnoc(calls: seq<Call>, c: Call)
    ensures TableAfter(calls + [c]) == Step(TableAfter(calls), c)
    ensures HiddenAfter(calls + [c], c.slot) ==
            if !Accepted(c) then HiddenAfter(calls, c.slot)
            else if c.hidden then HiddenAfter(calls, c.slot) + {Clean(c.path)}
            else HiddenAfter(calls, c.slot) - {Clean(c.path)}
  {
    assert (calls + [c])[..|calls|] == calls;
  }

  /** What `set_hidden_path` has to store, and whether it changes anything, in terms
      of the list it finds. */
  lemma AcceptedCall(calls: seq<Call>, c: Call)
    requires Accepted(c)
    ensures var values, clean := SlotOf(TableAfter(calls), c.slot), Clean(c.path);
            && TableAfter(calls + [c]) ==
               TableAfter(calls)[c.slot := if c.hidden == (clean in values) then values
                                           else if c.hidden then Insert(values, clean) else Without(values, clean)]
            && (c.hidden != (clean in values) <==> HiddenAfter(calls + [c], c.slot) != HiddenAfter(calls, c.slot))
  {
    var values, clean := SlotOf(TableAfter(calls), c.slot), Clean(c.path);
    CallSnoc(calls, c);
    TableMeansSet(calls, c.slot);
    assert clean in values <==> clean in HiddenAfter(calls, c.slot);
    if c.hidden && clean in values {
      NothingToInsert(values, clean);
    } else if !c.hidden && clean !in values {
      NothingToRemove(values, clean);
    }
  }

  class Visibility {
    var hiddenPaths: map<string, seq<string>>
    var saves: nat
    ghost var calls: seq<Call>

    ghost predicate Valid()
      reads this
    {
      hiddenPaths == TableAfter(calls)
    }

    constructor ()
      ensures Valid() && calls == [] && saves == 0
    {
      hiddenPaths, calls, saves := map[], [], 0;
    }

    /** `set_hidden_path`: raises for an unknown slot or an unusable path; otherwise
        answers, and saves, exactly when the set of hidden folders changes. */
    method SetHiddenPath(slot: string, relativePath: string, hidden: bool, roots: set<string>) returns (r: Result<bool>)
      requires Valid()
      modifies this
      ensures Valid() && calls == old(calls) + [Call(slot, relativePath, hidden, slot in roots)]
      ensures r.Ok? <==> slot in roots && Clean(relativePath) != "/" && ".." !in Segments(Clean(relativePath))
      ensures r.Err? ==> r.error == ValueError
      ensures r.Ok? ==> (r.value <==> HiddenAfter(calls, slot) != HiddenAfter(old(calls), slot))
      ensures saves == old(saves) + if r == Ok(true) then 1 else 0
      ensures r.Err? ==> hiddenPaths == old(hiddenPaths)
      ensures r.Ok? ==> (Clean(relativePath) in SlotOf(hiddenPaths, slot) <==> hidden)
      ensures forall y :: y != Clean(relativePath) ==>
                (y in SlotOf(hiddenPaths, slot) <==> y in SlotOf(old(hiddenPaths), slot))
      ensures forall other :: other != slot ==> SlotOf(hiddenPaths, other) == SlotOf(old(hiddenPaths), other)
    {
      ghost var call := Call(slot, relativePath, hidden, slot in roots);
      CallSnoc(calls, call);
      if slot !in roots {
        calls := calls + [call];
        return Err(ValueError);
      }
      var clean := Clean(relativePath);
      if clean == "/" || ".." in Segments(clean) {
        calls := calls + [call];
        return Err(ValueError);
      }
      AcceptedCall(calls, call);
      TableMeansSet(calls, slot);
      TableMeansSet(calls + [call], slot);
      var values := if slot in hiddenPaths then hiddenPaths[slot] else [];
      var changed := false;
      if hidden && clean !in values {
        values := Insert(values, clean);
        changed := true;
      } else if !hidden && clean in values {
        values := Without(values, clean);
        changed := true;
      }
      hiddenPaths := hiddenPaths[slot := values];
      calls := calls + [call];
      if changed {
        saves := saves + 1;
      }
      r := Ok(changed);
    }
  }
}
