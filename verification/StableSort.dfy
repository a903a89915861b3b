// `list.sort(key=..., reverse=True)`: descending by key, equal keys keep their order.
module StableSort {

  /** The sort keys in use: a share count, then a time. */
  datatype Key = Key(count: int, time: real)

  predicate Below(a: Key, b: Key) {
    a.count < b.count || (a.count == b.count && a.time < b.time)
  }

  predicate Descending<T>(s: seq<T>, key: T -> Key) {
    forall i, j :: 0 <= i < j < |s| ==> !Below(key(s[i]), key(s[j]))
  }

  function Place<T>(s: seq<T>, p: nat, x: T): seq<T>
    requires p <= |s|
  {
    s[..p] + [x] + s[p..]
  }

  /** The number of leading elements whose key is not below `k`. */
  function Lead<T>(s: seq<T>, key: T -> Key, k: Key): (p: nat)
    ensures p <= |s|
  {
    if s == [] || Below(key(s[0]), k) then 0 else 1 + Lead(s[1..], key, k)
  }

  function Sort<T>(s: seq<T>, key: T -> Key): seq<T> {
    if s == [] then []
    else
      var n := |s| - 1;
      var sorted := Sort(s[..n], key);
      Place(sorted, Lead(sorted, key, key(s[n])), s[n])
  }

  /** Where a new element goes in a descending list: after every element that is
      not below it, in front of every element that is. */
  predicate Cut<T>(s: seq<T>, key: T -> Key, k: Key, p: nat) {
    && p <= |s|
    && (forall j :: 0 <= j < p ==> !Below(key(s[j]), k))
    && (forall j :: p <= j < |s| ==> Below(key(s[j]), k))
  }

  lemma {:induction false} LeadIsCut<T>(s: seq<T>, key: T -> Key, k: Key)
    requires Descending(s, key)
    ensures Cut(s, key, k, Lead(s, key, k))
  {
    if s != [] {
      if Below(key(s[0]), k) {
        forall j | 0 <= j < |s|
          ensures Below(key(s[j]), k)
        {
          assert j > 0 ==> !Below(key(s[0]), key(s[j]));
        }
      } else {
        LeadIsCut(s[1..], key, k);
        forall j | 1 <= j < |s|
          ensures s[j] == s[1..][j - 1]
        {
        }
      }
    }
  }

  lemma {:induction false} CutIsLead<T>(s: seq<T>, key: T -> Key, k: Key, p: nat)
    requires Cut(s, key, k, p)
    ensures Lead(s, key, k) == p
  {
    if p > 0 {
      assert !Below(key(s[0]), k);
      CutIsLead(s[1..], key, k, p - 1);
    }
  }

  lemma PlaceDescending<T>(s: seq<T>, key: T -> Key, x: T, p: nat)
    requires Descending(s, key) && Cut(s, key, key(x), p)
    ensures Descending(Place(s, p, x), key)
  {
    var r := Place(s, p, x);
    forall i, j | 0 <= i < j < |r|
      ensures !Below(key(r[i]), key(r[j]))
    {
      var i' := if i < p then i else i - 1;
      var j' := if j < p then j else j - 1;
      assert i != p ==> r[i] == s[i'];
      assert j != p ==> r[j] == s[j'];
    }
  }

  lemma {:induction false} SortDescends<T>(s: seq<T>, key: T -> Key)
    ensures Descending(Sort(s, key), key)
  {
    if s != [] {
      var n := |s| - 1;
      var sorted := Sort(s[..n], key);
      SortDescends(s[..n], key);
      LeadIsCut(sorted, key, key(s[n]));
      PlaceDescending(sorted, key, s[n], Lead(sorted, key, key(s[n])));
    }
  }

  lemma {:induction false} SortPermutes<T>(s: seq<T>, key: T -> Key)
    ensures multiset(Sort(s, key)) == multiset(s)
  {
    if s != [] {
      var n := |s| - 1;
      var sorted := Sort(s[..n], key);
      SortPermutes(s[..n], key);
      PlacePermutes(sorted, Lead(sorted, key, key(s[n])), s[n]);
      assert s == s[..n] + [s[n]];
    }
  }

  lemma PlacePermutes<T>(s: seq<T>, p: nat, x: T)
    requires p <= |s|
    ensures multiset(Place(s, p, x)) == multiset(s) + multiset{x}
  {
    assert s == s[..p] + s[p..];
  }

  /** The elements with key `k`, in order. */
  function Ties<T>(s: seq<T>, key: T -> Key, k: Key): seq<T> {
    if s == [] then [] else Ties(s[..|s| - 1], key, k) + if key(s[|s| - 1]) == k then [s[|s| - 1]] else []
  }

  lemma {:induction false} TiesAppend<T>(a: seq<T>, b: seq<T>, key: T -> Key, k: Key)
    ensures Ties(a + b, key, k) == Ties(a, key, k) + Ties(b, key, k)
  {
    if b == [] {
      assert a + b == a;
    } else {
      assert (a + b)[..|a + b| - 1] == a + b[..|b| - 1];
      TiesAppend(a, b[..|b| - 1], key, k);
    }
  }

  lemma {:induction false} NoTies<T>(s: seq<T>, key: T -> Key, k: Key)
    requires forall j :: 0 <= j < |s| ==> key(s[j]) != k
    ensures Ties(s, key, k) == []
  {
    if s != [] {
      NoTies(s[..|s| - 1], key, k);
    }
  }

  lemma PlaceKeepsTies<T>(s: seq<T>, key: T -> Key, x: T, p: nat, k: Key)
    requires Cut(s, key, key(x), p)
    ensures Ties(Place(s, p, x), key, k) == Ties(s + [x], key, k)
  {
    var front, back := s[..p], s[p..];
    assert s == front + back && s + [x] == front + back + [x];
    TiesAppend(front, [x], key, k);
    TiesAppend(front + [x], back, key, k);
    TiesAppend(front, back, key, k);
    TiesAppend(s, [x], key, k);
    if key(x) == k {
      NoTies(back, key, k);
    } else {
      NoTies([x], key, k);
    }
  }

  /** Stability: elements with equal keys keep their relative order. */
  lemma {:induction false} SortIsStable<T>(s: seq<T>, key: T -> Key, k: Key)
    ensures Ties(Sort(s, key), key, k) == Ties(s, key, k)
  {
    if s != [] {
      var n := |s| - 1;
      var sorted := Sort(s[..n], key);
      SortIsStable(s[..n], key, k);
      SortDescends(s[..n], key);
      LeadIsCut(sorted, key, key(s[n]));
      PlaceKeepsTies(sorted, key, s[n], Lead(sorted, key, key(s[n])), k);
      TiesAppend(sorted, [s[n]], key, k);
      TiesAppend(s[..n], [s[n]], key, k);
      assert s == s[..n] + [s[n]];
    }
  }

  lemma {:induction false} SortedIsFixed<T>(s: seq<T>, key: T -> Key)
    requires Descending(s, key)
    ensures Sort(s, key) == s
  {
    if s != [] {
      var n := |s| - 1;
      SortedIsFixed(s[..n], key);
      assert forall j :: 0 <= j < n ==> s[..n][j] == s[j];
      CutIsLead(s[..n], key, key(s[n]), n);
      assert s[..n] + [s[n]] == s;
    }
  }

  /** Sorting a descending list with one new element behind it. */
  lemma SortAppended<T>(s: seq<T>, key: T -> Key, x: T) returns (p: nat)
    requires Descending(s, key)
    ensures Cut(s, key, key(x), p) && Sort(s + [x], key) == Place(s, p, x)
  {
    p := Lead(s, key, key(x));
    LeadIsCut(s, key, key(x));
    SortedIsFixed(s, key);
    assert (s + [x])[..|s|] == s;
  }

  /** Where a replaced element goes: it keeps its place among equals, so it stays
      behind equals that stood in front and in front of equals that stood behind. */
  predicate MixedCut<T>(rest: seq<T>, i: nat, key: T -> Key, k: Key, p: nat) {
    && p <= |rest|
    && (forall j :: 0 <= j < p && j < |rest| ==> !Below(key(rest[j]), k) && (j >= i ==> Below(k, key(rest[j]))))
    && (forall j :: p <= j < |rest| ==> !Below(k, key(rest[j])) && (j < i ==> Below(key(rest[j]), k)))
  }

  /** A last element above a replaced one passes it. */
  lemma PassesLast<T>(shorter: seq<T>, i: nat, key: T -> Key, x: T, y: T, q: nat)
    requires Descending(shorter + [y], key) && i <= |shorter|
    requires MixedCut(shorter, i, key, key(x), q) && Below(key(x), key(y))
    ensures var sorted := Place(shorter, q, x);
            Cut(sorted, key, key(y), |shorter|) && Place(sorted, |shorter|, y) == Place(shorter + [y], |shorter| + 1, x)
    ensures MixedCut(shorter + [y], i, key, key(x), |shorter| + 1)
  {
    var rest := shorter + [y];
    forall j | 0 <= j < |shorter|
      ensures !Below(key(shorter[j]), key(y)) && Below(key(x), key(shorter[j]))
    {
      assert rest[j] == shorter[j] && rest[|shorter|] == y;
    }
    if shorter != [] {
      assert Below(key(x), key(shorter[|shorter| - 1]));
    }
    assert q == |shorter|;
    assert Place(shorter, q, x) == shorter + [x];
  }

  /** A last element that is not above the replaced one stays last. */
  lemma StaysLast<T>(shorter: seq<T>, i: nat, key: T -> Key, x: T, y: T, q: nat)
    requires Descending(shorter + [y], key) && i <= |shorter|
    requires MixedCut(shorter, i, key, key(x), q) && !Below(key(x), key(y))
    ensures var sorted := Place(shorter, q, x);
            Cut(sorted, key, key(y), |sorted|) && Place(sorted, |sorted|, y) == Place(shorter + [y], q, x)
    ensures MixedCut(shorter + [y], i, key, key(x), q)
  {
    var rest := shorter + [y];
    var sorted := Place(shorter, q, x);
    forall j | 0 <= j < |shorter|
      ensures !Below(key(shorter[j]), key(y))
    {
      assert rest[j] == shorter[j] && rest[|shorter|] == y;
    }
    forall j | 0 <= j < |sorted|
      ensures !Below(key(sorted[j]), key(y))
    {
      assert j < q ==> sorted[j] == shorter[j];
      assert j > q ==> sorted[j] == shorter[j - 1];
    }
    assert Place(sorted, |sorted|, y) == shorter[..q] + [x] + (shorter[q..] + [y]);
    assert rest[q..] == shorter[q..] + [y] && rest[..q] == shorter[..q];
  }

  /** Sorting a list that was descending before one element was replaced. */
  lemma {:induction false} SortReplaced<T>(front: seq<T>, x: T, back: seq<T>, key: T -> Key) returns (p: nat)
    requires Descending(front + back, key)
    ensures MixedCut(front + back, |front|, key, key(x), p)
    ensures Sort(front + [x] + back, key) == Place(front + back, p, x)
    decreases |back|
  {
    if back == [] {
      assert front + back == front && front + [x] + back == front + [x];
      p := SortAppended(front, key, x);
    } else {
      var m := |back| - 1;
      var y := back[m];
      var shorter := front + back[..m];
      var s := front + [x] + back;
      assert front + back == shorter + [y];
      assert s[..|s| - 1] == front + [x] + back[..m] && s[|s| - 1] == y;
      var q := ShorterReplaced(front, x, back[..m], y, key);
      var sorted := Place(shorter, q, x);
      if Below(key(x), key(y)) {
        PassesLast(shorter, |front|, key, x, y, q);
        CutIsLead(sorted, key, key(y), |shorter|);
        p := |shorter| + 1;
      } else {
        StaysLast(shorter, |front|, key, x, y, q);
        CutIsLead(sorted, key, key(y), |sorted|);
        p := q;
      }
    }
  }

  lemma {:induction false} ShorterReplaced<T>(front: seq<T>, x: T, back: seq<T>, y: T, key: T -> Key) returns (p: nat)
    requires Descending(front + back + [y], key)
    ensures MixedCut(front + back, |front|, key, key(x), p)
    ensures Sort(front + [x] + back, key) == Place(front + back, p, x)
    decreases |back| + 1, 0
  {
    var rest := front + back + [y];
    forall i, j | 0 <= i < j < |front + back|
      ensures !Below(key((front + back)[i]), key((front + back)[j]))
    {
      assert (front + back)[i] == rest[i] && (front + back)[j] == rest[j];
    }
    p := SortReplaced(front, x, back, key);
  }
}
