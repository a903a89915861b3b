// The bounded share histories of src/state.py: FOLDER_SHARE_HISTORY (100 entries,
// keyed by path) and FOLDER_PAIR_HISTORY (50 entries, keyed by two paths), sorted
// by recency and truncated on every share.  The reference is the same list without
// truncation.
module FolderHistory {
  import opened StableSort

  const SHARE_CAP := 100
  const PAIR_CAP := 50

  datatype Entry<K> = Entry(id: K, shareCount: int, lastSharedAt: real)

  datatype Share<K> = Share(id: K, at: real)

  // ---------- one share ----------

  function ByRecency<K>(e: Entry<K>): Key {
    Key(0, e.lastSharedAt)
  }

  function ByFrequency<K>(e: Entry<K>): Key {
    Key(e.shareCount, e.lastSharedAt)
  }

  /** The first entry for `id`, or the length of the list. */
  function Find<K(==)>(h: seq<Entry<K>>, id: K): (i: nat)
    ensures i <= |h|
    ensures i < |h| ==> h[i].id == id
    ensures forall j :: 0 <= j < i ==> h[j].id != id
  {
    if h == [] || h[0].id == id then 0 else 1 + Find(h[1..], id)
  }

  function Touched<K(==)>(h: seq<Entry<K>>, id: K, at: real): seq<Entry<K>> {
    var i := Find(h, id);
    if i == |h| then h + [Entry(id, 1, at)]
    else h[i := Entry(id, h[i].shareCount + 1, at)]
  }

  /** One share without truncation. */
  function Shared<K(==)>(h: seq<Entry<K>>, id: K, at: real): seq<Entry<K>> {
    Sort(Touched(h, id, at), ByRecency)
  }

  function Take<T>(s: seq<T>, n: nat): seq<T> {
    if |s| <= n then s else s[..n]
  }

  function Bounded<K(==)>(shares: seq<Share<K>>, cap: nat): seq<Entry<K>> {
    if shares == [] then []
    else
      var n := |shares| - 1;
      Take(Shared(Bounded(shares[..n], cap), shares[n].id, shares[n].at), cap)
  }

  function Unbounded<K(==)>(shares: seq<Share<K>>): seq<Entry<K>> {
    if shares == [] then []
    else
      var n := |shares| - 1;
      Shared(Unbounded(shares[..n]), shares[n].id, shares[n].at)
  }

  // ---------- shape of the lists ----------

  predicate Distinct<K(==)>(h: seq<Entry<K>>) {
    forall i, j :: 0 <= i < j < |h| ==> h[i].id != h[j].id
  }

  ghost predicate WellFormed<K>(h: seq<Entry<K>>) {
    Distinct(h) && Descending(h, ByRecency)
  }

  /** The list without the entry for `id`. */
  function Rest<K(==)>(h: seq<Entry<K>>, id: K): seq<Entry<K>> {
    var i := Find(h, id);
    if i == |h| then h else h[..i] + h[i + 1..]
  }

  function CountOf<K(==)>(h: seq<Entry<K>>, id: K): int {
    var i := Find(h, id);
    if i == |h| then 0 else h[i].shareCount
  }

  /** Descending by recency is newest first. */
  lemma NewestAhead<K>(h: seq<Entry<K>>)
    ensures Descending(h, ByRecency) <==> forall i, j :: 0 <= i < j < |h| ==> h[i].lastSharedAt >= h[j].lastSharedAt
  {
    forall i, j | 0 <= i < j < |h|
      ensures !Below(ByRecency(h[i]), ByRecency(h[j])) <==> h[i].lastSharedAt >= h[j].lastSharedAt
    {
    }
  }

  lemma RestDescending<K>(h: seq<Entry<K>>, id: K)
    requires WellFormed(h)
    ensures WellFormed(Rest(h, id))
    ensures forall j :: 0 <= j < |Rest(h, id)| ==> Rest(h, id)[j].id != id
  {
    var r := Rest(h, id);
    var i := Find(h, id);
    forall j | 0 <= j < |r|
      ensures r[j] == h[if j < i then j else j + 1]
    {
    }
  }

  /** What one share does: the entry leaves its place and goes to the cut of its
      new time, in front of older entries and behind newer ones. */
  lemma SharedShape<K>(h: seq<Entry<K>>, id: K, at: real) returns (p: nat)
    requires WellFormed(h)
    ensures var rest := Rest(h, id);
            && MixedCut(rest, Find(h, id), ByRecency, Key(0, at), p)
            && Shared(h, id, at) == Place(rest, p, Entry(id, CountOf(h, id) + 1, at))
  {
    var i := Find(h, id);
    RestDescending(h, id);
    if i == |h| {
      p := SortAppended(h, ByRecency, Entry(id, 1, at));
    } else {
      var x := Entry(id, h[i].shareCount + 1, at);
      assert Touched(h, id, at) == h[..i] + [x] + h[i + 1..];
      p := SortReplaced(h[..i], x, h[i + 1..], ByRecency);
    }
  }

  lemma SharedParts<K>(h: seq<Entry<K>>, id: K, at: real) returns (p: nat)
    requires WellFormed(h)
    ensures p <= |Rest(h, id)|
    ensures Shared(h, id, at) == Place(Rest(h, id), p, Entry(id, CountOf(h, id) + 1, at))
  {
    p := SharedShape(h, id, at);
  }

  lemma SharedWellFormed<K>(h: seq<Entry<K>>, id: K, at: real)
    requires WellFormed(h)
    ensures WellFormed(Shared(h, id, at))
  {
    var p := SharedShape(h, id, at);
    SortDescends(Touched(h, id, at), ByRecency);
    RestDescending(h, id);
    var rest := Rest(h, id);
    var r := Shared(h, id, at);
    forall i, j | 0 <= i < j < |r|
      ensures r[i].id != r[j].id
    {
      assert i != p ==> r[i] == rest[if i < p then i else i - 1];
      assert j != p ==> r[j] == rest[if j < p then j else j - 1];
    }
  }

  lemma TakeWellFormed<K>(h: seq<Entry<K>>, cap: nat)
    requires WellFormed(h)
    ensures WellFormed(Take(h, cap)) && |Take(h, cap)| <= cap
  {
  }

  lemma {:induction false} UnboundedWellFormed<K>(shares: seq<Share<K>>)
    ensures WellFormed(Unbounded(shares))
  {
    if shares != [] {
      var n := |shares| - 1;
      UnboundedWellFormed(shares[..n]);
      SharedWellFormed(Unbounded(shares[..n]), shares[n].id, shares[n].at);
    }
  }

  /** After any run of shares, at any times, the kept list has no duplicates, is sorted
      by recency and is within its limit. */
  lemma {:induction false} BoundedWellFormed<K>(shares: seq<Share<K>>, cap: nat)
    ensures WellFormed(Bounded(shares, cap)) && |Bounded(shares, cap)| <= cap
    ensures var h := Bounded(shares, cap);
            forall i, j :: 0 <= i < j < |h| ==> h[i].id != h[j].id && h[i].lastSharedAt >= h[j].lastSharedAt
  {
    NewestAhead(Bounded(shares, cap));
    if shares != [] {
      var n := |shares| - 1;
      BoundedWellFormed(shares[..n], cap);
      SharedWellFormed(Bounded(shares[..n], cap), shares[n].id, shares[n].at);
      TakeWellFormed(Shared(Bounded(shares[..n], cap), shares[n].id, shares[n].at), cap);
    }
  }

  // ---------- truncation ----------

  /** Equal but for the share count. */
  predicate Like<K(==)>(a: Entry<K>, b: Entry<K>) {
    a.id == b.id && a.lastSharedAt == b.lastSharedAt
  }

  predicate Begins<K(==)>(b: seq<Entry<K>>, u: seq<Entry<K>>) {
    |b| <= |u| && forall i :: 0 <= i < |b| ==> Like(b[i], u[i])
  }

  /** `b` shows the first `cap` entries of `u`, up to the share counts. */
  predicate Shows<K(==)>(b: seq<Entry<K>>, u: seq<Entry<K>>, cap: nat) {
    |b| == (if |u| <= cap then |u| else cap) && Begins(b, u)
  }

  /** The one situation truncation cannot cover up: a kept entry moves back behind
      the first entry that was cut off. */
  predicate FallsBehindCut<K(==)>(u: seq<Entry<K>>, id: K, at: real, cap: nat) {
    && |u| > cap
    && Find(u, id) < cap
    && u[cap].lastSharedAt > at
  }

  lemma ShowsFind<K>(b: seq<Entry<K>>, u: seq<Entry<K>>, cap: nat, id: K)
    requires Shows(b, u, cap)
    ensures Find(u, id) < cap && Find(u, id) < |u| ==> Find(b, id) == Find(u, id)
    ensures Find(u, id) >= cap || Find(u, id) == |u| ==> Find(b, id) == |b|
  {
    var i, j := Find(b, id), Find(u, id);
    assert i < |b| ==> Like(b[i], u[i]);
    assert j < |b| ==> Like(b[j], u[j]);
  }

  lemma RestLength<K>(h: seq<Entry<K>>, id: K)
    ensures |Rest(h, id)| == |h| - if Find(h, id) < |h| then 1 else 0
  {
  }

  /** How long the lists without the shared entry are. */
  lemma RestLengths<K>(b: seq<Entry<K>>, u: seq<Entry<K>>, cap: nat, id: K)
    requires Shows(b, u, cap)
    ensures |Rest(b, id)| == |Rest(u, id)| || |Rest(b, id)| >= cap - 1
    ensures |Rest(b, id)| < |Rest(u, id)| && Find(u, id) >= cap ==> |Rest(b, id)| == cap
    ensures |Rest(b, id)| < |Rest(u, id)| && Find(u, id) < cap ==> |Rest(b, id)| == cap - 1 && |u| > cap
  {
    ShowsFind(b, u, cap, id);
    RestLength(b, id);
    RestLength(u, id);
  }

  lemma RestAt<K>(h: seq<Entry<K>>, id: K, j: nat)
    requires j < |Rest(h, id)|
    ensures j + 1 <= |h| && (j >= Find(h, id) ==> j + 1 < |h|)
    ensures Rest(h, id)[j] == h[if j < Find(h, id) then j else j + 1]
  {
  }

  /** The lists without the shared entry. */
  lemma RestBegins<K>(b: seq<Entry<K>>, u: seq<Entry<K>>, cap: nat, id: K)
    requires Shows(b, u, cap)
    ensures Begins(Rest(b, id), Rest(u, id))
  {
    ShowsFind(b, u, cap, id);
    RestLength(b, id);
    RestLength(u, id);
    forall j | 0 <= j < |Rest(b, id)|
      ensures Like(Rest(b, id)[j], Rest(u, id)[j])
    {
      RestAt(b, id, j);
      RestAt(u, id, j);
      assert Like(b[if j < Find(b, id) then j else j + 1], u[if j < Find(b, id) then j else j + 1]);
    }
  }

  /** An entry common to both lists stays on the same side of the shared one. */
  lemma SameSide<K>(rb: seq<Entry<K>>, ru: seq<Entry<K>>, i: nat, i': nat, at: real, p: nat, q: nat, j: nat)
    requires Begins(rb, ru) && j < |rb| && (j < i <==> j < i')
    requires MixedCut(rb, i, ByRecency, Key(0, at), p) && MixedCut(ru, i', ByRecency, Key(0, at), q)
    ensures j < p <==> j < q
  {
    assert Like(rb[j], ru[j]) && ByRecency(rb[j]) == ByRecency(ru[j]);
  }

  lemma SamePlace<K>(rb: seq<Entry<K>>, ru: seq<Entry<K>>, i: nat, i': nat, at: real, p: nat, q: nat)
    requires Begins(rb, ru) && (i == i' || (i >= |rb| && i' >= |rb|))
    requires MixedCut(rb, i, ByRecency, Key(0, at), p) && MixedCut(ru, i', ByRecency, Key(0, at), q)
    ensures p == if q <= |rb| then q else |rb|
  {
    if p > 0 {
      SameSide(rb, ru, i, i', at, p, q, p - 1);
    }
    if p < |rb| {
      SameSide(rb, ru, i, i', at, p, q, p);
    }
  }

  /** Without an entry in front of the cut, the first entry cut off moves up to it. */
  lemma EntryBehind<K>(u: seq<Entry<K>>, id: K, cap: nat)
    requires Find(u, id) < cap < |u|
    ensures cap - 1 < |Rest(u, id)| && Rest(u, id)[cap - 1] == u[cap]
  {
    MovedUp(u, Find(u, id), cap);
  }

  lemma MovedUp<T>(s: seq<T>, i: nat, c: nat)
    requires i < c < |s|
    ensures |s[..i] + s[i + 1..]| == |s| - 1 && (s[..i] + s[i + 1..])[c - 1] == s[c]
  {
  }

  /** An entry behind the shared one's old place is passed exactly when it is not newer. */
  lemma PassedIff<K>(rest: seq<Entry<K>>, i: nat, at: real, q: nat, c: nat)
    requires MixedCut(rest, i, ByRecency, Key(0, at), q) && i <= c < |rest|
    ensures q <= c <==> rest[c].lastSharedAt <= at
  {
    assert ByRecency(rest[c]) == Key(0, rest[c].lastSharedAt);
  }

  /** An entry shared no earlier than the first entry cut off stays in front of the cut. */
  lemma NotPushedBehind<K>(u: seq<Entry<K>>, id: K, at: real, cap: nat, q: nat)
    requires |u| > cap && Find(u, id) < cap && u[cap].lastSharedAt <= at
    requires MixedCut(Rest(u, id), Find(u, id), ByRecency, Key(0, at), q)
    ensures q < cap
  {
    EntryBehind(u, id, cap);
    PassedIff(Rest(u, id), Find(u, id), at, q, cap - 1);
  }

  /** The places of the shared entry in the two lists. */
  lemma Places<K>(b: seq<Entry<K>>, u: seq<Entry<K>>, cap: nat, id: K, at: real) returns (p: nat, q: nat)
    requires WellFormed(b) && WellFormed(u) && Shows(b, u, cap) && !FallsBehindCut(u, id, at, cap)
    ensures p <= |Rest(b, id)| && q <= |Rest(u, id)| && (p == q || cap <= p <= q)
    ensures Shared(b, id, at) == Place(Rest(b, id), p, Entry(id, CountOf(b, id) + 1, at))
    ensures Shared(u, id, at) == Place(Rest(u, id), q, Entry(id, CountOf(u, id) + 1, at))
  {
    p := SharedShape(b, id, at);
    q := SharedShape(u, id, at);
    ShowsFind(b, u, cap, id);
    RestBegins(b, u, cap, id);
    RestLengths(b, u, cap, id);
    SamePlace(Rest(b, id), Rest(u, id), Find(b, id), Find(u, id), at, p, q);
    if |u| > cap && Find(u, id) < cap {
      NotPushedBehind(u, id, at, cap, q);
    }
  }

  /** Exactly when one share keeps the truncated list equal to the first entries of
      the full one: unless a kept entry is shared at a time older than that of the
      first entry cut off. */
  lemma ShareShowsIff<K>(b: seq<Entry<K>>, u: seq<Entry<K>>, cap: nat, id: K, at: real)
    requires WellFormed(b) && WellFormed(u) && Shows(b, u, cap)
    ensures Shows(Take(Shared(b, id, at), cap), Shared(u, id, at), cap) <==> !FallsBehindCut(u, id, at, cap)
  {
    if FallsBehindCut(u, id, at, cap) {
      BehindCutShows(b, u, cap, id, at);
    } else {
      AheadOfCutShows(b, u, cap, id, at);
    }
  }

  lemma BehindCutShows<K>(b: seq<Entry<K>>, u: seq<Entry<K>>, cap: nat, id: K, at: real)
    requires WellFormed(b) && WellFormed(u) && Shows(b, u, cap) && FallsBehindCut(u, id, at, cap)
    ensures !Shows(Take(Shared(b, id, at), cap), Shared(u, id, at), cap)
  {
    var p := SharedParts(b, id, at);
    var q := PushedBehind(u, id, at, cap);
    ShowsFind(b, u, cap, id);
    RestLength(b, id);
    RestDescending(u, id);
    KeptOnlyInFront(Rest(b, id), Rest(u, id), p, q,
                    Entry(id, CountOf(b, id) + 1, at), Entry(id, CountOf(u, id) + 1, at), cap);
  }

  lemma PushedBehind<K>(u: seq<Entry<K>>, id: K, at: real, cap: nat) returns (q: nat)
    requires WellFormed(u) && FallsBehindCut(u, id, at, cap)
    ensures cap <= q <= |Rest(u, id)|
    ensures Shared(u, id, at) == Place(Rest(u, id), q, Entry(id, CountOf(u, id) + 1, at))
  {
    q := SharedShape(u, id, at);
    BehindAt(u, id, at, cap, q);
  }

  lemma BehindAt<K>(u: seq<Entry<K>>, id: K, at: real, cap: nat, q: nat)
    requires FallsBehindCut(u, id, at, cap)
    requires MixedCut(Rest(u, id), Find(u, id), ByRecency, Key(0, at), q)
    ensures q >= cap
  {
    EntryBehind(u, id, cap);
    PassedIff(Rest(u, id), Find(u, id), at, q, cap - 1);
  }

  /** The truncated list keeps an id that the full list shows behind the cut only. */
  lemma KeptOnlyInFront<K>(rb: seq<Entry<K>>, ru: seq<Entry<K>>, p: nat, q: nat, x: Entry<K>, y: Entry<K>, cap: nat)
    requires p <= |rb| == cap - 1 && cap <= q <= |ru|
    requires forall j :: 0 <= j < |ru| ==> ru[j].id != x.id
    ensures !Shows(Take(Place(rb, p, x), cap), Place(ru, q, y), cap)
  {
    assert Take(Place(rb, p, x), cap)[p] == x;
    assert Place(ru, q, y)[p] == ru[p];
  }

  lemma AheadOfCutShows<K>(b: seq<Entry<K>>, u: seq<Entry<K>>, cap: nat, id: K, at: real)
    requires WellFormed(b) && WellFormed(u) && Shows(b, u, cap) && !FallsBehindCut(u, id, at, cap)
    ensures Shows(Take(Shared(b, id, at), cap), Shared(u, id, at), cap)
  {
    var p, q := Places(b, u, cap, id, at);
    RestBegins(b, u, cap, id);
    RestLengths(b, u, cap, id);
    PlacedShow(Rest(b, id), Rest(u, id), p, q,
               Entry(id, CountOf(b, id) + 1, at), Entry(id, CountOf(u, id) + 1, at), cap);
  }

  lemma PlacedShow<K>(rb: seq<Entry<K>>, ru: seq<Entry<K>>, p: nat, q: nat, x: Entry<K>, y: Entry<K>, cap: nat)
    requires Begins(rb, ru) && Like(x, y) && (|rb| == |ru| || cap - 1 <= |rb|)
    requires p <= |rb| && q <= |ru| && (p == q || cap <= p <= q)
    ensures Shows(Take(Place(rb, p, x), cap), Place(ru, q, y), cap)
  {
    var kept, full := Take(Place(rb, p, x), cap), Place(ru, q, y);
    forall j | 0 <= j < |kept|
      ensures Like(kept[j], full[j])
    {
      assert j < p ==> kept[j] == rb[j] && full[j] == ru[j];
      assert j > p ==> kept[j] == rb[j - 1] && full[j] == ru[j - 1];
    }
  }

  ghost predicate InOrder<K>(shares: seq<Share<K>>) {
    forall i, j :: 0 <= i < j < |shares| ==> shares[i].at <= shares[j].at
  }

  predicate AllBy<K>(h: seq<Entry<K>>, now: real) {
    forall j :: 0 <= j < |h| ==> h[j].lastSharedAt <= now
  }

  lemma {:induction false} TimesBounded<K>(shares: seq<Share<K>>, now: real)
    requires forall i :: 0 <= i < |shares| ==> shares[i].at <= now
    ensures AllBy(Unbounded(shares), now)
  {
    if shares != [] {
      var n := |shares| - 1;
      TimesBounded(shares[..n], now);
      UnboundedWellFormed(shares[..n]);
      SharedTimes(Unbounded(shares[..n]), shares[n].id, shares[n].at, now);
    }
  }

  lemma SharedTimes<K>(h: seq<Entry<K>>, id: K, at: real, now: real)
    requires WellFormed(h) && AllBy(h, now) && at <= now
    ensures AllBy(Shared(h, id, at), now)
  {
    var p := SharedParts(h, id, at);
    RestTimes(h, id, now);
  }

  lemma RestTimes<K>(h: seq<Entry<K>>, id: K, now: real)
    requires AllBy(h, now)
    ensures AllBy(Rest(h, id), now)
  {
  }

  /** Over every run of shares with a clock that never runs backwards, the truncated
      history is the start of the unbounded recency list, ties included. */
  lemma {:induction false} BoundedShowsUnbounded<K>(shares: seq<Share<K>>, cap: nat)
    requires InOrder(shares)
    ensures Shows(Bounded(shares, cap), Unbounded(shares), cap)
  {
    if shares != [] {
      var n := |shares| - 1;
      BoundedShowsUnbounded(shares[..n], cap);
      BoundedWellFormed(shares[..n], cap);
      UnboundedWellFormed(shares[..n]);
      TimesBounded(shares[..n], shares[n].at);
      ShareShowsIff(Bounded(shares[..n], cap), Unbounded(shares[..n]), cap, shares[n].id, shares[n].at);
    }
  }

  // ---------- a run in which truncation shows ----------

  /** One share of each id, at times 0, 1, 2 and so on. */
  function Ascending<K>(ids: seq<K>): (shares: seq<Share<K>>)
    ensures |shares| == |ids|
    ensures forall i :: 0 <= i < |ids| ==> shares[i] == Share(ids[i], i as real)
  {
    if ids == [] then []
    else
      var n := |ids| - 1;
      Ascending(ids[..n]) + [Share(ids[n], n as real)]
  }

  lemma NewestFirst<K>(h: seq<Entry<K>>, id: K, at: real)
    requires WellFormed(h) && Find(h, id) == |h|
    requires forall j :: 0 <= j < |h| ==> h[j].lastSharedAt < at
    ensures Shared(h, id, at) == [Entry(id, 1, at)] + h
  {
    var p := SharedShape(h, id, at);
    assert p > 0 ==> !Below(ByRecency(h[0]), Key(0, at));
  }

  predicate AllDifferent<K(==)>(ids: seq<K>) {
    forall i, j :: 0 <= i < j < |ids| ==> ids[i] != ids[j]
  }

  /** One entry for each id, the last one first. */
  ghost predicate Reversed<K>(u: seq<Entry<K>>, ids: seq<K>) {
    && |u| == |ids|
    && forall j :: 0 <= j < |u| ==> u[j] == Entry(ids[|ids| - 1 - j], 1, (|ids| - 1 - j) as real)
  }

  lemma ReversedLacks<K>(u: seq<Entry<K>>, front: seq<K>, last: K)
    requires last !in front && Reversed(u, front)
    ensures Find(u, last) == |u|
    ensures forall j :: 0 <= j < |u| ==> u[j].lastSharedAt < |front| as real
  {
    forall j | 0 <= j < |u|
      ensures u[j].id != last
    {
      assert u[j].id == front[|front| - 1 - j];
    }
  }

  lemma ReversedSnoc<K>(u: seq<Entry<K>>, front: seq<K>, last: K)
    requires Reversed(u, front)
    ensures Reversed([Entry(last, 1, |front| as real)] + u, front + [last])
  {
  }

  lemma SharedReversed<K>(u: seq<Entry<K>>, front: seq<K>, last: K)
    requires last !in front && WellFormed(u) && Reversed(u, front)
    ensures Reversed(Shared(u, last, |front| as real), front + [last])
  {
    ReversedLacks(u, front, last);
    NewestFirst(u, last, |front| as real);
    ReversedSnoc(u, front, last);
  }

  lemma AscendingSnoc<K>(ids: seq<K>)
    requires ids != []
    ensures var n := |ids| - 1;
            Unbounded(Ascending(ids)) == Shared(Unbounded(Ascending(ids[..n])), ids[n], n as real)
  {
    assert Ascending(ids)[..|ids| - 1] == Ascending(ids[..|ids| - 1]);
  }

  lemma {:induction false} AscendingReversed<K>(ids: seq<K>)
    requires AllDifferent(ids)
    ensures Reversed(Unbounded(Ascending(ids)), ids)
  {
    if ids != [] {
      var n := |ids| - 1;
      AscendingReversed(ids[..n]);
      UnboundedWellFormed(Ascending(ids[..n]));
      assert ids == ids[..n] + [ids[n]];
      SharedReversed(Unbounded(Ascending(ids[..n])), ids[..n], ids[n]);
      AscendingSnoc(ids);
    }
  }

  /** One share more than the list has room for, of different folders, and then the
      newest one again at a time before all others: the full list moves it to its end,
      the truncated one cannot. With a cap of 100, this is the 102nd share of a run. */
  lemma OldShareShows<K>(ids: seq<K>, cap: nat)
    requires cap > 0 && |ids| == cap + 1 && AllDifferent(ids)
    ensures var shares := Ascending(ids);
            var longer := shares + [Share(ids[cap], -1.0)];
            && Shows(Bounded(shares, cap), Unbounded(shares), cap)
            && !Shows(Bounded(longer, cap), Unbounded(longer), cap)
  {
    var shares := Ascending(ids);
    var longer := shares + [Share(ids[cap], -1.0)];
    BoundedShowsUnbounded(shares, cap);
    BoundedWellFormed(shares, cap);
    UnboundedWellFormed(shares);
    AscendingReversed(ids);
    FindIs(Unbounded(shares), ids[cap], 0);
    assert longer[..|shares|] == shares;
    ShareShowsIff(Bounded(shares, cap), Unbounded(shares), cap, ids[cap], -1.0);
  }

  // ---------- what the unbounded list says ----------

  function LatestShare<K(==)>(shares: seq<Share<K>>, id: K): (n: nat)
    ensures n <= |shares|
  {
    if shares == [] then 0
    else if shares[|shares| - 1].id == id then |shares|
    else LatestShare(shares[..|shares| - 1], id)
  }

  function TimesShared<K(==)>(shares: seq<Share<K>>, id: K): nat {
    if shares == [] then 0
    else TimesShared(shares[..|shares| - 1], id) + if shares[|shares| - 1].id == id then 1 else 0
  }

  lemma FindIs<K>(h: seq<Entry<K>>, id: K, k: nat)
    requires Distinct(h) && k < |h| && h[k].id == id
    ensures Find(h, id) == k
  {
  }

  lemma FindInPlaced<K>(h: seq<Entry<K>>, id: K, other: K, p: nat, x: Entry<K>)
    requires Distinct(h) && p <= |Rest(h, id)| && x.id == id && other != id
    requires Distinct(Place(Rest(h, id), p, x))
    ensures var r := Place(Rest(h, id), p, x);
            && (Find(r, other) < |r| <==> Find(h, other) < |h|)
            && (Find(h, other) < |h| ==> r[Find(r, other)] == h[Find(h, other)])
  {
    var rest := Rest(h, id);
    var r := Place(rest, p, x);
    var i, k := Find(h, id), Find(h, other);
    if k < |h| {
      var k' := if k < i then k else k - 1;
      assert rest[k'] == h[k];
      var k'' := if k' < p then k' else k' + 1;
      assert r[k''] == h[k];
      FindIs(r, other, k'');
    } else {
      forall j | 0 <= j < |r|
        ensures r[j].id != other
      {
        if j != p {
          var j' := if j < p then j else j - 1;
          assert r[j] == rest[j'];
          assert rest[j'] == h[if j' < i then j' else j' + 1];
        }
      }
    }
  }

  lemma FindInShared<K>(h: seq<Entry<K>>, id: K, at: real, other: K)
    requires WellFormed(h)
    ensures var r := Shared(h, id, at);
            && (Find(r, other) < |r| <==> other == id || Find(h, other) < |h|)
            && (other == id ==> r[Find(r, id)] == Entry(id, CountOf(h, id) + 1, at))
            && (other != id && Find(h, other) < |h| ==> r[Find(r, other)] == h[Find(h, other)])
  {
    var p := SharedParts(h, id, at);
    SharedWellFormed(h, id, at);
    if other == id {
      FindIs(Shared(h, id, at), id, p);
    } else {
      FindInPlaced(h, id, other, p, Entry(id, CountOf(h, id) + 1, at));
    }
  }

  /** `h` lists `id` with this time and count, or not at all when the count is 0. */
  predicate Lists<K(==)>(h: seq<Entry<K>>, id: K, at: real, count: nat) {
    if count == 0 then Find(h, id) == |h|
    else Find(h, id) < |h| && h[Find(h, id)] == Entry(id, count, at)
  }

  function LatestTime<K(==)>(shares: seq<Share<K>>, id: K): real {
    var n := LatestShare(shares, id);
    if n == 0 then 0.0 else shares[n - 1].at
  }

  /** The unbounded list holds exactly the shared ids, each with the time of its
      latest share and with its number of shares. */
  lemma {:induction false} UnboundedIsLatest<K>(shares: seq<Share<K>>, id: K)
    ensures Lists(Unbounded(shares), id, LatestTime(shares, id), TimesShared(shares, id))
    ensures TimesShared(shares, id) > 0 <==> LatestShare(shares, id) > 0
  {
    if shares == [] {
      assert Find(Unbounded(shares), id) == 0;
    } else {
      var n := |shares| - 1;
      var x := shares[n];
      UnboundedIsLatest(shares[..n], id);
      UnboundedWellFormed(shares[..n]);
      CountsAfter(shares, id);
      ListsAfter(Unbounded(shares[..n]), x.id, x.at, id, LatestTime(shares[..n], id), TimesShared(shares[..n], id));
    }
  }

  lemma CountsAfter<K>(shares: seq<Share<K>>, id: K)
    requires shares != []
    ensures var n := |shares| - 1;
            if shares[n].id == id
            then LatestTime(shares, id) == shares[n].at && LatestShare(shares, id) > 0
                 && TimesShared(shares, id) == TimesShared(shares[..n], id) + 1
            else LatestTime(shares, id) == LatestTime(shares[..n], id)
                 && LatestShare(shares, id) == LatestShare(shares[..n], id)
                 && TimesShared(shares, id) == TimesShared(shares[..n], id)
  {
    var n := |shares| - 1;
    var m := LatestShare(shares[..n], id);
    assert m > 0 ==> shares[..n][m - 1] == shares[m - 1];
  }

  lemma ListsAfter<K>(h: seq<Entry<K>>, id: K, at: real, other: K, time: real, count: nat)
    requires WellFormed(h) && Lists(h, other, time, count)
    ensures if other == id then Lists(Shared(h, id, at), id, at, count + 1)
            else Lists(Shared(h, id, at), other, time, count)
  {
    FindInShared(h, id, at, other);
  }

  // ---------- share counts of the truncated list ----------

  ghost predicate Listed<K>(shares: seq<Share<K>>, cap: nat, id: K) {
    Find(Bounded(shares, cap), id) < |Bounded(shares, cap)|
  }

  /** `id` has been in the truncated list ever since share number `from`, which put it
      in: it is listed after that share and after every later one, but not before. */
  ghost predicate StaysSince<K>(shares: seq<Share<K>>, cap: nat, id: K, from: nat)
    decreases |shares|
  {
    && from < |shares| && Listed(shares, cap, id)
    && if from == |shares| - 1 then shares[from].id == id && !Listed(shares[..from], cap, id)
       else StaysSince(shares[..|shares| - 1], cap, id, from)
  }

  lemma FindInTake<K>(h: seq<Entry<K>>, id: K, cap: nat)
    ensures var t := Take(h, cap);
            Find(t, id) < |t| ==> Find(h, id) == Find(t, id) && h[Find(h, id)] == t[Find(t, id)]
  {
  }

  /** Each stored count is the number of shares since the entry last entered the
      list, for any share times. */
  lemma {:induction false} CountIsSharesOfStay<K>(shares: seq<Share<K>>, cap: nat, id: K) returns (from: nat)
    requires Listed(shares, cap, id)
    ensures StaysSince(shares, cap, id, from)
    ensures CountOf(Bounded(shares, cap), id) == TimesShared(shares[from..], id)
  {
    var n := |shares| - 1;
    var before := shares[..n];
    BoundedWellFormed(before, cap);
    CountStep(Bounded(before, cap), shares[n].id, shares[n].at, cap, id);
    if Listed(before, cap, id) {
      from := CountIsSharesOfStay(before, cap, id);
      CountGoesOn(shares, from, id);
    } else {
      from := n;
      LastShareOnly(shares, id);
    }
  }

  lemma CountGoesOn<K>(shares: seq<Share<K>>, from: nat, id: K)
    requires from < |shares|
    ensures var n := |shares| - 1;
            TimesShared(shares[from..], id) ==
            TimesShared(shares[..n][from..], id) + if shares[n].id == id then 1 else 0
  {
    var n := |shares| - 1;
    assert shares[from..][..n - from] == shares[..n][from..];
    CountsAfter(shares[from..], id);
  }

  lemma LastShareOnly<K>(shares: seq<Share<K>>, id: K)
    requires shares != []
    ensures TimesShared(shares[|shares| - 1..], id) == if shares[|shares| - 1].id == id then 1 else 0
  {
    var last := shares[|shares| - 1..];
    assert last == [shares[|shares| - 1]] && last[..0] == [];
    CountsAfter(last, id);
  }

  lemma CountStep<K>(h: seq<Entry<K>>, shared: K, at: real, cap: nat, id: K)
    requires WellFormed(h)
    requires Find(Take(Shared(h, shared, at), cap), id) < |Take(Shared(h, shared, at), cap)|
    ensures shared != id ==> Find(h, id) < |h|
    ensures CountOf(Take(Shared(h, shared, at), cap), id) == CountOf(h, id) + if shared == id then 1 else 0
  {
    FindInShared(h, shared, at, id);
    FindInTake(Shared(h, shared, at), id, cap);
  }

  // ---------- recommendations ----------

  function Existing(h: seq<Entry<string>>, isDir: string -> bool): seq<Entry<string>> {
    if h == [] then []
    else (if isDir(h[0].id) then [h[0]] else []) + Existing(h[1..], isDir)
  }

  function Recommended(h: seq<Entry<string>>, limit: int, isDir: string -> bool): seq<Entry<string>> {
    Take(Sort(Existing(h, isDir), ByFrequency), if limit < 0 then 0 else limit)
  }

  /** The existing folders stay in the order of the history. */
  lemma ExistingIs(first: Entry<string>, rest: seq<Entry<string>>, isDir: string -> bool)
    ensures Existing([], isDir) == []
    ensures Existing([first] + rest, isDir) ==
            if isDir(first.id) then [first] + Existing(rest, isDir) else Existing(rest, isDir)
  {
    assert ([first] + rest)[1..] == rest;
    assert [] + Existing(rest, isDir) == Existing(rest, isDir);
  }

  lemma {:induction false} ExistingIff(h: seq<Entry<string>>, isDir: string -> bool, e: Entry<string>)
    ensures multiset(Existing(h, isDir))[e] == if isDir(e.id) then multiset(h)[e] else 0
  {
    if h != [] {
      ExistingIff(h[1..], isDir, e);
      assert h == [h[0]] + h[1..];
    }
  }

  /** The rank of a folder: by share count, and by recency where that is equal. */
  lemma RankIff(a: Entry<string>, b: Entry<string>)
    ensures !Below(ByFrequency(a), ByFrequency(b)) <==>
            a.shareCount > b.shareCount || (a.shareCount == b.shareCount && a.lastSharedAt >= b.lastSharedAt)
  {
  }

  /** The recommendation and what it omits are together the existing folders; both the
      order of the recommendation and what it omits follow share count, then recency;
      nothing is omitted below the limit. */
  lemma RecommendsTop(h: seq<Entry<string>>, limit: int, isDir: string -> bool) returns (omitted: seq<Entry<string>>)
    ensures var r := Recommended(h, limit, isDir);
            && (forall i, j :: 0 <= i < j < |r| ==>
                  r[i].shareCount > r[j].shareCount
                  || (r[i].shareCount == r[j].shareCount && r[i].lastSharedAt >= r[j].lastSharedAt))
            && (forall e :: multiset(r + omitted)[e] == if isDir(e.id) then multiset(h)[e] else 0)
            && (forall a, b :: a in r && b in omitted ==>
                  a.shareCount > b.shareCount || (a.shareCount == b.shareCount && a.lastSharedAt >= b.lastSharedAt))
            && (omitted != [] ==> |r| == if limit < 0 then 0 else limit)
            && |r| <= if limit < 0 then 0 else limit
  {
    var sorted := Sort(Existing(h, isDir), ByFrequency);
    SortDescends(Existing(h, isDir), ByFrequency);
    var r := Recommended(h, limit, isDir);
    omitted := sorted[|r|..];
    assert r + omitted == sorted;
    SortedExisting(h, isDir);
    TopOverOmitted(sorted, |r|);
    forall i, j | 0 <= i < j < |r|
      ensures r[i].shareCount > r[j].shareCount
              || (r[i].shareCount == r[j].shareCount && r[i].lastSharedAt >= r[j].lastSharedAt)
    {
      assert r[i] == sorted[i] && r[j] == sorted[j];
      RankIff(r[i], r[j]);
    }
    forall a, b | a in r && b in omitted
      ensures a.shareCount > b.shareCount || (a.shareCount == b.shareCount && a.lastSharedAt >= b.lastSharedAt)
    {
      RankIff(a, b);
    }
  }

  /** The entries with this count and time, in order. */
  function Tied(s: seq<Entry<string>>, count: int, at: real): seq<Entry<string>> {
    if s == [] then []
    else
      var last := s[|s| - 1];
      Tied(s[..|s| - 1], count, at) + if last.shareCount == count && last.lastSharedAt == at then [last] else []
  }

  lemma {:induction false} TiedIsTies(s: seq<Entry<string>>, count: int, at: real)
    ensures Tied(s, count, at) == Ties(s, ByFrequency, Key(count, at))
  {
    if s != [] {
      TiedIsTies(s[..|s| - 1], count, at);
    }
  }

  /** What a caller gets: existing folders of the history, the more often shared one
      first and the more recent one among equals; a folder is left out only when the
      limit is reached, and then none that is shown ranks below it; folders of equal
      rank come in the order of the history, the foremost first. */
  ghost predicate IsTop(top: seq<Entry<string>>, h: seq<Entry<string>>, limit: int, isDir: string -> bool) {
    && (forall i, j :: 0 <= i < j < |top| ==>
          top[i].shareCount > top[j].shareCount
          || (top[i].shareCount == top[j].shareCount && top[i].lastSharedAt >= top[j].lastSharedAt))
    && |top| <= (if limit < 0 then 0 else limit)
    && (forall e :: multiset(top)[e] <= if isDir(e.id) then multiset(h)[e] else 0)
    && (forall e: Entry<string> :: isDir(e.id) && multiset(top)[e] < multiset(h)[e] ==>
          |top| >= limit && forall a :: a in top ==>
            a.shareCount > e.shareCount || (a.shareCount == e.shareCount && a.lastSharedAt >= e.lastSharedAt))
    && (forall count, at :: Tied(top, count, at) <= Tied(Existing(h, isDir), count, at))
  }

  /** Entries of a list without duplicates, as often as they occur there. */
  lemma TopIsDistinct(top: seq<Entry<string>>, h: seq<Entry<string>>)
    requires Distinct(h) && forall e :: multiset(top)[e] <= multiset(h)[e]
    ensures Distinct(top)
  {
    forall i, j | 0 <= i < j < |top|
      ensures top[i].id != top[j].id
    {
      TwoOfTop(top, h, i, j);
    }
  }

  lemma TwoOfTop(top: seq<Entry<string>>, h: seq<Entry<string>>, i: nat, j: nat)
    requires Distinct(h) && i < j < |top| && forall e :: multiset(top)[e] <= multiset(h)[e]
    ensures top[i].id != top[j].id
  {
    assert top[i] in multiset(top) && top[j] in multiset(top);
    var k := InList(h, top[i]);
    var l := InList(h, top[j]);
    if top[i] == top[j] {
      TwiceAt(top, i, j);
      OnceInDistinct(h, k);
    }
  }

  lemma InList(h: seq<Entry<string>>, e: Entry<string>) returns (k: nat)
    requires multiset(h)[e] > 0
    ensures k < |h| && h[k] == e
  {
    assert e in multiset(h);
    k :| 0 <= k < |h| && h[k] == e;
  }

  lemma TwiceAt(s: seq<Entry<string>>, i: nat, j: nat)
    requires i < j < |s| && s[i] == s[j]
    ensures multiset(s)[s[i]] >= 2
  {
    assert s == s[..i] + [s[i]] + s[i + 1..j] + [s[j]] + s[j + 1..];
  }

  lemma OnceInDistinct(h: seq<Entry<string>>, k: nat)
    requires k < |h| && Distinct(h)
    ensures multiset(h)[h[k]] == 1
  {
    assert h == h[..k] + [h[k]] + h[k + 1..];
  }

  lemma TakeKeepsTies(s: seq<Entry<string>>, n: nat, k: Key)
    requires n <= |s|
    ensures Ties(s[..n], ByFrequency, k) <= Ties(s, ByFrequency, k)
  {
    assert s == s[..n] + s[n..];
    TiesAppend(s[..n], s[n..], ByFrequency, k);
  }

  lemma RecommendedIsTop(h: seq<Entry<string>>, limit: int, isDir: string -> bool)
    ensures IsTop(Recommended(h, limit, isDir), h, limit, isDir)
  {
    var top := Recommended(h, limit, isDir);
    var omitted := RecommendsTop(h, limit, isDir);
    forall e: Entry<string>
      ensures multiset(top)[e] + multiset(omitted)[e] == if isDir(e.id) then multiset(h)[e] else 0
    {
      assert multiset(top + omitted)[e] == multiset(top)[e] + multiset(omitted)[e];
    }
    forall e: Entry<string> | isDir(e.id) && multiset(top)[e] < multiset(h)[e]
      ensures e in omitted
    {
      assert multiset(omitted)[e] > 0;
    }
    forall count, at
      ensures Tied(top, count, at) <= Tied(Existing(h, isDir), count, at)
    {
      RecommendedTies(h, limit, isDir, count, at);
    }
  }

  lemma RecommendedTies(h: seq<Entry<string>>, limit: int, isDir: string -> bool, count: int, at: real)
    ensures Tied(Recommended(h, limit, isDir), count, at) <= Tied(Existing(h, isDir), count, at)
  {
    var top := Recommended(h, limit, isDir);
    TiedIsTies(top, count, at);
    TiedIsTies(Existing(h, isDir), count, at);
    SortIsStable(Existing(h, isDir), ByFrequency, Key(count, at));
    TakeKeepsTies(Sort(Existing(h, isDir), ByFrequency), |top|, Key(count, at));
  }

  lemma SortedExisting(h: seq<Entry<string>>, isDir: string -> bool)
    ensures forall e :: multiset(Sort(Existing(h, isDir), ByFrequency))[e] == if isDir(e.id) then multiset(h)[e] else 0
  {
    SortPermutes(Existing(h, isDir), ByFrequency);
    forall e
      ensures multiset(Existing(h, isDir))[e] == if isDir(e.id) then multiset(h)[e] else 0
    {
      ExistingIff(h, isDir, e);
    }
  }

  lemma TopOverOmitted(sorted: seq<Entry<string>>, n: nat)
    requires n <= |sorted| && Descending(sorted, ByFrequency)
    ensures forall a, b :: a in sorted[..n] && b in sorted[n..] ==> !Below(ByFrequency(a), ByFrequency(b))
  {
    var r, omitted := sorted[..n], sorted[n..];
    forall a, b | a in r && b in omitted
      ensures !Below(ByFrequency(a), ByFrequency(b))
    {
      var i :| 0 <= i < |r| && r[i] == a;
      var j :| 0 <= j < |omitted| && omitted[j] == b;
      assert sorted[i] == a && sorted[n + j] == b;
    }
  }

  // ---------- the module's state and functions ----------

  class Histories {
    var folderShareHistory: seq<Entry<string>>
    var folderPairHistory: seq<Entry<seq<string>>>
    const resolve: string -> string  // str(Path(path).resolve())

    ghost var shares: seq<Share<string>>
    ghost var pairs: seq<Share<seq<string>>>

    ghost predicate Valid()
      reads this
    {
      && folderShareHistory == Bounded(shares, SHARE_CAP)
      && folderPairHistory == Bounded(pairs, PAIR_CAP)
    }

    constructor (resolve: string -> string)
      ensures Valid() && shares == [] && pairs == [] && this.resolve == resolve
    {
      folderShareHistory, folderPairHistory, shares, pairs := [], [], [], [];
      this.resolve := resolve;
    }

    /** `next((item for item in history if item[..] == id), None)` and the update or
        append that follows it */
    static method Touch<K(==)>(h: seq<Entry<K>>, id: K, at: real) returns (touched: seq<Entry<K>>)
      ensures touched == Touched(h, id, at)
    {
      var i := 0;
      while i < |h| && h[i].id != id
        invariant 0 <= i <= Find(h, id)
      {
        i := i + 1;
      }
      if i < |h| {
        touched := h[i := Entry(id, h[i].shareCount + 1, at)];
      } else {
        touched := h + [Entry(id, 1, at)];
      }
    }

    /** `record_folder_share` */
    method RecordFolderShare(path: string, at: real)
      requires Valid()
      modifies this`folderShareHistory, this`shares
      ensures Valid() && shares == old(shares) + [Share(resolve(path), at)]
      ensures InOrder(shares) ==> Shows(folderShareHistory, Unbounded(shares), 100)
      ensures |folderShareHistory| <= 100
    {
      var clean := resolve(path);
      folderShareHistory := Touch(folderShareHistory, clean, at);
      folderShareHistory := Sort(folderShareHistory, ByRecency);
      if |folderShareHistory| > SHARE_CAP {
        folderShareHistory := folderShareHistory[..SHARE_CAP];
      }
      shares := shares + [Share(clean, at)];
      assert shares[..|shares| - 1] == old(shares);
      BoundedWellFormed(shares, SHARE_CAP);
      if InOrder(shares) {
        BoundedShowsUnbounded(shares, SHARE_CAP);
      }
    }

    /** `record_folder_pair`: anything but two paths is ignored. */
    method RecordFolderPair(paths: seq<string>, at: real)
      requires Valid()
      modifies this`folderPairHistory, this`pairs
      ensures Valid()
      ensures pairs == if |paths| < 2 then old(pairs)
                       else old(pairs) + [Share([resolve(paths[0]), resolve(paths[1])], at)]
      ensures InOrder(pairs) ==> Shows(folderPairHistory, Unbounded(pairs), 50)
      ensures |folderPairHistory| <= 50
    {
      if |paths| >= 2 {
        var clean := [resolve(paths[0]), resolve(paths[1])];
        folderPairHistory := Touch(folderPairHistory, clean, at);
        folderPairHistory := Sort(folderPairHistory, ByRecency);
        if |folderPairHistory| > PAIR_CAP {
          folderPairHistory := folderPairHistory[..PAIR_CAP];
        }
        pairs := pairs + [Share(clean, at)];
        assert pairs[..|pairs| - 1] == old(pairs);
      }
      BoundedWellFormed(pairs, PAIR_CAP);
      if InOrder(pairs) {
        BoundedShowsUnbounded(pairs, PAIR_CAP);
      }
    }

    /** `recommended_folders` */
    method RecommendedFolders(limit: int, isDir: string -> bool) returns (top: seq<Entry<string>>)
      ensures IsTop(top, folderShareHistory, limit, isDir)
      ensures Valid() ==> forall i, j :: 0 <= i < j < |top| ==> top[i].id != top[j].id
    {
      var existing := Existing(folderShareHistory, isDir);
      existing := Sort(existing, ByFrequency);
      top := Take(existing, if limit < 0 then 0 else limit);
      RecommendedIsTop(folderShareHistory, limit, isDir);
      if Valid() {
        BoundedWellFormed(shares, SHARE_CAP);
        forall e: Entry<string>
          ensures multiset(top)[e] <= multiset(folderShareHistory)[e]
        {
        }
        TopIsDistinct(top, folderShareHistory);
      }
    }

    /** `clear_folder_share_history` */
    method Clear()
      modifies this
      ensures Valid() && shares == [] && pairs == []
      ensures folderShareHistory == [] && folderPairHistory == []
    {
      folderShareHistory, folderPairHistory, shares, pairs := [], [], [], [];
    }
  }
}
