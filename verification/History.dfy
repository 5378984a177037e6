/**
  * What happened to the items of a hive, told from the hashes each parsed snapshot shows: a specification of the
  * version history that does not mention how it is collected. `h[j]` maps the items of snapshot `j` to their hashes,
  * and `n[j]` is the sequence number of the log entry that produced it (0 for the original hive).
  */
module History {
  import opened Common

  /** An opaque content hash. */
  type Hash = nat

  type Snapshots = seq<map<ItemKey, Hash>>

  /** A superseded version: its hash, the entry that produced it, and the entry that replaced it. */
  datatype Version = Version(hash: Hash, sequenceNumber: nat, updatedBy: nat)

  predicate Live(h: Snapshots, k: ItemKey, j: int) {
    0 <= j < |h| && k in h[j]
  }

  predicate LiveWith(h: Snapshots, k: ItemKey, x: Hash, j: int) {
    Live(h, k, j) && h[j][k] == x
  }

  /** Snapshot `j` shows the item with another hash than snapshot `j - 1`. */
  predicate Changes(h: Snapshots, k: ItemKey, j: int) {
    Live(h, k, j - 1) && Live(h, k, j) && h[j - 1][k] != h[j][k]
  }

  /** The first snapshot of the unbroken stretch up to `j` in which the item keeps its hash. */
  function Since(h: Snapshots, k: ItemKey, j: nat): (i: nat)
    requires Live(h, k, j)
    ensures i <= j
    ensures forall m :: i <= m <= j ==> LiveWith(h, k, h[j][k], m)
    ensures 0 < i ==> !LiveWith(h, k, h[j][k], i - 1)
  {
    if j > 0 && LiveWith(h, k, h[j][k], j - 1) then Since(h, k, j - 1) else j
  }

  /** The snapshots, up to `j`, that change the item. */
  function ChangeTimes(h: Snapshots, k: ItemKey, j: nat): (ts: seq<nat>)
    requires j < |h|
    ensures forall t :: t in ts <==> t <= j && Changes(h, k, t)
    ensures forall a, b :: 0 <= a < b < |ts| ==> ts[a] < ts[b]
  {
    if j == 0 then []
    else
      var before := ChangeTimes(h, k, j - 1);
      assert forall t :: t in before + [j] <==> t in before || t == j;
      assert forall a :: 0 <= a < |before| ==> before[a] in before;
      if Changes(h, k, j) then before + [j] else before
  }

  /** The version that snapshot `t` replaced. */
  function Replaced(h: Snapshots, n: seq<nat>, k: ItemKey, t: nat): Version
    requires Changes(h, k, t) && |n| == |h|
  {
    Version(h[t - 1][k], n[Since(h, k, t - 1)], n[t])
  }

  /** All versions replaced up to snapshot `j`, oldest first. */
  function Versions(h: Snapshots, n: seq<nat>, k: ItemKey, j: nat): (vs: seq<Version>)
    requires j < |h| == |n|
    ensures |vs| == |ChangeTimes(h, k, j)|
  {
    if j == 0 then []
    else
      var before := Versions(h, n, k, j - 1);
      if Changes(h, k, j) then before + [Replaced(h, n, k, j)] else before
  }

  /** Version `a` is the one that the `a`-th change replaced. */
  lemma {:induction false} VersionAt(h: Snapshots, n: seq<nat>, k: ItemKey, j: nat, a: nat)
    requires j < |h| == |n|
    ensures a < |Versions(h, n, k, j)| ==>
              var t := ChangeTimes(h, k, j)[a];
              Changes(h, k, t) && Versions(h, n, k, j)[a] == Replaced(h, n, k, t)
  {
    hide Replaced;
    if j > 0 { VersionAt(h, n, k, j - 1, a); }
  }

  ghost predicate Increasing(n: seq<nat>) {
    forall a, b :: 0 <= a < b < |n| ==> n[a] < n[b]
  }

  /** If no snapshot in (t, u] changes the item, it keeps its hash over [t, u] when it is present throughout. */
  lemma {:induction false} NoChangeKeepsHash(h: Snapshots, k: ItemKey, t: nat, u: nat)
    requires t <= u < |h|
    requires Live(h, k, t) && Live(h, k, u) && forall m :: t <= m <= u ==> Live(h, k, m)
    requires forall m :: t < m <= u ==> !Changes(h, k, m)
    ensures h[u][k] == h[t][k]
    decreases u - t
  {
    if t < u {
      assert Live(h, k, u - 1) && !Changes(h, k, u);
      NoChangeKeepsHash(h, k, t, u - 1);
    }
  }

  /** Snapshot `t` changed the item and none in (t, u] did: at `u` it has its hash since `t` exactly when it was never
      absent in between; otherwise since later. */
  lemma SinceLastChange(h: Snapshots, k: ItemKey, t: nat, u: nat)
    requires t <= u && Changes(h, k, t) && Live(h, k, u)
    requires forall m :: t < m <= u ==> !Changes(h, k, m)
    ensures t <= Since(h, k, u)
    ensures Since(h, k, u) == t <==> forall m :: t <= m <= u ==> Live(h, k, m)
  {
    hide Since;
    var x := h[u][k];
    assert !(LiveWith(h, k, x, t - 1) && LiveWith(h, k, x, t));
    if forall m :: t <= m <= u ==> Live(h, k, m) {
      forall m | t <= m <= u
        ensures LiveWith(h, k, x, m)
      {
        NoChangeKeepsHash(h, k, t, u);
        NoChangeKeepsHash(h, k, t, m);
      }
    }
    forall m | Since(h, k, u) <= m <= u
      ensures Live(h, k, m)
    {
      assert LiveWith(h, k, x, m);
    }
  }

  /**
    * Recorded versions are intervals in order: each runs from its own entry to a later one, and ends where the next
    * one begins exactly when the item was never absent in between; otherwise it ends before.
    */
  lemma VersionsChain(h: Snapshots, n: seq<nat>, k: ItemKey, j: nat, a: nat)
    requires j < |h| == |n| && Increasing(n)
    requires a < |Versions(h, n, k, j)|
    ensures var vs, ts := Versions(h, n, k, j), ChangeTimes(h, k, j);
            && vs[a].sequenceNumber < vs[a].updatedBy
            && (a + 1 < |vs| ==>
                  && vs[a].updatedBy <= vs[a + 1].sequenceNumber
                  && (vs[a].updatedBy == vs[a + 1].sequenceNumber <==>
                        forall m :: ts[a] <= m < ts[a + 1] ==> Live(h, k, m)))
  {
    hide Versions, ChangeTimes, Since;
    var ts := ChangeTimes(h, k, j);
    var t := ts[a];
    VersionAt(h, n, k, j, a);
    assert Since(h, k, t - 1) < t;
    if a + 1 < |ts| {
      var u := ts[a + 1];
      VersionAt(h, n, k, j, a + 1);
      forall m | t < m <= u - 1
        ensures !Changes(h, k, m)
      {
        NoneBetween(ts, a, m);
      }
      SinceLastChange(h, k, t, u - 1);
    }
  }

  lemma NoneBetween(ts: seq<nat>, a: nat, m: nat)
    requires forall i, j :: 0 <= i < j < |ts| ==> ts[i] < ts[j]
    requires a + 1 < |ts| && ts[a] < m < ts[a + 1]
    ensures m !in ts
  {
    forall i | 0 <= i < |ts|
      ensures ts[i] != m
    {
      assert if i <= a then ts[i] <= ts[a] else ts[a + 1] <= ts[i];
    }
  }

  /** The live version continues the last recorded one exactly when the item was never absent since. */
  lemma LiveVersionContinues(h: Snapshots, n: seq<nat>, k: ItemKey, j: nat)
    requires j < |h| == |n| && Increasing(n) && Live(h, k, j)
    requires Versions(h, n, k, j) != []
    ensures var vs, ts := Versions(h, n, k, j), ChangeTimes(h, k, j);
            var last := |vs| - 1;
            && vs[last].updatedBy <= n[Since(h, k, j)]
            && (vs[last].updatedBy == n[Since(h, k, j)] <==> forall m :: ts[last] <= m <= j ==> Live(h, k, m))
  {
    hide Versions, ChangeTimes, Since;
    var ts := ChangeTimes(h, k, j);
    var t := ts[|ts| - 1];
    VersionAt(h, n, k, j, |ts| - 1);
    forall m | t < m <= j
      ensures !Changes(h, k, m)
    {
      assert forall i :: 0 <= i < |ts| ==> ts[i] <= t < m;
      assert m !in ts;
    }
    SinceLastChange(h, k, t, j);
  }

  // ----- Deletion -----

  /** Snapshot `j` dropped the item, which had hash `x` until then. */
  predicate Drops(h: Snapshots, k: ItemKey, x: Hash, j: int) {
    0 < j < |h| && LiveWith(h, k, x, j - 1) && !Live(h, k, j)
  }

  /** Some snapshot dropped the item with hash `x`, and it has not been live with that hash since. */
  ghost predicate DeletedSince(h: Snapshots, k: ItemKey, x: Hash) {
    exists j :: Drops(h, k, x, j) && forall m :: j <= m < |h| ==> !LiveWith(h, k, x, m)
  }

  /** How one more snapshot changes what is deleted. */
  lemma DeletedStep(h: Snapshots, s: map<ItemKey, Hash>, k: ItemKey, x: Hash)
    requires h != []
    ensures DeletedSince(h + [s], k, x) <==>
            && !(k in s && s[k] == x)
            && (DeletedSince(h, k, x) || (LiveWith(h, k, x, |h| - 1) && k !in s))
  {
    var g := h + [s];
    assert forall m :: 0 <= m < |h| ==> g[m] == h[m];
    assert LiveWith(g, k, x, |h|) <==> k in s && s[k] == x;
    if DeletedSince(g, k, x) {
      var j :| Drops(g, k, x, j) && forall m :: j <= m < |g| ==> !LiveWith(g, k, x, m);
      if j < |h| {
        assert Drops(h, k, x, j);
        assert forall m :: j <= m < |h| ==> (LiveWith(h, k, x, m) <==> LiveWith(g, k, x, m));
      }
    }
    if DeletedSince(h, k, x) && !(k in s && s[k] == x) {
      var j :| Drops(h, k, x, j) && forall m :: j <= m < |h| ==> !LiveWith(h, k, x, m);
      assert Drops(g, k, x, j);
      assert forall m :: j <= m < |h| ==> (LiveWith(h, k, x, m) <==> LiveWith(g, k, x, m));
    }
    if LiveWith(h, k, x, |h| - 1) && k !in s {
      assert Drops(g, k, x, |h|);
    }
  }

  /** Adding a snapshot leaves the past as it was. */
  lemma {:induction false} SinceIsKept(h: Snapshots, s: map<ItemKey, Hash>, k: ItemKey, j: nat)
    requires Live(h, k, j)
    ensures Live(h + [s], k, j) && Since(h + [s], k, j) == Since(h, k, j)
    decreases j
  {
    if j > 0 && Live(h, k, j - 1) { SinceIsKept(h, s, k, j - 1); }
  }

  lemma {:induction false} VersionsAreKept(h: Snapshots, n: seq<nat>, s: map<ItemKey, Hash>, number: nat, k: ItemKey, j: nat)
    requires j < |h| == |n|
    ensures Versions(h + [s], n + [number], k, j) == Versions(h, n, k, j)
    decreases j
  {
    hide Since, ChangeTimes;
    if j > 0 {
      VersionsAreKept(h, n, s, number, k, j - 1);
      if Changes(h, k, j) { SinceIsKept(h, s, k, j - 1); }
    }
  }

  /** What one more snapshot, from entry `number`, means for a live item... */
  lemma SinceStep(h: Snapshots, n: seq<nat>, s: map<ItemKey, Hash>, number: nat, k: ItemKey)
    requires 0 < |h| == |n| && k in s
    ensures var h', n', last := h + [s], n + [number], |h| - 1;
            && Live(h', k, |h|) && h'[|h|][k] == s[k]
            && n'[Since(h', k, |h|)] == if LiveWith(h, k, s[k], last) then n[Since(h, k, last)] else number
  {
    var h', last := h + [s], |h| - 1;
    assert h'[last] == h[last] && h'[|h|] == s;
    assert LiveWith(h', k, s[k], last) <==> LiveWith(h, k, s[k], last);
    if Live(h, k, last) { SinceIsKept(h, s, k, last); }
  }

  /** ... and for the versions on record. */
  lemma VersionsStep(h: Snapshots, n: seq<nat>, s: map<ItemKey, Hash>, number: nat, k: ItemKey)
    requires 0 < |h| == |n|
    ensures var last := |h| - 1;
            Versions(h + [s], n + [number], k, |h|) ==
            Versions(h, n, k, last) +
            if Live(h, k, last) && k in s && h[last][k] != s[k] then [Version(h[last][k], n[Since(h, k, last)], number)]
            else []
  {
    hide Since, ChangeTimes, Versions, Live, Changes;
    var h', n', last := h + [s], n + [number], |h| - 1;
    VersionsAreKept(h, n, s, number, k, last);
    VersionsAt(h', n', k, |h|);
    ChangesStep(h, s, k);
    if Live(h, k, last) { SinceIsKept(h, s, k, last); }
    var vs := Versions(h, n, k, last);
    assert vs + [] == vs;
  }

  lemma VersionsAt(h: Snapshots, n: seq<nat>, k: ItemKey, j: nat)
    requires 0 < j < |h| == |n|
    ensures Versions(h, n, k, j) == Versions(h, n, k, j - 1) + if Changes(h, k, j) then [Replaced(h, n, k, j)] else []
  {
    hide ChangeTimes, Replaced, Since;
  }

  lemma ChangesStep(h: Snapshots, s: map<ItemKey, Hash>, k: ItemKey)
    requires h != []
    ensures var last := |h| - 1;
            && (h + [s])[last] == h[last] && (h + [s])[|h|] == s
            && (Changes(h + [s], k, |h|) <==> Live(h, k, last) && k in s && h[last][k] != s[k])
  {
  }

  // ----- The versions of deleted items -----

  /** The version that snapshot `j` deleted: when it appeared, and when it went. */
  function Deleted(h: Snapshots, n: seq<nat>, k: ItemKey, j: nat): Version
    requires 0 < j < |h| == |n| && Live(h, k, j - 1)
  {
    Version(h[j - 1][k], n[Since(h, k, j - 1)], n[j])
  }

  /** Snapshot `j` is the last to drop the item with that hash, and it has not been live with that hash since. */
  ghost predicate IsLastDrop(h: Snapshots, k: ItemKey, x: Hash, j: nat) {
    Drops(h, k, x, j) && forall m: nat :: j <= m < |h| ==> !LiveWith(h, k, x, m)
  }

  /** The version that the last snapshot to drop the item with that hash deleted. */
  ghost predicate IsDeletedVersion(h: Snapshots, n: seq<nat>, k: ItemKey, v: Version)
    requires |h| == |n|
  {
    exists j: nat :: IsLastDrop(h, k, v.hash, j) && v == Deleted(h, n, k, j)
  }

  /** There is only one. */
  lemma LastDropIsUnique(h: Snapshots, k: ItemKey, x: Hash, i: nat, j: nat)
    requires IsLastDrop(h, k, x, i) && IsLastDrop(h, k, x, j)
    ensures i == j
  {
    assert LiveWith(h, k, x, i - 1) && LiveWith(h, k, x, j - 1);
  }

  /** A snapshot that does not show the item with that hash leaves the version as it was. */
  lemma DeletedVersionIsKept(h: Snapshots, n: seq<nat>, s: map<ItemKey, Hash>, number: nat, k: ItemKey, v: Version)
    requires |h| == |n| && IsDeletedVersion(h, n, k, v) && !(k in s && s[k] == v.hash)
    ensures IsDeletedVersion(h + [s], n + [number], k, v)
  {
    hide Since;
    var j: nat :| IsLastDrop(h, k, v.hash, j) && v == Deleted(h, n, k, j);
    LastDropIsKept(h, s, k, v.hash, j);
    SinceIsKept(h, s, k, j - 1);
    assert Deleted(h + [s], n + [number], k, j) == Deleted(h, n, k, j);
  }

  lemma LastDropIsKept(h: Snapshots, s: map<ItemKey, Hash>, k: ItemKey, x: Hash, j: nat)
    requires IsLastDrop(h, k, x, j) && !(k in s && s[k] == x)
    ensures IsLastDrop(h + [s], k, x, j)
  {
    var g := h + [s];
    assert Live(g, k, j) == Live(h, k, j) && LiveWith(g, k, x, j - 1);
    forall m: nat | j <= m < |g|
      ensures !LiveWith(g, k, x, m)
    {
      if m < |h| { assert !LiveWith(h, k, x, m) && g[m] == h[m]; } else { assert g[m] == s; }
    }
  }

  /** The version that the new snapshot deletes. */
  lemma DeletedVersionIsNew(h: Snapshots, n: seq<nat>, s: map<ItemKey, Hash>, number: nat, k: ItemKey)
    requires 0 < |h| == |n| && Live(h, k, |h| - 1) && k !in s
    ensures IsDeletedVersion(h + [s], n + [number], k, Version(h[|h| - 1][k], n[Since(h, k, |h| - 1)], number))
  {
    hide Since;
    var g, x := h + [s], h[|h| - 1][k];
    assert g[|h| - 1] == h[|h| - 1] && g[|h|] == s;
    SinceIsKept(h, s, k, |h| - 1);
    assert IsLastDrop(g, k, x, |h|);
    assert Deleted(g, n + [number], k, |h|) == Version(x, n[Since(h, k, |h| - 1)], number);
  }
}
