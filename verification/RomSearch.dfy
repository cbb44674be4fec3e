/** The 1-Wire ROM search as mathematics: which id one search call yields, what it remembers,
    and what the calls of one enumeration yield together.  The driver itself is in OneWire.dfy.

    An id is the 64 bits in the order in which they travel on the wire: the least significant
    bit of byte 0 first. */
module RomSearch {
  import opened Options

  type Id = s: seq<bool> | |s| == 64 witness seq(64, _ => false)

  // ----- the order of the ids: 0 before 1, first differing bit decides -----

  ghost predicate FirstDifference(a: Id, b: Id, k: int) {
    0 <= k < 64 && (forall i :: 0 <= i < k ==> a[i] == b[i]) && a[k] != b[k]
  }

  ghost predicate Less(a: Id, b: Id) {
    exists k :: FirstDifference(a, b, k) && b[k]
  }

  lemma {:induction false} DifferenceFrom(a: Id, b: Id, i: nat, j: nat) returns (k: nat)
    requires i <= j < 64 && a[j] != b[j]
    requires forall h :: 0 <= h < i ==> a[h] == b[h]
    ensures FirstDifference(a, b, k)
    decreases j - i
  {
    if a[i] != b[i] {
      k := i;
    } else {
      k := DifferenceFrom(a, b, i + 1, j);
    }
  }

  lemma FindDifference(a: Id, b: Id) returns (k: nat)
    requires a != b
    ensures FirstDifference(a, b, k)
  {
    var j: nat :| j < 64 && a[j] != b[j];
    k := DifferenceFrom(a, b, 0, j);
  }

  lemma LessTotal(a: Id, b: Id)
    ensures a == b || Less(a, b) || Less(b, a)
  {
    if a != b {
      var k := FindDifference(a, b);
      assert FirstDifference(b, a, k);
    }
  }

  lemma LessAsymmetric(a: Id, b: Id)
    requires Less(a, b)
    ensures !Less(b, a) && a != b
  {
    var k :| FirstDifference(a, b, k) && b[k];
    assert forall j :: FirstDifference(b, a, j) ==> j == k;
  }

  lemma LessTransitive(a: Id, b: Id, c: Id)
    requires Less(a, b) && Less(b, c)
    ensures Less(a, c)
  {
    var k :| FirstDifference(a, b, k) && b[k];
    var j :| FirstDifference(b, c, j) && c[j];
    var m := if k < j then k else j;
    assert FirstDifference(a, c, m);
  }

  // ----- one search call -----

  /** Some device still taking part after the path p answers with bit b. */
  ghost predicate HasBranch(devices: set<Id>, p: seq<bool>, b: bool) {
    exists d :: d in devices && p + [b] <= d
  }

  /** Both read slots return 0: devices with either bit are still taking part. */
  ghost predicate Fork(devices: set<Id>, p: seq<bool>) {
    HasBranch(devices, p, false) && HasBranch(devices, p, true)
  }

  /** The direction the search takes after the path p (onewire.cpp:247-258). */
  ghost function Direction(devices: set<Id>, rom: Id, last: nat, p: seq<bool>): bool
    requires |p| < 64
  {
    if Fork(devices, p) then
      if |p| + 1 < last then rom[|p|] else |p| + 1 == last
    else
      HasBranch(devices, p, true)
  }

  /** The id reached from the path p when the previous call left `rom` and `last`. */
  ghost function Descend(devices: set<Id>, rom: Id, last: nat, p: seq<bool>): (r: Id)
    requires |p| <= 64
    ensures p <= r
    decreases 64 - |p|
  {
    if |p| == 64 then p
    else Descend(devices, rom, last, p + [Direction(devices, rom, last, p)])
  }

  /** 1 + the last position before n where `path` took 0 at a fork; 0 if there is none. */
  ghost function LastZero(devices: set<Id>, path: Id, n: nat): (z: nat)
    requires n <= 64
    ensures z <= n
    decreases n, path
  {
    if n == 0 then 0
    else if !path[n - 1] && Fork(devices, path[..n - 1]) then n
    else LastZero(devices, path, n - 1)
  }

  ghost predicate FamilyZero(id: Id) {
    forall i :: 0 <= i < 8 ==> !id[i]
  }

  /** What the driver remembers between calls. */
  datatype State = State(rom: Id, lastDiscrepancy: nat, lastDevice: bool)

  datatype Outcome = Outcome(state: State, found: bool)

  ghost function Search(devices: set<Id>, s: State): Outcome {
    if s.lastDevice || devices == {} then
      Outcome(State(s.rom, 0, false), false)
    else
      var r := Descend(devices, s.rom, s.lastDiscrepancy, []);
      var z := LastZero(devices, r, 64);
      if FamilyZero(r) then Outcome(State(r, 0, false), false)
      else Outcome(State(r, z, z == 0), true)
  }

  const ZERO_ID: Id := seq(64, _ => false)

  const RESET_STATE := State(ZERO_ID, 0, false)

  // ----- where a descent ends -----

  ghost predicate Alive(devices: set<Id>, p: seq<bool>) {
    exists d :: d in devices && p <= d
  }

  lemma AliveBranches(devices: set<Id>, p: seq<bool>)
    requires |p| < 64 && Alive(devices, p)
    ensures HasBranch(devices, p, false) || HasBranch(devices, p, true)
  {
    var d :| d in devices && p <= d;
    assert p + [d[|p|]] <= d;
    assert HasBranch(devices, p, d[|p|]);
  }

  lemma {:induction false} DescendFinds(devices: set<Id>, rom: Id, last: nat, p: seq<bool>)
    requires |p| <= 64 && Alive(devices, p)
    ensures Descend(devices, rom, last, p) in devices
    decreases 64 - |p|
  {
    if |p| == 64 {
      var d :| d in devices && p <= d;
      assert d == p;
    } else {
      AliveBranches(devices, p);
      DescendFinds(devices, rom, last, p + [Direction(devices, rom, last, p)]);
    }
  }

  /** The step the descent took at position n is the one Direction chose there. */
  lemma {:induction false} DescendStep(devices: set<Id>, rom: Id, last: nat, p: seq<bool>, n: nat)
    requires |p| <= n < 64
    ensures var r := Descend(devices, rom, last, p);
            r[n] == Direction(devices, rom, last, r[..n])
    decreases n - |p|
  {
    var b := Direction(devices, rom, last, p);
    var r := Descend(devices, rom, last, p);
    assert p + [b] <= r;
    if |p| == n {
      assert r[..n] == p;
    } else {
      DescendStep(devices, rom, last, p + [b], n);
    }
  }

  lemma PathBranches(devices: set<Id>, d: Id, n: nat)
    requires d in devices && n < 64
    ensures HasBranch(devices, d[..n], d[n])
  {
    assert d[..n] + [d[n]] <= d;
  }

  /** At a position where the two ids part, both branches are there. */
  lemma DifferenceForks(devices: set<Id>, a: Id, b: Id, k: nat)
    requires a in devices && b in devices && FirstDifference(a, b, k)
    ensures Fork(devices, a[..k])
  {
    PathBranches(devices, a, k);
    PathBranches(devices, b, k);
    assert a[..k] == b[..k];
  }

  /** From any path at or below the remembered discrepancy the descent takes 0 whenever it can,
      so it ends in the least device there. */
  lemma DescendIsLeast(devices: set<Id>, rom: Id, last: nat, p: seq<bool>, d: Id)
    requires last <= |p| <= 64
    requires d in devices && p <= d
    ensures var r := Descend(devices, rom, last, p); r == d || Less(r, d)
  {
    var r := Descend(devices, rom, last, p);
    DescendFinds(devices, rom, last, p);
    if r != d {
      var k := FindDifference(r, d);
      assert forall i :: 0 <= i < |p| ==> r[i] == p[i] == d[i];
      DifferenceForks(devices, r, d, k);
      DescendStep(devices, rom, last, p, k);
      assert d[k];
    }
  }

  // ----- LastDiscrepancy -----

  lemma {:induction false} LastZeroIsLast(devices: set<Id>, path: Id, n: nat, k: nat)
    requires k < n <= 64 && !path[k] && Fork(devices, path[..k])
    ensures k < LastZero(devices, path, n)
  {
    if n != k + 1 && !(!path[n - 1] && Fork(devices, path[..n - 1])) {
      LastZeroIsLast(devices, path, n - 1, k);
    }
  }

  lemma {:induction false} LastZeroIsFork(devices: set<Id>, path: Id, n: nat)
    requires n <= 64 && LastZero(devices, path, n) != 0
    ensures var k := LastZero(devices, path, n) - 1; !path[k] && Fork(devices, path[..k])
  {
    if !(!path[n - 1] && Fork(devices, path[..n - 1])) {
      LastZeroIsFork(devices, path, n - 1);
    }
  }

  /** The device found is the last one exactly when no discrepancy is remembered. */
  lemma NoDiscrepancyMeansGreatest(devices: set<Id>, cur: Id)
    requires cur in devices
    ensures LastZero(devices, cur, 64) == 0 <==> forall d :: d in devices ==> d == cur || Less(d, cur)
  {
    if LastZero(devices, cur, 64) == 0 {
      forall d | d in devices ensures d == cur || Less(d, cur) {
        LessTotal(d, cur);
        if Less(cur, d) {
          var k :| FirstDifference(cur, d, k) && d[k];
          DifferenceForks(devices, cur, d, k);
          LastZeroIsLast(devices, cur, 64, k);
        }
      }
    } else {
      var k := LastZero(devices, cur, 64) - 1;
      LastZeroIsFork(devices, cur, 64);
      var d :| d in devices && cur[..k] + [true] <= d;
      assert d[..k] == cur[..k] && d[k] == true;
      assert FirstDifference(cur, d, k);
      LessAsymmetric(cur, d);
    }
  }

  ghost predicate IsSuccessor(devices: set<Id>, cur: Id, next: Id) {
    && next in devices
    && Less(cur, next)
    && forall d :: d in devices && Less(cur, d) ==> d == next || Less(next, d)
  }

  lemma {:induction false} FollowsUntilDiscrepancy(devices: set<Id>, cur: Id, n: nat)
    requires cur in devices
    requires n < LastZero(devices, cur, 64)
    ensures Descend(devices, cur, LastZero(devices, cur, 64), [])[..n] == cur[..n]
  {
    if n > 0 {
      var last := LastZero(devices, cur, 64);
      var r := Descend(devices, cur, last, []);
      FollowsUntilDiscrepancy(devices, cur, n - 1);
      assert r[n - 1] == cur[n - 1] by {
        DescendStep(devices, cur, last, [], n - 1);
        PathBranches(devices, cur, n - 1);
      }
      assert r[..n] == r[..n - 1] + [r[n - 1]];
      assert cur[..n] == cur[..n - 1] + [cur[n - 1]];
    }
  }

  /** A descent from the start that passes through p ends where the descent from p ends. */
  lemma {:induction false} DescendThrough(devices: set<Id>, rom: Id, last: nat, p: seq<bool>, n: nat)
    requires |p| <= n <= 64
    ensures var r := Descend(devices, rom, last, p);
            r == Descend(devices, rom, last, r[..n])
    decreases n - |p|
  {
    var r := Descend(devices, rom, last, p);
    if |p| == n {
      assert r[..n] == p;
    } else {
      DescendThrough(devices, rom, last, p + [Direction(devices, rom, last, p)], n);
    }
  }

  lemma NothingBetween(devices: set<Id>, cur: Id, r: Id, d: Id)
    requires cur in devices && d in devices && Less(cur, d)
    requires var last := LastZero(devices, cur, 64);
             && last != 0
             && r[..last] == cur[..last - 1] + [true]
             && r == Descend(devices, cur, last, r[..last])
    ensures d == r || Less(r, d)
  {
    var last := LastZero(devices, cur, 64);
    var j: nat :| FirstDifference(cur, d, j) && d[j];
    assert j < last by {
      DifferenceForks(devices, cur, d, j);
      LastZeroIsLast(devices, cur, 64, j);
    }
    if j < last - 1 {
      PartsEarlier(cur, r, d, last - 1, j);
    } else {
      assert d[..last] == cur[..j] + [true];
      DescendIsLeast(devices, cur, last, r[..last], d);
    }
  }

  lemma PartsEarlier(cur: Id, r: Id, d: Id, k: nat, j: nat)
    requires j < k < 64 && r[..k + 1] == cur[..k] + [true]
    requires FirstDifference(cur, d, j) && d[j]
    ensures Less(r, d)
  {
    assert forall i :: 0 <= i < k ==> r[i] == r[..k + 1][i] == cur[i];
    assert FirstDifference(r, d, j);
  }

  /** The next descent parts from the current id at the discrepancy, to the 1 side. */
  lemma NextParts(devices: set<Id>, cur: Id)
    requires cur in devices && LastZero(devices, cur, 64) != 0
    ensures var last := LastZero(devices, cur, 64);
            var r := Descend(devices, cur, last, []);
            r in devices && r[..last] == cur[..last - 1] + [true] && !cur[last - 1]
  {
    var last := LastZero(devices, cur, 64);
    var r := Descend(devices, cur, last, []);
    assert [] <= cur;
    DescendFinds(devices, cur, last, []);
    FollowsUntilDiscrepancy(devices, cur, last - 1);
    LastZeroIsFork(devices, cur, 64);
    DescendStep(devices, cur, last, [], last - 1);
    assert r[..last] == r[..last - 1] + [r[last - 1]];
  }

  /** With the discrepancy of the current id remembered, the next descent yields its successor. */
  lemma NextIsSuccessor(devices: set<Id>, cur: Id)
    requires cur in devices && LastZero(devices, cur, 64) != 0
    ensures IsSuccessor(devices, cur, Descend(devices, cur, LastZero(devices, cur, 64), []))
  {
    var last := LastZero(devices, cur, 64);
    var r := Descend(devices, cur, last, []);
    NextParts(devices, cur);
    assert Less(cur, r) by {
      assert forall i :: 0 <= i < last ==> r[i] == r[..last][i];
      assert FirstDifference(cur, r, last - 1);
    }
    DescendThrough(devices, cur, last, [], last);
    forall d | d in devices && Less(cur, d) ensures d == r || Less(r, d) {
      NothingBetween(devices, cur, r, d);
    }
  }

  // ----- whole enumerations -----

  /** The state before call number n, counted from reset_search. */
  ghost function StateBefore(devices: set<Id>, s: State, n: nat): State {
    if n == 0 then s else Search(devices, StateBefore(devices, s, n - 1)).state
  }

  /** What call number n returns: the id written to newAddr, or None for FALSE. */
  ghost function Answer(devices: set<Id>, s: State, n: nat): Option<Id> {
    var o := Search(devices, StateBefore(devices, s, n));
    if o.found then Some(o.state.rom) else None
  }

  /** `ids` lists exactly the devices, each once, in increasing order. */
  ghost predicate Lists(ids: seq<Id>, devices: set<Id>) {
    && (forall i, j {:trigger Less(ids[i], ids[j])} :: 0 <= i < j < |ids| ==> Less(ids[i], ids[j]))
    && (forall d :: d in ids <==> d in devices)
  }

  lemma {:induction false} ListsCounts(ids: seq<Id>, devices: set<Id>)
    requires Lists(ids, devices)
    ensures |ids| == |devices|
  {
    if ids == [] {
      assert forall d :: d in devices ==> d in ids;
      assert devices == {};
    } else {
      var n := |ids| - 1;
      var rest := devices - {ids[n]};
      forall d | d in ids[..n] ensures d in rest {
        var i :| 0 <= i < n && ids[i] == d;
        LessAsymmetric(ids[i], ids[n]);
        assert d in ids;
      }
      forall d | d in rest ensures d in ids[..n] {
        assert d in ids;
      }
      ListsCounts(ids[..n], rest);
      assert ids[n] in devices;
    }
  }

  lemma {:induction false} GreatestExists(devices: set<Id>) returns (m: Id)
    requires devices != {}
    ensures m in devices && forall d :: d in devices ==> d == m || Less(d, m)
    decreases |devices|
  {
    var x :| x in devices;
    var rest := devices - {x};
    if rest == {} {
      m := x;
      forall d | d in devices ensures d == m {
        assert d != x ==> d in rest;
      }
    } else {
      var g := GreatestExists(rest);
      LessTotal(g, x);
      m := if Less(x, g) then g else x;
      forall d | d in devices ensures d == m || Less(d, m) {
        assert d != x ==> d in rest;
        if m == x && d != x && d != g {
          LessTransitive(d, g, x);
        }
      }
    }
  }

  lemma {:induction false} ListExists(devices: set<Id>) returns (ids: seq<Id>)
    ensures Lists(ids, devices)
    decreases |devices|
  {
    if devices == {} {
      ids := [];
    } else {
      var m := GreatestExists(devices);
      var init := ListExists(devices - {m});
      ids := init + [m];
      forall i, j | 0 <= i < j < |ids| ensures Less(ids[i], ids[j]) {
        if j == |init| {
          assert ids[i] in init;
        }
      }
      forall d ensures d in ids <==> d in devices {
        assert d in init <==> d in devices - {m};
      }
    }
  }

  lemma FirstOfList(devices: set<Id>, ids: seq<Id>, rom: Id)
    requires Lists(ids, devices) && ids != []
    ensures Descend(devices, rom, 0, []) == ids[0]
  {
    var r := Descend(devices, rom, 0, []);
    assert ids[0] in devices && [] <= ids[0];
    DescendFinds(devices, rom, 0, []);
    DescendIsLeast(devices, rom, 0, [], ids[0]);
    if r != ids[0] {
      assert r in ids;
      LessAsymmetric(r, ids[0]);
    }
  }

  lemma NextOfList(devices: set<Id>, ids: seq<Id>, k: nat)
    requires Lists(ids, devices) && k + 1 < |ids|
    ensures LastZero(devices, ids[k], 64) != 0
    ensures Descend(devices, ids[k], LastZero(devices, ids[k], 64), []) == ids[k + 1]
  {
    var cur, next := ids[k], ids[k + 1];
    assert cur in devices && next in devices && Less(cur, next);
    LessAsymmetric(cur, next);
    NoDiscrepancyMeansGreatest(devices, cur);
    var r := Descend(devices, cur, LastZero(devices, cur, 64), []);
    NextIsSuccessor(devices, cur);
    assert r in ids;
    var i :| 0 <= i < |ids| && ids[i] == r;
    if i < k + 1 {
      if i < k {
        LessAsymmetric(ids[i], cur);
      } else {
        LessAsymmetric(cur, r);
      }
    } else if i > k + 1 {
      LessAsymmetric(next, ids[i]);
    }
  }

  lemma LastOfList(devices: set<Id>, ids: seq<Id>)
    requires Lists(ids, devices) && ids != []
    ensures LastZero(devices, ids[|ids| - 1], 64) == 0
  {
    var m := ids[|ids| - 1];
    assert m in devices;
    forall d | d in devices ensures d == m || Less(d, m) {
      assert d in ids;
    }
    NoDiscrepancyMeansGreatest(devices, m);
  }

  /** What is remembered after call number n + 1 of an enumeration over `ids`. */
  ghost predicate Remembers(devices: set<Id>, ids: seq<Id>, s: State, k: nat)
  {
    || (k == 0 && s.lastDiscrepancy == 0 && !s.lastDevice)
    || (0 < k <= |ids| && s == State(ids[k - 1], LastZero(devices, ids[k - 1], 64), k == |ids|))
  }

  lemma SearchEnds(devices: set<Id>, ids: seq<Id>, s: State)
    requires Lists(ids, devices) && ids != [] && Remembers(devices, ids, s, |ids|)
    ensures var o := Search(devices, s); !o.found && Remembers(devices, ids, o.state, 0)
  {
    assert ids[0] in devices;
  }

  /** The descent of a call that has ids[k] still to come. */
  ghost predicate LeadsTo(devices: set<Id>, ids: seq<Id>, rom: Id, k: nat)
    requires k < |ids|
  {
    if k == 0 then Descend(devices, rom, 0, []) == ids[0]
    else Descend(devices, ids[k - 1], LastZero(devices, ids[k - 1], 64), []) == ids[k]
  }

  lemma ListLeads(devices: set<Id>, ids: seq<Id>, rom: Id, k: nat)
    requires Lists(ids, devices) && k < |ids|
    ensures LeadsTo(devices, ids, rom, k)
  {
    if k == 0 {
      FirstOfList(devices, ids, rom);
    } else {
      NextOfList(devices, ids, k - 1);
    }
  }

  lemma ListEndsAt(devices: set<Id>, ids: seq<Id>, k: nat)
    requires Lists(ids, devices) && k < |ids|
    ensures LastZero(devices, ids[k], 64) == 0 <==> k + 1 == |ids|
  {
    if k + 1 == |ids| {
      LastOfList(devices, ids);
    } else {
      NextOfList(devices, ids, k);
    }
  }

  lemma SearchFinds(devices: set<Id>, ids: seq<Id>, s: State, k: nat)
    requires k < |ids| && devices != {} && !FamilyZero(ids[k]) && Remembers(devices, ids, s, k)
    requires LeadsTo(devices, ids, s.rom, k)
    requires LastZero(devices, ids[k], 64) == 0 <==> k + 1 == |ids|
    ensures var o := Search(devices, s); o.found && o.state.rom == ids[k] && Remembers(devices, ids, o.state, k + 1)
  {
  }

  lemma SearchAdvances(devices: set<Id>, ids: seq<Id>, s: State, k: nat)
    requires Lists(ids, devices) && k <= |ids| && ids != []
    requires forall d :: d in devices ==> !FamilyZero(d)
    requires Remembers(devices, ids, s, k)
    ensures var o := Search(devices, s);
            if k < |ids| then o.found && o.state.rom == ids[k] && Remembers(devices, ids, o.state, k + 1)
            else !o.found && Remembers(devices, ids, o.state, 0)
  {
    if k == |ids| {
      SearchEnds(devices, ids, s);
    } else {
      assert ids[k] in devices;
      ListLeads(devices, ids, s.rom, k);
      ListEndsAt(devices, ids, k);
      SearchFinds(devices, ids, s, k);
    }
  }

  /** n modulo m, counted step by step. */
  ghost function Phase(n: nat, m: nat): (r: nat)
    requires m > 0
    ensures r < m
  {
    if n == 0 then 0
    else if Phase(n - 1, m) + 1 == m then 0 else Phase(n - 1, m) + 1
  }

  lemma {:induction false} PhaseQuotient(n: nat, m: nat) returns (q: nat)
    requires m > 0
    ensures n == m * q + Phase(n, m)
  {
    if n == 0 {
      q := 0;
    } else {
      q := PhaseQuotient(n - 1, m);
      if Phase(n, m) == 0 {
        assert m * (q + 1) == m * q + m;
        q := q + 1;
      }
    }
  }

  lemma PhaseIsRemainder(n: nat, m: nat)
    requires m > 0
    ensures Phase(n, m) == n % m
  {
    var q := PhaseQuotient(n, m);
    RemainderUnique(n, m, q, Phase(n, m));
  }

  lemma RemainderUnique(n: nat, m: nat, q: nat, r: nat)
    requires r < m && n == m * q + r
    ensures n % m == r
  {
    var d := n / m - q;
    assert m * d == m * (n / m) - m * q == r - n % m;
    ProductIsFar(m, d);
  }

  lemma ProductIsFar(m: nat, d: int)
    ensures d >= 1 ==> m * d >= m
    ensures d <= -1 ==> m * d <= -(m as int)
  {
    if d >= 1 {
      assert m * d == m * (d - 1) + m;
    } else if d <= -1 {
      assert m * d == m * (d + 1) - m;
    }
  }

  lemma {:induction false} RunRemembers(devices: set<Id>, ids: seq<Id>, s: State, n: nat)
    requires Lists(ids, devices) && ids != []
    requires forall d :: d in devices ==> !FamilyZero(d)
    requires Remembers(devices, ids, s, 0)
    ensures Remembers(devices, ids, StateBefore(devices, s, n), Phase(n, |ids| + 1))
  {
    if n > 0 {
      RunRemembers(devices, ids, s, n - 1);
      SearchAdvances(devices, ids, StateBefore(devices, s, n - 1), Phase(n - 1, |ids| + 1));
    }
  }

  ghost function Pick(ids: seq<Id>, k: nat): Option<Id> {
    if k < |ids| then Some(ids[k]) else None
  }

  lemma AnswerAtPhase(devices: set<Id>, ids: seq<Id>, s: State, n: nat, k: nat)
    requires Lists(ids, devices) && ids != [] && k <= |ids|
    requires forall d :: d in devices ==> !FamilyZero(d)
    requires Remembers(devices, ids, StateBefore(devices, s, n), k)
    ensures Answer(devices, s, n) == Pick(ids, k)
  {
    SearchAdvances(devices, ids, StateBefore(devices, s, n), k);
  }

  lemma AnswerFollowsList(devices: set<Id>, ids: seq<Id>, s: State, n: nat)
    requires Lists(ids, devices) && ids != []
    requires forall d :: d in devices ==> !FamilyZero(d)
    requires Remembers(devices, ids, s, 0)
    ensures Answer(devices, s, n) == ListAnswer(ids, n)
  {
    var k := Phase(n, |ids| + 1);
    assert k == n % (|ids| + 1) by {
      PhaseIsRemainder(n, |ids| + 1);
    }
    assert Remembers(devices, ids, StateBefore(devices, s, n), k) by {
      RunRemembers(devices, ids, s, n);
    }
    AnswerAtPhase(devices, ids, s, n, k);
  }

  /** A cyclic reading of a list: its elements in order, then one None, then again from the start. */
  ghost function ListAnswer(ids: seq<Id>, n: nat): Option<Id> {
    Pick(ids, n % (|ids| + 1))
  }

  lemma ListAnswerAt(ids: seq<Id>, k: nat)
    requires k < |ids|
    ensures ListAnswer(ids, k) == Some(ids[k])
  {
    RemainderUnique(k, |ids| + 1, 0, k);
  }

  /** The enumeration theorem.  From any reset state, whatever bits ROM_NO holds, the calls return
      the devices one after the other in increasing order, then FALSE once, and start over. */
  lemma EnumeratesExactly(devices: set<Id>, s: State) returns (ids: seq<Id>)
    requires devices != {} && forall d :: d in devices ==> !FamilyZero(d)
    requires s.lastDiscrepancy == 0 && !s.lastDevice
    ensures Lists(ids, devices) && |ids| == |devices|
    ensures forall n: nat :: Answer(devices, s, n) == ListAnswer(ids, n)
  {
    ids := ListExists(devices);
    ListsCounts(ids, devices);
    forall n: nat ensures Answer(devices, s, n) == ListAnswer(ids, n) {
      AnswerFollowsList(devices, ids, s, n);
    }
  }

  lemma ZeroFamilyIsLess(a: Id, b: Id)
    requires FamilyZero(a) && !FamilyZero(b)
    ensures Less(a, b)
  {
    var k := FindDifference(a, b);
  }

  lemma ZeroFamilyCall(devices: set<Id>, s: State)
    requires exists d :: d in devices && FamilyZero(d)
    requires s.lastDiscrepancy == 0 && !s.lastDevice
    ensures FamilyZero(Descend(devices, s.rom, 0, []))
  {
    var d :| d in devices && FamilyZero(d);
    var r := Descend(devices, s.rom, 0, []);
    assert [] <= d;
    DescendIsLeast(devices, s.rom, 0, [], d);
    if !FamilyZero(r) {
      ZeroFamilyIsLess(d, r);
      LessAsymmetric(d, r);
    }
  }

  /** One device with family byte 0 makes every call fail: it is the least id, the search finds it
      first, rejects it and forgets everything. */
  lemma {:induction false} ZeroFamilyBlocks(devices: set<Id>, s: State, n: nat)
    requires exists d :: d in devices && FamilyZero(d)
    requires s.lastDiscrepancy == 0 && !s.lastDevice
    ensures var t := StateBefore(devices, s, n); t.lastDiscrepancy == 0 && !t.lastDevice
    ensures Answer(devices, s, n) == None
  {
    if n > 0 {
      ZeroFamilyBlocks(devices, s, n - 1);
      ZeroFamilyCall(devices, StateBefore(devices, s, n - 1));
    }
    ZeroFamilyCall(devices, StateBefore(devices, s, n));
  }

  /** The nonzero family byte is exactly the condition under which the enumeration works. */
  lemma EnumeratesIffNoZeroFamily(devices: set<Id>, s: State)
    requires devices != {}
    requires s.lastDiscrepancy == 0 && !s.lastDevice
    ensures (forall d :: d in devices ==> exists n: nat :: Answer(devices, s, n) == Some(d))
       <==> (forall d :: d in devices ==> !FamilyZero(d))
  {
    if forall d :: d in devices ==> !FamilyZero(d) {
      var ids := EnumeratesExactly(devices, s);
      forall d | d in devices ensures exists n: nat :: Answer(devices, s, n) == Some(d) {
        assert d in ids;
        var k: nat :| k < |ids| && ids[k] == d;
        ListAnswerAt(ids, k);
        assert Answer(devices, s, k) == Some(d);
      }
    } else {
      var d :| d in devices;
      forall n: nat ensures Answer(devices, s, n) != Some(d) {
        ZeroFamilyBlocks(devices, s, n);
      }
    }
  }

  // ----- target_search -----

  /** The state target_search leaves for a family given by the first eight bits of `rom`. */
  function TargetState(family: seq<bool>): State
    requires |family| == 8
  {
    State(family + seq(56, _ => false), 64, false)
  }

  lemma {:induction false} FollowsFamily(devices: set<Id>, rom: Id, d: Id, n: nat)
    requires n <= 8 && d in devices && d[..8] == rom[..8]
    ensures Descend(devices, rom, 64, [])[..n] == rom[..n]
  {
    if n > 0 {
      var r := Descend(devices, rom, 64, []);
      FollowsFamily(devices, rom, d, n - 1);
      assert forall i :: 0 <= i < 8 ==> d[i] == d[..8][i] == rom[..8][i] == rom[i];
      assert d[..n - 1] == rom[..n - 1];
      assert r[n - 1] == rom[n - 1] by {
        DescendStep(devices, rom, 64, [], n - 1);
        PathBranches(devices, d, n - 1);
      }
      assert r[..n] == r[..n - 1] + [r[n - 1]];
      assert rom[..n] == rom[..n - 1] + [rom[n - 1]];
    }
  }

  /** The call after target_search yields a device of that family exactly when the bus has one
      and the family byte is not zero; and the call leaves the discrepancy of the id found, so
      the calls after it go on with that id's successor. */
  lemma TargetSearchFinds(devices: set<Id>, family: seq<bool>)
    requires |family| == 8
    ensures var o := Search(devices, TargetState(family));
            && (o.found && o.state.rom[..8] == family
                <==> (exists d :: d in devices && d[..8] == family) && (exists i :: 0 <= i < 8 && family[i]))
            && (o.found ==> o.state.rom in devices &&
                            o.state.lastDiscrepancy == LastZero(devices, o.state.rom, 64))
  {
    var s := TargetState(family);
    assert s.rom[..8] == family;
    if devices != {} {
      var e :| e in devices;
      assert [] <= e;
      var r := Descend(devices, s.rom, 64, []);
      DescendFinds(devices, s.rom, 64, []);
      assert forall i :: 0 <= i < 8 ==> r[i] == r[..8][i];
      if exists d :: d in devices && d[..8] == family {
        var d :| d in devices && d[..8] == family;
        FollowsFamily(devices, s.rom, d, 8);
        if exists i :: 0 <= i < 8 && family[i] {
          var i :| 0 <= i < 8 && family[i];
          assert r[i];
        }
      }
    }
  }
}
