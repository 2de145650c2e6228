/** The resolution pass of `DHCPDLeases.load` (vmfusion/dhcpd_leases.py): a
    left fold over the records in file order into a map from MAC to record,
    keeping for each MAC the record with the latest `starts`, then projected
    down to IP addresses. */
module Resolver {
  import opened Results
  import opened Timestamp
  import opened Grammar

  /** `lease.hardware.mac` succeeds and equals `m`. */
  predicate HasMac(r: LeaseRecord, m: string) {
    r.hardware.Some? && r.hardware.value.mac == m
  }

  /** The `starts` date-time of a record that has one. */
  function StartOf(r: LeaseRecord): DateTime
    requires r.starts.Some?
  {
    r.starts.value.at
  }

  /** One iteration of the loop in `load`. A record without a hardware
      statement raises `AttributeError` at `lease.hardware.mac` and is skipped.
      The first record for a MAC is stored unconditionally (the `not in` test
      short-circuits); for a MAC already stored, reading a missing `starts` on
      either record raises `AttributeError` and the record is skipped;
      otherwise the record replaces the stored one only if it starts strictly
      later. */
  function Step(acc: map<string, LeaseRecord>, r: LeaseRecord): (s: map<string, LeaseRecord>)
    ensures r.hardware.None? ==> s == acc
    ensures r.hardware.Some? ==> s.Keys == acc.Keys + {r.hardware.value.mac}
    ensures forall m :: m in acc && !HasMac(r, m) ==> s[m] == acc[m]
    ensures forall m :: m in s ==> s[m] == r || (m in acc && s[m] == acc[m])
    // the replacement rule for a MAC already stored
    ensures r.hardware.Some? && r.hardware.value.mac !in acc ==> s[r.hardware.value.mac] == r
    ensures r.hardware.Some? && r.hardware.value.mac in acc && r.starts.None? ==> s == acc
    ensures r.hardware.Some? && r.hardware.value.mac in acc && acc[r.hardware.value.mac].starts.None? ==> s == acc
    ensures r.hardware.Some? && r.hardware.value.mac in acc && r.starts.Some? && acc[r.hardware.value.mac].starts.Some? ==>
      (s[r.hardware.value.mac] == r || s == acc) &&
      (Before(StartOf(acc[r.hardware.value.mac]), StartOf(r)) ==> s[r.hardware.value.mac] == r) &&
      (!Before(StartOf(acc[r.hardware.value.mac]), StartOf(r)) ==> s == acc)
  {
    match r.hardware
    case None => acc
    case Some(h) =>
      if h.mac !in acc then acc[h.mac := r]
      else if r.starts.Some? && acc[h.mac].starts.Some? && Before(StartOf(acc[h.mac]), StartOf(r)) then acc[h.mac := r]
      else acc
  }

  /** `all_leases` after the loop has seen the records `rs`, in order. */
  function Fold(rs: seq<LeaseRecord>): map<string, LeaseRecord>
    decreases |rs|
  {
    if |rs| == 0 then map[] else Step(Fold(rs[..|rs| - 1]), rs[|rs| - 1])
  }

  /** The second loop of `load`: each stored record replaced by its address. */
  function Project(acc: map<string, LeaseRecord>): (t: map<string, string>)
    ensures t.Keys == acc.Keys
    ensures forall m :: m in t ==> t[m] == acc[m].ip
  {
    map m | m in acc :: acc[m].ip
  }

  /** The table `load` publishes for the records `rs`. */
  function Resolve(rs: seq<LeaseRecord>): map<string, string> {
    Project(Fold(rs))
  }

  /** The MACs of all records that have a hardware statement. */
  function Macs(rs: seq<LeaseRecord>): set<string> {
    set i | 0 <= i < |rs| && rs[i].hardware.Some? :: rs[i].hardware.value.mac
  }

  // ---------------------------------------------------------------------------
  // Which MACs are published, and where their addresses come from

  lemma MacsSnoc(rs: seq<LeaseRecord>)
    requires |rs| > 0
    ensures var init := rs[..|rs| - 1]; var r := rs[|rs| - 1];
      Macs(rs) == Macs(init) + (if r.hardware.Some? then {r.hardware.value.mac} else {})
  {
    var init := rs[..|rs| - 1];
    forall m | m in Macs(rs) ensures m in Macs(init) || HasMac(rs[|rs| - 1], m) {
      var i :| 0 <= i < |rs| && rs[i].hardware.Some? && rs[i].hardware.value.mac == m;
      if i < |rs| - 1 {
        assert init[i] == rs[i];
      }
    }
    forall m | m in Macs(init) ensures m in Macs(rs) {
      var i :| 0 <= i < |init| && init[i].hardware.Some? && init[i].hardware.value.mac == m;
      assert rs[i] == init[i];
    }
  }

  /** The MACs in the map are exactly the MACs of the records that have a
      hardware statement, whether or not those records have `starts`. */
  lemma {:induction false} FoldKeys(rs: seq<LeaseRecord>)
    ensures Fold(rs).Keys == Macs(rs)
    decreases |rs|
  {
    if |rs| > 0 {
      FoldKeys(rs[..|rs| - 1]);
      MacsSnoc(rs);
    }
  }

  /** Every stored record is one of the records read, filed under its own MAC. */
  lemma {:induction false} FoldOrigin(rs: seq<LeaseRecord>, m: string)
    requires m in Fold(rs)
    ensures exists i :: 0 <= i < |rs| && HasMac(rs[i], m) && Fold(rs)[m] == rs[i]
    decreases |rs|
  {
    var init := rs[..|rs| - 1];
    var r := rs[|rs| - 1];
    if Fold(rs)[m] == r && HasMac(r, m) {
      assert HasMac(rs[|rs| - 1], m);
    } else {
      assert m in Fold(init) && Fold(rs)[m] == Fold(init)[m];
      FoldOrigin(init, m);
      var i :| 0 <= i < |init| && HasMac(init[i], m) && Fold(init)[m] == init[i];
      assert rs[i] == init[i];
    }
  }

  /** The published table: its keys are the MACs of the records with a
      hardware statement, and each address is that of a record with that MAC. */
  lemma ResolveSound(rs: seq<LeaseRecord>)
    ensures Resolve(rs).Keys == Macs(rs)
    ensures forall m :: m in Resolve(rs) ==>
      exists i :: 0 <= i < |rs| && HasMac(rs[i], m) && Resolve(rs)[m] == rs[i].ip
  {
    FoldKeys(rs);
    forall m | m in Resolve(rs)
      ensures exists i :: 0 <= i < |rs| && HasMac(rs[i], m) && Resolve(rs)[m] == rs[i].ip
    {
      FoldOrigin(rs, m);
    }
  }

  /** The table has one entry per distinct MAC. */
  lemma ResolveSize(rs: seq<LeaseRecord>)
    ensures |Resolve(rs)| == |Macs(rs)|
  {
    FoldKeys(rs);
    assert Resolve(rs).Keys == Macs(rs);
  }

  // ---------------------------------------------------------------------------
  // Which record survives for a MAC

  /** Position `i` holds the first record for `m`. */
  predicate IsFirst(rs: seq<LeaseRecord>, m: string, i: int) {
    0 <= i < |rs| && HasMac(rs[i], m) && forall j :: 0 <= j < i ==> !HasMac(rs[j], m)
  }

  lemma NotInMacs(rs: seq<LeaseRecord>, m: string)
    requires forall j :: 0 <= j < |rs| ==> !HasMac(rs[j], m)
    ensures m !in Macs(rs)
  {
  }

  /** The first record for a MAC is stored even when it has no `starts`, and
      from then on it is never replaced: every later record for that MAC
      fails the comparison with `AttributeError`. */
  lemma {:induction false} FirstWithoutStartsPinned(rs: seq<LeaseRecord>, m: string, i: int)
    requires IsFirst(rs, m, i) && rs[i].starts.None?
    ensures m in Fold(rs) && Fold(rs)[m] == rs[i]
    decreases |rs|
  {
    var init := rs[..|rs| - 1];
    if i == |rs| - 1 {
      assert forall j :: 0 <= j < |init| ==> init[j] == rs[j];
      NotInMacs(init, m);
      FoldKeys(init);
    } else {
      assert IsFirst(init, m, i) by {
        assert forall j :: 0 <= j < i ==> init[j] == rs[j];
      }
      FirstWithoutStartsPinned(init, m, i);
    }
  }

  /** The first record for `m` has a `starts` statement. */
  predicate FirstStarted(rs: seq<LeaseRecord>, m: string) {
    forall i :: 0 <= i < |rs| && IsFirst(rs, m, i) ==> rs[i].starts.Some?
  }

  /** Position `w` holds the record for `m` that wins on recency among the
      records for `m` that have `starts`: every earlier one starts strictly
      before it, and no later one starts after it. */
  predicate IsLatest(rs: seq<LeaseRecord>, m: string, w: int) {
    && 0 <= w < |rs| && HasMac(rs[w], m) && rs[w].starts.Some?
    && (forall j :: 0 <= j < w && HasMac(rs[j], m) && rs[j].starts.Some? ==>
          Before(StartOf(rs[j]), StartOf(rs[w])))
    && (forall j :: w < j < |rs| && HasMac(rs[j], m) && rs[j].starts.Some? ==>
          !Before(StartOf(rs[w]), StartOf(rs[j])))
  }

  /** There is at most one winning position: on equal `starts` the earliest
      record is the winner. */
  lemma LatestUnique(rs: seq<LeaseRecord>, m: string, w1: int, w2: int)
    requires IsLatest(rs, m, w1) && IsLatest(rs, m, w2)
    ensures w1 == w2
  {
  }

  /** A new last record that is not a started record for `m` keeps the winner. */
  lemma LatestExtendOther(rs: seq<LeaseRecord>, m: string, w: int)
    requires |rs| > 0 && !(HasMac(rs[|rs| - 1], m) && rs[|rs| - 1].starts.Some?)
    requires IsLatest(rs[..|rs| - 1], m, w)
    ensures IsLatest(rs, m, w)
  {
    var init := rs[..|rs| - 1];
    assert forall j :: 0 <= j < |init| ==> init[j] == rs[j];
  }

  /** A new last started record for `m` that does not start later keeps the winner. */
  lemma LatestExtendKeep(rs: seq<LeaseRecord>, m: string, w: int)
    requires |rs| > 0 && HasMac(rs[|rs| - 1], m) && rs[|rs| - 1].starts.Some?
    requires IsLatest(rs[..|rs| - 1], m, w)
    requires !Before(StartOf(rs[w]), StartOf(rs[|rs| - 1]))
    ensures IsLatest(rs, m, w)
  {
    var init := rs[..|rs| - 1];
    assert forall j :: 0 <= j < |init| ==> init[j] == rs[j];
  }

  /** A new last record for `m` that starts strictly after the winner becomes the winner. */
  lemma LatestExtendReplace(rs: seq<LeaseRecord>, m: string, w: int)
    requires |rs| > 0 && HasMac(rs[|rs| - 1], m) && rs[|rs| - 1].starts.Some?
    requires IsLatest(rs[..|rs| - 1], m, w)
    requires Before(StartOf(rs[w]), StartOf(rs[|rs| - 1]))
    ensures IsLatest(rs, m, |rs| - 1)
  {
    var init := rs[..|rs| - 1];
    var n := |rs| - 1;
    assert forall j :: 0 <= j < |init| ==> init[j] == rs[j];
    forall j | 0 <= j < n && HasMac(rs[j], m) && rs[j].starts.Some?
      ensures Before(StartOf(rs[j]), StartOf(rs[n]))
    {
      if j < w {
        BeforeTransitive(StartOf(rs[j]), StartOf(rs[w]), StartOf(rs[n]));
      } else if j > w {
        BeforeTotal(StartOf(rs[j]), StartOf(rs[w]));
        if StartOf(rs[j]) != StartOf(rs[w]) {
          BeforeTransitive(StartOf(rs[j]), StartOf(rs[w]), StartOf(rs[n]));
        }
      }
    }
  }

  /** A new last record is the first for `m` and has `starts`: it is the winner. */
  lemma LatestExtendFirst(rs: seq<LeaseRecord>, m: string)
    requires |rs| > 0 && HasMac(rs[|rs| - 1], m) && rs[|rs| - 1].starts.Some?
    requires m !in Macs(rs[..|rs| - 1])
    ensures IsLatest(rs, m, |rs| - 1)
  {
    var init := rs[..|rs| - 1];
    forall j | 0 <= j < |init| ensures !HasMac(rs[j], m) {
      assert init[j] == rs[j];
      assert init[j].hardware.Some? ==> init[j].hardware.value.mac in Macs(init);
    }
  }

  /** The record stored for `m` in the prefix is the winner of the prefix. */
  lemma StoredIsLatest(rs: seq<LeaseRecord>, m: string, w: int)
    requires |rs| > 0 && m in Fold(rs[..|rs| - 1]) && IsLatest(rs[..|rs| - 1], m, w)
    requires Fold(rs[..|rs| - 1])[m] == rs[..|rs| - 1][w]
    ensures m in Fold(rs)
    ensures exists v :: IsLatest(rs, m, v) && Fold(rs)[m] == rs[v]
  {
    var init := rs[..|rs| - 1];
    var n := |rs| - 1;
    var last := rs[n];
    assert init[w] == rs[w];
    if !(HasMac(last, m) && last.starts.Some?) {
      LatestExtendOther(rs, m, w);
      assert Fold(rs)[m] == rs[w];
    } else if Before(StartOf(rs[w]), StartOf(last)) {
      LatestExtendReplace(rs, m, w);
      assert Fold(rs)[m] == rs[n];
    } else {
      LatestExtendKeep(rs, m, w);
      assert Fold(rs)[m] == rs[w];
    }
  }

  /** When the first record for a MAC has `starts`, the surviving record is
      the one with the latest `starts` among the records for that MAC that
      have one, the earliest of them on a tie; records for it without
      `starts` are skipped. */
  lemma {:induction false} LatestWins(rs: seq<LeaseRecord>, m: string)
    requires m in Macs(rs) && FirstStarted(rs, m)
    ensures m in Fold(rs)
    ensures exists w :: IsLatest(rs, m, w) && Fold(rs)[m] == rs[w]
    decreases |rs|
  {
    FoldKeys(rs);
    var init := rs[..|rs| - 1];
    var n := |rs| - 1;
    MacsSnoc(rs);
    FoldKeys(init);
    if m !in Macs(init) {
      assert IsFirst(rs, m, n) by {
        forall j | 0 <= j < n ensures !HasMac(rs[j], m) {
          assert init[j] == rs[j];
          assert init[j].hardware.Some? ==> init[j].hardware.value.mac in Macs(init);
        }
      }
      LatestExtendFirst(rs, m);
      assert Fold(rs)[m] == rs[n];
    } else {
      assert FirstStarted(init, m) by {
        forall i | 0 <= i < |init| && IsFirst(init, m, i) ensures init[i].starts.Some? {
          assert forall j :: 0 <= j <= i ==> init[j] == rs[j];
          assert IsFirst(rs, m, i);
        }
      }
      LatestWins(init, m);
      var w :| IsLatest(init, m, w) && Fold(init)[m] == init[w];
      StoredIsLatest(rs, m, w);
    }
  }

  /** The record that survives for a MAC, in both cases: the first record for
      it when that one lacks `starts`, and otherwise the latest started one. */
  lemma Survivor(rs: seq<LeaseRecord>, m: string, i: int)
    requires IsFirst(rs, m, i)
    ensures m in Fold(rs)
    ensures rs[i].starts.None? ==> Fold(rs)[m] == rs[i]
    ensures rs[i].starts.Some? ==> exists w :: IsLatest(rs, m, w) && Fold(rs)[m] == rs[w]
  {
    if rs[i].starts.None? {
      FirstWithoutStartsPinned(rs, m, i);
    } else {
      assert m in Macs(rs);
      assert FirstStarted(rs, m) by {
        forall k | 0 <= k < |rs| && IsFirst(rs, m, k) ensures rs[k].starts.Some? {
          assert k == i;
        }
      }
      LatestWins(rs, m);
    }
  }

  /** When the first record for a MAC has `starts`, the published address is
      that of the winning record. */
  lemma LatestAddressPublished(rs: seq<LeaseRecord>, m: string, w: int)
    requires IsLatest(rs, m, w) && FirstStarted(rs, m)
    ensures m in Resolve(rs) && Resolve(rs)[m] == rs[w].ip
  {
    assert rs[w].hardware.Some? && rs[w].hardware.value.mac == m;
    assert m in Macs(rs);
    LatestWins(rs, m);
    var w' :| IsLatest(rs, m, w') && Fold(rs)[m] == rs[w'];
    LatestUnique(rs, m, w, w');
  }

  // ---------------------------------------------------------------------------
  // What the resolution ignores

  /** The records that have a hardware statement, in order. */
  function WithHardware(rs: seq<LeaseRecord>): (hs: seq<LeaseRecord>)
    ensures |hs| <= |rs|
    ensures forall i :: 0 <= i < |hs| ==> hs[i].hardware.Some?
    decreases |rs|
  {
    if |rs| == 0 then []
    else WithHardware(rs[..|rs| - 1]) + (if rs[|rs| - 1].hardware.Some? then [rs[|rs| - 1]] else [])
  }

  /** Records without a hardware statement make no difference to the table. */
  lemma {:induction false} HardwareFreeIgnored(rs: seq<LeaseRecord>)
    ensures Fold(WithHardware(rs)) == Fold(rs)
    decreases |rs|
  {
    if |rs| > 0 {
      var init := rs[..|rs| - 1];
      var last := rs[|rs| - 1];
      HardwareFreeIgnored(init);
      if last.hardware.Some? {
        var hs := WithHardware(init) + [last];
        assert WithHardware(rs) == hs;
        assert hs[..|hs| - 1] == WithHardware(init) && hs[|hs| - 1] == last;
        assert Fold(hs) == Step(Fold(WithHardware(init)), last);
      } else {
        assert WithHardware(rs) == WithHardware(init) + [] == WithHardware(init);
      }
    }
  }

  /** The parts of a record the resolution reads: the address, the MAC and the `starts` date-time. */
  function Core(r: LeaseRecord): (string, Option<string>, Option<DateTime>) {
    (r.ip,
     if r.hardware.Some? then Some(r.hardware.value.mac) else None,
     if r.starts.Some? then Some(r.starts.value.at) else None)
  }

  /** Two record sequences that agree position by position on their cores. */
  predicate SameCores(rs: seq<LeaseRecord>, qs: seq<LeaseRecord>) {
    |rs| == |qs| && forall i :: 0 <= i < |rs| ==> Core(rs[i]) == Core(qs[i])
  }

  /** Two accumulated maps with the same keys whose entries agree on their cores. */
  predicate SameCoreMaps(a: map<string, LeaseRecord>, b: map<string, LeaseRecord>) {
    a.Keys == b.Keys && forall m :: m in a ==> Core(a[m]) == Core(b[m])
  }

  lemma StepSeesOnlyCore(a: map<string, LeaseRecord>, b: map<string, LeaseRecord>, r: LeaseRecord, q: LeaseRecord)
    requires SameCoreMaps(a, b) && Core(r) == Core(q)
    ensures SameCoreMaps(Step(a, r), Step(b, q))
  {
    if r.hardware.Some? {
      var m := r.hardware.value.mac;
      assert q.hardware.Some? && q.hardware.value.mac == m;
      if m in a {
        assert Core(a[m]) == Core(b[m]);
      }
    }
  }

  lemma {:induction false} FoldSeesOnlyCore(rs: seq<LeaseRecord>, qs: seq<LeaseRecord>)
    requires SameCores(rs, qs)
    ensures SameCoreMaps(Fold(rs), Fold(qs))
    decreases |rs|
  {
    if |rs| > 0 {
      var n := |rs| - 1;
      assert SameCores(rs[..n], qs[..n]) by {
        assert forall i :: 0 <= i < n ==> rs[..n][i] == rs[i] && qs[..n][i] == qs[i];
      }
      FoldSeesOnlyCore(rs[..n], qs[..n]);
      StepSeesOnlyCore(Fold(rs[..n]), Fold(qs[..n]), rs[n], qs[n]);
    }
  }

  /** The table depends only on each record's address, MAC and `starts`:
      `ends`, `uid`, `binding`, the weekday digits and the rest are never read. */
  lemma ResolveSeesOnlyCore(rs: seq<LeaseRecord>, qs: seq<LeaseRecord>)
    requires SameCores(rs, qs)
    ensures Resolve(rs) == Resolve(qs)
  {
    FoldSeesOnlyCore(rs, qs);
  }

  // ---------------------------------------------------------------------------
  // The loop as written

  /** The first loop of `load`: records folded into `all_leases`. */
  method FoldLoop(rs: seq<LeaseRecord>) returns (all: map<string, LeaseRecord>)
    ensures all == Fold(rs)
  {
    all := map[];
    var i := 0;
    while i < |rs|
      invariant 0 <= i <= |rs|
      invariant all == Fold(rs[..i])
    {
      assert rs[..i + 1][..i] == rs[..i];
      var r := rs[i];
      if r.hardware.Some? {
        var mac := r.hardware.value.mac;
        if mac !in all {
          all := all[mac := r];
        } else if r.starts.Some? && all[mac].starts.Some? && Before(all[mac].starts.value.at, r.starts.value.at) {
          all := all[mac := r];
        }
      }
      i := i + 1;
    }
    assert rs[..|rs|] == rs;
  }

  /** The second loop of `load`: each stored record replaced by its address. */
  method ProjectLoop(all: map<string, LeaseRecord>) returns (table: map<string, string>)
    ensures table.Keys == all.Keys
    ensures forall m :: m in table ==> table[m] == all[m].ip
  {
    table := map[];
    var pending := all.Keys;
    while pending != {}
      invariant pending <= all.Keys
      invariant table.Keys == all.Keys - pending
      invariant forall m :: m in table ==> table[m] == all[m].ip
      decreases pending
    {
      var m :| m in pending;
      table := table[m := all[m].ip];
      pending := pending - {m};
    }
  }

  /** The two loops of `load` together. */
  method ResolveLoop(rs: seq<LeaseRecord>) returns (table: map<string, string>)
    ensures table.Keys == Macs(rs)
    ensures forall m :: m in table ==>
      exists i :: 0 <= i < |rs| && HasMac(rs[i], m) && table[m] == rs[i].ip
    ensures table == Resolve(rs)
  {
    var all := FoldLoop(rs);
    table := ProjectLoop(all);
    ResolveSound(rs);
  }
}
