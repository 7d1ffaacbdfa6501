/** The bitemporal recall state of the memory records: one row per bump, closed by the next one. */
module MemoryState {
  import opened Common

  /** A row of the state table; `hi` is None while the row is open. */
  datatype StateRow = StateRow(record: nat, salience: real, recallCount: int, lo: int, hi: Option<int>)

  /** One committed bump. */
  datatype Bump = Bump(record: nat, delta: real, when: int)

  // ---- The table as a function of its history ----

  function Count(h: seq<Bump>, r: nat): nat {
    if h == [] then 0 else Count(h[..|h| - 1], r) + if h[|h| - 1].record == r then 1 else 0
  }

  function Sum(h: seq<Bump>, r: nat): real {
    if h == [] then 0.0 else Sum(h[..|h| - 1], r) + if h[|h| - 1].record == r then h[|h| - 1].delta else 0.0
  }

  /** When r is bumped next, from position i on. */
  function NextBump(h: seq<Bump>, r: nat, i: nat): Option<int>
    decreases |h| - i
  {
    if i >= |h| then None
    else if h[i].record == r then Some(h[i].when)
    else NextBump(h, r, i + 1)
  }

  function Version(h: seq<Bump>, i: nat): StateRow
    requires i < |h|
  {
    var r := h[i].record;
    StateRow(r, Sum(h[..i + 1], r), Count(h[..i + 1], r), h[i].when, NextBump(h, r, i + 1))
  }

  function Table(h: seq<Bump>): (rows: seq<StateRow>)
    ensures |rows| == |h| && forall i :: 0 <= i < |h| ==> rows[i] == Version(h, i)
  {
    seq(|h|, i requires 0 <= i < |h| => Version(h, i))
  }

  /** Bumps of one record are strictly later than the earlier ones. */
  predicate WellTimed(h: seq<Bump>) {
    forall i, j :: 0 <= i < j < |h| && h[i].record == h[j].record ==> h[i].when < h[j].when
  }

  predicate IsLast(h: seq<Bump>, r: nat, i: nat) {
    i < |h| && h[i].record == r && forall j :: i < j < |h| ==> h[j].record != r
  }

  lemma {:induction false} NextBumpNone(h: seq<Bump>, r: nat, i: nat)
    ensures NextBump(h, r, i).None? <==> forall j :: i <= j < |h| ==> h[j].record != r
    decreases |h| - i
  {
    if i < |h| && h[i].record != r { NextBumpNone(h, r, i + 1); }
  }

  lemma {:induction false} NextBumpMore(h: seq<Bump>, b: Bump, r: nat, i: nat)
    requires i <= |h|
    ensures NextBump(h + [b], r, i)
         == if NextBump(h, r, i).Some? then NextBump(h, r, i) else if b.record == r then Some(b.when) else None
    decreases |h| - i
  {
    if i < |h| && h[i].record != r { NextBumpMore(h, b, r, i + 1); }
  }

  lemma CountMore(h: seq<Bump>, b: Bump, r: nat)
    ensures Count(h + [b], r) == Count(h, r) + if b.record == r then 1 else 0
    ensures Sum(h + [b], r) == Sum(h, r) + if b.record == r then b.delta else 0.0
  {
    assert (h + [b])[..|h|] == h;
  }

  /** Nothing of r after n: its count and sum are those of the first n bumps. */
  lemma {:induction false} CountUpTo(h: seq<Bump>, r: nat, n: nat)
    requires n <= |h| && forall j :: n <= j < |h| ==> h[j].record != r
    ensures Count(h, r) == Count(h[..n], r) && Sum(h, r) == Sum(h[..n], r)
    decreases |h|
  {
    if n == |h| {
      assert h[..n] == h;
    } else {
      var m := |h| - 1;
      assert h[..m][..n] == h[..n];
      CountUpTo(h[..m], r, n);
    }
  }

  /** The old rows of the table after one more bump: only the open row of its record changes. */
  lemma VersionMore(h: seq<Bump>, b: Bump, i: nat)
    requires i < |h|
    ensures Version(h + [b], i)
         == if Version(h, i).hi.None? && h[i].record == b.record then Version(h, i).(hi := Some(b.when))
            else Version(h, i)
  {
    NextBumpMore(h, b, h[i].record, i + 1);
    assert (h + [b])[..i + 1] == h[..i + 1];
  }

  /** Appending a bump to a table whose open row of the record, if any, is at p. */
  lemma TableMore(h: seq<Bump>, b: Bump, p: Option<nat>)
    requires match p
             case None => forall j :: 0 <= j < |h| ==> h[j].record != b.record
             case Some(i) => IsLast(h, b.record, i)
    ensures Table(h + [b])
         == (match p case None => Table(h) case Some(i) => Table(h)[i := Table(h)[i].(hi := Some(b.when))])
            + [match p
               case None => StateRow(b.record, b.delta, 1, b.when, None)
               case Some(i) =>
                 StateRow(b.record, Table(h)[i].salience + b.delta, Table(h)[i].recallCount + 1, b.when, None)]
  {
    hide Sum; hide Count; hide NextBump; hide Version;
    var before := Table(h);
    forall i | 0 <= i < |h|
      ensures Version(h + [b], i) == if p == Some(i) then before[i].(hi := Some(b.when)) else before[i]
    {
      VersionMore(h, b, i);
      OpenVersion(h, i);
      if p.Some? && h[i].record == b.record { assert i <= p.value; }
    }
    LastVersion(h, b, p);
  }

  lemma OpenVersion(h: seq<Bump>, i: nat)
    requires i < |h|
    ensures Version(h, i).hi.None? <==> IsLast(h, h[i].record, i)
  {
    NextBumpNone(h, h[i].record, i + 1);
  }

  lemma LastVersion(h: seq<Bump>, b: Bump, p: Option<nat>)
    requires match p
             case None => forall j :: 0 <= j < |h| ==> h[j].record != b.record
             case Some(i) => IsLast(h, b.record, i)
    ensures Version(h + [b], |h|)
         == match p
            case None => StateRow(b.record, b.delta, 1, b.when, None)
            case Some(i) =>
              StateRow(b.record, Version(h, i).salience + b.delta, Version(h, i).recallCount + 1, b.when, None)
  {
    assert (h + [b])[..|h| + 1] == h + [b];
    CountMore(h, b, b.record);
    var n := match p case None => 0 case Some(i) => i + 1;
    CountUpTo(h, b.record, n);
    assert h[..0] == [];
  }

  // ---- The table ----

  class StateTable {
    var rows: seq<StateRow>
    ghost var bumps: seq<Bump>

    /** The table is what its committed bumps make it. */
    ghost predicate Valid()
      reads this
    {
      WellTimed(bumps) && rows == Table(bumps)
    }

    constructor ()
      ensures Valid() && bumps == []
    {
      rows, bumps := [], [];
    }

    /** The open row of a record; the query fails on more than one, which Valid rules out. */
    method FindOpen(record: nat) returns (p: Option<nat>)
      requires Valid()
      ensures match p
              case None => forall j :: 0 <= j < |bumps| ==> bumps[j].record != record
              case Some(i) => IsLast(bumps, record, i)
    {
      hide Table;
      p := None;
      for i := 0 to |rows|
        invariant p.None? ==> forall j :: 0 <= j < i ==> rows[j].record == record ==> rows[j].hi.Some?
        invariant p.Some? ==> IsLast(bumps, record, p.value)
      {
        OpenVersion(bumps, i);
        if rows[i].record == record && rows[i].hi.None? {
          p := Some(i);
        }
      }
      if p.None? { AllClosed(bumps, record); }
    }

    /**
      One transaction: close the open version at `now`, insert the next. A range
      that would end before or at its start violates the table's constraint, and
      the transaction changes nothing.
     */
    method BumpState(record: nat, delta: real, now: int) returns (committed: bool)
      requires Valid()
      modifies this
      ensures Valid()
      ensures committed <==> forall i :: 0 <= i < |old(bumps)| && old(bumps)[i].record == record ==>
          old(bumps)[i].when < now
      ensures bumps == if committed then old(bumps) + [Bump(record, delta, now)] else old(bumps)
      ensures !committed ==> rows == old(rows)
    {
      hide Table;
      var prior := FindOpen(record);
      var salience, recallCount := 0.0, 0;
      var updated := rows;
      if prior.Some? {
        var p := prior.value;
        LastIsLatest(bumps, record, p);
        if now <= rows[p].lo {
          return false;
        }
        salience := rows[p].salience;
        recallCount := rows[p].recallCount;
        updated := updated[p := updated[p].(hi := Some(now))];
      }
      salience := salience + delta;
      recallCount := recallCount + 1;
      TableMore(bumps, Bump(record, delta, now), prior);
      rows := updated + [StateRow(record, salience, recallCount, now, None)];
      bumps := bumps + [Bump(record, delta, now)];
      committed := true;
    }
  }

  lemma LastIsLatest(h: seq<Bump>, r: nat, p: nat)
    requires WellTimed(h) && IsLast(h, r, p)
    ensures forall i :: 0 <= i < |h| && h[i].record == r ==> h[i].when <= h[p].when
  {
  }

  lemma {:induction false} SomeOpen(h: seq<Bump>, r: nat, j: nat)
    requires j < |h| && h[j].record == r
    ensures exists i :: j <= i && IsLast(h, r, i)
    decreases |h| - j
  {
    if k :| j < k < |h| && h[k].record == r {
      SomeOpen(h, r, k);
    } else {
      assert IsLast(h, r, j);
    }
  }

  lemma AllClosed(h: seq<Bump>, r: nat)
    requires forall i :: 0 <= i < |h| && Table(h)[i].record == r ==> Table(h)[i].hi.Some?
    ensures forall j :: 0 <= j < |h| ==> h[j].record != r
  {
    forall j | 0 <= j < |h| ensures h[j].record != r {
      if h[j].record == r {
        SomeOpen(h, r, j);
        var i :| j <= i && IsLast(h, r, i);
        assert Table(h)[i].record == r;
        OpenVersion(h, i);
        assert false;
      }
    }
  }

  // ---- Time travel ----

  /** The version of r that row i holds was in force at t. */
  predicate InForce(row: StateRow, r: nat, t: int) {
    row.record == r && row.lo <= t && (row.hi.Some? ==> t < row.hi.value)
  }

  /** How often r was bumped at or before t, and by how much in all. */
  function CountAt(h: seq<Bump>, r: nat, t: int): nat {
    if h == [] then 0
    else CountAt(h[..|h| - 1], r, t) + if h[|h| - 1].record == r && h[|h| - 1].when <= t then 1 else 0
  }

  function SumAt(h: seq<Bump>, r: nat, t: int): real {
    if h == [] then 0.0
    else SumAt(h[..|h| - 1], r, t) + if h[|h| - 1].record == r && h[|h| - 1].when <= t then h[|h| - 1].delta else 0.0
  }

  /** Bump i of r is the latest at or before t. */
  predicate LatestAt(h: seq<Bump>, r: nat, t: int, i: nat) {
    && i < |h| && h[i].record == r && h[i].when <= t
    && forall j :: i < j < |h| && h[j].record == r ==> h[j].when > t
  }

  lemma {:induction false} FindLatest(h: seq<Bump>, r: nat, t: int) returns (i: Option<nat>)
    ensures match i
            case None => forall j :: 0 <= j < |h| && h[j].record == r ==> h[j].when > t
            case Some(p) => LatestAt(h, r, t, p)
  {
    if h == [] {
      i := None;
    } else {
      var n := |h| - 1;
      if h[n].record == r && h[n].when <= t {
        i := Some(n);
      } else {
        i := FindLatest(h[..n], r, t);
      }
    }
  }

  lemma {:induction false} CountAtPrefix(h: seq<Bump>, r: nat, t: int, n: nat)
    requires n <= |h|
    requires forall j :: 0 <= j < n && h[j].record == r ==> h[j].when <= t
    requires forall j :: n <= j < |h| && h[j].record == r ==> h[j].when > t
    ensures CountAt(h, r, t) == Count(h[..n], r) && SumAt(h, r, t) == Sum(h[..n], r)
    decreases |h|
  {
    if h != [] {
      var m := |h| - 1;
      if n == |h| {
        assert h[..n] == h;
        CountAtPrefix(h[..m], r, t, m);
        assert h[..m][..m] == h[..m];
      } else {
        CountAtPrefix(h[..m], r, t, n);
        assert h[..m][..n] == h[..n];
      }
    }
  }

  lemma {:induction false} NextBumpAt(h: seq<Bump>, r: nat, i: nat, j: nat)
    requires WellTimed(h) && i <= j < |h| && h[j].record == r
    ensures NextBump(h, r, i).Some? && NextBump(h, r, i).value <= h[j].when
    decreases j - i
  {
    if i < j && h[i].record != r { NextBumpAt(h, r, i + 1, j); }
  }

  lemma {:induction false} NextBumpAfter(h: seq<Bump>, r: nat, i: nat, t: int)
    requires forall j :: i <= j < |h| && h[j].record == r ==> h[j].when > t
    ensures NextBump(h, r, i).Some? ==> t < NextBump(h, r, i).value
    decreases |h| - i
  {
    if i < |h| && h[i].record != r { NextBumpAfter(h, r, i + 1, t); }
  }

  /**
    The versions of a record tile time from its first bump on: before it none is
    in force, from it on exactly one, and that one carries the number of bumps up
    to the instant asked about and the sum of their deltas.
   */
  lemma TimeTravel(h: seq<Bump>, r: nat, t: int)
    requires WellTimed(h)
    ensures CountAt(h, r, t) == 0 <==> forall i :: 0 <= i < |h| ==> !InForce(Table(h)[i], r, t)
    ensures forall i :: 0 <= i < |h| && InForce(Table(h)[i], r, t) ==>
              Table(h)[i].recallCount == CountAt(h, r, t) && Table(h)[i].salience == SumAt(h, r, t)
    ensures forall i, j :: 0 <= i < |h| && 0 <= j < |h| ==>
              InForce(Table(h)[i], r, t) && InForce(Table(h)[j], r, t) ==> i == j
  {
    hide Count; hide Sum; hide CountAt; hide SumAt; hide NextBump;
    var latest := FindLatest(h, r, t);
    match latest
    case None =>
      CountAtPrefix(h, r, t, 0);
      assert Count(h[..0], r) == 0 by { NoBumps(r); }
    case Some(p) =>
      CountAtPrefix(h, r, t, p + 1);
      CountLast(h, p);
      NextBumpAfter(h, r, p + 1, t);
      assert InForce(Table(h)[p], r, t);
      forall i | 0 <= i < |h| && i != p ensures !InForce(Table(h)[i], r, t) {
        if i < p && h[i].record == r { NextBumpAt(h, r, i + 1, p); }
      }
  }

  lemma NoBumps(r: nat)
    ensures Count([], r) == 0
  {
  }

  lemma CountLast(h: seq<Bump>, p: nat)
    requires p < |h|
    ensures Count(h[..p + 1], h[p].record) > 0
  {
    assert h[..p + 1] == h[..p] + [h[p]];
    CountMore(h[..p], h[p], h[p].record);
  }

  predicate IsOpen(row: StateRow, r: nat) { row.record == r && row.hi.None? }

  /** A record that was ever bumped has exactly one open version, with its count and sum so far. */
  lemma OneOpenVersion(h: seq<Bump>, r: nat)
    requires WellTimed(h) && Count(h, r) > 0
    ensures exists p :: 0 <= p < |h| && IsOpen(Table(h)[p], r)
                     && Table(h)[p].recallCount == Count(h, r) && Table(h)[p].salience == Sum(h, r)
    ensures forall i, j :: 0 <= i < |h| && 0 <= j < |h| && IsOpen(Table(h)[i], r) && IsOpen(Table(h)[j], r) ==> i == j
  {
    hide Count; hide Sum; hide NextBump;
    if forall j :: 0 <= j < |h| ==> h[j].record != r {
      CountUpTo(h, r, 0);
      assert Count(h[..0], r) == 0 by { NoBumps(r); }
      assert false;
    } else {
      var j :| 0 <= j < |h| && h[j].record == r;
      SomeOpen(h, r, j);
      var p :| j <= p && IsLast(h, r, p);
      CountUpTo(h, r, p + 1);
      OpenVersion(h, p);
      assert IsOpen(Table(h)[p], r);
    }
    forall i | 0 <= i < |h| ensures Table(h)[i].hi.None? <==> IsLast(h, h[i].record, i) { OpenVersion(h, i); }
  }
}
