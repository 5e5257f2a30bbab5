/** The LRU stack theorem: a one-level LRU branch target buffer hits exactly when the reuse distance
    recorded for the access (btb/reuse_distance.h) is smaller than its number of ways.
 */
module StackDistance {
  import opened Arithmetic
  import opened Recency
  import opened Btb
  import opened MultiLevelBtb

  // ---------------------------------------------------------------- set indices by mask and by remainder

  /** ReuseDistance::get_set_index. */
  function MaskIndex(ip: nat, sets: nat): nat
    requires sets > 0
  {
    BitAnd(ip / 4, sets - 1)
  }

  lemma SameSet(ip: nat, k: nat)
    ensures MaskIndex(ip, Pow2(k)) == SetOf(ip, Pow2(k))
  {
    MaskIsRemainder(ip / 4, k);
  }

  // ---------------------------------------------------------------- the recorder

  /** The branches seen per set, and for each its distance set and recorded distances. */
  datatype Recorder = Recorder(seen: seq<set<nat>>, distances: map<nat, set<nat>>, record: map<nat, seq<nat>>)

  /** ReuseEntry::access for every branch of the set that is accessed. */
  function Access(r: Recorder, ip: nat): (r': Recorder)
    requires |r.seen| > 0 && MaskIndex(ip, |r.seen|) < |r.seen|
    ensures |r'.seen| == |r.seen|
  {
    var s := MaskIndex(ip, |r.seen|);
    var here := r.seen[s] + {ip};
    var since := if ip in r.distances then r.distances[ip] else {};
    var past := if ip in r.record then r.record[ip] else [];
    Recorder(
      r.seen[s := here],
      map x | x in r.distances.Keys + {ip} ::
        if x == ip then {} else if x in here then r.distances[x] + {ip} else r.distances[x],
      r.record[ip := past + [|since|]])
  }

  // ---------------------------------------------------------------- the recency list of each set

  ghost function OrderOf(branches: seq<Branch>, s: nat, sets: nat): (q: seq<nat>)
    requires sets > 0
    ensures Distinct(q)
    ensures forall x | x in q :: SetOf(x, sets) == s
  {
    if branches == [] then [] else
    var n := |branches| - 1;
    var q := OrderOf(branches[..n], s, sets);
    TouchDistinct(q, branches[n].ip);
    if SetOf(branches[n].ip, sets) == s then
      assert forall x | x in Touch(q, branches[n].ip) :: x in Elements(Touch(q, branches[n].ip));
      Touch(q, branches[n].ip)
    else q
  }

  /** Among the first `n` keys, stamps fall with recency. */
  ghost predicate StampsFall(m: Table, q: seq<nat>, n: nat) {
    && n <= |q|
    && (forall a | 0 <= a < n :: q[a] in m)
    && (forall a, b | 0 <= a < b < n :: m[q[a]].lru > m[q[b]].lru)
  }

  function Capped(n: nat, ways: nat): nat {
    if n < ways then n else ways
  }

  /** The set holds the most recent branches, with stamps in recency order. */
  ghost predicate Ranked(m: Table, q: seq<nat>, ways: nat) {
    && (forall x :: x in m <==> x in q[..Capped(|q|, ways)])
    && StampsFall(m, q, Capped(|q|, ways))
  }

  /** LRU content: a branch is stored exactly when fewer than `ways` others are more recent. */
  lemma {:induction false} RankedHit(m: Table, q: seq<nat>, ways: nat, ip: nat)
    requires Distinct(q) && Ranked(m, q, ways)
    ensures ip in m <==> ip in q && IndexOf(q, ip) < ways
  {
    hide StampsFall;
    InPrefix(q, Capped(|q|, ways), ip);
  }

  lemma {:induction false} RankedSize(m: Table, q: seq<nat>, ways: nat)
    requires Distinct(q) && Ranked(m, q, ways)
    ensures |m| == Capped(|q|, ways)
  {
    hide StampsFall;
    PrefixSize(q, Capped(|q|, ways));
    assert m.Keys == Elements(q[..Capped(|q|, ways)]);
  }

  /** A hit: the entry is rewritten and gets the newest stamp. */
  lemma {:induction false} HitRanked(m: Table, q: seq<nat>, ways: nat, ip: nat, e: Entry)
    requires Distinct(q) && Ranked(m, q, ways) && ip in m && e.lru == m[ip].lru
    ensures Ranked(Stamped(m[ip := e], ip), Touch(q, ip), ways)
  {
    hide StampsFall, Touch, IndexOf, Stamped;
    RankedHit(m, q, ways, ip);
    TouchKept(q, ip, Capped(|q|, ways));
    TouchDistinct(q, ip);
    TouchAt(q, ip);
    RestampFalls(m, q, Capped(|q|, ways), IndexOf(q, ip), e, Touch(q, ip));
  }

  /** Re-stamping key `k` and moving it to the front keeps stamps falling. */
  lemma {:induction false} RestampFalls(m: Table, q: seq<nat>, n: nat, k: nat, e: Entry, t: seq<nat>)
    requires Distinct(q) && StampsFall(m, q, n) && k < n && |t| == |q|
    requires forall j: nat | j < |q| :: t[j] == q[Before(k, j)]
    ensures StampsFall(Stamped(m[q[k] := e], q[k]), t, n)
  {
    hide MaxStamp;
    var m' := Stamped(m[q[k] := e], q[k]);
    forall a: nat | a < n ensures t[a] in m' && (a > 0 ==> t[a] != q[k] && m'[t[a]] == m[t[a]]) {
      assert t[a] == q[Before(k, a)];
    }
  }

  /** A miss: the branch comes in, and the least recent one of a full set goes. */
  lemma {:induction false} MissRanked(m: Table, q: seq<nat>, ways: nat, ip: nat, target: nat, branchType: nat)
    requires ways > 0 && Distinct(q) && Ranked(m, q, ways) && ip !in m
    ensures Ranked(SetInsert(m, ways, ip, target, branchType).0, Touch(q, ip), ways)
  {
    hide StampsFall, Touch, IndexOf, Stamped, Oldest, Ranked, SetInsert, IsOldest, Distinct;
    MissInserts(m, ways, ip, target, branchType);
    RankedHit(m, q, ways, ip);
    RankedSize(m, q, ways);
    var t, full := Touch(q, ip), |q| >= ways;
    var n := if full then ways - 1 else |q|;
    TouchFresh(q, ip, n);
    TouchDistinct(q, ip);
    var room := if full then m - {Oldest(m)} else m;
    RoomRanked(m, q, ways, n, room);
    PlacedRanked(room, q, n, ip, Entry(target, branchType, true, 0), t);
    IsRanked(Stamped(room[ip := Entry(target, branchType, true, 0)], ip), t, ways, n + 1);
  }

  lemma {:induction false} MissInserts(m: Table, ways: nat, ip: nat, target: nat, branchType: nat)
    requires ways > 0 && ip !in m
    ensures var room := if |m| >= ways && m != map[] then m - {Oldest(m)} else m;
            && ip !in room
            && SetInsert(m, ways, ip, target, branchType).0
               == Stamped(room[ip := Entry(target, branchType, true, 0)], ip)
  {
  }

  lemma {:induction false} IsRanked(m: Table, q: seq<nat>, ways: nat, n: nat)
    requires StampsFall(m, q, n) && n == Capped(|q|, ways) && forall x :: x in m <==> x in q[..n]
    ensures Ranked(m, q, ways)
  {
  }

  /** Without the least recent branch of a full set, what is left is ranked one shorter. */
  lemma {:induction false} RoomRanked(m: Table, q: seq<nat>, ways: nat, n: nat, room: Table)
    requires ways > 0 && Distinct(q) && Ranked(m, q, ways)
    requires n == (if |q| >= ways then ways - 1 else |q|)
    requires |q| >= ways ==> m != map[]
    requires room == (if |q| >= ways then m - {Oldest(m)} else m)
    ensures (forall x :: x in room <==> x in q[..n]) && StampsFall(room, q, n)
  {
    hide Oldest, IsOldest, IndexOf, StampsFall, StampsDistinct;
    if |q| >= ways {
      LeastRecent(m, q, ways);
      ShorterKeys(m, q, n);
      ShorterFalls(m, q, n);
    } else {
      assert q[..n] == q;
    }
  }

  lemma {:induction false} ShorterKeys(m: Table, q: seq<nat>, n: nat)
    requires Distinct(q) && n < |q| && forall x :: x in m <==> x in q[..n + 1]
    ensures forall x :: x in m - {q[n]} <==> x in q[..n]
  {
    assert q[..n + 1] == q[..n] + [q[n]];
  }

  lemma {:induction false} ShorterFalls(m: Table, q: seq<nat>, n: nat)
    requires Distinct(q) && n < |q| && StampsFall(m, q, n + 1)
    ensures StampsFall(m - {q[n]}, q, n)
  {
  }

  lemma {:induction false} LeastRecent(m: Table, q: seq<nat>, ways: nat)
    requires ways > 0 && Distinct(q) && Ranked(m, q, ways) && |q| >= ways && m != map[]
    ensures Oldest(m) == q[ways - 1]
  {
    var a :| 0 <= a < ways && q[a] == Oldest(m);
  }

  lemma {:induction false} PlacedRanked(room: Table, q: seq<nat>, n: nat, ip: nat, e: Entry, t: seq<nat>)
    requires StampsFall(room, q, n) && forall x :: x in room <==> x in q[..n]
    requires ip !in room && n < |t| && forall j | 0 <= j <= n :: t[j] == if j == 0 then ip else q[j - 1]
    ensures StampsFall(Stamped(room[ip := e], ip), t, n + 1)
    ensures forall x {:trigger x in Stamped(room[ip := e], ip)} :: x in Stamped(room[ip := e], ip) <==> x in t[..n + 1]
  {
    hide MaxStamp;
    var first := t[..n + 1];
    assert first == [ip] + q[..n];
  }

  // ---------------------------------------------------------------- both structures on one trace

  /** Every branch of the trace is taken, to a real target. */
  ghost predicate AllTaken(branches: seq<Branch>) {
    forall k | 0 <= k < |branches| :: branches[k].taken && branches[k].target != 0
  }

  /** One access to a one-level buffer: a hit rewrites and restamps the entry, a miss inserts one. */
  lemma {:induction false} OneLevelAccess(l: Level, b: Branch)
    requires |l.table| > 0 && l.ways > 0 && b.taken && b.target != 0
    ensures Shaped([l])
    ensures var s, m := SetOf(b.ip, |l.table|), l.table[SetOf(b.ip, |l.table|)];
            UpdateBtb([l], b.ip, b.target, true, b.branchType)
              == [l.(table := l.table[s :=
                   if b.ip in m then Stamped(m[b.ip := m[b.ip].(target := b.target)], b.ip)
                   else SetInsert(m, l.ways, b.ip, b.target, b.branchType).0])]
  {
    hide SetOf, Stamped, SetInsert;
    var s, m := SetOf(b.ip, |l.table|), l.table[SetOf(b.ip, |l.table|)];
    if b.ip in m {
      assert FindLevel([l], b.ip, 0) == 0;
      var l1 := SetEntry(l, b.ip, m[b.ip].(target := b.target));
      assert [l][0 := l1] == [l1];
      assert FindLevel([l1], b.ip, 0) == 0;
      var stamped := Stamped(l1.table[s], b.ip);
      assert l1.table[s := stamped] == l.table[s := stamped];
      assert [l1][0 := UpdateLevel(l1, b.ip)] == [UpdateLevel(l1, b.ip)];
    } else {
      assert FindLevel([l], b.ip, 1) == 1 && FindLevel([l], b.ip, 0) == 1;
      var l1 := InsertLevel(l, b.ip, b.target, b.branchType).0;
      assert [l][0 := l1] == [l1];
    }
  }

  /** After any trace, every set of the buffer holds its most recent branches, ranked by their stamps. */
  lemma {:induction false} RunRanked(l: Level, branches: seq<Branch>)
    requires |l.table| > 0 && l.ways > 0 && AllEmpty([l]) && AllTaken(branches)
    ensures Shaped([l])
    ensures var r := Run([l], branches)[0];
            && |r.table| == |l.table| && r.ways == l.ways
            && forall s: nat | s < |l.table| :: Ranked(r.table[s], OrderOf(branches, s, |l.table|), l.ways)
    decreases |branches|
  {
    hide SetOf, UpdateBtb, Ranked, Stamped, SetInsert, Touch;
    if branches == [] {
      forall s: nat | s < |l.table| ensures Ranked(l.table[s], [], l.ways) {
        EmptyRanked(l.ways);
        assert [l][0].table[s] == map[];
      }
    } else {
      var n := |branches| - 1;
      var b := branches[n];
      RunRanked(l, branches[..n]);
      var before := Run([l], branches[..n]);
      assert before == [before[0]];
      OneLevelAccess(before[0], b);
      var t := SetOf(b.ip, |l.table|);
      AccessRanked(before[0].table[t], OrderOf(branches[..n], t, |l.table|), l.ways, b);
    }
  }

  lemma EmptyRanked(ways: nat)
    ensures Ranked(map[], [], ways)
  {
  }

  lemma {:induction false} AccessRanked(m: Table, q: seq<nat>, ways: nat, b: Branch)
    requires ways > 0 && Distinct(q) && Ranked(m, q, ways)
    ensures Ranked(if b.ip in m then Stamped(m[b.ip := m[b.ip].(target := b.target)], b.ip)
                   else SetInsert(m, ways, b.ip, b.target, b.branchType).0, Touch(q, b.ip), ways)
  {
    hide Ranked;
    if b.ip in m {
      HitRanked(m, q, ways, b.ip, m[b.ip].(target := b.target));
    } else {
      MissRanked(m, q, ways, b.ip, b.target, b.branchType);
    }
  }

  function EmptyRecorder(sets: nat): Recorder {
    Recorder(seq(sets, _ => {}), map[], map[])
  }

  /** The recorder after a trace, with 2^k sets. */
  function Record(branches: seq<Branch>, k: nat): (r: Recorder)
    ensures |r.seen| == Pow2(k)
  {
    if branches == [] then EmptyRecorder(Pow2(k)) else
    var n := |branches| - 1;
    SameSet(branches[n].ip, k);
    Access(Record(branches[..n], k), branches[n].ip)
  }

  /** The recorder knows branch `x` exactly when it is in the recency list of its set, and its distance
      set holds the branches that are more recent. */
  ghost predicate TracksBranch(r: Recorder, x: nat, q: seq<nat>) {
    && (x in r.distances <==> x in q)
    && (x in q ==> r.distances[x] == Elements(q[..IndexOf(q, x)]))
  }

  ghost predicate Tracks(r: Recorder, branches: seq<Branch>, sets: nat)
    requires sets > 0 && |r.seen| == sets
  {
    && (forall s: nat | s < sets :: r.seen[s] == Elements(OrderOf(branches, s, sets)))
    && (forall x: nat :: TracksBranch(r, x, OrderOf(branches, SetOf(x, sets), sets)))
  }

  lemma {:induction false} RecordTracks(branches: seq<Branch>, k: nat)
    ensures Tracks(Record(branches, k), branches, Pow2(k))
    decreases |branches|
  {
    hide SetOf, Touch, TracksBranch, Access;
    var sets := Pow2(k);
    if branches == [] {
      forall x: nat ensures TracksBranch(EmptyRecorder(sets), x, []) {
        NothingTracked(sets, x);
      }
    } else {
      var n := |branches| - 1;
      var ip := branches[n].ip;
      RecordTracks(branches[..n], k);
      SameSet(ip, k);
      var r := Record(branches[..n], k);
      var t := SetOf(ip, sets);
      TouchDistinct(OrderOf(branches[..n], t, sets), ip);
      SeenGrows(r, ip);
      forall x: nat ensures TracksBranch(Access(r, ip), x, OrderOf(branches, SetOf(x, sets), sets)) {
        AccessTracks(r, ip, t, x, SetOf(x, sets), OrderOf(branches[..n], SetOf(x, sets), sets));
      }
    }
  }

  lemma NothingTracked(sets: nat, x: nat)
    ensures TracksBranch(EmptyRecorder(sets), x, [])
  {
  }

  lemma SeenGrows(r: Recorder, ip: nat)
    requires |r.seen| > 0 && MaskIndex(ip, |r.seen|) < |r.seen|
    ensures Access(r, ip).seen == r.seen[MaskIndex(ip, |r.seen|) := r.seen[MaskIndex(ip, |r.seen|)] + {ip}]
  {
  }

  lemma {:induction false} AccessTracks(r: Recorder, ip: nat, t: nat, x: nat, s: nat, q: seq<nat>)
    requires |r.seen| > 0 && MaskIndex(ip, |r.seen|) == t < |r.seen| && s < |r.seen|
    requires Distinct(q) && r.seen[s] == Elements(q) && TracksBranch(r, x, q)
    requires s != t ==> ip != x && x !in r.seen[t]
    ensures TracksBranch(Access(r, ip), x, if s == t then Touch(q, ip) else q)
  {
    hide Touch, MaskIndex;
    if s == t {
      TouchFront(q, ip);
      TouchDistinct(q, ip);
      assert x in Touch(q, ip) <==> x in Elements(Touch(q, ip));
      if x == ip {
        assert Elements(Touch(q, ip)[..0]) == {};
      } else if x in q {
        TouchAbove(q, ip, x);
      }
    }
  }

  lemma TouchFront(q: seq<nat>, x: nat)
    ensures x in Touch(q, x) && IndexOf(Touch(q, x), x) == 0
  {
    assert Touch(q, x)[0] == x;
  }

  // ---------------------------------------------------------------- the theorem

  ghost predicate Accessed(branches: seq<Branch>, ip: nat) {
    exists k :: 0 <= k < |branches| && branches[k].ip == ip
  }

  /** The distinct branches of the set of `ip` accessed since the last access to `ip`. */
  function Since(branches: seq<Branch>, ip: nat, sets: nat): set<nat>
    requires sets > 0
  {
    if branches == [] then {} else
    var n := |branches| - 1;
    if branches[n].ip == ip then {}
    else Since(branches[..n], ip, sets)
         + (if SetOf(branches[n].ip, sets) == SetOf(ip, sets) then {branches[n].ip} else {})
  }

  lemma {:induction false} OrderHolds(branches: seq<Branch>, ip: nat, sets: nat)
    requires sets > 0
    ensures ip in OrderOf(branches, SetOf(ip, sets), sets) <==> Accessed(branches, ip)
    decreases |branches|
  {
    hide SetOf, Touch;
    if branches == [] {
    } else {
      var n := |branches| - 1;
      OrderHolds(branches[..n], ip, sets);
      var q := OrderOf(branches[..n], SetOf(branches[n].ip, sets), sets);
      TouchDistinct(q, branches[n].ip);
      assert ip in Elements(Touch(q, branches[n].ip)) <==> ip in q || ip == branches[n].ip;
      if Accessed(branches[..n], ip) {
        var k :| 0 <= k < n && branches[..n][k].ip == ip;
        assert branches[k].ip == ip;
      }
      if Accessed(branches, ip) && branches[n].ip != ip {
        var k :| 0 <= k < |branches| && branches[k].ip == ip;
        assert branches[..n][k].ip == ip;
      }
    }
  }

  lemma {:induction false} SinceIsAbove(branches: seq<Branch>, ip: nat, sets: nat)
    requires sets > 0 && ip in OrderOf(branches, SetOf(ip, sets), sets)
    ensures var q := OrderOf(branches, SetOf(ip, sets), sets);
            Since(branches, ip, sets) == Elements(q[..IndexOf(q, ip)])
    decreases |branches|
  {
    hide SetOf, Touch;
    var n := |branches| - 1;
    var x := branches[n].ip;
    var q := OrderOf(branches[..n], SetOf(ip, sets), sets);
    if x == ip {
      TouchFront(q, ip);
      assert Elements(Touch(q, ip)[..0]) == {};
    } else {
      TouchDistinct(q, x);
      assert ip in Elements(Touch(q, x)) <==> ip in Elements(q) + {x};
      SinceIsAbove(branches[..n], ip, sets);
      if SetOf(x, sets) == SetOf(ip, sets) {
        TouchAbove(q, x, ip);
      }
    }
  }

  /** The distance recorded by an access. */
  function Recorded(r: Recorder, ip: nat): nat
    requires |r.seen| > 0 && MaskIndex(ip, |r.seen|) < |r.seen|
  {
    var past := Access(r, ip).record[ip];
    past[|past| - 1]
  }

  /** The distances of all accesses to a branch, from the trace; its first access counts as 0. */
  function DistancesOf(branches: seq<Branch>, ip: nat, sets: nat): seq<nat>
    requires sets > 0
  {
    if branches == [] then [] else
    var n := |branches| - 1;
    var past := DistancesOf(branches[..n], ip, sets);
    if branches[n].ip != ip then past
    else if past == [] then [0]
    else past + [|Since(branches[..n], ip, sets)|]
  }

  /** The record of a branch is the list of its reuse distances, one for every access. */
  lemma {:induction false} RecordsEvery(branches: seq<Branch>, k: nat, ip: nat)
    ensures var r, ds := Record(branches, k), DistancesOf(branches, ip, Pow2(k));
            && (ip in r.record <==> ds != []) && (ds != [] <==> Accessed(branches, ip))
            && (ds != [] ==> r.record[ip] == ds)
    decreases |branches|
  {
    hide Pow2, MaskIndex, SetOf, Since, Tracks, TracksBranch, OrderOf, Accessed, Access;
    if branches == [] {
      NeverAccessed(ip);
    } else {
      var n := |branches| - 1;
      var x := branches[n].ip;
      RecordsEvery(branches[..n], k, ip);
      SameSet(x, k);
      AccessRecords(Record(branches[..n], k), x, ip);
      AccessedNext(branches, ip);
      if x == ip && Accessed(branches[..n], ip) {
        SinceTracked(branches[..n], k, ip);
      } else if x == ip {
        NotTracked(branches[..n], k, ip);
      }
    }
  }

  lemma NeverAccessed(ip: nat)
    ensures !Accessed([], ip)
  {
  }

  lemma AccessedNext(branches: seq<Branch>, ip: nat)
    requires branches != []
    ensures var n := |branches| - 1; Accessed(branches, ip) <==> Accessed(branches[..n], ip) || branches[n].ip == ip
  {
    var n := |branches| - 1;
    if k :| 0 <= k < n && branches[..n][k].ip == ip {
      assert branches[k].ip == ip;
    }
    if k :| 0 <= k < n && branches[k].ip == ip {
      assert branches[..n][k].ip == ip;
    }
  }

  /** What an access adds to the records. */
  lemma AccessRecords(r: Recorder, x: nat, ip: nat)
    requires |r.seen| > 0 && MaskIndex(x, |r.seen|) < |r.seen|
    ensures var r' := Access(r, x);
            if x != ip then r'.record.Keys == r.record.Keys + {x} && (ip in r.record ==> r'.record[ip] == r.record[ip])
            else && ip in r'.record
                 && r'.record[ip] == (if ip in r.record then r.record[ip] else [])
                                     + [if ip in r.distances then |r.distances[ip]| else 0]
  {
    hide MaskIndex;
  }

  lemma SinceTracked(branches: seq<Branch>, k: nat, ip: nat)
    requires Accessed(branches, ip)
    ensures ip in Record(branches, k).distances
    ensures Record(branches, k).distances[ip] == Since(branches, ip, Pow2(k))
  {
    hide SetOf, OrderOf, Since, Record, Accessed, IndexOf, Pow2;
    RecordTracks(branches, k);
    OrderHolds(branches, ip, Pow2(k));
    assert TracksBranch(Record(branches, k), ip, OrderOf(branches, SetOf(ip, Pow2(k)), Pow2(k)));
    SinceIsAbove(branches, ip, Pow2(k));
  }

  lemma NotTracked(branches: seq<Branch>, k: nat, ip: nat)
    requires !Accessed(branches, ip)
    ensures ip !in Record(branches, k).distances
  {
    hide SetOf, OrderOf, Record, Accessed, IndexOf, Pow2;
    RecordTracks(branches, k);
    OrderHolds(branches, ip, Pow2(k));
    assert TracksBranch(Record(branches, k), ip, OrderOf(branches, SetOf(ip, Pow2(k)), Pow2(k)));
  }

  /** For every trace of taken branches over 2^k sets: the next access records the number of distinct
      branches of its set since its last access, and hits exactly when it is not the first access
      and that number is below the number of ways. */
  lemma {:induction false} StackTheorem(l: Level, k: nat, branches: seq<Branch>, ip: nat)
    requires |l.table| == Pow2(k) && l.ways > 0 && AllEmpty([l]) && AllTaken(branches)
    ensures MaskIndex(ip, Pow2(k)) == SetOf(ip, Pow2(k)) && Shaped([l])
    ensures Accessed(branches, ip) ==> Recorded(Record(branches, k), ip) == |Since(branches, ip, Pow2(k))|
    ensures !Accessed(branches, ip) ==> Recorded(Record(branches, k), ip) == 0
    ensures At(Run([l], branches), 0, ip)
       <==> Accessed(branches, ip) && Recorded(Record(branches, k), ip) < l.ways
  {
    hide SetOf, MaskIndex, Ranked, Run;
    var sets := Pow2(k);
    var t := SetOf(ip, sets);
    var q := OrderOf(branches, t, sets);
    SameSet(ip, k);
    RunRanked(l, branches);
    RecordTracks(branches, k);
    OrderHolds(branches, ip, sets);
    RankedHit(Run([l], branches)[0].table[t], q, l.ways, ip);
    assert TracksBranch(Record(branches, k), ip, q);
    if ip in q {
      SinceIsAbove(branches, ip, sets);
      PrefixSize(q, IndexOf(q, ip));
    }
  }
}
