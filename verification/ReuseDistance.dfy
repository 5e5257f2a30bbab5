/** The reuse-distance recorder (btb/reuse_distance.h) as the loop it is, proved against
    StackDistance.Access; for one cpu, with recording switched on.
 */
module ReuseDistance {
  import opened Arithmetic
  import opened StackDistance

  class Recording {
    var seen: seq<set<nat>>
    var distances: map<nat, set<nat>>
    var record: map<nat, seq<nat>>

    ghost function View(): Recorder
      reads this
    {
      Recorder(seen, distances, record)
    }

    /** Every branch seen in a set has an entry; the number of sets is a power of two. */
    ghost predicate Valid()
      reads this
    {
      && IsPower(|seen|)
      && distances.Keys == record.Keys
      && forall s | 0 <= s < |seen| :: seen[s] <= distances.Keys
    }

    constructor (sets: nat, ghost k: nat)
      requires sets == Pow2(k)
      ensures Valid() && View() == EmptyRecorder(sets)
    {
      seen := seq(sets, _ => {});
      distances, record := map[], map[];
    }

    /** ReuseEntry::access on the entry of branch `x`. */
    method AccessEntry(x: nat, ip: nat)
      requires x in distances && x in record
      modifies this`distances, this`record
      ensures distances == old(distances)[x := if x == ip then {} else old(distances[x]) + {ip}]
      ensures record == if x == ip then old(record)[x := old(record[x]) + [|old(distances[x])|]] else old(record)
    {
      if x == ip {
        record := record[x := record[x] + [|distances[x]|]];
        distances := distances[x := {}];
      } else {
        distances := distances[x := distances[x] + {ip}];
      }
    }

    method Access(ip: nat)
      requires Valid()
      modifies this
      ensures Valid() && MaskIndex(ip, |old(seen)|) < |old(seen)|
      ensures View() == StackDistance.Access(old(View()), ip)
    {
      hide MaskIndex, Pow2, StackDistance.Access, Partway;
      MaskInRange(ip, |seen|);
      var s := MaskIndex(ip, |seen|);
      ghost var before := View();
      seen := seen[s := seen[s] + {ip}];
      if ip !in distances {
        distances := distances[ip := {}];
        record := record[ip := []];
      }
      ghost var since := distances;
      ghost var past := record;
      var here := seen[s];
      var left := here;
      StartPartway(since, past, here, ip);
      while left != {}
        invariant left <= here && here <= since.Keys && since.Keys == past.Keys && ip in past
        invariant seen == before.seen[s := here]
        invariant (distances, record) == Partway(since, past, here - left, ip)
        decreases left
      {
        var x :| x in left;
        StepPartway(since, past, here - left, ip, x);
        assert here - (left - {x}) == here - left + {x};
        AccessEntry(x, ip);
        left := left - {x};
      }
      assert here - left == here;
      EndPartway(before, s, since, past, ip);
    }
  }

  /** The entries after the branches of `done` have been visited. */
  ghost function Partway(since: map<nat, set<nat>>, past: map<nat, seq<nat>>, done: set<nat>, ip: nat)
    : (r: (map<nat, set<nat>>, map<nat, seq<nat>>))
    requires since.Keys == past.Keys && ip in past
    ensures r.0.Keys == since.Keys && r.1.Keys == past.Keys
  {
    (map x | x in since :: if x !in done then since[x] else if x == ip then {} else since[x] + {ip},
     if ip in done then past[ip := past[ip] + [|since[ip]|]] else past)
  }

  lemma StartPartway(since: map<nat, set<nat>>, past: map<nat, seq<nat>>, here: set<nat>, ip: nat)
    requires since.Keys == past.Keys && ip in past
    ensures (since, past) == Partway(since, past, here - here, ip)
  {
    assert since == Partway(since, past, here - here, ip).0;
  }

  lemma StepPartway(since: map<nat, set<nat>>, past: map<nat, seq<nat>>, done: set<nat>, ip: nat, x: nat)
    requires since.Keys == past.Keys && ip in past && x in since && x !in done
    ensures var (d, r) := Partway(since, past, done, ip);
            Partway(since, past, done + {x}, ip)
              == (d[x := if x == ip then {} else d[x] + {ip}], if x == ip then r[x := r[x] + [|d[x]|]] else r)
  {
    var (d, r) := Partway(since, past, done, ip);
    assert Partway(since, past, done + {x}, ip).0 == d[x := if x == ip then {} else d[x] + {ip}];
  }

  lemma EndPartway(r: Recorder, s: nat, since: map<nat, set<nat>>, past: map<nat, seq<nat>>, ip: nat)
    requires |r.seen| > 0 && s == MaskIndex(ip, |r.seen|) < |r.seen|
    requires r.distances.Keys == r.record.Keys
    requires since == if ip in r.distances then r.distances else r.distances[ip := {}]
    requires past == if ip in r.record then r.record else r.record[ip := []]
    ensures var here := r.seen[s] + {ip};
            var (d, p) := Partway(since, past, here, ip);
            Recorder(r.seen[s := here], d, p) == StackDistance.Access(r, ip)
  {
    hide MaskIndex;
    var here := r.seen[s] + {ip};
    assert Partway(since, past, here, ip).0 == StackDistance.Access(r, ip).distances;
    assert Partway(since, past, here, ip).1 == StackDistance.Access(r, ip).record;
  }

  lemma MaskInRange(ip: nat, sets: nat)
    requires IsPower(sets)
    ensures sets > 0 && MaskIndex(ip, sets) < sets
  {
    var k :| sets == Pow2(k);
    SameSet(ip, k);
  }
}
