/** Thermometer replacement (btb/hot_warm_cold_btb.template/hot_warm_cold_btb.cc): the victim comes from the
    coldest class of branches, by profiled hit ratio, and within it by recency.
 */
module Thermometer {
  import opened Recency
  import opened Btb
  import StackDistance

  /** Class boundaries from cold to hot; whether the incoming branch competes, and a class hotter. */
  datatype Config = Config(boundaries: seq<real>, keep: bool, hotter: bool)

  /** The hit ratio of each branch as one choice of a victim sees it; negative for one that does not matter.
      Branches without a profile may get a new value in each choice. */
  type Ratio = nat -> real

  // ---------------------------------------------------------------- classes

  function ClassOf(boundaries: seq<real>, ratio: real): (c: nat)
    ensures c <= |boundaries| && (c < |boundaries| ==> ratio <= boundaries[c])
    ensures forall i | 0 <= i < c :: ratio > boundaries[i]
  {
    if boundaries == [] || ratio <= boundaries[0] then 0 else 1 + ClassOf(boundaries[1..], ratio)
  }

  datatype Place = DontCare | Nowhere | In(class_: nat)

  /** add_to_candidate: where a branch goes. A raised branch of the topmost warm class counts as hot, and
      a raised hot branch is no candidate. */
  function PlaceOf(boundaries: seq<real>, ratio: real, raised: bool): Place {
    var c, n := ClassOf(boundaries, ratio), |boundaries|;
    if ratio < 0.0 then DontCare
    else if raised && c + 1 == n then In(n)
    else if raised && c == n then Nowhere
    else In(c)
  }

  /** The place of a branch when `ip` is to enter the set. */
  function PlaceIn(cfg: Config, ratio: Ratio, m: Table, ip: nat, x: nat): Place {
    if x in m then PlaceOf(cfg.boundaries, ratio(x), false)
    else if x == ip && cfg.keep then PlaceOf(cfg.boundaries, ratio(x), cfg.hotter)
    else Nowhere
  }

  ghost predicate Inhabited(cfg: Config, ratio: Ratio, m: Table, ip: nat, c: nat) {
    exists x: nat :: PlaceIn(cfg, ratio, m, ip, x) == In(c)
  }

  /** No candidate is in a colder class. */
  ghost predicate Coldest(cfg: Config, ratio: Ratio, m: Table, ip: nat, c: nat) {
    Inhabited(cfg, ratio, m, ip, c) && forall d: nat | Inhabited(cfg, ratio, m, ip, d) :: c <= d
  }

  ghost predicate Eligible(cfg: Config, ratio: Ratio, m: Table, ip: nat, x: nat) {
    match PlaceIn(cfg, ratio, m, ip, x)
    case DontCare => true
    case Nowhere => false
    case In(c) => Coldest(cfg, ratio, m, ip, c)
  }

  /** An eligible branch; if resident, the one with the oldest stamp among the eligible residents. */
  ghost predicate IsVictim(cfg: Config, ratio: Ratio, m: Table, ip: nat, v: nat) {
    && Eligible(cfg, ratio, m, ip, v)
    && (v in m ==> forall x: nat | x in m && Eligible(cfg, ratio, m, ip, x) :: m[v].lru <= m[x].lru)
  }

  lemma HotterClass(boundaries: seq<real>, low: real, high: real)
    requires low <= high
    ensures ClassOf(boundaries, low) <= ClassOf(boundaries, high)
  {
  }

  /** The class a branch competes in: the incoming one, raised, may count as hotter than it is. */
  function Standing(cfg: Config, ratio: Ratio, ip: nat, x: nat): nat {
    var c, n := ClassOf(cfg.boundaries, ratio(x)), |cfg.boundaries|;
    if x == ip && cfg.hotter && c < n && c + 1 == n then n else c
  }

  /** Coldest first: a victim that has a ratio stands no hotter than any resident that has one, and, unless
      the incoming branch is hot and raised, no hotter than the incoming branch. */
  lemma {:induction false} ColdestFirst(cfg: Config, ratio: Ratio, m: Table, ip: nat, v: nat, x: nat)
    requires ip !in m && IsVictim(cfg, ratio, m, ip, v) && ratio(v) >= 0.0 && ratio(x) >= 0.0
    requires x in m || (x == ip && cfg.keep && !(cfg.hotter && ClassOf(cfg.boundaries, ratio(ip)) == |cfg.boundaries|))
    ensures Standing(cfg, ratio, ip, v) <= Standing(cfg, ratio, ip, x)
  {
    hide ClassOf;
    assert PlaceIn(cfg, ratio, m, ip, x) == In(Standing(cfg, ratio, ip, x));
    assert Inhabited(cfg, ratio, m, ip, Standing(cfg, ratio, ip, x));
    assert PlaceIn(cfg, ratio, m, ip, v).In?;
  }

  /** A resident with a lower ratio than a resident victim can only survive it in the same class. */
  lemma {:induction false} ColderSurvivorShares(cfg: Config, ratio: Ratio, m: Table, ip: nat, v: nat, x: nat)
    requires ip !in m && IsVictim(cfg, ratio, m, ip, v) && v in m && x in m && 0.0 <= ratio(x) <= ratio(v)
    ensures ClassOf(cfg.boundaries, ratio(x)) == ClassOf(cfg.boundaries, ratio(v)) && m[v].lru <= m[x].lru
  {
    HotterClass(cfg.boundaries, ratio(x), ratio(v));
    ColdestFirst(cfg, ratio, m, ip, v, x);
    hide ClassOf;
    assert PlaceIn(cfg, ratio, m, ip, x) == PlaceIn(cfg, ratio, m, ip, v) == In(ClassOf(cfg.boundaries, ratio(v)));
    assert Eligible(cfg, ratio, m, ip, x);
  }

  /** The incoming branch is passed over only if it competes and, when raised, is not hot. */
  lemma HotIncomingEnters(cfg: Config, ratio: Ratio, m: Table, ip: nat, v: nat)
    requires ip !in m && IsVictim(cfg, ratio, m, ip, v)
    requires !cfg.keep || (cfg.hotter && ratio(ip) >= 0.0 && ClassOf(cfg.boundaries, ratio(ip)) == |cfg.boundaries|)
    ensures v != ip && v in m
  {
    hide ClassOf;
  }

  /** What a resident victim says of the other residents: branches without a ratio are more recent, no branch is of
      a colder class, and those of the same class are more recent. */
  lemma {:induction false} ResidentVictim(cfg: Config, ratio: Ratio, m: Table, ip: nat, v: nat, x: nat)
    requires ip !in m && IsVictim(cfg, ratio, m, ip, v) && v in m && x in m
    ensures ratio(x) < 0.0 ==> m[v].lru <= m[x].lru
    ensures ratio(v) >= 0.0 && ratio(x) >= 0.0 ==>
              && ClassOf(cfg.boundaries, ratio(v)) <= ClassOf(cfg.boundaries, ratio(x))
              && (ClassOf(cfg.boundaries, ratio(v)) == ClassOf(cfg.boundaries, ratio(x)) ==> m[v].lru <= m[x].lru)
  {
    hide ClassOf, Coldest;
    if ratio(x) < 0.0 {
      assert Eligible(cfg, ratio, m, ip, x);
    } else if ratio(v) >= 0.0 {
      ColdestFirst(cfg, ratio, m, ip, v, x);
      if ClassOf(cfg.boundaries, ratio(v)) == ClassOf(cfg.boundaries, ratio(x)) {
        assert PlaceIn(cfg, ratio, m, ip, x) == PlaceIn(cfg, ratio, m, ip, v);
        assert Eligible(cfg, ratio, m, ip, x);
      }
    }
  }

  /** A resident victim without a ratio is less recent than the coldest residents, if the incoming branch does not
      compete. */
  lemma {:induction false} NeglectedVictim(cfg: Config, ratio: Ratio, m: Table, ip: nat, v: nat, x: nat)
    requires ip !in m && !cfg.keep && IsVictim(cfg, ratio, m, ip, v) && v in m && x in m && ratio(x) >= 0.0
    requires forall y | y in m && ratio(y) >= 0.0 ::
               ClassOf(cfg.boundaries, ratio(x)) <= ClassOf(cfg.boundaries, ratio(y))
    ensures m[v].lru <= m[x].lru
  {
    hide ClassOf;
    var c := ClassOf(cfg.boundaries, ratio(x));
    assert PlaceIn(cfg, ratio, m, ip, x) == In(c);
    forall d: nat | Inhabited(cfg, ratio, m, ip, d) ensures c <= d {
      var y: nat :| PlaceIn(cfg, ratio, m, ip, y) == In(d);
    }
    assert Coldest(cfg, ratio, m, ip, c);
    assert Eligible(cfg, ratio, m, ip, x);
  }

  /** The incoming branch is refused only if it competes: without a ratio, or, when raised, below the hottest class,
      and then no resident is of a colder class, where a raised branch of the class before the hottest counts as
      hottest. */
  lemma {:induction false} IncomingVictim(cfg: Config, ratio: Ratio, m: Table, ip: nat, x: nat)
    requires ip !in m && IsVictim(cfg, ratio, m, ip, ip) && x in m
    ensures cfg.keep
    ensures ratio(ip) >= 0.0 ==>
              var c, n := ClassOf(cfg.boundaries, ratio(ip)), |cfg.boundaries|;
              && (cfg.hotter ==> c < n)
              && (ratio(x) >= 0.0 ==>
                    (if cfg.hotter && c + 1 == n then n else c) <= ClassOf(cfg.boundaries, ratio(x)))
  {
    hide ClassOf, IsVictim;
    var hot := ClassOf(cfg.boundaries, ratio(ip)) == |cfg.boundaries|;
    if !cfg.keep || (cfg.hotter && ratio(ip) >= 0.0 && hot) {
      HotIncomingEnters(cfg, ratio, m, ip, ip);
    } else if ratio(ip) >= 0.0 && ratio(x) >= 0.0 {
      ColdestFirst(cfg, ratio, m, ip, ip, x);
    }
  }

  // ---------------------------------------------------------------- stamps are recency

  /** The recency list of a set: stamps fall along it. */
  ghost predicate Listed(m: Table, q: seq<nat>) {
    Distinct(q) && (forall x :: x in m <==> x in q) && StackDistance.StampsFall(m, q, |q|)
  }

  /** Of the eligible residents the victim is the last in the recency list. */
  lemma {:induction false} VictimLeastRecent(cfg: Config, ratio: Ratio, m: Table, ip: nat, v: nat, q: seq<nat>)
    requires Listed(m, q) && IsVictim(cfg, ratio, m, ip, v) && v in m
    ensures forall x | x in m && Eligible(cfg, ratio, m, ip, x) :: x in q && v in q && IndexOf(q, x) <= IndexOf(q, v)
  {
    hide Eligible;
    forall x | x in m && Eligible(cfg, ratio, m, ip, x)
      ensures x in q && v in q && IndexOf(q, x) <= IndexOf(q, v)
    {
      assert q[IndexOf(q, x)] == x && q[IndexOf(q, v)] == v;
    }
  }

  lemma {:induction false} UpdateListed(m: Table, q: seq<nat>, ip: nat)
    requires Listed(m, q) && ip in m
    ensures Listed(Stamped(m, ip), Touch(q, ip))
  {
    hide StackDistance.StampsFall, Touch, IndexOf, Stamped;
    TouchDistinct(q, ip);
    TouchAt(q, ip);
    assert m[ip := m[ip]] == m;
    IndexIn(q, ip);
    StackDistance.RestampFalls(m, q, |q|, IndexOf(q, ip), m[ip], Touch(q, ip));
    forall x ensures x in Stamped(m, ip) <==> x in Touch(q, ip) {
      assert x in Elements(Touch(q, ip)) <==> x in Elements(q);
      assert x in Stamped(m, ip).Keys <==> x in m.Keys;
    }
  }

  lemma {:induction false} RemoveListed(m: Table, q: seq<nat>, v: nat)
    requires Listed(m, q) && v in m
    ensures Listed(m - {v}, Without(q, v))
  {
    hide Without, IndexOf, StackDistance.StampsFall;
    ListedParts(m, q);
    WithoutKeeps(q, v);
    var k := IndexOf(q, v);
    IndexIn(q, v);
    FallWithout(m, q, k, Without(q, v));
  }

  lemma ListedParts(m: Table, q: seq<nat>)
    requires Listed(m, q)
    ensures Distinct(q) && StackDistance.StampsFall(m, q, |q|) && forall x :: x in m <==> x in q
  {
  }

  lemma {:induction false} FallWithout(m: Table, q: seq<nat>, k: nat, r: seq<nat>)
    requires Distinct(q) && StackDistance.StampsFall(m, q, |q|) && k < |q| && |r| == |q| - 1
    requires forall j: nat | j < |r| :: r[j] == q[Past(k, j)]
    ensures StackDistance.StampsFall(m - {q[k]}, r, |r|)
  {
    forall a: nat | a < |r| ensures r[a] in m && r[a] != q[k] {
      assert r[a] == q[Past(k, a)];
    }
    forall a: nat, b: nat | a < b < |r| ensures m[r[a]].lru > m[r[b]].lru {
      assert r[a] == q[Past(k, a)] && r[b] == q[Past(k, b)];
    }
  }

  lemma {:induction false} EnterListed(m: Table, q: seq<nat>, ip: nat, e: Entry)
    requires Listed(m, q) && ip !in m
    ensures Listed(Stamped(m[ip := e], ip), [ip] + q)
  {
    hide StackDistance.StampsFall, Stamped;
    var t := [ip] + q;
    assert q[..|q|] == q && t[..|q| + 1] == t;
    StackDistance.PlacedRanked(m, q, |q|, ip, e, t);
  }

  // ---------------------------------------------------------------- one insertion

  /** insert() once the victim of a full set is chosen; nothing changes if the branch itself is. */
  ghost function Inserted(m: Table, ways: nat, ip: nat, target: nat, branchType: nat, v: nat): Table {
    if |m| >= ways && v == ip then m else
    var room := if |m| >= ways then m - {v} else m;
    Stamped(room[ip := Entry(target, branchType, true, 0)], ip)
  }

  function InsertedList(q: seq<nat>, full: bool, ip: nat, v: nat): seq<nat> {
    if full && v == ip then q
    else if full && v in q then [ip] + Without(q, v)
    else [ip] + q
  }

  /** A set of nonzero branches within its ways stays one, in recency order, and the victim is nonzero. */
  lemma {:induction false} InsertKeeps(cfg: Config, ratio: Ratio, m: Table, q: seq<nat>, ways: nat,
                                       ip: nat, target: nat, branchType: nat, v: nat)
    requires Listed(m, q) && |m| <= ways && 0 !in m && ways > 0 && ip !in m && ip != 0
    requires |m| >= ways ==> IsVictim(cfg, ratio, m, ip, v)
    ensures |m| >= ways ==> v != 0 && (v == ip || v in m)
    ensures var r := Inserted(m, ways, ip, target, branchType, v);
            |r| <= ways && 0 !in r && Listed(r, InsertedList(q, |m| >= ways, ip, v))
  {
    hide Listed, Stamped, StampsDistinct;
    var full := |m| >= ways;
    var e := Entry(target, branchType, true, 0);
    if !(full && v == ip) {
      var room := if full then m - {v} else m;
      if full {
        RemovedSize(m, v);
        RemoveListed(m, q, v);
        ListedParts(m, q);
      }
      EnterListed(room, if full then Without(q, v) else q, ip, e);
      AddedSize(room, ip, e);
      SameKeysSize(room[ip := e], Stamped(room[ip := e], ip));
      assert 0 !in Stamped(room[ip := e], ip).Keys;
    }
  }

  /** A full set of branches always has an eligible one. */
  lemma {:induction false} VictimExists(cfg: Config, ratio: Ratio, m: Table, ip: nat)
    requires m != map[]
    ensures exists v: nat :: Eligible(cfg, ratio, m, ip, v)
  {
    var x :| x in m;
    match PlaceIn(cfg, ratio, m, ip, x)
    case DontCare =>
      assert Eligible(cfg, ratio, m, ip, x);
    case In(c) =>
      assert Inhabited(cfg, ratio, m, ip, c);
      var d := ColdestBelow(cfg, ratio, m, ip, c);
      var y: nat :| PlaceIn(cfg, ratio, m, ip, y) == In(d);
      assert Eligible(cfg, ratio, m, ip, y);
  }

  ghost function ColdestBelow(cfg: Config, ratio: Ratio, m: Table, ip: nat, c: nat): (d: nat)
    requires Inhabited(cfg, ratio, m, ip, c)
    ensures Coldest(cfg, ratio, m, ip, d)
  {
    if d: nat :| d < c && Inhabited(cfg, ratio, m, ip, d) then ColdestBelow(cfg, ratio, m, ip, d) else c
  }
}
