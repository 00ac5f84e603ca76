/**
 * Placement of the interfering thread: find_package and find_other_pu walk hwloc's tree of
 * hardware objects. An object is identified by its path, the child numbers on the way down
 * from the root, so the parent pointer drops the last number.
 */
module Placement {
  import opened Wrappers

  datatype Kind = Machine | Package | NumaNode | Cache | Core | Pu

  datatype Obj = Obj(kind: Kind, children: seq<Obj>)

  type Path = seq<nat>

  datatype Scenario = NoInterference | RemotePackage | RemoteCore | LocalCore

  ghost predicate IsPath(t: Obj, p: Path) {
    p == [] || (p[0] < |t.children| && IsPath(t.children[p[0]], p[1..]))
  }

  function At(t: Obj, p: Path): Obj
    requires IsPath(t, p)
  {
    if p == [] then t else At(t.children[p[0]], p[1..])
  }

  function Parent(p: Path): Path
    requires p != []
  {
    p[..|p| - 1]
  }

  // ----- hwloc's logical order of processing units -----

  /** The PUs below t, in the order of a depth-first walk. */
  function Pus(t: Obj): (ps: seq<Path>)
    decreases t, |t.children| + 1
  {
    if t.kind.Pu? then [[]] else PusFrom(t, 0)
  }

  function PusFrom(t: Obj, i: nat): (ps: seq<Path>)
    requires i <= |t.children|
    decreases t, |t.children| - i
  {
    if i == |t.children| then [] else Prefixed(i, Pus(t.children[i])) + PusFrom(t, i + 1)
  }

  function Prefixed(i: nat, ps: seq<Path>): (r: seq<Path>)
    ensures |r| == |ps|
    ensures forall k | 0 <= k < |ps| :: r[k] == [i] + ps[k]
  {
    seq(|ps|, k requires 0 <= k < |ps| => [i] + ps[k])
  }

  ghost predicate LexLess(p: Path, q: Path) {
    q != [] && (p == [] || p[0] < q[0] || (p[0] == q[0] && LexLess(p[1..], q[1..])))
  }

  ghost predicate Sorted(ps: seq<Path>) {
    forall j, k | 0 <= j < k < |ps| :: LexLess(ps[j], ps[k])
  }

  /** The root is the machine, so every PU has a parent. */
  predicate RootedTree(t: Obj) {
    !t.kind.Pu?
  }

  /** A tree as hwloc builds it: PUs are leaves at one depth below the root, and at most one
      package lies on the way to each. */
  ghost predicate WellFormed(t: Obj) {
    && RootedTree(t)
    && (forall p, q | p in Pus(t) && q in Pus(t) :: |p| == |q|)
    && (forall p, m, n | p in Pus(t) && 0 <= m <= n <= |p| && IsPackage(t, p[..m]) && IsPackage(t, p[..n]) :: m == n)
  }

  ghost predicate IsPackage(t: Obj, p: Path) {
    IsPath(t, p) && At(t, p).kind.Package?
  }

  ghost predicate PusAreLeaves(t: Obj) {
    forall p | IsPath(t, p) && At(t, p).kind.Pu? :: At(t, p).children == []
  }

  lemma {:induction false} PathOfPu(t: Obj, p: Path)
    requires p in Pus(t)
    ensures IsPath(t, p) && At(t, p).kind.Pu?
    ensures p == [] <==> t.kind.Pu?
    decreases t, |t.children| + 1
  {
    if !t.kind.Pu? {
      PathOfPuFrom(t, 0, p);
    }
  }

  lemma {:induction false} PathOfPuFrom(t: Obj, i: nat, p: Path)
    requires i <= |t.children| && p in PusFrom(t, i)
    ensures p != [] && i <= p[0] && IsPath(t, p) && At(t, p).kind.Pu?
    decreases t, |t.children| - i
  {
    var first := Prefixed(i, Pus(t.children[i]));
    if p in first {
      var k :| 0 <= k < |first| && first[k] == p;
      var q := Pus(t.children[i])[k];
      PathOfPu(t.children[i], q);
      assert p[1..] == q;
    } else {
      PathOfPuFrom(t, i + 1, p);
    }
  }

  lemma {:induction false} PuOfPath(t: Obj, p: Path)
    requires IsPath(t, p) && At(t, p).kind.Pu? && PusAreLeaves(t)
    ensures p in Pus(t)
    decreases t, |t.children| + 1
  {
    if t.kind.Pu? {
      assert At(t, []) == t;
      assert p == [];
    } else {
      PuOfPathFrom(t, 0, p);
    }
  }

  lemma {:induction false} PuOfPathFrom(t: Obj, i: nat, p: Path)
    requires IsPath(t, p) && p != [] && At(t, p).kind.Pu? && PusAreLeaves(t) && i <= p[0]
    ensures p in PusFrom(t, i)
    decreases t, |t.children| - i
  {
    if i < p[0] {
      PuOfPathFrom(t, i + 1, p);
    } else {
      var c := t.children[i];
      forall q | IsPath(c, q) && At(c, q).kind.Pu? ensures At(c, q).children == [] {
        assert ([i] + q)[1..] == q;
        assert IsPath(t, [i] + q);
        assert At(t, [i] + q) == At(c, q);
      }
      PuOfPath(c, p[1..]);
      var k :| 0 <= k < |Pus(c)| && Pus(c)[k] == p[1..];
      assert Prefixed(i, Pus(c))[k] == p;
    }
  }

  lemma {:induction false} PusSorted(t: Obj)
    ensures Sorted(Pus(t))
    decreases t, |t.children| + 1
  {
    if !t.kind.Pu? {
      PusFromSorted(t, 0);
    }
  }

  lemma {:induction false} PusFromSorted(t: Obj, i: nat)
    requires i <= |t.children|
    ensures Sorted(PusFrom(t, i))
    decreases t, |t.children| - i
  {
    if i < |t.children| {
      PusSorted(t.children[i]);
      PusFromSorted(t, i + 1);
      var below, rest := Pus(t.children[i]), PusFrom(t, i + 1);
      var first := Prefixed(i, below);
      forall j, k | 0 <= j < k < |first + rest| ensures LexLess((first + rest)[j], (first + rest)[k]) {
        if k < |first| {
          assert LexLess(below[j], below[k]);
          assert first[j][1..] == below[j] && first[k][1..] == below[k];
        } else {
          assert rest[k - |first|] in rest;
          PathOfPuFrom(t, i + 1, rest[k - |first|]);
          if j >= |first| {
            assert LexLess(rest[j - |first|], rest[k - |first|]);
          }
        }
      }
    }
  }

  /** The logical order lists each PU once, in lexicographic order of its path. */
  lemma LogicalOrder(t: Obj)
    requires PusAreLeaves(t)
    ensures Sorted(Pus(t))
    ensures forall p :: p in Pus(t) <==> IsPath(t, p) && At(t, p).kind.Pu?
  {
    PusSorted(t);
    forall p ensures p in Pus(t) <==> IsPath(t, p) && At(t, p).kind.Pu? {
      if p in Pus(t) {
        PathOfPu(t, p);
      } else if IsPath(t, p) && At(t, p).kind.Pu? {
        PuOfPath(t, p);
      }
    }
  }

  /** A subtree is contiguous: what lies between two of its members belongs to it. */
  lemma {:induction false} SubtreeContiguous(c: Path, p: Path, q: Path, r: Path)
    requires c <= p && c <= r && LexLess(p, q) && LexLess(q, r)
    ensures c <= q
  {
    if c != [] {
      assert p[0] == c[0] == r[0];
      assert q[0] == c[0];
      assert c[1..] <= p[1..] && c[1..] <= r[1..];
      SubtreeContiguous(c[1..], p[1..], q[1..], r[1..]);
      assert q == [q[0]] + q[1..];
      assert c == [c[0]] + c[1..];
    }
  }

  lemma {:induction false} PrefixIsPath(t: Obj, p: Path, n: nat)
    requires IsPath(t, p) && n <= |p|
    ensures IsPath(t, p[..n])
  {
    if n > 0 {
      PrefixIsPath(t.children[p[0]], p[1..], n - 1);
      assert p[..n][1..] == p[1..][..n - 1];
    }
  }

  // ----- find_package -----

  /** r is the closest strict ancestor of p that is a package. */
  ghost predicate ClosestPackage(t: Obj, p: Path, r: Option<Path>) {
    match r
    case Some(a) => a < p && IsPackage(t, a) && forall n | |a| < n < |p| :: !IsPackage(t, p[..n])
    case None => forall n | 0 <= n < |p| :: !IsPackage(t, p[..n])
  }

  method FindPackage(t: Obj, obj: Path) returns (r: Option<Path>)
    requires IsPath(t, obj)
    ensures ClosestPackage(t, obj, r)
    ensures r == PackageOf(t, obj)
  {
    var o := obj;
    r := None;
    while o != []
      invariant |o| <= |obj| && o == obj[..|o|] && IsPath(t, o)
      invariant forall n | |o| <= n < |obj| :: !IsPackage(t, obj[..n])
    {
      PrefixIsPath(t, o, |o| - 1);
      o := Parent(o);
      assert o == obj[..|o|];
      if At(t, o).kind == Package {
        r := Some(o);
        break;
      }
    }
    PackageUnique(t, obj, r);
  }

  /** Searches the ancestors of p that are no longer than n. */
  lemma {:induction false} PackageExists(t: Obj, p: Path, n: nat) returns (r: Option<Path>)
    requires IsPath(t, p) && n <= |p|
    requires forall k | n <= k < |p| :: !IsPackage(t, p[..k])
    ensures ClosestPackage(t, p, r)
  {
    if n == 0 {
      r := None;
    } else if IsPackage(t, p[..n - 1]) {
      r := Some(p[..n - 1]);
    } else {
      r := PackageExists(t, p, n - 1);
    }
  }

  ghost function PackageOf(t: Obj, p: Path): (r: Option<Path>)
    requires IsPath(t, p)
    ensures ClosestPackage(t, p, r)
  {
    assert exists r :: ClosestPackage(t, p, r) by {
      var r := PackageExists(t, p, |p|);
    }
    var r :| ClosestPackage(t, p, r);
    r
  }

  lemma PackageUnique(t: Obj, p: Path, r: Option<Path>)
    requires IsPath(t, p) && ClosestPackage(t, p, r)
    ensures r == PackageOf(t, p)
  {
    var s := PackageOf(t, p);
    if r.Some? {
      assert r.value == p[..|r.value|];
    }
    if s.Some? {
      assert s.value == p[..|s.value|];
    }
  }

  // ----- find_other_pu -----

  ghost function CoreOf(t: Obj, i: nat): Path
    requires RootedTree(t) && i < |Pus(t)|
  {
    PuHasParent(t, i);
    Parent(Pus(t)[i])
  }

  lemma PuHasParent(t: Obj, i: nat)
    requires RootedTree(t) && i < |Pus(t)|
    ensures Pus(t)[i] != [] && IsPath(t, Parent(Pus(t)[i])) && IsPath(t, Pus(t)[i])
  {
    var p := Pus(t)[i];
    PathOfPu(t, p);
    PrefixIsPath(t, p, |p| - 1);
  }

  /** The package that find_package reports for the core of the i-th PU. */
  ghost function PuPackage(t: Obj, i: nat): Option<Path>
    requires RootedTree(t) && i < |Pus(t)|
  {
    PuHasParent(t, i);
    PackageOf(t, CoreOf(t, i))
  }

  ghost predicate Related(t: Obj, i: nat, j: nat, scenario: Scenario)
    requires RootedTree(t) && i < |Pus(t)| && j < |Pus(t)|
  {
    match scenario
    case NoInterference => false
    case RemotePackage => PuPackage(t, i) != PuPackage(t, j)
    case RemoteCore => PuPackage(t, i) == PuPackage(t, j) && CoreOf(t, i) != CoreOf(t, j)
    case LocalCore => CoreOf(t, i) == CoreOf(t, j)
  }

  /** The PUs from the i-th to the j-th all belong to a package. */
  ghost predicate Packaged(t: Obj, i: nat, j: nat)
    requires RootedTree(t) && i <= j < |Pus(t)|
  {
    forall k | i <= k <= j :: PuPackage(t, k).Some?
  }

  /** j is the first PU after i in the asked relation, and no package-less PU comes before it. */
  ghost predicate IsHit(t: Obj, i: nat, scenario: Scenario, j: nat)
    requires RootedTree(t) && i < |Pus(t)|
  {
    && i < j < |Pus(t)|
    && Packaged(t, i, j)
    && Related(t, i, j, scenario)
    && (forall k | i < k < j :: !Related(t, i, k, scenario))
  }

  /** The search from i has passed over everything before next. */
  ghost predicate Scanned(t: Obj, i: nat, scenario: Scenario, next: nat)
    requires RootedTree(t) && i < |Pus(t)|
  {
    && i < next <= |Pus(t)|
    && Packaged(t, i, next - 1)
    && (forall k | i < k < next :: !Related(t, i, k, scenario))
  }

  lemma ScanOn(t: Obj, i: nat, scenario: Scenario, next: nat)
    requires RootedTree(t) && i < |Pus(t)| && Scanned(t, i, scenario, next)
    requires next < |Pus(t)| && PuPackage(t, next).Some?
    ensures if Related(t, i, next, scenario) then IsHit(t, i, scenario, next) else Scanned(t, i, scenario, next + 1)
  {
  }

  lemma ScanOver(t: Obj, i: nat, scenario: Scenario, next: nat)
    requires RootedTree(t) && i < |Pus(t)| && Scanned(t, i, scenario, next)
    requires next == |Pus(t)| || PuPackage(t, next).None? || scenario.NoInterference?
    ensures forall j :: !IsHit(t, i, scenario, j)
  {
  }

  /** pu is a logical index, and hwloc_get_next_obj_by_type steps to the next one. */
  method FindOtherPu(t: Obj, pu: nat, scenario: Scenario) returns (r: Option<nat>)
    requires RootedTree(t) && pu < |Pus(t)|
    ensures r.Some? ==> IsHit(t, pu, scenario, r.value)
    ensures r.None? ==> forall j :: !IsHit(t, pu, scenario, j)
  {
    var pus := Pus(t);
    PuHasParent(t, pu);
    var core := Parent(pus[pu]);
    var package := FindPackage(t, core);
    if package.None? {
      assert PuPackage(t, pu).None?;
      return None;
    }
    var next := pu + 1;
    while next < |pus|
      invariant Scanned(t, pu, scenario, next)
    {
      PuHasParent(t, next);
      var otherCore := Parent(pus[next]);
      var otherPackage := FindPackage(t, otherCore);
      if otherPackage.None? {
        ScanOver(t, pu, scenario, next);
        return None;
      }
      ScanOn(t, pu, scenario, next);
      match scenario {
        case NoInterference =>
          ScanOver(t, pu, scenario, next);
          return None;
        case RemotePackage =>
          if package != otherPackage {
            return Some(next);
          }
        case RemoteCore =>
          if package == otherPackage && core != otherCore {
            return Some(next);
          }
        case LocalCore =>
          if core == otherCore {
            return Some(next);
          }
      }
      next := next + 1;
    }
    ScanOver(t, pu, scenario, next);
    return None;
  }

  // ----- what the three scenarios mean -----

  /** Any two PUs that have a package stand in exactly one of the three relations. */
  lemma Trichotomy(t: Obj, i: nat, j: nat)
    requires RootedTree(t) && i < |Pus(t)| && j < |Pus(t)|
    ensures Related(t, i, j, LocalCore) || Related(t, i, j, RemoteCore) || Related(t, i, j, RemotePackage)
    ensures !(Related(t, i, j, LocalCore) && Related(t, i, j, RemoteCore))
    ensures !(Related(t, i, j, LocalCore) && Related(t, i, j, RemotePackage))
    ensures !(Related(t, i, j, RemoteCore) && Related(t, i, j, RemotePackage))
  {
  }

  lemma SameDepth(t: Obj, i: nat, j: nat)
    requires WellFormed(t) && i < |Pus(t)| && j < |Pus(t)|
    ensures |Pus(t)[i]| == |Pus(t)[j]| > 0
  {
    PuHasParent(t, i);
    assert Pus(t)[i] in Pus(t) && Pus(t)[j] in Pus(t);
  }

  /** All PUs between two PUs of one core belong to that core. */
  lemma CoreContiguous(t: Obj, i: nat, k: nat, j: nat)
    requires WellFormed(t) && i < k < j < |Pus(t)| && CoreOf(t, i) == CoreOf(t, j)
    ensures CoreOf(t, k) == CoreOf(t, i)
  {
    PusSorted(t);
    SameDepth(t, i, k);
    SameDepth(t, i, j);
    var pus := Pus(t);
    assert LexLess(pus[i], pus[k]) && LexLess(pus[k], pus[j]);
    SubtreeContiguous(CoreOf(t, i), pus[i], pus[k], pus[j]);
  }

  /** The only package above a PU's core is the one find_package reports. */
  lemma OnlyPackage(t: Obj, k: nat, package: Path)
    requires WellFormed(t) && k < |Pus(t)| && package < CoreOf(t, k) && IsPackage(t, package)
    ensures PuPackage(t, k) == Some(package)
  {
    PuHasParent(t, k);
    var pu, core := Pus(t)[k], CoreOf(t, k);
    assert pu in Pus(t);
    assert package == pu[..|package|];
    forall n | |package| < n < |core| ensures !IsPackage(t, core[..n]) {
      assert core[..n] == pu[..n];
    }
    PackageUnique(t, core, Some(package));
  }

  /** All PUs between two PUs of one package belong to that package. */
  lemma PackageContiguous(t: Obj, i: nat, k: nat, j: nat)
    requires WellFormed(t) && i < k < j < |Pus(t)|
    requires PuPackage(t, i).Some? && PuPackage(t, i) == PuPackage(t, j)
    ensures PuPackage(t, k) == PuPackage(t, i)
  {
    var package := PuPackage(t, i).value;
    SameDepth(t, i, k);
    assert package <= Pus(t)[k] by {
      PusSorted(t);
      PrefixTrans(package, Pus(t)[i]);
      PrefixTrans(package, Pus(t)[j]);
      SubtreeContiguous(package, Pus(t)[i], Pus(t)[k], Pus(t)[j]);
    }
    assert |package| < |CoreOf(t, i)| == |CoreOf(t, k)|;
    assert package == Pus(t)[k][..|package|] == CoreOf(t, k)[..|package|];
    OnlyPackage(t, k, package);
  }

  lemma PrefixTrans(a: Path, p: Path)
    requires p != [] && a <= Parent(p)
    ensures a <= p
  {
  }

  /** The SMT sibling is the immediate successor. */
  lemma SmtIsSuccessor(t: Obj, i: nat, smt: nat)
    requires WellFormed(t) && i < |Pus(t)| && IsHit(t, i, LocalCore, smt)
    ensures smt == i + 1
  {
    if i + 1 < smt {
      CoreContiguous(t, i, i + 1, smt);
      assert Related(t, i, i + 1, LocalCore);
    }
  }

  lemma MulticoreBeforeNuma(t: Obj, i: nat, multicore: nat, numa: nat)
    requires WellFormed(t) && i < |Pus(t)|
    requires IsHit(t, i, RemoteCore, multicore) && IsHit(t, i, RemotePackage, numa)
    ensures multicore < numa
  {
    assert PuPackage(t, i).Some?;
    if numa < multicore {
      PackageContiguous(t, i, numa, multicore);
    }
  }

  lemma SmtBeforeOthers(t: Obj, i: nat, smt: nat, scenario: Scenario, other: nat)
    requires WellFormed(t) && i < |Pus(t)| && !scenario.LocalCore?
    requires IsHit(t, i, LocalCore, smt) && IsHit(t, i, scenario, other)
    ensures smt < other
  {
    SmtIsSuccessor(t, i, smt);
    OneRelation(t, i, smt, scenario);
  }

  lemma OneRelation(t: Obj, i: nat, j: nat, scenario: Scenario)
    requires RootedTree(t) && i < |Pus(t)| && j < |Pus(t)| && !scenario.LocalCore?
    ensures !(Related(t, i, j, LocalCore) && Related(t, i, j, scenario))
  {
  }

  /** When the scenarios succeed from one PU, the SMT sibling is its immediate successor, then comes
      the other core, then the other package. */
  lemma PlacementOrder(t: Obj, i: nat, smt: nat, multicore: nat, numa: nat)
    requires WellFormed(t) && i < |Pus(t)|
    requires IsHit(t, i, LocalCore, smt) && IsHit(t, i, RemoteCore, multicore) && IsHit(t, i, RemotePackage, numa)
    ensures i + 1 == smt < multicore < numa
  {
    SmtIsSuccessor(t, i, smt);
    SmtBeforeOthers(t, i, smt, RemoteCore, multicore);
    MulticoreBeforeNuma(t, i, multicore, numa);
  }

  // ----- completeness of the search -----

  ghost predicate FullyPackaged(t: Obj)
    requires RootedTree(t)
  {
    forall i | 0 <= i < |Pus(t)| :: PuPackage(t, i).Some?
  }

  /** The search succeeds iff some later PU is related and everything up to it has a package. */
  lemma {:induction false} HitIff(t: Obj, i: nat, scenario: Scenario)
    requires RootedTree(t) && i < |Pus(t)|
    ensures (exists j :: IsHit(t, i, scenario, j))
       <==> (exists j | i < j < |Pus(t)| :: Related(t, i, j, scenario) && Packaged(t, i, j))
  {
    if j :| i < j < |Pus(t)| && Related(t, i, j, scenario) && Packaged(t, i, j) {
      var hit := FirstRelated(t, i, scenario, j);
    }
  }

  lemma {:induction false} FirstRelated(t: Obj, i: nat, scenario: Scenario, j: nat) returns (hit: nat)
    requires RootedTree(t) && i < j < |Pus(t)| && Related(t, i, j, scenario) && Packaged(t, i, j)
    ensures IsHit(t, i, scenario, hit)
    decreases j
  {
    if k :| i < k < j && Related(t, i, k, scenario) {
      hit := FirstRelated(t, i, scenario, k);
    } else {
      hit := j;
    }
  }

  /** From the first PU of a fully packaged machine the search misses nothing. */
  lemma CompleteFromFirst(t: Obj, scenario: Scenario)
    requires RootedTree(t) && FullyPackaged(t) && |Pus(t)| > 0
    ensures (forall j :: !IsHit(t, 0, scenario, j))
       <==> (forall j | 0 < j < |Pus(t)| :: !Related(t, 0, j, scenario))
  {
    HitIff(t, 0, scenario);
    forall j | 0 < j < |Pus(t)| && Related(t, 0, j, scenario)
      ensures exists h :: IsHit(t, 0, scenario, h)
    {
      assert Packaged(t, 0, j);
    }
  }

  /** From another PU the search never looks back: on a fully packaged machine it reports nothing
      although a partner exists iff every partner comes earlier in logical order. */
  lemma MissedIffAllEarlier(t: Obj, i: nat, scenario: Scenario)
    requires RootedTree(t) && FullyPackaged(t) && i < |Pus(t)|
    ensures (forall j :: !IsHit(t, i, scenario, j))
       <==> (forall j | 0 <= j < |Pus(t)| && j != i && Related(t, i, j, scenario) :: j < i)
  {
    HitIff(t, i, scenario);
    forall j | i < j < |Pus(t)| && Related(t, i, j, scenario)
      ensures exists h :: IsHit(t, i, scenario, h)
    {
      assert Packaged(t, i, j);
    }
  }

  // ----- two machines on which the search misses a partner -----

  const PU := Obj(Kind.Pu, [])
  const CORE := Obj(Core, [PU])

  /** One package with one core of two PUs. */
  const ONE_CORE := Obj(Machine, [Obj(Package, [Obj(Core, [PU, PU])])])

  /** Three cores of one PU; the middle one belongs to no package. */
  const GAP := Obj(Machine, [Obj(Package, [CORE]), Obj(NumaNode, [CORE]), Obj(Package, [CORE])])

  lemma PusOfOne(t: Obj)
    requires !t.kind.Pu? && |t.children| == 1
    ensures Pus(t) == Prefixed(0, Pus(t.children[0]))
  {
    assert PusFrom(t, 1) == [];
    assert PusFrom(t, 0) == Prefixed(0, Pus(t.children[0])) + PusFrom(t, 1);
  }

  lemma PusOfTwo(t: Obj)
    requires !t.kind.Pu? && |t.children| == 2
    ensures Pus(t) == Prefixed(0, Pus(t.children[0])) + Prefixed(1, Pus(t.children[1]))
  {
    assert PusFrom(t, 2) == [];
    assert PusFrom(t, 1) == Prefixed(1, Pus(t.children[1])) + PusFrom(t, 2);
    assert PusFrom(t, 0) == Prefixed(0, Pus(t.children[0])) + PusFrom(t, 1);
  }

  lemma PusOfThree(t: Obj)
    requires !t.kind.Pu? && |t.children| == 3
    ensures Pus(t) == Prefixed(0, Pus(t.children[0])) + Prefixed(1, Pus(t.children[1]))
                    + Prefixed(2, Pus(t.children[2]))
  {
    assert PusFrom(t, 3) == [];
    assert PusFrom(t, 2) == Prefixed(2, Pus(t.children[2])) + PusFrom(t, 3);
    assert PusFrom(t, 1) == Prefixed(1, Pus(t.children[1])) + PusFrom(t, 2);
    assert PusFrom(t, 0) == Prefixed(0, Pus(t.children[0])) + PusFrom(t, 1);
  }

  lemma PrefixedOne(i: nat, p: Path)
    ensures Prefixed(i, [p]) == [[i] + p]
  {
  }

  lemma PusOfLeaf(t: Obj, i: nat)
    requires t.kind.Pu?
    ensures Prefixed(i, Pus(t)) == [[i]]
  {
    PrefixedOne(i, []);
    assert [i] + [] == [i];
  }

  lemma PusOfOneCore()
    ensures Pus(ONE_CORE) == [[0, 0, 0], [0, 0, 1]]
  {
    var package := ONE_CORE.children[0];
    var core := package.children[0];
    PusOfTwo(core);
    PusOfLeaf(core.children[0], 0);
    PusOfLeaf(core.children[1], 1);
    PusOfOne(package);
    assert [0] + [0] == [0, 0] && [0] + [1] == [0, 1];
    assert Prefixed(0, Pus(core)) == [[0, 0], [0, 1]];
    PusOfOne(ONE_CORE);
    assert [0] + [0, 0] == [0, 0, 0] && [0] + [0, 1] == [0, 0, 1];
    assert Prefixed(0, Pus(package)) == [[0, 0, 0], [0, 0, 1]];
  }

  /** The PU of a core of one PU that is the only child of t. */
  lemma PusOfCoreBelow(t: Obj, i: nat)
    requires !t.kind.Pu? && t.children == [CORE]
    ensures Prefixed(i, Pus(t)) == [[i, 0, 0]]
  {
    PusOfOne(CORE);
    PusOfLeaf(PU, 0);
    assert Pus(CORE) == [[0]];
    PusOfOne(t);
    PrefixedOne(0, [0]);
    assert [0] + [0] == [0, 0];
    assert Pus(t) == [[0, 0]];
    PrefixedOne(i, [0, 0]);
    assert [i] + [0, 0] == [i, 0, 0];
  }

  lemma PusOfGap()
    ensures Pus(GAP) == [[0, 0, 0], [1, 0, 0], [2, 0, 0]]
  {
    PusOfThree(GAP);
    PusOfCoreBelow(GAP.children[0], 0);
    PusOfCoreBelow(GAP.children[1], 1);
    PusOfCoreBelow(GAP.children[2], 2);
  }

  /** The package of the core below child i of a machine whose children hold one core each. */
  lemma PackageOfChild(t: Obj, i: nat)
    requires i < |t.children| && !t.kind.Package?
    requires |t.children[i].children| > 0 && !t.children[i].children[0].kind.Package?
    ensures IsPath(t, [i, 0])
    ensures PackageOf(t, [i, 0]) == if t.children[i].kind.Package? then Some([i]) else None
  {
    assert [i, 0][1..] == [0] && [0][1..] == [] && [i][1..] == [];
    var c := t.children[i];
    assert IsPath(c.children[0], []) && IsPath(c, [0]) && IsPath(c, []) && IsPath(t, [i]);
    assert At(c, []) == c && At(t, [i]) == c && At(t, []) == t;
    assert [i, 0][..1] == [i] && [i, 0][..0] == [];
    PackageUnique(t, [i, 0], if t.children[i].kind.Package? then Some([i]) else None);
  }

  /** The second PU of a core has its SMT partner behind it, and the search reports none. */
  lemma PartnerBehindIsMissed()
    ensures RootedTree(ONE_CORE) && |Pus(ONE_CORE)| == 2 && FullyPackaged(ONE_CORE)
    ensures Related(ONE_CORE, 1, 0, LocalCore) && forall j :: !IsHit(ONE_CORE, 1, LocalCore, j)
  {
    PusOfOneCore();
    PackageOfChild(ONE_CORE, 0);
    assert Parent([0, 0, 0]) == [0, 0] == Parent([0, 0, 1]);
  }

  /** Two packages, and the search reports no PU on another package. */
  lemma PartnerBehindGapIsMissed()
    ensures RootedTree(GAP) && |Pus(GAP)| == 3
    ensures PuPackage(GAP, 0).Some? && PuPackage(GAP, 2).Some? && Related(GAP, 0, 2, RemotePackage)
    ensures forall j :: !IsHit(GAP, 0, RemotePackage, j)
  {
    PusOfGap();
    PackageOfChild(GAP, 0);
    PackageOfChild(GAP, 1);
    PackageOfChild(GAP, 2);
    assert Parent([0, 0, 0]) == [0, 0] && Parent([1, 0, 0]) == [1, 0] && Parent([2, 0, 0]) == [2, 0];
    assert PuPackage(GAP, 1).None?;
  }
}
