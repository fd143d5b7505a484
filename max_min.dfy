/**
 The single-pass extrema finder of Max_Min.py (`find_all_extrema_points`),
 written as the loop it is and proved equal to the declarative lists of
 module ExtremaSpec.
 */
module MaxMin {
  import opened ExtremaSpec

  /**
   A running extremum: a finite Z, or one of the infinite sentinels the
   scan starts from (`float('inf')` for the minimum, `float('-inf')` for
   the maximum).
   */
  datatype ExtZ = NegInf | Fin(z: int) | PosInf

  /** `z < bound`, with every finite Z below +inf and none below -inf. */
  predicate Below(z: int, bound: ExtZ) {
    match bound
    case NegInf => false
    case Fin(b) => z < b
    case PosInf => true
  }

  /** `z > bound`, with every finite Z above -inf and none above +inf. */
  predicate Above(z: int, bound: ExtZ) {
    match bound
    case NegInf => true
    case Fin(b) => z > b
    case PosInf => false
  }

  /**
   The inner neighbour loop: both flags start true, each neighbour at or
   below `z` clears the local-minimum flag and each neighbour at or above
   `z` clears the local-maximum flag, and the scan stops as soon as both
   flags are clear. Stopping early gives the same flags as visiting every
   neighbour.
   */
  method NeighbourFlags(zs: seq<int>, ns: seq<nat>, z: int) returns (isLocalMin: bool, isLocalMax: bool)
    requires forall k :: 0 <= k < |ns| ==> ns[k] < |zs|
    ensures isLocalMin == BelowAll(zs, ns, z)
    ensures isLocalMax == AboveAll(zs, ns, z)
    ensures (isLocalMin, isLocalMax) == ScanFlags(zs, ns, z, |ns|)
  {
    isLocalMin, isLocalMax := true, true;
    var k := 0;
    while k < |ns|
      invariant 0 <= k <= |ns|
      invariant isLocalMin <==> forall j :: 0 <= j < k ==> z < zs[ns[j]]
      invariant isLocalMax <==> forall j :: 0 <= j < k ==> z > zs[ns[j]]
    {
      var neighbourZ := zs[ns[k]];
      if z >= neighbourZ {
        isLocalMin := false;
      }
      if z <= neighbourZ {
        isLocalMax := false;
      }
      k := k + 1;
      if !isLocalMin && !isLocalMax {
        break;
      }
    }
    ScanFlagsMeaning(zs, ns, z, |ns|);
  }

  /**
   Scans every vertex once, keeping the running global minimum and maximum
   (a strictly smaller or larger Z restarts the list, an equal Z is
   appended) and the local minima and maxima, and returns the four lists
   one after the other.
   */
  method FindAllExtremaPoints(zs: seq<int>, nbrs: seq<seq<nat>>) returns (allPoints: seq<nat>)
    requires WellFormed(zs, nbrs)
    ensures allPoints == Extrema(zs, nbrs)
  {
    var globalMinZ, globalMaxZ := PosInf, NegInf;
    var globalMinPoints: seq<nat> := [];
    var globalMaxPoints: seq<nat> := [];
    var localMinPoints: seq<nat> := [];
    var localMaxPoints: seq<nat> := [];

    for i := 0 to |zs|
      invariant globalMinZ == RunningMin(zs, i) && globalMinPoints == RunningMinPoints(zs, i)
      invariant globalMaxZ == RunningMax(zs, i) && globalMaxPoints == RunningMaxPoints(zs, i)
      invariant localMinPoints == LocalMinimaUpTo(zs, nbrs, i)
      invariant localMaxPoints == LocalMaximaUpTo(zs, nbrs, i)
    {
      var z := zs[i];
      GlobalMinimaStep(zs, i);
      GlobalMaximaStep(zs, i);

      if Below(z, globalMinZ) {
        globalMinZ := Fin(z);
        globalMinPoints := [i];
      } else if globalMinZ == Fin(z) {
        globalMinPoints := globalMinPoints + [i];
      }

      if Above(z, globalMaxZ) {
        globalMaxZ := Fin(z);
        globalMaxPoints := [i];
      } else if globalMaxZ == Fin(z) {
        globalMaxPoints := globalMaxPoints + [i];
      }

      var isLocalMin, isLocalMax := NeighbourFlags(zs, nbrs[i], z);
      assert LocalMinimaUpTo(zs, nbrs, i + 1) == localMinPoints + (if isLocalMin then [i] else []);
      assert LocalMaximaUpTo(zs, nbrs, i + 1) == localMaxPoints + (if isLocalMax then [i] else []);
      if isLocalMin {
        localMinPoints := localMinPoints + [i];
      }
      if isLocalMax {
        localMaxPoints := localMaxPoints + [i];
      }
    }

    allPoints := globalMinPoints + globalMaxPoints + localMinPoints + localMaxPoints;
  }

  /** The running minimum after the first `n` vertices: +inf before any vertex. */
  function RunningMin(zs: seq<int>, n: nat): ExtZ
    requires n <= |zs|
  {
    if n == 0 then PosInf else Fin(MinUpTo(zs, n))
  }

  /** The running maximum after the first `n` vertices: -inf before any vertex. */
  function RunningMax(zs: seq<int>, n: nat): ExtZ
    requires n <= |zs|
  {
    if n == 0 then NegInf else Fin(MaxUpTo(zs, n))
  }

  /** The vertices among the first `n` lying at the running minimum. */
  function RunningMinPoints(zs: seq<int>, n: nat): seq<nat>
    requires n <= |zs|
  {
    if n == 0 then [] else IndicesAt(zs, MinUpTo(zs, n), n)
  }

  /** The vertices among the first `n` lying at the running maximum. */
  function RunningMaxPoints(zs: seq<int>, n: nat): seq<nat>
    requires n <= |zs|
  {
    if n == 0 then [] else IndicesAt(zs, MaxUpTo(zs, n), n)
  }

  /**
   One step of the running global minimum: vertex `i` restarts the list
   when it lies strictly below the running minimum, joins it on a tie and
   leaves it alone otherwise.
   */
  lemma GlobalMinimaStep(zs: seq<int>, i: nat)
    requires i < |zs|
    ensures var m, z := RunningMin(zs, i), zs[i];
      && RunningMin(zs, i + 1) == (if Below(z, m) then Fin(z) else m)
      && RunningMinPoints(zs, i + 1) ==
           if Below(z, m) then [i]
           else if m == Fin(z) then RunningMinPoints(zs, i) + [i]
           else RunningMinPoints(zs, i)
  {
    if i == 0 || zs[i] < MinUpTo(zs, i) {
      NoneAtLevel(zs, zs[i], i);
    }
  }

  /** One step of the running global maximum, the mirror image of GlobalMinimaStep. */
  lemma GlobalMaximaStep(zs: seq<int>, i: nat)
    requires i < |zs|
    ensures var m, z := RunningMax(zs, i), zs[i];
      && RunningMax(zs, i + 1) == (if Above(z, m) then Fin(z) else m)
      && RunningMaxPoints(zs, i + 1) ==
           if Above(z, m) then [i]
           else if m == Fin(z) then RunningMaxPoints(zs, i) + [i]
           else RunningMaxPoints(zs, i)
  {
    if i == 0 || zs[i] > MaxUpTo(zs, i) {
      NoneAtLevel(zs, zs[i], i);
    }
  }

  /** When no vertex among the first `n` has height `v`, none is listed at that height. */
  lemma NoneAtLevel(zs: seq<int>, v: int, n: nat)
    requires n <= |zs|
    requires forall j :: 0 <= j < n ==> zs[j] != v
    ensures IndicesAt(zs, v, n) == []
  {
    IndicesAtExact(zs, v, n);
  }
}
