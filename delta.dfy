/**
 * computeDelta: walks the current and the target snapshot in lockstep and
 * lists the DELETE and POST operations that turn one into the other.
 */
module Delta {
  import opened Wrappers
  import opened Sequences
  import opened Enums
  import opened Nodes

  /** The two Error results computeDelta can return: "Current and target do
      not match in length." and "Arrays aren't sorted!". */
  datatype DeltaError = LengthMismatch | Unsorted

  /** Both nodes stand for the same grid position. */
  predicate Aligned(a: MapNode, b: MapNode) {
    a.row == b.row && a.column == b.column
  }

  /** What one position contributes: nothing when the kinds agree (whatever
      the attributes), else a DELETE of a non-SPACE current node followed by
      a POST of a non-SPACE target node. */
  function Contribution(cur: MapNode, tgt: MapNode): seq<Op> {
    if cur.kind == tgt.kind then []
    else
      (if cur.kind != SPACE then [Op(Delete, cur)] else []) +
      (if tgt.kind != SPACE then [Op(Post, tgt)] else [])
  }

  /** The contributions of the first n positions, one per position. */
  function Contributions(current: seq<MapNode>, target: seq<MapNode>, n: nat): (cs: seq<seq<Op>>)
    requires n <= |current| && n <= |target|
    ensures |cs| == n
  {
    seq(n, j requires 0 <= j < n => Contribution(current[j], target[j]))
  }

  /** The delta of the first n positions. */
  function Diff(current: seq<MapNode>, target: seq<MapNode>, n: nat): seq<Op>
    requires n <= |current| && n <= |target|
  {
    Flatten(Contributions(current, target, n))
  }

  lemma DiffStep(current: seq<MapNode>, target: seq<MapNode>, n: nat)
    requires n < |current| && n < |target|
    ensures Diff(current, target, n + 1) == Diff(current, target, n) + Contribution(current[n], target[n])
  {
    assert Contributions(current, target, n + 1)[..n] == Contributions(current, target, n);
  }

  method ComputeDelta(current: seq<MapNode>, target: seq<MapNode>) returns (r: Result<seq<Op>, DeltaError>)
    ensures r == Failure(LengthMismatch) <==> |current| != |target|
    ensures |current| == |target| ==>
              (r == Failure(Unsorted) <==> exists i :: 0 <= i < |current| && !Aligned(current[i], target[i]))
    ensures r.Success? ==> |current| == |target| && r.value == Diff(current, target, |current|)
    ensures |current| == |target| && (forall i :: 0 <= i < |current| ==> Aligned(current[i], target[i])) ==>
              r == Success(Diff(current, target, |current|))
  {
    var delta: seq<Op> := [];
    if |current| != |target| {
      return Failure(LengthMismatch);
    }
    for i := 0 to |current|
      invariant delta == Diff(current, target, i)
      invariant forall j :: 0 <= j < i ==> Aligned(current[j], target[j])
    {
      if current[i].row != target[i].row || current[i].column != target[i].column {
        return Failure(Unsorted);
      }
      DiffStep(current, target, i);
      if current[i].kind != target[i].kind {
        if current[i].kind != SPACE {
          delta := delta + [Op(Delete, current[i])];
        }
        if target[i].kind != SPACE {
          delta := delta + [Op(Post, target[i])];
        }
      }
    }
    return Success(delta);
  }

  /** Positions whose kinds agree contribute nothing, even when their
      attributes differ. */
  lemma SameKindsEmptyDelta(current: seq<MapNode>, target: seq<MapNode>, n: nat)
    requires n <= |current| && n <= |target|
    requires forall j :: 0 <= j < n ==> current[j].kind == target[j].kind
    ensures Diff(current, target, n) == []
  {
    FlattenEmpty(Contributions(current, target, n));
  }

  /** A snapshot diffed against itself has an empty delta. */
  lemma SelfDeltaEmpty(s: seq<MapNode>)
    ensures Diff(s, s, |s|) == []
  {
    SameKindsEmptyDelta(s, s, |s|);
  }

  /** One operation entry, as emitted for position j. */
  predicate EntryFor(current: seq<MapNode>, target: seq<MapNode>, j: nat, op: Op)
    requires j < |current| && j < |target|
  {
    && current[j].kind != target[j].kind
    && (|| (op.verb == Delete && op.node == current[j] && current[j].kind != SPACE)
        || (op.verb == Post && op.node == target[j] && target[j].kind != SPACE))
  }

  /** For each entry of Diff, the position that produced it. */
  function Origins(current: seq<MapNode>, target: seq<MapNode>, n: nat): seq<nat>
    requires n <= |current| && n <= |target|
  {
    Owners(Contributions(current, target, n))
  }

  /** Every DELETE is a non-SPACE current node and every POST a non-SPACE
      target node, from a position whose kinds differ; entries come in
      increasing position order, and within one position there is at most a
      DELETE followed by a POST. */
  lemma DiffShape(current: seq<MapNode>, target: seq<MapNode>, n: nat)
    requires n <= |current| && n <= |target|
    ensures |Origins(current, target, n)| == |Diff(current, target, n)|
    ensures forall k :: 0 <= k < |Diff(current, target, n)| ==>
              Origins(current, target, n)[k] < n &&
              EntryFor(current, target, Origins(current, target, n)[k], Diff(current, target, n)[k])
    ensures forall k, l :: 0 <= k < l < |Diff(current, target, n)| ==>
              Origins(current, target, n)[k] <= Origins(current, target, n)[l] &&
              (Origins(current, target, n)[k] == Origins(current, target, n)[l] ==>
                 Diff(current, target, n)[k].verb == Delete && Diff(current, target, n)[l].verb == Post)
  {
    var cs := Contributions(current, target, n);
    FlattenShape(cs);
    var d, o, t := Flatten(cs), Owners(cs), Locals(cs);
    forall k | 0 <= k < |d|
      ensures o[k] < n && EntryFor(current, target, o[k], d[k])
    {
      assert d[k] == cs[o[k]][t[k]];
    }
    forall k, l | 0 <= k < l < |d|
      ensures o[k] <= o[l] && (o[k] == o[l] ==> d[k].verb == Delete && d[l].verb == Post)
    {
      if o[k] == o[l] {
        assert t[k] < t[l] < |cs[o[k]]| <= 2;
        assert d[k] == cs[o[k]][0] && d[l] == cs[o[k]][1];
      }
    }
  }

  /** Every position whose kinds differ gets its DELETE and its POST: a
      non-SPACE current node is deleted and a non-SPACE target node posted. */
  lemma DiffComplete(current: seq<MapNode>, target: seq<MapNode>, n: nat, j: nat)
    requires n <= |current| && n <= |target| && j < n
    requires current[j].kind != target[j].kind
    ensures current[j].kind != SPACE ==> Op(Delete, current[j]) in Diff(current, target, n)
    ensures target[j].kind != SPACE ==> Op(Post, target[j]) in Diff(current, target, n)
  {
    var cs := Contributions(current, target, n);
    if current[j].kind != SPACE {
      FlattenMember(cs, j, Op(Delete, current[j]));
    }
    if target[j].kind != SPACE {
      FlattenMember(cs, j, Op(Post, target[j]));
    }
  }

  /** current = [SPACE@(0,0), POLYANET@(0,1)], target = [POLYANET@(0,0), SPACE@(0,1)]:
      the delta is exactly POST (0,0) then DELETE (0,1). */
  lemma SwapExample()
    ensures
      var current := [MapNode(SPACE, 0, 0, None), MapNode(POLYANET, 0, 1, None)];
      var target := [MapNode(POLYANET, 0, 0, None), MapNode(SPACE, 0, 1, None)];
      Diff(current, target, 2) == [Op(Post, MapNode(POLYANET, 0, 0, None)), Op(Delete, MapNode(POLYANET, 0, 1, None))]
  {
    var current := [MapNode(SPACE, 0, 0, None), MapNode(POLYANET, 0, 1, None)];
    var target := [MapNode(POLYANET, 0, 0, None), MapNode(SPACE, 0, 1, None)];
    DiffStep(current, target, 0);
    DiffStep(current, target, 1);
  }
}
