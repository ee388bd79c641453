/** Concatenating a sequence of sequences, and where each element comes from. */
module Sequences {

  function Flatten<T>(ss: seq<seq<T>>): seq<T> {
    if ss == [] then [] else Flatten(ss[..|ss| - 1]) + ss[|ss| - 1]
  }

  /** For each element of Flatten(ss), the index of the inner sequence it came from. */
  function Owners<T>(ss: seq<seq<T>>): seq<nat> {
    if ss == [] then [] else Owners(ss[..|ss| - 1]) + seq(|ss[|ss| - 1]|, _ => |ss| - 1)
  }

  /** For each element of Flatten(ss), its index within that inner sequence. */
  function Locals<T>(ss: seq<seq<T>>): seq<nat> {
    if ss == [] then [] else Locals(ss[..|ss| - 1]) + seq(|ss[|ss| - 1]|, t => t)
  }

  /** Flatten keeps the inner sequences in order, each in its own order. */
  lemma {:induction false} FlattenShape<T>(ss: seq<seq<T>>)
    ensures |Owners(ss)| == |Flatten(ss)| && |Locals(ss)| == |Flatten(ss)|
    ensures forall k :: 0 <= k < |Flatten(ss)| ==>
              Owners(ss)[k] < |ss| && Locals(ss)[k] < |ss[Owners(ss)[k]]| &&
              Flatten(ss)[k] == ss[Owners(ss)[k]][Locals(ss)[k]]
    ensures forall k, l :: 0 <= k < l < |Flatten(ss)| ==>
              Owners(ss)[k] < Owners(ss)[l] || (Owners(ss)[k] == Owners(ss)[l] && Locals(ss)[k] < Locals(ss)[l])
  {
    if ss != [] {
      var n := |ss|;
      var pre := ss[..n - 1];
      FlattenShape(pre);
      var f, o, t := Flatten(ss), Owners(ss), Locals(ss);
      var fp, op, tp := Flatten(pre), Owners(pre), Locals(pre);
      var last := ss[n - 1];
      assert f == fp + last;
      assert o == op + seq(|last|, _ => n - 1);
      assert t == tp + seq(|last|, i => i);
      forall k | 0 <= k < |f|
        ensures o[k] < n && t[k] < |ss[o[k]]| && f[k] == ss[o[k]][t[k]]
      {
        if k < |fp| {
          assert o[k] == op[k] && t[k] == tp[k] && f[k] == fp[k];
          assert ss[o[k]] == pre[op[k]];
        } else {
          assert o[k] == n - 1 && t[k] == k - |fp| && f[k] == last[k - |fp|];
        }
      }
      forall k, l | 0 <= k < l < |f|
        ensures o[k] < o[l] || (o[k] == o[l] && t[k] < t[l])
      {
        if l < |fp| {
          assert o[k] == op[k] && o[l] == op[l] && t[k] == tp[k] && t[l] == tp[l];
        } else if k < |fp| {
          assert o[k] == op[k] && o[l] == n - 1;
        } else {
          assert o[k] == n - 1 && o[l] == n - 1 && t[k] == k - |fp| && t[l] == l - |fp|;
        }
      }
    }
  }

  /** Flatten distributes over a split of the outer sequence. */
  lemma {:induction false} FlattenSplit<T>(ss: seq<seq<T>>, m: nat)
    requires m <= |ss|
    ensures Flatten(ss) == Flatten(ss[..m]) + Flatten(ss[m..])
  {
    if m < |ss| {
      var n := |ss|;
      FlattenSplit(ss[..n - 1], m);
      assert ss[..n - 1][..m] == ss[..m];
      assert ss[m..][..|ss[m..]| - 1] == ss[..n - 1][m..];
    } else {
      assert ss[..m] == ss;
    }
  }

  /** Every element of an inner sequence is in the flattening. */
  lemma FlattenMember<T>(ss: seq<seq<T>>, j: nat, x: T)
    requires j < |ss| && x in ss[j]
    ensures x in Flatten(ss)
  {
    FlattenSplit(ss, j + 1);
    assert ss[..j + 1][..j] == ss[..j];
    assert Flatten(ss[..j + 1]) == Flatten(ss[..j]) + ss[j];
  }

  /** Inner sequences that are all empty flatten to nothing. */
  lemma {:induction false} FlattenEmpty<T>(ss: seq<seq<T>>)
    requires forall j :: 0 <= j < |ss| ==> ss[j] == []
    ensures Flatten(ss) == []
  {
    if ss != [] {
      FlattenEmpty(ss[..|ss| - 1]);
    }
  }
}
