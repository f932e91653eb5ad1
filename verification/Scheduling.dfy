/**
 Work shared among threads: the contiguous chunks the thread pools are given, and sums of
 remaining work, the termination measure of nondeterministic schedules.

 A schedule is a loop that lets any unfinished thread make its next step.  Each thread has a
 position in its own chunk; `Left` is what all of them still have to do, and every step
 takes one from its sum.
 The chunks are described twice: by the thread that owns each index (`IsPartition`) and by the order in
 which they follow each other (`Consecutive`).
 */
module Scheduling {
  import opened NumberTheory

  function Sum(s: seq<nat>): nat {
    if |s| == 0 then 0 else s[0] + Sum(s[1..])
  }

  lemma {:induction false} SumUpdate(s: seq<nat>, i: nat, v: nat)
    requires i < |s|
    ensures Sum(s[i := v]) + s[i] == Sum(s) + v
  {
    if i == 0 {
      assert s[0 := v][1..] == s[1..];
    } else {
      SumUpdate(s[1..], i - 1, v);
      assert s[i := v][1..] == s[1..][i - 1 := v];
    }
  }

  /** What the chunks still have to do. */
  function Left(pos: seq<nat>, ends: seq<nat>): seq<nat>
    requires |pos| == |ends| && forall t :: 0 <= t < |pos| ==> pos[t] <= ends[t]
  {
    seq(|pos|, t requires 0 <= t < |pos| => ends[t] - pos[t])
  }

  lemma LeftDecreases(pos: seq<nat>, ends: seq<nat>, t: nat)
    requires |pos| == |ends| && forall u :: 0 <= u < |pos| ==> pos[u] <= ends[u]
    requires t < |pos| && pos[t] < ends[t]
    ensures Sum(Left(pos[t := pos[t] + 1], ends)) < Sum(Left(pos, ends))
  {
    var l := Left(pos, ends);
    SumUpdate(l, t, ends[t] - pos[t] - 1);
    assert Left(pos[t := pos[t] + 1], ends) == l[t := ends[t] - pos[t] - 1];
  }

  /** The chunks [starts[t], ends[t]) partition 0..count, and `owner` says which chunk holds an index. */
  ghost predicate IsPartition(starts: seq<nat>, ends: seq<nat>, owner: seq<nat>, count: nat) {
    && |starts| == |ends| && |owner| == count
    && (forall t :: 0 <= t < |starts| ==> starts[t] <= ends[t] <= count)
    && (forall e :: 0 <= e < count ==> owner[e] < |starts| && starts[owner[e]] <= e < ends[owner[e]])
    && (forall e, t :: 0 <= e < count && 0 <= t < |starts| && starts[t] <= e < ends[t] ==> owner[e] == t)
  }

  /** The chunks follow each other and cover 0..count. */
  ghost predicate Consecutive(starts: seq<nat>, ends: seq<nat>, count: nat) {
    && |starts| == |ends| && |starts| > 0
    && starts[0] == 0 && ends[|ends| - 1] == count
    && (forall t :: 0 <= t < |starts| ==> starts[t] <= ends[t] <= count)
    && (forall t :: 0 < t < |starts| ==> starts[t] == ends[t - 1])
  }

  /** Equal chunks of ceil(count / threads), the last one short, none empty. */
  method CeilingChunks(count: nat, threads: nat) returns (starts: seq<nat>, ends: seq<nat>, ghost owner: seq<nat>)
    requires threads > 0
    ensures IsPartition(starts, ends, owner, count) && |starts| <= threads
    ensures if count == 0 then |starts| == 0 else Consecutive(starts, ends, count)
  {
    hide IsPartition;
    hide Consecutive;
    CeilingCovers(count, threads);
    var chunk := (count + threads - 1) / threads;
    starts, ends, owner := [], [], [];
    NoChunks();
    ghost var covered := 0;
    var t := 0;
    while t < threads
      invariant t <= threads && |starts| == |ends| == t
      invariant covered == t * chunk || (covered == count && count <= t * chunk)
      invariant covered <= count && IsPartition(starts, ends, owner, covered)
      invariant if covered == 0 then |starts| == 0 else Consecutive(starts, ends, covered)
      decreases threads - t
    {
      var start := t * chunk;
      if start >= count {
        break;
      }
      Distribute(chunk, t, 1);
      var end := if start + chunk < count then start + chunk else count;
      AddChunk(starts, ends, owner, start, end);
      AddConsecutive(starts, ends, start, end);
      starts, ends, owner := starts + [start], ends + [end], owner + seq(end - start, _ => t);
      covered := end;
      t := t + 1;
    }
  }

  lemma ChunksInside(starts: seq<nat>, ends: seq<nat>, owner: seq<nat>, count: nat)
    requires IsPartition(starts, ends, owner, count)
    ensures |starts| == |ends| && forall t :: 0 <= t < |starts| ==> starts[t] <= ends[t] <= count
    ensures |owner| == count && forall e :: 0 <= e < count ==> owner[e] < |starts|
  {
  }

  lemma NoChunks()
    ensures IsPartition([], [], [], 0)
  {
  }

  lemma AddChunk(starts: seq<nat>, ends: seq<nat>, owner: seq<nat>, start: nat, end: nat)
    requires IsPartition(starts, ends, owner, start) && start <= end
    ensures IsPartition(starts + [start], ends + [end], owner + seq(end - start, _ => |starts|), end)
  {
  }

  lemma AddConsecutive(starts: seq<nat>, ends: seq<nat>, start: nat, end: nat)
    requires start <= end && |starts| == |ends|
    requires if start == 0 then |starts| == 0 else Consecutive(starts, ends, start)
    ensures Consecutive(starts + [start], ends + [end], end)
  {
  }

  lemma CeilingCovers(count: nat, threads: nat)
    requires threads > 0
    ensures threads * ((count + threads - 1) / threads) >= count
    ensures count > 0 ==> (count + threads - 1) / threads > 0
  {
    var x := count + threads - 1;
    assert x == threads * (x / threads) + x % threads;
  }
}
