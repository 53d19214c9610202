/** 32-bit counters that wrap, counted down one at a time. A block is listed as ready whenever its
    counter reaches zero, also when a wrapped counter reaches it again; what this file proves is that
    a traversal with at most two decrements per block still lists only finitely many. */
module Countdown {
  import opened Core

  const WRAP: nat := MAX_U32 + 1

  /** `++` and `--` on `uint32_t`. */
  function Up(c: nat): nat { if c >= MAX_U32 then 0 else c + 1 }

  function Down(c: nat): nat { if c == 0 then MAX_U32 else c - 1 }

  lemma {:induction false} CountsModulo(c: nat)
    requires c <= MAX_U32
    ensures Up(c) == (c + 1) % 0x1_0000_0000 && Down(c) == (c - 1) % 0x1_0000_0000
    ensures Down(Up(c)) == c && Up(Down(c)) == c
  {
  }

  /** How many decrements until the counter is next zero. */
  ghost function Due(c: nat): nat { if c == 0 then WRAP else c }

  ghost function AllDue(counts: seq<nat>, k: nat): nat
    requires k <= |counts|
  {
    if k == 0 then 0 else AllDue(counts, k - 1) + Due(counts[k - 1])
  }

  ghost predicate Narrow(counts: seq<nat>) {
    forall b :: 0 <= b < |counts| ==> counts[b] <= MAX_U32
  }

  lemma {:induction false} AllDueBounded(counts: seq<nat>, k: nat)
    requires k <= |counts| && Narrow(counts)
    ensures AllDue(counts, k) <= WRAP * k
  {
    if k > 0 { AllDueBounded(counts, k - 1); }
  }

  lemma {:induction false} AllDueUpdate(counts: seq<nat>, k: nat, b: nat, c: nat)
    requires k <= |counts| && b < |counts|
    ensures AllDue(counts[b := c], k) == AllDue(counts, k) + if b < k then Due(c) - Due(counts[b]) else 0
  {
    if k > 0 { AllDueUpdate(counts, k - 1, b, c); }
  }

  /** The pace of a traversal that started with `start` ready blocks: each further one has been paid
      for by decrements, and there were at most two for each block done and `k` for the current. */
  ghost predicate Paced(counts: seq<nat>, ready: seq<nat>, start: nat, cursor: nat, k: nat) {
    && Narrow(counts) && (forall i :: 0 <= i < |ready| ==> ready[i] < |counts|)
    && WRAP * |ready| <= AllDue(counts, |counts|) + WRAP * start + 2 * cursor + k
  }

  lemma {:induction false} PacedStart(counts: seq<nat>, ready: seq<nat>)
    requires Narrow(counts) && forall i :: 0 <= i < |ready| ==> ready[i] < |counts|
    ensures Paced(counts, ready, |ready|, 0, 0)
  {
  }

  lemma {:induction false} PacedDown(counts: seq<nat>, ready: seq<nat>, start: nat, cursor: nat, k: nat, b: nat)
    requires Paced(counts, ready, start, cursor, k) && b < |counts|
    ensures var left := counts[b := Down(counts[b])];
      Paced(left, if left[b] == 0 then ready + [b] else ready, start, cursor, k + 1)
  {
    AllDueUpdate(counts, |counts|, b, Down(counts[b]));
  }

  lemma {:induction false} PacedNext(counts: seq<nat>, ready: seq<nat>, start: nat, cursor: nat, k: nat)
    requires Paced(counts, ready, start, cursor, k) && k <= 2
    ensures Paced(counts, ready, start, cursor + 1, 0)
  {
  }

  /** So the traversal ends. */
  lemma {:induction false} PacedBounds(counts: seq<nat>, ready: seq<nat>, start: nat, cursor: nat)
    requires Paced(counts, ready, start, cursor, 0) && cursor <= |ready|
    ensures |ready| <= 2 * (|counts| + start)
  {
    AllDueBounded(counts, |counts|);
  }
}
