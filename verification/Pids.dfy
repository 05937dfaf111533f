/** Process identifiers: consecutive 32-bit values, skipping the ones in use. */
module Pids {
  import opened Arithmetic

  /** The pid handed out after `d` rejected attempts. */
  function Candidate(next: nat, d: nat): nat {
    Wrap(next + d)
  }

  /** How many values from `next` on are taken: a run of taken values cannot be longer than the
      set of taken values, even when it wraps around. */
  ghost function {:induction false} Skips(next: nat, taken: set<nat>): (d: nat)
    requires next < U32 && |taken| < U32
    ensures d <= |taken|
    ensures Candidate(next, d) !in taken
    ensures forall e :: 0 <= e < d ==> Candidate(next, e) in taken
    decreases |taken|
  {
    FirstCandidate(next);
    if next !in taken then 0
    else
      var rest := Skips(Candidate(next, 1), taken - {next});
      SkipOne(next, rest, taken);
      1 + rest
  }

  lemma FirstCandidate(next: nat)
    requires next < U32
    ensures Candidate(next, 0) == next && Candidate(next, 1) < U32
  {
    WrapOnce(next);
    WrapOnce(next + 1);
  }

  /** Fewer than 2^32 steps from `next` never lead back to it. */
  lemma SkipOne(next: nat, rest: nat, taken: set<nat>)
    requires next < U32 && next in taken && 1 + rest < U32
    requires Candidate(Candidate(next, 1), rest) !in taken - {next}
    requires forall e :: 0 <= e < rest ==> Candidate(Candidate(next, 1), e) in taken - {next}
    ensures Candidate(next, 1 + rest) !in taken
    ensures forall e :: 0 <= e < 1 + rest ==> Candidate(next, e) in taken
  {
    hide Candidate;
    FirstCandidate(next);
    StepThenSkip(next, rest);
    NeverBack(next, 1 + rest);
    forall e | 0 <= e < 1 + rest
      ensures Candidate(next, e) in taken
    {
      if e > 0 {
        StepThenSkip(next, e - 1);
      }
    }
  }

  lemma StepThenSkip(next: nat, e: nat)
    requires next < U32 && e < U32
    ensures Candidate(Candidate(next, 1), e) == Candidate(next, 1 + e)
  {
  }

  lemma NeverBack(next: nat, d: nat)
    requires next < U32 && 0 < d < U32
    ensures Candidate(next, d) != next
  {
    WrapOnce(next + d);
  }

  /** Rejecting the first candidate leaves one skip fewer to the same result. */
  lemma {:induction false} SkipsUnfold(next: nat, taken: set<nat>)
    requires next < U32 && |taken| < U32 && next in taken
    ensures Candidate(next, 1) < U32
    ensures Skips(next, taken) == 1 + Skips(Candidate(next, 1), taken)
  {
    hide Candidate;
    FirstCandidate(next);
    var d, r := Skips(next, taken), Skips(Candidate(next, 1), taken);
    assert d > 0;
    StepThenSkip(next, d - 1);
    StepThenSkip(next, r);
  }

  lemma NoSkip(next: nat, taken: set<nat>)
    requires next < U32 && |taken| < U32 && next !in taken
    ensures Skips(next, taken) == 0
  {
    FirstCandidate(next);
  }

  lemma NextCandidate(next: nat)
    ensures Candidate(next, 1) == Wrap(next + 1)
  {
  }

  /** All candidates before the `d`-th are taken. */
  ghost predicate TakenUpTo(next: nat, taken: set<nat>, d: nat) {
    forall e :: 0 <= e < d ==> Candidate(next, e) in taken
  }

  /** `pid` is the `d`-th candidate, and all before it are taken. */
  ghost predicate Follows(next: nat, taken: set<nat>, pid: nat, d: nat) {
    d <= |taken| && Candidate(next, d) == pid && TakenUpTo(next, taken, d)
  }

  /** `pid` is the first candidate that is not taken. */
  ghost predicate FirstFree(next: nat, taken: set<nat>, pid: nat) {
    pid !in taken && exists d: nat :: Follows(next, taken, pid, d)
  }

  /** The search finds the first candidate that is not taken. */
  lemma SkipsToFirstFree(next: nat, taken: set<nat>)
    requires next < U32 && |taken| < U32
    ensures FirstFree(next, taken, Candidate(next, Skips(next, taken)))
  {
    assert Follows(next, taken, Candidate(next, Skips(next, taken)), Skips(next, taken));
  }

  /** The search looks at queued processes only. It hands out the pid of another process exactly
      when that pid follows `next` with only queued pids in between. */
  lemma ClashExactly(next: nat, taken: set<nat>, pid: nat, other: nat)
    requires FirstFree(next, taken, pid) && other !in taken
    ensures pid == other <==> exists d: nat :: Follows(next, taken, other, d)
  {
    hide Candidate;
    var s: nat :| Follows(next, taken, pid, s);
    forall d: nat | Follows(next, taken, other, d)
      ensures d == s
    {
    }
  }
}
