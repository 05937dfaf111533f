/** The driver's walk along a chain, a buffer size at a time, and when it ends. */
module ChainWalk {
  import opened Arithmetic
  import opened FatChain

  datatype Walk = Going(cluster: nat, rest: nat) | Arrived(cluster: nat, rest: nat) | Failed

  /** One turn of the loop with a buffer of `b` bytes. */
  function Turn(v: Volume, b: nat, w: Walk): Walk {
    if !w.Going? then w
    else if w.rest <= b then Arrived(w.cluster, w.rest)
    else
      var next := NextCluster(v, w.cluster);
      if next == 0 || next == 1 then Failed else Going(next, w.rest - b)
  }

  function After(v: Volume, start: nat, b: nat, offset: nat, n: nat): Walk {
    if n == 0 then Going(start, offset) else Turn(v, b, After(v, start, b, offset, n - 1))
  }

  ghost predicate Ends(v: Volume, start: nat, b: nat, offset: nat) {
    exists n: nat :: !After(v, start, b, offset, n).Going?
  }

  ghost predicate Finite(v: Volume, start: nat) {
    exists n: nat :: !HasCluster(v, start, n)
  }

  /** What a caller can check: the buffer has a size, or there is nothing to skip, or the chain
      comes to an end by itself. */
  ghost predicate Walkable(v: Volume, start: nat, b: nat, offset: nat) {
    b > 0 || offset == 0 || Finite(v, start)
  }

  lemma {:induction false} WhileGoing(v: Volume, start: nat, b: nat, offset: nat, n: nat)
    ensures var w := After(v, start, b, offset, n);
      w.Going? ==> ClusterAt(v, start, n) == Cluster(w.cluster) && w.rest == offset - n * b
  {
    if n > 0 {
      WhileGoing(v, start, b, offset, n - 1);
      assert n * b == (n - 1) * b + b;
    }
  }

  /** With an empty buffer and something to skip, the walk goes on as long as the chain does. */
  lemma {:induction false} GoesOn(v: Volume, start: nat, offset: nat, n: nat)
    requires offset > 0 && HasCluster(v, start, n)
    ensures After(v, start, 0, offset, n).Going?
  {
    if n > 0 {
      GoesOn(v, start, offset, n - 1);
      WhileGoing(v, start, 0, offset, n - 1);
    }
  }

  /** The walk ends exactly when the buffer has a size, there is nothing to skip, or the chain ends. */
  lemma EndsExactly(v: Volume, start: nat, b: nat, offset: nat)
    ensures Ends(v, start, b, offset) <==> Walkable(v, start, b, offset)
  {
    if b > 0 {
      WhileGoing(v, start, b, offset, offset + 1);
      ScaleAtLeast(b, offset + 1);
      assert !After(v, start, b, offset, offset + 1).Going?;
    } else if offset == 0 {
      assert !After(v, start, b, offset, 1).Going?;
    } else if Finite(v, start) {
      var n: nat :| !HasCluster(v, start, n);
      WhileGoing(v, start, b, offset, n);
    } else {
      forall n: nat
        ensures After(v, start, b, offset, n).Going?
      {
        GoesOn(v, start, offset, n);
      }
    }
  }

  /** A table on which cluster 2 is its own successor. */
  function Cyclic(): Volume {
    Volume(a => EncodeEntries(seq(128, i => 2), 0, 128), a => true, 0, 0, 1, 1)
  }

  lemma CyclicNext()
    ensures NextCluster(Cyclic(), 2) == 2
  {
    hide NextCluster, EncodeEntries;
    var entries: seq<Word> := seq(128, i => 2);
    StoredTableIsFollowed(Cyclic(), entries, 1, 2);
  }

  lemma {:induction false} CyclicChain(n: nat)
    ensures ClusterAt(Cyclic(), 2, n) == Cluster(2)
  {
    hide NextCluster, Cyclic;
    if n > 0 {
      CyclicChain(n - 1);
      CyclicNext();
    }
  }

  /** Walks end on every table, cyclic ones included, if and only if the buffer has a size. */
  lemma EveryWalkEndsExactly(b: nat)
    ensures (forall v: Volume, start: nat, offset: nat :: Ends(v, start, b, offset)) <==> b > 0
  {
    if b > 0 {
      forall v: Volume, start: nat, offset: nat
        ensures Ends(v, start, b, offset)
      {
        EndsExactly(v, start, b, offset);
      }
    } else {
      forall n: nat
        ensures HasCluster(Cyclic(), 2, n)
      {
        CyclicChain(n);
      }
      EndsExactly(Cyclic(), 2, b, 1);
      assert !Ends(Cyclic(), 2, b, 1);
    }
  }
}
