/** The balance of the directory tree: what the insertion fixup restores when it recolours the
    grandparent, and exactly when the fixup as written still restores it. */
module RbBalance {
  import opened Arithmetic
  import opened RbShape

  // ----- red-black trees (section 13.1 of "Introduction to Algorithms")

  ghost function BlackHeight<R, V>(t: Tree<R, V>): nat {
    match t
    case Leaf => 0
    case Node(l, c, _, _, _, _) => BlackHeight(l) + if c.Black? then 1 else 0
  }

  /** Every path down from a node meets the same number of black nodes. */
  ghost predicate Balanced<R, V>(t: Tree<R, V>) {
    t.Node? ==> Balanced(t.left) && Balanced(t.right) && BlackHeight(t.left) == BlackHeight(t.right)
  }

  ghost predicate NoRedRed<R, V>(t: Tree<R, V>) {
    t.Node? ==> NoRedRed(t.left) && NoRedRed(t.right) && (t.color.Red? ==> !IsRed(t.left) && !IsRed(t.right))
  }

  ghost predicate IsRedBlack<R, V>(t: Tree<R, V>) {
    !IsRed(t) && NoRedRed(t) && Balanced(t)
  }

  // ----- the surroundings of a subtree

  /** Plugging a subtree of black height `h` into `path` gives a red-black tree, if the subtree
      itself is one up to the colour of its root. */
  ghost predicate Context<R, V>(path: seq<Frame<R, V>>, h: nat) {
    path != [] ==>
      && NoRedRed(path[0].sibling) && Balanced(path[0].sibling) && BlackHeight(path[0].sibling) == h
      && (path[0].color.Red? ==> !IsRed(path[0].sibling) && |path| > 1 && path[1].color.Black?)
      && Context(path[1..], if path[0].color.Black? then h + 1 else h)
  }

  lemma {:induction false} PlugKeeps<R, V>(t: Tree<R, V>, path: seq<Frame<R, V>>)
    requires NoRedRed(t) && Balanced(t) && Context(path, BlackHeight(t))
    requires IsRed(t) && path != [] ==> path[0].color.Black?
    ensures NoRedRed(Plug(t, path)) && Balanced(Plug(t, path))
    ensures path != [] ==> !IsRed(Plug(t, path))
    decreases |path|
  {
    if path != [] {
      PlugKeeps(Fill(path[0], t), path[1..]);
    }
  }

  lemma {:induction false} PlugBalanced<R, V>(t: Tree<R, V>, path: seq<Frame<R, V>>)
    requires Balanced(Plug(t, path))
    ensures Balanced(t)
    decreases |path|
  {
    if path != [] {
      PlugBalanced(Fill(path[0], t), path[1..]);
    }
  }

  lemma {:induction false} LocateContext<R, V>(t: Tree<R, V>, k: int, path: seq<Frame<R, V>>)
    requires NoRedRed(t) && Balanced(t) && Context(path, BlackHeight(t))
    requires IsRed(t) ==> path != [] && path[0].color.Black?
    ensures Context(Locate(t, k, path), 0)
  {
    if t.Node? {
      var f := if k < t.key then Frame(WentLeft, t.color, t.key, t.value, t.ref, t.right)
               else Frame(WentRight, t.color, t.key, t.value, t.ref, t.left);
      assert ([f] + path)[1..] == path;
      LocateContext(if k < t.key then t.left else t.right, k, [f] + path);
    }
  }

  // ----- the fixup as meant

  lemma RecoloredKeeps<R, V>(t: Tree<R, V>, p: Frame<R, V>, g: Frame<R, V>, variant: Variant)
    requires NoRedRed(t) && Balanced(t) && IsRed(t)
    requires NoRedRed(p.sibling) && Balanced(p.sibling) && BlackHeight(p.sibling) == BlackHeight(t)
    requires NoRedRed(g.sibling) && Balanced(g.sibling) && BlackHeight(g.sibling) == BlackHeight(t) && IsRed(g.sibling)
    requires p.color.Red? && g.color.Black?
    ensures var s := Recolored(t, p, g, variant);
      && NoRedRed(s) && Balanced(s) && IsRed(s) == variant.AsMeant?
      && !IsRed(s.left) && !IsRed(s.right) && BlackHeight(s.left) == BlackHeight(t) + 1
  {
    var y := Colored(g.sibling, Black);
    assert BlackHeight(y) == BlackHeight(t) + 1 && Balanced(y) && NoRedRed(y);
    var q := Fill(p.(color := Black), t);
    assert BlackHeight(q) == BlackHeight(t) + 1 && Balanced(q) && NoRedRed(q);
  }

  lemma RestructureKeeps<R, V>(t: Tree<R, V>, p: Frame<R, V>, g: Frame<R, V>)
    requires NoRedRed(t) && Balanced(t) && IsRed(t)
    requires NoRedRed(p.sibling) && Balanced(p.sibling) && BlackHeight(p.sibling) == BlackHeight(t) && !IsRed(p.sibling)
    requires NoRedRed(g.sibling) && Balanced(g.sibling) && BlackHeight(g.sibling) == BlackHeight(t) && !IsRed(g.sibling)
    requires p.color.Red?
    ensures var s := Restructure(t, p, g);
      NoRedRed(s) && Balanced(s) && !IsRed(s) && BlackHeight(s) == BlackHeight(t) + 1
  {
  }

  lemma {:induction false} FixLoopRestores<R, V>(t: Tree<R, V>, path: seq<Frame<R, V>>)
    requires NoRedRed(t) && Balanced(t) && IsRed(t) && Context(path, BlackHeight(t))
    ensures NoRedRed(FixLoop(t, path, AsMeant)) && Balanced(FixLoop(t, path, AsMeant))
    decreases |path|
  {
    if |path| < 2 || path[0].color.Black? {
      PlugKeeps(t, path);
    } else {
      var p, g, up := path[0], path[1], path[2..];
      assert path[1..][1..] == up && path[1..][0] == g;
      if IsRed(g.sibling) {
        RecoloredKeeps(t, p, g, AsMeant);
        FixLoopRestores(Recolored(t, p, g, AsMeant), up);
      } else {
        RestructureKeeps(t, p, g);
        PlugKeeps(Restructure(t, p, g), up);
      }
    }
  }

  lemma ColoredBalanced<R, V>(t: Tree<R, V>, c: Color)
    ensures Balanced(Colored(t, c)) <==> Balanced(t)
    ensures NoRedRed(t) ==> NoRedRed(Colored(t, Black))
  {
  }

  /** Every insert leaves a red-black tree: black root, no red node with a red child, equal
      black heights. */
  lemma InsertKeepsRedBlack<R, V>(t: Tree<R, V>, k: int, v: V, ref: R)
    requires IsRedBlack(t)
    ensures IsRedBlack(Insert(t, k, v, ref, AsMeant))
  {
    var path, n := Locate(t, k, []), NewNode(k, v, ref);
    LocateContext(t, k, []);
    PlugOrFix(n, path);
  }

  lemma PlugOrFix<R, V>(n: Tree<R, V>, path: seq<Frame<R, V>>)
    requires NoRedRed(n) && Balanced(n) && IsRed(n) && Context(path, BlackHeight(n))
    ensures IsRedBlack(InsertAt(n, path, AsMeant))
  {
    if path != [] && path[0].color.Black? {
      PlugKeeps(n, path);
    } else {
      FixLoopRestores(n, path);
      ColoredBalanced(FixLoop(n, path, AsMeant), Black);
    }
  }

  // ----- height

  ghost function Size<R, V>(t: Tree<R, V>): nat {
    if t.Leaf? then 0 else Size(t.left) + 1 + Size(t.right)
  }

  ghost function Height<R, V>(t: Tree<R, V>): nat {
    if t.Leaf? then 0
    else 1 + if Height(t.left) >= Height(t.right) then Height(t.left) else Height(t.right)
  }

  lemma {:induction false} HeightFromBlackHeight<R, V>(t: Tree<R, V>)
    requires NoRedRed(t) && Balanced(t)
    ensures Height(t) <= 2 * BlackHeight(t) + if IsRed(t) then 1 else 0
    ensures Pow2(BlackHeight(t)) <= Size(t) + 1
  {
    if t.Node? {
      HeightFromBlackHeight(t.left);
      HeightFromBlackHeight(t.right);
    }
  }

  lemma {:induction false} Pow2Monotone(a: nat, b: nat)
    requires a <= b
    ensures Pow2(a) <= Pow2(b)
  {
    if a < b {
      Pow2Monotone(a, b - 1);
    }
  }

  lemma {:induction false} Pow2Double(n: nat)
    ensures Pow2(2 * n) == Pow2(n) * Pow2(n)
  {
    if n > 0 {
      Pow2Double(n - 1);
      assert Pow2(2 * n) == 2 * Pow2(2 * n - 1);
      assert Pow2(2 * n - 1) == 2 * Pow2(2 * (n - 1));
      var x := Pow2(n - 1);
      assert (2 * x) * (2 * x) == 4 * (x * x);
    }
  }

  /** The height h of a red-black tree of n nodes satisfies 2^h <= (n+1)^2, that is,
      h <= 2 log2(n+1). */
  lemma HeightIsLogarithmic<R, V>(t: Tree<R, V>)
    requires IsRedBlack(t)
    ensures Pow2(Height(t)) <= (Size(t) + 1) * (Size(t) + 1)
  {
    HeightFromBlackHeight(t);
    Pow2Monotone(Height(t), 2 * BlackHeight(t));
    Pow2Double(BlackHeight(t));
    SquareMonotone(Pow2(BlackHeight(t)), Size(t) + 1);
  }

  lemma SquareMonotone(a: nat, b: nat)
    requires a <= b
    ensures a * a <= b * b
  {
    assert b * b == a * a + (b - a) * (b + a);
  }

  lemma {:induction false} SizeIsContents<R, V>(t: Tree<R, V>)
    ensures Size(t) == |InOrder(t)|
  {
    if t.Node? {
      SizeIsContents(t.left);
      SizeIsContents(t.right);
    }
  }

  /** After any sequence of n inserts the tree is red-black and its height is at most 2 log2(n+1). */
  lemma {:induction false} EveryBuildIsBalanced<V>(pairs: seq<(int, V)>)
    ensures IsRedBlack(Build(pairs, AsMeant))
    ensures Pow2(Height(Build(pairs, AsMeant))) <= (|pairs| + 1) * (|pairs| + 1)
  {
    BuildIsRedBlack(pairs);
    HeightIsLogarithmic(Build(pairs, AsMeant));
    SizeIsContents(Build(pairs, AsMeant));
    BuildContents(pairs, AsMeant);
    assert |multiset(pairs)| == |pairs|;
    assert |multiset(InOrder(Build(pairs, AsMeant)))| == |InOrder(Build(pairs, AsMeant))|;
  }

  lemma {:induction false} BuildIsRedBlack<V>(pairs: seq<(int, V)>)
    ensures IsRedBlack(Build(pairs, AsMeant))
  {
    if pairs != [] {
      var n := |pairs| - 1;
      BuildIsRedBlack(pairs[..n]);
      InsertKeepsRedBlack(Build(pairs[..n], AsMeant), pairs[n].0, pairs[n].1, ());
    }
  }

  // ----- the fixup as written

  /** The inserts after which the code as written leaves an unbalanced tree: the uncle is red
      and the grandparent is not the root, unless the great-grandparent was red too, the
      grandparent is its inner child, and its own sibling is not red. */
  ghost predicate Skews<R, V>(path: seq<Frame<R, V>>) {
    && |path| >= 3 && path[0].color.Red? && IsRed(path[1].sibling)
    && !(|path| >= 4 && path[2].color.Red? && path[2].side != path[3].side && !IsRed(path[3].sibling))
  }

  lemma {:induction false} FixLoopStaysBroken<R, V>(t: Tree<R, V>, path: seq<Frame<R, V>>)
    requires t.Node? && !(Balanced(t.left) && Balanced(t.right))
    ensures !Balanced(FixLoop(t, path, AsWritten))
    decreases |path|
  {
    if |path| < 2 || path[0].color.Black? {
      if Balanced(Plug(t, path)) {
        PlugBalanced(t, path);
      }
    } else if IsRed(path[1].sibling) {
      assert !Balanced(Fill(path[0].(color := Black), t));
      FixLoopStaysBroken(Recolored(t, path[0], path[1], AsWritten), RecoloredPath(path[2..], AsWritten));
    } else {
      if Balanced(Plug(Restructure(t, path[0], path[1]), path[2..])) {
        PlugBalanced(Restructure(t, path[0], path[1]), path[2..]);
      }
    }
  }

  /** The loop right after the red-uncle case below a non-root grandparent: `s` is the
      grandparent's subtree, one black level too high, and the great-grandparent is now red. */
  lemma AfterRedUncle<R, V>(s: Tree<R, V>, path: seq<Frame<R, V>>, h: nat)
    requires path != [] && Context(path, h)
    requires s.Node? && s.color.Black? && NoRedRed(s) && Balanced(s) && BlackHeight(s) == h + 1
    requires !IsRed(s.left) && !IsRed(s.right)
    ensures var r := FixLoop(s, RecoloredPath(path, AsWritten), AsWritten);
      if |path| >= 2 && path[0].color.Red? && path[0].side != path[1].side && !IsRed(path[1].sibling)
      then NoRedRed(r) && Balanced(r) else !Balanced(r)
  {
    var p := path[0].(color := Red);
    var path' := RecoloredPath(path, AsWritten);
    assert path'[0] == p && path'[1..] == path[1..];
    assert !Balanced(Fill(p, s));
    if |path| == 1 {
      assert Plug(s, path') == Fill(p, s);
    } else {
      var g, up := path[1], path[2..];
      assert path'[1] == g && path'[2..] == up && path[1..][0] == g && path[1..][1..] == up;
      if IsRed(g.sibling) {
        assert !Balanced(Fill(p.(color := Black), s));
        FixLoopStaysBroken(Recolored(s, p, g, AsWritten), RecoloredPath(up, AsWritten));
      } else {
        var x := Restructure(s, p, g);
        if path[0].color.Red? && p.side != g.side {
          PlugKeeps(x, up);
        } else {
          assert !Balanced(x);
          if Balanced(Plug(x, up)) {
            PlugBalanced(x, up);
          }
        }
      }
    }
  }

  /** Exactly when one insert by the code as written turns a red-black tree into another. */
  lemma WrittenInsertExactly<R, V>(t: Tree<R, V>, k: int, v: V, ref: R)
    requires IsRedBlack(t)
    ensures IsRedBlack(Insert(t, k, v, ref, AsWritten)) <==> !Skews(Locate(t, k, []))
  {
    var path, n := Locate(t, k, []), NewNode(k, v, ref);
    LocateContext(t, k, []);
    WrittenFixExactly(n, path);
  }

  lemma WrittenFixExactly<R, V>(n: Tree<R, V>, path: seq<Frame<R, V>>)
    requires NoRedRed(n) && Balanced(n) && IsRed(n) && Context(path, BlackHeight(n))
    ensures IsRedBlack(InsertAt(n, path, AsWritten)) <==> !Skews(path)
  {
    if |path| >= 2 && path[0].color.Red? && IsRed(path[1].sibling) {
      var p, g, up := path[0], path[1], path[2..];
      assert path[1..][1..] == up && path[1..][0] == g;
      RecoloredKeeps(n, p, g, AsWritten);
      var s := Recolored(n, p, g, AsWritten);
      var r := FixLoop(s, RecoloredPath(up, AsWritten), AsWritten);
      assert FixLoop(n, path, AsWritten) == r;
      ColoredBalanced(r, Black);
      if up == [] {
        assert r == s;
      } else {
        assert up[0] == path[2] && (|up| >= 2 ==> up[1] == path[3]);
        AfterRedUncle(s, up, BlackHeight(n) + 1);
      }
    } else {
      PlugOrFix(n, path);
    }
  }

  ghost function Only(k: int, c: Color): Tree<(), int> {
    Node(Leaf, c, k, 0, (), Leaf)
  }

  lemma InsertOneTwo()
    ensures Insert(Leaf, 1, 0, (), AsWritten) == Only(1, Black)
    ensures Insert(Only(1, Black), 2, 0, (), AsWritten) == Node(Leaf, Black, 1, 0, (), Only(2, Red))
  {
    assert Locate(Only(1, Black), 2, []) == [Frame(WentRight, Black, 1, 0, (), Leaf)] + [];
  }

  lemma InsertThree()
    ensures Insert(Node(Leaf, Black, 1, 0, (), Only(2, Red)), 3, 0, (), AsWritten)
         == Node(Only(1, Red), Black, 2, 0, (), Only(3, Red))
  {
    var f1, f2: Frame<(), int> := Frame(WentRight, Black, 1, 0, (), Leaf), Frame(WentRight, Red, 2, 0, (), Leaf);
    var t := Node(Leaf, Black, 1, 0, (), Only(2, Red));
    assert Locate(Only(2, Red), 3, [f1]) == [f2] + [f1];
    assert Locate(t, 3, []) == [f2, f1] by { assert [f1] + [] == [f1]; }
    assert [f2, f1][2..] == [];
  }

  lemma InsertFour()
    ensures Insert(Node(Only(1, Red), Black, 2, 0, (), Only(3, Red)), 4, 0, (), AsWritten)
         == Node(Only(1, Black), Black, 2, 0, (), Node(Leaf, Black, 3, 0, (), Only(4, Red)))
  {
    var f1, f2 := Frame(WentRight, Black, 2, 0, (), Only(1, Red)), Frame(WentRight, Red, 3, 0, (), Leaf);
    var t := Node(Only(1, Red), Black, 2, 0, (), Only(3, Red));
    assert Locate(Only(3, Red), 4, [f1]) == [f2] + [f1];
    assert Locate(t, 4, []) == [f2, f1] by { assert [f1] + [] == [f1]; }
    assert [f2, f1][2..] == [];
    var s := Recolored(NewNode(4, 0, ()), f2, f1, AsWritten);
    assert FixLoop(s, [], AsWritten) == s;
  }

  lemma InsertFive(root: Tree<(), int>)
    requires root == Node(Only(1, Black), Black, 2, 0, (), Node(Leaf, Black, 3, 0, (), Only(4, Red)))
    ensures Insert(root, 5, 0, (), AsWritten)
         == root.(right := Node(Only(3, Red), Black, 4, 0, (), Only(5, Red)))
  {
    var f1, f2 := Frame(WentRight, Black, 2, 0, (), Only(1, Black)), Frame(WentRight, Black, 3, 0, (), Leaf);
    var f3: Frame<(), int> := Frame(WentRight, Red, 4, 0, (), Leaf);
    assert Locate(Only(4, Red), 5, [f2] + [f1]) == [f3] + ([f2] + [f1]);
    assert Locate(root.right, 5, [f1]) == Locate(Only(4, Red), 5, [f2] + [f1]);
    assert Locate(root, 5, []) == [f3, f2, f1] by { assert [f1] + [] == [f1]; }
    assert [f3, f2, f1][2..] == [f1];
    var x := Restructure(NewNode(5, 0, ()), f3, f2);
    assert Plug(x, [f1]) == Fill(f1, x) by { assert [f1][1..] == []; }
  }

  ghost function Ascending(n: nat): seq<(int, int)> {
    seq(n, i => (i + 1, 0))
  }

  lemma BuildAscending(n: nat)
    ensures Build(Ascending(n + 1), AsWritten) == Insert(Build(Ascending(n), AsWritten), n + 1, 0, (), AsWritten)
  {
    assert Ascending(n + 1)[..n] == Ascending(n);
  }

  /** As written, inserting 1 to 6 in order unbalances the tree; the first five inserts do not. */
  lemma AscendingSixUnbalance()
    ensures IsRedBlack(Build(Ascending(5), AsWritten))
    ensures !IsRedBlack(Build(Ascending(6), AsWritten))
  {
    var t5 := Node(Only(1, Black), Black, 2, 0, (), Node(Only(3, Red), Black, 4, 0, (), Only(5, Red)));
    BuildFive(t5);
    BuildAscending(5);
    SixthSkews(t5);
    hide Insert, Build, Locate, Skews, IsRedBlack, Ascending;
    WrittenInsertExactly(t5, 6, 0, ());
  }

  lemma BuildFive(t5: Tree<(), int>)
    requires t5 == Node(Only(1, Black), Black, 2, 0, (), Node(Only(3, Red), Black, 4, 0, (), Only(5, Red)))
    ensures Build(Ascending(5), AsWritten) == t5
  {
    assert Ascending(0) == [] && Build<int>([], AsWritten) == Leaf;
    hide Insert, Build, Ascending;
    BuildAscending(0);
    BuildAscending(1);
    BuildAscending(2);
    BuildAscending(3);
    BuildAscending(4);
    InsertOneTwo();
    InsertThree();
    InsertFour();
    InsertFive(t5.(right := Node(Leaf, Black, 3, 0, (), Only(4, Red))));
  }

  lemma SixthSkews(t: Tree<(), int>)
    requires t == Node(Only(1, Black), Black, 2, 0, (), Node(Only(3, Red), Black, 4, 0, (), Only(5, Red)))
    ensures IsRedBlack(t) && Skews(Locate(t, 6, []))
  {
    var f1, f2 := Frame(WentRight, Black, 2, 0, (), Only(1, Black)), Frame(WentRight, Black, 4, 0, (), Only(3, Red));
    var f3: Frame<(), int> := Frame(WentRight, Red, 5, 0, (), Leaf);
    assert Locate(Only(5, Red), 6, [f2] + [f1]) == [f3] + ([f2] + [f1]);
    assert Locate(t.right, 6, [f1]) == Locate(Only(5, Red), 6, [f2] + [f1]);
    assert Locate(t, 6, []) == [f3, f2, f1] by { assert [f1] + [] == [f1]; }
  }

  // ----- the missing null test

  /** Whether the loop, run literally, reads the colour of a null uncle: the uncle of a red
      left parent is read without the null test that the mirrored branch has. */
  ghost predicate ReadsNull<R, V>(t: Tree<R, V>, path: seq<Frame<R, V>>)
    requires t.Node?
    decreases |path|
  {
    && |path| >= 2 && path[0].color.Red?
    && ((path[1].side.WentLeft? && path[1].sibling.Leaf?)
        || (IsRed(path[1].sibling)
            && ReadsNull(Recolored(t, path[0], path[1], AsWritten), RecoloredPath(path[2..], AsWritten))))
  }

  lemma {:induction false} NoLeafAbove<R, V>(path: seq<Frame<R, V>>, h: nat, i: nat)
    requires Context(path, h) && h > 0 && i < |path|
    ensures path[i].sibling.Node?
  {
    if i > 0 {
      NoLeafAbove(path[1..], if path[0].color.Black? then h + 1 else h, i - 1);
    }
  }

  lemma {:induction false} NoNullAbove<R, V>(t: Tree<R, V>, path: seq<Frame<R, V>>)
    requires t.Node? && forall i :: 0 <= i < |path| ==> path[i].sibling.Node?
    ensures !ReadsNull(t, path)
    decreases |path|
  {
    if |path| >= 2 && path[0].color.Red? && IsRed(path[1].sibling) {
      NoNullAbove(Recolored(t, path[0], path[1], AsWritten), RecoloredPath(path[2..], AsWritten));
    }
  }

  /** On a red-black tree the literal loop reads through null exactly when the new node's
      parent is the red left child of a grandparent without a right child. */
  lemma NullReadExactly<R, V>(t: Tree<R, V>, k: int, v: V, ref: R)
    requires IsRedBlack(t)
    ensures var path := Locate(t, k, []);
      ReadsNull(NewNode(k, v, ref), path)
      <==> |path| >= 2 && path[0].color.Red? && path[1].side.WentLeft? && path[1].sibling.Leaf?
  {
    var path, n := Locate(t, k, []), NewNode(k, v, ref);
    LocateContext(t, k, []);
    if |path| >= 2 && path[0].color.Red? && IsRed(path[1].sibling) {
      var up := path[2..];
      assert path[1..][1..] == up && path[1..][0] == path[1];
      forall i | 0 <= i < |up|
        ensures up[i].sibling.Node?
      {
        NoLeafAbove(up, 1, i);
      }
      NoNullAbove(Recolored(n, path[0], path[1], AsWritten), RecoloredPath(up, AsWritten));
    }
  }

  /** Inserting 1 below 3 (black) and its left child 2 (red): the new node's parent has no sibling. */
  lemma NullReadWitness()
    ensures var t: Tree<(), int> := Node(Only(2, Red), Black, 3, 0, (), Leaf);
      IsRedBlack(t) && ReadsNull(NewNode(1, 0, ()), Locate(t, 1, []))
  {
    var t: Tree<(), int> := Node(Only(2, Red), Black, 3, 0, (), Leaf);
    assert IsRedBlack(t);
    NullReadExactly(t, 1, 0, ());
  }
}
