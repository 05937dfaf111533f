/** The directory tree on node objects: insertion, fixup and lookup update and follow the
    node pointers in place, and refine the functions of RbShape. */
module RbTree {
  import opened Common
  import opened RbShape
  import RbBalance

  class TreeNode<V> {
    const key: int
    const content: V
    var color: Color
    var left: TreeNode?<V>
    var right: TreeNode?<V>
    var parent: TreeNode?<V>

    constructor (key: int, content: V, parent: TreeNode?<V>)
      ensures this.key == key && this.content == content && this.parent == parent
      ensures color == Red && left == null && right == null
    {
      this.key, this.content, this.parent := key, content, parent;
      color, left, right := Red, null, null;
    }
  }

  type Shape<V> = Tree<TreeNode<V>, V>
  type Step<V> = Frame<TreeNode<V>, V>

  // ----- how node objects mirror a tree value

  ghost function Refs<V>(t: Shape<V>): set<TreeNode<V>> {
    if t.Leaf? then {} else {t.ref} + Refs(t.left) + Refs(t.right)
  }

  ghost function PathRefs<V>(path: seq<Step<V>>): set<TreeNode<V>> {
    if path == [] then {} else {path[0].ref} + Refs(path[0].sibling) + PathRefs(path[1..])
  }

  ghost function Parent<V>(path: seq<Step<V>>): TreeNode?<V> {
    if path == [] then null else path[0].ref
  }

  ghost predicate Carries<V>(n: TreeNode<V>, c: Color, k: int, v: V)
    reads n
  {
    n.color == c && n.key == k && n.content == v
  }

  /** `n` is the root object of `t`, every child points back to its parent, and no object
      occurs twice. */
  ghost predicate Mirrors<V>(t: Shape<V>, n: TreeNode?<V>, parent: TreeNode?<V>)
    reads Refs(t)
  {
    match t
    case Leaf => n == null
    case Node(l, c, k, v, ref, r) =>
      && n == ref && Carries(ref, c, k, v) && ref.parent == parent
      && ref !in Refs(l) && ref !in Refs(r) && Refs(l) !! Refs(r)
      && Mirrors(l, ref.left, ref) && Mirrors(r, ref.right, ref)
  }

  /** The objects on `path` surround `child`, up to `root`. */
  ghost predicate Surrounds<V>(path: seq<Step<V>>, child: TreeNode?<V>, root: TreeNode?<V>)
    reads PathRefs(path)
  {
    if path == [] then root == child
    else
      var f, up := path[0], path[1..];
      && Carries(f.ref, f.color, f.key, f.value) && f.ref.parent == Parent(up)
      && f.ref !in Refs(f.sibling) && f.ref !in PathRefs(up) && Refs(f.sibling) !! PathRefs(up)
      && (match f.side
          case WentLeft => f.ref.left == child && Mirrors(f.sibling, f.ref.right, f.ref)
          case WentRight => f.ref.right == child && Mirrors(f.sibling, f.ref.left, f.ref))
      && Surrounds(up, f.ref, root)
  }

  /** Node `n` is the root of subtree `t`, which sits below `path` in the tree at `root`. */
  ghost predicate At<V>(t: Shape<V>, path: seq<Step<V>>, n: TreeNode?<V>, root: TreeNode?<V>)
    reads Refs(t), PathRefs(path)
  {
    Mirrors(t, n, Parent(path)) && Surrounds(path, n, root) && Refs(t) !! PathRefs(path)
  }

  ghost function AllRefs<V>(t: Shape<V>, path: seq<Step<V>>): set<TreeNode<V>> {
    Refs(t) + PathRefs(path)
  }

  lemma ZoomOut<V>(t: Shape<V>, path: seq<Step<V>>, n: TreeNode?<V>, root: TreeNode?<V>)
    requires path != [] && At(t, path, n, root)
    ensures At(Fill(path[0], t), path[1..], path[0].ref, root)
    ensures AllRefs(Fill(path[0], t), path[1..]) == AllRefs(t, path)
  {
  }

  /** The step to the sibling of the subtree `t` at step `g`. */
  ghost function Beside<V>(g: Step<V>, t: Shape<V>): Step<V> {
    Frame(if g.side.WentLeft? then WentRight else WentLeft, g.color, g.key, g.value, g.ref, t)
  }

  lemma ZoomIn<V>(f: Step<V>, t: Shape<V>, path: seq<Step<V>>, root: TreeNode?<V>)
    requires At(Fill(f, t), path, f.ref, root)
    ensures At(t, [f] + path, if f.side.WentLeft? then f.ref.left else f.ref.right, root)
    ensures AllRefs(t, [f] + path) == AllRefs(Fill(f, t), path)
  {
    assert ([f] + path)[1..] == path;
  }

  lemma {:induction false} ZoomOutAll<V>(t: Shape<V>, path: seq<Step<V>>, n: TreeNode?<V>, root: TreeNode?<V>)
    requires At(t, path, n, root)
    ensures Mirrors(Plug(t, path), root, null)
    ensures Refs(Plug(t, path)) == AllRefs(t, path)
    decreases |path|
  {
    if path != [] {
      ZoomOut(t, path, n, root);
      ZoomOutAll(Fill(path[0], t), path[1..], path[0].ref, root);
    }
  }

  // ----- rotations on values

  ghost function RotatedLeft<V>(t: Shape<V>): Shape<V>
    requires t.Node? && t.right.Node?
  {
    t.right.(left := t.(right := t.right.left))
  }

  ghost function RotatedRight<V>(t: Shape<V>): Shape<V>
    requires t.Node? && t.left.Node?
  {
    t.left.(right := t.(left := t.left.right))
  }

  // ----- opening and closing a rotation

  /** The three subtrees a left rotation regroups, and the objects they stay clear of. */
  ghost predicate Clear<V>(x: TreeNode<V>, y: TreeNode<V>, a: Shape<V>, b: Shape<V>, c: Shape<V>, path: seq<Step<V>>) {
    && x != y && x !in PathRefs(path) && y !in PathRefs(path)
    && x !in Refs(a) && x !in Refs(b) && x !in Refs(c) && y !in Refs(a) && y !in Refs(b) && y !in Refs(c)
    && Refs(a) !! Refs(b) && Refs(a) !! Refs(c) && Refs(b) !! Refs(c)
    && Refs(a) !! PathRefs(path) && Refs(b) !! PathRefs(path) && Refs(c) !! PathRefs(path)
  }

  lemma OpenLeft<V>(t: Shape<V>, path: seq<Step<V>>, x: TreeNode<V>, root: TreeNode?<V>)
    requires At(t, path, x, root) && t.Node? && t.right.Node?
    ensures var y, a, b, c := t.right.ref, t.left, t.right.left, t.right.right;
      && x == t.ref && x.right == y && y.parent == x && x.parent == Parent(path)
      && Carries(x, t.color, t.key, t.value) && Carries(y, t.right.color, t.right.key, t.right.value)
      && Mirrors(a, x.left, x) && Mirrors(b, y.left, y) && Mirrors(c, y.right, y)
      && (y.left != null ==> y.left in Refs(b))
      && Clear(x, y, a, b, c, path) && Surrounds(path, x, root)
      && Refs(t) == {x, y} + Refs(a) + Refs(b) + Refs(c)
  {
    assert Mirrors(t.right, x.right, x) && Refs(t) == {x} + Refs(t.left) + Refs(t.right);
  }

  lemma CloseLeft<V>(t: Shape<V>, path: seq<Step<V>>, root: TreeNode?<V>)
    requires t.Node? && t.right.Node?
    requires var x, y, a, b, c := t.ref, t.right.ref, t.left, t.right.left, t.right.right;
      && y.left == x && x.parent == y && y.parent == Parent(path)
      && Carries(x, t.color, t.key, t.value) && Carries(y, t.right.color, t.right.key, t.right.value)
      && Mirrors(a, x.left, x) && Mirrors(b, x.right, x) && Mirrors(c, y.right, y)
      && Clear(x, y, a, b, c, path) && Surrounds(path, y, root)
    ensures At(RotatedLeft(t), path, t.right.ref, root)
    ensures Refs(RotatedLeft(t)) == Refs(t)
  {
    assert Mirrors(t.(right := t.right.left), t.ref, t.right.ref);
  }

  lemma OpenRight<V>(t: Shape<V>, path: seq<Step<V>>, x: TreeNode<V>, root: TreeNode?<V>)
    requires At(t, path, x, root) && t.Node? && t.left.Node?
    ensures var y, a, b, c := t.left.ref, t.right, t.left.right, t.left.left;
      && x == t.ref && x.left == y && y.parent == x && x.parent == Parent(path)
      && Carries(x, t.color, t.key, t.value) && Carries(y, t.left.color, t.left.key, t.left.value)
      && Mirrors(a, x.right, x) && Mirrors(b, y.right, y) && Mirrors(c, y.left, y)
      && (y.right != null ==> y.right in Refs(b))
      && Clear(x, y, a, b, c, path) && Surrounds(path, x, root)
      && Refs(t) == {x, y} + Refs(a) + Refs(b) + Refs(c)
  {
    assert Mirrors(t.left, x.left, x) && Refs(t) == {x} + Refs(t.left) + Refs(t.right);
  }

  lemma CloseRight<V>(t: Shape<V>, path: seq<Step<V>>, root: TreeNode?<V>)
    requires t.Node? && t.left.Node?
    requires var x, y, a, b, c := t.ref, t.left.ref, t.right, t.left.right, t.left.left;
      && y.right == x && x.parent == y && y.parent == Parent(path)
      && Carries(x, t.color, t.key, t.value) && Carries(y, t.left.color, t.left.key, t.left.value)
      && Mirrors(a, x.right, x) && Mirrors(b, x.left, x) && Mirrors(c, y.left, y)
      && Clear(x, y, a, b, c, path) && Surrounds(path, y, root)
    ensures At(RotatedRight(t), path, t.left.ref, root)
    ensures Refs(RotatedRight(t)) == Refs(t)
  {
    assert Mirrors(t.(left := t.left.right), t.ref, t.left.ref);
  }

  class Directory<V> {
    var root: TreeNode?<V>
    ghost var tree: Shape<V>
    const variant: Variant

    ghost predicate Valid()
      reads this, Refs(tree)
    {
      Mirrors(tree, root, null) && Sorted(InOrder(tree))
    }

    constructor (variant: Variant)
      ensures Valid() && tree == Leaf && this.variant == variant && RbBalance.IsRedBlack(tree)
    {
      this.variant := variant;
      root, tree := null, Leaf;
    }

    /** Hangs `y` below the parent of `x` instead of `x`. */
    method ReplaceChild(x: TreeNode<V>, y: TreeNode<V>, ghost path: seq<Step<V>>)
      requires Surrounds(path, x, root) && x.parent == Parent(path) && x !in PathRefs(path)
      modifies this`root, PathRefs(path)`left, PathRefs(path)`right
      ensures Surrounds(path, y, root)
    {
      if x.parent == null {
        root := y;
      } else {
        ghost var f, up := path[0], path[1..];
        assert f.side.WentRight? ==> f.ref.left != x;
        if x == x.parent.left {
          x.parent.left := y;
        } else {
          x.parent.right := y;
        }
      }
    }

    method LeftRotate(x: TreeNode<V>, ghost t: Shape<V>, ghost path: seq<Step<V>>)
      requires At(t, path, x, root) && t.Node? && t.right.Node?
      modifies this`root, AllRefs(t, path)
      ensures At(RotatedLeft(t), path, t.right.ref, root)
      ensures Refs(RotatedLeft(t)) == Refs(t)
    {
      ghost var a, b, c := t.left, t.right.left, t.right.right;
      OpenLeft(t, path, x, root);
      var y := x.right;
      assert allocated(Refs(t)) && allocated(PathRefs(path));
      hide Mirrors, Surrounds, Refs, PathRefs, At, Parent, Carries;
      MoveInnerLeft(x, y, a, b, c, path);
      ReplaceChild(x, y, path);
      HangLeft(x, y, t, path);
    }

    /** The last step of a left rotation: `x` becomes the left child of `y`. */
    method HangLeft(x: TreeNode<V>, y: TreeNode<V>, ghost t: Shape<V>, ghost path: seq<Step<V>>)
      requires t.Node? && t.right.Node? && x == t.ref && y == t.right.ref && y.parent == Parent(path)
      requires Carries(x, t.color, t.key, t.value) && Carries(y, t.right.color, t.right.key, t.right.value)
      requires Clear(x, y, t.left, t.right.left, t.right.right, path) && Surrounds(path, y, root)
      requires Mirrors(t.left, x.left, x) && Mirrors(t.right.left, x.right, x) && Mirrors(t.right.right, y.right, y)
      modifies y`left, x`parent
      ensures At(RotatedLeft(t), path, y, root)
      ensures Refs(RotatedLeft(t)) == Refs(t)
    {
      hide Mirrors, Surrounds, Refs, PathRefs, At, Parent;
      y.left := x;
      x.parent := y;
      CloseLeft(t, path, root);
    }

    /** The first half of a left rotation: the inner subtree `b` moves from `y` to `x`. */
    method MoveInnerLeft(x: TreeNode<V>, y: TreeNode<V>,
        ghost a: Shape<V>, ghost b: Shape<V>, ghost c: Shape<V>, ghost path: seq<Step<V>>)
      requires Clear(x, y, a, b, c, path) && Surrounds(path, x, root)
      requires Mirrors(a, x.left, x) && Mirrors(b, y.left, y) && Mirrors(c, y.right, y)
      requires y.left != null ==> y.left in Refs(b)
      modifies x`right, y`parent, Refs(b)`parent
      ensures y.parent == x.parent
      ensures Surrounds(path, x, root)
      ensures Mirrors(a, x.left, x) && Mirrors(b, x.right, x) && Mirrors(c, y.right, y)
    {
      assert allocated(Refs(a)) && allocated(Refs(b)) && allocated(Refs(c)) && allocated(PathRefs(path));
      hide Mirrors, Surrounds, Refs, PathRefs;
      x.right := y.left;
      if y.left != null {
        SetParent(y.left, x, b, y);
      }
      y.parent := x.parent;
    }

    method RightRotate(x: TreeNode<V>, ghost t: Shape<V>, ghost path: seq<Step<V>>)
      requires At(t, path, x, root) && t.Node? && t.left.Node?
      modifies this`root, AllRefs(t, path)
      ensures At(RotatedRight(t), path, t.left.ref, root)
      ensures Refs(RotatedRight(t)) == Refs(t)
    {
      ghost var a, b, c := t.right, t.left.right, t.left.left;
      OpenRight(t, path, x, root);
      var y := x.left;
      assert allocated(Refs(t)) && allocated(PathRefs(path));
      hide Mirrors, Surrounds, Refs, PathRefs, At, Parent, Carries;
      MoveInnerRight(x, y, a, b, c, path);
      ReplaceChild(x, y, path);
      HangRight(x, y, t, path);
    }

    /** The last step of a right rotation: `x` becomes the right child of `y`. */
    method HangRight(x: TreeNode<V>, y: TreeNode<V>, ghost t: Shape<V>, ghost path: seq<Step<V>>)
      requires t.Node? && t.left.Node? && x == t.ref && y == t.left.ref && y.parent == Parent(path)
      requires Carries(x, t.color, t.key, t.value) && Carries(y, t.left.color, t.left.key, t.left.value)
      requires Clear(x, y, t.right, t.left.right, t.left.left, path) && Surrounds(path, y, root)
      requires Mirrors(t.right, x.right, x) && Mirrors(t.left.right, x.left, x) && Mirrors(t.left.left, y.left, y)
      modifies y`right, x`parent
      ensures At(RotatedRight(t), path, y, root)
      ensures Refs(RotatedRight(t)) == Refs(t)
    {
      hide Mirrors, Surrounds, Refs, PathRefs, At, Parent;
      y.right := x;
      x.parent := y;
      CloseRight(t, path, root);
    }

    /** The first half of a right rotation: the inner subtree `b` moves from `y` to `x`. */
    method MoveInnerRight(x: TreeNode<V>, y: TreeNode<V>,
        ghost a: Shape<V>, ghost b: Shape<V>, ghost c: Shape<V>, ghost path: seq<Step<V>>)
      requires Clear(x, y, a, b, c, path) && Surrounds(path, x, root)
      requires Mirrors(a, x.right, x) && Mirrors(b, y.right, y) && Mirrors(c, y.left, y)
      requires y.right != null ==> y.right in Refs(b)
      modifies x`left, y`parent, Refs(b)`parent
      ensures y.parent == x.parent
      ensures Surrounds(path, x, root)
      ensures Mirrors(a, x.right, x) && Mirrors(b, x.left, x) && Mirrors(c, y.left, y)
    {
      assert allocated(Refs(a)) && allocated(Refs(b)) && allocated(Refs(c)) && allocated(PathRefs(path));
      hide Mirrors, Surrounds, Refs, PathRefs;
      x.left := y.right;
      if y.right != null {
        SetParent(y.right, x, b, y);
      }
      y.parent := x.parent;
    }

    /** `n.parent = p` for the root `n` of a subtree. */
    method SetParent(n: TreeNode<V>, p: TreeNode<V>, ghost t: Shape<V>, ghost was: TreeNode<V>)
      requires Mirrors(t, n, was) && n in Refs(t)
      modifies n`parent
      ensures Mirrors(t, n, p)
    {
      n.parent := p;
    }

    method SetColor(n: TreeNode<V>, c: Color, ghost t: Shape<V>, ghost path: seq<Step<V>>)
      requires At(t, path, n, root) && t.Node?
      modifies n`color
      ensures At(Colored(t, c), path, n, root)
      ensures Refs(Colored(t, c)) == Refs(t)
    {
      n.color := c;
    }

    // ----- the fixup cases

    /** The red-uncle case: recolours and returns the grandparent. */
    method RecolorUncle(n: TreeNode<V>, y: TreeNode<V>, ghost t: Shape<V>, ghost path: seq<Step<V>>)
      returns (m: TreeNode<V>)
      requires At(t, path, n, root) && t.Node? && |path| >= 2
      requires IsRed(path[1].sibling) && y == path[1].sibling.ref
      modifies AllRefs(t, path)`color
      ensures At(Recolored(t, path[0], path[1], variant), RecoloredPath(path[2..], variant), m, root)
      ensures AllRefs(Recolored(t, path[0], path[1], variant), RecoloredPath(path[2..], variant)) == AllRefs(t, path)
    {
      ghost var p, g, up := path[0], path[1], path[2..];
      assert path[1..][0] == g && path[1..][1..] == up;
      BlackenParent(n, t, path);
      ghost var t1 := Fill(p.(color := Black), t);
      ParentIs(t1, path[1..], n.parent, root);
      m := n.parent.parent;
      BlackenUncle(n.parent, y, t1, path[1..]);
      RecolorAbove(m, Fill(Beside(g, t1), Colored(g.sibling, Black)), up);
    }

    method BlackenParent(n: TreeNode<V>, ghost t: Shape<V>, ghost path: seq<Step<V>>)
      requires At(t, path, n, root) && t.Node? && path != []
      modifies AllRefs(t, path)`color
      ensures n.parent == path[0].ref
      ensures At(Fill(path[0].(color := Black), t), path[1..], n.parent, root)
      ensures AllRefs(Fill(path[0].(color := Black), t), path[1..]) == AllRefs(t, path)
    {
      ParentIs(t, path, n, root);
      ZoomOut(t, path, n, root);
      SetColor(n.parent, Black, Fill(path[0], t), path[1..]);
    }

    method BlackenUncle(p: TreeNode<V>, y: TreeNode<V>, ghost t: Shape<V>, ghost path: seq<Step<V>>)
      requires At(t, path, p, root) && t.Node? && path != []
      requires path[0].sibling.Node? && y == path[0].sibling.ref
      modifies AllRefs(t, path)`color
      ensures At(Fill(Beside(path[0], t), Colored(path[0].sibling, Black)), path[1..], path[0].ref, root)
      ensures AllRefs(Fill(Beside(path[0], t), Colored(path[0].sibling, Black)), path[1..]) == AllRefs(t, path)
    {
      ghost var g, up := path[0], path[1..];
      ghost var f := Beside(g, t);
      ZoomOut(t, path, p, root);
      assert Fill(f, g.sibling) == Fill(g, t);
      ZoomIn(f, g.sibling, up, root);
      assert ([f] + up)[0] == f && ([f] + up)[1..] == up;
      SetColor(y, Black, g.sibling, [f] + up);
      ZoomOut(Colored(g.sibling, Black), [f] + up, y, root);
    }

    /** The recolouring of the grandparent `m`, or as written of its parent. */
    method RecolorAbove(m: TreeNode<V>, ghost t: Shape<V>, ghost up: seq<Step<V>>)
      requires At(t, up, m, root) && t.Node?
      modifies AllRefs(t, up)`color
      ensures var t' := if variant.AsMeant? then Colored(t, Red) else t;
        At(t', RecoloredPath(up, variant), m, root) && AllRefs(t', RecoloredPath(up, variant)) == AllRefs(t, up)
    {
      if variant.AsMeant? {
        SetColor(m, Red, t, up);
      } else if m.parent != null {
        ParentIs(t, up, m, root);
        ZoomOut(t, up, m, root);
        SetColor(m.parent, Red, Fill(up[0], t), up[1..]);
        ZoomIn(up[0].(color := Red), t, up[1..], root);
      }
    }

    /** The rotation cases below a left grandparent link. Returns the node the loop goes on with. */
    method RestructureLeft(n: TreeNode<V>, ghost t: Shape<V>, ghost path: seq<Step<V>>) returns (m: TreeNode<V>)
      requires At(t, path, n, root) && t.Node? && |path| >= 2 && path[1].side.WentLeft?
      modifies this`root, AllRefs(t, path)
      ensures var s := Restructure(t, path[0], path[1]);
        At(s, path[2..], s.ref, root) && m == s.left.ref && AllRefs(s, path[2..]) == AllRefs(t, path)
    {
      m := n;
      ghost var p, g, up := path[0], path[1], path[2..];
      assert path[1..][0] == g && path[1..][1..] == up;
      ParentIs(t, path, n, root);
      ZoomOut(t, path, n, root);
      ghost var t1 := Fill(p, t);
      if n == n.parent.right {
        RightChildSide(t, path, n, root);
        m := n.parent;
        LeftRotate(m, t1, path[1..]);
        t1 := RotatedLeft(t1);
      } else {
        LeftChildSide(t, path, n, root);
      }
      RaiseLeft(m, t1, path[1..]);
    }

    /** Recolours the parent black and the grandparent red, and rotates the grandparent right. */
    method RaiseLeft(m: TreeNode<V>, ghost t: Shape<V>, ghost path: seq<Step<V>>)
      requires path != [] && path[0].side.WentLeft? && t.Node? && At(t, path, t.ref, root)
      requires t.left.Node? && m == t.left.ref
      modifies this`root, AllRefs(t, path)
      ensures var g := path[0];
        var s := t.(color := Black, right := Node(t.right, Red, g.key, g.value, g.ref, g.sibling));
        At(s, path[1..], s.ref, root) && AllRefs(s, path[1..]) == AllRefs(t, path)
    {
      ghost var g, up := path[0], path[1..];
      ChildParent(t, path, root);
      ParentIs(t, path, t.ref, root);
      SetColor(m.parent, Black, t, path);
      ZoomOut(Colored(t, Black), path, m.parent, root);
      ghost var t2 := Fill(g, Colored(t, Black));
      SetColor(m.parent.parent, Red, t2, up);
      RightRotate(m.parent.parent, Colored(t2, Red), up);
    }

    /** The mirror of RestructureLeft. */
    method RestructureRight(n: TreeNode<V>, ghost t: Shape<V>, ghost path: seq<Step<V>>) returns (m: TreeNode<V>)
      requires At(t, path, n, root) && t.Node? && |path| >= 2 && path[1].side.WentRight?
      modifies this`root, AllRefs(t, path)
      ensures var s := Restructure(t, path[0], path[1]);
        At(s, path[2..], s.ref, root) && m == s.right.ref && AllRefs(s, path[2..]) == AllRefs(t, path)
    {
      m := n;
      ghost var p, g, up := path[0], path[1], path[2..];
      assert path[1..][0] == g && path[1..][1..] == up;
      ParentIs(t, path, n, root);
      ZoomOut(t, path, n, root);
      ghost var t1 := Fill(p, t);
      if n == n.parent.left {
        LeftChildSide(t, path, n, root);
        m := n.parent;
        RightRotate(m, t1, path[1..]);
        t1 := RotatedRight(t1);
      } else {
        RightChildSide(t, path, n, root);
      }
      RaiseRight(m, t1, path[1..]);
    }

    /** The mirror of RaiseLeft. */
    method RaiseRight(m: TreeNode<V>, ghost t: Shape<V>, ghost path: seq<Step<V>>)
      requires path != [] && path[0].side.WentRight? && t.Node? && At(t, path, t.ref, root)
      requires t.right.Node? && m == t.right.ref
      modifies this`root, AllRefs(t, path)
      ensures var g := path[0];
        var s := t.(color := Black, left := Node(g.sibling, Red, g.key, g.value, g.ref, t.left));
        At(s, path[1..], s.ref, root) && AllRefs(s, path[1..]) == AllRefs(t, path)
    {
      ghost var g, up := path[0], path[1..];
      ChildParent(t, path, root);
      ParentIs(t, path, t.ref, root);
      SetColor(m.parent, Black, t, path);
      ZoomOut(Colored(t, Black), path, m.parent, root);
      ghost var t2 := Fill(g, Colored(t, Black));
      SetColor(m.parent.parent, Red, t2, up);
      LeftRotate(m.parent.parent, Colored(t2, Red), up);
    }

    // ----- insertion

    /** The fixup loop, both branches testing for a null uncle. */
    method InsertionFixup(newNode: TreeNode<V>, ghost t0: Shape<V>, ghost path0: seq<Step<V>>)
      requires At(t0, path0, newNode, root) && t0.Node?
      modifies this`root, this`tree, AllRefs(t0, path0)
      ensures tree == InsertAt(t0, path0, variant)
      ensures Mirrors(tree, root, null) && Refs(tree) == AllRefs(t0, path0)
    {
      ghost var t, path := t0, path0;
      ParentIs(t, path, newNode, root);
      if newNode.parent != null && newNode.parent.color == Black {
        tree := Plug(t, path);
        ZoomOutAll(t, path, newNode, root);
        return;
      }
      var n := newNode;
      RootIsAbove(t, path, n, root);
      while n != root && n.parent.parent != null && n.parent.color == Red
        invariant t.Node? && At(t, path, n, root) && AllRefs(t, path) == AllRefs(t0, path0)
        invariant n.parent == Parent(path)
        invariant path == [] <==> n == root
        invariant path != [] ==> n.parent.parent == Parent(path[1..]) && n.parent.color == path[0].color
        invariant FixLoop(t, path, variant) == FixLoop(t0, path0, variant)
        decreases |path|
      {
        n, t, path := FixupStep(n, t, path);
        ParentIs(t, path, n, root);
        RootIsAbove(t, path, n, root);
      }
      ZoomOutAll(t, path, n, root);
      tree := Plug(t, path);
      SetColor(root, Black, tree, []);
      tree := Colored(tree, Black);
    }

    /** One turn of the loop. */
    method FixupStep(n: TreeNode<V>, ghost t: Shape<V>, ghost path: seq<Step<V>>)
      returns (m: TreeNode<V>, ghost s: Shape<V>, ghost above: seq<Step<V>>)
      requires At(t, path, n, root) && t.Node? && |path| >= 2 && path[0].color.Red?
      modifies this`root, AllRefs(t, path)
      ensures s.Node? && At(s, above, m, root) && AllRefs(s, above) == AllRefs(t, path)
      ensures |above| < |path|
      ensures FixLoop(s, above, variant) == FixLoop(t, path, variant)
    {
      ghost var p, g, up := path[0], path[1], path[2..];
      GrandparentSide(t, path, n, root);
      if n.parent == n.parent.parent.left {
        var y := n.parent.parent.right;
        if y != null && y.color == Red {
          m := RecolorUncle(n, y, t, path);
          s, above := Recolored(t, p, g, variant), RecoloredPath(up, variant);
        } else {
          m := RestructureLeft(n, t, path);
          s, above := BelowLeft(Restructure(t, p, g), t, path, up);
        }
      } else {
        var y := n.parent.parent.left;
        if y != null && y.color == Red {
          m := RecolorUncle(n, y, t, path);
          s, above := Recolored(t, p, g, variant), RecoloredPath(up, variant);
        } else {
          m := RestructureRight(n, t, path);
          s, above := BelowRight(Restructure(t, p, g), t, path, up);
        }
      }
    }

    /** After a restructuring the loop looks at a child of the new subtree root, whose parent
        is black, and stops. */
    lemma BelowLeft(r: Shape<V>, t: Shape<V>, path: seq<Step<V>>, up: seq<Step<V>>)
      returns (s: Shape<V>, above: seq<Step<V>>)
      requires t.Node? && |path| >= 2 && path[0].color.Red? && !IsRed(path[1].sibling) && up == path[2..]
      requires r == Restructure(t, path[0], path[1]) && At(r, up, r.ref, root) && r.left.Node?
      ensures s == r.left && At(s, above, s.ref, root) && AllRefs(s, above) == AllRefs(r, up)
      ensures |above| == |up| + 1
      ensures FixLoop(s, above, variant) == FixLoop(t, path, variant)
    {
      var f := Frame(WentLeft, Black, r.key, r.value, r.ref, r.right);
      s, above := r.left, [f] + up;
      assert Fill(f, s) == r && above[1..] == up;
      ZoomIn(f, s, up, root);
      assert Mirrors(s, r.ref.left, r.ref);
    }

    lemma BelowRight(r: Shape<V>, t: Shape<V>, path: seq<Step<V>>, up: seq<Step<V>>)
      returns (s: Shape<V>, above: seq<Step<V>>)
      requires t.Node? && |path| >= 2 && path[0].color.Red? && !IsRed(path[1].sibling) && up == path[2..]
      requires r == Restructure(t, path[0], path[1]) && At(r, up, r.ref, root) && r.right.Node?
      ensures s == r.right && At(s, above, s.ref, root) && AllRefs(s, above) == AllRefs(r, up)
      ensures |above| == |up| + 1
      ensures FixLoop(s, above, variant) == FixLoop(t, path, variant)
    {
      var f := Frame(WentRight, Black, r.key, r.value, r.ref, r.left);
      s, above := r.right, [f] + up;
      assert Fill(f, s) == r && above[1..] == up;
      ZoomIn(f, s, up, root);
      assert Mirrors(s, r.ref.right, r.ref);
    }

    /** Inserts a pair: descends to a leaf, hangs a red node there and fixes the colours up.
        The bag of contents gains exactly this pair and the search order is kept. */
    method Insert(key: int, data: V)
      requires Valid()
      modifies this, Refs(tree)
      ensures Valid() && fresh(Refs(tree) - old(Refs(tree)))
      ensures exists n :: fresh(n) && tree == RbShape.Insert(old(tree), key, data, n, variant)
      ensures multiset(InOrder(tree)) == multiset(InOrder(old(tree))) + multiset{(key, data)}
      ensures variant.AsMeant? && RbBalance.IsRedBlack(old(tree)) ==> RbBalance.IsRedBlack(tree)
    {
      var parent; ghost var path;
      parent, path := Descend(key);
      assert allocated(PathRefs(path));
      hide Mirrors, Surrounds, Refs, PathRefs, RbShape.Insert, InsertAt, InOrder, Sorted;
      var n := new TreeNode(key, data, parent);
      InsertAddsOne(tree, key, data, n, variant);
      Link(n, parent, path);
      InsertionFixup(n, NewNode(key, data, n), path);
      InsertIs(old(tree), key, data, n, path);
      if variant.AsMeant? && RbBalance.IsRedBlack(old(tree)) {
        RbBalance.InsertKeepsRedBlack(old(tree), key, data, n);
      }
    }

    lemma InsertIs(t: Shape<V>, key: int, data: V, n: TreeNode<V>, path: seq<Step<V>>)
      requires path == Locate(t, key, [])
      ensures RbShape.Insert(t, key, data, n, variant) == InsertAt(NewNode(key, data, n), path, variant)
    {
    }

    /** Walks down to the empty place where `key` belongs. */
    method Descend(key: int) returns (parent: TreeNode?<V>, ghost path: seq<Step<V>>)
      requires Valid()
      ensures path == Locate(tree, key, [])
      ensures At(Leaf, path, null, root) && PathRefs(path) == Refs(tree)
      ensures parent == Parent(Locate(tree, key, []))
      ensures path != [] ==> (path[0].side.WentLeft? <==> key < path[0].key)
    {
      var current := root;
      parent := null;
      ghost var t := tree;
      path := [];
      while current != null
        invariant At(t, path, current, root) && AllRefs(t, path) == Refs(tree)
        invariant parent == Parent(path)
        invariant path != [] ==> (path[0].side.WentLeft? <==> key < path[0].key)
        invariant Locate(t, key, path) == Locate(tree, key, [])
        decreases t
      {
        parent := current;
        if key < current.key {
          ghost var f := Frame(WentLeft, t.color, t.key, t.value, t.ref, t.right);
          ZoomIn(f, t.left, path, root);
          current := current.left;
          t, path := t.left, [f] + path;
        } else {
          ghost var f := Frame(WentRight, t.color, t.key, t.value, t.ref, t.left);
          ZoomIn(f, t.right, path, root);
          current := current.right;
          t, path := t.right, [f] + path;
        }
      }
      assert t.Leaf? && Locate(t, key, path) == path;
    }

    /** Hangs the new node below the leaf's parent. */
    method Link(n: TreeNode<V>, parent: TreeNode?<V>, ghost path: seq<Step<V>>)
      requires At(Leaf, path, null, root) && parent == Parent(path) && n.parent == parent
      requires n !in PathRefs(path) && n.color == Red && n.left == null && n.right == null
      requires path != [] ==> (path[0].side.WentLeft? <==> n.key < path[0].key)
      modifies this`root, PathRefs(path)`left, PathRefs(path)`right
      ensures At(NewNode(n.key, n.content, n), path, n, root)
    {
      if parent == null {
        root := n;
      } else if n.key < parent.key {
        parent.left := n;
      } else {
        parent.right := n;
      }
    }

    // ----- lookup

    method FindNode(key: int) returns (n: TreeNode?<V>)
      requires Valid()
      ensures n == null <==> Find(tree, key).Leaf?
      ensures n != null ==> Find(tree, key).ref == n && n.content == Find(tree, key).value
    {
      n := root;
      ghost var t, parent: TreeNode?<V> := tree, null;
      while n != null
        invariant Mirrors(t, n, parent) && Find(t, key) == Find(tree, key)
        decreases t
      {
        if key == n.key {
          return;
        } else if key < n.key {
          t, parent := t.left, t.ref;
          n := n.left;
        } else {
          t, parent := t.right, t.ref;
          n := n.right;
        }
      }
    }

    /** Succeeds exactly for the keys inserted, with a value inserted under that key. */
    method GetValue(key: int) returns (found: bool, value: Option<V>)
      requires Valid()
      ensures found <==> HasKey(InOrder(tree), key)
      ensures found <==> value.Some?
      ensures found ==> (key, value.value) in InOrder(tree)
      ensures found ==> Find(tree, key).Node? && value == Some(Find(tree, key).value)
    {
      var n := FindNode(key);
      FindIsComplete(tree, key);
      if n == null {
        return false, None;
      }
      return true, Some(n.content);
    }
  }

  /** A parent's child pointer tells which side of its own parent it is on. */
  lemma GrandparentSide<V>(t: Shape<V>, path: seq<Step<V>>, n: TreeNode<V>, root: TreeNode?<V>)
    requires At(t, path, n, root) && |path| >= 2
    ensures n.parent == path[0].ref && n.parent.parent == path[1].ref
    ensures path[0].ref == path[1].ref.left <==> path[1].side.WentLeft?
    ensures path[1].side.WentLeft? ==> Mirrors(path[1].sibling, path[1].ref.right, path[1].ref)
    ensures path[1].side.WentRight? ==> Mirrors(path[1].sibling, path[1].ref.left, path[1].ref)
  {
    assert path[1..][0] == path[1];
    ZoomOut(t, path, n, root);
    LeftChildSide(Fill(path[0], t), path[1..], path[0].ref, root);
  }

  lemma {:induction false} RootIsAbove<V>(t: Shape<V>, path: seq<Step<V>>, n: TreeNode?<V>, root: TreeNode?<V>)
    requires At(t, path, n, root)
    ensures if path == [] then root == n else root != null && root in PathRefs(path)
    decreases |path|
  {
    if path != [] {
      ZoomOut(t, path, n, root);
      RootIsAbove(Fill(path[0], t), path[1..], path[0].ref, root);
    }
  }

  /** A child pointer tells which side of its parent a node is on. */
  lemma LeftChildSide<V>(t: Shape<V>, path: seq<Step<V>>, n: TreeNode<V>, root: TreeNode?<V>)
    requires At(t, path, n, root) && path != []
    ensures n == path[0].ref.left <==> path[0].side.WentLeft?
  {
  }

  lemma RightChildSide<V>(t: Shape<V>, path: seq<Step<V>>, n: TreeNode<V>, root: TreeNode?<V>)
    requires At(t, path, n, root) && path != []
    ensures n == path[0].ref.right <==> path[0].side.WentRight?
  {
  }

  lemma ChildParent<V>(t: Shape<V>, path: seq<Step<V>>, root: TreeNode?<V>)
    requires t.Node? && At(t, path, t.ref, root)
    ensures t.left.Node? ==> t.left.ref.parent == t.ref
    ensures t.right.Node? ==> t.right.ref.parent == t.ref
  {
    assert Mirrors(t.left, t.ref.left, t.ref) && Mirrors(t.right, t.ref.right, t.ref);
  }

  lemma ParentIs<V>(t: Shape<V>, path: seq<Step<V>>, n: TreeNode?<V>, root: TreeNode?<V>)
    requires At(t, path, n, root) && t.Node?
    ensures n == t.ref && n.parent == Parent(path)
    ensures path != [] ==> path[0].ref.parent == Parent(path[1..])
  {
  }
}
