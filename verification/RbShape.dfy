/** Red-black trees as values: the insertion algorithm of the directory tree seen as a
    function on trees, and what it does to order and contents for any colouring. */
module RbShape {

  datatype Color = Red | Black

  /** A tree whose nodes carry a key, a value, and the identity `ref` of the node object. */
  datatype Tree<R, V> =
    | Leaf
    | Node(left: Tree<R, V>, color: Color, key: int, value: V, ref: R, right: Tree<R, V>)

  datatype Side = WentLeft | WentRight

  /** A node with a hole where one child was; the hole is on side `side`. */
  datatype Frame<R, V> = Frame(side: Side, color: Color, key: int, value: V, ref: R, sibling: Tree<R, V>)

  /** Which node the red-uncle case recolours: the source recolours the great-grandparent,
      the algorithm it follows recolours the grandparent. */
  datatype Variant = AsWritten | AsMeant

  // ----- trees and paths

  ghost function Fill<R, V>(f: Frame<R, V>, t: Tree<R, V>): Tree<R, V> {
    match f.side
    case WentLeft => Node(t, f.color, f.key, f.value, f.ref, f.sibling)
    case WentRight => Node(f.sibling, f.color, f.key, f.value, f.ref, t)
  }

  /** The whole tree around subtree `t`; `path` lists the ancestors, parent first. */
  ghost function Plug<R, V>(t: Tree<R, V>, path: seq<Frame<R, V>>): Tree<R, V>
    decreases |path|
  {
    if path == [] then t else Plug(Fill(path[0], t), path[1..])
  }

  ghost predicate IsRed<R, V>(t: Tree<R, V>) {
    t.Node? && t.color == Red
  }

  ghost function Colored<R, V>(t: Tree<R, V>, c: Color): Tree<R, V> {
    if t.Node? then t.(color := c) else t
  }

  // ----- insertion

  /** The ancestors of the place where `k` belongs, nearest first. */
  ghost function Locate<R, V>(t: Tree<R, V>, k: int, path: seq<Frame<R, V>>): seq<Frame<R, V>> {
    match t
    case Leaf => path
    case Node(l, c, key, v, ref, r) =>
      if k < key then Locate(l, k, [Frame(WentLeft, c, key, v, ref, r)] + path)
      else Locate(r, k, [Frame(WentRight, c, key, v, ref, l)] + path)
  }

  /** The rotations for a node `t` with red parent `p`, grandparent `g` and non-red uncle. */
  ghost function Restructure<R, V>(t: Tree<R, V>, p: Frame<R, V>, g: Frame<R, V>): Tree<R, V>
    requires t.Node?
  {
    match (g.side, p.side)
    case (WentLeft, WentLeft) =>
      Node(t, Black, p.key, p.value, p.ref, Node(p.sibling, Red, g.key, g.value, g.ref, g.sibling))
    case (WentLeft, WentRight) =>
      Node(Node(p.sibling, p.color, p.key, p.value, p.ref, t.left), Black, t.key, t.value, t.ref,
           Node(t.right, Red, g.key, g.value, g.ref, g.sibling))
    case (WentRight, WentRight) =>
      Node(Node(g.sibling, Red, g.key, g.value, g.ref, p.sibling), Black, p.key, p.value, p.ref, t)
    case (WentRight, WentLeft) =>
      Node(Node(g.sibling, Red, g.key, g.value, g.ref, t.left), Black, t.key, t.value, t.ref,
           Node(t.right, p.color, p.key, p.value, p.ref, p.sibling))
  }

  /** The subtree at the grandparent after the red-uncle case. */
  ghost function Recolored<R, V>(t: Tree<R, V>, p: Frame<R, V>, g: Frame<R, V>, variant: Variant): Tree<R, V> {
    Fill(g.(sibling := Colored(g.sibling, Black), color := if variant.AsMeant? then Red else g.color),
         Fill(p.(color := Black), t))
  }

  /** The path above the grandparent after the red-uncle case. */
  ghost function RecoloredPath<R, V>(path: seq<Frame<R, V>>, variant: Variant): seq<Frame<R, V>> {
    if variant.AsWritten? && path != [] then [path[0].(color := Red)] + path[1..] else path
  }

  /** The fixup loop at node `t` below `path`, without the final blackening of the root. */
  ghost function FixLoop<R, V>(t: Tree<R, V>, path: seq<Frame<R, V>>, variant: Variant): Tree<R, V>
    requires t.Node?
    decreases |path|
  {
    if |path| < 2 || path[0].color.Black? then Plug(t, path)
    else if IsRed(path[1].sibling) then
      FixLoop(Recolored(t, path[0], path[1], variant), RecoloredPath(path[2..], variant), variant)
    else Plug(Restructure(t, path[0], path[1]), path[2..])
  }

  ghost function NewNode<R, V>(k: int, v: V, ref: R): Tree<R, V> {
    Node(Leaf, Red, k, v, ref, Leaf)
  }

  ghost function InsertAt<R, V>(n: Tree<R, V>, path: seq<Frame<R, V>>, variant: Variant): Tree<R, V>
    requires n.Node?
  {
    if path != [] && path[0].color.Black? then Plug(n, path)
    else Colored(FixLoop(n, path, variant), Black)
  }

  ghost function Insert<R, V>(t: Tree<R, V>, k: int, v: V, ref: R, variant: Variant): Tree<R, V> {
    InsertAt(NewNode(k, v, ref), Locate(t, k, []), variant)
  }

  // ----- order and contents

  ghost function InOrder<R, V>(t: Tree<R, V>): seq<(int, V)> {
    match t
    case Leaf => []
    case Node(l, _, k, v, _, r) => InOrder(l) + [(k, v)] + InOrder(r)
  }

  ghost function Before<R, V>(path: seq<Frame<R, V>>): seq<(int, V)> {
    if path == [] then []
    else Before(path[1..])
         + if path[0].side.WentRight? then InOrder(path[0].sibling) + [(path[0].key, path[0].value)] else []
  }

  ghost function After<R, V>(path: seq<Frame<R, V>>): seq<(int, V)> {
    if path == [] then []
    else (if path[0].side.WentLeft? then [(path[0].key, path[0].value)] + InOrder(path[0].sibling) else [])
         + After(path[1..])
  }

  ghost predicate Sorted<V>(s: seq<(int, V)>) {
    forall i, j :: 0 <= i < j < |s| ==> s[i].0 <= s[j].0
  }

  ghost predicate AtMost<V>(s: seq<(int, V)>, k: int) {
    forall i :: 0 <= i < |s| ==> s[i].0 <= k
  }

  ghost predicate Above<V>(s: seq<(int, V)>, k: int) {
    forall i :: 0 <= i < |s| ==> k < s[i].0
  }

  lemma {:induction false} PlugInOrder<R, V>(t: Tree<R, V>, path: seq<Frame<R, V>>)
    ensures InOrder(Plug(t, path)) == Before(path) + InOrder(t) + After(path)
    decreases |path|
  {
    if path != [] {
      PlugInOrder(Fill(path[0], t), path[1..]);
    }
  }

  lemma {:induction false} LocateFindsHole<R, V>(t: Tree<R, V>, k: int, path: seq<Frame<R, V>>)
    ensures Plug(Leaf, Locate(t, k, path)) == Plug(t, path)
  {
    if t.Node? {
      var f := if k < t.key then Frame(WentLeft, t.color, t.key, t.value, t.ref, t.right)
               else Frame(WentRight, t.color, t.key, t.value, t.ref, t.left);
      var child := if k < t.key then t.left else t.right;
      assert ([f] + path)[1..] == path;
      LocateFindsHole(child, k, [f] + path);
      assert Fill(f, child) == t;
    }
  }

  lemma {:induction false} LocateOrder<R, V>(t: Tree<R, V>, k: int, path: seq<Frame<R, V>>)
    requires Sorted(InOrder(t)) && AtMost(Before(path), k) && Above(After(path), k)
    ensures AtMost(Before(Locate(t, k, path)), k) && Above(After(Locate(t, k, path)), k)
  {
    if t.Node? {
      var l, r := InOrder(t.left), InOrder(t.right);
      SortedParts(l, t.key, t.value, r);
      if k < t.key {
        var f := Frame(WentLeft, t.color, t.key, t.value, t.ref, t.right);
        assert ([f] + path)[1..] == path;
        AllFrom(r, t.key, t.value, k);
        BoundConcat([(t.key, t.value)] + r, After(path), k);
        LocateOrder(t.left, k, [f] + path);
      } else {
        var f := Frame(WentRight, t.color, t.key, t.value, t.ref, t.left);
        assert ([f] + path)[1..] == path;
        BoundConcat(l, [(t.key, t.value)], k);
        BoundConcat(Before(path), l + [(t.key, t.value)], k);
        LocateOrder(t.right, k, [f] + path);
      }
    }
  }

  lemma BoundConcat<V>(a: seq<(int, V)>, b: seq<(int, V)>, k: int)
    ensures AtMost(a, k) && AtMost(b, k) ==> AtMost(a + b, k)
    ensures Above(a, k) && Above(b, k) ==> Above(a + b, k)
  {
  }

  lemma AllFrom<V>(r: seq<(int, V)>, key: int, v: V, k: int)
    requires k < key && forall i :: 0 <= i < |r| ==> key <= r[i].0
    ensures Above([(key, v)] + r, k)
  {
  }

  lemma SortedParts<V>(l: seq<(int, V)>, k: int, v: V, r: seq<(int, V)>)
    requires Sorted(l + [(k, v)] + r)
    ensures Sorted(l) && Sorted(r)
    ensures forall i :: 0 <= i < |l| ==> l[i].0 <= k
    ensures forall i :: 0 <= i < |r| ==> k <= r[i].0
  {
    var s := l + [(k, v)] + r;
    assert s[|l|] == (k, v);
    assert forall i :: 0 <= i < |l| ==> s[i] == l[i];
    assert forall i :: 0 <= i < |r| ==> r[i] == s[|l| + 1 + i];
  }

  lemma RestructureInOrder<R, V>(t: Tree<R, V>, p: Frame<R, V>, g: Frame<R, V>)
    requires t.Node?
    ensures InOrder(Restructure(t, p, g)) == InOrder(Fill(g, Fill(p, t)))
  {
    var a, b, c := [(t.key, t.value)], [(p.key, p.value)], [(g.key, g.value)];
    var x, y, d, e := InOrder(t.left), InOrder(t.right), InOrder(p.sibling), InOrder(g.sibling);
    assert InOrder(Fill(p, t)) == if p.side.WentLeft? then (x + a + y) + b + d else d + b + (x + a + y);
    match (g.side, p.side)
    case (WentLeft, WentLeft) => Reassociate(x + a + y, b, d, c, e);
    case (WentLeft, WentRight) => Rotated(d, b, x, a, y, c, e);
    case (WentRight, WentRight) => Reassociate(e, c, d, b, x + a + y);
    case (WentRight, WentLeft) => Rotated(e, c, x, a, y, b, d);
  }

  lemma Reassociate<T>(a: seq<T>, b: seq<T>, c: seq<T>, d: seq<T>, e: seq<T>)
    ensures a + b + (c + d + e) == (a + b + c) + d + e
  {
  }

  lemma Rotated<T>(a: seq<T>, b: seq<T>, x: seq<T>, m: seq<T>, y: seq<T>, c: seq<T>, d: seq<T>)
    ensures (a + b + x) + m + (y + c + d) == (a + b + (x + m + y)) + c + d
    ensures (a + b + x) + m + (y + c + d) == a + b + ((x + m + y) + c + d)
  {
  }

  lemma ColoredInOrder<R, V>(t: Tree<R, V>, c: Color)
    ensures InOrder(Colored(t, c)) == InOrder(t)
  {
  }

  lemma RecoloredInOrder<R, V>(t: Tree<R, V>, p: Frame<R, V>, g: Frame<R, V>, variant: Variant)
    ensures InOrder(Recolored(t, p, g, variant)) == InOrder(Fill(g, Fill(p, t)))
  {
    ColoredInOrder(g.sibling, Black);
  }

  lemma RecoloredPathOrder<R, V>(path: seq<Frame<R, V>>, variant: Variant)
    ensures Before(RecoloredPath(path, variant)) == Before(path)
    ensures After(RecoloredPath(path, variant)) == After(path)
  {
    if variant.AsWritten? && path != [] {
      assert RecoloredPath(path, variant)[1..] == path[1..];
    }
  }

  lemma {:induction false} FixLoopInOrder<R, V>(t: Tree<R, V>, path: seq<Frame<R, V>>, variant: Variant)
    requires t.Node?
    ensures InOrder(FixLoop(t, path, variant)) == Before(path) + InOrder(t) + After(path)
    decreases |path|
  {
    PlugInOrder(t, path);
    if |path| >= 2 && path[0].color.Red? {
      var up := path[2..];
      assert Plug(t, path) == Plug(Fill(path[1], Fill(path[0], t)), up) by { assert path[1..][1..] == up; }
      PlugInOrder(Fill(path[1], Fill(path[0], t)), up);
      if IsRed(path[1].sibling) {
        RecoloredInOrder(t, path[0], path[1], variant);
        RecoloredPathOrder(up, variant);
        FixLoopInOrder(Recolored(t, path[0], path[1], variant), RecoloredPath(up, variant), variant);
      } else {
        RestructureInOrder(t, path[0], path[1]);
        PlugInOrder(Restructure(t, path[0], path[1]), up);
      }
    }
  }

  /** For any colouring and either variant, insertion puts the new pair after every pair with a
      key at most its own and before every pair with a larger one, and changes nothing else. */
  lemma InsertInOrder<R, V>(t: Tree<R, V>, k: int, v: V, ref: R, variant: Variant)
    returns (pre: seq<(int, V)>, post: seq<(int, V)>)
    requires Sorted(InOrder(t))
    ensures InOrder(t) == pre + post
    ensures InOrder(Insert(t, k, v, ref, variant)) == pre + [(k, v)] + post
    ensures AtMost(pre, k) && Above(post, k)
    ensures Sorted(InOrder(Insert(t, k, v, ref, variant)))
  {
    var path, n := Locate(t, k, []), NewNode(k, v, ref);
    LocateFindsHole(t, k, []);
    LocateOrder(t, k, []);
    PlugInOrder<R, V>(Leaf, path);
    PlugInOrder(n, path);
    FixLoopInOrder(n, path, variant);
    ColoredInOrder(FixLoop(n, path, variant), Black);
    pre, post := Before(path), After(path);
    assert InOrder(n) == [(k, v)];
    assert InOrder(t) == pre + post;
    SortedInsert(pre, k, v, post);
  }

  lemma SortedInsert<V>(pre: seq<(int, V)>, k: int, v: V, post: seq<(int, V)>)
    requires Sorted(pre + post) && AtMost(pre, k) && Above(post, k)
    ensures Sorted(pre + [(k, v)] + post)
  {
    var s, old' := pre + [(k, v)] + post, pre + post;
    forall i, j | 0 <= i < j < |s|
      ensures s[i].0 <= s[j].0
    {
      var i' := if i <= |pre| then i else i - 1;
      assert i < |pre| ==> s[i] == old'[i];
      assert i > |pre| ==> s[i] == old'[i - 1];
      assert j < |pre| ==> s[j] == old'[j];
      assert j > |pre| ==> s[j] == old'[j - 1];
    }
  }

  /** Below a black node the new, red node is all that changes; the first node is a black root. */
  lemma BlackParentKeepsRest<R, V>(t: Tree<R, V>, k: int, v: V, ref: R, variant: Variant)
    ensures t.Leaf? ==> Insert(t, k, v, ref, variant) == Node(Leaf, Black, k, v, ref, Leaf)
    ensures Locate(t, k, []) != [] && Locate(t, k, [])[0].color.Black? ==>
      Insert(t, k, v, ref, variant) == Plug(Node(Leaf, Red, k, v, ref, Leaf), Locate(t, k, []))
  {
  }

  // ----- lookup

  /** The subtree the search for `k` ends in. */
  ghost function Find<R, V>(t: Tree<R, V>, k: int): Tree<R, V> {
    match t
    case Leaf => Leaf
    case Node(l, _, key, _, _, r) => if k == key then t else if k < key then Find(l, k) else Find(r, k)
  }

  ghost predicate HasKey<V>(s: seq<(int, V)>, k: int) {
    exists i :: 0 <= i < |s| && s[i].0 == k
  }

  /** In a search-ordered tree, even with repeated keys, the search succeeds exactly for the
      keys present and ends at a pair that was inserted. */
  lemma {:induction false} FindIsComplete<R, V>(t: Tree<R, V>, k: int)
    requires Sorted(InOrder(t))
    ensures Find(t, k).Node? <==> HasKey(InOrder(t), k)
    ensures Find(t, k).Node? ==> Find(t, k).key == k && (k, Find(t, k).value) in InOrder(t)
  {
    if t.Node? {
      SortedParts(InOrder(t.left), t.key, t.value, InOrder(t.right));
      HasKeyParts(InOrder(t.left), t.key, t.value, InOrder(t.right), k);
      FindIsComplete(t.left, k);
      FindIsComplete(t.right, k);
    }
  }

  /** The search ends at the first node with the key on its way down. */
  lemma {:induction false} FindIsTopmost<R, V>(t: Tree<R, V>, k: int, path: seq<Frame<R, V>>)
    returns (way: seq<Frame<R, V>>)
    requires Find(t, k).Node? && forall f :: f in path ==> f.key != k
    ensures Plug(Find(t, k), way) == Plug(t, path) && forall f :: f in way ==> f.key != k
  {
    if t.key == k {
      way := path;
    } else {
      var f := if k < t.key then Frame(WentLeft, t.color, t.key, t.value, t.ref, t.right)
               else Frame(WentRight, t.color, t.key, t.value, t.ref, t.left);
      var child := if k < t.key then t.left else t.right;
      assert ([f] + path)[1..] == path && Fill(f, child) == t;
      way := FindIsTopmost(child, k, [f] + path);
    }
  }

  lemma HasKeyParts<V>(l: seq<(int, V)>, key: int, v: V, r: seq<(int, V)>, k: int)
    ensures HasKey(l + [(key, v)] + r, k) <==> HasKey(l, k) || key == k || HasKey(r, k)
  {
    var s := l + [(key, v)] + r;
    assert s[|l|] == (key, v);
    if HasKey(l, k) {
      var i :| 0 <= i < |l| && l[i].0 == k;
      assert s[i].0 == k;
    }
    if HasKey(r, k) {
      var i :| 0 <= i < |r| && r[i].0 == k;
      assert s[|l| + 1 + i].0 == k;
    }
  }

  // ----- a tree built by inserts is a finite map

  ghost function Build<V>(pairs: seq<(int, V)>, variant: Variant): Tree<(), V> {
    if pairs == [] then Leaf
    else
      var n := |pairs| - 1;
      Insert(Build(pairs[..n], variant), pairs[n].0, pairs[n].1, (), variant)
  }

  lemma {:induction false} BuildContents<V>(pairs: seq<(int, V)>, variant: Variant)
    ensures Sorted(InOrder(Build(pairs, variant)))
    ensures multiset(InOrder(Build(pairs, variant))) == multiset(pairs)
  {
    hide Insert, InOrder, Sorted;
    if pairs == [] {
      EmptyIsSorted<V>();
    } else {
      var n := |pairs| - 1;
      BuildContents(pairs[..n], variant);
      InsertAddsOne(Build(pairs[..n], variant), pairs[n].0, pairs[n].1, (), variant);
      assert pairs == pairs[..n] + [pairs[n]];
    }
  }

  lemma EmptyIsSorted<V>()
    ensures InOrder<(), V>(Leaf) == [] && Sorted<V>([])
  {
  }

  /** Insertion adds exactly one pair to the bag of contents. */
  lemma InsertAddsOne<R, V>(t: Tree<R, V>, k: int, v: V, ref: R, variant: Variant)
    requires Sorted(InOrder(t))
    ensures Sorted(InOrder(Insert(t, k, v, ref, variant)))
    ensures multiset(InOrder(Insert(t, k, v, ref, variant))) == multiset(InOrder(t)) + multiset{(k, v)}
  {
    hide Insert, InOrder;
    var pre, post := InsertInOrder(t, k, v, ref, variant);
  }

  /** After any sequence of inserts with distinct keys, lookup is lookup in that finite map. */
  lemma BuildIsMap<V>(pairs: seq<(int, V)>, variant: Variant, k: int)
    requires forall i, j :: 0 <= i < j < |pairs| ==> pairs[i].0 != pairs[j].0
    ensures Find(Build(pairs, variant), k).Node? <==> HasKey(pairs, k)
    ensures forall i :: 0 <= i < |pairs| && pairs[i].0 == k ==>
      Find(Build(pairs, variant), k).Node? && Find(Build(pairs, variant), k).value == pairs[i].1
  {
    hide Build, InOrder, Find, Sorted, HasKey;
    BuildContents(pairs, variant);
    FindIsComplete(Build(pairs, variant), k);
    SamePairs(InOrder(Build(pairs, variant)), pairs, k);
    if Find(Build(pairs, variant), k).Node? {
      var v := Find(Build(pairs, variant), k).value;
      InBoth(InOrder(Build(pairs, variant)), pairs, (k, v));
      OnePair(pairs, k, v);
    }
    forall i | 0 <= i < |pairs| && pairs[i].0 == k
      ensures Find(Build(pairs, variant), k).Node?
    {
      HasThisKey(pairs, i);
    }
  }

  lemma SamePairs<V>(s: seq<(int, V)>, t: seq<(int, V)>, k: int)
    requires multiset(s) == multiset(t)
    ensures HasKey(s, k) <==> HasKey(t, k)
  {
    if HasKey(s, k) {
      var i :| 0 <= i < |s| && s[i].0 == k;
      InBoth(s, t, s[i]);
    }
    if HasKey(t, k) {
      var i :| 0 <= i < |t| && t[i].0 == k;
      InBoth(t, s, t[i]);
    }
  }

  lemma InBoth<V>(s: seq<(int, V)>, t: seq<(int, V)>, x: (int, V))
    requires multiset(s) == multiset(t) && x in s
    ensures x in t
  {
    assert x in multiset(t);
  }

  lemma HasThisKey<V>(s: seq<(int, V)>, i: nat)
    requires i < |s|
    ensures HasKey(s, s[i].0)
  {
  }

  lemma OnePair<V>(pairs: seq<(int, V)>, k: int, v: V)
    requires forall i, j :: 0 <= i < j < |pairs| ==> pairs[i].0 != pairs[j].0
    requires (k, v) in pairs
    ensures forall i :: 0 <= i < |pairs| && pairs[i].0 == k ==> pairs[i].1 == v
  {
    var j :| 0 <= j < |pairs| && pairs[j] == (k, v);
  }
}
