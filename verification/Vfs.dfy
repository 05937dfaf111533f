/** The virtual file system: a doubly linked list of mount points, updated in place. */
module Vfs {
  import opened Common
  import opened KString
  import opened Mounts

  class MountPoint {
    const path: string
    const fs: nat
    var next: MountPoint?
    var prev: MountPoint?

    constructor (path: string, fs: nat)
      ensures this.path == path && this.fs == fs && next == null && prev == null
    {
      this.path, this.fs, next, prev := path, fs, null, null;
    }
  }

  ghost function AsMounts(nodes: seq<MountPoint>): seq<Mount> {
    seq(|nodes|, i requires 0 <= i < |nodes| => Mount(nodes[i].path, nodes[i].fs))
  }

  /** Node `i` points at its neighbours: next and prev are inverse to each other. */
  ghost predicate LinkedAt(nodes: seq<MountPoint>, i: nat)
    requires i < |nodes|
    reads nodes[i]
  {
    && nodes[i].prev == (if i == 0 then null else nodes[i - 1])
    && nodes[i].next == (if i + 1 == |nodes| then null else nodes[i + 1])
  }

  /** How far the search for the insertion point walks. */
  ghost function Place(ms: seq<Mount>, m: Mount): nat {
    if |ms| <= 1 || |ms[0].path| < |m.path| then 0 else 1 + Place(ms[1..], m)
  }

  lemma {:induction false} AddAtPlace(ms: seq<Mount>, m: Mount)
    requires ms != []
    ensures var k := Place(ms, m); k < |ms| && Add(ms, m) == ms[..k] + [m] + ms[k..]
  {
    if |ms| > 1 && |ms[0].path| >= |m.path| {
      AddAtPlace(ms[1..], m);
    }
  }

  lemma {:induction false} PlaceIs(ms: seq<Mount>, m: Mount, k: nat)
    requires k < |ms|
    requires forall i :: 0 <= i < k ==> |ms[i].path| >= |m.path|
    requires k + 1 == |ms| || |ms[k].path| < |m.path|
    ensures Place(ms, m) == k
  {
    if k > 0 {
      PlaceIs(ms[1..], m, k - 1);
    }
  }

  lemma AddToNone(m: Mount)
    ensures Add([], m) == [m]
  {
  }

  lemma SplicedMounts(nodes: seq<MountPoint>, m: MountPoint, k: nat)
    requires k <= |nodes|
    ensures AsMounts(nodes[..k] + [m] + nodes[k..])
         == AsMounts(nodes)[..k] + [Mount(m.path, m.fs)] + AsMounts(nodes)[k..]
  {
  }

  lemma OneNode(n: MountPoint)
    ensures NoRepeats([n])
  {
  }

  lemma PrefixTest(path: string, prefix: string)
    ensures path[0..CopyLength(|path|, 0, |prefix|)] == prefix <==> prefix <= path
  {
  }

  lemma {:induction false} DispatchSkips(ms: seq<Mount>, path: string, k: nat)
    requires k <= |ms| && forall i :: 0 <= i < k ==> !(ms[i].path <= path)
    ensures Dispatch(ms, path) == Dispatch(ms[k..], path)
  {
    if k > 0 {
      DispatchSkips(ms[1..], path, k - 1);
      assert ms[1..][k - 1..] == ms[k..];
    }
  }

  class VirtualFs {
    var mountList: MountPoint?
    var usable: bool
    ghost var nodes: seq<MountPoint>

    ghost predicate Valid()
      reads this, nodes
    {
      && NoRepeats(nodes)
      && (forall i :: 0 <= i < |nodes| ==> LinkedAt(nodes, i))
      && mountList == if nodes == [] then null else nodes[0]
    }

    ghost function Mounted(): seq<Mount>
      reads this
    {
      AsMounts(nodes)
    }

    constructor ()
      ensures Valid() && Mounted() == [] && !usable
    {
      mountList, usable, nodes := null, false, [];
    }

    method AddMountpoint(m: MountPoint)
      requires Valid() && m !in nodes && m.next == null && m.prev == null
      modifies this`mountList, this`nodes, m, nodes
      ensures Valid() && Mounted() == Add(old(Mounted()), Mount(m.path, m.fs))
      ensures forall n :: n in nodes <==> n in old(nodes) || n == m
    {
      hide NoRepeats, Add, Place;
      if mountList == null {
        AddToNone(Mount(m.path, m.fs));
        mountList := m;
        nodes := [m];
        OneNode(m);
      } else {
        var current := mountList;
        ghost var k := 0;
        assert LinkedAt(nodes, 0);
        while current.next != null
          invariant k < |nodes| && current == nodes[k] && LinkedAt(nodes, k)
          invariant forall i :: 0 <= i < k ==> |nodes[i].path| >= |m.path|
          decreases |nodes| - k
        {
          if |current.path| < |m.path| {
            break;
          }
          assert LinkedAt(nodes, k + 1);
          current, k := current.next, k + 1;
        }
        ghost var ms, mount := Mounted(), Mount(m.path, m.fs);
        PlaceIs(ms, mount, k);
        AddAtPlace(ms, mount);
        SplicedMounts(nodes, m, k);
        Splice(m, current, k);
      }
    }

    /** Links `m` in front of `current`, the `k`-th mount point. */
    method Splice(m: MountPoint, current: MountPoint, ghost k: nat)
      requires Valid() && m !in nodes && k < |nodes| && current == nodes[k]
      modifies this`mountList, this`nodes, m, nodes
      ensures Valid() && nodes == old(nodes)[..k] + [m] + old(nodes)[k..]
    {
      ghost var was := nodes;
      assert LinkedAt(nodes, k);
      if current == mountList {
        mountList := m;
      }
      m.next := current;
      m.prev := current.prev;
      if current.prev != null {
        current.prev.next := m;
      }
      current.prev := m;
      nodes := nodes[..k] + [m] + nodes[k..];
      forall i | 0 <= i < |nodes|
        ensures LinkedAt(nodes, i)
      {
        if i < k {
          assert old(LinkedAt(nodes, i)) && nodes[i] == was[i];
        } else if i > k {
          assert old(LinkedAt(nodes, i - 1)) && nodes[i] == was[i - 1];
        }
      }
    }

    /** `fs` is the filesystem found on the partition, 0 if none could be used. The result is the
        mounted filesystem, or 0 when the mount failed. */
    method MountAt(path: string, fs: nat) returns (r: nat)
      requires Valid()
      modifies this, nodes
      ensures Valid() && Mounted() == MountStep(old(Mounted()), path, fs)
      ensures r == if fs == 0 || (old(Mounted()) == [] && path != "/") then 0 else fs
      ensures usable == (old(usable) || (r != 0 && path == "/"))
    {
      if fs == 0 {
        return 0;
      }
      var root := Equals(path, "/");
      if mountList == null && !root {
        return 0;
      }
      if root {
        usable := true;
      }
      var m := new MountPoint(path, fs);
      AddMountpoint(m);
      return fs;
    }

    /** The traversal shared by opening a file and reading a directory: which filesystem is
        asked, and for what path. */
    method Lookup(path: string) returns (r: Target)
      requires Valid()
      ensures r == Dispatch(Mounted(), path)
    {
      var current := mountList;
      ghost var k := 0;
      ghost var ms := Mounted();
      while current != null
        invariant k <= |nodes| && current == if k < |nodes| then nodes[k] else null
        invariant forall i :: 0 <= i < k ==> !(ms[i].path <= path)
        decreases |nodes| - k
      {
        assert LinkedAt(nodes, k);
        DispatchSkips(ms, path, k);
        PrefixTest(path, current.path);
        var prefix := new Buffer.Substring(path, 0, |current.path|);
        var text := prefix.chars[..prefix.chars.Length - 1];
        var found := Equals(text, current.path);
        if found {
          var root := Equals(text, "/");
          if root {
            return To(current.fs, path);
          }
          var rest := new Buffer.Substring(path, |current.path|, |path|);
          return To(current.fs, rest.chars[..rest.chars.Length - 1]);
        }
        current, k := current.next, k + 1;
      }
      DispatchSkips(ms, path, k);
      return Nowhere;
    }
  }
}
