/** The mount list as a value: where a mount goes, and which mount a path is sent to. */
module Mounts {

  datatype Mount = Mount(path: string, fs: nat)

  /** A path handed on to filesystem `fs`. */
  datatype Target = Nowhere | To(fs: nat, path: string)

  /** Before the first shorter path, but never behind the last mount. */
  function Add(ms: seq<Mount>, m: Mount): seq<Mount> {
    if ms == [] then [m]
    else if |ms| == 1 || |ms[0].path| < |m.path| then [m] + ms
    else [ms[0]] + Add(ms[1..], m)
  }

  /** Mounting fails without a filesystem, and nothing can be mounted before "/". */
  function MountStep(ms: seq<Mount>, path: string, fs: nat): seq<Mount> {
    if fs == 0 || (ms == [] && path != "/") then ms else Add(ms, Mount(path, fs))
  }

  function Rest(m: Mount, path: string): string
    requires m.path <= path
  {
    if m.path == "/" then path else path[|m.path|..]
  }

  /** The first mount whose path begins `path`. */
  function Dispatch(ms: seq<Mount>, path: string): Target {
    if ms == [] then Nowhere
    else if ms[0].path <= path then To(ms[0].fs, Rest(ms[0], path))
    else Dispatch(ms[1..], path)
  }

  // ----- the invariant

  /** Longest path first, "/" last, and no empty path. */
  predicate Ordered(ms: seq<Mount>) {
    ms == [] ||
    (&& ms[0].path != ""
     && if |ms| == 1 then ms[0].path == "/" else |ms[0].path| >= |ms[1].path| && Ordered(ms[1..]))
  }

  lemma {:induction false} OrderedMeans(ms: seq<Mount>)
    requires Ordered(ms) && ms != []
    ensures ms[|ms| - 1].path == "/"
    ensures forall m :: m in ms ==> 0 < |m.path| <= |ms[0].path|
  {
    if |ms| > 1 {
      OrderedMeans(ms[1..]);
      assert ms == [ms[0]] + ms[1..];
    }
  }

  lemma {:induction false} AddKeeps(ms: seq<Mount>, m: Mount)
    requires ms != [] && Ordered(ms) && m.path != ""
    ensures Ordered(Add(ms, m))
    ensures Add(ms, m)[0] == m || Add(ms, m)[0] == ms[0]
    ensures |Add(ms, m)| == |ms| + 1
  {
    if |ms| > 1 && |ms[0].path| >= |m.path| {
      AddKeeps(ms[1..], m);
    }
  }

  lemma {:induction false} AddKeepsOthers(ms: seq<Mount>, m: Mount)
    ensures multiset(Add(ms, m)) == multiset(ms) + multiset{m}
  {
    if ms != [] && |ms| > 1 && |ms[0].path| >= |m.path| {
      AddKeepsOthers(ms[1..], m);
      assert ms == [ms[0]] + ms[1..];
    }
  }

  /** A mount keeps the order exactly when its path is not empty. */
  lemma {:induction false} AddKeepsExactly(ms: seq<Mount>, m: Mount)
    requires ms != [] && Ordered(ms)
    ensures Ordered(Add(ms, m)) <==> m.path != ""
  {
    if m.path != "" {
      AddKeeps(ms, m);
    } else {
      AddKeepsOthers(ms, m);
      assert m in multiset(Add(ms, m));
      if Ordered(Add(ms, m)) {
        OrderedMeans(Add(ms, m));
      }
    }
  }

  /** What is mounted after a sequence of mount calls. */
  function MountAll(calls: seq<(string, nat)>): seq<Mount> {
    if calls == [] then []
    else MountStep(MountAll(calls[..|calls| - 1]), calls[|calls| - 1].0, calls[|calls| - 1].1)
  }

  /** After any sequence of mounts at non-empty paths the list is in order. */
  lemma {:induction false} EveryMountSequence(calls: seq<(string, nat)>)
    requires forall c :: c in calls ==> c.0 != ""
    ensures Ordered(MountAll(calls))
  {
    if calls != [] {
      var n := |calls| - 1;
      EveryMountSequence(calls[..n]);
      assert calls[n] in calls;
      if MountAll(calls[..n]) != [] {
        AddKeeps(MountAll(calls[..n]), Mount(calls[n].0, calls[n].1));
      }
    }
  }

  /** A call mounts, adding just its own mount, unless it has no filesystem or comes before "/". */
  lemma MountStepExactly(ms: seq<Mount>, path: string, fs: nat)
    ensures multiset(MountStep(ms, path, fs)) == multiset(ms) +
      if fs != 0 && (ms != [] || path == "/") then multiset{Mount(path, fs)} else multiset{}
    ensures fs == 0 || (ms == [] && path != "/") ==> MountStep(ms, path, fs) == ms
  {
    AddKeepsOthers(ms, Mount(path, fs));
  }

  /** The calls that mount: from the first one of "/" on, all that have a filesystem. */
  function Accepted(calls: seq<(string, nat)>): seq<Mount> {
    if calls == [] then []
    else
      var before, c := Accepted(calls[..|calls| - 1]), calls[|calls| - 1];
      if c.1 != 0 && (before != [] || c.0 == "/") then before + [Mount(c.0, c.1)] else before
  }

  /** After any sequence of calls exactly the mounts of the accepted ones are there. */
  lemma {:induction false} MountedExactly(calls: seq<(string, nat)>)
    ensures multiset(MountAll(calls)) == multiset(Accepted(calls))
  {
    if calls != [] {
      var n := |calls| - 1;
      MountedExactly(calls[..n]);
      MountStepExactly(MountAll(calls[..n]), calls[n].0, calls[n].1);
      assert |multiset(MountAll(calls[..n]))| == |MountAll(calls[..n])|;
      assert |multiset(Accepted(calls[..n]))| == |Accepted(calls[..n])|;
    }
  }

  // ----- dispatch

  /** `m` is a longest mount whose path begins `path`. */
  predicate Longest(ms: seq<Mount>, m: Mount, path: string) {
    m in ms && m.path <= path && forall x :: x in ms && x.path <= path ==> |x.path| <= |m.path|
  }

  lemma {:induction false} DispatchFindsLongest(ms: seq<Mount>, path: string)
    requires Ordered(ms) && exists m :: m in ms && m.path <= path
    ensures exists m :: Longest(ms, m, path) && Dispatch(ms, path) == To(m.fs, Rest(m, path))
  {
    OrderedMeans(ms);
    assert ms == [ms[0]] + ms[1..];
    if ms[0].path <= path {
      assert Longest(ms, ms[0], path);
    } else {
      DispatchFindsLongest(ms[1..], path);
      var m :| Longest(ms[1..], m, path) && Dispatch(ms[1..], path) == To(m.fs, Rest(m, path));
      assert Longest(ms, m, path);
    }
  }

  lemma {:induction false} DispatchFindsNothing(ms: seq<Mount>, path: string)
    ensures Dispatch(ms, path) == Nowhere <==> forall m :: m in ms ==> !(m.path <= path)
  {
    if ms != [] {
      DispatchFindsNothing(ms[1..], path);
      assert ms == [ms[0]] + ms[1..];
    }
  }

  /** A path that some mount begins goes to a longest one, with all of the path if that is "/", and
      otherwise with what comes behind it. */
  lemma LongestPrefixDispatch(ms: seq<Mount>, path: string)
    requires Ordered(ms) && exists m :: m in ms && m.path <= path
    ensures Dispatch(ms, path).To?
    ensures exists m ::
      && Longest(ms, m, path) && m.fs == Dispatch(ms, path).fs
      && Dispatch(ms, path).path == if m.path == "/" then path else path[|m.path|..]
  {
    DispatchFindsLongest(ms, path);
  }

  lemma RootBegins(ms: seq<Mount>, path: string)
    requires Ordered(ms) && ms != [] && "/" <= path
    ensures exists m :: m in ms && m.path <= path
  {
    OrderedMeans(ms);
    assert ms[|ms| - 1] in ms;
  }

  /** A path that starts with "/" always goes somewhere; if nothing but "/" begins it, all of it. */
  lemma RootTakesWholePath(ms: seq<Mount>, path: string)
    requires Ordered(ms) && ms != [] && "/" <= path
    ensures Dispatch(ms, path).To?
    ensures (forall m :: m in ms && m.path <= path ==> m.path == "/") ==> Dispatch(ms, path).path == path
    ensures (exists m :: m in ms && m.path <= path && |m.path| > 1) ==>
      exists m :: Longest(ms, m, path) && |m.path| > 1 && Dispatch(ms, path).path == path[|m.path|..]
  {
    RootBegins(ms, path);
    LongestPrefixDispatch(ms, path);
  }

  /** A mount begins a path by its characters, not by its components: /mnt takes /mnt2 over. */
  lemma PrefixIgnoresComponents()
    ensures var ms := [Mount("/mnt", 2), Mount("/", 1)]; Ordered(ms) && Dispatch(ms, "/mnt2/a") == To(2, "2/a")
  {
    var ms := [Mount("/mnt", 2), Mount("/", 1)];
    assert "/mnt2/a" == "/mnt" + "2/a";
    assert Ordered(ms[1..]);
  }

  /** A new mount takes over exactly the paths it begins and no mount at least as long does, the
      last one not counted; every other path is dispatched as before. The last mount is "/", so a
      tie with it is a second "/", which goes in front of it. */
  lemma {:induction false} MountTakesOver(ms: seq<Mount>, m: Mount, path: string)
    requires Ordered(ms) && ms != [] && m.path != ""
    ensures Dispatch(Add(ms, m), path) ==
      if !Covers(ms, m, path) then Dispatch(ms, path)
      else To(m.fs, if m.path == "/" then path else path[|m.path|..])
  {
    var others := ms[..|ms| - 1];
    if |ms| == 1 {
      assert others == [];
    } else {
      assert others == [ms[0]] + ms[1..][..|ms[1..]| - 1];
      if |ms[0].path| >= |m.path| {
        MountTakesOver(ms[1..], m, path);
      } else {
        OrderedMeans(ms);
      }
    }
  }

  predicate Covers(ms: seq<Mount>, m: Mount, path: string)
    requires ms != []
  {
    m.path <= path && forall x :: x in ms[..|ms| - 1] && x.path <= path ==> |x.path| < |m.path|
  }

  /** A mount at the empty path goes in front of the last mount and takes all its paths. */
  lemma {:induction false} EmptyPathHides(ms: seq<Mount>, m: Mount, path: string)
    requires Ordered(ms) && ms != [] && m.path == ""
    ensures var others := ms[..|ms| - 1];
      Dispatch(Add(ms, m), path) == if Dispatch(others, path) == Nowhere then To(m.fs, path) else Dispatch(ms, path)
  {
    if |ms| > 1 {
      EmptyPathHides(ms[1..], m, path);
      assert ms[1..][..|ms[1..]| - 1] == ms[..|ms| - 1][1..];
    }
  }
}
