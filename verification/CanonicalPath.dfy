/** Symbolic links resolved part by part, over an abstract finite filesystem. */
module CanonicalPaths {

  /** A path as its parts below the root. */
  type Path = seq<string>

  /** What a path names: a directory, a file, or a link to an absolute path. */
  datatype Entry = Directory | File | Link(target: Path)

  type FileSystem = map<Path, Entry>

  datatype Resolution = Resolved(path: Path) | Loop | NotADirectory

  /** Whatever exists lies in a directory; the root is one and is not listed. */
  ghost predicate WellFormed(fs: FileSystem) {
    [] !in fs && forall p | p in fs && |p| > 1 :: IsDirectory(fs, p[..|p| - 1])
  }

  predicate IsDirectory(fs: FileSystem, p: Path) {
    p == [] || (p in fs && fs[p].Directory?)
  }

  function LinksOf(fs: FileSystem): set<Path> {
    set p | p in fs && fs[p].Link?
  }

  /** Resolve the remaining parts below a path that is free of links; a link met twice is an error. */
  function Walk(fs: FileSystem, current: Path, remaining: seq<string>, visited: set<Path>): Resolution
    decreases LinksOf(fs) - visited, |remaining|
  {
    if remaining == [] then Resolved(current)
    else
      var candidate, tail := current + [remaining[0]], remaining[1..];
      if candidate !in fs then
        if IsDirectory(fs, current) then Resolved(candidate + tail) else NotADirectory
      else if !fs[candidate].Link? then Walk(fs, candidate, tail, visited)
      else if candidate in visited then Loop
      else
        assert candidate in LinksOf(fs) - visited;
        Walk(fs, [], fs[candidate].target + tail, visited + {candidate})
  }

  /** The recursive form of the resolution, as the asynchronous adapter runs it. */
  function Canonical(fs: FileSystem, path: Path): Resolution {
    Walk(fs, [], path, {})
  }

  /** The synchronous adapter: the same resolution as a loop. */
  method CanonicalSync(fs: FileSystem, path: Path) returns (r: Resolution)
    ensures r == Canonical(fs, path)
  {
    var visited: set<Path> := {};
    var current: Path, remaining := [], path;
    while |remaining| > 0
      invariant Walk(fs, current, remaining, visited) == Canonical(fs, path)
      decreases LinksOf(fs) - visited, |remaining|
    {
      var candidate, tail := current + [remaining[0]], remaining[1..];
      if candidate !in fs {
        return if IsDirectory(fs, current) then Resolved(candidate + tail) else NotADirectory;
      }
      if !fs[candidate].Link? {
        current, remaining := candidate, tail;
      } else {
        if candidate in visited { return Loop; }
        assert candidate in LinksOf(fs) - visited;
        visited := visited + {candidate};
        current, remaining := [], fs[candidate].target + tail;
      }
    }
    r := Resolved(current);
  }

  // ---- what a resolved path looks like ----

  /** No prefix of the path is a link, and nothing below a file is named. */
  ghost predicate Settled(fs: FileSystem, path: Path) {
    && (forall k | 0 < k <= |path| && path[..k] in fs :: !fs[path[..k]].Link?)
    && (forall k | 0 < k < |path| && path[..k] in fs :: fs[path[..k]].Directory?)
  }

  lemma {:induction false} NothingBelow(fs: FileSystem, path: Path, k: nat, n: nat)
    requires WellFormed(fs) && k <= n <= |path| && k > 0 && path[..k] !in fs
    ensures path[..n] !in fs
    decreases n
  {
    if k < n {
      NothingBelow(fs, path, k, n - 1);
      assert path[..n][..n - 1] == path[..n - 1];
    }
  }

  lemma {:induction false} ExtendSettled(fs: FileSystem, current: Path, name: string)
    requires WellFormed(fs) && Settled(fs, current)
    requires current + [name] in fs && !fs[current + [name]].Link?
    ensures Settled(fs, current + [name])
  {
    var path := current + [name];
    forall k | 0 < k <= |path| && path[..k] in fs
      ensures !fs[path[..k]].Link? && (k < |path| ==> fs[path[..k]].Directory?)
    {
      if k < |current| {
        assert path[..k] == current[..k];
      } else if k == |current| {
        assert path[..k] == current && path[..|path| - 1] == current;
        assert IsDirectory(fs, path[..|path| - 1]);
      } else {
        assert path[..k] == path;
      }
    }
  }

  lemma {:induction false} MissingSettled(fs: FileSystem, current: Path, name: string, tail: seq<string>)
    requires WellFormed(fs) && Settled(fs, current) && current + [name] !in fs
    requires IsDirectory(fs, current)
    ensures Settled(fs, current + [name] + tail)
  {
    var path := current + [name] + tail;
    forall k | 0 < k <= |path| && path[..k] in fs ensures !fs[path[..k]].Link? && fs[path[..k]].Directory? {
      if k < |current| {
        assert path[..k] == current[..k];
      } else if k == |current| {
        assert path[..k] == current;
      } else {
        assert path[..|current| + 1] == current + [name];
        NothingBelow(fs, path, |current| + 1, k);
        assert false;
      }
    }
  }

  /** A resolved path has no link among its existing prefixes. */
  lemma {:induction false} WalkSettles(fs: FileSystem, current: Path, remaining: seq<string>, visited: set<Path>)
    requires WellFormed(fs) && Settled(fs, current)
    ensures Walk(fs, current, remaining, visited).Resolved? ==> Settled(fs, Walk(fs, current, remaining, visited).path)
    decreases LinksOf(fs) - visited, |remaining|
  {
    if remaining != [] {
      var candidate, tail := current + [remaining[0]], remaining[1..];
      if candidate !in fs {
        if IsDirectory(fs, current) {
          MissingSettled(fs, current, remaining[0], tail);
        }
      } else if !fs[candidate].Link? {
        ExtendSettled(fs, current, remaining[0]);
        WalkSettles(fs, candidate, tail, visited);
      } else if candidate !in visited {
        assert candidate in LinksOf(fs) - visited;
        WalkSettles(fs, [], fs[candidate].target + tail, visited + {candidate});
      }
    }
  }

  /** A settled path resolves to itself. */
  lemma {:induction false} SettledStays(fs: FileSystem, path: Path, k: nat, visited: set<Path>)
    requires WellFormed(fs) && Settled(fs, path) && k <= |path| && (k == 0 || path[..k] in fs)
    ensures Walk(fs, path[..k], path[k..], visited) == Resolved(path)
    decreases |path| - k
  {
    if k < |path| {
      var candidate := path[..k] + [path[k]];
      assert candidate == path[..k + 1] && path[k..][1..] == path[k + 1..] && path[k..][0] == path[k];
      if candidate !in fs {
        assert candidate + path[k + 1..] == path;
      } else {
        SettledStays(fs, path, k + 1, visited);
      }
    } else {
      assert path[..k] == path && path[k..] == [];
    }
  }

  /** Resolving a resolved path changes nothing. */
  lemma {:induction false} CanonicalTwice(fs: FileSystem, path: Path)
    requires WellFormed(fs) && Canonical(fs, path).Resolved?
    ensures Settled(fs, Canonical(fs, path).path)
    ensures Canonical(fs, Canonical(fs, path).path) == Canonical(fs, path)
  {
    WalkSettles(fs, [], path, {});
    var r := Canonical(fs, path).path;
    SettledStays(fs, r, 0, {});
    assert r[..0] == [] && r[0..] == r;
  }

  // ---- when a link is met twice ----

  /** Plain resolution: no memory of the links passed, only a bound on how many to follow. */
  datatype Bounded = Ends(result: Resolution, trail: seq<Path>) | TooManyHops

  /** The outcome and the links passed on the way to it, in order; TooManyHops past the bound. */
  function Plain(fs: FileSystem, current: Path, remaining: seq<string>, hops: nat): Bounded
    decreases hops, |remaining|
  {
    if remaining == [] then Ends(Resolved(current), [])
    else
      var candidate, tail := current + [remaining[0]], remaining[1..];
      if candidate !in fs then
        Ends(if IsDirectory(fs, current) then Resolved(candidate + tail) else NotADirectory, [])
      else if !fs[candidate].Link? then Plain(fs, candidate, tail, hops)
      else if hops == 0 then TooManyHops
      else
        match Plain(fs, [], fs[candidate].target + tail, hops - 1)
        case TooManyHops => TooManyHops
        case Ends(result, trail) => Ends(result, [candidate] + trail)
  }

  predicate NoLinkTwice(trail: seq<Path>) {
    forall i, j | 0 <= i < j < |trail| :: trail[i] != trail[j]
  }

  ghost predicate AllNew(trail: seq<Path>, visited: set<Path>) {
    forall i | 0 <= i < |trail| :: trail[i] !in visited
  }

  lemma {:induction false} TrailStep(candidate: Path, trail: seq<Path>, visited: set<Path>)
    requires candidate !in visited
    ensures NoLinkTwice([candidate] + trail) && AllNew([candidate] + trail, visited)
            <==> NoLinkTwice(trail) && AllNew(trail, visited + {candidate})
  {
    var whole := [candidate] + trail;
    assert forall i: nat | i < |trail| :: whole[i + 1] == trail[i];
    if NoLinkTwice(whole) && AllNew(whole, visited) {
      forall i: nat | i < |trail| ensures trail[i] !in visited + {candidate} {
        assert whole[0] != whole[i + 1];
      }
    }
  }

  /** Where plain resolution ends: the walk follows it as long as it passes no link twice and none visited before. */
  lemma {:induction false} WalkIsPlain(fs: FileSystem, current: Path, remaining: seq<string>, visited: set<Path>,
                                       hops: nat)
    requires Plain(fs, current, remaining, hops).Ends?
    ensures var p := Plain(fs, current, remaining, hops);
      && !p.result.Loop?
      && Walk(fs, current, remaining, visited)
         == (if NoLinkTwice(p.trail) && AllNew(p.trail, visited) then p.result else Loop)
    decreases hops, |remaining|
  {
    if remaining != [] {
      var candidate, tail := current + [remaining[0]], remaining[1..];
      if candidate in fs {
        if !fs[candidate].Link? {
          WalkIsPlain(fs, candidate, tail, visited, hops);
        } else {
          var rest := Plain(fs, [], fs[candidate].target + tail, hops - 1);
          var p := Plain(fs, current, remaining, hops);
          assert p.trail == [candidate] + rest.trail && p.result == rest.result;
          WalkIsPlain(fs, [], fs[candidate].target + tail, visited + {candidate}, hops - 1);
          if candidate in visited {
            assert p.trail[0] == candidate;
          } else {
            assert candidate in LinksOf(fs) - visited;
            TrailStep(candidate, rest.trail, visited);
          }
        }
      }
    }
  }

  /** A walk that is not refused as a loop passes every link at most once: that many hops are enough. */
  lemma {:induction false} WalkBoundsHops(fs: FileSystem, current: Path, remaining: seq<string>, visited: set<Path>,
                                          hops: nat)
    requires !Walk(fs, current, remaining, visited).Loop? && |LinksOf(fs) - visited| <= hops
    ensures Plain(fs, current, remaining, hops).Ends?
    decreases hops, |remaining|
  {
    if remaining != [] {
      var candidate, tail := current + [remaining[0]], remaining[1..];
      if candidate in fs {
        if !fs[candidate].Link? {
          WalkBoundsHops(fs, candidate, tail, visited, hops);
        } else {
          assert candidate in LinksOf(fs) - visited;
          assert LinksOf(fs) - (visited + {candidate}) == (LinksOf(fs) - visited) - {candidate};
          WalkBoundsHops(fs, [], fs[candidate].target + tail, visited + {candidate}, hops - 1);
        }
      }
    }
  }

  /** More hops change nothing once plain resolution ends. */
  lemma {:induction false} MoreHops(fs: FileSystem, current: Path, remaining: seq<string>, hops: nat, more: nat)
    requires Plain(fs, current, remaining, hops).Ends? && hops <= more
    ensures Plain(fs, current, remaining, more) == Plain(fs, current, remaining, hops)
    decreases hops, |remaining|
  {
    if remaining != [] {
      var candidate, tail := current + [remaining[0]], remaining[1..];
      if candidate in fs {
        if !fs[candidate].Link? {
          MoreHops(fs, candidate, tail, hops, more);
        } else {
          MoreHops(fs, [], fs[candidate].target + tail, hops - 1, more - 1);
        }
      }
    }
  }

  /**
    * Plain resolution as a partial function: it ends within some number of hops, or it never does.
    * This is the filesystem's own notion of where a path leads.
    */
  ghost predicate LeadsTo(fs: FileSystem, path: Path, result: Resolution, trail: seq<Path>) {
    exists hops: nat :: Plain(fs, [], path, hops) == Ends(result, trail)
  }

  /** A path leads to one place, along one trail. */
  lemma {:induction false} OneDestination(fs: FileSystem, path: Path,
                                          r0: Resolution, t0: seq<Path>, r1: Resolution, t1: seq<Path>)
    requires LeadsTo(fs, path, r0, t0) && LeadsTo(fs, path, r1, t1)
    ensures r0 == r1 && t0 == t1
  {
    var h0: nat :| Plain(fs, [], path, h0) == Ends(r0, t0);
    var h1: nat :| Plain(fs, [], path, h1) == Ends(r1, t1);
    if h0 <= h1 {
      MoreHops(fs, [], path, h0, h1);
    } else {
      MoreHops(fs, [], path, h1, h0);
    }
  }

  /**
    * Exactly when the resolution is right: it answers where the path leads if and only if the way there passes
    * no link twice. It refuses a path as a loop exactly when the path leads nowhere, or does so past some link twice.
    */
  lemma {:induction false} RefusedExactly(fs: FileSystem, path: Path)
    ensures forall result, trail | LeadsTo(fs, path, result, trail) ::
      Canonical(fs, path) == if NoLinkTwice(trail) then result else Loop
    ensures forall result, trail | LeadsTo(fs, path, result, trail) ::
      Canonical(fs, path) == result <==> NoLinkTwice(trail)
    ensures Canonical(fs, path).Loop? <==>
      forall result, trail | LeadsTo(fs, path, result, trail) :: !NoLinkTwice(trail)
  {
    forall result, trail | LeadsTo(fs, path, result, trail)
      ensures Canonical(fs, path) == (if NoLinkTwice(trail) then result else Loop) && !result.Loop?
    {
      var hops: nat :| Plain(fs, [], path, hops) == Ends(result, trail);
      WalkIsPlain(fs, [], path, {}, hops);
    }
    if !Canonical(fs, path).Loop? {
      var hops := |LinksOf(fs) - {}|;
      WalkBoundsHops(fs, [], path, {}, hops);
      var p := Plain(fs, [], path, hops);
      assert LeadsTo(fs, path, p.result, p.trail);
    }
  }

  /** One such path: down a link to its own directory, twice. */
  lemma {:induction false} RepeatedLinkIsRefused()
    ensures
      var fs: FileSystem := map[["d"] := Directory, ["d", "up"] := Link(["d"])];
      && WellFormed(fs)
      && LeadsTo(fs, ["d", "up", "up"], Resolved(["d"]), [["d", "up"], ["d", "up"]])
      && Canonical(fs, ["d", "up", "up"]) == Loop
  {
    var fs: FileSystem := map[["d"] := Directory, ["d", "up"] := Link(["d"])];
    var link := ["d", "up"];
    assert [] + ["d"] == ["d"] && ["d"] + ["up"] == link && ["d"] + [] == ["d"];
    assert ["d", "up", "up"][1..] == ["up", "up"] && ["up", "up"][1..] == ["up"] && ["up"][1..] == [];
    assert link[1..] == ["up"] && link[..1] == ["d"] && ["d"][1..] == [];
    assert Plain(fs, ["d"], [], 0) == Ends(Resolved(["d"]), []);
    assert Plain(fs, [], ["d"], 0) == Ends(Resolved(["d"]), []);
    assert Plain(fs, ["d"], ["up"], 1) == Ends(Resolved(["d"]), [link]);
    assert Plain(fs, [], ["d", "up"], 1) == Ends(Resolved(["d"]), [link]);
    assert Plain(fs, ["d"], ["up", "up"], 2) == Ends(Resolved(["d"]), [link] + [link]);
    assert Plain(fs, [], ["d", "up", "up"], 2) == Ends(Resolved(["d"]), [link, link]);
    var twice: seq<Path> := [link, link];
    assert twice[0] == twice[1];
    assert LeadsTo(fs, ["d", "up", "up"], Resolved(["d"]), twice);
    RefusedExactly(fs, ["d", "up", "up"]);
  }

  // ---- plain resolution is resolution part by part ----

  lemma {:induction false} PlainStep(fs: FileSystem, current: Path, remaining: seq<string>, hops: nat)
    requires remaining != []
    ensures
      var candidate, tail, p := current + [remaining[0]], remaining[1..], Plain(fs, current, remaining, hops);
      && (candidate !in fs && p.Ends? && p.result.Resolved? ==> p.result.path == candidate + tail)
      && (candidate in fs && !fs[candidate].Link? ==> p == Plain(fs, candidate, tail, hops))
      && (candidate in fs && fs[candidate].Link? && p.Ends? ==> hops > 0)
      && (candidate in fs && fs[candidate].Link? && hops > 0 ==>
            var onward := Plain(fs, [], fs[candidate].target + tail, hops - 1);
            p == if onward.Ends? then Ends(onward.result, [candidate] + onward.trail) else TooManyHops)
  {
  }

  lemma {:induction false} NoPartsLeft(fs: FileSystem, current: Path, hops: nat)
    ensures Plain(fs, current, [], hops) == Ends(Resolved(current), [])
  {
  }

  lemma {:induction false} MissingIsMissing(fs: FileSystem, candidate: Path, tail: seq<string>)
    requires WellFormed(fs) && candidate != [] && candidate !in fs
    ensures candidate + tail !in fs
  {
    var path := candidate + tail;
    assert path[..|candidate|] == candidate && path[..|path|] == path;
    NothingBelow(fs, path, |candidate|, |path|);
  }

  /**
   What the parts in front lead to may be put in their place: if they lead to something that exists, the rest
   of the path is resolved from there, and the links on the two ways add up.
   */
  lemma {:induction false} FrontFirst(
    fs: FileSystem, current: Path, front: seq<string>, rest: seq<string>, place: Path, trail: seq<Path>,
    onward: Bounded, hops: nat, more: nat)
    requires WellFormed(fs) && (place == [] || place in fs)
    requires Plain(fs, current, front, hops) == Ends(Resolved(place), trail)
    requires Plain(fs, place, rest, more) == onward && onward.Ends?
    ensures Plain(fs, current, front + rest, hops + more) == Ends(onward.result, trail + onward.trail)
    decreases hops, |front|
  {
    hide Plain, WellFormed;
    if front == [] {
      NoPartsLeft(fs, current, hops);
      assert front + rest == rest && [] + onward.trail == onward.trail;
      MoreHops(fs, current, rest, more, hops + more);
    } else {
      var candidate, tail := current + [front[0]], front[1..];
      assert (front + rest)[0] == front[0] && (front + rest)[1..] == tail + rest;
      PlainStep(fs, current, front, hops);
      PlainStep(fs, current, front + rest, hops + more);
      if candidate !in fs {
        MissingIsMissing(fs, candidate, tail);
        assert false;
      } else if !fs[candidate].Link? {
        FrontFirst(fs, candidate, tail, rest, place, trail, onward, hops, more);
      } else {
        FrontPastLink(fs, fs[candidate].target, tail, rest);
        var shorter := Plain(fs, [], fs[candidate].target + tail, hops - 1).trail;
        FrontFirst(fs, [], fs[candidate].target + tail, rest, place, shorter, onward, hops - 1, more);
        assert [candidate] + shorter + onward.trail == [candidate] + (shorter + onward.trail);
      }
    }
  }

  lemma {:induction false} FrontPastLink(fs: FileSystem, target: Path, tail: seq<string>, rest: seq<string>)
    ensures target + tail + rest == target + (tail + rest)
  {
  }

  lemma {:induction false} FrontIsDirectory(fs: FileSystem, path: Path, k: nat)
    requires WellFormed(fs) && path in fs && 0 < k < |path|
    ensures path[..k] in fs && fs[path[..k]].Directory?
    decreases |path| - k
  {
    if k < |path| - 1 {
      FrontIsDirectory(fs, path, k + 1);
      assert path[..k + 1][..k] == path[..k];
      assert IsDirectory(fs, path[..k + 1][..|path[..k + 1]| - 1]);
    } else {
      assert IsDirectory(fs, path[..|path| - 1]);
    }
  }

  lemma {:induction false} DownToLink(fs: FileSystem, link: Path, rest: seq<string>, k: nat, hops: nat)
    requires WellFormed(fs) && link in fs && fs[link].Link? && k < |link|
    requires Plain(fs, [], fs[link].target + rest, hops).Ends?
    ensures
      var onward := Plain(fs, [], fs[link].target + rest, hops);
      Plain(fs, link[..k], link[k..] + rest, hops + 1) == Ends(onward.result, [link] + onward.trail)
    decreases |link| - k
  {
    assert link[..k] + [link[k]] == link[..k + 1];
    assert (link[k..] + rest)[0] == link[k] && (link[k..] + rest)[1..] == link[k + 1..] + rest;
    if k + 1 < |link| {
      FrontIsDirectory(fs, link, k + 1);
      DownToLink(fs, link, rest, k + 1, hops);
    } else {
      assert link[..k + 1] == link && link[k + 1..] + rest == rest;
    }
  }

  /** A link stands for its target: what comes after it leads where it leads after the target, one link later. */
  lemma {:induction false} LinkStandsForTarget(
    fs: FileSystem, link: Path, rest: seq<string>, result: Resolution, trail: seq<Path>)
    requires WellFormed(fs) && link in fs && fs[link].Link?
    requires LeadsTo(fs, fs[link].target + rest, result, trail)
    ensures LeadsTo(fs, link + rest, result, [link] + trail)
  {
    hide Plain, WellFormed;
    NotTheRoot(fs, link);
    var hops: nat :| Plain(fs, [], fs[link].target + rest, hops) == Ends(result, trail);
    DownToLink(fs, link, rest, 0, hops);
    assert link[..0] == [] && link[0..] == link;
  }

  lemma {:induction false} NotTheRoot(fs: FileSystem, path: Path)
    requires WellFormed(fs) && path in fs
    ensures path != []
  {
  }
}
