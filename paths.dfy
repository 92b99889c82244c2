/** Discovery of the files to search: the directory walk is an input (the entries
    in traversal order), and only paths whose text ends with ".go" are kept. */
module PathCollector {
  import opened Basics

  const GoSuffix: string := ".go"

  /** One item the directory walk yields: a path, or an entry it could not read. */
  datatype WalkEntry = Visited(path: string) | Unreadable(error: string)

  predicate IsGoPath(p: string) {
    EndsWith(p, GoSuffix)
  }

  /** True when the walk reported an unreadable entry anywhere. */
  predicate WalkFailed(walk: seq<WalkEntry>) {
    exists i :: 0 <= i < |walk| && walk[i].Unreadable?
  }

  /** The visited paths ending with ".go", in traversal order. */
  function GoPaths(walk: seq<WalkEntry>): (paths: seq<string>)
    ensures |paths| <= |walk|
  {
    if walk == [] then []
    else
      var last := walk[|walk| - 1];
      GoPaths(walk[..|walk| - 1]) + (if last.Visited? && IsGoPath(last.path) then [last.path] else [])
  }

  /** The number of times `p` occurs as a visited path in the walk. */
  function VisitCount(walk: seq<WalkEntry>, p: string): nat {
    if walk == [] then 0
    else VisitCount(walk[..|walk| - 1], p) + (if walk[|walk| - 1] == Visited(p) then 1 else 0)
  }

  function Count(s: seq<string>, p: string): nat {
    if s == [] then 0 else Count(s[..|s| - 1], p) + (if s[|s| - 1] == p then 1 else 0)
  }

  /** Collect the paths of the walk that end with ".go" (src/main.rs:96-103). The first
      unreadable entry aborts the run (`entry.unwrap()`), modelled as `None`. */
  method CollectGoPaths(walk: seq<WalkEntry>) returns (result: Option<seq<string>>)
    ensures result.None? <==> WalkFailed(walk)
    ensures result.Some? ==> result.value == GoPaths(walk)
  {
    var paths: seq<string> := [];
    for i := 0 to |walk|
      invariant forall j :: 0 <= j < i ==> walk[j].Visited?
      invariant paths == GoPaths(walk[..i])
    {
      match walk[i]
      case Unreadable(_) =>
        assert walk[i].Unreadable?;
        return None;
      case Visited(path) =>
        assert walk[..i + 1][..i] == walk[..i];
        if IsGoPath(path) {
          paths := paths + [path];
        }
    }
    assert walk[..|walk|] == walk;
    return Some(paths);
  }

  /** Every collected path ends with ".go". */
  lemma {:induction false} GoPathsSound(walk: seq<WalkEntry>)
    ensures forall p :: p in GoPaths(walk) ==> IsGoPath(p)
  {
    if walk != [] {
      GoPathsSound(walk[..|walk| - 1]);
    }
  }

  /** Every visited path ending with ".go" is collected, as often as the walk visits it,
      and no other path is: the collection is the walk's ".go" paths and nothing else. */
  lemma {:induction false} GoPathsComplete(walk: seq<WalkEntry>, p: string)
    ensures Count(GoPaths(walk), p) == if IsGoPath(p) then VisitCount(walk, p) else 0
  {
    if walk != [] {
      var init, last := walk[..|walk| - 1], walk[|walk| - 1];
      GoPathsComplete(init, p);
      var tail := if last.Visited? && IsGoPath(last.path) then [last.path] else [];
      CountAppend(GoPaths(init), tail, p);
    }
  }

  lemma {:induction false} CountAppend(s: seq<string>, t: seq<string>, p: string)
    requires |t| <= 1
    ensures Count(s + t, p) == Count(s, p) + Count(t, p)
  {
    if t != [] {
      assert (s + t)[..|s + t| - 1] == s;
      assert t[..0] == [];
    } else {
      assert s + t == s;
    }
  }

  /** Traversal order is kept: the collected paths are the ".go" entries of the walk,
      found at strictly increasing positions. */
  lemma {:induction false} GoPathsInOrder(walk: seq<WalkEntry>) returns (idx: seq<nat>)
    ensures |idx| == |GoPaths(walk)|
    ensures forall k :: 0 <= k < |idx| ==> idx[k] < |walk| && walk[idx[k]] == Visited(GoPaths(walk)[k])
    ensures forall k, l :: 0 <= k < l < |idx| ==> idx[k] < idx[l]
  {
    if walk == [] {
      idx := [];
    } else {
      var n := |walk| - 1;
      var init := walk[..n];
      var idx0 := GoPathsInOrder(init);
      assert forall k :: 0 <= k < |idx0| ==> walk[idx0[k]] == init[idx0[k]];
      if walk[n].Visited? && IsGoPath(walk[n].path) {
        idx := idx0 + [n];
      } else {
        idx := idx0;
      }
    }
  }
}
