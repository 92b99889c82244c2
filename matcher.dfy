/** Matching within one file (src/main.rs:26-77). The parse and the query run are
    the engine's business: the model receives the file's text and the sequence of
    matches the engine yields. Each match becomes a map from capture name to node;
    the node bound to the root capture is reported once per node identity. */
module FileMatcher {
  import opened Basics
  import opened QueryCompiler

  /** A syntax-tree node as the engine reports it: an identity that is unique within
      one tree, and the byte range of the text it spans. */
  datatype Node = Node(id: nat, start: nat, end: nat)

  /** One capture of a match: the capture's name in the compiled query and the node it binds. */
  datatype Capture = Capture(name: string, node: Node)

  type Match = seq<Capture>

  /** What reading and querying one file gives: a read error (I/O or invalid UTF-8),
      or the text together with the engine's matches over it. */
  datatype FileInput = ReadFailed(error: string) | Parsed(text: string, matches: seq<Match>)

  /** No capture after position `i` reuses the name of capture `i`. */
  predicate IsLastBinding(m: Match, i: int)
    requires 0 <= i < |m|
  {
    forall j :: i < j < |m| ==> m[j].name != m[i].name
  }

  /** The name-to-node map a match's captures collect into (src/main.rs:50-54):
      the captures are inserted in order, so a name bound twice keeps its last node. */
  function CaptureMap(m: Match): map<string, Node> {
    if m == [] then map[] else CaptureMap(m[..|m| - 1])[m[|m| - 1].name := m[|m| - 1].node]
  }

  /** The map holds exactly the names the match binds, and each name maps to the node
      of its last binding, as collecting into a `HashMap` does. */
  lemma {:induction false} CaptureMapLastWins(m: Match)
    ensures forall i :: 0 <= i < |m| ==> m[i].name in CaptureMap(m)
    ensures forall k :: k in CaptureMap(m) ==> exists i :: 0 <= i < |m| && m[i].name == k
    ensures forall i :: 0 <= i < |m| && IsLastBinding(m, i) ==> CaptureMap(m)[m[i].name] == m[i].node
  {
    if m != [] {
      var init, last := m[..|m| - 1], m[|m| - 1];
      CaptureMapLastWins(init);
      assert forall i :: 0 <= i < |init| ==> init[i] == m[i];
      forall i | 0 <= i < |m| && IsLastBinding(m, i)
        ensures CaptureMap(m)[m[i].name] == m[i].node
      {
        if i < |init| {
          assert m[i].name != last.name;
          assert IsLastBinding(init, i);
        }
      }
    }
  }

  predicate HasRoot(m: Match) {
    RootCapture in CaptureMap(m)
  }

  /** The node bound to the root capture (src/main.rs:57). */
  function RootNode(m: Match): Node
    requires HasRoot(m)
  {
    CaptureMap(m)[RootCapture]
  }

  predicate InText(n: Node, text: string) {
    n.start <= n.end <= |text|
  }

  /** The match binds the root capture, to a node that lies inside the text. */
  predicate Rooted(m: Match, text: string) {
    HasRoot(m) && InText(RootNode(m), text)
  }

  /** What the engine guarantees of a parsed file: every match binds the root capture
      (the lookup at src/main.rs:57 panics otherwise), to a node inside the text. */
  predicate WellFormed(input: FileInput) {
    input.Parsed? ==>
      forall i {:trigger Rooted(input.matches[i], input.text)} :: 0 <= i < |input.matches| ==>
        Rooted(input.matches[i], input.text)
  }

  /** The root-capture node of each match, in match order. */
  function RootNodes(ms: seq<Match>, text: string): (nodes: seq<Node>)
    requires forall i {:trigger Rooted(ms[i], text)} :: 0 <= i < |ms| ==> Rooted(ms[i], text)
    ensures |nodes| == |ms|
    ensures forall i :: 0 <= i < |ms| ==> Rooted(ms[i], text) && nodes[i] == RootNode(ms[i])
    ensures forall n :: n in nodes ==> InText(n, text)
  {
    seq(|ms|, i requires 0 <= i < |ms| => assert Rooted(ms[i], text); RootNode(ms[i]))
  }

  function IdSet(nodes: seq<Node>): set<nat> {
    set n | n in nodes :: n.id
  }

  /** The nodes the loop accepts: each node whose identity has not occurred earlier. */
  function Dedup(nodes: seq<Node>): seq<Node> {
    if nodes == [] then []
    else
      var init, last := nodes[..|nodes| - 1], nodes[|nodes| - 1];
      if last.id in IdSet(init) then Dedup(init) else Dedup(init) + [last]
  }

  const Separator: string := "================================================================="

  /** One reported match (src/main.rs:69-73): the separator line, `Found [<path>]`,
      then the matched text. */
  function FormatEntry(path: string, found: string): string {
    Separator + "\nFound [" + path + "]\n" + found
  }

  /** The text a node spans (`utf8_text`, src/main.rs:66). */
  function Spanned(text: string, n: Node): string
    requires InText(n, text)
  {
    text[n.start..n.end]
  }

  /** The entries for the accepted nodes, one per node, in order: entry `k` reports the
      text of node `k`. */
  function Entries(path: string, text: string, nodes: seq<Node>): (entries: seq<string>)
    requires forall k :: 0 <= k < |nodes| ==> InText(nodes[k], text)
    ensures |entries| == |nodes|
    ensures forall k :: 0 <= k < |nodes| ==> entries[k] == FormatEntry(path, Spanned(text, nodes[k]))
  {
    if nodes == [] then []
    else
      var last := nodes[|nodes| - 1];
      Entries(path, text, nodes[..|nodes| - 1]) + [FormatEntry(path, Spanned(text, last))]
  }

  /** The entries `parse_file` appends for one file; a file that cannot be read appends none. */
  function FileEntries(path: string, input: FileInput): seq<string>
    requires WellFormed(input)
  {
    match input
    case ReadFailed(_) => []
    case Parsed(text, matches) =>
      var roots := RootNodes(matches, text);
      DedupSubset(roots);
      Entries(path, text, Dedup(roots))
  }

  /** What one file adds to the total: the number of distinct root-capture identities. */
  function FileCount(input: FileInput): nat
    requires WellFormed(input)
  {
    match input
    case ReadFailed(_) => 0
    case Parsed(text, matches) => |IdSet(RootNodes(matches, text))|
  }

  /** The shared sink: the buffered output lines (`out`, behind a mutex in the source)
      and the global match counter (`TOTAL_COUNT`). */
  class Aggregator {
    var entries: seq<string>
    var total: int

    constructor ()
      ensures entries == [] && total == 0
    {
      entries := [];
      total := 0;
    }

    /** Append one formatted line (`out.lock().unwrap().push(..)`). */
    method Push(entry: string)
      modifies this
      ensures entries == old(entries) + [entry]
      ensures total == old(total)
    {
      entries := entries + [entry];
    }

    /** Bump the counter by one (`TOTAL_COUNT.fetch_add(1, ..)`). */
    method FetchAdd()
      modifies this
      ensures total == old(total) + 1
      ensures entries == old(entries)
    {
      total := total + 1;
    }
  }

  /** Search one file (src/main.rs:26-77). A read failure is returned before anything
      is appended or counted; otherwise each match whose root node was not seen before
      in this file bumps the counter and appends one entry. */
  method ParseFile(agg: Aggregator, path: string, input: FileInput) returns (outcome: Outcome<string>)
    requires WellFormed(input)
    modifies agg
    ensures outcome == if input.ReadFailed? then Fail(input.error) else Pass
    ensures agg.entries == old(agg.entries) + FileEntries(path, input)
    ensures agg.total == old(agg.total) + FileCount(input)
  {
    if input.ReadFailed? {
      return Fail(input.error);
    }
    var text, matches := input.text, input.matches;
    ghost var roots := RootNodes(matches, text);
    var seenNodes: set<nat> := {};
    ghost var kept: seq<Node> := [];
    for i := 0 to |matches|
      invariant seenNodes == IdSet(roots[..i])
      invariant kept == Dedup(roots[..i])
      invariant forall n :: n in kept ==> InText(n, text)
      invariant agg.entries == old(agg.entries) + Entries(path, text, kept)
      invariant agg.total == old(agg.total) + |kept|
    {
      assert Rooted(matches[i], text);
      var captures := CaptureMap(matches[i]);
      var full := captures[RootCapture];
      LoopStep(path, text, roots, i, seenNodes, kept, old(agg.entries));
      if full.id !in seenNodes {
        seenNodes := seenNodes + {full.id};
        agg.FetchAdd();
        var found := Spanned(text, full);
        agg.Push(FormatEntry(path, found));
        kept := kept + [full];
      }
    }
    assert roots[..|matches|] == roots;
    DedupCount(roots);
    return Pass;
  }

  /** What one turn of the match loop does to the loop's state, stated on the root nodes
      seen so far: a repeated identity leaves everything as it was, a new one is recorded,
      kept and given one more entry. */
  lemma {:induction false} LoopStep(path: string, text: string, roots: seq<Node>, i: nat, seen: set<nat>, kept: seq<Node>,
                 base: seq<string>)
    requires i < |roots| && forall n :: n in roots ==> InText(n, text)
    requires seen == IdSet(roots[..i]) && kept == Dedup(roots[..i])
    ensures InText(roots[i], text) && forall n :: n in kept ==> InText(n, text)
    ensures roots[i].id in seen ==> IdSet(roots[..i + 1]) == seen && Dedup(roots[..i + 1]) == kept
    ensures roots[i].id !in seen ==>
              IdSet(roots[..i + 1]) == seen + {roots[i].id} && Dedup(roots[..i + 1]) == kept + [roots[i]] &&
              base + Entries(path, text, kept + [roots[i]]) ==
              (base + Entries(path, text, kept)) + [FormatEntry(path, Spanned(text, roots[i]))]
  {
    var n := roots[i];
    assert roots[..i + 1] == roots[..i] + [n];
    IdSetSnoc(roots[..i], n);
    DedupSnoc(roots[..i], n);
    DedupSubset(roots[..i]);
    assert forall m :: m in roots[..i] ==> m in roots;
    if n.id !in seen {
      EntriesSnoc(path, text, kept, n);
    }
  }

  /** Only nodes of the input are kept. */
  lemma {:induction false} DedupSubset(nodes: seq<Node>)
    ensures forall n :: n in Dedup(nodes) ==> n in nodes
  {
    if nodes != [] {
      DedupSubset(nodes[..|nodes| - 1]);
    }
  }

  /** One more node: it is kept exactly when its identity is new. */
  lemma {:induction false} DedupSnoc(nodes: seq<Node>, n: Node)
    ensures Dedup(nodes + [n]) == if n.id in IdSet(nodes) then Dedup(nodes) else Dedup(nodes) + [n]
  {
    assert (nodes + [n])[..|nodes|] == nodes;
  }

  lemma {:induction false} EntriesSnoc(path: string, text: string, nodes: seq<Node>, n: Node)
    requires forall m :: m in nodes ==> InText(m, text)
    requires InText(n, text)
    ensures Entries(path, text, nodes + [n]) == Entries(path, text, nodes) + [FormatEntry(path, Spanned(text, n))]
  {
    assert (nodes + [n])[..|nodes|] == nodes;
  }

  /** The identities kept are exactly the identities met. */
  lemma {:induction false} DedupIdSet(nodes: seq<Node>)
    ensures IdSet(Dedup(nodes)) == IdSet(nodes)
  {
    if nodes != [] {
      var init, last := nodes[..|nodes| - 1], nodes[|nodes| - 1];
      DedupIdSet(init);
      IdSetSnoc(init, last);
      if last.id !in IdSet(init) {
        IdSetSnoc(Dedup(init), last);
      }
    }
  }

  lemma {:induction false} IdSetSnoc(nodes: seq<Node>, n: Node)
    ensures IdSet(nodes + [n]) == IdSet(nodes) + {n.id}
    ensures n.id in IdSet(nodes) ==> IdSet(nodes + [n]) == IdSet(nodes)
  {
    assert forall m :: m in nodes + [n] <==> m in nodes || m == n;
  }

  /** No two kept nodes share an identity. */
  lemma {:induction false} DedupDistinct(nodes: seq<Node>)
    ensures forall i, j :: 0 <= i < j < |Dedup(nodes)| ==> Dedup(nodes)[i].id != Dedup(nodes)[j].id
  {
    if nodes != [] {
      var init, last := nodes[..|nodes| - 1], nodes[|nodes| - 1];
      DedupDistinct(init);
      if last.id !in IdSet(init) {
        DedupIdSet(init);
        var d := Dedup(init);
        assert forall i :: 0 <= i < |d| ==> d[i].id in IdSet(d);
      }
    }
  }

  /** As many nodes are kept as there are distinct identities. */
  lemma {:induction false} DedupCount(nodes: seq<Node>)
    ensures |Dedup(nodes)| == |IdSet(nodes)|
  {
    if nodes != [] {
      var init, last := nodes[..|nodes| - 1], nodes[|nodes| - 1];
      DedupCount(init);
      IdSetSnoc(init, last);
      assert init + [last] == nodes;
      if last.id in IdSet(init) {
        assert IdSet(nodes) == IdSet(init);
      } else {
        assert |IdSet(init) + {last.id}| == |IdSet(init)| + 1;
      }
    }
  }

  /** No node with the same identity comes before position `i`. */
  predicate IsFirst(nodes: seq<Node>, i: int)
    requires 0 <= i < |nodes|
  {
    forall j :: 0 <= j < i ==> nodes[j].id != nodes[i].id
  }

  /** The kept nodes are the first occurrences of each identity, in the order they occur:
      `idx` lists exactly the first-occurrence positions, increasing, and the kept
      sequence is the nodes at those positions. */
  lemma {:induction false} DedupFirstOccurrences(nodes: seq<Node>) returns (idx: seq<nat>)
    ensures |idx| == |Dedup(nodes)|
    ensures forall k :: 0 <= k < |idx| ==> idx[k] < |nodes| && nodes[idx[k]] == Dedup(nodes)[k] && IsFirst(nodes, idx[k])
    ensures forall k, l :: 0 <= k < l < |idx| ==> idx[k] < idx[l]
    ensures forall i :: 0 <= i < |nodes| && IsFirst(nodes, i) ==> i in idx
  {
    if nodes == [] {
      idx := [];
    } else {
      var n := |nodes| - 1;
      var init, last := nodes[..n], nodes[n];
      var idx0 := DedupFirstOccurrences(init);
      assert forall i :: 0 <= i < n ==> nodes[i] == init[i];
      assert forall i :: 0 <= i < n ==> (IsFirst(nodes, i) <==> IsFirst(init, i));
      if last.id in IdSet(init) {
        var w :| w in init && w.id == last.id;
        var j :| 0 <= j < n && init[j] == w;
        assert !IsFirst(nodes, n);
        idx := idx0;
      } else {
        assert forall j :: 0 <= j < n ==> init[j] in init;
        assert IsFirst(nodes, n);
        idx := idx0 + [n];
      }
    }
  }

  /** A match whose root node was already seen adds neither an entry nor a count. */
  lemma {:induction false} RepeatedRootChangesNothing(path: string, text: string, ms: seq<Match>, m: Match)
    requires WellFormed(Parsed(text, ms)) && Rooted(m, text)
    requires exists k :: 0 <= k < |ms| && Rooted(ms[k], text) && RootNode(ms[k]).id == RootNode(m).id
    ensures WellFormed(Parsed(text, ms + [m]))
    ensures FileEntries(path, Parsed(text, ms + [m])) == FileEntries(path, Parsed(text, ms))
    ensures FileCount(Parsed(text, ms + [m])) == FileCount(Parsed(text, ms))
  {
    RootNodesSnoc(text, ms, m);
    var roots := RootNodes(ms, text);
    var k :| 0 <= k < |ms| && Rooted(ms[k], text) && RootNode(ms[k]).id == RootNode(m).id;
    assert roots[k] in roots;
    assert RootNode(m).id in IdSet(roots);
    IdSetSnoc(roots, RootNode(m));
    DedupSnoc(roots, RootNode(m));
  }

  /** A match with a new root node adds exactly one entry, for that node's text, and one
      to the count. */
  lemma {:induction false} NewRootAddsOne(path: string, text: string, ms: seq<Match>, m: Match)
    requires WellFormed(Parsed(text, ms)) && Rooted(m, text)
    requires forall k :: 0 <= k < |ms| && Rooted(ms[k], text) ==> RootNode(ms[k]).id != RootNode(m).id
    ensures WellFormed(Parsed(text, ms + [m]))
    ensures FileEntries(path, Parsed(text, ms + [m])) ==
            FileEntries(path, Parsed(text, ms)) + [FormatEntry(path, Spanned(text, RootNode(m)))]
    ensures FileCount(Parsed(text, ms + [m])) == FileCount(Parsed(text, ms)) + 1
  {
    RootNodesSnoc(text, ms, m);
    var roots := RootNodes(ms, text);
    assert RootNode(m).id !in IdSet(roots);
    IdSetSnoc(roots, RootNode(m));
    DedupSnoc(roots, RootNode(m));
    DedupSubset(roots);
    EntriesSnoc(path, text, Dedup(roots), RootNode(m));
  }

  lemma {:induction false} RootNodesSnoc(text: string, ms: seq<Match>, m: Match)
    requires WellFormed(Parsed(text, ms)) && Rooted(m, text)
    ensures WellFormed(Parsed(text, ms + [m]))
    ensures RootNodes(ms + [m], text) == RootNodes(ms, text) + [RootNode(m)]
  {
    var ms' := ms + [m];
    forall i | 0 <= i < |ms'| ensures Rooted(ms'[i], text) {
      if i < |ms| {
        assert ms'[i] == ms[i] && Rooted(ms[i], text);
      }
    }
  }

  /** Each accepted match appends exactly one entry: a file's entries are as many as it
      adds to the count. */
  lemma {:induction false} EntriesMatchCount(path: string, input: FileInput)
    requires WellFormed(input)
    ensures |FileEntries(path, input)| == FileCount(input)
  {
    if input.Parsed? {
      DedupCount(RootNodes(input.matches, input.text));
    }
  }

  /** Entries of paths without a newline are never confused: the path and the matched
      text can be read back from an entry. */
  lemma {:induction false} FormatEntryInjective(p1: string, t1: string, p2: string, t2: string)
    requires '\n' !in p1 && '\n' !in p2
    requires FormatEntry(p1, t1) == FormatEntry(p2, t2)
    ensures p1 == p2 && t1 == t2
  {
    var e1, e2 := FormatEntry(p1, t1), FormatEntry(p2, t2);
    var h := |Separator + "\nFound ["|;
    assert forall k :: 0 <= k < |p1| ==> e1[h + k] == p1[k];
    assert forall k :: 0 <= k < |p2| ==> e2[h + k] == p2[k];
    assert e1[h + |p1|] == ']' && e1[h + |p1| + 1] == '\n';
    assert e2[h + |p2|] == ']' && e2[h + |p2| + 1] == '\n';
    if |p1| < |p2| {
      assert false;
    } else if |p2| < |p1| {
      assert false;
    }
    assert p1 == e1[h..h + |p1|] == e2[h..h + |p2|] == p2;
    assert t1 == e1[h + |p1| + 2..] == e2[h + |p2| + 2..] == t2;
  }
}
