/** The whole run (src/main.rs:79-127): augment and compile the pattern, collect the
    ".go" paths, search every file into one aggregator, then print a header, the
    buffered lines and a footer. The parallel `for_each` over the files is a fold in
    path order; the lemmas at the end show that the count and the buffered lines, as a
    multiset, do not depend on that order. */
module Search {
  import opened Basics
  import opened PathCollector
  import opened QueryCompiler
  import opened FileMatcher

  /** The line `main` buffers for a file whose search failed (src/main.rs:113). */
  function SkipNotice(path: string, error: string): string {
    "==> Skipping [" + path + "] [" + error + "]"
  }

  /** The argument of the first `println!`: the number of files to search and a blank line. */
  function Header(files: nat): string {
    "Searching " + NatToString(files) + " files.\n"
  }

  /** The argument of the last `println!`: a blank line and the total count. */
  function Footer(total: nat): string {
    "\nFound " + NatToString(total) + " total results."
  }

  /** Reading and querying every path yields what the engine promises. */
  ghost predicate EngineWellFormed(files: string -> FileInput) {
    forall p :: WellFormed(files(p))
  }

  /** What one file leaves in the buffer: its entries, or one skip notice if it could
      not be read. */
  function FileOutput(path: string, input: FileInput): seq<string>
    requires WellFormed(input)
  {
    match input
    case ReadFailed(error) => [SkipNotice(path, error)]
    case Parsed(_, _) => FileEntries(path, input)
  }

  /** The lines each path leaves in the buffer. */
  function OutputOf(files: string -> FileInput): string -> seq<string> {
    p => if WellFormed(files(p)) then FileOutput(p, files(p)) else []
  }

  /** What each path adds to the counter. */
  function CountOf(files: string -> FileInput): string -> nat {
    p => if WellFormed(files(p)) then FileCount(files(p)) else 0
  }

  /** The outputs of `paths`, in order, one after the other. */
  function Concat(paths: seq<string>, out: string -> seq<string>): seq<string> {
    if paths == [] then [] else Concat(paths[..|paths| - 1], out) + out(paths[|paths| - 1])
  }

  /** The counts of `paths`, added up. */
  function Sum(paths: seq<string>, count: string -> nat): nat {
    if paths == [] then 0 else Sum(paths[..|paths| - 1], count) + count(paths[|paths| - 1])
  }

  /** The buffer after searching `paths` in order. */
  function Buffered(paths: seq<string>, files: string -> FileInput): seq<string> {
    Concat(paths, OutputOf(files))
  }

  /** The counter after searching `paths`: each file's number of distinct root nodes. */
  function Total(paths: seq<string>, files: string -> FileInput): nat {
    Sum(paths, CountOf(files))
  }

  /** The number of paths whose file could not be read. */
  function Skipped(paths: seq<string>, files: string -> FileInput): nat {
    if paths == [] then 0
    else Skipped(paths[..|paths| - 1], files) + (if files(paths[|paths| - 1]).ReadFailed? then 1 else 0)
  }

  /** Everything printed, one `println!` argument per element. */
  function Report(paths: seq<string>, files: string -> FileInput): seq<string> {
    [Header(|paths|)] + Buffered(paths, files) + [Footer(Total(paths, files))]
  }

  /** The tool's `main`. `compiles` says whether the engine accepts a query text (a
      rejected one panics before any file is touched); `files` gives what reading and
      querying each path yields. `None` is a run that aborts without printing. */
  method Run(walk: seq<WalkEntry>, pattern: string, compiles: string -> bool, files: string -> FileInput)
    returns (printed: Option<seq<string>>)
    requires EngineWellFormed(files)
    ensures !compiles(AugmentPattern(pattern)) ==> printed == None
    ensures compiles(AugmentPattern(pattern)) ==>
              printed == if WalkFailed(walk) then None else Some(Report(GoPaths(walk), files))
  {
    var agg := new Aggregator();
    var fullPattern := AugmentPattern(pattern);
    if !compiles(fullPattern) {
      return None;
    }
    var collected := CollectGoPaths(walk);
    if collected.None? {
      return None;
    }
    var paths := collected.value;
    var header := Header(|paths|);
    for i := 0 to |paths|
      invariant agg.entries == Buffered(paths[..i], files)
      invariant agg.total == Total(paths[..i], files)
    {
      var path := paths[i];
      FoldStep(paths, i, files);
      var outcome := ParseFile(agg, path, files(path));
      if outcome.Fail? {
        agg.Push(SkipNotice(path, outcome.error));
      }
    }
    assert paths[..|paths|] == paths;
    printed := Some([header] + agg.entries + [Footer(agg.total)]);
  }

  /** One more file in the fold: its entries and its count are added; an unreadable
      file adds exactly its skip notice and nothing to the count. */
  lemma {:induction false} FoldStep(paths: seq<string>, i: nat, files: string -> FileInput)
    requires EngineWellFormed(files) && i < |paths|
    ensures Buffered(paths[..i + 1], files) == Buffered(paths[..i], files) + FileOutput(paths[i], files(paths[i]))
    ensures Total(paths[..i + 1], files) == Total(paths[..i], files) + FileCount(files(paths[i]))
    ensures files(paths[i]).ReadFailed? ==>
              Buffered(paths[..i + 1], files) == Buffered(paths[..i], files) + [SkipNotice(paths[i], files(paths[i]).error)]
              && Total(paths[..i + 1], files) == Total(paths[..i], files)
  {
    assert paths[..i + 1][..i] == paths[..i];
    assert WellFormed(files(paths[i]));
  }

  /** A file that cannot be read leaves exactly one line, its skip notice, and adds
      nothing to the count; the buffer therefore holds one line per match counted plus
      one per unreadable file. */
  lemma {:induction false} BufferedSize(paths: seq<string>, files: string -> FileInput)
    requires EngineWellFormed(files)
    ensures |Buffered(paths, files)| == Total(paths, files) + Skipped(paths, files)
  {
    if paths != [] {
      var last := paths[|paths| - 1];
      BufferedSize(paths[..|paths| - 1], files);
      assert WellFormed(files(last));
      EntriesMatchCount(last, files(last));
    }
  }

  /** Folding over `a` then `b` gives the output of `a` followed by that of `b`. */
  lemma {:induction false} ConcatAppend(a: seq<string>, b: seq<string>, out: string -> seq<string>)
    ensures Concat(a + b, out) == Concat(a, out) + Concat(b, out)
  {
    if b == [] {
      assert a + b == a;
    } else {
      var init := b[..|b| - 1];
      ConcatAppend(a, init, out);
      assert (a + b)[..|a + b| - 1] == a + init;
    }
  }

  /** Counting over `a` then `b` adds the counts of both. */
  lemma {:induction false} SumAppend(a: seq<string>, b: seq<string>, count: string -> nat)
    ensures Sum(a + b, count) == Sum(a, count) + Sum(b, count)
  {
    if b == [] {
      assert a + b == a;
    } else {
      SumAppend(a, b[..|b| - 1], count);
      assert (a + b)[..|a + b| - 1] == a + b[..|b| - 1];
    }
  }

  /** In a reordering `q` of `p`, the last element of `p` sits between a prefix `a` and
      a suffix `b` that together reorder the rest of `p`. */
  lemma {:induction false} SplitAtLast(p: seq<string>, q: seq<string>) returns (a: seq<string>, b: seq<string>)
    requires p != [] && multiset(p) == multiset(q)
    ensures q == a + [p[|p| - 1]] + b
    ensures multiset(p[..|p| - 1]) == multiset(a + b)
  {
    var init, x := p[..|p| - 1], p[|p| - 1];
    assert x in multiset(q);
    var j :| 0 <= j < |q| && q[j] == x;
    a, b := q[..j], q[j + 1..];
    var rest := a + b;
    assert q == rest[..j] + [x] + rest[j..] by {
      assert rest[..j] == a && rest[j..] == b;
      assert q == a + [x] + b;
    }
    MultisetInsert(rest, j, x);
    assert p == init + [x];
    MultisetCancel(multiset(init), multiset(rest), x);
  }

  lemma MultisetCancel(m: multiset<string>, n: multiset<string>, x: string)
    requires m + multiset{x} == n + multiset{x}
    ensures m == n
  {
    assert forall y :: m[y] == (m + multiset{x})[y] - (if y == x then 1 else 0);
    assert forall y :: n[y] == (n + multiset{x})[y] - (if y == x then 1 else 0);
  }

  /** The order in which the files are searched does not change the total. */
  lemma {:induction false} SumOrderIrrelevant(p: seq<string>, q: seq<string>, count: string -> nat)
    requires multiset(p) == multiset(q)
    ensures Sum(p, count) == Sum(q, count)
  {
    if p != [] {
      var init, x := p[..|p| - 1], p[|p| - 1];
      var a, b := SplitAtLast(p, q);
      SumOrderIrrelevant(init, a + b, count);
      SumAppend(a, b, count);
      SumAppend(a + [x], b, count);
      SumAppend(a, [x], count);
      assert Sum([x], count) == count(x) by {
        assert [x][..0] == [];
      }
    } else {
      assert |q| == |multiset(q)| == 0;
    }
  }

  /** The order in which the files are searched does not change which lines end up in
      the buffer, counted with repetition; only their order may differ. */
  lemma {:induction false} ConcatOrderIrrelevant(p: seq<string>, q: seq<string>, out: string -> seq<string>)
    requires multiset(p) == multiset(q)
    ensures multiset(Concat(p, out)) == multiset(Concat(q, out))
  {
    if p != [] {
      var init, x := p[..|p| - 1], p[|p| - 1];
      var a, b := SplitAtLast(p, q);
      ConcatOrderIrrelevant(init, a + b, out);
      ConcatAppend(a, b, out);
      ConcatAppend(a + [x], b, out);
      ConcatAppend(a, [x], out);
      assert Concat([x], out) == out(x) by {
        assert [x][..0] == [];
      }
    } else {
      assert |q| == |multiset(q)| == 0;
    }
  }

  /** Searching the files in any order yields the same total and the same lines, as a
      multiset. This is what lets the parallel loop be read as a fold in path order. */
  lemma SearchOrderIrrelevant(p: seq<string>, q: seq<string>, files: string -> FileInput)
    requires multiset(p) == multiset(q)
    ensures Total(p, files) == Total(q, files)
    ensures multiset(Buffered(p, files)) == multiset(Buffered(q, files))
  {
    SumOrderIrrelevant(p, q, CountOf(files));
    ConcatOrderIrrelevant(p, q, OutputOf(files));
  }

  /** Inserting one element adds it to the multiset. */
  lemma MultisetInsert(s: seq<string>, j: nat, x: string)
    requires j <= |s|
    ensures multiset(s[..j] + [x] + s[j..]) == multiset(s) + multiset{x}
  {
    assert s == s[..j] + s[j..];
  }

  /** A walk that finds no ".go" file prints `Searching 0 files.`, a blank line, no
      entries and `Found 0 total results.`. */
  lemma {:induction false} NoGoFilesReport(walk: seq<WalkEntry>, files: string -> FileInput)
    requires EngineWellFormed(files)
    requires forall i :: 0 <= i < |walk| ==> walk[i].Visited? && !IsGoPath(walk[i].path)
    ensures Report(GoPaths(walk), files) == ["Searching 0 files.\n", "\nFound 0 total results."]
  {
    NoGoPaths(walk);
    assert NatToString(0) == "0";
    assert Header(0) == "Searching 0 files.\n";
    assert Footer(0) == "\nFound 0 total results.";
    assert Concat([], OutputOf(files)) == [] && Sum([], CountOf(files)) == 0;
  }

  lemma {:induction false} NoGoPaths(walk: seq<WalkEntry>)
    requires forall i :: 0 <= i < |walk| ==> walk[i].Visited? && !IsGoPath(walk[i].path)
    ensures GoPaths(walk) == []
  {
    if walk != [] {
      NoGoPaths(walk[..|walk| - 1]);
    }
  }
}
