# lemming, modelled in Dafny

lemming is a command-line tool that searches a directory of Go files with a
tree-sitter query. The user passes a directory and a query pattern. The tool:

- appends a synthetic root capture, `@full_pattern_cli_capture`, to the pattern;
- walks the directory and keeps every path ending in `.go`;
- searches the files in parallel;
- prints `Searching N files.`, then one entry per distinct matched node
  (a separator line, `Found [<path>]` and the node's text), then `Found T total results.`.

A file that cannot be read is reported as `==> Skipping [<path>] [<error>]`.

The model covers the orchestration in `src/main.rs`. The tree-sitter engine, the file system
walk and the thread pool are inputs:

- `PathCollector` (`paths.dfy`): the walk is a sequence of entries (a visited path or an
  unreadable entry). `CollectGoPaths` is the collecting loop. `GoPaths` is its specification.
- `QueryCompiler` (`query.dfy`): the augmented query text and how the pattern is recovered from it.
- `FileMatcher` (`matcher.dfy`): `parse_file`. A file is either a read error or its text
  together with the match sequence the engine yields. Each match is a list of captures
  (name, node id, start and end offsets). The shared output buffer and the global counter
  are the fields of the `Aggregator` class. `ParseFile` runs the dedup loop and keeps the
  set of seen node ids. It is proved against `Dedup`, `Entries` and `FileCount`.
- `Search` (`search.dfy`): `main`. The pattern is checked by an abstract `compiles`, the
  `.go` paths are collected, and a loop folds `ParseFile` and the skip notices into one
  aggregator. The printed lines (header, buffered lines, footer) are proved equal to
  `Report`. `Concat` and `Sum` are the fold written as functions. `SearchOrderIrrelevant`
  shows that searching whole files in any order gives the same total and the same lines,
  as a multiset. Entries of different files interleaving one at a time is not covered.
- `Basics` (`basics.dfy`): `Option`, `Outcome`, suffix test and decimal rendering of counts.

The code differs from a plain reading of the tool's description: a directory whose name
ends in `.go` is collected like a file, because the filter at src/main.rs:100 looks only at
the path string. Such a directory is counted in the header and then yields a skip notice
when it cannot be read as a file. The model follows the code: a collected path is any
visited path ending in `.go`, and its read result is whatever the `files` input says.

## Model

| member | source | states |
|---|---|---|
| PathCollector.CollectGoPaths | src/main.rs:96-103 | the walk aborts (no result) exactly when it has an unreadable entry; otherwise the result is the visited paths ending in `.go`, in traversal order |
| PathCollector.GoPathsSound | src/main.rs:100-101 | every collected path ends with `.go` |
| PathCollector.GoPathsComplete | src/main.rs:97-102 | each path ending in `.go` is collected as many times as the walk visits it, and no other path is collected |
| PathCollector.GoPathsInOrder | src/main.rs:97-102 | the collected paths appear in the walk at strictly increasing positions, so traversal order is kept |
| QueryCompiler.AugmentPattern | src/main.rs:89 | the query text is the user pattern followed by ` @full_pattern_cli_capture` |
| QueryCompiler.PatternOf | src/main.rs:89 | the inverse of the augmentation: it accepts exactly the texts ending with the root-capture suffix, and the pattern it returns augments back to the given text |
| QueryCompiler.AugmentRoundTrip | src/main.rs:89 | stripping the suffix from the augmented query gives back the user pattern |
| QueryCompiler.AugmentInjective | src/main.rs:89 | different patterns give different query texts |
| FileMatcher.CaptureMapLastWins | src/main.rs:50-54 | the capture map holds exactly the names the match binds, and each name maps to the node of its last binding |
| FileMatcher.ParseFile | src/main.rs:26-77 | a read failure returns the error and changes nothing; otherwise the buffer gains one entry per distinct root node in first-occurrence order, and the counter grows by the number of distinct root ids |
| FileMatcher.LoopStep | src/main.rs:59-73 | one loop turn: a seen id leaves the seen set, the kept nodes and the buffer unchanged; a new id is added to the seen set and gets one more entry |
| FileMatcher.DedupIdSet | src/main.rs:47-62 | the accepted nodes carry exactly the ids of all root nodes, which is the final `seen_nodes` set |
| FileMatcher.DedupDistinct | src/main.rs:59-62 | no two accepted nodes share an id, so no two entries come from the same node |
| FileMatcher.DedupCount | src/main.rs:59-64 | the number of accepted nodes is the number of distinct root ids |
| FileMatcher.DedupFirstOccurrences | src/main.rs:59-73 | the accepted nodes are the first occurrences of each id, at increasing positions |
| FileMatcher.RepeatedRootChangesNothing | src/main.rs:59-61 | a match whose root id was seen earlier adds neither an entry nor a count |
| FileMatcher.NewRootAddsOne | src/main.rs:62-73 | a match with a new root id adds exactly one entry (separator, `Found [<path>]`, the node's text) and one to the count |
| FileMatcher.Entries | src/main.rs:66-73 | one entry per accepted node, in order; entry `k` is the separator, `Found [<path>]` and the text node `k` spans |
| FileMatcher.EntriesMatchCount | src/main.rs:64-73 | a file appends as many entries as it adds to the counter |
| FileMatcher.FormatEntryInjective | src/main.rs:69-73 | for paths without a newline, the path and the matched text can be read back from an entry |
| Search.Run | src/main.rs:79-127 | a rejected query or a failed walk prints nothing; otherwise the output is the header with the number of `.go` paths, every file's lines, and the footer with the total |
| Search.FoldStep | src/main.rs:108-115 | each file adds its entries and its count; an unreadable file adds exactly its skip notice and nothing to the count |
| Search.BufferedSize | src/main.rs:108-115 | the buffer holds one line per counted match plus one per unreadable file |
| Search.ConcatAppend | src/main.rs:108-115 | searching one list of files and then another buffers the first list's lines followed by the second's |
| Search.SumAppend | src/main.rs:108-115 | the counts of two lists of files add up |
| Search.SumOrderIrrelevant | src/main.rs:108-115 | any reordering of the files gives the same total |
| Search.ConcatOrderIrrelevant | src/main.rs:108-115 | any reordering of the files gives the same buffered lines, as a multiset |
| Search.SearchOrderIrrelevant | src/main.rs:108-124 | the footer total and the multiset of printed entries do not depend on the order in which the files are searched |
| Search.NoGoFilesReport | src/main.rs:105-124 | a walk with no `.go` path prints `Searching 0 files.` and `Found 0 total results.` and nothing between them |
| Basics.NatToString | src/main.rs:105 | a count is rendered as a non-empty string of decimal digits with no leading zero |
| Basics.DecimalRoundTrip | src/main.rs:121-124 | reading the rendered count back gives the count |
| Basics.NatToStringInjective | src/main.rs:121-124 | different counts render differently |

## Left out

- Tree-sitter parsing, the Go grammar loaded through the foreign function interface, and running the query (src/main.rs:11-13, 32-36, 40, 42-49). Each file's text and match sequence are an input. The `unwrap`s on the parser and on `utf8_text` are not modelled.
- `Query::new` (src/main.rs:92-93). Whether the engine accepts the query text is the abstract input `compiles`. A rejected query panics before any output, which is modelled as no output.
- The engine's guarantees are preconditions (`WellFormed`): every match binds the root capture, and the node's range lies inside the text. The lookup at src/main.rs:57 panics without the root capture. The engine attaches the appended capture only to the last top-level pattern, so a query with several top-level patterns breaks this precondition.
- Byte offsets index the text as a sequence of characters. UTF-8 encoding and decoding are not modelled, and neither is the file read itself: a read is a given text or a given error message.
- The directory walk (src/main.rs:97-99) is an input sequence. An entry it cannot read aborts the whole run. The `to_str` panic on a non-UTF-8 path is not modelled, because paths are strings here.
- rayon's parallel `for_each`, the `Mutex` and the atomic counter (src/main.rs:23, 29, 67, 82, 108-115). They are modelled as a sequential fold in path order over one `Aggregator`. How entries from different files interleave is not modelled; `Search.SearchOrderIrrelevant` covers only the order of whole files.
- FileMatcher.Aggregator.FetchAdd: the counter is an unbounded integer. The wrap-around of the signed machine-word `AtomicIsize` is not modelled.
- clap argument parsing (src/main.rs:15-20) and writing to stdout. The printed output is a sequence of strings, one per `println!` argument.
- example/example.go is sample input, not tool logic.
