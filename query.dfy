/** The text handed to the query compiler: the user's pattern with the synthetic
    root capture appended, so that every match binds the node the whole pattern matched. */
module QueryCompiler {
  import opened Basics

  /** Name of the capture the tool adds to the user's pattern. */
  const RootCapture: string := "full_pattern_cli_capture"

  /** What is appended to the pattern: a space, `@` and the capture name. */
  const RootSuffix: string := " @" + RootCapture

  /** The query text compiled from the user's pattern (src/main.rs:89). */
  function AugmentPattern(pattern: string): (query: string)
    ensures |query| == |pattern| + |RootSuffix|
    ensures query[..|pattern|] == pattern
    ensures EndsWith(query, RootSuffix)
  {
    pattern + RootSuffix
  }

  /** The inverse of `AugmentPattern`: the user's pattern is recovered from the query
      text by dropping the suffix, and only augmented texts have one. */
  function PatternOf(query: string): (pattern: Option<string>)
    ensures pattern.Some? <==> EndsWith(query, RootSuffix)
    ensures pattern.Some? ==> AugmentPattern(pattern.value) == query
  {
    if EndsWith(query, RootSuffix) then Some(query[..|query| - |RootSuffix|]) else None
  }

  /** Augmenting and then stripping gives back the user's pattern, so two different
      patterns never compile to the same query text. */
  lemma AugmentRoundTrip(pattern: string)
    ensures PatternOf(AugmentPattern(pattern)) == Some(pattern)
  {
    assert AugmentPattern(pattern)[..|pattern|] == pattern;
  }

  lemma AugmentInjective(p: string, q: string)
    ensures AugmentPattern(p) == AugmentPattern(q) ==> p == q
  {
    AugmentRoundTrip(p);
    AugmentRoundTrip(q);
  }
}
