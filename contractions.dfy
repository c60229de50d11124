/**
 * `merge_contractions`: a left-to-right pass over the tokens with a
 * `skip_next` flag and two rules that are not exclusive, a look-behind rule
 * (a clitic at position i > 0 is glued to token i-1) and a look-ahead rule
 * (token i is glued to a clitic at position i+1, which is then skipped).
 * Both preprocessors share the algorithm and the table.
 */
module Contractions {

  /** The clitic table: a clitic maps to the word it expands to. */
  const CONTRACTIONS: map<string, string> := map[
    "n't" := "not",
    "'re" := "are",
    "'s" := "is",
    "'d" := "would",
    "'ll" := "will",
    "'ve" := "have",
    "'m" := "am"
  ]

  /**
   * What iterations i, i+1, ... of the loop append, when `skip` is the value
   * of `skip_next` on entry to iteration i. The look-behind rule adds a token
   * only where the previous position was skipped, so the output never
   * outgrows the positions left to visit (plus one, when the look-behind
   * rule is about to fire).
   */
  function MergeFrom(table: map<string, string>, tokens: seq<string>, i: nat, skip: bool): (r: seq<string>)
    requires i <= |tokens|
    ensures |r| <= |tokens| - i + (if !skip && 0 < i < |tokens| && tokens[i] in table then 1 else 0)
    decreases |tokens| - i
  {
    if i == |tokens| then []
    else if skip then MergeFrom(table, tokens, i + 1, false)
    else
      var t := tokens[i];
      var behind := if t in table && i > 0 then [tokens[i - 1] + table[t]] else [];
      if i + 1 < |tokens| && tokens[i + 1] in table then
        behind + [t + table[tokens[i + 1]]] + MergeFrom(table, tokens, i + 1, true)
      else
        behind + [t] + MergeFrom(table, tokens, i + 1, false)
  }

  /** The result of `merge_contractions(tokens)` with the given table. */
  function Merged(table: map<string, string>, tokens: seq<string>): (r: seq<string>)
    ensures |r| <= |tokens|
  {
    MergeFrom(table, tokens, 0, false)
  }

  /** Moving the tokens appended in one iteration from the pending part to the merged part. */
  lemma AppendIteration(done: seq<string>, behind: seq<string>, x: string, rest: seq<string>)
    ensures done + behind + [x] + rest == done + (behind + [x] + rest)
  {
  }

  /** The loop of `merge_contractions`, with its `skip_next` flag. */
  method MergeContractions(table: map<string, string>, tokens: seq<string>) returns (merged: seq<string>)
    ensures merged == Merged(table, tokens)
    ensures |merged| <= |tokens|
  {
    merged := [];
    var skipNext := false;
    for i := 0 to |tokens|
      invariant merged + MergeFrom(table, tokens, i, skipNext) == Merged(table, tokens)
    {
      if skipNext {
        skipNext := false;
        continue;
      }
      var t := tokens[i];
      ghost var done := merged;
      ghost var behind: seq<string> := [];
      if t in table && i > 0 {
        merged := merged + [tokens[i - 1] + table[t]];
        behind := [tokens[i - 1] + table[t]];
      }
      assert merged == done + behind;
      if i + 1 < |tokens| && tokens[i + 1] in table {
        merged := merged + [tokens[i] + table[tokens[i + 1]]];
        skipNext := true;
        AppendIteration(done, behind, t + table[tokens[i + 1]], MergeFrom(table, tokens, i + 1, true));
      } else {
        merged := merged + [t];
        AppendIteration(done, behind, t, MergeFrom(table, tokens, i + 1, false));
      }
    }
  }

  // ---------------------------------------------------------------------
  // Properties of the merge.

  /** Without a clitic, every position is emitted as it is. */
  lemma {:induction false} MergeFromWithoutClitics(table: map<string, string>, tokens: seq<string>, i: nat)
    requires i <= |tokens|
    requires forall j :: 0 <= j < |tokens| ==> tokens[j] !in table
    ensures MergeFrom(table, tokens, i, false) == tokens[i..]
    decreases |tokens| - i
  {
    if i < |tokens| {
      MergeFromWithoutClitics(table, tokens, i + 1);
      assert tokens[i..] == [tokens[i]] + tokens[i + 1..];
    }
  }

  /** When no token is a clitic the merge returns its input unchanged. */
  lemma MergedWithoutClitics(table: map<string, string>, tokens: seq<string>)
    requires forall j :: 0 <= j < |tokens| ==> tokens[j] !in table
    ensures Merged(table, tokens) == tokens
  {
    MergeFromWithoutClitics(table, tokens, 0);
  }

  /** The first position is exempt from look-behind: it is emitted as it is unless a clitic follows. */
  lemma MergedKeepsFirstToken(table: map<string, string>, tokens: seq<string>)
    requires |tokens| > 0 && !(|tokens| > 1 && tokens[1] in table)
    ensures |Merged(table, tokens)| > 0 && Merged(table, tokens)[0] == tokens[0]
  {
  }

  /**
   * The reading the merge is meant to have: every clitic that follows a
   * token is glued onto it, and nothing else changes.
   */
  function Glued(table: map<string, string>, tokens: seq<string>): (r: seq<string>)
    decreases |tokens|
  {
    if |tokens| == 0 then []
    else if |tokens| >= 2 && tokens[1] in table then [tokens[0] + table[tokens[1]]] + Glued(table, tokens[2..])
    else [tokens[0]] + Glued(table, tokens[1..])
  }

  /** No two neighbouring tokens are both clitics. */
  predicate NoAdjacentClitics(table: map<string, string>, tokens: seq<string>) {
    forall j :: 0 < j < |tokens| ==> !(tokens[j - 1] in table && tokens[j] in table)
  }

  lemma {:induction false} MergeFromMatchesGlued(table: map<string, string>, tokens: seq<string>, i: nat)
    requires i <= |tokens|
    requires NoAdjacentClitics(table, tokens)
    requires i == 0 || i == |tokens| || tokens[i] !in table
    ensures MergeFrom(table, tokens, i, false) == Glued(table, tokens[i..])
    decreases |tokens| - i
  {
    if i < |tokens| {
      var rest := tokens[i..];
      if i + 1 < |tokens| && tokens[i + 1] in table {
        assert rest[2..] == tokens[i + 2..];
        MergeFromMatchesGlued(table, tokens, i + 2);
      } else {
        assert rest[1..] == tokens[i + 1..];
        MergeFromMatchesGlued(table, tokens, i + 1);
      }
    }
  }

  /** As long as no two clitics are adjacent, the merge glues each clitic once onto its host. */
  lemma MergedMatchesGlued(table: map<string, string>, tokens: seq<string>)
    requires NoAdjacentClitics(table, tokens)
    ensures Merged(table, tokens) == Glued(table, tokens)
  {
    MergeFromMatchesGlued(table, tokens, 0);
    assert tokens[0..] == tokens;
  }

  /** Every clitic of the table contains an apostrophe. */
  lemma ApostropheInEveryClitic()
    ensures forall k :: k in CONTRACTIONS ==> '\'' in k
  {
  }

  /** Tokens without an apostrophe are never clitics, so the merge leaves them alone. */
  lemma MergedWithoutApostrophes(tokens: seq<string>)
    requires forall j :: 0 <= j < |tokens| ==> '\'' !in tokens[j]
    ensures Merged(CONTRACTIONS, tokens) == tokens
  {
    ApostropheInEveryClitic();
    MergedWithoutClitics(CONTRACTIONS, tokens);
  }

  /** `["i", "'m", "happy"]` merges to `["iam", "happy"]`. */
  lemma MergedExampleContraction()
    ensures Merged(CONTRACTIONS, ["i", "'m", "happy"]) == ["iam", "happy"]
  {
    var tokens := ["i", "'m", "happy"];
    assert "i" !in CONTRACTIONS && "happy" !in CONTRACTIONS;
    assert tokens[1] in CONTRACTIONS && CONTRACTIONS[tokens[1]] == "am";
    assert tokens[0] + "am" == "iam";
    assert MergeFrom(CONTRACTIONS, tokens, 2, false) == ["happy"];
    assert MergeFrom(CONTRACTIONS, tokens, 0, false) == ["iam"] + MergeFrom(CONTRACTIONS, tokens, 1, true);
  }

  /** A leading clitic is emitted unmerged: `["'s", "tired"]` is unchanged. */
  lemma MergedExampleLeadingClitic()
    ensures Merged(CONTRACTIONS, ["'s", "tired"]) == ["'s", "tired"]
  {
  }

  /** Two clitics in a row: the second is glued to the first and also emitted alone. */
  lemma MergedExampleConsecutiveClitics()
    ensures Merged(CONTRACTIONS, ["a", "'s", "'m"]) == ["ais", "'sam", "'m"]
  {
    var tokens := ["a", "'s", "'m"];
    assert "a" !in CONTRACTIONS;
    assert tokens[1] in CONTRACTIONS && CONTRACTIONS[tokens[1]] == "is";
    assert tokens[2] in CONTRACTIONS && CONTRACTIONS[tokens[2]] == "am";
    assert tokens[0] + "is" == "ais" && tokens[1] + "am" == "'sam";
    assert MergeFrom(CONTRACTIONS, tokens, 2, false) == ["'sam", "'m"];
    assert MergeFrom(CONTRACTIONS, tokens, 0, false) == ["ais"] + MergeFrom(CONTRACTIONS, tokens, 1, true);
  }
}
