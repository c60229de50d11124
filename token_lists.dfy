/** Operations on token lists shared by both preprocessors, and the record built per line. */
module TokenLists {

  /** One processed line: the dictionary appended to `processed_rows`. */
  datatype Record = Record(original: string, cleaned: string, tokens: seq<string>, lemmas: seq<string>)

  /** `[token for token in tokens if token not in stopwords]`. */
  function WithoutStopwords(stopwords: set<string>, tokens: seq<string>): (r: seq<string>)
    ensures |r| <= |tokens|
  {
    if tokens == [] then []
    else if tokens[0] in stopwords then WithoutStopwords(stopwords, tokens[1..])
    else [tokens[0]] + WithoutStopwords(stopwords, tokens[1..])
  }

  /**
   * The filter keeps every occurrence of every non-stopword and no
   * occurrence of a stopword.
   */
  lemma {:induction false} WithoutStopwordsCounts(stopwords: set<string>, tokens: seq<string>)
    ensures forall w :: w !in stopwords ==> multiset(WithoutStopwords(stopwords, tokens))[w] == multiset(tokens)[w]
    ensures forall w :: w in stopwords ==> multiset(WithoutStopwords(stopwords, tokens))[w] == 0
    decreases |tokens|
  {
    if tokens != [] {
      WithoutStopwordsCounts(stopwords, tokens[1..]);
      assert tokens == [tokens[0]] + tokens[1..];
    }
  }

  /** The filter's output holds no stopword and only tokens of its input. */
  lemma WithoutStopwordsMembers(stopwords: set<string>, tokens: seq<string>)
    ensures forall j :: 0 <= j < |WithoutStopwords(stopwords, tokens)| ==>
              WithoutStopwords(stopwords, tokens)[j] !in stopwords && WithoutStopwords(stopwords, tokens)[j] in tokens
  {
    var r := WithoutStopwords(stopwords, tokens);
    WithoutStopwordsCounts(stopwords, tokens);
    forall j | 0 <= j < |r| ensures r[j] !in stopwords && r[j] in tokens {
      assert r[j] in multiset(r);
    }
  }

  /** The filter keeps order: filtering a concatenation concatenates the filtered parts. */
  lemma {:induction false} WithoutStopwordsDistributes(stopwords: set<string>, a: seq<string>, b: seq<string>)
    ensures WithoutStopwords(stopwords, a + b) == WithoutStopwords(stopwords, a) + WithoutStopwords(stopwords, b)
    decreases |a|
  {
    if a == [] {
      assert a + b == b;
    } else {
      var ab := a + b;
      assert ab[0] == a[0] && ab[1..] == a[1..] + b;
      WithoutStopwordsDistributes(stopwords, a[1..], b);
      var head := if a[0] in stopwords then [] else [a[0]];
      assert WithoutStopwords(stopwords, ab) == head + WithoutStopwords(stopwords, a[1..] + b);
      assert WithoutStopwords(stopwords, a) == head + WithoutStopwords(stopwords, a[1..]);
    }
  }

  /** A list without stopwords passes the filter unchanged. */
  lemma {:induction false} WithoutStopwordsKeepsClean(stopwords: set<string>, tokens: seq<string>)
    ensures (forall j :: 0 <= j < |tokens| ==> tokens[j] !in stopwords) ==> WithoutStopwords(stopwords, tokens) == tokens
    decreases |tokens|
  {
    if tokens != [] {
      WithoutStopwordsKeepsClean(stopwords, tokens[1..]);
      if forall j :: 0 <= j < |tokens| ==> tokens[j] !in stopwords {
        assert forall j :: 0 <= j < |tokens[1..]| ==> tokens[1..][j] == tokens[j + 1];
        assert tokens == [tokens[0]] + tokens[1..];
      }
    }
  }

  /** On one token the filter drops it exactly when it is a stopword. */
  lemma WithoutStopwordsSingle(stopwords: set<string>, t: string)
    ensures WithoutStopwords(stopwords, [t]) == if t in stopwords then [] else [t]
  {
  }

  /** `[f(token) for token in tokens]`. */
  function MapTokens(f: string -> string, tokens: seq<string>): (r: seq<string>)
    ensures |r| == |tokens|
    ensures forall j :: 0 <= j < |tokens| ==> r[j] == f(tokens[j])
  {
    seq(|tokens|, j requires 0 <= j < |tokens| => f(tokens[j]))
  }

  /**
   * The loop of `process_file`: one row per input line, in order, each
   * computed by `process` from its line alone.
   */
  method ProcessLines<R>(process: string -> R, lines: seq<string>) returns (rows: seq<R>)
    ensures |rows| == |lines|
    ensures forall i :: 0 <= i < |lines| ==> rows[i] == process(lines[i])
  {
    rows := [];
    for i := 0 to |lines|
      invariant |rows| == i
      invariant forall k :: 0 <= k < i ==> rows[k] == process(lines[k])
    {
      rows := rows + [process(lines[i])];
    }
  }

  /** `sep.join(tokens)`. */
  function Join(tokens: seq<string>, sep: string): (r: string)
    ensures tokens == [] ==> r == []
    ensures |tokens| == 1 ==> r == tokens[0]
    decreases |tokens|
  {
    if tokens == [] then []
    else if |tokens| == 1 then tokens[0]
    else tokens[0] + sep + Join(tokens[1..], sep)
  }

  /**
   * Joining a list split in two non-empty parts is joining each part with
   * one separator between them; with `Join`'s 0- and 1-token cases this
   * fixes `sep.join` on every list.
   */
  lemma {:induction false} JoinAppend(a: seq<string>, b: seq<string>, sep: string)
    requires a != [] && b != []
    ensures Join(a + b, sep) == Join(a, sep) + sep + Join(b, sep)
    decreases |a|
  {
    assert (a + b)[0] == a[0] && (a + b)[1..] == a[1..] + b;
    if |a| > 1 {
      JoinAppend(a[1..], b, sep);
    }
  }
}
