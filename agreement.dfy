/**
 * The two preprocessors side by side: a `MultilingualPreprocessor` built
 * for English and the English-only module, given the same backends.
 */
module Agreement {
  import opened Contractions
  import opened TokenLists
  import Multilingual
  import English

  /** The same Unicode steps, spaCy model and NLTK on both sides. */
  ghost predicate SameBackends(p: Multilingual.MultilingualPreprocessor, env: English.Env) {
    p.ops == env.ops && p.nlp == env.nlp && p.nltk == env.nltk
  }

  /** Both cleaners are the same function for English. */
  lemma CleanersAgree(p: Multilingual.MultilingualPreprocessor, env: English.Env, text: string)
    requires p.language == Multilingual.English && SameBackends(p, env)
    ensures p.CleanText(text) == English.CleanText(env, text)
  {
  }

  /**
   * The only step that differs is the contraction merge in the multilingual
   * `remove_stopwords`, and it has nothing to do on tokens made of the
   * cleaned text's characters: the two preprocessors then build the same
   * record for every line.
   */
  lemma EnglishPipelinesAgree(p: Multilingual.MultilingualPreprocessor, env: English.Env, line: string)
    requires p.Valid() && p.language == Multilingual.English && SameBackends(p, env)
    requires forall j, c :: 0 <= j < |p.TokenizeText(p.CleanText(line))| && c in p.TokenizeText(p.CleanText(line))[j]
               ==> c in p.CleanText(line)
    ensures p.ProcessLine(line) == English.ProcessLine(env, line)
  {
    Multilingual.EnglishMergeIsIdentity(p, line);
    var tokens := p.RemoveStopwords(p.TokenizeText(p.CleanText(line)));
    assert tokens == English.RemoveStopwords(env, English.TokenizeText(env, English.CleanText(env, line)));
    assert p.LemmatizeTokens(tokens) == English.LemmatizeTokens(env, tokens);
  }

  /**
   * Without that condition the two differ: a clitic token reaching the
   * multilingual English filter is glued to its host first.
   */
  lemma RemoveStopwordsDiffer(p: Multilingual.MultilingualPreprocessor, env: English.Env)
    requires p.Valid() && p.language == Multilingual.English && SameBackends(p, env)
    requires "bob" !in p.stopwords && "'s" !in p.stopwords && "bobis" !in p.stopwords
    ensures p.RemoveStopwords(["bob", "'s"]) == ["bobis"]
    ensures English.RemoveStopwords(env, ["bob", "'s"]) == ["bob", "'s"]
  {
    var tokens := ["bob", "'s"];
    assert "bob" !in CONTRACTIONS;
    assert tokens[1] in CONTRACTIONS && CONTRACTIONS[tokens[1]] == "is";
    assert tokens[0] + "is" == "bobis";
    assert MergeFrom(CONTRACTIONS, tokens, 0, false) == ["bobis"] + MergeFrom(CONTRACTIONS, tokens, 1, true);
    assert Merged(CONTRACTIONS, tokens) == ["bobis"];
    WithoutStopwordsSingle(p.stopwords, "bobis");
    assert English.Stopwords(env) == p.stopwords;
    assert WithoutStopwords(p.stopwords, tokens) == tokens by {
      assert tokens == [tokens[0]] + [tokens[1]];
      WithoutStopwordsDistributes(p.stopwords, [tokens[0]], [tokens[1]]);
      WithoutStopwordsSingle(p.stopwords, tokens[0]);
      WithoutStopwordsSingle(p.stopwords, tokens[1]);
    }
  }
}
