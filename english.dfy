/**
 * The English-only pipeline (preprocess_en.py): module-level functions over
 * the globals `nlp`, `STOPWORDS`, `stemmer` and `lemmatizer`, which are set
 * once at import time and never reassigned. They are gathered in `Env`.
 */
module English {
  import opened Wrappers
  import opened CharClasses
  import opened Cleaning
  import opened TokenLists
  import opened Backends

  /** The import-time globals: spaCy's model when it loaded, and NLTK. */
  datatype Env = Env(ops: UnicodeOps, nlp: Option<SpacyModel>, nltk: Nltk)

  /** `STOPWORDS`. */
  function Stopwords(env: Env): set<string> {
    env.nltk.stopwords("english")
  }

  /** `clean_text`: well spaced and over a-z, 0-9 and ' '. */
  function CleanText(env: Env, text: string): (r: string)
    ensures WellSpaced(r) && InAlphabet(Latin, r)
    ensures forall i :: 0 <= i < |r| ==> IsAsciiLower(r[i]) || IsDigit(r[i]) || r[i] == ' '
  {
    Clean(env.ops, Some(Latin), text)
  }

  /** `tokenize_text`: spaCy's tokens when the model loaded, `word_tokenize` otherwise. */
  function TokenizeText(env: Env, text: string): (r: seq<string>)
    ensures env.nlp.Some? ==> r == env.nlp.value.tokens(text)
    ensures env.nlp.None? ==> r == env.nltk.wordTokenize(text, "english")
  {
    if env.nlp.Some? then env.nlp.value.tokens(text) else env.nltk.wordTokenize(text, "english")
  }

  /** `remove_stopwords`: no contraction merging here, only the filter. */
  function RemoveStopwords(env: Env, tokens: seq<string>): (r: seq<string>)
    ensures r == WithoutStopwords(Stopwords(env), tokens)
    ensures |r| <= |tokens|
    ensures forall j :: 0 <= j < |r| ==> r[j] !in Stopwords(env) && r[j] in tokens
    ensures (forall j :: 0 <= j < |tokens| ==> tokens[j] !in Stopwords(env)) ==> r == tokens
  {
    WithoutStopwordsMembers(Stopwords(env), tokens);
    WithoutStopwordsKeepsClean(Stopwords(env), tokens);
    WithoutStopwords(Stopwords(env), tokens)
  }

  /** `stem_tokens`: Porter's stemmer, token by token. */
  function StemTokens(env: Env, tokens: seq<string>): (r: seq<string>)
    ensures |r| == |tokens|
    ensures forall j :: 0 <= j < |tokens| ==> r[j] == env.nltk.stem(Porter, tokens[j])
  {
    MapTokens(t => env.nltk.stem(Porter, t), tokens)
  }

  /** `lemmatize_tokens`: spaCy re-parses the joined tokens; WordNet lemmatises one by one otherwise. */
  function LemmatizeTokens(env: Env, tokens: seq<string>): (r: seq<string>)
    ensures env.nlp.Some? ==> r == env.nlp.value.lemmas(Join(tokens, " "))
    ensures env.nlp.None? ==>
              |r| == |tokens| && forall j :: 0 <= j < |tokens| ==> r[j] == env.nltk.lemmatize(tokens[j])
  {
    if env.nlp.Some? then env.nlp.value.lemmas(Join(tokens, " "))
    else MapTokens(env.nltk.lemmatize, tokens)
  }

  /**
   * The record `process_file` builds for one line: it keeps its line, its
   * cleaned text, the stopword-free tokens of that text and their lemmas;
   * its tokens hold no stopword, and without spaCy there is one
   * lemma per token.
   */
  function ProcessLine(env: Env, line: string): (row: Record)
    ensures row.original == line
    ensures row.cleaned == CleanText(env, line)
    ensures row.tokens == RemoveStopwords(env, TokenizeText(env, row.cleaned))
    ensures row.lemmas == LemmatizeTokens(env, row.tokens)
    ensures forall j :: 0 <= j < |row.tokens| ==> row.tokens[j] !in Stopwords(env)
    ensures env.nlp.None? ==> |row.lemmas| == |row.tokens|
  {
    var cleaned := CleanText(env, line);
    var tokens := RemoveStopwords(env, TokenizeText(env, cleaned));
    Record(line, cleaned, tokens, LemmatizeTokens(env, tokens))
  }

  /** `process_file` without reading the file and writing the database. */
  method ProcessFile(env: Env, lines: seq<string>) returns (rows: seq<Record>)
    ensures |rows| == |lines|
    ensures forall i :: 0 <= i < |lines| ==> rows[i] == ProcessLine(env, lines[i])
  {
    rows := ProcessLines(line => ProcessLine(env, line), lines);
  }

  // -----------------------------------------------------------------------
  // Properties.

  /** Cleaning a cleaned line changes nothing. */
  lemma CleanTextIdempotent(env: Env, text: string)
    requires FixesText(env.ops, Latin)
    ensures CleanText(env, CleanText(env, text)) == CleanText(env, text)
  {
    CleanIdempotent(env.ops, Latin, text);
  }

  /** "http now" is well spaced, Latin, and holds no URL. */
  lemma BareHttpIsClean()
    ensures WellSpaced("http now") && InAlphabet(Latin, "http now") && NoUrl("http now")
  {
    var s := "http now";
    assert IsSpace(s[4]) && !IsSpace(s[0]) && !IsSpace(s[7]);
    assert forall i :: 0 < i < |s| ==> (s[i] != 'h' && s[i] != 'w') || i + 4 >= |s|;
  }

  /** "http" with a space after it is not a URL (`\S+` needs a character) and survives. */
  lemma CleanTextKeepsBareHttp(env: Env)
    requires FixesText(env.ops, Latin)
    ensures CleanText(env, "http now") == "http now"
  {
    BareHttpIsClean();
    CleanFixes(env.ops, Latin, "http now");
  }

  /**
   * When the Unicode steps leave a text alone and the URL pass already
   * yields a cleaned text, the later passes change nothing more.
   */
  lemma CleanTextAfterUrls(env: Env, text: string, y: string)
    requires FixesText(env.ops, Latin)
    requires env.ops.nfkc(text) == text && env.ops.lower(text) == text
    requires StripUrls(text) == y && WellSpaced(y) && InAlphabet(Latin, y) && NoUrl(y)
    ensures CleanText(env, text) == y
  {
    CleanFixes(env.ops, Latin, y);
    StripUrlsFixesUrlFree(y);
  }

  /** The greedy `\S+` after "http" stops at the space. */
  lemma SkipNonSpaceExample()
    ensures SkipNonSpace("://x b") == " b"
  {
    var t := "://x b";
    assert !IsSpace(t[0]) && !IsSpace(t[1]) && !IsSpace(t[2]) && !IsSpace(t[3]) && IsSpace(t[4]);
    assert t[1..][1..][1..][1..] == " b";
  }

  /** Pass 1 on "http://x b": the URL runs to the space. */
  lemma StripUrlsUrlExample()
    ensures StripUrls("http://x b") == " b"
  {
    var u := "http://x b";
    var rest := " b";
    SkipNonSpaceExample();
    assert u[4..] == "://x b";
    assert UrlAt(u, 0) by {
      assert !IsSpace(u[4]);
    }
    assert NoUrl(rest) by {
      assert !UrlAt(rest, 0) && !UrlAt(rest, 1);
    }
    StripUrlsFixesUrlFree(rest);
  }

  /** Pass 1 on "ahttp://x b": a URL that starts inside a word is cut out all the same. */
  lemma StripUrlsGluedExample()
    ensures StripUrls("ahttp://x b") == "a b"
  {
    var s := "ahttp://x b";
    StripUrlsUrlExample();
    assert s[1..] == "http://x b";
    assert !UrlAt(s, 0);
  }

  /** "a b" is well spaced, Latin, and holds no URL. */
  lemma ShortTextIsClean()
    ensures WellSpaced("a b") && InAlphabet(Latin, "a b") && NoUrl("a b")
  {
    var r := "a b";
    assert IsSpace(r[1]) && !IsSpace(r[0]) && !IsSpace(r[2]);
  }

  /** A URL glued to a word is cut out with the rest of its run of non-space characters. */
  lemma CleanTextCutsGluedUrl(env: Env)
    requires env.ops.nfkc("ahttp://x b") == "ahttp://x b" && env.ops.lower("ahttp://x b") == "ahttp://x b"
    requires FixesText(env.ops, Latin)
    ensures CleanText(env, "ahttp://x b") == "a b"
  {
    StripUrlsGluedExample();
    ShortTextIsClean();
    CleanTextAfterUrls(env, "ahttp://x b", "a b");
  }

  /** Pass 3 turns the apostrophe of "don't" into a space. */
  lemma FilterCharsContractionExample()
    ensures FilterChars(Latin, "don't") == "don t"
  {
    var s := "don't";
    assert !Allowed(Latin, s[3]) && !IsSpace(s[3]);
    assert Allowed(Latin, s[0]) && Allowed(Latin, s[1]) && Allowed(Latin, s[2]) && Allowed(Latin, s[4]);
  }

  /** "don't" holds no URL and no mention, and "don t" is well spaced. */
  lemma ContractionExampleShapes(isWord: char -> bool)
    ensures NoUrl("don't") && NoMention(isWord, "don't") && WellSpaced("don t")
  {
    var s, r := "don't", "don t";
    assert forall i :: 0 <= i < |s| ==> s[i] != 'h' && s[i] != 'w' && s[i] != '@';
    assert IsSpace(r[3]) && !IsSpace(r[0]) && !IsSpace(r[4]);
    assert forall i :: 0 <= i < |r| ==> r[i] == ' ' || !IsSpace(r[i]);
  }

  /** The apostrophe of a contraction becomes a space: "don't" cleans to "don t". */
  lemma CleanTextSplitsContraction(env: Env)
    requires env.ops.nfkc("don't") == "don't" && env.ops.lower("don't") == "don't"
    ensures CleanText(env, "don't") == "don t"
  {
    var s := "don't";
    ContractionExampleShapes(env.ops.isWord);
    StripUrlsFixesUrlFree(s);
    StripMentionsFixesMentionFree(env.ops.isWord, s);
    FilterCharsContractionExample();
    WellSpacedFixesPass4("don t");
  }
}
