/**
 * `MultilingualPreprocessor` (preprocess_ml.py): the language tag and the
 * linguistic backends are fixed in `__init__`; every other operation reads
 * them and returns a new value.
 */
module Multilingual {
  import opened Wrappers
  import opened CharClasses
  import opened Cleaning
  import opened Contractions
  import opened TokenLists
  import opened Backends
  import opened CleaningExamples

  /** The value of `self.language`: one of the three supported tags, or the user's own name. */
  datatype Language = English | German | Russian | Other(name: string)

  /** The string stored in `self.language`. */
  function Name(lang: Language): string {
    match lang
    case English => "english"
    case German => "german"
    case Russian => "russian"
    case Other(n) => n
  }

  /** The lower-cased language names `__init__` recognises. */
  const KnownNames: set<string> := {"english", "german", "russian", "deutsch", "русский"}

  /**
   * `__init__` turns the lower-cased name into `self.language`: the two
   * native spellings are translated, every other name is kept as it is.
   */
  function ResolveLanguage(lowered: string): (lang: Language)
    ensures Name(lang) == if lowered == "deutsch" then "german"
                          else if lowered == "русский" then "russian"
                          else lowered
    ensures lang.Other? <==> lowered !in KnownNames
  {
    if lowered == "deutsch" then German
    else if lowered == "русский" then Russian
    else if lowered == "english" then English
    else if lowered == "german" then German
    else if lowered == "russian" then Russian
    else Other(lowered)
  }

  /** An unrecognised name is kept, never replaced by English. */
  lemma UnknownLanguageIsKept(lowered: string)
    requires lowered !in KnownNames
    ensures ResolveLanguage(lowered) == Other(lowered)
    ensures ResolveLanguage(lowered) != English
  {
  }

  /** The native spellings resolve to the supported tags, which resolve to themselves. */
  lemma ResolveLanguageExamples()
    ensures ResolveLanguage("deutsch") == German
    ensures ResolveLanguage("русский") == Russian
    ensures ResolveLanguage("english") == English
    ensures ResolveLanguage("german") == German
    ensures ResolveLanguage("russian") == Russian
  {
  }

  /** The spaCy model `__init__` tries to load. */
  function SpacyModelName(lang: Language, countryCode: string): string {
    if lang == English then "en_core_web_sm" else countryCode + "_core_news_sm"
  }

  /** German and Russian get their Snowball stemmer, every other language Porter's. */
  function StemmerFor(lang: Language): Stemmer {
    match lang
    case German => GermanSnowball
    case Russian => RussianSnowball
    case _ => Porter
  }

  /** The contraction table exists only in the final `else` branch of `__init__`. */
  function ContractionsFor(lang: Language): (table: Option<map<string, string>>)
    ensures table.None? <==> lang == German || lang == Russian
    ensures table.Some? ==> table.value == CONTRACTIONS
  {
    if lang == German || lang == Russian then None else Some(CONTRACTIONS)
  }

  /** The allow-list `clean_text` filters with; no filter at all for an unrecognised language. */
  function AlphabetFor(lang: Language): (a: Option<Alphabet>)
    ensures a.None? <==> lang.Other?
  {
    match lang
    case English => Some(Latin)
    case German => Some(LatinGerman)
    case Russian => Some(Cyrillic)
    case Other(_) => None
  }

  class MultilingualPreprocessor {
    const language: Language
    const countryCode: string
    const nlp: Option<SpacyModel>
    const stopwords: set<string>
    const stemmer: Stemmer
    const contractions: Option<map<string, string>>
    const ops: UnicodeOps
    const nltk: Nltk

    /**
     * The fields are those `__init__` derives from the language tag, and the
     * tag is canonical: a recognised name is never kept as `Other`.
     */
    ghost predicate Valid() {
      && stopwords == nltk.stopwords(Name(language))
      && stemmer == StemmerFor(language)
      && contractions == ContractionsFor(language)
      && (language.Other? ==> language.name !in KnownNames)
    }

    /**
     * `__init__`. `spacyLoad` answers `None` where `import spacy` or
     * `spacy.load` raises.
     */
    constructor (language: string, countryCode: string, ops: UnicodeOps,
                 spacyLoad: string -> Option<SpacyModel>, nltk: Nltk)
      ensures Valid()
      ensures this.language == ResolveLanguage(ops.lower(language))
      ensures this.countryCode == ops.lower(countryCode)
      ensures this.nlp == spacyLoad(SpacyModelName(this.language, this.countryCode))
      ensures this.ops == ops && this.nltk == nltk
    {
      var lang := ResolveLanguage(ops.lower(language));
      var code := ops.lower(countryCode);
      this.language := lang;
      this.countryCode := code;
      this.nlp := spacyLoad(SpacyModelName(lang, code));
      this.stopwords := nltk.stopwords(Name(lang));
      this.stemmer := StemmerFor(lang);
      this.contractions := ContractionsFor(lang);
      this.ops := ops;
      this.nltk := nltk;
    }

    /** `clean_text`: well spaced, and inside the language's allow-list when it has one. */
    function CleanText(text: string): (r: string)
      ensures WellSpaced(r)
      ensures AlphabetFor(language).Some? ==> InAlphabet(AlphabetFor(language).value, r)
    {
      Clean(ops, AlphabetFor(language), text)
    }

    /** `tokenize_text`: spaCy's tokens when a model loaded, NLTK's `word_tokenize` otherwise. */
    function TokenizeText(text: string): (r: seq<string>)
      ensures nlp.Some? ==> r == nlp.value.tokens(text)
      ensures nlp.None? ==> r == nltk.wordTokenize(text, Name(language))
    {
      if nlp.Some? then nlp.value.tokens(text) else nltk.wordTokenize(text, Name(language))
    }

    /**
     * `merge_contractions`. German and Russian instances have no table, so
     * the first token raises `AttributeError` (`None` here).
     */
    method MergeContractions(tokens: seq<string>) returns (r: Option<seq<string>>)
      ensures r.None? <==> contractions.None? && tokens != []
      ensures r.Some? && contractions.Some? ==> r.value == Merged(contractions.value, tokens)
      ensures r.Some? ==> |r.value| <= |tokens|
    {
      if tokens == [] {
        r := Some([]);
      } else if contractions.None? {
        r := None;
      } else {
        var merged := Contractions.MergeContractions(contractions.value, tokens);
        r := Some(merged);
      }
    }

    /**
     * `remove_stopwords`: merges contractions for English only, then keeps
     * the tokens that are not stopwords.
     */
    function RemoveStopwords(tokens: seq<string>): (r: seq<string>)
      requires Valid()
      ensures |r| <= |tokens|
      ensures language == English ==> r == WithoutStopwords(stopwords, Merged(CONTRACTIONS, tokens))
      ensures language != English ==> r == WithoutStopwords(stopwords, tokens)
    {
      if language == English then WithoutStopwords(stopwords, Merged(contractions.value, tokens))
      else WithoutStopwords(stopwords, tokens)
    }

    /** `stem_tokens`: the stemmer chosen at construction, token by token. */
    function StemTokens(tokens: seq<string>): (r: seq<string>)
      ensures |r| == |tokens|
      ensures forall j :: 0 <= j < |tokens| ==> r[j] == nltk.stem(stemmer, tokens[j])
    {
      MapTokens(t => nltk.stem(stemmer, t), tokens)
    }

    /**
     * `lemmatize_tokens`: spaCy re-parses the joined tokens when a model
     * loaded; otherwise English lemmatises token by token and every other
     * language returns its input.
     */
    function LemmatizeTokens(tokens: seq<string>): (r: seq<string>)
      ensures nlp.Some? ==> r == nlp.value.lemmas(Join(tokens, " "))
      ensures nlp.None? && language == English ==>
                |r| == |tokens| && forall j :: 0 <= j < |tokens| ==> r[j] == nltk.lemmatize(tokens[j])
      ensures nlp.None? && language != English ==> r == tokens
    {
      if nlp.Some? then nlp.value.lemmas(Join(tokens, " "))
      else if language == English then MapTokens(nltk.lemmatize, tokens)
      else tokens
    }

    /**
     * The record `process_file` builds for one line: it keeps its line, its
     * cleaned text is `clean_text` of the line and well spaced, its tokens are no more than the tokenizer
     * produced and hold no stopword, and without spaCy an English record has
     * one lemma per token while any other language's lemmas are its tokens.
     */
    function ProcessLine(line: string): (row: Record)
      requires Valid()
      ensures row.original == line
      ensures row.cleaned == CleanText(line) && WellSpaced(row.cleaned)
      ensures row.tokens == RemoveStopwords(TokenizeText(row.cleaned))
      ensures row.lemmas == LemmatizeTokens(row.tokens)
      ensures |row.tokens| <= |TokenizeText(row.cleaned)|
      ensures forall j :: 0 <= j < |row.tokens| ==> row.tokens[j] !in stopwords
      ensures nlp.None? && language == English ==> |row.lemmas| == |row.tokens|
      ensures nlp.None? && language != English ==> row.lemmas == row.tokens
    {
      var cleaned := CleanText(line);
      var tokenized := TokenizeText(cleaned);
      WithoutStopwordsMembers(stopwords, Merged(CONTRACTIONS, tokenized));
      WithoutStopwordsMembers(stopwords, tokenized);
      var tokens := RemoveStopwords(tokenized);
      Record(line, cleaned, tokens, LemmatizeTokens(tokens))
    }

    /** `process_file` without reading the file and writing the database. */
    method ProcessFile(lines: seq<string>) returns (rows: seq<Record>)
      requires Valid()
      ensures |rows| == |lines|
      ensures forall i :: 0 <= i < |lines| ==> rows[i] == ProcessLine(lines[i])
    {
      rows := ProcessLines(line => ProcessLine(line), lines);
    }
  }

  // -----------------------------------------------------------------------
  // Properties of the multilingual cleaner, language by language.

  /** English output holds only a-z, 0-9 and single interior spaces. */
  lemma CleanEnglishAlphabet(ops: UnicodeOps, text: string)
    ensures var r := Clean(ops, AlphabetFor(English), text);
            forall i :: 0 <= i < |r| ==> IsAsciiLower(r[i]) || IsDigit(r[i]) || r[i] == ' '
  {
    var r := Clean(ops, Some(Latin), text);
    forall i | 0 <= i < |r| ensures IsAsciiLower(r[i]) || IsDigit(r[i]) || r[i] == ' ' {
      assert r[i] == ' ' || Allowed(Latin, r[i]);
    }
  }

  /** German output adds ä, ö, ü and ß to the English alphabet. */
  lemma CleanGermanAlphabet(ops: UnicodeOps, text: string)
    ensures var r := Clean(ops, AlphabetFor(German), text);
            forall i :: 0 <= i < |r| ==> IsAsciiLower(r[i]) || IsDigit(r[i]) || IsGermanLetter(r[i]) || r[i] == ' '
  {
    var r := Clean(ops, Some(LatinGerman), text);
    forall i | 0 <= i < |r| ensures IsAsciiLower(r[i]) || IsDigit(r[i]) || IsGermanLetter(r[i]) || r[i] == ' ' {
      assert r[i] == ' ' || Allowed(LatinGerman, r[i]);
    }
  }

  /** German cleaning keeps the umlaut and the sharp s: "süß" is already clean. */
  lemma CleanGermanKeepsUmlauts(ops: UnicodeOps)
    requires FixesText(ops, LatinGerman)
    ensures Clean(ops, AlphabetFor(German), "süß") == "süß"
  {
    var s := "süß";
    assert IsGermanLetter(s[1]) && IsGermanLetter(s[2]) && IsAsciiLower(s[0]);
    assert InAlphabet(LatinGerman, s);
    assert !IsSpace(s[0]) && !IsSpace(s[1]) && !IsSpace(s[2]);
    assert forall i :: 0 <= i < |s| ==> s[i] != 'h' && s[i] != 'w';
    CleanFixes(ops, LatinGerman, s);
  }

  /** Text over the Russian allow-list holds no Latin letter. */
  lemma CyrillicTextHasNoLatin(r: string)
    requires InAlphabet(Cyrillic, r)
    ensures forall i :: 0 <= i < |r| ==> (IsCyrillicLower(r[i]) || IsDigit(r[i]) || r[i] == ' ') && !IsAsciiLower(r[i])
  {
    forall i | 0 <= i < |r| ensures (IsCyrillicLower(r[i]) || IsDigit(r[i]) || r[i] == ' ') && !IsAsciiLower(r[i]) {
      assert r[i] == ' ' || Allowed(Cyrillic, r[i]);
    }
  }

  /** Russian output holds Cyrillic letters, digits and spaces, and no Latin letter. */
  lemma CleanRussianAlphabet(ops: UnicodeOps, text: string)
    ensures var r := Clean(ops, AlphabetFor(Russian), text);
            forall i :: 0 <= i < |r| ==> (IsCyrillicLower(r[i]) || IsDigit(r[i]) || r[i] == ' ') && !IsAsciiLower(r[i])
  {
    CyrillicTextHasNoLatin(Clean(ops, Some(Cyrillic), text));
  }

  /**
   * An unrecognised language gets no character filter: a text that holds no
   * URL, no mention and no stray whitespace comes out as it went in,
   * punctuation included.
   */
  lemma CleanOtherKeepsPlainText(ops: UnicodeOps, name: string, text: string)
    requires ops.nfkc(text) == text && ops.lower(text) == text
    requires NoUrl(text) && NoMention(ops.isWord, text) && WellSpaced(text)
    ensures Clean(ops, AlphabetFor(Other(name)), text) == text
  {
    StripUrlsFixesUrlFree(text);
    StripMentionsFixesMentionFree(ops.isWord, text);
    CollapseSpacesFixesSingleSpaced(text);
    StripFixesTrimmed(text);
  }

  /** "bonjour!" keeps its "!" under an unrecognised language. */
  lemma CleanOtherExample(ops: UnicodeOps, name: string)
    requires ops.nfkc("bonjour!") == "bonjour!" && ops.lower("bonjour!") == "bonjour!"
    ensures Clean(ops, AlphabetFor(Other(name)), "bonjour!") == "bonjour!"
  {
    var s := "bonjour!";
    assert forall i :: 0 <= i < |s| ==> s[i] != 'h' && s[i] != 'w' && s[i] != '@' && !IsSpace(s[i]);
    CleanOtherKeepsPlainText(ops, name, s);
  }

  /** With an allow-list (English, German, Russian) cleaning a cleaned text changes nothing. */
  lemma CleanTextIdempotent(p: MultilingualPreprocessor, text: string)
    requires !p.language.Other? && FixesText(p.ops, AlphabetFor(p.language).value)
    ensures p.CleanText(p.CleanText(text)) == p.CleanText(text)
  {
    CleanIdempotent(p.ops, AlphabetFor(p.language).value, text);
  }

  /**
   * For English and German, URLs and mentions are deleted after
   * lower-casing and punctuation becomes spaces.
   */
  lemma CleanTextExamples(p: MultilingualPreprocessor)
    requires p.language == English || p.language == German
    requires p.ops.lower(p.ops.nfkc("HTTP://X.COM now")) == "http://x.com now"
    requires p.ops.lower(p.ops.nfkc("Don't @Bob!")) == "don't @bob!"
    requires p.ops.lower(p.ops.nfkc("I'm not going to http://x.com, @bob!")) == "i'm not going to http://x.com, @bob!"
    requires p.ops.isWord('b') && p.ops.isWord('o') && !p.ops.isWord('!')
    ensures p.CleanText("HTTP://X.COM now") == "now"
    ensures p.CleanText("Don't @Bob!") == "don t"
    ensures p.CleanText("I'm not going to http://x.com, @bob!") == "i m not going to"
  {
    var a := AlphabetFor(p.language).value;
    CleanDropsUpperCaseUrl(p.ops, a);
    CleanDropsMention(p.ops, a);
    CleanSampleSentence(p.ops, a);
  }

  /** Pass 2 on "www@a.x": deleting the mention joins "www" to ".x". */
  lemma StripMentionsJoinsExample(isWord: char -> bool)
    requires isWord('a') && !isWord('.')
    ensures StripMentions(isWord, "www@a.x") == "www.x"
  {
    var s := "www@a.x";
    var rest := ".x";
    assert StripMentions(isWord, rest[1..]) == rest[1..];
    assert StripMentions(isWord, rest) == rest;
    assert s[4..] == "a.x";
    assert SkipWord(isWord, s[4..][1..]) == rest;
    assert SkipWord(isWord, s[4..]) == rest;
    assert MentionAt(isWord, s[3..], 0) && s[3..][2..] == s[4..][1..];
    assert StripMentions(isWord, s[3..]) == rest;
    assert s[2..][1..] == s[3..] && s[1..][1..] == s[2..] && s[1..][0] == 'w' && s[2..][0] == 'w';
    assert StripMentions(isWord, s[2..]) == "w" + rest;
    assert StripMentions(isWord, s[1..]) == "ww" + rest;
  }

  /** "www@a.x" holds no URL, and "www.x" is one that runs to the end. */
  lemma UrlsOfJoinExample()
    ensures StripUrls("www@a.x") == "www@a.x"
    ensures StripUrls("www.x") == []
  {
    var s := "www@a.x";
    assert NoUrl(s) by {
      assert s[3] == '@';
    }
    StripUrlsFixesUrlFree(s);
    var u := "www.x";
    assert UrlAt(u, 0) && u[4..] == "x";
    assert SkipNonSpace("x") == [];
  }

  /** Without an allow-list, a text whose passes 1 and 2 give a well-spaced text cleans to that text. */
  lemma CleanOtherAfterMentions(ops: UnicodeOps, name: string, text: string, y: string)
    requires ops.nfkc(text) == text && ops.lower(text) == text
    requires StripMentions(ops.isWord, StripUrls(text)) == y && WellSpaced(y)
    ensures Clean(ops, AlphabetFor(Other(name)), text) == y
  {
    WellSpacedFixesPass4(y);
  }

  /** "www.x" holds no whitespace at all. */
  lemma JoinedUrlIsWellSpaced()
    ensures WellSpaced("www.x")
  {
    var r := "www.x";
    assert forall i :: 0 <= i < |r| ==> !IsSpace(r[i]);
  }

  /**
   * Without an allow-list the cleaner is not idempotent: a mention deleted
   * in pass 2 can join its neighbours into a URL that only a second
   * cleaning removes.
   */
  lemma CleanOtherNotIdempotent(ops: UnicodeOps, name: string)
    requires ops.nfkc("www@a.x") == "www@a.x" && ops.lower("www@a.x") == "www@a.x"
    requires ops.nfkc("www.x") == "www.x" && ops.lower("www.x") == "www.x"
    requires ops.isWord('a') && !ops.isWord('.')
    ensures Clean(ops, AlphabetFor(Other(name)), "www@a.x") == "www.x"
    ensures Clean(ops, AlphabetFor(Other(name)), "www.x") == []
  {
    UrlsOfJoinExample();
    StripMentionsJoinsExample(ops.isWord);
    JoinedUrlIsWellSpaced();
    CleanOtherAfterMentions(ops, name, "www@a.x", "www.x");
    assert StripMentions(ops.isWord, StripUrls("www.x")) == [];
    CleanOtherAfterMentions(ops, name, "www.x", []);
  }

  /** Tokens whose characters all occur in an apostrophe-free Latin text hold no apostrophe. */
  lemma TokensOfLatinText(cleaned: string, tokens: seq<string>)
    requires InAlphabet(Latin, cleaned)
    requires forall j, c :: 0 <= j < |tokens| && c in tokens[j] ==> c in cleaned
    ensures forall j :: 0 <= j < |tokens| ==> '\'' !in tokens[j]
  {
    forall i | 0 <= i < |cleaned| ensures cleaned[i] != '\'' {
      assert cleaned[i] == ' ' || Allowed(Latin, cleaned[i]);
    }
    forall j | 0 <= j < |tokens| ensures '\'' !in tokens[j] {
      assert '\'' in tokens[j] ==> '\'' in cleaned;
    }
  }

  /**
   * In the English pipeline the merge has nothing to do on tokens built
   * from the cleaned text's characters: the cleaner turns every apostrophe
   * into a space, and every clitic holds one.
   */
  lemma EnglishMergeIsIdentity(p: MultilingualPreprocessor, line: string)
    requires p.Valid() && p.language == English
    requires forall j, c :: 0 <= j < |p.TokenizeText(p.CleanText(line))| && c in p.TokenizeText(p.CleanText(line))[j]
               ==> c in p.CleanText(line)
    ensures p.RemoveStopwords(p.TokenizeText(p.CleanText(line)))
         == WithoutStopwords(p.stopwords, p.TokenizeText(p.CleanText(line)))
  {
    var tokens := p.TokenizeText(p.CleanText(line));
    TokensOfLatinText(p.CleanText(line), tokens);
    MergedWithoutApostrophes(tokens);
  }
}
