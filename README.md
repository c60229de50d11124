# Sentiment-analysis text preprocessing, modelled in Dafny

This project models the text-normalisation core of two sentiment-analysis
preprocessors:

- `MultilingualPreprocessor` (English, German, Russian, and any other
  language name the user passes);
- the English-only module, a set of functions over import-time globals.

Each line of input goes through the same pipeline:

1. `clean_text`: NFKC normalisation and lower-casing, then four rewrite
   passes. URLs (`http\S+|www\.\S+`) are deleted, mentions (`@\w+`) are
   deleted, characters outside the language's allow-list become spaces, and
   whitespace runs are collapsed and stripped.
2. Tokenisation by spaCy, or by NLTK's `word_tokenize` when spaCy did not
   load.
3. Stopword removal. The multilingual English pipeline first glues clitics
   such as `'m` onto the token before them (`merge_contractions`).
4. Lemmatisation.
5. One record per line: the original line, the cleaned text, the tokens and
   the lemmas.

Modules:

- `CharClasses`: the character classes of the regular expressions. `\s` is
  given exactly, as Python's Unicode whitespace set.
- `Cleaning`: each rewrite pass as its own scanner over `seq<char>`, the
  whole cleaner `Clean`, and its properties. These are the output alphabet,
  the spacing shape, which texts it fixes, and idempotence. The allow-list is
  `Option<Alphabet>`; `None` stands for a language with no filter.
- `CleaningExamples`: sample lines cleaned end to end.
- `Contractions`: `merge_contractions` as a loop with its `skip_next` flag.
  It is proved equal to a recursive definition. That definition agrees with a
  simpler "glue each clitic onto its host" reading whenever no two clitics
  are adjacent. The English module defines the same loop
  (preprocess_en.py lines 70-97), but its pipeline never calls it.
- `TokenLists`: the stopword filter, the per-token map, `" ".join`, and the
  `process_file` loop.
- `Backends`: spaCy and NLTK as opaque values, namely functions for
  tokenising, lemmatising, stemming and stopword lists.
- `Multilingual`: language resolution, and the class with the fields
  `__init__` sets.
- `English`: the English-only module, with its globals gathered in `Env`.
- `Agreement`: how the two preprocessors relate when the language is
  English.

NFKC normalisation, `str.lower` and `\w` are parameters (`UnicodeOps`).
Results that need something from them say so in a `requires`. For example,
idempotence needs the Unicode steps to leave text over the alphabet alone,
and needs `\w` to cover its letters and digits (`FixesText`).

## Behaviour worth knowing

- **Unknown language names.** For a name other than English, German,
  Russian, "deutsch" or "русский", `__init__` prints "Defaulting to
  English." (preprocess_ml.py lines 24-26). It does not do that:
  `self.language` keeps the lower-cased name it was given (line 17), and the
  stopword list is looked up under that name (line 41). Consequences:
  - `clean_text` applies no character filter for that language (lines 72-80).
  - `lemmatize_tokens` takes its non-English branch.
  - Cleaning is then not idempotent. `Multilingual.CleanOtherNotIdempotent`
    shows this: "www@a.x" cleans to "www.x", because deleting the mention
    joins the two halves into a URL, and "www.x" cleans to "".
  - For English, German and Russian, cleaning is idempotent
    (`Cleaning.CleanIdempotent`).
- **A sample line.** `"I'm not going to http://x.com, @bob!"` cleans to
  `"i m not going to"` (`CleaningExamples.CleanSampleSentence`):
  - the URL takes its trailing comma with it, since `\S+` runs to the next
    whitespace;
  - the mention is deleted whole, with nothing left of "bob";
  - the apostrophe of "i'm" becomes a space.

## Model

Paths are relative to the repository root. "ML" rows cite
`projects/sentiment_analysis/multilingual_classifier/code/preprocess_ml.py`
and "EN" rows cite
`projects/sentiment_analysis/english_classifier/code/preprocess_en.py`, as
written out in each row.

| member | source | states |
|---|---|---|
| Cleaning.SkipNonSpace | projects/sentiment_analysis/multilingual_classifier/code/preprocess_ml.py:69 | the greedy `\S+` leaves a suffix of its input that is empty or starts with whitespace, and everything it consumed is non-whitespace |
| Cleaning.SkipNonSpaceTo | projects/sentiment_analysis/multilingual_classifier/code/preprocess_ml.py:69 | `\S+` stops exactly at the first whitespace character |
| Cleaning.SkipNonSpacePast | projects/sentiment_analysis/multilingual_classifier/code/preprocess_ml.py:69 | after a run of non-whitespace, `\S+` resumes at what follows the run |
| Cleaning.StripUrls | projects/sentiment_analysis/multilingual_classifier/code/preprocess_ml.py:69 | the URL pass (also preprocess_en.py line 47) scans left to right and never lengthens its input; its properties are in StripUrlsLeavesNoUrl, StripUrlsFixesUrlFree, StripUrlsDeletesUrl and StripUrlsCopiesPrefix |
| Cleaning.StripUrlsLeavesNoUrl | projects/sentiment_analysis/multilingual_classifier/code/preprocess_ml.py:69 | after the URL pass no match of `http\S+` or `www\.\S+` is left anywhere in the text |
| Cleaning.StripUrlsFixesUrlFree | projects/sentiment_analysis/multilingual_classifier/code/preprocess_ml.py:69 | the URL pass returns a text without a match unchanged |
| Cleaning.StripUrlsWindow | projects/sentiment_analysis/multilingual_classifier/code/preprocess_ml.py:69 | a run of non-whitespace at the front of the URL pass's output was copied from the front of its input |
| Cleaning.StripUrlsHeadUrl | projects/sentiment_analysis/multilingual_classifier/code/preprocess_ml.py:69 | the URL pass never creates a match at the front of its output when there was none at the front of its input |
| Cleaning.StripUrlsCopiesPrefix | projects/sentiment_analysis/multilingual_classifier/code/preprocess_ml.py:69 | text holding no 'h' and no 'w' is copied through the URL pass unchanged, whatever follows it |
| Cleaning.StripUrlsDeletesUrl | projects/sentiment_analysis/multilingual_classifier/code/preprocess_ml.py:69 | a URL is deleted up to the next whitespace and nothing takes its place: the output continues with what followed it |
| Cleaning.StripUrlsAfterUrl | projects/sentiment_analysis/multilingual_classifier/code/preprocess_ml.py:69 | once a match is deleted, the output resumes at whitespace or ends: `\S+` took every non-space character |
| Cleaning.SkipWord | projects/sentiment_analysis/multilingual_classifier/code/preprocess_ml.py:70 | the greedy `\w+` leaves a suffix that is empty or starts with a non-word character, and everything it consumed is a word character |
| Cleaning.SkipWordTo | projects/sentiment_analysis/multilingual_classifier/code/preprocess_ml.py:70 | `\w+` stops exactly at the first non-word character |
| Cleaning.SkipWordPast | projects/sentiment_analysis/multilingual_classifier/code/preprocess_ml.py:70 | after a run of word characters, `\w+` resumes at what follows the run |
| Cleaning.StripMentions | projects/sentiment_analysis/multilingual_classifier/code/preprocess_ml.py:70 | the mention pass (also preprocess_en.py line 48) scans left to right and never lengthens its input; its properties are in StripMentionsLeavesNoMention, StripMentionsFixesMentionFree, StripMentionsDeletesMention and StripMentionsCopiesPrefix |
| Cleaning.StripMentionsLeavesNoMention | projects/sentiment_analysis/multilingual_classifier/code/preprocess_ml.py:70 | after the mention pass no match of `@\w+` is left anywhere in the text |
| Cleaning.StripMentionsFixesMentionFree | projects/sentiment_analysis/multilingual_classifier/code/preprocess_ml.py:70 | the mention pass returns a text without a match unchanged |
| Cleaning.StripMentionsResumesAtNonWord | projects/sentiment_analysis/multilingual_classifier/code/preprocess_ml.py:70 | after a deleted mention the output resumes at a non-word character or ends |
| Cleaning.StripMentionsWindow | projects/sentiment_analysis/multilingual_classifier/code/preprocess_ml.py:70 | a run of word characters at the front of the mention pass's output was copied from the front of its input |
| Cleaning.StripMentionsHeadMention | projects/sentiment_analysis/multilingual_classifier/code/preprocess_ml.py:70 | the mention pass never creates a mention at the front of its output when there was none at the front of its input |
| Cleaning.StripMentionsCopiesPrefix | projects/sentiment_analysis/multilingual_classifier/code/preprocess_ml.py:70 | text holding no '@' is copied through the mention pass unchanged, whatever follows it |
| Cleaning.StripMentionsDeletesMention | projects/sentiment_analysis/multilingual_classifier/code/preprocess_ml.py:70 | "@" and its whole run of word characters are deleted and nothing takes their place |
| Cleaning.FilterChars | projects/sentiment_analysis/multilingual_classifier/code/preprocess_ml.py:72-80 | same length as the input; each character is kept when it is whitespace or on the allow-list, and otherwise replaced by ' ' |
| Cleaning.FilterCharsAppend | projects/sentiment_analysis/multilingual_classifier/code/preprocess_ml.py:72-80 | the filter works character by character: filtering a concatenation concatenates the filtered parts |
| Cleaning.FilterCharsFixesAlphabet | projects/sentiment_analysis/multilingual_classifier/code/preprocess_ml.py:72-80 | the filter changes nothing in text over its allow-list |
| Cleaning.SkipSpaces | projects/sentiment_analysis/multilingual_classifier/code/preprocess_ml.py:83 | the greedy `\s+` leaves a suffix that is empty or starts with non-whitespace, and everything it consumed is whitespace |
| Cleaning.CollapseSpaces | projects/sentiment_analysis/multilingual_classifier/code/preprocess_ml.py:83 | the output is empty exactly when the input is; its only whitespace is ' '; it never has two adjacent ' '; its first character is ' ' or the input's first character |
| Cleaning.TrimStart | projects/sentiment_analysis/multilingual_classifier/code/preprocess_ml.py:83 | a suffix of the input, starting with non-whitespace, and what was dropped is all whitespace |
| Cleaning.TrimEnd | projects/sentiment_analysis/multilingual_classifier/code/preprocess_ml.py:83 | a prefix of the input, ending with non-whitespace, and what was dropped is all whitespace |
| Cleaning.Strip | projects/sentiment_analysis/multilingual_classifier/code/preprocess_ml.py:83 | `strip()` leaves a text that is empty or starts and ends with non-whitespace |
| Cleaning.StripIsSlice | projects/sentiment_analysis/multilingual_classifier/code/preprocess_ml.py:83 | `strip()` returns a contiguous slice of its input |
| Cleaning.StripFixesTrimmed | projects/sentiment_analysis/multilingual_classifier/code/preprocess_ml.py:83 | `strip()` leaves a trimmed text alone |
| Cleaning.StripDropsEnds | projects/sentiment_analysis/multilingual_classifier/code/preprocess_ml.py:83 | `strip()` removes exactly the whitespace runs at both ends |
| Cleaning.CollapseSpacesCopiesWord | projects/sentiment_analysis/multilingual_classifier/code/preprocess_ml.py:83 | a run of non-whitespace is copied through the collapse unchanged |
| Cleaning.CollapseSpacesRun | projects/sentiment_analysis/multilingual_classifier/code/preprocess_ml.py:83 | a whole whitespace run becomes a single ' ' |
| Cleaning.CollapseSpacesTrailingRun | projects/sentiment_analysis/multilingual_classifier/code/preprocess_ml.py:83 | a single-spaced text ending in a word, followed by any whitespace run, collapses to the text plus one ' ' |
| Cleaning.TwoWordsPass4 | projects/sentiment_analysis/multilingual_classifier/code/preprocess_ml.py:83 | two words, a space and a trailing whitespace run become the two words joined by one ' ' |
| Cleaning.CollapseSpacesFixesSingleSpaced | projects/sentiment_analysis/multilingual_classifier/code/preprocess_ml.py:83 | the collapse changes nothing in a text whose whitespace is single ' ' characters |
| Cleaning.WellSpacedFixesPass4 | projects/sentiment_analysis/multilingual_classifier/code/preprocess_ml.py:83 | collapse-then-strip leaves a well-spaced text alone |
| Cleaning.StripCollapsedIsWellSpaced | projects/sentiment_analysis/multilingual_classifier/code/preprocess_ml.py:83 | collapse-then-strip always yields a well-spaced text: only ' ', never doubled, never at either end |
| Cleaning.CollapseSpacesKeepsAlphabet | projects/sentiment_analysis/multilingual_classifier/code/preprocess_ml.py:72-83 | after filtering, the collapse keeps the text inside the allow-list plus ' ' |
| Cleaning.Clean | projects/sentiment_analysis/multilingual_classifier/code/preprocess_ml.py:63-85 | the cleaned text is well spaced, and it lies inside the allow-list plus ' ' whenever the language has one |
| Cleaning.CleanEmpty | projects/sentiment_analysis/multilingual_classifier/code/preprocess_ml.py:63-85 | "" cleans to "" |
| Cleaning.CleanLeavesNoUrlOrMention | projects/sentiment_analysis/multilingual_classifier/code/preprocess_ml.py:69-83 | with an allow-list, no URL and no mention survive cleaning, even ones that the deletions and the filter could have joined together |
| Cleaning.CleanFixes | projects/sentiment_analysis/multilingual_classifier/code/preprocess_ml.py:63-85 | a well-spaced, URL-free text over the allow-list is returned unchanged |
| Cleaning.CleanFixedPoints | projects/sentiment_analysis/multilingual_classifier/code/preprocess_ml.py:63-85 | the fixed points of a filtering cleaner are exactly the well-spaced, URL-free texts over its allow-list (both directions) |
| Cleaning.CleanIdempotent | projects/sentiment_analysis/english_classifier/code/preprocess_en.py:41-56 | with an allow-list, cleaning twice gives the same result as cleaning once |
| Cleaning.CleanDeletesLeadingUrl | projects/sentiment_analysis/multilingual_classifier/code/preprocess_ml.py:65-83 | a URL (after the Unicode steps), a space and a word over the allow-list clean to that word alone |
| CleaningExamples.CleanDropsUpperCaseUrl | projects/sentiment_analysis/multilingual_classifier/code/preprocess_ml.py:65-83 | "HTTP://X.COM now" cleans to "now" with the English or German allow-list: the URL is matched after lower-casing |
| CleaningExamples.CleanDropsMention | projects/sentiment_analysis/multilingual_classifier/code/preprocess_ml.py:65-83 | "Don't @Bob!" cleans to "don t" with the English or German allow-list |
| CleaningExamples.CleanSampleSentence | projects/sentiment_analysis/multilingual_classifier/code/preprocess_ml.py:65-83 | with the English or German allow-list, "I'm not going to http://x.com, @bob!" cleans to "i m not going to": the URL goes with its comma, the mention goes whole, and the apostrophe becomes a space |
| Contractions.MergeFrom | projects/sentiment_analysis/multilingual_classifier/code/preprocess_ml.py:106-123 | what the loop appends from iteration i on, given the `skip_next` flag; at most one token per remaining position, plus one when look-behind is about to fire (the look-behind and look-ahead rules are not exclusive); its other properties are in Merged, MergedMatchesGlued and MergedKeepsFirstToken |
| Contractions.Merged | projects/sentiment_analysis/multilingual_classifier/code/preprocess_ml.py:99-126 | the merged list is never longer than its input |
| Contractions.MergeContractions | projects/sentiment_analysis/multilingual_classifier/code/preprocess_ml.py:99-126 | the `skip_next` loop (the same loop as preprocess_en.py lines 70-97) returns `Merged` of its input, so it is never longer than the input |
| Contractions.MergedWithoutClitics | projects/sentiment_analysis/multilingual_classifier/code/preprocess_ml.py:99-126 | with no clitic among the tokens the merge returns its input unchanged |
| Contractions.MergedKeepsFirstToken | projects/sentiment_analysis/multilingual_classifier/code/preprocess_ml.py:112 | the first token is exempt from look-behind: it is emitted as it is unless a clitic follows it |
| Contractions.MergedMatchesGlued | projects/sentiment_analysis/multilingual_classifier/code/preprocess_ml.py:106-123 | when no two clitics are adjacent, the merge equals gluing each clitic's expansion onto the token before it |
| Contractions.ApostropheInEveryClitic | projects/sentiment_analysis/multilingual_classifier/code/preprocess_ml.py:50-58 | every key of the contraction table contains an apostrophe |
| Contractions.MergedWithoutApostrophes | projects/sentiment_analysis/english_classifier/code/preprocess_en.py:30-38 | tokens without an apostrophe pass through the merge unchanged |
| Contractions.MergedExampleContraction | projects/sentiment_analysis/multilingual_classifier/code/preprocess_ml.py:106-123 | ["i", "'m", "happy"] merges to ["iam", "happy"] |
| Contractions.MergedExampleLeadingClitic | projects/sentiment_analysis/multilingual_classifier/code/preprocess_ml.py:112 | ["'s", "tired"] is unchanged |
| Contractions.MergedExampleConsecutiveClitics | projects/sentiment_analysis/multilingual_classifier/code/preprocess_ml.py:112-123 | ["a", "'s", "'m"] merges to ["ais", "'sam", "'m"]: the second clitic is glued on and also emitted alone |
| TokenLists.WithoutStopwords | projects/sentiment_analysis/multilingual_classifier/code/preprocess_ml.py:133 | the filtered list is never longer than its input |
| TokenLists.WithoutStopwordsCounts | projects/sentiment_analysis/multilingual_classifier/code/preprocess_ml.py:133 | every occurrence of a non-stopword is kept and every occurrence of a stopword is dropped (as multiset counts) |
| TokenLists.WithoutStopwordsMembers | projects/sentiment_analysis/multilingual_classifier/code/preprocess_ml.py:133 | the output holds no stopword and only tokens of its input |
| TokenLists.WithoutStopwordsDistributes | projects/sentiment_analysis/multilingual_classifier/code/preprocess_ml.py:133 | filtering keeps order: filtering a concatenation concatenates the filtered parts |
| TokenLists.WithoutStopwordsKeepsClean | projects/sentiment_analysis/multilingual_classifier/code/preprocess_ml.py:133 | a list without stopwords passes unchanged |
| TokenLists.WithoutStopwordsSingle | projects/sentiment_analysis/multilingual_classifier/code/preprocess_ml.py:133 | a single token is dropped exactly when it is a stopword |
| TokenLists.MapTokens | projects/sentiment_analysis/multilingual_classifier/code/preprocess_ml.py:137 | same length as the input, with the function applied at every position |
| TokenLists.ProcessLines | projects/sentiment_analysis/multilingual_classifier/code/preprocess_ml.py:161-175 | one row per input line, in order, each computed from its own line; no line is dropped |
| TokenLists.Join | projects/sentiment_analysis/multilingual_classifier/code/preprocess_ml.py:143 | joining no tokens gives "", and joining one token gives that token; longer lists are fixed by TokenLists.JoinAppend |
| TokenLists.JoinAppend | projects/sentiment_analysis/multilingual_classifier/code/preprocess_ml.py:143 | joining two non-empty lists laid end to end is joining each with one separator between, so `" ".join` puts exactly one separator between neighbouring tokens |
| Multilingual.ResolveLanguage | projects/sentiment_analysis/multilingual_classifier/code/preprocess_ml.py:17-26 | "deutsch" becomes "german" and "русский" becomes "russian"; any other name is kept; the tag is "other" exactly when the name is none of the five recognised names |
| Multilingual.UnknownLanguageIsKept | projects/sentiment_analysis/multilingual_classifier/code/preprocess_ml.py:24-26 | an unrecognised name is kept and never becomes English |
| Multilingual.ResolveLanguageExamples | projects/sentiment_analysis/multilingual_classifier/code/preprocess_ml.py:20-24 | the two native spellings and the three supported names resolve to the expected tags |
| Multilingual.ContractionsFor | projects/sentiment_analysis/multilingual_classifier/code/preprocess_ml.py:43-58 | there is no contraction table exactly for German and Russian; every other language gets the seven-entry English table |
| Multilingual.AlphabetFor | projects/sentiment_analysis/multilingual_classifier/code/preprocess_ml.py:72-80 | there is no character filter exactly for an unrecognised language |
| Multilingual.MultilingualPreprocessor.constructor | projects/sentiment_analysis/multilingual_classifier/code/preprocess_ml.py:16-58 | the language tag is the resolved lower-cased name; the country code is lower-cased; spaCy is what loading the chosen model gives; stopwords, stemmer and table are those of the tag; a recognised name never ends up as an unrecognised tag |
| Multilingual.MultilingualPreprocessor.CleanText | projects/sentiment_analysis/multilingual_classifier/code/preprocess_ml.py:63-85 | well spaced, and inside the language's allow-list plus ' ' when it has one |
| Multilingual.MultilingualPreprocessor.TokenizeText | projects/sentiment_analysis/multilingual_classifier/code/preprocess_ml.py:88-96 | spaCy's tokens when a model loaded, and NLTK's tokens for the stored language name otherwise |
| Multilingual.MultilingualPreprocessor.MergeContractions | projects/sentiment_analysis/multilingual_classifier/code/preprocess_ml.py:99-126 | fails (the `AttributeError`) exactly when there is no table and the token list is non-empty; otherwise it returns the merge, which is never longer than the input |
| Multilingual.MultilingualPreprocessor.RemoveStopwords | projects/sentiment_analysis/multilingual_classifier/code/preprocess_ml.py:129-133 | English merges contractions and then filters; every other language only filters; never longer than the input |
| Multilingual.MultilingualPreprocessor.StemTokens | projects/sentiment_analysis/multilingual_classifier/code/preprocess_ml.py:136-137 | the construction-time stemmer applied token by token, with the same length |
| Multilingual.MultilingualPreprocessor.LemmatizeTokens | projects/sentiment_analysis/multilingual_classifier/code/preprocess_ml.py:140-151 | spaCy's lemmas of the joined tokens when a model loaded; otherwise the WordNet lemma of each token for English, and the tokens unchanged for every other language |
| Multilingual.MultilingualPreprocessor.ProcessFile | projects/sentiment_analysis/multilingual_classifier/code/preprocess_ml.py:154-175 | one record per line, in order, each built from its own line |
| Multilingual.MultilingualPreprocessor.ProcessLine | projects/sentiment_analysis/multilingual_classifier/code/preprocess_ml.py:162-175 | the loop body of `process_file`: a record keeps its line; its cleaned text is `clean_text` of the line and well spaced; its tokens are `remove_stopwords` of `tokenize_text` of that text and its lemmas are `lemmatize_tokens` of those tokens; the tokens are stopword-free and no more than the tokenizer gave; without spaCy, English has one lemma per token and other languages' lemmas are the tokens |
| Multilingual.CleanEnglishAlphabet | projects/sentiment_analysis/multilingual_classifier/code/preprocess_ml.py:72-74 | English output holds only a-z, 0-9 and ' ' |
| Multilingual.CleanGermanAlphabet | projects/sentiment_analysis/multilingual_classifier/code/preprocess_ml.py:75-77 | German output holds only a-z, 0-9, ä, ö, ü, ß and ' ' |
| Multilingual.CleanGermanKeepsUmlauts | projects/sentiment_analysis/multilingual_classifier/code/preprocess_ml.py:75-77 | the German allow-list really admits the umlauts and ß: "süß" comes out of German cleaning unchanged |
| Multilingual.CyrillicTextHasNoLatin | projects/sentiment_analysis/multilingual_classifier/code/preprocess_ml.py:78-80 | text over the Russian allow-list holds only а-я, ё, 0-9 and ' ', and no Latin letter |
| Multilingual.CleanRussianAlphabet | projects/sentiment_analysis/multilingual_classifier/code/preprocess_ml.py:78-80 | Russian output holds only а-я, ё, 0-9 and ' ', and no Latin letter |
| Multilingual.CleanOtherKeepsPlainText | projects/sentiment_analysis/multilingual_classifier/code/preprocess_ml.py:72-83 | for an unrecognised language, a text with no URL, no mention and no stray whitespace comes out unchanged, punctuation included |
| Multilingual.CleanOtherExample | projects/sentiment_analysis/multilingual_classifier/code/preprocess_ml.py:72-83 | for an unrecognised language, "bonjour!" stays "bonjour!" |
| Multilingual.CleanTextIdempotent | projects/sentiment_analysis/multilingual_classifier/code/preprocess_ml.py:63-85 | for English, German and Russian, cleaning a cleaned text changes nothing |
| Multilingual.CleanTextExamples | projects/sentiment_analysis/multilingual_classifier/code/preprocess_ml.py:65-83 | for English and German, "HTTP://X.COM now" cleans to "now", "Don't @Bob!" cleans to "don t", and "I'm not going to http://x.com, @bob!" cleans to "i m not going to" |
| Multilingual.StripMentionsJoinsExample | projects/sentiment_analysis/multilingual_classifier/code/preprocess_ml.py:70 | deleting the mention in "www@a.x" joins the halves into "www.x" |
| Multilingual.UrlsOfJoinExample | projects/sentiment_analysis/multilingual_classifier/code/preprocess_ml.py:69 | "www@a.x" holds no URL, but "www.x" is a URL that the URL pass deletes whole |
| Multilingual.CleanOtherAfterMentions | projects/sentiment_analysis/multilingual_classifier/code/preprocess_ml.py:65-83 | without an allow-list, when the first two passes give a well-spaced text, that text is the result |
| Multilingual.CleanOtherNotIdempotent | projects/sentiment_analysis/multilingual_classifier/code/preprocess_ml.py:63-85 | for an unrecognised language cleaning is not idempotent: "www@a.x" cleans to "www.x", which cleans to "" |
| Multilingual.TokensOfLatinText | projects/sentiment_analysis/multilingual_classifier/code/preprocess_ml.py:74 | tokens made of the characters of an English-cleaned text hold no apostrophe |
| Multilingual.EnglishMergeIsIdentity | projects/sentiment_analysis/multilingual_classifier/code/preprocess_ml.py:129-133 | in the English pipeline the merge has nothing to do on tokens made of the cleaned text's characters, so removing stopwords only filters |
| English.CleanText | projects/sentiment_analysis/english_classifier/code/preprocess_en.py:41-56 | output holds only a-z, 0-9 and single interior ' ', with no space at either end |
| English.TokenizeText | projects/sentiment_analysis/english_classifier/code/preprocess_en.py:59-67 | spaCy's tokens when the model loaded, and NLTK's English tokens otherwise |
| English.RemoveStopwords | projects/sentiment_analysis/english_classifier/code/preprocess_en.py:101-102 | no merging: the result is exactly the stopword filter over the tokens, in order (whose meaning TokenLists.WithoutStopwordsCounts and WithoutStopwordsDistributes give); never longer than the input, every kept token is a non-stopword from the input, and a stopword-free list passes unchanged |
| English.StemTokens | projects/sentiment_analysis/english_classifier/code/preprocess_en.py:105-106 | Porter's stemmer token by token, with the same length |
| English.LemmatizeTokens | projects/sentiment_analysis/english_classifier/code/preprocess_en.py:109-116 | spaCy's lemmas of the joined tokens when the model loaded; otherwise the WordNet lemma of each token, with the same length |
| English.ProcessFile | projects/sentiment_analysis/english_classifier/code/preprocess_en.py:119-140 | one record per line, in order, each built from its own line |
| English.ProcessLine | projects/sentiment_analysis/english_classifier/code/preprocess_en.py:127-140 | the loop body of `process_file`: a record keeps its line and its cleaned text; its tokens are `remove_stopwords` of `tokenize_text` of that text, and so stopword-free; its lemmas are `lemmatize_tokens` of those tokens; without spaCy, there is one lemma per token; Agreement.EnglishPipelinesAgree relates it to the multilingual record |
| English.CleanTextIdempotent | projects/sentiment_analysis/english_classifier/code/preprocess_en.py:41-56 | cleaning a cleaned text changes nothing |
| English.CleanTextKeepsBareHttp | projects/sentiment_analysis/english_classifier/code/preprocess_en.py:47 | "http now" survives: `\S+` needs at least one character after "http" |
| English.CleanTextAfterUrls | projects/sentiment_analysis/english_classifier/code/preprocess_en.py:43-54 | when the URL pass already yields a clean, URL-free text, that text is the result |
| English.StripUrlsGluedExample | projects/sentiment_analysis/english_classifier/code/preprocess_en.py:47 | a URL glued to a word is still matched: the URL pass turns "ahttp://x b" into "a b" |
| English.CleanTextCutsGluedUrl | projects/sentiment_analysis/english_classifier/code/preprocess_en.py:47 | "ahttp://x b" cleans to "a b": the URL is deleted, not replaced by a space |
| English.FilterCharsContractionExample | projects/sentiment_analysis/english_classifier/code/preprocess_en.py:51 | the filter turns "don't" into "don t" |
| English.CleanTextSplitsContraction | projects/sentiment_analysis/english_classifier/code/preprocess_en.py:51 | "don't" cleans to "don t" |
| Agreement.CleanersAgree | projects/sentiment_analysis/english_classifier/code/preprocess_en.py:41-56 | the multilingual cleaner for English and the English module's cleaner are the same function |
| Agreement.EnglishPipelinesAgree | projects/sentiment_analysis/english_classifier/code/preprocess_en.py:126-140 | given the same backends and tokens drawn from the cleaned text, both preprocessors build the same record for every line, although only the multilingual one merges contractions |
| Agreement.RemoveStopwordsDiffer | projects/sentiment_analysis/english_classifier/code/preprocess_en.py:101-102 | on the raw tokens ["bob", "'s"], none of them a stopword, the multilingual English filter gives ["bobis"] while the English module keeps both tokens |

## Left out

- spaCy and NLTK are opaque values (`Backends`): their tokenisers, the Porter
  and Snowball stemmers, the WordNet lemmatiser and the stopword lists.
- A `spacy.load` that raises is modelled as `None`, passed in through the
  constructor's `spacyLoad` parameter.
- The stored `lemmatizer` attribute is not a field. `Nltk.lemmatize` plays
  its part.
- `stopwords.words` and `word_tokenize` are total functions here. For a
  language NLTK lacks, the real calls raise, so constructing the
  preprocessor or tokenising fails. The model does not capture that failure.
- `unicodedata.normalize("NFKC")`, `str.lower` and Python's `\w` are
  parameters. Only the properties that need them state what they must do.
- The regular-expression engine is not modelled in general. The four
  patterns are written out as scanners.
- The `print` notices are left out: the "not yet optimized" message and
  "Defaulting to English." in `__init__`, the spaCy notice in
  `lemmatize_tokens`, and the five-row preview in `process_file`.
- Left out as I/O or configuration: reading the input file, `DB_PATH`,
  `create_db`, `insert_rows`, the utility modules and the command-line
  entry points.
- Multilingual.MultilingualPreprocessor.MergeContractions: the
  `AttributeError` raised for German and Russian is returned as `None`, not
  propagated.
- Multilingual.MultilingualPreprocessor.RemoveStopwords requires `Valid()`.
  The constructor always establishes it, since the fields are `const`.
- `__init__`'s default arguments (`language="english"`,
  `country_code="en"`) are not modelled: the constructor takes both names
  as ordinary parameters.
- Agreement.EnglishPipelinesAgree assumes that the tokens are made of
  characters of the cleaned text. This is a property of the tokenisers,
  which are opaque here.
