/**
 * The linguistic libraries the preprocessors call, as opaque values: a
 * loaded spaCy pipeline and the NLTK services. Their internals are not part
 * of this model; only what the preprocessors do with their answers is.
 */
module Backends {

  /** A loaded spaCy pipeline: the `text` and the `lemma_` of each token of `nlp(text)`. */
  datatype SpacyModel = SpacyModel(tokens: string -> seq<string>, lemmas: string -> seq<string>)

  /** The stemmer chosen at construction. */
  datatype Stemmer = Porter | GermanSnowball | RussianSnowball

  /** The NLTK services the preprocessors use. */
  datatype Nltk = Nltk(
    stopwords: string -> set<string>,                // set(stopwords.words(language))
    wordTokenize: (string, string) -> seq<string>,   // word_tokenize(text, language)
    stem: (Stemmer, string) -> string,               // stemmer.stem(token)
    lemmatize: string -> string)                     // WordNetLemmatizer().lemmatize(token)
}
