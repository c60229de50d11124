/**
 * `clean_text` on three sample lines, for the Latin allow-lists (English and
 * German): the Unicode steps are the only part left as a hypothesis. Long
 * literals are cut into short chunks, one pass at a time.
 */
module CleaningExamples {
  import opened Wrappers
  import opened CharClasses
  import opened Cleaning

  /** The cleaner, pass by pass. */
  lemma CleanChain(ops: UnicodeOps, a: Alphabet, text: string, n: string, u: string, f: string, c: string)
    requires ops.lower(ops.nfkc(text)) == n
    requires StripMentions(ops.isWord, StripUrls(n)) == u
    requires FilterChars(a, u) == f
    requires Strip(CollapseSpaces(f)) == c
    ensures Clean(ops, Some(a), text) == c
  {
  }

  lemma UrlNowShapes(a: Alphabet)
    requires a != Cyrillic
    ensures UrlAt("http://x.com", 0)
    ensures forall i :: 0 <= i < |"http://x.com"| ==> !IsSpace("http://x.com"[i])
    ensures forall i :: 0 <= i < |"now"| ==> Allowed(a, "now"[i])
    ensures NoUrl("now")
  {
  }

  /**
   * The URL is matched after lower-casing, deleted whole, and the space in
   * front of the next word is trimmed: "HTTP://X.COM now" cleans to "now".
   */
  lemma CleanDropsUpperCaseUrl(ops: UnicodeOps, a: Alphabet)
    requires a != Cyrillic
    requires ops.lower(ops.nfkc("HTTP://X.COM now")) == "http://x.com now"
    ensures Clean(ops, Some(a), "HTTP://X.COM now") == "now"
  {
    UrlNowShapes(a);
    assert "http://x.com" + " " + "now" == "http://x.com now";
    CleanDeletesLeadingUrl(ops, a, "HTTP://X.COM now", "http://x.com", "now");
  }

  lemma MentionLineUrlFree(s: string)
    requires s == "don't @bob!"
    ensures NoUrl(s)
  {
    assert forall i :: 0 <= i < |s| ==> s[i] != 'h' && s[i] != 'w';
  }

  lemma BobIsMention(isWord: char -> bool, m: string)
    requires isWord('b') && isWord('o') && m == "@bob"
    ensures MentionAt(isWord, m, 0) && forall i :: 1 <= i < |m| ==> isWord(m[i])
  {
  }

  /** Passes 1 and 2 on "don't @bob!": no URL, and "@bob" goes without a trace. */
  lemma MentionLinePasses(isWord: char -> bool, s: string, p: string, m: string, e: string)
    requires isWord('b') && isWord('o') && !isWord('!')
    requires p == "don't " && m == "@bob" && e == "!" && s == p + (m + e)
    ensures StripMentions(isWord, StripUrls(s)) == p + e
  {
    assert s == "don't @bob!";
    MentionLineUrlFree(s);
    StripUrlsFixesUrlFree(s);
    StripMentionsCopiesPrefix(isWord, p, m + e);
    BobIsMention(isWord, m);
    StripMentionsDeletesMention(isWord, m, e);
    assert StripMentions(isWord, e) == e;
  }

  /** Pass 3 on "don't !": the apostrophe and the "!" become spaces. */
  lemma MentionLineFilter(a: Alphabet, s: string, r: string)
    requires a != Cyrillic
    requires s == "don't !" && r == "don t  "
    ensures FilterChars(a, s) == r
  {
    assert !Allowed(a, s[3]) && !IsSpace(s[3]) && !Allowed(a, s[6]) && !IsSpace(s[6]);
    assert Allowed(a, s[0]) && Allowed(a, s[1]) && Allowed(a, s[2]) && Allowed(a, s[4]);
  }

  lemma MentionLinePass4(f: string, c: string)
    requires f == "don t  " && c == "don t"
    ensures Strip(CollapseSpaces(f)) == c
  {
    assert f == "don" + ([' '] + ("t" + "  ")) && c == "don" + ([' '] + "t");
    TwoWordsPass4("don", "t", "  ");
  }

  /**
   * The mention is deleted, the apostrophe and "!" become spaces, and the
   * trailing run is trimmed: "Don't @Bob!" cleans to "don t".
   */
  lemma CleanDropsMention(ops: UnicodeOps, a: Alphabet)
    requires a != Cyrillic
    requires ops.lower(ops.nfkc("Don't @Bob!")) == "don't @bob!"
    requires ops.isWord('b') && ops.isWord('o') && !ops.isWord('!')
    ensures Clean(ops, Some(a), "Don't @Bob!") == "don t"
  {
    MentionLinePasses(ops.isWord, "don't @bob!", "don't ", "@bob", "!");
    assert "don't " + "!" == "don't !";
    MentionLineFilter(a, "don't !", "don t  ");
    MentionLinePass4("don t  ", "don t");
    CleanChain(ops, a, "Don't @Bob!", "don't @bob!", "don't !", "don t  ", "don t");
  }

  /** The plain words of the sample line hold no 'h', 'w' or '@'. */
  lemma PlainChunk(p: string)
    requires p == "i'm " || p == "not " || p == "going " || p == "to " || p == "to  "
    ensures forall i :: 0 <= i < |p| ==> p[i] != 'h' && p[i] != 'w' && p[i] != '@'
  {
  }

  lemma UrlCommaShapes(url: string, r: string)
    requires url == "http://x.com," && r == " @bob!"
    ensures UrlAt(url, 0) && forall i :: 0 <= i < |url| ==> !IsSpace(url[i])
    ensures NoUrl(r)
  {
  }

  /** Pass 1 on the sample line: the URL goes with its comma. */
  lemma SentenceUrlPass(s: string, a1: string, a2: string, a3: string, a4: string, url: string, r: string)
    requires a1 == "i'm " && a2 == "not " && a3 == "going " && a4 == "to " && url == "http://x.com," && r == " @bob!"
    requires s == a1 + (a2 + (a3 + (a4 + (url + r))))
    ensures StripUrls(s) == a1 + (a2 + (a3 + (a4 + r)))
  {
    PlainChunk(a1);
    StripUrlsCopiesPrefix(a1, a2 + (a3 + (a4 + (url + r))));
    PlainChunk(a2);
    StripUrlsCopiesPrefix(a2, a3 + (a4 + (url + r)));
    PlainChunk(a3);
    StripUrlsCopiesPrefix(a3, a4 + (url + r));
    PlainChunk(a4);
    StripUrlsCopiesPrefix(a4, url + r);
    UrlCommaShapes(url, r);
    StripUrlsDeletesUrl(url, r);
    StripUrlsFixesUrlFree(r);
  }

  /** Pass 2 on the sample line: "@bob" goes whole, its "!" stays. */
  lemma SentenceMentionPass(isWord: char -> bool, s: string, a1: string, a2: string, a3: string, a4: string,
                            m: string, e: string)
    requires isWord('b') && isWord('o') && !isWord('!')
    requires a1 == "i'm " && a2 == "not " && a3 == "going " && a4 == "to  " && m == "@bob" && e == "!"
    requires s == a1 + (a2 + (a3 + (a4 + (m + e))))
    ensures StripMentions(isWord, s) == a1 + (a2 + (a3 + (a4 + e)))
  {
    PlainChunk(a1);
    StripMentionsCopiesPrefix(isWord, a1, a2 + (a3 + (a4 + (m + e))));
    PlainChunk(a2);
    StripMentionsCopiesPrefix(isWord, a2, a3 + (a4 + (m + e)));
    PlainChunk(a3);
    StripMentionsCopiesPrefix(isWord, a3, a4 + (m + e));
    PlainChunk(a4);
    StripMentionsCopiesPrefix(isWord, a4, m + e);
    BobIsMention(isWord, m);
    StripMentionsDeletesMention(isWord, m, e);
    assert StripMentions(isWord, e) == e;
  }

  /** Words over a-z pass the Latin filters unchanged. */
  lemma FilterWordChunk(a: Alphabet, p: string)
    requires a != Cyrillic
    requires p == "not " || p == "going "
    ensures FilterChars(a, p) == p
  {
    assert InAlphabet(a, p);
    FilterCharsFixesAlphabet(a, p);
  }

  /** The apostrophe of "i'm" and the "!" become spaces. */
  lemma FilterMarkedChunks(a: Alphabet, a1: string, f1: string, a4: string, f4: string)
    requires a != Cyrillic
    requires a1 == "i'm " && f1 == "i m " && a4 == "to  !" && f4 == "to   "
    ensures FilterChars(a, a1) == f1 && FilterChars(a, a4) == f4
  {
    assert !Allowed(a, a1[1]) && !IsSpace(a1[1]) && Allowed(a, a1[0]) && Allowed(a, a1[2]);
    assert Allowed(a, a4[0]) && Allowed(a, a4[1]) && !Allowed(a, a4[4]) && !IsSpace(a4[4]);
  }

  /** Pass 3 on the sample line, chunk by chunk. */
  lemma SentenceFilter(a: Alphabet, s: string, a1: string, a2: string, a3: string, a4: string, f1: string, f4: string)
    requires a != Cyrillic
    requires a1 == "i'm " && a2 == "not " && a3 == "going " && a4 == "to  !"
    requires f1 == "i m " && f4 == "to   "
    requires s == a1 + (a2 + (a3 + a4))
    ensures FilterChars(a, s) == f1 + (a2 + (a3 + f4))
  {
    FilterCharsAppend(a, a1, a2 + (a3 + a4));
    FilterCharsAppend(a, a2, a3 + a4);
    FilterCharsAppend(a, a3, a4);
    FilterWordChunk(a, a2);
    FilterWordChunk(a, a3);
    FilterMarkedChunks(a, a1, f1, a4, f4);
  }

  /** Pass 4 on the sample line: the trailing run goes. */
  lemma SentencePass4(f: string, w: string, b: string)
    requires w == "i m not going to" && b == "   " && f == w + b
    ensures Strip(CollapseSpaces(f)) == w
  {
    assert forall i :: 0 <= i < |w| ==> w[i] == ' ' || !IsSpace(w[i]);
    assert forall i :: 0 < i < |w| ==> !(w[i - 1] == ' ' && w[i] == ' ');
    assert !IsSpace(w[0]) && !IsSpace(w[|w| - 1]);
    CollapseSpacesTrailingRun(w, b);
    StripTrailingSpace(w);
  }

  /** The lowered sample line, cut into the chunks the passes work on. */
  lemma SentenceChunks(n: string, a1: string, a2: string, a3: string, a4: string, url: string, r: string)
    requires a1 == "i'm " && a2 == "not " && a3 == "going " && a4 == "to " && url == "http://x.com," && r == " @bob!"
    requires n == "i'm not going to http://x.com, @bob!"
    ensures n == a1 + (a2 + (a3 + (a4 + (url + r))))
  {
  }

  lemma MentionChunks(a4: string, r: string, b4: string, m: string, e: string)
    requires a4 == "to " && r == " @bob!" && b4 == "to  " && m == "@bob" && e == "!"
    ensures a4 + r == b4 + (m + e)
  {
  }

  lemma FilterChunks(b4: string, e: string, c4: string)
    requires b4 == "to  " && e == "!" && c4 == "to  !"
    ensures b4 + e == c4
  {
  }

  lemma Pass4Chunks(f1: string, a2: string, a3: string, f4: string, w: string, b: string)
    requires f1 == "i m " && a2 == "not " && a3 == "going " && f4 == "to   "
    requires w == "i m not going to" && b == "   "
    ensures f1 + (a2 + (a3 + f4)) == w + b
  {
  }

  /**
   * A sample line: the URL goes with its comma, the mention goes whole and
   * the apostrophe of "i'm" becomes a space, so the cleaned text is
   * "i m not going to".
   */
  lemma CleanSampleSentence(ops: UnicodeOps, a: Alphabet)
    requires a != Cyrillic
    requires ops.lower(ops.nfkc("I'm not going to http://x.com, @bob!")) == "i'm not going to http://x.com, @bob!"
    requires ops.isWord('b') && ops.isWord('o') && !ops.isWord('!')
    ensures Clean(ops, Some(a), "I'm not going to http://x.com, @bob!") == "i m not going to"
  {
    var n := "i'm not going to http://x.com, @bob!";
    var a1, a2, a3, a4, url, r := "i'm ", "not ", "going ", "to ", "http://x.com,", " @bob!";
    SentenceChunks(n, a1, a2, a3, a4, url, r);
    SentenceUrlPass(n, a1, a2, a3, a4, url, r);
    var b4, m, e := "to  ", "@bob", "!";
    MentionChunks(a4, r, b4, m, e);
    SentenceMentionPass(ops.isWord, a1 + (a2 + (a3 + (a4 + r))), a1, a2, a3, b4, m, e);
    var c4 := "to  !";
    FilterChunks(b4, e, c4);
    var f1, f4 := "i m ", "to   ";
    SentenceFilter(a, a1 + (a2 + (a3 + c4)), a1, a2, a3, c4, f1, f4);
    var w, b := "i m not going to", "   ";
    Pass4Chunks(f1, a2, a3, f4, w, b);
    SentencePass4(w + b, w, b);
    CleanChain(ops, a, "I'm not going to http://x.com, @bob!", n, a1 + (a2 + (a3 + c4)), f1 + (a2 + (a3 + f4)), w);
  }
}
