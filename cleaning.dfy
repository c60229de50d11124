/**
 * `clean_text`: Unicode normalisation and lower-casing (opaque), then four
 * left-to-right rewrite passes, each written as its own scanner:
 *   1. delete every match of `http\S+|www\.\S+`,
 *   2. delete every match of `@\w+`,
 *   3. replace every character outside the language's allow-list (and not
 *      whitespace) by a space,
 *   4. collapse whitespace runs to one space, then strip both ends.
 */
module Cleaning {
  import opened CharClasses
  import opened Wrappers

  /**
   * The Unicode services the cleaner borrows from Python: NFKC normalisation,
   * `str.lower`, and the `\w` character class.
   */
  datatype UnicodeOps = UnicodeOps(
    nfkc: string -> string,
    lower: string -> string,
    isWord: char -> bool)

  /** The allow-lists of the punctuation filter. */
  datatype Alphabet =
    | Latin         // [a-z0-9\s]
    | LatinGerman   // [a-z0-9\säöüß]
    | Cyrillic      // [а-яё0-9\s]

  predicate Allowed(a: Alphabet, c: char) {
    match a
    case Latin => IsAsciiLower(c) || IsDigit(c)
    case LatinGerman => IsAsciiLower(c) || IsDigit(c) || IsGermanLetter(c)
    case Cyrillic => IsCyrillicLower(c) || IsDigit(c)
  }

  /** Every character is a space or on the allow-list. */
  predicate InAlphabet(a: Alphabet, s: string) {
    forall i :: 0 <= i < |s| ==> s[i] == ' ' || Allowed(a, s[i])
  }

  /** The only whitespace is ' ', never doubled, never at either end. */
  predicate WellSpaced(s: string) {
    && (forall i :: 0 <= i < |s| ==> s[i] == ' ' || !IsSpace(s[i]))
    && (s != [] ==> s[0] != ' ' && s[|s| - 1] != ' ')
    && (forall i :: 0 < i < |s| ==> !(s[i - 1] == ' ' && s[i] == ' '))
  }

  // ---------------------------------------------------------------------
  // Pass 1: `http\S+|www\.\S+` is deleted.

  /** A match of `http\S+|www\.\S+` starts at index i. */
  predicate UrlAt(s: string, i: int) {
    && 0 <= i && i + 4 < |s|
    && !IsSpace(s[i + 4])
    && ((s[i] == 'h' && s[i + 1] == 't' && s[i + 2] == 't' && s[i + 3] == 'p')
        || (s[i] == 'w' && s[i + 1] == 'w' && s[i + 2] == 'w' && s[i + 3] == '.'))
  }

  predicate NoUrl(s: string) {
    forall i :: 0 <= i < |s| ==> !UrlAt(s, i)
  }

  /** What is left after the greedy `\S+`: the input from its first whitespace on. */
  function SkipNonSpace(s: string): (r: string)
    ensures |r| <= |s| && r == s[|s| - |r|..]
    ensures r == [] || IsSpace(r[0])
    ensures forall k :: 0 <= k < |s| - |r| ==> !IsSpace(s[k])
  {
    if s == [] || IsSpace(s[0]) then s
    else
      var r := SkipNonSpace(s[1..]);
      assert forall k :: 1 <= k < |s| - |r| ==> s[k] == s[1..][k - 1];
      r
  }

  function StripUrls(s: string): (r: string)
    ensures |r| <= |s|
    decreases |s|
  {
    if s == [] then []
    else if UrlAt(s, 0) then StripUrls(SkipNonSpace(s[4..]))
    else [s[0]] + StripUrls(s[1..])
  }

  /** After a match, pass 1 resumes at whitespace or at the end. */
  lemma StripUrlsAfterUrl(s: string)
    requires UrlAt(s, 0)
    ensures StripUrls(s) == [] || IsSpace(StripUrls(s)[0])
  {
    var u := SkipNonSpace(s[4..]);
    assert StripUrls(s) == StripUrls(u);
    if u != [] {
      assert !UrlAt(u, 0);
      assert StripUrls(u) == [u[0]] + StripUrls(u[1..]);
    }
  }

  /** A run of non-space characters at the front of the output was copied from the front of the input. */
  lemma {:induction false} StripUrlsWindow(s: string, n: nat)
    ensures n <= |StripUrls(s)| && (forall k :: 0 <= k < n ==> !IsSpace(StripUrls(s)[k]))
            ==> n <= |s| && forall k :: 0 <= k < n ==> StripUrls(s)[k] == s[k]
    decreases |s|
  {
    if s != [] && n > 0 {
      if UrlAt(s, 0) {
        StripUrlsAfterUrl(s);
      } else {
        var r, tail := StripUrls(s), StripUrls(s[1..]);
        assert r == [s[0]] + tail;
        StripUrlsWindow(s[1..], n - 1);
        if n <= |r| && forall k :: 0 <= k < n ==> !IsSpace(r[k]) {
          forall k | 0 <= k < n - 1 ensures !IsSpace(tail[k]) {
            assert tail[k] == r[k + 1];
          }
          forall k | 0 < k < n ensures r[k] == s[k] {
            assert r[k] == tail[k - 1] && s[1..][k - 1] == s[k];
          }
        }
      }
    }
  }

  /** Whether a match starts at 0 depends on the first five characters only. */
  lemma UrlAtSameWindow(r: string, s: string)
    requires 5 <= |r| && 5 <= |s|
    requires r[0] == s[0] && r[1] == s[1] && r[2] == s[2] && r[3] == s[3] && r[4] == s[4]
    ensures UrlAt(r, 0) == UrlAt(s, 0)
  {
  }

  /** Four non-space characters after a copied first character come from the input too. */
  lemma StripUrlsCopiesWindow(s: string)
    requires s != [] && !UrlAt(s, 0)
    requires 5 <= |StripUrls(s)|
    requires forall k :: 1 <= k < 5 ==> !IsSpace(StripUrls(s)[k])
    ensures 5 <= |s| && forall k :: 0 <= k < 5 ==> StripUrls(s)[k] == s[k]
  {
    var r, tail := StripUrls(s), StripUrls(s[1..]);
    assert r == [s[0]] + tail;
    assert forall k :: 0 <= k < 4 ==> tail[k] == r[k + 1];
    StripUrlsWindow(s[1..], 4);
    assert forall k :: 1 <= k < 5 ==> s[1..][k - 1] == s[k];
  }

  /** The first window of the output of pass 1 is a match only if the input's was. */
  lemma StripUrlsHeadUrl(s: string)
    requires s != [] && !UrlAt(s, 0)
    ensures !UrlAt(StripUrls(s), 0)
  {
    var r := StripUrls(s);
    if 5 <= |r| && !IsSpace(r[1]) && !IsSpace(r[2]) && !IsSpace(r[3]) && !IsSpace(r[4]) {
      StripUrlsCopiesWindow(s);
      UrlAtSameWindow(r, s);
    }
  }

  /** Pass 1 leaves no match behind. */
  lemma {:induction false} StripUrlsLeavesNoUrl(s: string)
    ensures NoUrl(StripUrls(s))
    decreases |s|
  {
    if s == [] {
    } else if UrlAt(s, 0) {
      var u := SkipNonSpace(s[4..]);
      StripUrlsLeavesNoUrl(u);
      assert StripUrls(s) == StripUrls(u);
    } else {
      StripUrlsLeavesNoUrl(s[1..]);
      StripUrlsHeadUrl(s);
      var r, tail := StripUrls(s), StripUrls(s[1..]);
      assert r == [s[0]] + tail;
      forall i | 0 < i < |r| ensures !UrlAt(r, i) {
        assert !UrlAt(tail, i - 1);
      }
    }
  }

  lemma {:induction false} NoUrlSuffix(s: string, d: nat)
    requires NoUrl(s) && d <= |s|
    ensures NoUrl(s[d..])
  {
    forall i | 0 <= i < |s| - d ensures !UrlAt(s[d..], i) {
      assert !UrlAt(s, d + i);
    }
  }

  /** Pass 1 changes nothing in a text without a match. */
  lemma {:induction false} StripUrlsFixesUrlFree(s: string)
    requires NoUrl(s)
    ensures StripUrls(s) == s
    decreases |s|
  {
    if s != [] {
      assert !UrlAt(s, 0);
      NoUrlSuffix(s, 1);
      StripUrlsFixesUrlFree(s[1..]);
    }
  }

  /** The greedy `\S+` stops at the first whitespace. */
  lemma {:induction false} SkipNonSpaceTo(s: string, d: nat)
    requires d <= |s| && (d == |s| || IsSpace(s[d]))
    requires forall k :: 0 <= k < d ==> !IsSpace(s[k])
    ensures SkipNonSpace(s) == s[d..]
    decreases d
  {
    if d > 0 {
      forall k | 0 <= k < d - 1 ensures !IsSpace(s[1..][k]) {
        assert s[1..][k] == s[k + 1];
      }
      SkipNonSpaceTo(s[1..], d - 1);
      assert s[1..][d - 1..] == s[d..];
    }
  }

  /** Putting a copied character back in front of a copied prefix. */
  lemma Regroup(c: char, p: string, y: string)
    ensures [c] + (p + y) == ([c] + p) + y
  {
  }

  /** Text holding no 'h' and no 'w' cannot start a match, so pass 1 copies it. */
  lemma {:induction false} StripUrlsCopiesPrefix(p: string, x: string)
    requires forall i :: 0 <= i < |p| ==> p[i] != 'h' && p[i] != 'w'
    ensures StripUrls(p + x) == p + StripUrls(x)
    decreases |p|
  {
    if p != [] {
      var s := p + x;
      assert s[0] == p[0] && !UrlAt(s, 0);
      assert StripUrls(s) == [p[0]] + StripUrls(s[1..]);
      assert s[1..] == p[1..] + x;
      StripUrlsCopiesPrefix(p[1..], x);
      Regroup(p[0], p[1..], StripUrls(x));
      assert [p[0]] + p[1..] == p;
    } else {
      assert p + x == x;
    }
  }

  /** The greedy `\S+` consumes a whole run of non-space characters and stops at what follows it. */
  lemma SkipNonSpacePast(w: string, rest: string)
    requires forall i :: 0 <= i < |w| ==> !IsSpace(w[i])
    requires rest == [] || IsSpace(rest[0])
    ensures SkipNonSpace(w + rest) == rest
  {
    var t := w + rest;
    forall k | 0 <= k < |w| ensures !IsSpace(t[k]) {
      assert t[k] == w[k];
    }
    assert |w| < |t| ==> t[|w|] == rest[0];
    SkipNonSpaceTo(t, |w|);
    assert t[|w|..] == rest;
  }

  /** A text of at least five characters, split after its fourth. */
  lemma SplitAfterFour(u: string, rest: string)
    requires |u| >= 5
    ensures forall k :: 0 <= k < 5 ==> (u + rest)[k] == u[k]
    ensures (u + rest)[4..] == u[4..] + rest
  {
  }

  /**
   * A match is deleted whole, up to the next whitespace, and nothing takes
   * its place: the output goes on with what followed it.
   */
  lemma StripUrlsDeletesUrl(u: string, rest: string)
    requires UrlAt(u, 0) && forall i :: 0 <= i < |u| ==> !IsSpace(u[i])
    requires rest == [] || IsSpace(rest[0])
    ensures StripUrls(u + rest) == StripUrls(rest)
  {
    SplitAfterFour(u, rest);
    assert UrlAt(u + rest, 0);
    forall k | 0 <= k < |u| - 4 ensures !IsSpace(u[4..][k]) {
      assert u[4..][k] == u[k + 4];
    }
    SkipNonSpacePast(u[4..], rest);
  }

  // ---------------------------------------------------------------------
  // Pass 2: `@\w+` is deleted.

  /** A match of `@\w+` starts at index i. */
  predicate MentionAt(isWord: char -> bool, s: string, i: int) {
    0 <= i && i + 1 < |s| && s[i] == '@' && isWord(s[i + 1])
  }

  predicate NoMention(isWord: char -> bool, s: string) {
    forall i :: 0 <= i < |s| ==> !MentionAt(isWord, s, i)
  }

  /** What is left after the greedy `\w+`. */
  function SkipWord(isWord: char -> bool, s: string): (r: string)
    ensures |r| <= |s| && r == s[|s| - |r|..]
    ensures r == [] || !isWord(r[0])
    ensures forall k :: 0 <= k < |s| - |r| ==> isWord(s[k])
  {
    if s != [] && isWord(s[0]) then
      var r := SkipWord(isWord, s[1..]);
      assert forall k :: 1 <= k < |s| - |r| ==> s[k] == s[1..][k - 1];
      r
    else s
  }

  function StripMentions(isWord: char -> bool, s: string): (r: string)
    ensures |r| <= |s|
    decreases |s|
  {
    if s == [] then []
    else if MentionAt(isWord, s, 0) then StripMentions(isWord, SkipWord(isWord, s[2..]))
    else [s[0]] + StripMentions(isWord, s[1..])
  }

  /** After a deletion the output resumes at a non-word character (or ends). */
  lemma {:induction false} StripMentionsResumesAtNonWord(isWord: char -> bool, s: string)
    ensures s == [] || !isWord(s[0])
            ==> StripMentions(isWord, s) == [] || !isWord(StripMentions(isWord, s)[0])
    decreases |s|
  {
    if s != [] && !isWord(s[0]) && MentionAt(isWord, s, 0) {
      StripMentionsResumesAtNonWord(isWord, SkipWord(isWord, s[2..]));
    }
  }

  /** A run of word characters at the front of the output was copied from the front of the input. */
  lemma {:induction false} StripMentionsWindow(isWord: char -> bool, s: string, n: nat)
    ensures n <= |StripMentions(isWord, s)| && (forall k :: 0 <= k < n ==> isWord(StripMentions(isWord, s)[k]))
            ==> n <= |s| && forall k :: 0 <= k < n ==> StripMentions(isWord, s)[k] == s[k]
    decreases |s|
  {
    if s != [] && n > 0 {
      if MentionAt(isWord, s, 0) {
        var u := SkipWord(isWord, s[2..]);
        StripMentionsResumesAtNonWord(isWord, u);
        assert StripMentions(isWord, s) == StripMentions(isWord, u);
      } else {
        var r, tail := StripMentions(isWord, s), StripMentions(isWord, s[1..]);
        assert r == [s[0]] + tail;
        StripMentionsWindow(isWord, s[1..], n - 1);
        if n <= |r| && forall k :: 0 <= k < n ==> isWord(r[k]) {
          forall k | 0 <= k < n - 1 ensures isWord(tail[k]) {
            assert tail[k] == r[k + 1];
          }
          forall k | 0 < k < n ensures r[k] == s[k] {
            assert r[k] == tail[k - 1] && s[1..][k - 1] == s[k];
          }
        }
      }
    }
  }

  /** The first window of the output of pass 2 is a mention only if the input's was. */
  lemma StripMentionsHeadMention(isWord: char -> bool, s: string)
    requires s != [] && !MentionAt(isWord, s, 0)
    ensures !MentionAt(isWord, StripMentions(isWord, s), 0)
  {
    var r, tail := StripMentions(isWord, s), StripMentions(isWord, s[1..]);
    assert r == [s[0]] + tail;
    assert MentionAt(isWord, r, 0) ==> 1 <= |tail| && isWord(tail[0]) && tail[0] == r[1];
    StripMentionsWindow(isWord, s[1..], 1);
  }

  /** Pass 2 leaves no match behind. */
  lemma {:induction false} StripMentionsLeavesNoMention(isWord: char -> bool, s: string)
    ensures NoMention(isWord, StripMentions(isWord, s))
    decreases |s|
  {
    if s == [] {
    } else if MentionAt(isWord, s, 0) {
      var u := SkipWord(isWord, s[2..]);
      StripMentionsLeavesNoMention(isWord, u);
      assert StripMentions(isWord, s) == StripMentions(isWord, u);
    } else {
      StripMentionsLeavesNoMention(isWord, s[1..]);
      StripMentionsHeadMention(isWord, s);
      var r, tail := StripMentions(isWord, s), StripMentions(isWord, s[1..]);
      assert r == [s[0]] + tail;
      forall i | 0 < i < |r| ensures !MentionAt(isWord, r, i) {
        assert !MentionAt(isWord, tail, i - 1);
      }
    }
  }

  /** Pass 2 changes nothing in a text without a match. */
  lemma {:induction false} StripMentionsFixesMentionFree(isWord: char -> bool, s: string)
    requires NoMention(isWord, s)
    ensures StripMentions(isWord, s) == s
    decreases |s|
  {
    if s != [] {
      assert !MentionAt(isWord, s, 0);
      forall i | 0 <= i < |s| - 1 ensures !MentionAt(isWord, s[1..], i) {
        assert !MentionAt(isWord, s, i + 1);
      }
      StripMentionsFixesMentionFree(isWord, s[1..]);
    }
  }

  /** The greedy `\w+` stops at the first character outside `\w`. */
  lemma {:induction false} SkipWordTo(isWord: char -> bool, s: string, d: nat)
    requires d <= |s| && (d == |s| || !isWord(s[d]))
    requires forall k :: 0 <= k < d ==> isWord(s[k])
    ensures SkipWord(isWord, s) == s[d..]
    decreases d
  {
    if d > 0 {
      forall k | 0 <= k < d - 1 ensures isWord(s[1..][k]) {
        assert s[1..][k] == s[k + 1];
      }
      SkipWordTo(isWord, s[1..], d - 1);
      assert s[1..][d - 1..] == s[d..];
    }
  }

  /** Text holding no '@' cannot start a mention, so pass 2 copies it. */
  lemma {:induction false} StripMentionsCopiesPrefix(isWord: char -> bool, p: string, x: string)
    requires forall i :: 0 <= i < |p| ==> p[i] != '@'
    ensures StripMentions(isWord, p + x) == p + StripMentions(isWord, x)
    decreases |p|
  {
    if p != [] {
      var s := p + x;
      assert s[0] == p[0] && !MentionAt(isWord, s, 0);
      assert StripMentions(isWord, s) == [p[0]] + StripMentions(isWord, s[1..]);
      assert s[1..] == p[1..] + x;
      StripMentionsCopiesPrefix(isWord, p[1..], x);
      Regroup(p[0], p[1..], StripMentions(isWord, x));
      assert [p[0]] + p[1..] == p;
    } else {
      assert p + x == x;
    }
  }

  /** The greedy `\w+` consumes a whole run of word characters and stops at what follows it. */
  lemma SkipWordPast(isWord: char -> bool, w: string, rest: string)
    requires forall i :: 0 <= i < |w| ==> isWord(w[i])
    requires rest == [] || !isWord(rest[0])
    ensures SkipWord(isWord, w + rest) == rest
  {
    var t := w + rest;
    forall k | 0 <= k < |w| ensures isWord(t[k]) {
      assert t[k] == w[k];
    }
    assert |w| < |t| ==> t[|w|] == rest[0];
    SkipWordTo(isWord, t, |w|);
    assert t[|w|..] == rest;
  }

  /** A text of at least two characters, split after its second. */
  lemma SplitAfterTwo(m: string, rest: string)
    requires |m| >= 2
    ensures (m + rest)[0] == m[0] && (m + rest)[1] == m[1] && (m + rest)[2..] == m[2..] + rest
  {
  }

  /**
   * "@" and the whole run of word characters after it are deleted, and
   * nothing takes their place.
   */
  lemma StripMentionsDeletesMention(isWord: char -> bool, m: string, rest: string)
    requires MentionAt(isWord, m, 0) && forall i :: 1 <= i < |m| ==> isWord(m[i])
    requires rest == [] || !isWord(rest[0])
    ensures StripMentions(isWord, m + rest) == StripMentions(isWord, rest)
  {
    SplitAfterTwo(m, rest);
    assert MentionAt(isWord, m + rest, 0);
    forall k | 0 <= k < |m| - 2 ensures isWord(m[2..][k]) {
      assert m[2..][k] == m[k + 2];
    }
    SkipWordPast(isWord, m[2..], rest);
  }

  // ---------------------------------------------------------------------
  // Pass 3: the punctuation filter.

  function FilterChars(a: Alphabet, s: string): (r: string)
    ensures |r| == |s|
    ensures forall i :: 0 <= i < |s| ==>
              r[i] == (if Allowed(a, s[i]) || IsSpace(s[i]) then s[i] else ' ')
  {
    if s == [] then []
    else [if Allowed(a, s[0]) || IsSpace(s[0]) then s[0] else ' '] + FilterChars(a, s[1..])
  }

  // ---------------------------------------------------------------------
  // Pass 4: `re.sub(r"\s+", " ", text).strip()`.

  /** What is left after the greedy `\s+`. */
  function SkipSpaces(s: string): (r: string)
    ensures |r| <= |s| && r == s[|s| - |r|..]
    ensures r == [] || !IsSpace(r[0])
    ensures forall k :: 0 <= k < |s| - |r| ==> IsSpace(s[k])
  {
    if s != [] && IsSpace(s[0]) then
      var r := SkipSpaces(s[1..]);
      assert forall k :: 1 <= k < |s| - |r| ==> s[k] == s[1..][k - 1];
      r
    else s
  }

  function CollapseSpaces(s: string): (r: string)
    ensures |r| <= |s|
    ensures r == [] <==> s == []
    ensures s != [] ==> r[0] == if IsSpace(s[0]) then ' ' else s[0]
    ensures forall i :: 0 <= i < |r| ==> r[i] == ' ' || !IsSpace(r[i])
    ensures forall i :: 0 < i < |r| ==> !(r[i - 1] == ' ' && r[i] == ' ')
    decreases |s|
  {
    if s == [] then []
    else if IsSpace(s[0]) then [' '] + CollapseSpaces(SkipSpaces(s))
    else [s[0]] + CollapseSpaces(s[1..])
  }

  /** Leading whitespace removed, as by `str.lstrip()`. */
  function TrimStart(s: string): (r: string)
    ensures |r| <= |s| && r == s[|s| - |r|..]
    ensures r == [] || !IsSpace(r[0])
    ensures forall k :: 0 <= k < |s| - |r| ==> IsSpace(s[k])
  {
    if s != [] && IsSpace(s[0]) then TrimStart(s[1..]) else s
  }

  /** Trailing whitespace removed, as by `str.rstrip()`. */
  function TrimEnd(s: string): (r: string)
    ensures |r| <= |s| && r == s[..|r|]
    ensures r == [] || !IsSpace(r[|r| - 1])
    ensures forall k :: |r| <= k < |s| ==> IsSpace(s[k])
  {
    if s != [] && IsSpace(s[|s| - 1]) then TrimEnd(s[..|s| - 1]) else s
  }

  /** `str.strip()`. */
  function Strip(s: string): (r: string)
    ensures r == [] || (!IsSpace(r[0]) && !IsSpace(r[|r| - 1]))
  {
    TrimEnd(TrimStart(s))
  }

  /** `Strip(s)` is the slice of `s` between its leading and its trailing whitespace. */
  lemma StripIsSlice(s: string)
    ensures |s| - |TrimStart(s)| + |Strip(s)| <= |s|
    ensures Strip(s) == s[|s| - |TrimStart(s)|..|s| - |TrimStart(s)| + |Strip(s)|]
  {
  }

  /** Stripping a text that is already trimmed changes nothing. */
  lemma StripFixesTrimmed(s: string)
    requires s == [] || (!IsSpace(s[0]) && !IsSpace(s[|s| - 1]))
    ensures Strip(s) == s
  {
  }

  /** The first character of a non-empty prefix, and the rest. */
  lemma ConsSplit(p: string, x: string)
    requires p != []
    ensures (p + x)[0] == p[0] && (p + x)[1..] == p[1..] + x && [p[0]] + p[1..] == p
  {
  }

  /** A run of non-whitespace characters is copied by the collapse. */
  lemma {:induction false} CollapseSpacesCopiesWord(p: string, x: string)
    requires forall i :: 0 <= i < |p| ==> !IsSpace(p[i])
    ensures CollapseSpaces(p + x) == p + CollapseSpaces(x)
    decreases |p|
  {
    if p != [] {
      ConsSplit(p, x);
      assert CollapseSpaces(p + x) == [p[0]] + CollapseSpaces(p[1..] + x);
      CollapseSpacesCopiesWord(p[1..], x);
      Regroup(p[0], p[1..], CollapseSpaces(x));
    } else {
      assert p + x == x;
    }
  }

  /** A whole run of whitespace becomes a single ' '. */
  lemma CollapseSpacesRun(w: string, x: string)
    requires w != [] && forall i :: 0 <= i < |w| ==> IsSpace(w[i])
    requires x == [] || !IsSpace(x[0])
    ensures CollapseSpaces(w + x) == [' '] + CollapseSpaces(x)
  {
    var s := w + x;
    assert s[0] == w[0];
    forall k | 0 <= k < |w| ensures IsSpace(s[k]) {
      assert s[k] == w[k];
    }
    assert |w| < |s| ==> s[|w|] == x[0];
    assert s[|w|..] == x;
  }

  /** `strip` removes whitespace runs at both ends and nothing else. */
  lemma StripDropsEnds(front: string, w: string, back: string)
    requires forall i :: 0 <= i < |front| ==> IsSpace(front[i])
    requires forall i :: 0 <= i < |back| ==> IsSpace(back[i])
    requires w == [] || (!IsSpace(w[0]) && !IsSpace(w[|w| - 1]))
    ensures w != [] ==> Strip(front + w + back) == w
  {
    if w != [] {
      var s := front + w + back;
      forall k | 0 <= k < |front| ensures IsSpace(s[k]) {
        assert s[k] == front[k];
      }
      forall k | |front| + |w| <= k < |s| ensures IsSpace(s[k]) {
        assert s[k] == back[k - |front| - |w|];
      }
      assert s[|front|] == w[0] && s[|front| + |w| - 1] == w[|w| - 1];
      var t := TrimStart(s);
      assert |s| - |t| == |front|;
      assert t == w + back;
      var e := TrimEnd(t);
      assert t[|w| - 1] == w[|w| - 1];
      forall k | |w| <= k < |t| ensures IsSpace(t[k]) {
        assert t[k] == back[k - |w|];
      }
      assert |e| == |w|;
      assert e == t[..|w|] == w;
    }
  }

  /** A trailing run of whitespace collapses to one ' '. */
  lemma TrailingRun(b: string)
    requires b != [] && forall i :: 0 <= i < |b| ==> IsSpace(b[i])
    ensures CollapseSpaces(b) == [' ']
  {
    assert b + [] == b;
    CollapseSpacesRun(b, []);
  }

  /** A single ' ' in front of a word stays as it is. */
  lemma SpaceThenWord(q: string, b: string)
    requires q != [] && !IsSpace(q[0])
    ensures CollapseSpaces([' '] + (q + b)) == [' '] + CollapseSpaces(q + b)
  {
    assert (q + b)[0] == q[0];
    CollapseSpacesRun([' '], q + b);
  }

  /** Two words, a space and a trailing whitespace run: only the run shrinks. */
  lemma TwoWordsCollapse(p: string, q: string, b: string)
    requires forall i :: 0 <= i < |p| ==> !IsSpace(p[i])
    requires q != [] && forall i :: 0 <= i < |q| ==> !IsSpace(q[i])
    requires b != [] && forall i :: 0 <= i < |b| ==> IsSpace(b[i])
    ensures CollapseSpaces(p + ([' '] + (q + b))) == p + ([' '] + (q + [' ']))
  {
    TrailingRun(b);
    CollapseSpacesCopiesWord(q, b);
    SpaceThenWord(q, b);
    CollapseSpacesCopiesWord(p, [' '] + (q + b));
  }

  /** `strip` drops a single trailing ' '. */
  lemma StripTrailingSpace(w: string)
    requires w != [] && !IsSpace(w[0]) && !IsSpace(w[|w| - 1])
    ensures Strip(w + [' ']) == w
  {
    StripDropsEnds([], w, [' ']);
    assert [] + w + [' '] == w + [' '];
  }

  lemma SpacedPair(p: string, q: string)
    ensures p + ([' '] + (q + [' '])) == (p + ([' '] + q)) + [' ']
  {
  }

  /**
   * Pass 4 on two words that end in a whitespace run (as punctuation turned
   * into spaces leaves them): the run is gone and one ' ' joins the words.
   */
  lemma TwoWordsPass4(p: string, q: string, b: string)
    requires p != [] && forall i :: 0 <= i < |p| ==> !IsSpace(p[i])
    requires q != [] && forall i :: 0 <= i < |q| ==> !IsSpace(q[i])
    requires b != [] && forall i :: 0 <= i < |b| ==> IsSpace(b[i])
    ensures Strip(CollapseSpaces(p + ([' '] + (q + b)))) == p + ([' '] + q)
  {
    TwoWordsCollapse(p, q, b);
    SpacedPair(p, q);
    var w := p + ([' '] + q);
    assert w[0] == p[0] && w[|w| - 1] == q[|q| - 1];
    StripTrailingSpace(w);
  }

  /** A character in front of a text is copied, when it is a ' ' that no other whitespace follows. */
  lemma CollapseSpacesConsStep(c: char, y: string)
    requires IsSpace(c) ==> c == ' ' && y != [] && !IsSpace(y[0])
    ensures CollapseSpaces([c] + y) == [c] + CollapseSpaces(y)
  {
    if IsSpace(c) {
      CollapseSpacesRun([c], y);
    } else {
      CollapseSpacesCopiesWord([c], y);
    }
  }

  /** Single-spaced text ending in a word, then a whitespace run: the run becomes one ' '. */
  lemma {:induction false} CollapseSpacesTrailingRun(w: string, b: string)
    requires forall i :: 0 <= i < |w| ==> w[i] == ' ' || !IsSpace(w[i])
    requires forall i :: 0 < i < |w| ==> !(w[i - 1] == ' ' && w[i] == ' ')
    requires w != [] && !IsSpace(w[|w| - 1])
    requires b != [] && forall i :: 0 <= i < |b| ==> IsSpace(b[i])
    ensures CollapseSpaces(w + b) == w + [' ']
    decreases |w|
  {
    var v := w[1..];
    ConsSplit(w, b);
    if v == [] {
      assert w == [w[0]] && w + b == [w[0]] + b;
      TrailingRun(b);
      assert CollapseSpaces(w + b) == [w[0]] + CollapseSpaces(b);
    } else {
      CollapseSpacesTrailingRun(v, b);
      assert (v + b)[0] == w[1] == v[0];
      CollapseSpacesConsStep(w[0], v + b);
      Regroup(w[0], v, [' ']);
    }
  }

  /** Collapsing and then stripping gives the cleaned spacing shape. */
  lemma StripCollapsedIsWellSpaced(s: string)
    ensures WellSpaced(Strip(CollapseSpaces(s)))
  {
    var c := CollapseSpaces(s);
    var r := Strip(c);
    StripIsSlice(c);
    var d := |c| - |TrimStart(c)|;
    assert forall i :: 0 <= i < |r| ==> r[i] == c[d + i];
    assert IsSpace(' ');
    forall i | 0 < i < |r| ensures !(r[i - 1] == ' ' && r[i] == ' ') {
      assert r[i - 1] == c[d + i - 1];
    }
  }

  /** Stripping keeps a text inside its alphabet. */
  lemma StripKeepsAlphabet(a: Alphabet, c: string)
    requires InAlphabet(a, c)
    ensures InAlphabet(a, Strip(c))
  {
    var r := Strip(c);
    StripIsSlice(c);
    assert forall i :: 0 <= i < |r| ==> r[i] == c[|c| - |TrimStart(c)| + i];
  }

  /** A run of non-space characters at the front of the output was copied from the front of the input. */
  lemma {:induction false} CollapseSpacesWindow(s: string, n: nat)
    ensures n <= |CollapseSpaces(s)| && (forall k :: 0 <= k < n ==> !IsSpace(CollapseSpaces(s)[k]))
            ==> n <= |s| && forall k :: 0 <= k < n ==> CollapseSpaces(s)[k] == s[k]
    decreases |s|
  {
    if s != [] && n > 0 && !IsSpace(s[0]) {
      var r, tail := CollapseSpaces(s), CollapseSpaces(s[1..]);
      assert r == [s[0]] + tail;
      CollapseSpacesWindow(s[1..], n - 1);
      if n <= |r| && forall k :: 0 <= k < n ==> !IsSpace(r[k]) {
        assert forall k :: 0 <= k < n - 1 ==> tail[k] == r[k + 1];
        assert forall k :: 0 < k < n ==> r[k] == tail[k - 1] == s[1..][k - 1];
      }
    }
  }

  /** Characters that survive collapsing are spaces or came from the allow-list. */
  lemma {:induction false} CollapseSpacesKeepsAlphabet(a: Alphabet, s: string)
    requires forall i :: 0 <= i < |s| ==> Allowed(a, s[i]) || IsSpace(s[i])
    ensures InAlphabet(a, CollapseSpaces(s))
    decreases |s|
  {
    if s != [] {
      var u := if IsSpace(s[0]) then SkipSpaces(s) else s[1..];
      AllowedOrSpaceSuffix(a, s, |s| - |u|);
      CollapseSpacesKeepsAlphabet(a, u);
      var head := if IsSpace(s[0]) then ' ' else s[0];
      assert CollapseSpaces(s) == [head] + CollapseSpaces(u);
      InAlphabetCons(a, head, CollapseSpaces(u));
    }
  }

  lemma AllowedOrSpaceSuffix(a: Alphabet, s: string, d: nat)
    requires d <= |s|
    requires forall i :: 0 <= i < |s| ==> Allowed(a, s[i]) || IsSpace(s[i])
    ensures forall i :: 0 <= i < |s| - d ==> Allowed(a, s[d..][i]) || IsSpace(s[d..][i])
  {
    forall i | 0 <= i < |s| - d ensures Allowed(a, s[d..][i]) || IsSpace(s[d..][i]) {
      assert s[d..][i] == s[d + i];
    }
  }

  lemma InAlphabetCons(a: Alphabet, c: char, t: string)
    requires c == ' ' || Allowed(a, c)
    requires InAlphabet(a, t)
    ensures InAlphabet(a, [c] + t)
  {
    var r := [c] + t;
    forall i | 0 < i < |r| ensures r[i] == ' ' || Allowed(a, r[i]) {
      assert r[i] == t[i - 1];
    }
  }

  /** Collapsing changes nothing in a text whose only whitespace is single ' ' characters. */
  lemma {:induction false} CollapseSpacesFixesSingleSpaced(s: string)
    requires forall i :: 0 <= i < |s| ==> s[i] == ' ' || !IsSpace(s[i])
    requires forall i :: 0 < i < |s| ==> !(s[i - 1] == ' ' && s[i] == ' ')
    ensures CollapseSpaces(s) == s
    decreases |s|
  {
    if s != [] {
      if IsSpace(s[0]) {
        assert SkipSpaces(s) == s[1..] by {
          assert |s| > 1 ==> !IsSpace(s[1]);
        }
      }
      CollapseSpacesFixesSingleSpaced(s[1..]);
    }
  }

  /** Pass 4 leaves a well-spaced text alone. */
  lemma WellSpacedFixesPass4(s: string)
    requires WellSpaced(s)
    ensures Strip(CollapseSpaces(s)) == s
  {
    CollapseSpacesFixesSingleSpaced(s);
    StripFixesTrimmed(s);
  }

  // ---------------------------------------------------------------------
  // The whole cleaner.

  /**
   * `clean_text`, with `alphabet == None` for a language that gets no
   * punctuation filter.
   */
  function Clean(ops: UnicodeOps, alphabet: Option<Alphabet>, text: string): (r: string)
    ensures WellSpaced(r)
    ensures alphabet.Some? ==> InAlphabet(alphabet.value, r)
  {
    var unlinked := StripMentions(ops.isWord, StripUrls(ops.lower(ops.nfkc(text))));
    var filtered := if alphabet.Some? then FilterChars(alphabet.value, unlinked) else unlinked;
    StripCollapsedIsWellSpaced(filtered);
    if alphabet.Some? then
      CollapseSpacesKeepsAlphabet(alphabet.value, filtered);
      StripKeepsAlphabet(alphabet.value, CollapseSpaces(filtered));
      Strip(CollapseSpaces(filtered))
    else
      Strip(CollapseSpaces(filtered))
  }

  /** The empty line cleans to the empty string. */
  lemma CleanEmpty(ops: UnicodeOps, alphabet: Option<Alphabet>)
    requires ops.nfkc([]) == [] && ops.lower([]) == []
    ensures Clean(ops, alphabet, []) == []
  {
  }

  // ---------------------------------------------------------------------
  // Idempotence of the cleaners that filter by an alphabet.

  /** "http" followed by a letter of the alphabet: the only match of `http\S+` a filtered text can spell. */
  predicate HttpWordAt(a: Alphabet, s: string, i: int) {
    && 0 <= i && i + 4 < |s|
    && s[i] == 'h' && s[i + 1] == 't' && s[i + 2] == 't' && s[i + 3] == 'p'
    && Allowed(a, s[i + 4])
  }

  predicate NoHttpWord(a: Alphabet, s: string) {
    forall i :: 0 <= i < |s| ==> !HttpWordAt(a, s, i)
  }

  lemma {:induction false} NoHttpWordSuffix(a: Alphabet, s: string, d: nat)
    requires NoHttpWord(a, s) && d <= |s|
    ensures NoHttpWord(a, s[d..])
  {
    forall i | 0 <= i < |s| - d ensures !HttpWordAt(a, s[d..], i) {
      assert !HttpWordAt(a, s, d + i);
    }
  }

  lemma NoHttpWordSlice(a: Alphabet, s: string, r: string, d: nat)
    requires NoHttpWord(a, s) && d + |r| <= |s| && r == s[d..d + |r|]
    ensures NoHttpWord(a, r)
  {
    forall i | 0 <= i < |r| ensures !HttpWordAt(a, r, i) {
      assert !HttpWordAt(a, s, d + i);
      assert i + 4 < |r| ==> r[i] == s[d + i] && r[i + 4] == s[d + i + 4];
    }
  }

  /** `\w` covers a-z, 0-9 and the letters of the alphabet, as Python's does. */
  ghost predicate WordCovers(a: Alphabet, isWord: char -> bool) {
    forall c :: Allowed(Latin, c) || Allowed(a, c) ==> isWord(c)
  }

  /** The first window of the output of pass 2 spells "http" + letter only if the input did. */
  lemma StripMentionsHeadHttpWord(a: Alphabet, isWord: char -> bool, s: string)
    requires WordCovers(a, isWord)
    requires s != [] && !MentionAt(isWord, s, 0)
    ensures HttpWordAt(a, StripMentions(isWord, s), 0) ==> HttpWordAt(a, s, 0)
  {
    var r, tail := StripMentions(isWord, s), StripMentions(isWord, s[1..]);
    assert r == [s[0]] + tail;
    if HttpWordAt(a, r, 0) {
      assert tail[0] == 't' && tail[1] == 't' && tail[2] == 'p';
      assert Allowed(Latin, tail[0]) && Allowed(Latin, tail[1]) && Allowed(Latin, tail[2]) && Allowed(a, tail[3]);
      assert isWord(tail[0]) && isWord(tail[1]) && isWord(tail[2]) && isWord(tail[3]);
      StripMentionsWindow(isWord, s[1..], 4);
      assert s[1] == tail[0] && s[2] == tail[1] && s[3] == tail[2] && s[4] == tail[3];
    }
  }

  /** Deleting mentions cannot join "http" to a letter or digit, since `\w` covers both. */
  lemma {:induction false} StripMentionsKeepsNoHttpWord(a: Alphabet, isWord: char -> bool, s: string)
    requires WordCovers(a, isWord)
    requires NoHttpWord(a, s)
    ensures NoHttpWord(a, StripMentions(isWord, s))
    decreases |s|
  {
    if s == [] {
    } else if MentionAt(isWord, s, 0) {
      var u := SkipWord(isWord, s[2..]);
      NoHttpWordSuffix(a, s, |s| - |u|);
      StripMentionsKeepsNoHttpWord(a, isWord, u);
    } else {
      NoHttpWordSuffix(a, s, 1);
      StripMentionsKeepsNoHttpWord(a, isWord, s[1..]);
      StripMentionsHeadHttpWord(a, isWord, s);
      var r, tail := StripMentions(isWord, s), StripMentions(isWord, s[1..]);
      assert r == [s[0]] + tail;
      forall i | 0 < i < |r| ensures !HttpWordAt(a, r, i) {
        assert !HttpWordAt(a, tail, i - 1);
      }
    }
  }

  /** The first window of a collapsed text spells "http" + letter only if the input did. */
  lemma CollapseSpacesHeadHttpWord(a: Alphabet, s: string)
    ensures HttpWordAt(a, CollapseSpaces(s), 0) ==> HttpWordAt(a, s, 0)
  {
    if s != [] && !IsSpace(s[0]) {
      var r, tail := CollapseSpaces(s), CollapseSpaces(s[1..]);
      assert r == [s[0]] + tail;
      if HttpWordAt(a, r, 0) {
        CollapseSpacesWindow(s[1..], 4);
        assert tail[..4] == s[1..5];
      }
    }
  }

  /** Collapsing whitespace cannot join "http" to a letter or digit. */
  lemma {:induction false} CollapseSpacesKeepsNoHttpWord(a: Alphabet, s: string)
    requires NoHttpWord(a, s)
    ensures NoHttpWord(a, CollapseSpaces(s))
    decreases |s|
  {
    if s != [] {
      var u, head;
      if IsSpace(s[0]) {
        u, head := SkipSpaces(s), ' ';
      } else {
        u, head := s[1..], s[0];
      }
      NoHttpWordSuffix(a, s, |s| - |u|);
      CollapseSpacesKeepsNoHttpWord(a, u);
      CollapseSpacesHeadHttpWord(a, s);
      var r, tail := CollapseSpaces(s), CollapseSpaces(u);
      assert r == [head] + tail;
      forall i | 0 < i < |r| ensures !HttpWordAt(a, r, i) {
        assert !HttpWordAt(a, tail, i - 1);
      }
    }
  }

  /**
   * The Unicode steps leave text over the alphabet alone and `\w` covers
   * its letters and digits, as in Python.
   */
  ghost predicate FixesText(ops: UnicodeOps, a: Alphabet) {
    && (forall s :: InAlphabet(a, s) ==> ops.nfkc(s) == s && ops.lower(s) == s)
    && WordCovers(a, ops.isWord)
  }

  /** Pass 1 leaves no "http" + letter. */
  lemma StripUrlsLeavesNoHttpWord(a: Alphabet, s: string)
    ensures NoHttpWord(a, StripUrls(s))
  {
    var r := StripUrls(s);
    StripUrlsLeavesNoUrl(s);
    forall i | 0 <= i < |r| ensures !HttpWordAt(a, r, i) {
      assert !UrlAt(r, i);
    }
  }

  /** A filtered window spells "http" + letter only where the input did. */
  lemma FilterCharsHttpWordAt(a: Alphabet, s: string, r: string, i: nat)
    requires |r| == |s| && i + 4 < |s|
    requires forall k :: i <= k <= i + 4 ==> r[k] == ' ' || r[k] == s[k]
    ensures HttpWordAt(a, r, i) ==> HttpWordAt(a, s, i)
  {
    assert r[i] == ' ' || r[i] == s[i];
    assert r[i + 1] == ' ' || r[i + 1] == s[i + 1];
    assert r[i + 2] == ' ' || r[i + 2] == s[i + 2];
    assert r[i + 3] == ' ' || r[i + 3] == s[i + 3];
    assert r[i + 4] == ' ' || r[i + 4] == s[i + 4];
  }

  /** Replacing characters by spaces cannot create "http" + letter. */
  lemma FilterCharsKeepsNoHttpWord(a: Alphabet, s: string)
    requires NoHttpWord(a, s)
    ensures NoHttpWord(a, FilterChars(a, s))
  {
    var r := FilterChars(a, s);
    forall i | 0 <= i < |r| ensures !HttpWordAt(a, r, i) {
      assert !HttpWordAt(a, s, i);
      if i + 4 < |r| {
        forall k | i <= k <= i + 4 ensures r[k] == ' ' || r[k] == s[k] {
          assert r[k] == (if Allowed(a, s[k]) || IsSpace(s[k]) then s[k] else ' ');
        }
        FilterCharsHttpWordAt(a, s, r, i);
      }
    }
  }

  /** Trimming the ends cannot create "http" + letter. */
  lemma StripKeepsNoHttpWord(a: Alphabet, s: string)
    requires NoHttpWord(a, s)
    ensures NoHttpWord(a, Strip(s))
  {
    var r, d := Strip(s), |s| - |TrimStart(s)|;
    StripIsSlice(s);
    assert d + |r| <= |s| && r == s[d..d + |r|];
    NoHttpWordSlice(a, s, r, d);
  }

  /** "http" + letter does not appear in a filtering cleaner's output. */
  lemma CleanLeavesNoHttpWord(ops: UnicodeOps, a: Alphabet, text: string)
    requires WordCovers(a, ops.isWord)
    ensures NoHttpWord(a, Clean(ops, Some(a), text))
  {
    var stripped := StripUrls(ops.lower(ops.nfkc(text)));
    StripUrlsLeavesNoHttpWord(a, ops.lower(ops.nfkc(text)));
    var unlinked := StripMentions(ops.isWord, stripped);
    StripMentionsKeepsNoHttpWord(a, ops.isWord, stripped);
    var filtered := FilterChars(a, unlinked);
    FilterCharsKeepsNoHttpWord(a, unlinked);
    CollapseSpacesKeepsNoHttpWord(a, filtered);
    StripKeepsNoHttpWord(a, CollapseSpaces(filtered));
  }

  /**
   * In a text over an alphabet, "http" + letter is the only shape a URL
   * match could take: "." and "@" are in no alphabet.
   */
  lemma FilteredTextUrlFree(a: Alphabet, isWord: char -> bool, s: string)
    requires InAlphabet(a, s) && NoHttpWord(a, s)
    ensures NoUrl(s) && NoMention(isWord, s)
  {
    forall i | 0 <= i < |s| ensures !UrlAt(s, i) && !MentionAt(isWord, s, i) {
      assert !HttpWordAt(a, s, i);
      assert s[i] == ' ' || Allowed(a, s[i]);
      if i + 4 < |s| {
        assert s[i + 3] == ' ' || Allowed(a, s[i + 3]);
        assert s[i + 4] == ' ' || Allowed(a, s[i + 4]);
      }
    }
  }

  /** No URL and no mention survives a filtering cleaner. */
  lemma CleanLeavesNoUrlOrMention(ops: UnicodeOps, a: Alphabet, text: string)
    requires WordCovers(a, ops.isWord)
    ensures NoUrl(Clean(ops, Some(a), text))
    ensures NoMention(ops.isWord, Clean(ops, Some(a), text))
  {
    CleanLeavesNoHttpWord(ops, a, text);
    FilteredTextUrlFree(a, ops.isWord, Clean(ops, Some(a), text));
  }

  /** The filter works character by character, so it distributes over concatenation. */
  lemma {:induction false} FilterCharsAppend(a: Alphabet, x: string, y: string)
    ensures FilterChars(a, x + y) == FilterChars(a, x) + FilterChars(a, y)
    decreases |x|
  {
    if x != [] {
      ConsSplit(x, y);
      FilterCharsAppend(a, x[1..], y);
    }
  }

  /** Pass 3 leaves text over its alphabet alone. */
  lemma FilterCharsFixesAlphabet(a: Alphabet, s: string)
    requires InAlphabet(a, s)
    ensures FilterChars(a, s) == s
  {
    forall i | 0 <= i < |s| ensures FilterChars(a, s)[i] == s[i] {
      assert s[i] == ' ' || Allowed(a, s[i]);
    }
  }

  /** "@" is in no alphabet, so text over one holds no mention. */
  lemma AlphabetTextMentionFree(a: Alphabet, isWord: char -> bool, s: string)
    requires InAlphabet(a, s)
    ensures NoMention(isWord, s)
  {
    forall i | 0 <= i < |s| ensures !MentionAt(isWord, s, i) {
      assert s[i] == ' ' || Allowed(a, s[i]);
    }
  }

  /** Well-spaced text over the alphabet that holds no URL comes through its cleaner unchanged. */
  lemma CleanFixes(ops: UnicodeOps, a: Alphabet, s: string)
    requires FixesText(ops, a)
    requires WellSpaced(s) && InAlphabet(a, s) && NoUrl(s)
    ensures Clean(ops, Some(a), s) == s
  {
    assert ops.lower(ops.nfkc(s)) == s;
    StripUrlsFixesUrlFree(s);
    AlphabetTextMentionFree(a, ops.isWord, s);
    StripMentionsFixesMentionFree(ops.isWord, s);
    FilterCharsFixesAlphabet(a, s);
    WellSpacedFixesPass4(s);
  }

  /**
   * The fixed points of a filtering cleaner are exactly the well-spaced
   * texts over its alphabet that hold no URL.
   */
  lemma CleanFixedPoints(ops: UnicodeOps, a: Alphabet, s: string)
    requires FixesText(ops, a)
    ensures Clean(ops, Some(a), s) == s <==> WellSpaced(s) && InAlphabet(a, s) && NoUrl(s)
  {
    CleanLeavesNoUrlOrMention(ops, a, s);
    if WellSpaced(s) && InAlphabet(a, s) && NoUrl(s) {
      CleanFixes(ops, a, s);
    }
  }

  /** A filtering cleaner is idempotent: cleaned text is a fixed point. */
  lemma CleanIdempotent(ops: UnicodeOps, a: Alphabet, text: string)
    requires FixesText(ops, a)
    ensures Clean(ops, Some(a), Clean(ops, Some(a), text)) == Clean(ops, Some(a), text)
  {
    CleanLeavesNoUrlOrMention(ops, a, text);
    CleanFixes(ops, a, Clean(ops, Some(a), text));
  }

  /** A space followed by a word over the alphabet comes through passes 1 to 3 unchanged. */
  lemma SpacedWordPassesUnchanged(isWord: char -> bool, a: Alphabet, w: string)
    requires forall i :: 0 <= i < |w| ==> Allowed(a, w[i])
    requires NoUrl(w)
    ensures FilterChars(a, StripMentions(isWord, StripUrls(" " + w))) == " " + w
  {
    var t := " " + w;
    forall i | 0 <= i < |t| ensures !UrlAt(t, i) && t[i] != '@' && (t[i] == ' ' || Allowed(a, t[i])) {
      if i > 0 {
        assert t[i] == w[i - 1];
        assert UrlAt(t, i) ==> UrlAt(w, i - 1);
      }
    }
    StripUrlsFixesUrlFree(t);
    StripMentionsCopiesPrefix(isWord, t, []);
    assert t + [] == t;
    FilterCharsFixesAlphabet(a, t);
  }

  /** No alphabet holds a whitespace character. */
  lemma AllowedIsNotSpace(a: Alphabet, c: char)
    requires Allowed(a, c)
    ensures !IsSpace(c) && c != ' '
  {
  }

  /** A space and a word over an alphabet are already single-spaced. */
  lemma SpacedWordCollapse(a: Alphabet, t: string)
    requires t != [] && t[0] == ' ' && forall i :: 1 <= i < |t| ==> Allowed(a, t[i])
    ensures CollapseSpaces(t) == t
  {
    forall i | 1 <= i < |t| ensures !IsSpace(t[i]) && t[i] != ' ' {
      AllowedIsNotSpace(a, t[i]);
    }
    CollapseSpacesFixesSingleSpaced(t);
  }

  /** Pass 4 trims the space in front of a word. */
  lemma SpacedWordPass4(a: Alphabet, w: string, t: string)
    requires w != [] && forall i :: 0 <= i < |w| ==> Allowed(a, w[i])
    requires t == [' '] + w
    ensures Strip(CollapseSpaces(t)) == w
  {
    forall i | 1 <= i < |t| ensures Allowed(a, t[i]) {
      assert t[i] == w[i - 1];
    }
    SpacedWordCollapse(a, t);
    assert CollapseSpaces(t) == t;
    AllowedIsNotSpace(a, w[0]);
    AllowedIsNotSpace(a, w[|w| - 1]);
    assert t[1..] == w;
    assert TrimStart(t) == w;
    assert TrimEnd(w) == w;
  }

  /**
   * URLs are deleted after the Unicode steps: when the normalised text is
   * a URL, a space and a word over the alphabet, the URL goes whole, the
   * space in front of the word is trimmed, and the word is all that is left
   * ("HTTP://X.COM now" cleans to "now").
   */
  lemma CleanDeletesLeadingUrl(ops: UnicodeOps, a: Alphabet, text: string, u: string, w: string)
    requires ops.lower(ops.nfkc(text)) == u + " " + w
    requires UrlAt(u, 0) && forall i :: 0 <= i < |u| ==> !IsSpace(u[i])
    requires w != [] && forall i :: 0 <= i < |w| ==> Allowed(a, w[i])
    requires NoUrl(w)
    ensures Clean(ops, Some(a), text) == w
  {
    assert u + " " + w == u + (" " + w);
    StripUrlsDeletesUrl(u, " " + w);
    SpacedWordPassesUnchanged(ops.isWord, a, w);
    SpacedWordPass4(a, w, " " + w);
  }
}
