/** Text normalisation shared by indexing and querying: the regex tokenizer
    (`tokenize`), the stopword filter and the lemma key of a token. */
module Text {

  datatype Option<+T> = None | Some(value: T)

  /** The collaborators the engine calls but does not define. Each is a total
      function whose behaviour the model does not fix. */
  datatype Normalizer = Normalizer(
    stopWords: set<string>,                // the loaded stopword list, compared case-sensitively
    lemmatize: string -> string,           // simplemma.lemmatize(_, lang, greedy=True)
    fixContractions: string -> string,     // contractions.fix
    stripLinks: string -> string,          // the text half of extract_links
    unicodeWord: char -> bool)             // Python's `\w` on characters outside ASCII

  predicate IsAsciiLetter(c: char) {
    'a' <= c <= 'z' || 'A' <= c <= 'Z'
  }

  /** Python's `\w` on a str pattern: ASCII letters and digits, underscore,
      and the non-ASCII alphanumerics. */
  predicate IsWordChar(c: char, unicodeWord: char -> bool) {
    IsAsciiLetter(c) || '0' <= c <= '9' || c == '_' || (c as int > 127 && unicodeWord(c))
  }

  predicate AllLetters(s: string, i: int, j: int)
    requires 0 <= i <= j <= |s|
  {
    forall k :: i <= k < j ==> IsAsciiLetter(s[k])
  }

  /** `\b[a-zA-Z]+\b` matches exactly `s[i..j]`: a non-empty run of ASCII
      letters with a non-word character (or the end of the text) on each side. */
  predicate IsTokenSpan(s: string, i: int, j: int, unicodeWord: char -> bool) {
    && 0 <= i < j <= |s|
    && (i == 0 || !IsWordChar(s[i - 1], unicodeWord))
    && (j == |s| || !IsWordChar(s[j], unicodeWord))
    && AllLetters(s, i, j)
  }

  /** The end of the run of word characters that starts at `i`. */
  function WordEnd(s: string, i: nat, unicodeWord: char -> bool): (j: nat)
    requires i <= |s|
    ensures i <= j <= |s|
    ensures forall k :: i <= k < j ==> IsWordChar(s[k], unicodeWord)
    ensures j == |s| || !IsWordChar(s[j], unicodeWord)
    decreases |s| - i
  {
    if i == |s| || !IsWordChar(s[i], unicodeWord) then i else WordEnd(s, i + 1, unicodeWord)
  }

  /** A scan position at which a new word may start. */
  predicate Boundary(s: string, i: nat, unicodeWord: char -> bool)
    requires i <= |s|
  {
    i == 0 || i == |s| || !IsWordChar(s[i - 1], unicodeWord) || !IsWordChar(s[i], unicodeWord)
  }

  /** The spans `re.findall` reports from position `i` on: every maximal run of
      word characters that holds only ASCII letters, in text order. */
  function SpansFrom(s: string, i: nat, unicodeWord: char -> bool): seq<(nat, nat)>
    requires i <= |s|
    decreases |s| - i
  {
    if i == |s| then []
    else if !IsWordChar(s[i], unicodeWord) then SpansFrom(s, i + 1, unicodeWord)
    else
      var j := WordEnd(s, i, unicodeWord);
      (if AllLetters(s, i, j) then [(i, j)] else []) + SpansFrom(s, j, unicodeWord)
  }

  /** Every span lies at or after `i`, holds only letters, has a non-word
      character (or the edge of the scan) on each side, and the spans come in
      strictly increasing order. */
  predicate WellFormedSpans(s: string, i: nat, spans: seq<(nat, nat)>, unicodeWord: char -> bool) {
    && (forall k :: 0 <= k < |spans| ==> GoodSpan(s, i, spans[k], unicodeWord))
    && (forall k :: 0 <= k < |spans| - 1 ==> spans[k].1 < spans[k + 1].0)
  }

  /** One reported span, scanning from `i`. */
  predicate GoodSpan(s: string, i: nat, span: (nat, nat), unicodeWord: char -> bool) {
    && i <= span.0 < span.1 <= |s|
    && AllLetters(s, span.0, span.1)
    && (span.0 == i || !IsWordChar(s[span.0 - 1], unicodeWord))
    && (span.1 == |s| || !IsWordChar(s[span.1], unicodeWord))
  }

  /** A span found from `j` is also one found from an earlier `i`, when the
      scan passes a non-word character (or the end) at `j`. */
  lemma GoodSpanFromEarlier(s: string, i: nat, j: nat, span: (nat, nat), unicodeWord: char -> bool)
    requires i <= j <= |s| && (j == |s| || !IsWordChar(s[j], unicodeWord) || i == j)
    requires GoodSpan(s, j, span, unicodeWord)
    ensures GoodSpan(s, i, span, unicodeWord) && (i < j ==> j < span.0)
  {
    assert IsAsciiLetter(s[span.0]);
  }

  lemma {:induction false} SpansWellFormed(s: string, i: nat, unicodeWord: char -> bool)
    requires i <= |s|
    ensures WellFormedSpans(s, i, SpansFrom(s, i, unicodeWord), unicodeWord)
    decreases |s| - i
  {
    if i < |s| {
      if !IsWordChar(s[i], unicodeWord) {
        SpansWellFormed(s, i + 1, unicodeWord);
        assert SpansFrom(s, i, unicodeWord) == SpansFrom(s, i + 1, unicodeWord);
        SkipNonWord(s, i, SpansFrom(s, i + 1, unicodeWord), unicodeWord);
      } else {
        var j := WordEnd(s, i, unicodeWord);
        SpansWellFormed(s, j, unicodeWord);
        var tail := SpansFrom(s, j, unicodeWord);
        if AllLetters(s, i, j) {
          assert SpansFrom(s, i, unicodeWord) == [(i, j)] + tail;
          ConsSpan(s, i, j, tail, unicodeWord);
        } else {
          assert SpansFrom(s, i, unicodeWord) == tail;
          SkipWord(s, i, j, tail, unicodeWord);
        }
      }
    }
  }

  lemma SkipNonWord(s: string, i: nat, spans: seq<(nat, nat)>, unicodeWord: char -> bool)
    requires i < |s| && !IsWordChar(s[i], unicodeWord)
    requires WellFormedSpans(s, i + 1, spans, unicodeWord)
    ensures WellFormedSpans(s, i, spans, unicodeWord)
  {
    forall k | 0 <= k < |spans| ensures GoodSpan(s, i, spans[k], unicodeWord) {
      assert GoodSpan(s, i + 1, spans[k], unicodeWord);
    }
  }

  lemma SkipWord(s: string, i: nat, j: nat, spans: seq<(nat, nat)>, unicodeWord: char -> bool)
    requires i < j <= |s|
    requires j == |s| || !IsWordChar(s[j], unicodeWord)
    requires WellFormedSpans(s, j, spans, unicodeWord)
    ensures WellFormedSpans(s, i, spans, unicodeWord)
  {
    forall k | 0 <= k < |spans| ensures GoodSpan(s, i, spans[k], unicodeWord) {
      GoodSpanFromEarlier(s, i, j, spans[k], unicodeWord);
    }
  }

  lemma ConsSpan(s: string, i: nat, j: nat, spans: seq<(nat, nat)>, unicodeWord: char -> bool)
    requires i < j <= |s| && AllLetters(s, i, j)
    requires j == |s| || !IsWordChar(s[j], unicodeWord)
    requires WellFormedSpans(s, j, spans, unicodeWord)
    ensures WellFormedSpans(s, i, [(i, j)] + spans, unicodeWord)
  {
    var r := [(i, j)] + spans;
    forall k | 0 <= k < |r| ensures GoodSpan(s, i, r[k], unicodeWord) {
      if k > 0 {
        assert r[k] == spans[k - 1];
        GoodSpanFromEarlier(s, i, j, spans[k - 1], unicodeWord);
      }
    }
    forall k | 0 <= k < |r| - 1 ensures r[k].1 < r[k + 1].0 {
      assert r[k + 1] == spans[k];
      if k > 0 {
        assert r[k] == spans[k - 1];
      } else {
        GoodSpanFromEarlier(s, i, j, spans[0], unicodeWord);
      }
    }
  }

  /** Every regex match that starts at or after a boundary position `i` is
      among the spans reported from `i`. */
  lemma {:induction false} SpansComplete(s: string, i: nat, unicodeWord: char -> bool, a: int, b: int)
    requires i <= |s| && Boundary(s, i, unicodeWord)
    requires i <= a && IsTokenSpan(s, a, b, unicodeWord)
    ensures (a, b) in SpansFrom(s, i, unicodeWord)
    decreases |s| - i
  {
    if i < |s| {
      if !IsWordChar(s[i], unicodeWord) {
        assert a != i;
        SpansComplete(s, i + 1, unicodeWord, a, b);
      } else {
        var j := WordEnd(s, i, unicodeWord);
        if a < j {
          assert a == i;
          assert b == j;
          assert (a, b) == SpansFrom(s, i, unicodeWord)[0];
        } else {
          SpansComplete(s, j, unicodeWord, a, b);
        }
      }
    }
  }

  /** `tokenize`: the words of `s` in text order. */
  function Tokenize(s: string, unicodeWord: char -> bool): (tokens: seq<string>)
    ensures forall k :: 0 <= k < |tokens| ==>
      tokens[k] != [] && forall c :: c in tokens[k] ==> IsAsciiLetter(c)
  {
    SpansWellFormed(s, 0, unicodeWord);
    var spans := SpansFrom(s, 0, unicodeWord);
    seq(|spans|, k requires 0 <= k < |spans| => s[spans[k].0..spans[k].1])
  }

  /** The tokens are exactly the texts of the regex matches of `\b[a-zA-Z]+\b`,
      taken left to right: every reported span is a match, spans come in
      increasing order and do not overlap, and no match is missed. */
  lemma TokenizeIsRegexFindall(s: string, unicodeWord: char -> bool)
    ensures var spans := SpansFrom(s, 0, unicodeWord);
      && |Tokenize(s, unicodeWord)| == |spans|
      && (forall k :: 0 <= k < |spans| ==>
            IsTokenSpan(s, spans[k].0, spans[k].1, unicodeWord)
            && Tokenize(s, unicodeWord)[k] == s[spans[k].0..spans[k].1])
      && (forall k :: 0 <= k < |spans| - 1 ==> spans[k].1 < spans[k + 1].0)
      && (forall a, b :: IsTokenSpan(s, a, b, unicodeWord) ==> (a, b) in spans)
  {
    SpansWellFormed(s, 0, unicodeWord);
    forall a, b | IsTokenSpan(s, a, b, unicodeWord)
      ensures (a, b) in SpansFrom(s, 0, unicodeWord)
    {
      SpansComplete(s, 0, unicodeWord, a, b);
    }
  }

  /** `str.lower()` on a token; tokens hold only ASCII letters. */
  function Lower(t: string): string {
    seq(|t|, k requires 0 <= k < |t| =>
      if 'A' <= t[k] <= 'Z' then (t[k] as int + 32) as char else t[k])
  }

  /** The filter applied to each raw token: non-empty and not a stopword. The
      stopword test is on the token as written, before lowering. */
  predicate Kept(t: string, nz: Normalizer) {
    t != "" && t !in nz.stopWords
  }

  /** The index key of a token: its lowered lemma. */
  function Key(t: string, nz: Normalizer): string {
    nz.lemmatize(Lower(t))
  }

  /** The tokens of a document's content: links stripped, contractions
      expanded, then tokenized. */
  function DocumentTokens(content: string, nz: Normalizer): seq<string> {
    Tokenize(nz.fixContractions(nz.stripLinks(content)), nz.unicodeWord)
  }

  /** The tokens of a query phrase: contractions expanded, then tokenized
      (links are not stripped from a query). */
  function PhraseTokens(phrase: string, nz: Normalizer): seq<string> {
    Tokenize(nz.fixContractions(phrase), nz.unicodeWord)
  }

  /** The query terms: the key of every kept token, in token order. */
  function Terms(tokens: seq<string>, nz: Normalizer): (terms: seq<string>)
    ensures |terms| <= |tokens|
    ensures forall t :: t in terms <==>
      exists p :: 0 <= p < |tokens| && Kept(tokens[p], nz) && t == Key(tokens[p], nz)
    decreases |tokens|
  {
    if tokens == [] then []
    else
      var n := |tokens| - 1;
      var init := Terms(tokens[..n], nz);
      assert forall p :: 0 <= p < n ==> tokens[..n][p] == tokens[p];
      init + (if Kept(tokens[n], nz) then [Key(tokens[n], nz)] else [])
  }

  /** One more phrase token adds its key to the query terms when it is kept. */
  lemma TermsAppend(tokens: seq<string>, t: string, nz: Normalizer)
    ensures Terms(tokens + [t], nz) == Terms(tokens, nz) + (if Kept(t, nz) then [Key(t, nz)] else [])
  {
    assert (tokens + [t])[..|tokens|] == tokens;
  }

  /** `ps` lists, strictly ascending, exactly the offsets of the kept tokens,
      and `terms[i]` is the key of the token at `ps[i]`: one term per kept
      token, in token order. */
  predicate KeptIndexing(tokens: seq<string>, terms: seq<string>, ps: seq<int>, nz: Normalizer) {
    && |ps| == |terms|
    && (forall i :: 0 <= i < |ps| ==>
          0 <= ps[i] < |tokens| && Kept(tokens[ps[i]], nz) && terms[i] == Key(tokens[ps[i]], nz))
    && (forall a, b :: 0 <= a < b < |ps| ==> ps[a] < ps[b])
    && (forall p :: 0 <= p < |tokens| && Kept(tokens[p], nz) ==> p in ps)
  }

  /** The query terms are the keys of the kept tokens, one each and in the
      order of the tokens. */
  lemma {:induction false} TermsFollowTokens(tokens: seq<string>, nz: Normalizer)
    ensures exists ps :: KeptIndexing(tokens, Terms(tokens, nz), ps, nz)
    decreases |tokens|
  {
    if tokens == [] {
      assert KeptIndexing(tokens, Terms(tokens, nz), [], nz);
    } else {
      var n := |tokens| - 1;
      var init := tokens[..n];
      TermsFollowTokens(init, nz);
      var ps :| KeptIndexing(init, Terms(init, nz), ps, nz);
      assert init + [tokens[n]] == tokens;
      TermsAppend(init, tokens[n], nz);
      KeptIndexingExtend(init, tokens[n], Terms(init, nz), ps, nz);
    }
  }

  lemma KeptIndexingExtend(tokens: seq<string>, t: string, terms: seq<string>, ps: seq<int>, nz: Normalizer)
    requires KeptIndexing(tokens, terms, ps, nz)
    ensures KeptIndexing(tokens + [t], terms + (if Kept(t, nz) then [Key(t, nz)] else []),
      ps + (if Kept(t, nz) then [|tokens|] else []), nz)
  {
    var tokens', n := tokens + [t], |tokens|;
    assert forall p :: 0 <= p < n ==> tokens'[p] == tokens[p];
    if Kept(t, nz) {
      var terms', ps' := terms + [Key(t, nz)], ps + [n];
      assert forall i :: 0 <= i < |ps| ==> ps'[i] == ps[i] && terms'[i] == terms[i];
      assert forall p :: 0 <= p < n && Kept(tokens'[p], nz) ==> p in ps';
    }
  }

  /** The `for word in phrase_array` loop of `search_in_dir`: each non-empty,
      non-stopword token appends its lowered lemma. */
  method FilterPhrase(phraseArray: seq<string>, nz: Normalizer) returns (filtredPhrase: seq<string>)
    ensures filtredPhrase == Terms(phraseArray, nz)
  {
    filtredPhrase := [];
    for i := 0 to |phraseArray|
      invariant filtredPhrase == Terms(phraseArray[..i], nz)
    {
      var word := phraseArray[i];
      TermsAppend(phraseArray[..i], word, nz);
      assert phraseArray[..i] + [word] == phraseArray[..i + 1];
      if word != "" && word !in nz.stopWords {
        filtredPhrase := filtredPhrase + [nz.lemmatize(Lower(word))];
      }
    }
    assert phraseArray[..|phraseArray|] == phraseArray;
  }
}
