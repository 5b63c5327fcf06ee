/** Two small documents and two phrases, proved about the model with a
    concrete normaliser: English stopword "the", lemmas equal to the lowered
    word, no contractions and no links. */
module Scenarios {
  import opened Text
  import opened Postings
  import opened InvertedIndex
  import opened Query

  function Same(s: string): string { s }

  const Plain: Normalizer := Normalizer({"the"}, Same, Same, Same, c => false)

  const Text1: string := "the quick brown fox"
  const Text2: string := "the quick red fox runs"

  const Doc1: seq<string> := ["the", "quick", "brown", "fox"]
  const Doc2: seq<string> := ["the", "quick", "red", "fox", "runs"]

  function Corpus(): seq<Document> {
    [Document("doc1", PostingsOf(DocumentTokens(Text1, Plain), Plain)),
     Document("doc2", PostingsOf(DocumentTokens(Text2, Plain), Plain))]
  }

  /** The run of letters from `i` to a space or the end of the text ends at `j`. */
  lemma {:induction false} WordEndAt(s: string, i: nat, j: nat, u: char -> bool)
    requires i <= j <= |s| && AllLetters(s, i, j)
    requires j == |s| || s[j] == ' '
    ensures WordEnd(s, i, u) == j
    decreases j - i
  {
    if i < j {
      WordEndAt(s, i + 1, j, u);
    }
  }

  /** `spans` are the words of `s`, single spaces between them and none at
      either end. */
  predicate Spaced(s: string, spans: seq<(nat, nat)>)
    decreases |spans|
  {
    if spans == [] then true
    else
      var (i, j) := spans[0];
      && i < j <= |s| && AllLetters(s, i, j)
      && (if |spans| == 1 then j == |s| else j < |s| && s[j] == ' ' && spans[1].0 == j + 1)
      && Spaced(s, spans[1..])
  }

  /** The scan of a text of letter words separated by single spaces reports
      every word. */
  lemma {:induction false} SpacedSpans(s: string, spans: seq<(nat, nat)>, u: char -> bool)
    requires spans != [] && Spaced(s, spans)
    ensures SpansFrom(s, spans[0].0, u) == spans
    decreases |spans|
  {
    var (i, j) := spans[0];
    WordEndAt(s, i, j, u);
    if |spans| == 1 {
      assert SpansFrom(s, j, u) == [];
    } else {
      SpacedSpans(s, spans[1..], u);
      assert SpansFrom(s, j, u) == SpansFrom(s, j + 1, u);
      assert spans == [(i, j)] + spans[1..];
    }
  }

  /** A text of letter words separated by single spaces tokenizes to its
      words. */
  lemma SpacedTokens(s: string, spans: seq<(nat, nat)>, words: seq<string>, u: char -> bool)
    requires spans != [] && spans[0].0 == 0 && Spaced(s, spans) && |words| == |spans|
    requires forall k :: 0 <= k < |spans| ==>
      spans[k].0 <= spans[k].1 <= |s| && s[spans[k].0..spans[k].1] == words[k]
    ensures Tokenize(s, u) == words
  {
    SpacedSpans(s, spans, u);
  }

  const Spans1: seq<(nat, nat)> := [(0, 3), (4, 9), (10, 15), (16, 19)]
  const Spans2: seq<(nat, nat)> := [(0, 3), (4, 9), (10, 13), (14, 17), (18, 22)]

  /** The last word of a text. */
  lemma SpacedLast(s: string, i: nat)
    requires i < |s| && AllLetters(s, i, |s|)
    ensures Spaced(s, [(i, |s|)])
  {
  }

  /** A word followed by a space in front of the spaced words `rest`. */
  lemma SpacedCons(s: string, i: nat, j: nat, rest: seq<(nat, nat)>)
    requires i < j < |s| && AllLetters(s, i, j) && s[j] == ' '
    requires rest != [] && rest[0].0 == j + 1 && Spaced(s, rest)
    ensures Spaced(s, [(i, j)] + rest)
  {
    assert ([(i, j)] + rest)[1..] == rest;
  }

  /** The characters of the first text: four letter words, single spaces. */
  lemma Text1Chars(s: string)
    requires s == Text1
    ensures |s| == 19 && s[3] == ' ' && s[9] == ' ' && s[15] == ' '
    ensures AllLetters(s, 0, 3) && AllLetters(s, 4, 9) && AllLetters(s, 10, 15) && AllLetters(s, 16, 19)
    ensures s[0..3] == "the" && s[4..9] == "quick" && s[10..15] == "brown" && s[16..19] == "fox"
  {
  }

  /** The characters of the second text: five letter words, single spaces. */
  lemma Text2Chars(s: string)
    requires s == Text2
    ensures |s| == 22 && s[3] == ' ' && s[9] == ' ' && s[13] == ' ' && s[17] == ' '
    ensures AllLetters(s, 0, 3) && AllLetters(s, 4, 9) && AllLetters(s, 10, 13)
    ensures AllLetters(s, 14, 17) && AllLetters(s, 18, 22)
    ensures s[0..3] == "the" && s[4..9] == "quick" && s[10..13] == "red"
    ensures s[14..17] == "fox" && s[18..22] == "runs"
  {
  }

  lemma Layout1(s: string)
    requires |s| == 19 && s[3] == ' ' && s[9] == ' ' && s[15] == ' '
    requires AllLetters(s, 0, 3) && AllLetters(s, 4, 9) && AllLetters(s, 10, 15) && AllLetters(s, 16, 19)
    ensures Spaced(s, Spans1)
  {
    SpacedLast(s, 16);
    SpacedCons(s, 10, 15, [(16, 19)]);
    SpacedCons(s, 4, 9, [(10, 15), (16, 19)]);
    SpacedCons(s, 0, 3, [(4, 9), (10, 15), (16, 19)]);
  }

  lemma Layout2(s: string)
    requires |s| == 22 && s[3] == ' ' && s[9] == ' ' && s[13] == ' ' && s[17] == ' '
    requires AllLetters(s, 0, 3) && AllLetters(s, 4, 9) && AllLetters(s, 10, 13)
    requires AllLetters(s, 14, 17) && AllLetters(s, 18, 22)
    ensures Spaced(s, Spans2)
  {
    SpacedLast(s, 18);
    SpacedCons(s, 14, 17, [(18, 22)]);
    SpacedCons(s, 10, 13, [(14, 17), (18, 22)]);
    SpacedCons(s, 4, 9, [(10, 13), (14, 17), (18, 22)]);
    SpacedCons(s, 0, 3, [(4, 9), (10, 13), (14, 17), (18, 22)]);
  }

  /** The first document's text tokenizes to its four words. */
  lemma Text1Tokens()
    ensures DocumentTokens(Text1, Plain) == Doc1
  {
    Text1Chars(Text1);
    Layout1(Text1);
    SpacedTokens(Text1, Spans1, Doc1, Plain.unicodeWord);
  }

  /** The second document's text tokenizes to its five words. */
  lemma Text2Tokens()
    ensures DocumentTokens(Text2, Plain) == Doc2
  {
    Text2Chars(Text2);
    Layout2(Text2);
    SpacedTokens(Text2, Spans2, Doc2, Plain.unicodeWord);
  }

  /** Lowering a lower-case word leaves it as it is. */
  lemma LowerKeepsLowercase(t: string)
    requires forall k :: 0 <= k < |t| ==> 'a' <= t[k] <= 'z'
    ensures Lower(t) == t
  {
  }

  lemma KeysOfWords()
    ensures Key("quick", Plain) == "quick" && Key("fox", Plain) == "fox"
    ensures Key("brown", Plain) == "brown" && Key("runs", Plain) == "runs"
    ensures Key("red", Plain) == "red" && Key("the", Plain) == "the"
  {
    LowerKeepsLowercase("quick");
    LowerKeepsLowercase("fox");
    LowerKeepsLowercase("brown");
    LowerKeepsLowercase("runs");
    LowerKeepsLowercase("red");
    LowerKeepsLowercase("the");
  }

  /** A word that no token of `tokens` has as its key is absent from the
      posting map. */
  lemma Absent(tokens: seq<string>, w: string)
    requires forall p :: 0 <= p < |tokens| ==> !Kept(tokens[p], Plain) || Key(tokens[p], Plain) != w
    ensures w !in PostingsOf(tokens, Plain)
  {
  }

  /** A document whose tokens hold "quick" at offset 1 and "fox" at offset 3
      matches "quick fox". */
  lemma QuickFoxMatches(id: string, tokens: seq<string>)
    requires |tokens| >= 4 && tokens[1] == "quick" && tokens[3] == "fox"
    ensures Matches(Document(id, PostingsOf(tokens, Plain)), ["quick", "fox"])
  {
    LowerKeepsLowercase("quick");
    LowerKeepsLowercase("fox");
    assert "quick" != "the" && "fox" != "the";
    PositionListed(tokens, 1, "quick");
    PositionListed(tokens, 3, "fox");
    NearPairMatches(Document(id, PostingsOf(tokens, Plain)), "quick", "fox", 1, 3);
  }

  /** A document holding two terms at positions closer than PROXIMITY
      matches the two-term query. */
  lemma NearPairMatches(doc: Document, t0: string, t1: string, p0: int, p1: int)
    requires t0 in doc.postings && p0 in doc.postings[t0]
    requires t1 in doc.postings && p1 in doc.postings[t1]
    requires Dist(p0, p1) < PROXIMITY
    ensures Matches(doc, [t0, t1])
  {
    assert IsChain([p0, p1], TermLists(doc, [t0, t1]));
  }

  /** A kept token's offset is listed under its key. */
  lemma PositionListed(tokens: seq<string>, p: int, w: string)
    requires 0 <= p < |tokens| && Kept(tokens[p], Plain) && Key(tokens[p], Plain) == w
    ensures w in PostingsOf(tokens, Plain) && p in PostingsOf(tokens, Plain)[w]
  {
  }

  const Phrase1: string := "quick fox"
  const Phrase2: string := "brown runs"

  /** Two letter words separated by one space. */
  lemma TwoWordLayout(s: string, j: nat)
    requires 0 < j && j + 1 < |s| && s[j] == ' ' && AllLetters(s, 0, j) && AllLetters(s, j + 1, |s|)
    ensures Spaced(s, [(0, j), (j + 1, |s|)])
  {
    SpacedLast(s, j + 1);
    SpacedCons(s, 0, j, [(j + 1, |s|)]);
  }

  lemma Phrase1Chars(s: string)
    requires s == Phrase1
    ensures |s| == 9 && s[5] == ' ' && AllLetters(s, 0, 5) && AllLetters(s, 6, 9)
    ensures s[0..5] == "quick" && s[6..9] == "fox"
  {
  }

  lemma Phrase2Chars(s: string)
    requires s == Phrase2
    ensures |s| == 10 && s[5] == ' ' && AllLetters(s, 0, 5) && AllLetters(s, 6, 10)
    ensures s[0..5] == "brown" && s[6..10] == "runs"
  {
  }

  /** The phrase "quick fox" tokenizes to its two words. */
  lemma QuickFoxTokens(phrase: string)
    requires phrase == Phrase1
    ensures PhraseTokens(phrase, Plain) == ["quick", "fox"]
  {
    Phrase1Chars(phrase);
    TwoWordLayout(phrase, 5);
    SpacedTokens(phrase, [(0, 5), (6, 9)], ["quick", "fox"], Plain.unicodeWord);
  }

  /** The phrase "brown runs" tokenizes to its two words. */
  lemma BrownRunsTokens(phrase: string)
    requires phrase == Phrase2
    ensures PhraseTokens(phrase, Plain) == ["brown", "runs"]
  {
    Phrase2Chars(phrase);
    TwoWordLayout(phrase, 5);
    SpacedTokens(phrase, [(0, 5), (6, 10)], ["brown", "runs"], Plain.unicodeWord);
  }

  /** Neither query word is a stopword, so the query terms are the words. */
  lemma QuickFoxTerms()
    ensures Terms(["quick", "fox"], Plain) == ["quick", "fox"]
  {
    assert "quick" != "the" && "fox" != "the";
    TermsOfTwo("quick", "fox");
  }

  lemma BrownRunsTerms()
    ensures Terms(["brown", "runs"], Plain) == ["brown", "runs"]
  {
    assert "brown" != "the" && "runs" != "the";
    TermsOfTwo("brown", "runs");
  }

  /** Two kept lower-case words are their own query terms. */
  lemma TermsOfTwo(a: string, b: string)
    requires a != "" && a != "the" && b != "" && b != "the"
    requires forall k :: 0 <= k < |a| ==> 'a' <= a[k] <= 'z'
    requires forall k :: 0 <= k < |b| ==> 'a' <= b[k] <= 'z'
    ensures Terms([a, b], Plain) == [a, b]
  {
    LowerKeepsLowercase(a);
    LowerKeepsLowercase(b);
    TermsAppend([], a, Plain);
    TermsAppend([a], b, Plain);
    assert [] + [a] == [a] && [a] + [b] == [a, b];
  }

  /** "quick fox" matches both documents: "quick" at offset 1 and "fox" at
      offset 3, a distance of 2 (and "the" still counts as an offset). */
  lemma QuickFoxMatchesBoth()
    ensures Matches(Corpus()[0], ["quick", "fox"]) && Matches(Corpus()[1], ["quick", "fox"])
  {
    Text1Tokens();
    Text2Tokens();
    QuickFoxMatches("doc1", Doc1);
    QuickFoxMatches("doc2", Doc2);
  }

  /** A document lacking one of the query terms does not match. */
  lemma MissingTermNoMatch(doc: Document, terms: seq<string>, j: int)
    requires 0 <= j < |terms| && terms[j] !in doc.postings
    ensures !Matches(doc, terms)
  {
  }

  /** In a text of lower-case words, a word that is not one of them has no
      postings. */
  lemma WordNotInText(tokens: seq<string>, w: string)
    requires forall p, k :: 0 <= p < |tokens| && 0 <= k < |tokens[p]| ==> 'a' <= tokens[p][k] <= 'z'
    requires w !in tokens
    ensures w !in PostingsOf(tokens, Plain)
  {
    forall p | 0 <= p < |tokens| ensures Key(tokens[p], Plain) != w {
      LowerKeepsLowercase(tokens[p]);
    }
    Absent(tokens, w);
  }

  /** "brown runs" matches neither document: no document holds both words. */
  lemma BrownRunsMatchesNeither()
    ensures !Matches(Corpus()[0], ["brown", "runs"]) && !Matches(Corpus()[1], ["brown", "runs"])
  {
    Text1Tokens();
    Text2Tokens();
    RunsNotInDoc1();
    BrownNotInDoc2();
    MissingTermNoMatch(Corpus()[0], ["brown", "runs"], 1);
    MissingTermNoMatch(Corpus()[1], ["brown", "runs"], 0);
  }

  lemma RunsNotInDoc1()
    ensures "runs" !in PostingsOf(Doc1, Plain)
  {
    assert "the" != "runs" && "quick" != "runs" && "brown" != "runs" && "fox" != "runs";
    WordNotInText(Doc1, "runs");
  }

  lemma BrownNotInDoc2()
    ensures "brown" !in PostingsOf(Doc2, Plain)
  {
    assert "the" != "brown" && "quick" != "brown" && "red" != "brown" && "fox" != "brown" && "runs" != "brown";
    WordNotInText(Doc2, "brown");
  }

  lemma OneOfTwo(docs: seq<Document>, doc: Document)
    requires |docs| == 2 && doc in docs
    ensures doc == docs[0] || doc == docs[1]
  {
  }

  /** Over an index of two documents with distinct ids, a query both match
      returns exactly their two ids. */
  lemma TwoMatchesReturned(docs: seq<Document>, terms: seq<string>, listing: seq<string>)
    requires |docs| == 2 && docs[0].id != docs[1].id && terms != []
    requires Matches(docs[0], terms) && Matches(docs[1], terms)
    requires IsListing(listing, MergeAll(map[], docs), terms)
    ensures forall id :: id in Survivors(MergeAll(map[], docs), terms, listing) <==>
      id == docs[0].id || id == docs[1].id
  {
    forall id | id in Survivors(MergeAll(map[], docs), terms, listing)
      ensures id == docs[0].id || id == docs[1].id
    {
      var doc := SurvivorIsMatching(docs, terms, listing, id);
      OneOfTwo(docs, doc);
    }
    MatchingSurvives(docs, terms, listing, docs[0]);
    MatchingSurvives(docs, terms, listing, docs[1]);
  }

  /** Over an index of two documents with distinct ids, a query neither
      matches returns nothing. */
  lemma NoMatchReturnsNone(docs: seq<Document>, terms: seq<string>, listing: seq<string>)
    requires |docs| == 2 && docs[0].id != docs[1].id && terms != []
    requires !Matches(docs[0], terms) && !Matches(docs[1], terms)
    requires IsListing(listing, MergeAll(map[], docs), terms)
    ensures forall id :: id !in Survivors(MergeAll(map[], docs), terms, listing)
  {
    SurvivorsAreMatchingDocuments(docs, terms, listing);
  }

  /** Over the index of the two texts, the terms `quick`, `fox` select both
      documents, whatever order the candidates are listed in. */
  lemma QuickFoxSelectsBoth(terms: seq<string>, listing: seq<string>)
    requires terms == ["quick", "fox"]
    requires IsListing(listing, MergeAll(map[], Corpus()), terms)
    ensures forall id :: id in Survivors(MergeAll(map[], Corpus()), terms, listing) <==>
      id == "doc1" || id == "doc2"
  {
    QuickFoxMatchesBoth();
    TwoMatchesReturned(Corpus(), terms, listing);
  }

  /** Over the index of the two texts, the terms `brown`, `runs` select
      nothing. */
  lemma BrownRunsSelectsNone(terms: seq<string>, listing: seq<string>)
    requires terms == ["brown", "runs"]
    requires IsListing(listing, MergeAll(map[], Corpus()), terms)
    ensures forall id :: id !in Survivors(MergeAll(map[], Corpus()), terms, listing)
  {
    BrownRunsMatchesNeither();
    NoMatchReturnsNone(Corpus(), terms, listing);
  }

  /** Over the index of the two texts, a phrase that tokenizes to `quick fox`
      (as "quick fox" does, `QuickFoxTokens`) returns both documents, whatever
      order the candidates are listed in. */
  lemma QuickFoxReturnsBoth(phrase: string, listing: seq<string>)
    requires PhraseTokens(phrase, Plain) == ["quick", "fox"]
    requires IsListing(listing, MergeAll(map[], Corpus()), Terms(PhraseTokens(phrase, Plain), Plain))
    ensures forall id :: id in Survivors(MergeAll(map[], Corpus()), Terms(PhraseTokens(phrase, Plain), Plain), listing) <==>
      id == "doc1" || id == "doc2"
  {
    QuickFoxTerms();
    QuickFoxSelectsBoth(Terms(PhraseTokens(phrase, Plain), Plain), listing);
  }

  /** Over the index of the two texts, a phrase that tokenizes to `brown runs`
      (as "brown runs" does, `BrownRunsTokens`) returns nothing. */
  lemma BrownRunsReturnsNone(phrase: string, listing: seq<string>)
    requires PhraseTokens(phrase, Plain) == ["brown", "runs"]
    requires IsListing(listing, MergeAll(map[], Corpus()), Terms(PhraseTokens(phrase, Plain), Plain))
    ensures forall id :: id !in Survivors(MergeAll(map[], Corpus()), Terms(PhraseTokens(phrase, Plain), Plain), listing)
  {
    BrownRunsTerms();
    BrownRunsSelectsNone(Terms(PhraseTokens(phrase, Plain), Plain), listing);
  }
}
