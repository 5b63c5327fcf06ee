/** The per-document posting builder: the `for word_pos` loop of `index_file`,
    which maps every key to the ascending offsets of its tokens. */
module Postings {
  import opened Text

  /** The offsets below `n` whose token is kept and has key `w`, ascending. */
  function Occurrences(tokens: seq<string>, w: string, n: nat, nz: Normalizer): seq<int>
    requires n <= |tokens|
    decreases n
  {
    if n == 0 then []
    else
      var p := n - 1;
      Occurrences(tokens, w, p, nz) + (if Kept(tokens[p], nz) && Key(tokens[p], nz) == w then [p] else [])
  }

  /** `Occurrences` lists, in strictly ascending order, exactly the offsets
      below `n` of the kept tokens whose key is `w`. */
  lemma OccurrencesExact(tokens: seq<string>, w: string, n: nat, nz: Normalizer)
    requires n <= |tokens|
    ensures var ps := Occurrences(tokens, w, n, nz);
      && (forall k :: 0 <= k < |ps| ==>
            0 <= ps[k] < n && Kept(tokens[ps[k]], nz) && Key(tokens[ps[k]], nz) == w)
      && (forall a, b :: 0 <= a < b < |ps| ==> ps[a] < ps[b])
      && (forall p :: 0 <= p < n && Kept(tokens[p], nz) && Key(tokens[p], nz) == w ==> p in ps)
  {
    OccurrencesSound(tokens, w, n, nz);
    OccurrencesComplete(tokens, w, n, nz);
  }

  /** `ps` lists, strictly ascending, offsets below `n` of kept tokens with
      key `w`. */
  predicate SoundOccurrences(tokens: seq<string>, w: string, n: nat, ps: seq<int>, nz: Normalizer)
    requires n <= |tokens|
  {
    && (forall k :: 0 <= k < |ps| ==>
          0 <= ps[k] < n && Kept(tokens[ps[k]], nz) && Key(tokens[ps[k]], nz) == w)
    && (forall a, b :: 0 <= a < b < |ps| ==> ps[a] < ps[b])
  }

  lemma {:induction false} OccurrencesSound(tokens: seq<string>, w: string, n: nat, nz: Normalizer)
    requires n <= |tokens|
    ensures SoundOccurrences(tokens, w, n, Occurrences(tokens, w, n, nz), nz)
    decreases n
  {
    if n > 0 {
      var p := n - 1;
      OccurrencesSound(tokens, w, p, nz);
      SoundExtend(tokens, w, p, Occurrences(tokens, w, p, nz), nz);
      assert Occurrences(tokens, w, n, nz) == Occurrences(tokens, w, p, nz) +
        (if Kept(tokens[p], nz) && Key(tokens[p], nz) == w then [p] else []);
    }
  }

  lemma SoundExtend(tokens: seq<string>, w: string, p: nat, ps: seq<int>, nz: Normalizer)
    requires p < |tokens| && SoundOccurrences(tokens, w, p, ps, nz)
    ensures SoundOccurrences(tokens, w, p + 1,
      ps + (if Kept(tokens[p], nz) && Key(tokens[p], nz) == w then [p] else []), nz)
  {
    if Kept(tokens[p], nz) && Key(tokens[p], nz) == w {
      var qs := ps + [p];
      assert forall k :: 0 <= k < |ps| ==> qs[k] == ps[k];
    }
  }

  lemma {:induction false} OccurrencesComplete(tokens: seq<string>, w: string, n: nat, nz: Normalizer)
    requires n <= |tokens|
    ensures forall p :: 0 <= p < n && Kept(tokens[p], nz) && Key(tokens[p], nz) == w ==>
      p in Occurrences(tokens, w, n, nz)
    decreases n
  {
    if n > 0 {
      OccurrencesComplete(tokens, w, n - 1, nz);
    }
  }

  /** The keys of the kept tokens among the first `n`. */
  function Vocabulary(tokens: seq<string>, n: nat, nz: Normalizer): set<string>
    requires n <= |tokens|
  {
    set p | 0 <= p < n && Kept(tokens[p], nz) :: Key(tokens[p], nz)
  }

  /** The posting map of the first `n` tokens. */
  function PostingsUpTo(tokens: seq<string>, n: nat, nz: Normalizer): map<string, seq<int>>
    requires n <= |tokens|
  {
    map w | w in Vocabulary(tokens, n, nz) :: Occurrences(tokens, w, n, nz)
  }

  lemma PostingsUpToExact(tokens: seq<string>, nz: Normalizer)
    ensures var d := PostingsUpTo(tokens, |tokens|, nz);
      && (forall p :: 0 <= p < |tokens| && Kept(tokens[p], nz) ==> Key(tokens[p], nz) in d)
      && (forall w :: w in d ==> d[w] != [])
      && (forall w :: w in d ==> forall a, b :: 0 <= a < b < |d[w]| ==> d[w][a] < d[w][b])
      && (forall w, p :: w in d && 0 <= p < |tokens| ==>
            (p in d[w] <==> Kept(tokens[p], nz) && Key(tokens[p], nz) == w))
      && (forall w, k :: w in d && 0 <= k < |d[w]| ==> 0 <= d[w][k] < |tokens|)
  {
    var n := |tokens|;
    forall w | w in Vocabulary(tokens, n, nz)
      ensures var ps := Occurrences(tokens, w, n, nz);
        && ps != []
        && (forall a, b :: 0 <= a < b < |ps| ==> ps[a] < ps[b])
        && (forall p :: 0 <= p < n ==> (p in ps <==> Kept(tokens[p], nz) && Key(tokens[p], nz) == w))
        && (forall k :: 0 <= k < |ps| ==> 0 <= ps[k] < n)
    {
      OccurrencesExact(tokens, w, n, nz);
      var p :| 0 <= p < n && Kept(tokens[p], nz) && Key(tokens[p], nz) == w;
      assert p in Occurrences(tokens, w, n, nz);
    }
  }

  /** The posting map of a token sequence. A key is present exactly when some
      kept token has it; its list is non-empty, strictly ascending, and holds
      exactly the offsets of the kept tokens with that key. Offsets count every
      token, stopwords included. */
  function PostingsOf(tokens: seq<string>, nz: Normalizer): (d: map<string, seq<int>>)
    ensures forall p :: 0 <= p < |tokens| && Kept(tokens[p], nz) ==> Key(tokens[p], nz) in d
    ensures forall w :: w in d ==> d[w] != []
    ensures forall w :: w in d ==> forall a, b :: 0 <= a < b < |d[w]| ==> d[w][a] < d[w][b]
    ensures forall w, p :: w in d && 0 <= p < |tokens| ==>
      (p in d[w] <==> Kept(tokens[p], nz) && Key(tokens[p], nz) == w)
    ensures forall w, k :: w in d && 0 <= k < |d[w]| ==> 0 <= d[w][k] < |tokens|
  {
    PostingsUpToExact(tokens, nz);
    PostingsUpTo(tokens, |tokens|, nz)
  }

  /** A key absent from the vocabulary has no occurrences. */
  lemma {:induction false} NoOccurrencesOutsideVocabulary(tokens: seq<string>, w: string, n: nat, nz: Normalizer)
    requires n <= |tokens| && w !in Vocabulary(tokens, n, nz)
    ensures Occurrences(tokens, w, n, nz) == []
    decreases n
  {
    if n > 0 {
      assert Vocabulary(tokens, n - 1, nz) <= Vocabulary(tokens, n, nz);
      NoOccurrencesOutsideVocabulary(tokens, w, n - 1, nz);
    }
  }

  lemma VocabularyStep(tokens: seq<string>, n: nat, nz: Normalizer)
    requires n < |tokens|
    ensures Vocabulary(tokens, n + 1, nz) ==
      Vocabulary(tokens, n, nz) + (if Kept(tokens[n], nz) then {Key(tokens[n], nz)} else {})
  {
    var v, v' := Vocabulary(tokens, n, nz), Vocabulary(tokens, n + 1, nz);
    forall x | x in v' ensures x in v || (Kept(tokens[n], nz) && x == Key(tokens[n], nz)) {
      var p :| 0 <= p < n + 1 && Kept(tokens[p], nz) && x == Key(tokens[p], nz);
      if p < n { assert x in v; }
    }
  }

  /** One turn of the loop: a kept token appends its offset under its key. */
  lemma PostingsStep(tokens: seq<string>, n: nat, nz: Normalizer)
    requires n < |tokens|
    ensures var d := PostingsUpTo(tokens, n, nz);
      var w := Key(tokens[n], nz);
      PostingsUpTo(tokens, n + 1, nz) ==
        if Kept(tokens[n], nz) then d[w := (if w in d then d[w] else []) + [n]] else d
  {
    var d, d' := PostingsUpTo(tokens, n, nz), PostingsUpTo(tokens, n + 1, nz);
    var w := Key(tokens[n], nz);
    var e := if Kept(tokens[n], nz) then d[w := (if w in d then d[w] else []) + [n]] else d;
    VocabularyStep(tokens, n, nz);
    assert d'.Keys == e.Keys;
    forall v | v in d' ensures d'[v] == e[v] {
      PostingsStepAt(tokens, n, nz, v);
    }
  }

  /** One turn of the loop, for the list of one key. */
  lemma PostingsStepAt(tokens: seq<string>, n: nat, nz: Normalizer, v: string)
    requires n < |tokens|
    requires v in Vocabulary(tokens, n + 1, nz)
    ensures var d := PostingsUpTo(tokens, n, nz);
      PostingsUpTo(tokens, n + 1, nz)[v] ==
        if Kept(tokens[n], nz) && Key(tokens[n], nz) == v then (if v in d then d[v] else []) + [n] else d[v]
  {
    VocabularyStep(tokens, n, nz);
    var d := PostingsUpTo(tokens, n, nz);
    assert Occurrences(tokens, v, n + 1, nz) == Occurrences(tokens, v, n, nz) +
      (if Kept(tokens[n], nz) && Key(tokens[n], nz) == v then [n] else []);
    if Kept(tokens[n], nz) && Key(tokens[n], nz) == v && v !in d {
      NoOccurrencesOutsideVocabulary(tokens, v, n, nz);
    }
  }

  /** The loop of `index_file` over the token array. */
  method BuildPostings(tokens: seq<string>, nz: Normalizer) returns (fileDict: map<string, seq<int>>)
    ensures fileDict == PostingsOf(tokens, nz)
  {
    fileDict := map[];
    for wordPos := 0 to |tokens|
      invariant fileDict == PostingsUpTo(tokens, wordPos, nz)
    {
      PostingsStep(tokens, wordPos, nz);
      if tokens[wordPos] != "" && tokens[wordPos] !in nz.stopWords {
        var word := nz.lemmatize(Lower(tokens[wordPos]));
        var value := if word in fileDict then fileDict[word] else [];
        fileDict := fileDict[word := value + [wordPos]];
      }
    }
  }

  /** Query terms and index keys come from the same normalisation: the terms
      of a token sequence are exactly the keys of its posting map. */
  lemma QueryTermsAreIndexKeys(tokens: seq<string>, nz: Normalizer)
    ensures forall t :: t in Terms(tokens, nz) <==> t in PostingsOf(tokens, nz)
  {
    var d := PostingsOf(tokens, nz);
    forall t | t in d ensures t in Terms(tokens, nz) {
      var p := d[t][0];
      assert p in d[t];
    }
  }
}
