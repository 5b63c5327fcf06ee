/** The query engine of `search_in_dir`: the guards, the query terms, the
    candidate intersection, the proximity filter and the resolution of file ids
    to paths. */
module Query {
  import opened Text
  import opened InvertedIndex

  /** Two consecutive query terms must lie strictly closer than this. */
  const PROXIMITY: int := 5
  const EMPTY_QUERY_MESSAGE: string := "Search query can't be null"
  const INVALID_DIRECTORY_MESSAGE: string := "Invalid directory"

  /** An element of the returned list: a string, or the `{}` that
      `source_shelf.get(file, {})` yields for an unregistered id. */
  datatype Item = Str(s: string) | EmptyDict

  /** What `search_in_dir` does: return a list, or raise `StopIteration` when
      the phrase has no query terms. */
  datatype Outcome = Returned(items: seq<Item>) | StopIteration

  predicate NoDuplicates(s: seq<string>) {
    forall i, j :: 0 <= i < j < |s| ==> s[i] != s[j]
  }

  /** File `id` has postings for every query term. */
  predicate IsCandidate(words: WordIndex, terms: seq<string>, id: string) {
    forall j :: 0 <= j < |terms| ==> id in Row(words, terms[j])
  }

  /** The candidate set: the intersection of the file-id sets of every term;
      a term absent from the index empties it. */
  method CommonFiles(words: WordIndex, terms: seq<string>) returns (common: set<string>)
    requires terms != []
    ensures forall id :: id in common <==> IsCandidate(words, terms, id)
    ensures (exists j :: 0 <= j < |terms| && terms[j] !in words) ==> common == {}
  {
    common := Row(words, terms[0]).Keys;
    for j := 0 to |terms|
      invariant forall id :: id in common <==>
        id in Row(words, terms[0]) && forall i :: 0 <= i < j ==> id in Row(words, terms[i])
    {
      common := common * Row(words, terms[j]).Keys;
    }
    if exists j :: 0 <= j < |terms| && terms[j] !in words {
      var j :| 0 <= j < |terms| && terms[j] !in words;
      assert forall id :: id in common ==> id in Row(words, terms[j]);
    }
  }

  /** `list(common_files)`: the candidates in some order, each once. */
  method ListOf(s: set<string>) returns (l: seq<string>)
    ensures NoDuplicates(l)
    ensures forall x :: x in l <==> x in s
  {
    l := [];
    var rest := s;
    while rest != {}
      invariant rest <= s
      invariant NoDuplicates(l)
      invariant forall x :: x in l <==> x in s && x !in rest
      decreases rest
    {
      var x :| x in rest;
      l := l + [x];
      rest := rest - {x};
    }
  }

  /** The position lists of candidate `id`, one per query term, in term order. */
  function PositionLists(words: WordIndex, terms: seq<string>, id: string): seq<seq<int>>
    requires IsCandidate(words, terms, id)
  {
    seq(|terms|, j requires 0 <= j < |terms| => Row(words, terms[j])[id])
  }

  /** `abs(x - y)` */
  function Dist(x: int, y: int): nat {
    if x >= y then x - y else y - x
  }

  /** The positions of `current` within the window of `p`, in order. */
  function Within(p: int, current: seq<int>): seq<int>
    decreases |current|
  {
    if current == [] then []
    else
      var n := |current| - 1;
      Within(p, current[..n]) + (if Dist(current[n], p) < PROXIMITY then [current[n]] else [])
  }

  lemma {:induction false} WithinMembers(p: int, current: seq<int>)
    ensures forall x :: x in Within(p, current) <==> x in current && Dist(x, p) < PROXIMITY
    decreases |current|
  {
    if current != [] {
      var n := |current| - 1;
      assert current == current[..n] + [current[n]];
      WithinMembers(p, current[..n]);
    }
  }

  /** `next_positions`: for each position of `last` in turn, the positions of
      `current` within its window. A position may occur several times. */
  function Near(last: seq<int>, current: seq<int>): seq<int>
    decreases |last|
  {
    if last == [] then []
    else
      var n := |last| - 1;
      Near(last[..n], current) + Within(last[n], current)
  }

  /** A position is in `next_positions` exactly when it is a position of the
      current term strictly within the window of some previous position. */
  lemma {:induction false} NearMembers(last: seq<int>, current: seq<int>)
    ensures forall x :: x in Near(last, current) <==>
      x in current && exists y :: y in last && Dist(x, y) < PROXIMITY
    decreases |last|
  {
    if last != [] {
      var n := |last| - 1;
      assert last == last[..n] + [last[n]];
      NearMembers(last[..n], current);
      WithinMembers(last[n], current);
    }
  }

  /** The filter's walk over the remaining terms' lists, starting from the
      active positions: it fails as soon as no position is near an active one. */
  function Chain(active: seq<int>, rest: seq<seq<int>>): bool
    decreases |rest|
  {
    if rest == [] then true
    else
      var next := Near(active, rest[0]);
      next != [] && Chain(next, rest[1..])
  }

  /** Whether the filter keeps a candidate with these position lists. */
  function Survives(lists: seq<seq<int>>): bool
    requires |lists| >= 1
  {
    Chain(lists[0], lists[1..])
  }

  /** `c` picks one position per term, each strictly within the window of the
      previous term's pick. */
  ghost predicate IsChain(c: seq<int>, lists: seq<seq<int>>) {
    && |c| == |lists|
    && (forall j :: 0 <= j < |c| ==> c[j] in lists[j])
    && (forall j :: 0 < j < |c| ==> Dist(c[j - 1], c[j]) < PROXIMITY)
  }

  ghost predicate ChainExists(lists: seq<seq<int>>) {
    exists c :: IsChain(c, lists)
  }

  lemma {:induction false} ChainIffExists(active: seq<int>, rest: seq<seq<int>>)
    requires rest != []
    ensures Chain(active, rest) <==> ChainExists([active] + rest)
    decreases |rest|
  {
    if Chain(active, rest) {
      ChainGivesWitness(active, rest);
    }
    if ChainExists([active] + rest) {
      var c :| IsChain(c, [active] + rest);
      WitnessGivesChain(active, rest, c);
    }
  }

  /** A position of `next_positions` is a current position that comes from
      some active position. */
  lemma NearSource(last: seq<int>, current: seq<int>, x: int) returns (y: int)
    requires x in Near(last, current)
    ensures x in current && y in last && Dist(x, y) < PROXIMITY
  {
    NearMembers(last, current);
    assert exists y :: y in last && Dist(x, y) < PROXIMITY;
    y :| y in last && Dist(x, y) < PROXIMITY;
  }

  /** A chain whose first pick also lies in a larger first list. */
  lemma ChainWidenHead(d: seq<int>, next: seq<int>, rest: seq<seq<int>>)
    requires rest != [] && IsChain(d, [next] + rest[1..]) && d[0] in rest[0]
    ensures IsChain(d, rest)
  {
    assert forall j :: 0 < j < |rest| ==> ([next] + rest[1..])[j] == rest[j];
  }

  /** Putting a pick near the chain's first one in front of it. */
  lemma ChainPrepend(y: int, d: seq<int>, first: seq<int>, lists: seq<seq<int>>)
    requires IsChain(d, lists) && d != [] && y in first && Dist(d[0], y) < PROXIMITY
    ensures IsChain([y] + d, [first] + lists)
  {
    var c, l := [y] + d, [first] + lists;
    assert forall j :: 0 < j < |c| ==> c[j] == d[j - 1] && l[j] == lists[j - 1];
  }

  lemma {:induction false} ChainGivesWitness(active: seq<int>, rest: seq<seq<int>>)
    requires rest != [] && Chain(active, rest)
    ensures ChainExists([active] + rest)
    decreases |rest|
  {
    var next := Near(active, rest[0]);
    var d: seq<int>;
    if |rest| == 1 {
      d := [next[0]];
      assert IsChain(d, [next] + rest[1..]);
    } else {
      ChainGivesWitness(next, rest[1..]);
      d :| IsChain(d, [next] + rest[1..]);
    }
    var y := NearSource(active, rest[0], d[0]);
    ChainWidenHead(d, next, rest);
    ChainPrepend(y, d, active, rest);
  }

  lemma {:induction false} WitnessGivesChain(active: seq<int>, rest: seq<seq<int>>, c: seq<int>)
    requires rest != [] && IsChain(c, [active] + rest)
    ensures Chain(active, rest)
    decreases |rest|
  {
    var next := Near(active, rest[0]);
    NearMembers(active, rest[0]);
    assert c[0] in active && c[1] in rest[0];
    assert c[1] in next;
    if |rest| > 1 {
      assert IsChain(c[1..], [next] + rest[1..]);
      WitnessGivesChain(next, rest[1..], c[1..]);
    }
  }

  /** A candidate survives the filter exactly when the query has one term or
      its positions hold a chain. */
  lemma SurvivesIffChain(lists: seq<seq<int>>)
    requires |lists| >= 1
    ensures Survives(lists) <==> |lists| == 1 || ChainExists(lists)
  {
    if |lists| > 1 {
      ChainIffExists(lists[0], lists[1..]);
      assert [lists[0]] + lists[1..] == lists;
    }
  }

  /** The candidates of `ids` the filter keeps, in their order in `ids`. */
  function Survivors(words: WordIndex, terms: seq<string>, ids: seq<string>): seq<string>
    requires terms != []
    requires forall id :: id in ids ==> IsCandidate(words, terms, id)
    decreases |ids|
  {
    if ids == [] then []
    else
      var n := |ids| - 1;
      Survivors(words, terms, ids[..n]) +
        (if Survives(PositionLists(words, terms, ids[n])) then [ids[n]] else [])
  }

  lemma {:induction false} SurvivorsMembers(words: WordIndex, terms: seq<string>, ids: seq<string>)
    requires terms != []
    requires forall id :: id in ids ==> IsCandidate(words, terms, id)
    ensures forall id :: id in Survivors(words, terms, ids) <==>
      id in ids && Survives(PositionLists(words, terms, id))
    decreases |ids|
  {
    if ids != [] {
      var n := |ids| - 1;
      assert ids == ids[..n] + [ids[n]];
      SurvivorsMembers(words, terms, ids[..n]);
    }
  }

  /** `f` maps each element of `a` to a position of `b` holding it, in
      increasing order: `a` is `b` with some elements left out. */
  ghost predicate IsEmbedding(f: seq<int>, a: seq<string>, b: seq<string>) {
    && |f| == |a|
    && (forall i :: 0 <= i < |f| ==> 0 <= f[i] < |b| && b[f[i]] == a[i])
    && (forall i, j :: 0 <= i < j < |f| ==> f[i] < f[j])
  }

  /** An embedding survives appending to the longer sequence, and appending
      the same element to both. */
  lemma EmbeddingExtends(f: seq<int>, a: seq<string>, b: seq<string>, x: string)
    requires IsEmbedding(f, a, b)
    ensures IsEmbedding(f, a, b + [x])
    ensures IsEmbedding(f + [|b|], a + [x], b + [x])
  {
  }

  /** The survivors keep their relative order in the candidate list. */
  lemma {:induction false} SurvivorsKeepOrder(words: WordIndex, terms: seq<string>, ids: seq<string>)
    requires terms != []
    requires forall id :: id in ids ==> IsCandidate(words, terms, id)
    ensures exists f :: IsEmbedding(f, Survivors(words, terms, ids), ids)
    decreases |ids|
  {
    if ids == [] {
      assert IsEmbedding([], Survivors(words, terms, ids), ids);
    } else {
      var n := |ids| - 1;
      var init := Survivors(words, terms, ids[..n]);
      SurvivorsKeepOrder(words, terms, ids[..n]);
      var f :| IsEmbedding(f, init, ids[..n]);
      EmbeddingExtends(f, init, ids[..n], ids[n]);
      assert ids[..n] + [ids[n]] == ids;
      if Survives(PositionLists(words, terms, ids[n])) {
        assert IsEmbedding(f + [n], Survivors(words, terms, ids), ids);
      } else {
        assert IsEmbedding(f, Survivors(words, terms, ids), ids);
      }
    }
  }

  /** A listed candidate is returned exactly when the query has one term or
      its positions hold a chain in which each term lies strictly closer than
      PROXIMITY to the previous one. */
  lemma SurvivorsExactly(words: WordIndex, terms: seq<string>, ids: seq<string>)
    requires terms != []
    requires forall id :: id in ids ==> IsCandidate(words, terms, id)
    ensures forall id :: id in Survivors(words, terms, ids) <==>
      id in ids && (|terms| == 1 || ChainExists(PositionLists(words, terms, id)))
  {
    SurvivorsMembers(words, terms, ids);
    forall id | id in ids {
      SurvivesIffChain(PositionLists(words, terms, id));
    }
  }

  /** With a single query term the filter keeps every candidate, in order. */
  lemma {:induction false} SingleTermKeepsAll(words: WordIndex, terms: seq<string>, ids: seq<string>)
    requires |terms| == 1
    requires forall id :: id in ids ==> IsCandidate(words, terms, id)
    ensures Survivors(words, terms, ids) == ids
    decreases |ids|
  {
    if ids != [] {
      var n := |ids| - 1;
      SingleTermKeepsAll(words, terms, ids[..n]);
      var lists := PositionLists(words, terms, ids[n]);
      assert lists[1..] == [];
      assert Survives(lists);
      assert Survivors(words, terms, ids) == ids[..n] + [ids[n]];
      assert ids[..n] + [ids[n]] == ids;
    }
  }

  /** The nested loops that rebuild `next_positions`. */
  method NearPositions(last: seq<int>, current: seq<int>) returns (next: seq<int>)
    ensures next == Near(last, current)
  {
    next := [];
    for a := 0 to |last|
      invariant next == Near(last[..a], current)
    {
      for b := 0 to |current|
        invariant next == Near(last[..a], current) + Within(last[a], current[..b])
      {
        WithinStep(last[a], current, b);
        if Dist(current[b], last[a]) < PROXIMITY {
          next := next + [current[b]];
        }
      }
      assert current[..|current|] == current;
      NearStep(last, current, a);
    }
    assert last[..|last|] == last;
  }

  lemma WithinStep(p: int, current: seq<int>, b: int)
    requires 0 <= b < |current|
    ensures Within(p, current[..b + 1]) ==
      Within(p, current[..b]) + (if Dist(current[b], p) < PROXIMITY then [current[b]] else [])
  {
    assert current[..b + 1][..b] == current[..b];
  }

  lemma NearStep(last: seq<int>, current: seq<int>, a: int)
    requires 0 <= a < |last|
    ensures Near(last[..a + 1], current) == Near(last[..a], current) + Within(last[a], current)
  {
    assert last[..a + 1][..a] == last[..a];
  }

  /** The body of the filter loop for one file: walk the terms, keeping the
      positions near the previous term's, and give up when none is left. */
  method IsSuitable(words: WordIndex, terms: seq<string>, file: string) returns (suitable: bool)
    requires terms != [] && IsCandidate(words, terms, file)
    ensures suitable == Survives(PositionLists(words, terms, file))
  {
    ghost var lists := PositionLists(words, terms, file);
    suitable := true;
    var lastPositions := Row(words, terms[0])[file];
    for j := 1 to |terms|
      invariant Chain(lastPositions, lists[j..]) == Survives(lists)
    {
      var positionsInCurrentFile := Row(words, terms[j])[file];
      var nextPositions := NearPositions(lastPositions, positionsInCurrentFile);
      assert lists[j..][0] == positionsInCurrentFile;
      assert lists[j..][1..] == lists[j + 1..];
      if |nextPositions| == 0 {
        assert !Chain(lastPositions, lists[j..]);
        suitable := false;
        break;
      }
      lastPositions := nextPositions;
    }
  }

  /** `list.remove(x)`: drop the first occurrence of `x`. */
  function RemoveFirst(s: seq<string>, x: string): seq<string>
    requires x in s
  {
    if s[0] == x then s[1..] else [s[0]] + RemoveFirst(s[1..], x)
  }

  /** The `while i < len(common_files)` loop: unsuitable files are removed
      from the list in place. */
  method ProximityFilter(words: WordIndex, terms: seq<string>, commonFiles: seq<string>)
    returns (survivors: seq<string>)
    requires terms != []
    requires NoDuplicates(commonFiles)
    requires forall id :: id in commonFiles ==> IsCandidate(words, terms, id)
    ensures survivors == Survivors(words, terms, commonFiles)
  {
    survivors := commonFiles;
    var i := 0;
    ghost var n := 0;
    while i < |survivors|
      invariant 0 <= n <= |commonFiles|
      invariant survivors == Survivors(words, terms, commonFiles[..n]) + commonFiles[n..]
      invariant i == |Survivors(words, terms, commonFiles[..n])|
      decreases |survivors| - i
    {
      FilterStep(words, terms, commonFiles, n);
      var file := survivors[i];
      var suitable := IsSuitable(words, terms, file);
      if !suitable {
        survivors := RemoveFirst(survivors, file);
      } else {
        i := i + 1;
      }
      n := n + 1;
    }
    assert commonFiles[..n] == commonFiles;
  }

  /** One turn of the filter loop: the list is the survivors so far followed
      by the unexamined candidates, the cursor points at the next candidate,
      and keeping or removing it gives the same shape one candidate later. */
  lemma FilterStep(words: WordIndex, terms: seq<string>, ids: seq<string>, n: int)
    requires terms != [] && 0 <= n < |ids| && NoDuplicates(ids)
    requires forall id :: id in ids ==> IsCandidate(words, terms, id)
    ensures var done, next := Survivors(words, terms, ids[..n]), Survivors(words, terms, ids[..n + 1]);
      var list := done + ids[n..];
      && |done| < |list| && list[|done|] == ids[n]
      && (Survives(PositionLists(words, terms, ids[n])) ==>
            list == next + ids[n + 1..] && |next| == |done| + 1)
      && (!Survives(PositionLists(words, terms, ids[n])) ==>
            ids[n] in list && RemoveFirst(list, ids[n]) == next + ids[n + 1..] && |next| == |done|)
  {
    var done, next := Survivors(words, terms, ids[..n]), Survivors(words, terms, ids[..n + 1]);
    var rest := ids[n..];
    SurvivorsStep(words, terms, ids, n);
    NotYetKept(words, terms, ids, n);
    assert rest[0] == ids[n] && rest[1..] == ids[n + 1..];
    ListStep(done, next, rest, Survives(PositionLists(words, terms, ids[n])));
  }

  /** The list of the filter loop is the kept candidates `done` followed by
      the candidates not yet examined, `rest`; the cursor is at `rest[0]`.
      Keeping it advances the cursor over the same list; removing it deletes
      it at the cursor. */
  lemma ListStep(done: seq<string>, next: seq<string>, rest: seq<string>, keep: bool)
    requires rest != [] && rest[0] !in done
    requires next == done + (if keep then [rest[0]] else [])
    ensures |done| < |done + rest| && (done + rest)[|done|] == rest[0]
    ensures keep ==> done + rest == next + rest[1..] && |next| == |done| + 1
    ensures !keep ==> rest[0] in done + rest && RemoveFirst(done + rest, rest[0]) == next + rest[1..] && |next| == |done|
  {
    AtCursor(done, rest);
    if keep {
      Regroup(done, rest);
    } else {
      RemoveAfterPrefix(done, rest);
    }
  }

  /** Moving the cursor past a kept candidate leaves the list as it was. */
  lemma Regroup(done: seq<string>, rest: seq<string>)
    requires rest != []
    ensures (done + [rest[0]]) + rest[1..] == done + rest
  {
    assert [rest[0]] + rest[1..] == rest;
    assert (done + [rest[0]]) + rest[1..] == done + ([rest[0]] + rest[1..]);
  }

  lemma AtCursor(done: seq<string>, rest: seq<string>)
    requires rest != []
    ensures (done + rest)[|done|] == rest[0]
  {
  }

  /** Removing the first element of `rest` from `done + rest`, when it does
      not occur in `done`. */
  lemma {:induction false} RemoveAfterPrefix(done: seq<string>, rest: seq<string>)
    requires rest != [] && rest[0] !in done
    ensures RemoveFirst(done + rest, rest[0]) == done + rest[1..]
    decreases |done|
  {
    if done != [] {
      assert (done + rest)[0] == done[0];
      assert (done + rest)[1..] == done[1..] + rest;
      RemoveAfterPrefix(done[1..], rest);
      assert done == [done[0]] + done[1..];
    }
  }

  lemma SurvivorsStep(words: WordIndex, terms: seq<string>, ids: seq<string>, n: int)
    requires terms != [] && 0 <= n < |ids|
    requires forall id :: id in ids ==> IsCandidate(words, terms, id)
    ensures Survivors(words, terms, ids[..n + 1]) == Survivors(words, terms, ids[..n]) +
      (if Survives(PositionLists(words, terms, ids[n])) then [ids[n]] else [])
  {
    assert ids[..n + 1][..n] == ids[..n];
  }

  /** A candidate is not among the survivors of the candidates before it. */
  lemma NotYetKept(words: WordIndex, terms: seq<string>, ids: seq<string>, n: int)
    requires terms != [] && 0 <= n < |ids| && NoDuplicates(ids)
    requires forall id :: id in ids ==> IsCandidate(words, terms, id)
    ensures ids[n] !in Survivors(words, terms, ids[..n])
  {
    SurvivorsMembers(words, terms, ids[..n]);
  }

  /** The value `source_shelf.get(id, {})`. */
  function SourceOf(sources: map<string, string>, id: string): Item {
    if id in sources then Str(sources[id]) else EmptyDict
  }

  /** The lookup loop: one registry entry per survivor, in order. */
  method ResolvePaths(ids: seq<string>, sources: map<string, string>) returns (items: seq<Item>)
    ensures |items| == |ids|
    ensures forall k :: 0 <= k < |ids| ==>
      items[k] == (if ids[k] in sources then Str(sources[ids[k]]) else EmptyDict)
  {
    items := [];
    for k := 0 to |ids|
      invariant |items| == k
      invariant forall m :: 0 <= m < k ==> items[m] == SourceOf(sources, ids[m])
    {
      items := items + [SourceOf(sources, ids[k])];
    }
  }

  /** `listing` enumerates the candidate set, each candidate once. */
  ghost predicate IsListing(listing: seq<string>, words: WordIndex, terms: seq<string>) {
    NoDuplicates(listing) && forall id :: id in listing <==> IsCandidate(words, terms, id)
  }

  /** `search_in_dir`. The directory test is the boolean `isDir`; the index
      and the registry are the two shelves' contents. */
  method Search(phrase: Option<string>, dirPath: string, isDir: bool,
                words: WordIndex, sources: map<string, string>, nz: Normalizer)
    returns (r: Outcome)
    ensures phrase.None? || phrase.value == "" ==> r == Returned([Str(EMPTY_QUERY_MESSAGE)])
    ensures phrase.Some? && phrase.value != "" && !(|dirPath| > 3 && isDir) ==>
      r == Returned([Str(INVALID_DIRECTORY_MESSAGE)])
    ensures phrase.Some? && phrase.value != "" && |dirPath| > 3 && isDir ==>
      var terms := Terms(PhraseTokens(phrase.value, nz), nz);
      if terms == [] then r == StopIteration
      else
        && r.Returned?
        && (exists listing :: IsListing(listing, words, terms)
              && |r.items| == |Survivors(words, terms, listing)|
              && forall k :: 0 <= k < |r.items| ==>
                   r.items[k] == SourceOf(sources, Survivors(words, terms, listing)[k]))
  {
    if phrase.Some? && phrase.value != "" {
      if |dirPath| > 3 && isDir {
        var phraseArray := PhraseTokens(phrase.value, nz);
        var filtredPhrase := FilterPhrase(phraseArray, nz);
        if filtredPhrase == [] {
          return StopIteration;
        }
        var common := CommonFiles(words, filtredPhrase);
        var commonFiles := ListOf(common);
        var survivors := ProximityFilter(words, filtredPhrase, commonFiles);
        var paths := ResolvePaths(survivors, sources);
        assert IsListing(commonFiles, words, filtredPhrase);
        return Returned(paths);
      } else {
        return Returned([Str(INVALID_DIRECTORY_MESSAGE)]);
      }
    } else {
      return Returned([Str(EMPTY_QUERY_MESSAGE)]);
    }
  }

  /** The position lists of a document's own postings for the query terms. */
  function TermLists(doc: Document, terms: seq<string>): seq<seq<int>>
    requires forall j :: 0 <= j < |terms| ==> terms[j] in doc.postings
  {
    seq(|terms|, j requires 0 <= j < |terms| => doc.postings[terms[j]])
  }

  /** A document matches the query when it holds every term and, for a query
      of several terms, its positions hold a chain. */
  ghost predicate Matches(doc: Document, terms: seq<string>) {
    && (forall j :: 0 <= j < |terms| ==> terms[j] in doc.postings)
    && (|terms| == 1 || ChainExists(TermLists(doc, terms)))
  }

  /** Over an index built from documents with distinct ids, the filter keeps
      exactly the ids of the documents that match the query. */
  lemma SurvivorsAreMatchingDocuments(docs: seq<Document>, terms: seq<string>, listing: seq<string>)
    requires DistinctIds(docs) && terms != []
    requires IsListing(listing, MergeAll(map[], docs), terms)
    ensures forall id :: id in Survivors(MergeAll(map[], docs), terms, listing) <==>
      exists doc :: doc in docs && doc.id == id && Matches(doc, terms)
  {
    forall id | id in Survivors(MergeAll(map[], docs), terms, listing)
      ensures exists doc :: doc in docs && doc.id == id && Matches(doc, terms)
    {
      var doc := SurvivorIsMatching(docs, terms, listing, id);
    }
    forall doc | doc in docs && Matches(doc, terms)
      ensures doc.id in Survivors(MergeAll(map[], docs), terms, listing)
    {
      MatchingSurvives(docs, terms, listing, doc);
    }
  }

  lemma SurvivorIsMatching(docs: seq<Document>, terms: seq<string>, listing: seq<string>, id: string)
    returns (doc: Document)
    requires DistinctIds(docs) && terms != []
    requires IsListing(listing, MergeAll(map[], docs), terms)
    requires id in Survivors(MergeAll(map[], docs), terms, listing)
    ensures doc in docs && doc.id == id && Matches(doc, terms)
  {
    var words := MergeAll(map[], docs);
    SurvivorsExactly(words, terms, listing);
    IndexedTermsBelongToOneDocument(docs, terms, id);
    doc :| doc in docs && doc.id == id && forall j :: 0 <= j < |terms| ==>
      terms[j] in doc.postings && Row(words, terms[j])[id] == doc.postings[terms[j]];
    assert PositionLists(words, terms, id) == TermLists(doc, terms);
  }

  lemma MatchingSurvives(docs: seq<Document>, terms: seq<string>, listing: seq<string>, doc: Document)
    requires DistinctIds(docs) && terms != []
    requires IsListing(listing, MergeAll(map[], docs), terms)
    requires doc in docs && Matches(doc, terms)
    ensures doc.id in Survivors(MergeAll(map[], docs), terms, listing)
  {
    var words := MergeAll(map[], docs);
    MergeAllCovers(map[], docs);
    forall j | 0 <= j < |terms|
      ensures doc.id in Row(words, terms[j]) && Row(words, terms[j])[doc.id] == doc.postings[terms[j]]
    {
      assert CoversRow(Row(words, terms[j]), Row(map[], terms[j]), terms[j], Elements(docs));
    }
    assert IsCandidate(words, terms, doc.id);
    assert PositionLists(words, terms, doc.id) == TermLists(doc, terms);
    SurvivorsExactly(words, terms, listing);
  }
}
