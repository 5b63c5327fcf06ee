/** The shared inverted index (`merged_dictionary`) and the document registry
    (the sources shelf), with the per-document merge of
    `add_file_to_global_dict` and the indexing of `index_file`. */
module InvertedIndex {
  import opened Text
  import opened Postings

  /** term -> (file id -> ascending token offsets) */
  type WordIndex = map<string, map<string, seq<int>>>

  /** One indexed document: its id and its posting map. */
  datatype Document = Document(id: string, postings: map<string, seq<int>>)

  /** The postings of term `k`, `{}` when the term is absent. */
  function Row(words: WordIndex, k: string): map<string, seq<int>> {
    if k in words then words[k] else map[]
  }

  /** The index after merging the posting map `fileDict` of document `fileId`. */
  function Merged(words: WordIndex, fileDict: map<string, seq<int>>, fileId: string): WordIndex {
    map k | k in words.Keys + fileDict.Keys ::
      if k in fileDict then Row(words, k)[fileId := fileDict[k]] else words[k]
  }

  lemma MergedRow(words: WordIndex, fileDict: map<string, seq<int>>, fileId: string, k: string)
    ensures (k in Merged(words, fileDict, fileId)) == (k in words || k in fileDict)
    ensures Row(Merged(words, fileDict, fileId), k) == RowAfter(Row(words, k), fileDict, fileId, k)
  {
  }

  /** What a merge does: the term set grows by the document's terms; each of
      them maps `fileId` to the document's list; every other (term, id) entry
      and every term the document lacks is unchanged. */
  lemma MergeEffect(words: WordIndex, fileDict: map<string, seq<int>>, fileId: string)
    ensures var r := Merged(words, fileDict, fileId);
      && r.Keys == words.Keys + fileDict.Keys
      && (forall k :: k in fileDict ==>
            && r[k].Keys == (if k in words then words[k].Keys else {}) + {fileId}
            && r[k][fileId] == fileDict[k])
      && (forall k, id :: k in words && id in words[k] && (k !in fileDict || id != fileId) ==>
            id in r[k] && r[k][id] == words[k][id])
      && (forall k :: k in words && k !in fileDict ==> r[k] == words[k])
  {
  }

  /** Two indexes are equal when every term has the same row. */
  lemma RowsEqual(a: WordIndex, b: WordIndex)
    requires a.Keys == b.Keys
    requires forall k :: k in a ==> Row(a, k) == Row(b, k)
    ensures a == b
  {
  }

  /** Merging the same document twice is merging it once. */
  lemma MergeIdempotent(words: WordIndex, fileDict: map<string, seq<int>>, fileId: string)
    ensures Merged(Merged(words, fileDict, fileId), fileDict, fileId) == Merged(words, fileDict, fileId)
  {
    var once := Merged(words, fileDict, fileId);
    var twice := Merged(once, fileDict, fileId);
    forall k ensures (k in twice) == (k in once) && Row(twice, k) == Row(once, k) {
      MergedRow(words, fileDict, fileId, k);
      MergedRow(once, fileDict, fileId, k);
      if k in fileDict {
        assert Row(once, k)[fileId := fileDict[k]] == Row(once, k);
      }
    }
    RowsEqual(twice, once);
  }

  /** Merges of two different documents commute. */
  lemma MergeCommutes(words: WordIndex, d1: map<string, seq<int>>, id1: string,
                      d2: map<string, seq<int>>, id2: string)
    requires id1 != id2
    ensures Merged(Merged(words, d1, id1), d2, id2) == Merged(Merged(words, d2, id2), d1, id1)
  {
    var a := Merged(Merged(words, d1, id1), d2, id2);
    var b := Merged(Merged(words, d2, id2), d1, id1);
    forall k ensures (k in a) == (k in b) && Row(a, k) == Row(b, k) {
      MergeCommutesAt(words, d1, id1, d2, id2, k);
    }
    RowsEqual(a, b);
  }

  lemma MergeCommutesAt(words: WordIndex, d1: map<string, seq<int>>, id1: string,
                        d2: map<string, seq<int>>, id2: string, k: string)
    requires id1 != id2
    ensures var a := Merged(Merged(words, d1, id1), d2, id2);
      var b := Merged(Merged(words, d2, id2), d1, id1);
      (k in a) == (k in b) && Row(a, k) == Row(b, k)
  {
    var w1, w2 := Merged(words, d1, id1), Merged(words, d2, id2);
    MergedRow(words, d1, id1, k);
    MergedRow(words, d2, id2, k);
    MergedRow(w1, d2, id2, k);
    MergedRow(w2, d1, id1, k);
    RowUpdatesCommute(Row(words, k), d1, id1, d2, id2, k);
  }

  /** The row of `k` after a document's merge. */
  function RowAfter(row: map<string, seq<int>>, d: map<string, seq<int>>, id: string, k: string): map<string, seq<int>> {
    if k in d then row[id := d[k]] else row
  }

  lemma RowUpdatesCommute(row: map<string, seq<int>>, d1: map<string, seq<int>>, id1: string,
                          d2: map<string, seq<int>>, id2: string, k: string)
    requires id1 != id2
    ensures RowAfter(RowAfter(row, d1, id1, k), d2, id2, k) == RowAfter(RowAfter(row, d2, id2, k), d1, id1, k)
  {
    if k in d1 && k in d2 {
      assert row[id1 := d1[k]][id2 := d2[k]] == row[id2 := d2[k]][id1 := d1[k]];
    }
  }

  /** The index after merging the documents in sequence order. */
  function MergeAll(words: WordIndex, docs: seq<Document>): WordIndex
    decreases |docs|
  {
    if docs == [] then words
    else
      var last := docs[|docs| - 1];
      Merged(MergeAll(words, docs[..|docs| - 1]), last.postings, last.id)
  }

  predicate DistinctIds(docs: seq<Document>) {
    forall i, j :: 0 <= i < j < |docs| ==> docs[i].id != docs[j].id
  }

  /** `row` is the row `base` of term `k` extended by the documents of `docs`:
      an id is present when `base` or that document has the term, a
      document's list wins over `base`, and every id no document touches keeps
      its list. */
  ghost predicate CoversRow(row: map<string, seq<int>>, base: map<string, seq<int>>, k: string, docs: set<Document>) {
    && (forall id :: id in row <==> id in base || exists doc :: doc in docs && doc.id == id && k in doc.postings)
    && (forall doc :: doc in docs && k in doc.postings ==> doc.id in row && row[doc.id] == doc.postings[k])
    && (forall id :: id in base && (forall doc :: doc in docs ==> doc.id != id || k !in doc.postings) ==>
          id in row && row[id] == base[id])
  }

  /** `r` is `words` extended by the documents of `docs`, term by term. */
  ghost predicate Covers(r: WordIndex, words: WordIndex, docs: set<Document>) {
    && (forall k :: k in r <==> k in words || exists doc :: doc in docs && k in doc.postings)
    && (forall k :: CoversRow(Row(r, k), Row(words, k), k, docs))
  }

  lemma CoversRowUnique(row1: map<string, seq<int>>, row2: map<string, seq<int>>, base: map<string, seq<int>>,
                        k: string, docs: set<Document>)
    requires CoversRow(row1, base, k, docs) && CoversRow(row2, base, k, docs)
    ensures row1 == row2
  {
    forall id | id in row1 ensures row1[id] == row2[id] {
      if doc :| doc in docs && doc.id == id && k in doc.postings {
      } else {
        assert row1[id] == base[id];
      }
    }
  }

  /** At most one index covers a given start and set of documents. */
  lemma CoversUnique(r1: WordIndex, r2: WordIndex, words: WordIndex, docs: set<Document>)
    requires Covers(r1, words, docs) && Covers(r2, words, docs)
    ensures r1 == r2
  {
    forall k | k in r1 ensures Row(r1, k) == Row(r2, k) {
      CoversRowUnique(Row(r1, k), Row(r2, k), Row(words, k), k, docs);
    }
    RowsEqual(r1, r2);
  }

  lemma CoversRowStep(row: map<string, seq<int>>, base: map<string, seq<int>>, k: string,
                      docs: set<Document>, last: Document)
    requires CoversRow(row, base, k, docs)
    requires forall doc :: doc in docs ==> doc.id != last.id
    ensures CoversRow(if k in last.postings then row[last.id := last.postings[k]] else row, base, k, docs + {last})
  {
  }

  function Elements(docs: seq<Document>): set<Document> {
    set doc | doc in docs
  }

  /** With distinct ids, merging in sequence order covers the documents. */
  lemma {:induction false} MergeAllCovers(words: WordIndex, docs: seq<Document>)
    requires DistinctIds(docs)
    ensures Covers(MergeAll(words, docs), words, Elements(docs))
    decreases |docs|
  {
    if docs != [] {
      var n := |docs| - 1;
      SplitLast(docs);
      MergeAllCovers(words, docs[..n]);
      CoversStep(MergeAll(words, docs[..n]), words, Elements(docs[..n]), docs[n]);
    }
  }

  /** The documents before the last one have distinct ids, none of them the
      last one's. */
  lemma SplitLast(docs: seq<Document>)
    requires DistinctIds(docs) && docs != []
    ensures var n := |docs| - 1;
      && DistinctIds(docs[..n])
      && Elements(docs) == Elements(docs[..n]) + {docs[n]}
      && forall doc :: doc in Elements(docs[..n]) ==> doc.id != docs[n].id
  {
    var n := |docs| - 1;
    assert docs == docs[..n] + [docs[n]];
    forall doc | doc in Elements(docs[..n]) ensures doc.id != docs[n].id {
      var i :| 0 <= i < n && docs[..n][i] == doc;
      assert docs[i] == doc;
    }
  }

  /** Merging one more document, whose id is new, extends what is covered. */
  lemma CoversStep(prev: WordIndex, words: WordIndex, docs: set<Document>, last: Document)
    requires Covers(prev, words, docs)
    requires forall doc :: doc in docs ==> doc.id != last.id
    ensures Covers(Merged(prev, last.postings, last.id), words, docs + {last})
  {
    var r := Merged(prev, last.postings, last.id);
    forall k ensures (k in r <==> k in words || exists doc :: doc in docs + {last} && k in doc.postings)
      && CoversRow(Row(r, k), Row(words, k), k, docs + {last})
    {
      MergedRow(prev, last.postings, last.id, k);
      CoversRowStep(Row(prev, k), Row(words, k), k, docs, last);
    }
  }

  /** Merging the same documents, each with its own id, gives the same index
      in any order: the merges of one indexing run may interleave freely. */
  lemma MergeOrderIrrelevant(words: WordIndex, docs1: seq<Document>, docs2: seq<Document>)
    requires DistinctIds(docs1) && DistinctIds(docs2)
    requires multiset(docs1) == multiset(docs2)
    ensures MergeAll(words, docs1) == MergeAll(words, docs2)
  {
    MergeAllCovers(words, docs1);
    MergeAllCovers(words, docs2);
    assert Elements(docs1) == Elements(docs2) by {
      forall doc ensures doc in docs1 <==> doc in docs2 {
        assert doc in docs1 <==> doc in multiset(docs1);
        assert doc in docs2 <==> doc in multiset(docs2);
      }
    }
    CoversUnique(MergeAll(words, docs1), MergeAll(words, docs2), words, Elements(docs1));
  }

  /** An index that covers some documents also covers them starting from itself. */
  lemma CoversSelf(r: WordIndex, words: WordIndex, docs: set<Document>)
    requires Covers(r, words, docs)
    ensures Covers(r, r, docs)
  {
    forall k ensures CoversRow(Row(r, k), Row(r, k), k, docs) {
      assert CoversRow(Row(r, k), Row(words, k), k, docs);
    }
  }

  /** Indexing the same documents again leaves the index as it was. */
  lemma ReindexIdempotent(words: WordIndex, docs: seq<Document>)
    requires DistinctIds(docs)
    ensures MergeAll(MergeAll(words, docs), docs) == MergeAll(words, docs)
  {
    var once := MergeAll(words, docs);
    MergeAllCovers(words, docs);
    MergeAllCovers(once, docs);
    CoversSelf(once, words, Elements(docs));
    CoversUnique(MergeAll(once, docs), once, once, Elements(docs));
  }

  /** Every list is non-empty and strictly ascending. */
  ghost predicate WellFormed(words: WordIndex) {
    forall k, id :: k in words && id in words[k] ==>
      words[k][id] != [] && forall a, b :: 0 <= a < b < |words[k][id]| ==> words[k][id][a] < words[k][id][b]
  }

  ghost predicate WellFormedPostings(d: map<string, seq<int>>) {
    forall k :: k in d ==> d[k] != [] && forall a, b :: 0 <= a < b < |d[k]| ==> d[k][a] < d[k][b]
  }

  /** Merging a well-formed posting map keeps the index well formed. */
  lemma MergePreservesWellFormed(words: WordIndex, fileDict: map<string, seq<int>>, fileId: string)
    requires WellFormed(words) && WellFormedPostings(fileDict)
    ensures WellFormed(Merged(words, fileDict, fileId))
  {
  }

  /** Merging documents with well-formed postings keeps the index well formed. */
  lemma {:induction false} MergeAllWellFormed(words: WordIndex, docs: seq<Document>)
    requires WellFormed(words)
    requires forall doc :: doc in docs ==> WellFormedPostings(doc.postings)
    ensures WellFormed(MergeAll(words, docs))
    decreases |docs|
  {
    if docs != [] {
      var n := |docs| - 1;
      assert forall doc :: doc in docs[..n] ==> doc in docs;
      MergeAllWellFormed(words, docs[..n]);
      MergePreservesWellFormed(MergeAll(words, docs[..n]), docs[n].postings, docs[n].id);
    }
  }

  /** A candidate of an index built from documents with distinct ids is one
      document that holds every term, and its position lists are that
      document's postings. */
  lemma IndexedTermsBelongToOneDocument(docs: seq<Document>, terms: seq<string>, id: string)
    requires DistinctIds(docs)
    requires terms != []
    requires forall j :: 0 <= j < |terms| ==> id in Row(MergeAll(map[], docs), terms[j])
    ensures exists doc :: (doc in docs && doc.id == id &&
      forall j :: 0 <= j < |terms| ==>
        terms[j] in doc.postings && Row(MergeAll(map[], docs), terms[j])[id] == doc.postings[terms[j]])
  {
    var a := DocumentAt(docs, terms[0], id);
    forall j | 0 <= j < |terms|
      ensures terms[j] in docs[a].postings && Row(MergeAll(map[], docs), terms[j])[id] == docs[a].postings[terms[j]]
    {
      var b := DocumentAt(docs, terms[j], id);
      assert a == b;
    }
    assert docs[a] in docs;
  }

  /** In an index built from documents alone, an entry of a row comes from
      the document with that id. */
  lemma DocumentAt(docs: seq<Document>, k: string, id: string) returns (a: int)
    requires DistinctIds(docs)
    requires id in Row(MergeAll(map[], docs), k)
    ensures 0 <= a < |docs| && docs[a].id == id && k in docs[a].postings
    ensures Row(MergeAll(map[], docs), k)[id] == docs[a].postings[k]
  {
    MergeAllCovers(map[], docs);
    var r := MergeAll(map[], docs);
    assert CoversRow(Row(r, k), Row(map[], k), k, Elements(docs));
    var doc :| doc in Elements(docs) && doc.id == id && k in doc.postings;
    a :| 0 <= a < |docs| && docs[a] == doc;
  }

  /** The document an `index_file` call contributes when its content was read. */
  function DocumentOf(path: string, content: string, hash: string -> string, nz: Normalizer): Document {
    Document(hash(path), PostingsOf(DocumentTokens(content, nz), nz))
  }

  /** The documents of a run, in processing order; unread files contribute none. */
  function Documents(files: seq<(string, Option<string>)>, hash: string -> string, nz: Normalizer): seq<Document>
    decreases |files|
  {
    if files == [] then []
    else
      var n := |files| - 1;
      Documents(files[..n], hash, nz) +
        (match files[n].1 case Some(c) => [DocumentOf(files[n].0, c, hash, nz)] case None => [])
  }

  /** Every document of a run has well-formed postings. */
  lemma {:induction false} DocumentsWellFormed(files: seq<(string, Option<string>)>, hash: string -> string, nz: Normalizer)
    ensures forall doc :: doc in Documents(files, hash, nz) ==> WellFormedPostings(doc.postings)
    decreases |files|
  {
    if files != [] {
      DocumentsWellFormed(files[..|files| - 1], hash, nz);
    }
  }

  /** The registry after registering the read files in order. */
  function Registered(sources: map<string, string>, files: seq<(string, Option<string>)>,
                      hash: string -> string): map<string, string>
    decreases |files|
  {
    if files == [] then sources
    else
      var n := |files| - 1;
      var before := Registered(sources, files[..n], hash);
      if files[n].1.Some? then before[hash(files[n].0) := files[n].0] else before
  }

  class Index {
    var words: WordIndex                  // merged_dictionary
    var sources: map<string, string>      // the sources shelf: file id -> path

    constructor ()
      ensures words == map[] && sources == map[]
    {
      words := map[];
      sources := map[];
    }

    /** `add_file_to_global_dict`: one document's postings enter the index. */
    method Merge(fileDict: map<string, seq<int>>, fileId: string)
      modifies this`words
      ensures words == Merged(old(words), fileDict, fileId)
    {
      var pending := fileDict.Keys;
      while pending != {}
        invariant pending <= fileDict.Keys
        invariant words == Merged(old(words), fileDict - pending, fileId)
        decreases pending
      {
        var key :| key in pending;
        ghost var prev := words;
        MergeLoopStep(old(words), fileDict, pending, key, fileId);
        if key !in words {
          words := words[key := map[]];
        }
        words := words[key := words[key][fileId := fileDict[key]]];
        InsertEntry(prev, key, fileId, fileDict[key]);
        pending := pending - {key};
      }
      assert fileDict - {} == fileDict;
    }

    /** `index_file` for a file whose content was read (`Some`) or not (`None`):
        register its path under its id, build its postings and merge them. */
    method IndexFile(path: string, content: Option<string>, hash: string -> string, nz: Normalizer)
      modifies this
      ensures content.None? ==> words == old(words) && sources == old(sources)
      ensures content.Some? ==>
        && sources == old(sources)[hash(path) := path]
        && words == Merged(old(words), PostingsOf(DocumentTokens(content.value, nz), nz), hash(path))
    {
      if content.Some? {
        var fileId := hash(path);
        sources := sources[fileId := path];
        var text := nz.stripLinks(content.value);
        var fileContentArray := Tokenize(nz.fixContractions(text), nz.unicodeWord);
        var fileDict := BuildPostings(fileContentArray, nz);
        Merge(fileDict, fileId);
      }
    }

    /** The indexing run of `index_dir`, with the files of all levels taken
        one after another. */
    method IndexFiles(files: seq<(string, Option<string>)>, hash: string -> string, nz: Normalizer)
      modifies this
      ensures words == MergeAll(old(words), Documents(files, hash, nz))
      ensures sources == Registered(old(sources), files, hash)
    {
      for i := 0 to |files|
        invariant words == MergeAll(old(words), Documents(files[..i], hash, nz))
        invariant sources == Registered(old(sources), files[..i], hash)
      {
        ghost var docs := Documents(files[..i], hash, nz);
        assert files[..i + 1][..i] == files[..i];
        IndexFile(files[i].0, files[i].1, hash, nz);
        if files[i].1.Some? {
          var doc := DocumentOf(files[i].0, files[i].1.value, hash, nz);
          assert Documents(files[..i + 1], hash, nz) == docs + [doc];
          assert (docs + [doc])[..|docs|] == docs;
        } else {
          assert Documents(files[..i + 1], hash, nz) == docs;
        }
      }
      assert files[..|files|] == files;
    }
  }

  /** The two updates of one loop turn: create the term's row when missing,
      then set the file's entry in it. */
  lemma InsertEntry(prev: WordIndex, key: string, fileId: string, value: seq<int>)
    ensures var created := if key !in prev then prev[key := map[]] else prev;
      created[key := created[key][fileId := value]] == prev[key := Row(prev, key)[fileId := value]]
  {
  }

  /** Merging one more key of the pending set. */
  lemma MergeLoopStep(words: WordIndex, fileDict: map<string, seq<int>>, pending: set<string>,
                      key: string, fileId: string)
    requires key in pending && pending <= fileDict.Keys
    ensures var m := Merged(words, fileDict - pending, fileId);
      Merged(words, fileDict - (pending - {key}), fileId) == m[key := Row(m, key)[fileId := fileDict[key]]]
  {
    var done := fileDict - pending;
    assert fileDict - (pending - {key}) == done[key := fileDict[key]];
    MergeOneMore(words, done, fileDict - (pending - {key}), key, fileDict[key], fileId);
  }

  /** Adding one more key to the merged part of a posting map. */
  lemma MergeOneMore(words: WordIndex, done: map<string, seq<int>>, done': map<string, seq<int>>,
                     key: string, value: seq<int>, fileId: string)
    requires key !in done && done' == done[key := value]
    ensures var m := Merged(words, done, fileId);
      Merged(words, done', fileId) == m[key := Row(m, key)[fileId := value]]
  {
    var m := Merged(words, done, fileId);
    var a := Merged(words, done', fileId);
    var b := m[key := Row(m, key)[fileId := value]];
    forall k | k in a ensures a[k] == b[k] {
      if k == key {
        assert a[k].Keys == b[k].Keys;
      }
    }
  }
}
