/** `ProposalKnowledgeBase` (knowledge_base.py): the documents loaded from
    the knowledge-base directory, the index from section names to document
    ids, the merge step of the hybrid search and the union step of the
    multi-hop search. The directory listing, the embedding index and the
    TF-IDF scores are inputs: their values come from the file system and
    from numerical libraries. */
module KnowledgeBase {
  import opened Wrappers
  import opened TextOps
  import opened Sanitizer
  import opened OrderedDict
  import opened Ranking
  import opened KbText

  datatype Document = Document(id: nat, filename: string, sectionName: string, content: string, metadata: Metadata)

  /** A directory entry: its name and its text, decoded with invalid bytes
      replaced. */
  datatype SourceFile = SourceFile(name: string, text: string)

  predicate IsKbFile(name: string) {
    EndsWith(name, ".md") || EndsWith(name, ".txt")
  }

  // ---------------------------------------------------------------------
  // What load_documents builds

  /** The documents made from the sections of one file, numbered from
      `base` in the order of the sections; `meta` is what the file name
      says (`FileMetadata`). */
  function SectionDocuments(filename: string, meta: Metadata, sections: Dict<string, string>, base: nat): (r: seq<Document>)
    ensures |r| == |sections|
  {
    seq(|sections|, n requires 0 <= n < |sections| =>
      Document(base + n, filename, RemoveProblematicChars(sections[n].0), RemoveProblematicChars(sections[n].1), meta))
  }

  lemma AppendNext<T>(start: seq<T>, s: seq<T>, j: nat)
    requires j < |s|
    ensures start + s[..j + 1] == start + s[..j] + [s[j]]
  {
    assert s[..j + 1] == s[..j] + [s[j]];
  }

  function FileDocuments(f: SourceFile, base: nat): seq<Document> {
    var filename := RemoveProblematicChars(f.name);
    SectionDocuments(filename, FileMetadata(filename), Sections(RemoveProblematicChars(f.text)), base)
  }

  /** The documents of a directory listing, file by file in listing order;
      files that are neither `.md` nor `.txt` contribute nothing. */
  function LoadedDocuments(files: seq<SourceFile>): seq<Document> {
    if files == [] then []
    else
      var prev := LoadedDocuments(files[..|files| - 1]);
      var f := files[|files| - 1];
      prev + (if IsKbFile(f.name) then FileDocuments(f, |prev|) else [])
  }

  /** `section_map`: each section name with the ids of its documents. */
  function IndexSections(docs: seq<Document>): Dict<string, seq<nat>> {
    if docs == [] then []
    else
      var m := IndexSections(docs[..|docs| - 1]);
      var d := docs[|docs| - 1];
      Put(m, d.sectionName, Get(m, d.sectionName).GetOr([]) + [d.id])
  }

  function MetadataOf(docs: seq<Document>): (r: seq<Metadata>)
    ensures |r| == |docs| && forall i :: 0 <= i < |docs| ==> r[i] == docs[i].metadata
  {
    seq(|docs|, i requires 0 <= i < |docs| => docs[i].metadata)
  }

  /** Ids are positions and every stored text is sanitized. */
  predicate WellFormed(docs: seq<Document>) {
    forall i :: 0 <= i < |docs| ==>
      && docs[i].id == i
      && IsSanitized(docs[i].filename) && IsSanitized(docs[i].sectionName) && IsSanitized(docs[i].content)
  }

  /** The ids of the documents of section `name`, in document order. */
  function Positions(docs: seq<Document>, name: string): seq<nat> {
    if docs == [] then []
    else
      var d := docs[|docs| - 1];
      Positions(docs[..|docs| - 1], name) + (if d.sectionName == name then [d.id] else [])
  }

  /** The documents of section `name`, in document order. */
  function SectionFilter(docs: seq<Document>, name: string): seq<Document> {
    if docs == [] then []
    else
      var d := docs[|docs| - 1];
      SectionFilter(docs[..|docs| - 1], name) + (if d.sectionName == name then [d] else [])
  }

  /** The section names, each once, in the order they first occur. */
  function FirstAppearance(docs: seq<Document>): seq<string> {
    if docs == [] then []
    else
      var names := FirstAppearance(docs[..|docs| - 1]);
      var d := docs[|docs| - 1];
      if d.sectionName in names then names else names + [d.sectionName]
  }

  /** The copy of a document that the queries return: its content is
      sanitized again. */
  function Returned(d: Document): Document {
    d.(content := RemoveProblematicChars(d.content))
  }

  // ---------------------------------------------------------------------
  // The knowledge base

  datatype Hit = Hit(score: real, doc: Document)

  /** What the embedding and TF-IDF libraries hand to the merge: every dense
      label is a document position or the padding label -1, and there is
      one sparse score per document. */
  predicate SearchInputs(n: nat, dense: seq<(real, int)>, sparse: seq<real>) {
    && |sparse| == n
    && forall i :: 0 <= i < |dense| ==> -1 <= dense[i].1 < n
  }

  class ProposalKnowledgeBase {
    var documents: seq<Document>
    var sectionMap: Dict<string, seq<nat>>
    var metadata: seq<Metadata>
    /** `self.index is not None`. */
    var indexed: bool

    ghost predicate Valid()
      reads this
    {
      && WellFormed(documents)
      && sectionMap == IndexSections(documents)
      && metadata == MetadataOf(documents)
    }

    /** `__init__`: a missing directory is created empty, then loaded. */
    constructor (dirExists: bool, listing: seq<SourceFile>)
      ensures Valid()
      ensures documents == (if dirExists then LoadedDocuments(listing) else [])
      ensures indexed == (|documents| > 0)
    {
      documents := [];
      sectionMap := [];
      metadata := [];
      indexed := false;
      new;
      LoadDocuments(true, if dirExists then listing else []);
    }

    /** `load_documents`: rebuilds the documents, the section index and the
        metadata from the listing; the search index is rebuilt only when
        there is at least one document. */
    method LoadDocuments(dirExists: bool, listing: seq<SourceFile>)
      modifies this
      ensures documents == (if dirExists then LoadedDocuments(listing) else [])
      ensures sectionMap == IndexSections(documents)
      ensures metadata == MetadataOf(documents)
      ensures indexed == (old(indexed) || |documents| > 0)
      ensures Valid()
    {
      documents := [];
      sectionMap := [];
      metadata := [];
      if !dirExists {
        return;
      }
      for i := 0 to |listing|
        invariant documents == LoadedDocuments(listing[..i])
        invariant sectionMap == IndexSections(documents)
        invariant metadata == MetadataOf(documents)
        invariant indexed == old(indexed)
      {
        var f := listing[i];
        LoadedStep(listing[..i + 1]);
        assert listing[..i + 1][..i] == listing[..i];
        if EndsWith(f.name, ".md") || EndsWith(f.name, ".txt") {
          var base := |documents|;
          var sections := SplitIntoSections(RemoveProblematicChars(f.text));
          var filename := RemoveProblematicChars(f.name);
          // the same for every section of the file
          var meta := FileMetadata(filename);
          AddSections(filename, meta, sections);
          assert documents == LoadedDocuments(listing[..i]) + FileDocuments(f, base);
        }
      }
      assert listing[..|listing|] == listing;
      LoadedWellFormed(listing);
      if |documents| > 0 {
        indexed := true;
      }
    }

    /** The inner loop of `load_documents`: one document per section, each
        indexed under its sanitized name as it is added. */
    method AddSections(filename: string, meta: Metadata, sections: Dict<string, string>)
      modifies this
      requires sectionMap == IndexSections(documents)
      requires metadata == MetadataOf(documents)
      ensures documents == old(documents) + SectionDocuments(filename, meta, sections, |old(documents)|)
      ensures sectionMap == IndexSections(documents)
      ensures metadata == MetadataOf(documents)
      ensures indexed == old(indexed)
    {
      ghost var start := documents;
      ghost var target := SectionDocuments(filename, meta, sections, |start|);
      for j := 0 to |sections|
        invariant documents == start + target[..j]
        invariant sectionMap == IndexSections(documents)
        invariant metadata == MetadataOf(documents)
        invariant indexed == old(indexed)
      {
        var name, content := sections[j].0, sections[j].1;
        var docId := |documents|;
        var d := Document(docId, filename, RemoveProblematicChars(name), RemoveProblematicChars(content), meta);
        assert d == target[j];
        AppendNext(start, target, j);
        AddDocument(d);
      }
      assert target[..|sections|] == target;
    }

    /** The body of that loop: append the document, record its id under
        its section name, and append its metadata. */
    method AddDocument(d: Document)
      modifies this
      requires sectionMap == IndexSections(documents)
      requires metadata == MetadataOf(documents)
      ensures documents == old(documents) + [d]
      ensures sectionMap == IndexSections(documents)
      ensures metadata == MetadataOf(documents)
      ensures indexed == old(indexed)
    {
      IndexSectionsStep(documents, d);
      var key := d.sectionName;
      documents := documents + [d];
      sectionMap := Put(sectionMap, key, Get(sectionMap, key).GetOr([]) + [d.id]);
      metadata := metadata + [d.metadata];
    }

    /** `hybrid_search`, from the point where the libraries have scored the
        query: `dense` holds the (distance, label) pairs of the embedding
        index and `sparse` the TF-IDF similarity of every document. */
    method HybridSearch(k: nat, dense: seq<(real, int)>, sparse: seq<real>) returns (results: seq<Hit>)
      requires Valid() && SearchInputs(|documents|, dense, sparse)
      ensures results == HybridResults(documents, indexed, k, dense, sparse)
    {
      if !indexed || documents == [] {
        return [];
      }
      var combined := MergeCandidates(k, dense, sparse);
      MergedFacts(|documents|, k, dense, sparse);
      results := ToHits(documents, SortTake(combined, k));
    }

    /** `get_section_documents`: the documents of the section with the
        sanitized name, in stored order; an unknown name gives none. */
    function GetSectionDocuments(name: string): (r: seq<Document>)
      reads this
      requires Valid()
      ensures r == SectionFilter(documents, RemoveProblematicChars(name))
    {
      var key := RemoveProblematicChars(name);
      var ids := Get(sectionMap, key).GetOr([]);
      IndexSectionsFacts(documents);
      PositionsSelect(documents, key);
      DocsAt(documents, ids)
    }

    /** `get_all_section_names`: every section name once, in the order the
        names first occur among the documents. */
    function GetAllSectionNames(): (r: seq<string>)
      reads this
      requires Valid()
      ensures r == FirstAppearance(documents)
    {
      var keys := Keys(sectionMap);
      IndexSectionsFacts(documents);
      NamesSanitized(documents);
      seq(|keys|, i requires 0 <= i < |keys| => RemoveProblematicChars(keys[i]))
    }
  }

  // ---------------------------------------------------------------------
  // The merge step of hybrid_search

  function Labels(c: seq<(real, int)>): (r: seq<int>)
    ensures |r| == |c| && forall i :: 0 <= i < |c| ==> r[i] == c[i].1
  {
    seq(|c|, i requires 0 <= i < |c| => c[i].1)
  }

  function Scores(c: seq<(real, int)>): (r: seq<real>)
    ensures |r| == |c| && forall i :: 0 <= i < |c| ==> r[i] == c[i].0
  {
    seq(|c|, i requires 0 <= i < |c| => c[i].0)
  }

  /** `np.argsort(-sparse_scores)[:k]`: the `k` best sparse positions. */
  function SparseTop(sparse: seq<real>, k: nat): (r: seq<nat>)
    ensures |r| <= k && forall j :: 0 <= j < |r| ==> r[j] < |sparse|
  {
    Take(RankDesc(sparse), k)
  }

  /** The dense pairs, then the top sparse positions with their scores. */
  function Candidates(dense: seq<(real, int)>, sparse: seq<real>, sparseTop: seq<nat>): (r: seq<(real, int)>)
    requires forall j :: 0 <= j < |sparseTop| ==> sparseTop[j] < |sparse|
    ensures |r| == |dense| + |sparseTop| && forall j :: 0 <= j < |dense| ==> r[j] == dense[j]
    ensures forall j :: 0 <= j < |sparseTop| ==> r[|dense| + j] == (sparse[sparseTop[j]], sparseTop[j] as int)
  {
    dense + seq(|sparseTop|, j requires 0 <= j < |sparseTop| => (sparse[sparseTop[j]], sparseTop[j] as int))
  }

  /** The `seen` set over the first `n` candidates: the first candidate of
      each label is kept. */
  function Dedup(c: seq<(real, int)>, n: nat): seq<(real, int)>
    requires n <= |c|
  {
    if n == 0 then []
    else
      var r := Dedup(c, n - 1);
      if c[n - 1].1 in Labels(r) then r else r + [c[n - 1]]
  }

  lemma {:induction false} DedupFacts(c: seq<(real, int)>, n: nat)
    requires n <= |c|
    ensures forall i :: 0 <= i < |Dedup(c, n)| ==> Dedup(c, n)[i] in c
    ensures forall a, b :: 0 <= a < b < |Dedup(c, n)| ==> Dedup(c, n)[a].1 != Dedup(c, n)[b].1
    ensures forall i :: 0 <= i < n ==> c[i].1 in Labels(Dedup(c, n))
    ensures |Dedup(c, n)| <= n
  {
    if n > 0 {
      DedupFacts(c, n - 1);
      var r := Dedup(c, n - 1);
      forall i | 0 <= i < n ensures c[i].1 in Labels(Dedup(c, n)) {
        if i < n - 1 {
          var j :| 0 <= j < |r| && Labels(r)[j] == c[i].1;
          assert Labels(Dedup(c, n))[j] == c[i].1;
        } else if c[i].1 !in Labels(r) {
          assert Labels(Dedup(c, n))[|r|] == c[i].1;
        }
      }
    }
  }

  /** Each kept pair is the first candidate with its label: when a label
      occurs several times, the earliest pair is the one that stays. */
  lemma {:induction false} DedupFirst(c: seq<(real, int)>, n: nat)
    requires n <= |c|
    ensures forall i :: 0 <= i < |Dedup(c, n)| ==> exists j :: 0 <= j < n && Dedup(c, n)[i] == c[j] && FirstOfLabel(c, j)
  {
    if n > 0 {
      DedupFirst(c, n - 1);
      var r := Dedup(c, n - 1);
      forall i | 0 <= i < |Dedup(c, n)| ensures exists j :: 0 <= j < n && Dedup(c, n)[i] == c[j] && FirstOfLabel(c, j) {
        var d := Dedup(c, n);
        if i < |r| {
          assert d[i] == r[i];
          var j :| 0 <= j < n - 1 && r[i] == c[j] && FirstOfLabel(c, j);
        } else {
          DedupFacts(c, n - 1);
          forall t | 0 <= t < n - 1 ensures c[t].1 != c[n - 1].1 {
            assert c[t].1 in Labels(r);
          }
          assert d[i] == c[n - 1];
        }
      }
    } else {
      assert Dedup(c, n) == [];
    }
  }

  /** No candidate before position `j` has the label of candidate `j`. */
  predicate FirstOfLabel(c: seq<(real, int)>, j: nat)
    requires j < |c|
  {
    forall t :: 0 <= t < j ==> c[t].1 != c[j].1
  }

  /** The two `seen` loops of `hybrid_search`: the dense pairs, then the
      `k` best sparse positions, each kept when its label is new. */
  method MergeCandidates(k: nat, dense: seq<(real, int)>, sparse: seq<real>) returns (combined: seq<(real, int)>)
    ensures var c := Candidates(dense, sparse, SparseTop(sparse, k)); combined == Dedup(c, |c|)
  {
    var sparseTop := SparseTop(sparse, k);
    var candidates := Candidates(dense, sparse, sparseTop);
    var seen: set<int> := {};
    combined := [];
    for i := 0 to |dense|
      invariant combined == Dedup(candidates, i)
      invariant forall x :: x in seen <==> x in Labels(combined)
    {
      combined, seen := KeepUnseen(candidates, i, dense[i], combined, seen);
    }
    for j := 0 to |sparseTop|
      invariant combined == Dedup(candidates, |dense| + j)
      invariant forall x :: x in seen <==> x in Labels(combined)
    {
      var idx := sparseTop[j];
      combined, seen := KeepUnseen(candidates, |dense| + j, (sparse[idx], idx as int), combined, seen);
    }
  }

  /** One pass of either `seen` loop, on candidate `p` at position `n`: the
      pair is appended when its label has not been seen, and `seen` keeps
      naming the labels kept so far. */
  method KeepUnseen(c: seq<(real, int)>, n: nat, p: (real, int), combined: seq<(real, int)>, seen: set<int>)
    returns (next: seq<(real, int)>, nextSeen: set<int>)
    requires n < |c| && c[n] == p && combined == Dedup(c, n)
    requires forall x :: x in seen <==> x in Labels(combined)
    ensures next == Dedup(c, n + 1)
    ensures forall x :: x in nextSeen <==> x in Labels(next)
  {
    var idx := p.1;
    assert idx in seen <==> idx in Labels(combined);
    next, nextSeen := combined, seen;
    if idx !in seen {
      assert Labels(combined + [p]) == Labels(combined) + [idx];
      next, nextSeen := combined + [p], seen + {idx};
    }
  }

  /** `combined.sort(key=score, reverse=True)`, cut to `k`. */
  function SortTake(combined: seq<(real, int)>, k: nat): seq<(real, int)> {
    Take(SortDesc(combined, Scores(combined)), k)
  }

  /** The `combined` list: the candidates without repeated labels. */
  function Combined(k: nat, dense: seq<(real, int)>, sparse: seq<real>): seq<(real, int)> {
    var c := Candidates(dense, sparse, SparseTop(sparse, k));
    Dedup(c, |c|)
  }

  /** The merge: the candidates without repeated labels, sorted and cut. */
  function Merged(k: nat, dense: seq<(real, int)>, sparse: seq<real>): seq<(real, int)> {
    SortTake(Combined(k, dense, sparse), k)
  }

  /** Sorting and cutting keeps the `k` best pairs: as many as there are,
      up to `k`, and every pair left out scores no higher than every pair
      kept. */
  lemma SortTakeTop(combined: seq<(real, int)>, k: nat)
    ensures |SortTake(combined, k)| == if k < |combined| then k else |combined|
    ensures forall x, i :: x in combined && x !in SortTake(combined, k) && 0 <= i < |SortTake(combined, k)| ==>
      x.0 <= SortTake(combined, k)[i].0
  {
    var keys := Scores(combined);
    var order := RankDesc(keys);
    var m := SortTake(combined, k);
    forall x, i | x in combined && x !in m && 0 <= i < |m| ensures x.0 <= m[i].0 {
      var j :| 0 <= j < |combined| && combined[j] == x;
      TakeSortedIsTop(combined, keys, k, j);
      assert m[i] == combined[order[i]];
    }
  }

  /** A kept pair whose label is a dense neighbour's is that dense pair:
      the dense loop runs first, so its pair wins. */
  lemma DenseKept(dense: seq<(real, int)>, sparse: seq<real>, top: seq<nat>, x: (real, int))
    requires forall j :: 0 <= j < |top| ==> top[j] < |sparse|
    requires x in Dedup(Candidates(dense, sparse, top), |Candidates(dense, sparse, top)|)
    requires x.1 in Labels(dense)
    ensures x in dense
  {
    var c := Candidates(dense, sparse, top);
    var d := Dedup(c, |c|);
    DedupFirst(c, |c|);
    var i :| 0 <= i < |d| && d[i] == x;
    var j :| 0 <= j < |c| && d[i] == c[j] && FirstOfLabel(c, j);
    var t :| 0 <= t < |dense| && Labels(dense)[t] == x.1;
    assert c[t] == dense[t];
    assert j < |dense|;
    assert c[j] == dense[j];
  }

  /** Sorting and cutting keeps at most `k` of the pairs, in non-increasing
      score order, and keeps distinct labels distinct. */
  lemma SortTakeFacts(combined: seq<(real, int)>, k: nat)
    ensures |SortTake(combined, k)| <= k
    ensures var m := SortTake(combined, k);
      forall i :: 0 <= i < |m| ==> m[i] in combined
    ensures var m := SortTake(combined, k);
      forall a, b :: 0 <= a < b < |m| ==> m[a].0 >= m[b].0
    ensures (forall a, b :: 0 <= a < b < |combined| ==> combined[a].1 != combined[b].1) ==>
      var m := SortTake(combined, k);
      forall a, b :: 0 <= a < b < |m| ==> m[a].1 != m[b].1
  {
    var keys := Scores(combined);
    SortDescFacts(combined, keys);
    var order := RankDesc(keys);
    var m := SortTake(combined, k);
    assert forall i :: 0 <= i < |m| ==> m[i] == combined[order[i]];
    if forall a, b :: 0 <= a < b < |combined| ==> combined[a].1 != combined[b].1 {
      forall a, b | 0 <= a < b < |m| ensures m[a].1 != m[b].1 {
        assert order[a] != order[b];
        if order[a] < order[b] {
          assert combined[order[a]].1 != combined[order[b]].1;
        } else {
          assert combined[order[b]].1 != combined[order[a]].1;
        }
      }
    }
  }

  /** Every candidate is a dense pair or a top sparse position with its
      score; either way its label is a document position or -1. */
  lemma CandidateOrigin(n: nat, dense: seq<(real, int)>, sparse: seq<real>, top: seq<nat>, x: (real, int))
    requires SearchInputs(n, dense, sparse) && forall j :: 0 <= j < |top| ==> top[j] < |sparse|
    requires x in Candidates(dense, sparse, top)
    ensures x in dense || FromSparse(x, sparse, top)
    ensures -1 <= x.1 < n
  {
    var c := Candidates(dense, sparse, top);
    var t :| 0 <= t < |c| && c[t] == x;
    if t < |dense| {
      assert c[t] == dense[t];
    } else {
      assert c[t] == (sparse[top[t - |dense|]], top[t - |dense|] as int);
    }
  }

  /** What the merge promises: the `k` best pairs of `combined` (all of
      them when there are fewer), in non-increasing score order, each label
      at most once, each pair a dense pair or one of the `k` best sparse
      positions with its score, the dense pair whenever a dense neighbour
      has the label, and every label a document position or the padding
      label -1. */
  lemma MergedFacts(n: nat, k: nat, dense: seq<(real, int)>, sparse: seq<real>)
    requires SearchInputs(n, dense, sparse)
    ensures |Merged(k, dense, sparse)| <= k
    ensures var m := Merged(k, dense, sparse);
      forall a, b :: 0 <= a < b < |m| ==> m[a].0 >= m[b].0 && m[a].1 != m[b].1
    ensures var m := Merged(k, dense, sparse);
      forall i :: 0 <= i < |m| ==> m[i] in dense || FromSparse(m[i], sparse, SparseTop(sparse, k))
    ensures var m := Merged(k, dense, sparse);
      forall i :: 0 <= i < |m| ==> -1 <= m[i].1 < n
    ensures |Merged(k, dense, sparse)| == if k < |Combined(k, dense, sparse)| then k else |Combined(k, dense, sparse)|
    ensures forall x, i :: x in Combined(k, dense, sparse) && x !in Merged(k, dense, sparse) && 0 <= i < |Merged(k, dense, sparse)| ==>
      x.0 <= Merged(k, dense, sparse)[i].0
    ensures var m := Merged(k, dense, sparse);
      forall i :: 0 <= i < |m| && m[i].1 in Labels(dense) ==> m[i] in dense
  {
    var top := SparseTop(sparse, k);
    var c := Candidates(dense, sparse, top);
    var combined := Dedup(c, |c|);
    DedupFacts(c, |c|);
    SortTakeFacts(combined, k);
    SortTakeTop(combined, k);
    var m := SortTake(combined, k);
    forall i | 0 <= i < |m| ensures (m[i] in dense || FromSparse(m[i], sparse, top)) && -1 <= m[i].1 < n {
      CandidateOrigin(n, dense, sparse, top, m[i]);
    }
    forall i | 0 <= i < |m| && m[i].1 in Labels(dense) ensures m[i] in dense {
      DenseKept(dense, sparse, top, m[i]);
    }
  }

  /** Pair `p` is one of the top sparse positions with its sparse score. */
  predicate FromSparse(p: (real, int), sparse: seq<real>, top: seq<nat>)
    requires forall j :: 0 <= j < |top| ==> top[j] < |sparse|
  {
    exists j :: 0 <= j < |top| && p == (sparse[top[j]], top[j] as int)
  }

  /** `self.documents[idx]`, where -1 stands for the last document. */
  function DocAt(docs: seq<Document>, idx: int): Document
    requires docs != [] && -1 <= idx < |docs|
  {
    if idx < 0 then docs[|docs| - 1] else docs[idx]
  }

  /** The result list: each pair's score with a copy of its document. */
  function ToHits(docs: seq<Document>, pairs: seq<(real, int)>): (r: seq<Hit>)
    requires docs != [] && forall i :: 0 <= i < |pairs| ==> -1 <= pairs[i].1 < |docs|
    ensures |r| == |pairs|
    ensures forall i :: 0 <= i < |r| ==> r[i].score == pairs[i].0 && r[i].doc == Returned(DocAt(docs, pairs[i].1))
  {
    seq(|pairs|, i requires 0 <= i < |pairs| => Hit(pairs[i].0, Returned(DocAt(docs, pairs[i].1))))
  }

  function HybridResults(docs: seq<Document>, indexed: bool, k: nat, dense: seq<(real, int)>, sparse: seq<real>): seq<Hit>
    requires SearchInputs(|docs|, dense, sparse)
  {
    if !indexed || docs == [] then []
    else
      MergedFacts(|docs|, k, dense, sparse);
      ToHits(docs, Merged(k, dense, sparse))
  }

  /** What `hybrid_search` promises: nothing without an index or without
      documents; otherwise the hits of the `k` best merged pairs (all of
      them when there are fewer), in non-increasing score order. */
  lemma HybridSearchFacts(docs: seq<Document>, indexed: bool, k: nat, dense: seq<(real, int)>, sparse: seq<real>)
    requires SearchInputs(|docs|, dense, sparse)
    ensures !indexed || docs == [] ==> HybridResults(docs, indexed, k, dense, sparse) == []
    ensures |HybridResults(docs, indexed, k, dense, sparse)| <= k
    ensures var r := HybridResults(docs, indexed, k, dense, sparse);
      forall a, b :: 0 <= a < b < |r| ==> r[a].score >= r[b].score
    ensures indexed && docs != [] ==>
      |HybridResults(docs, indexed, k, dense, sparse)| == if k < |Combined(k, dense, sparse)| then k else |Combined(k, dense, sparse)|
    ensures indexed && docs != [] ==>
      forall x, i :: x in Combined(k, dense, sparse) && x !in Merged(k, dense, sparse) && 0 <= i < |HybridResults(docs, indexed, k, dense, sparse)| ==>
        x.0 <= HybridResults(docs, indexed, k, dense, sparse)[i].score
  {
    if indexed && docs != [] {
      MergedFacts(|docs|, k, dense, sparse);
    }
  }

  /** Hit `h` carries the score of pair `p` and a copy of its document. */
  predicate HitOf(h: Hit, docs: seq<Document>, p: (real, int))
    requires docs != [] && -1 <= p.1 < |docs|
  {
    h.score == p.0 && h.doc == Returned(DocAt(docs, p.1))
  }

  /** Each hit is a dense neighbour with its distance, or one of the `k`
      best sparse positions with its score. */
  lemma HybridSearchSources(docs: seq<Document>, indexed: bool, k: nat, dense: seq<(real, int)>, sparse: seq<real>)
    requires SearchInputs(|docs|, dense, sparse) && indexed && docs != []
    ensures var r := HybridResults(docs, indexed, k, dense, sparse);
      forall i :: 0 <= i < |r| ==> FromCandidate(r[i], docs, dense, sparse, SparseTop(sparse, k))
  {
    MergedFacts(|docs|, k, dense, sparse);
    HitsFromPairs(docs, dense, sparse, SparseTop(sparse, k), Merged(k, dense, sparse));
  }

  /** The hits made from pairs that are dense pairs or top sparse positions
      are hits of such pairs. */
  lemma HitsFromPairs(docs: seq<Document>, dense: seq<(real, int)>, sparse: seq<real>, top: seq<nat>, m: seq<(real, int)>)
    requires SearchInputs(|docs|, dense, sparse) && docs != [] && forall j :: 0 <= j < |top| ==> top[j] < |sparse|
    requires forall i :: 0 <= i < |m| ==> -1 <= m[i].1 < |docs|
    requires forall i :: 0 <= i < |m| ==> m[i] in dense || FromSparse(m[i], sparse, top)
    ensures forall i :: 0 <= i < |ToHits(docs, m)| ==> FromCandidate(ToHits(docs, m)[i], docs, dense, sparse, top)
  {
    var r := ToHits(docs, m);
    forall i | 0 <= i < |r| ensures FromCandidate(r[i], docs, dense, sparse, top) {
      HitSource(docs, dense, sparse, top, r[i], m[i]);
    }
  }

  /** Hit `h` is the hit of a dense pair or of a top sparse position. */
  predicate FromCandidate(h: Hit, docs: seq<Document>, dense: seq<(real, int)>, sparse: seq<real>, top: seq<nat>)
    requires SearchInputs(|docs|, dense, sparse) && docs != [] && forall j :: 0 <= j < |top| ==> top[j] < |sparse|
  {
    || (exists j :: 0 <= j < |dense| && HitOf(h, docs, dense[j]))
    || (exists j :: 0 <= j < |top| && HitOf(h, docs, (sparse[top[j]], top[j] as int)))
  }

  /** A hit made from a dense pair or a top sparse position is a hit of
      that pair. */
  lemma HitSource(docs: seq<Document>, dense: seq<(real, int)>, sparse: seq<real>, top: seq<nat>, h: Hit, p: (real, int))
    requires SearchInputs(|docs|, dense, sparse) && docs != [] && forall j :: 0 <= j < |top| ==> top[j] < |sparse|
    requires p in dense || FromSparse(p, sparse, top)
    requires -1 <= p.1 < |docs| && HitOf(h, docs, p)
    ensures FromCandidate(h, docs, dense, sparse, top)
  {
    if p in dense {
      var j :| 0 <= j < |dense| && dense[j] == p;
    } else {
      var j :| 0 <= j < |top| && p == (sparse[top[j]], top[j] as int);
    }
  }

  /** Without padding labels, no document is returned twice. */
  lemma HybridSearchDistinct(docs: seq<Document>, indexed: bool, k: nat, dense: seq<(real, int)>, sparse: seq<real>)
    requires SearchInputs(|docs|, dense, sparse) && WellFormed(docs)
    requires forall j :: 0 <= j < |dense| ==> dense[j].1 >= 0
    ensures var r := HybridResults(docs, indexed, k, dense, sparse);
      forall a, b :: 0 <= a < b < |r| ==> r[a].doc.id != r[b].doc.id
  {
    if indexed && docs != [] {
      MergedFacts(|docs|, k, dense, sparse);
      var m := Merged(k, dense, sparse);
      var r := HybridResults(docs, indexed, k, dense, sparse);
      assert r == ToHits(docs, m);
      forall a, b | 0 <= a < b < |r| ensures r[a].doc.id != r[b].doc.id {
        NoPaddingLabel(|docs|, k, dense, sparse, a);
        NoPaddingLabel(|docs|, k, dense, sparse, b);
        assert r[a].doc.id == m[a].1 && r[b].doc.id == m[b].1;
      }
    }
  }

  /** Without padding in the dense answer, every merged label is a
      document position. */
  lemma NoPaddingLabel(n: nat, k: nat, dense: seq<(real, int)>, sparse: seq<real>, i: nat)
    requires SearchInputs(n, dense, sparse) && forall j :: 0 <= j < |dense| ==> dense[j].1 >= 0
    requires i < |Merged(k, dense, sparse)|
    ensures Merged(k, dense, sparse)[i].1 >= 0
  {
    MergedFacts(n, k, dense, sparse);
    var top := SparseTop(sparse, k);
    var x := Merged(k, dense, sparse)[i];
    if !(x in dense) {
      var j :| 0 <= j < |top| && x == (sparse[top[j]], top[j] as int);
    }
  }

  // ---------------------------------------------------------------------
  // multi_hop_search

  /** The query of the second pass: the cleaned query, a space, and the
      first 200 characters of each of the first three hits, joined by
      spaces. */
  function RefinedQuery(cleaned: string, first: seq<Hit>): string {
    var lead := Take(first, 3);
    cleaned + " " + Join(seq(|lead|, i requires 0 <= i < |lead| => Prefix(RemoveProblematicChars(lead[i].doc.content), 200)), " ")
  }

  /** The hits of both passes, first pass first. */
  function BothPasses(query: string, k: nat, search: (string, nat) -> seq<Hit>): seq<Hit> {
    var cleaned := RemoveProblematicChars(query);
    var first := search(cleaned, 3 * k);
    first + search(RefinedQuery(cleaned, first), k)
  }

  /** `{r["document"]["id"]: r for r in hits}`. */
  function ById(hits: seq<Hit>): Dict<nat, Hit> {
    if hits == [] then []
    else
      var h := hits[|hits| - 1];
      Put(ById(hits[..|hits| - 1]), h.doc.id, h)
  }

  /** The last hit for document `id`, the one a dict keyed by id keeps. */
  function LastWithId(hits: seq<Hit>, id: nat): Option<Hit> {
    if hits == [] then None
    else if hits[|hits| - 1].doc.id == id then Some(hits[|hits| - 1])
    else LastWithId(hits[..|hits| - 1], id)
  }

  function HitScores(hits: seq<Hit>): (r: seq<real>)
    ensures |r| == |hits| && forall i :: 0 <= i < |hits| ==> r[i] == hits[i].score
  {
    seq(|hits|, i requires 0 <= i < |hits| => hits[i].score)
  }

  /** `multi_hop_search`, with the hybrid search given as `search`: the `k`
      best of the last hits per document over both passes (all of them when
      there are fewer), highest score first. */
  function MultiHopSearch(query: string, k: nat, search: (string, nat) -> seq<Hit>): (r: seq<Hit>)
    ensures |r| <= k
    ensures forall a, b :: 0 <= a < b < |r| ==> r[a].score >= r[b].score
    ensures forall a, b :: 0 <= a < b < |r| ==> r[a].doc.id != r[b].doc.id
    ensures forall i :: 0 <= i < |r| ==> LastWithId(BothPasses(query, k, search), r[i].doc.id) == Some(r[i])
    ensures |r| == if k < |ById(BothPasses(query, k, search))| then k else |ById(BothPasses(query, k, search))|
    ensures forall id, i :: LastWithId(BothPasses(query, k, search), id).Some? && LastWithId(BothPasses(query, k, search), id).value !in r && 0 <= i < |r| ==>
      LastWithId(BothPasses(query, k, search), id).value.score <= r[i].score
    ensures |r| < k ==> forall id :: LastWithId(BothPasses(query, k, search), id).Some? ==> LastWithId(BothPasses(query, k, search), id).value in r
  {
    var both := BothPasses(query, k, search);
    ByIdFacts(both);
    var all := ById(both);
    var top := TopHits(all, k);
    forall i | 0 <= i < |top| ensures LastWithId(both, top[i].doc.id) == Some(top[i]) {
      var j :| 0 <= j < |all| && all[j].1 == top[i];
    }
    TopOfBoth(both, k);
    top
  }

  /** The `k` best of the last hits per document: a last hit left out
      scores no higher than any hit returned, and when fewer than `k` hits
      come back every last hit is among them. */
  lemma TopOfBoth(both: seq<Hit>, k: nat)
    requires DistinctKeys(ById(both)) && forall i :: 0 <= i < |ById(both)| ==> ById(both)[i].1.doc.id == ById(both)[i].0
    ensures forall id, i :: LastWithId(both, id).Some? && LastWithId(both, id).value !in TopHits(ById(both), k) && 0 <= i < |TopHits(ById(both), k)| ==>
      LastWithId(both, id).value.score <= TopHits(ById(both), k)[i].score
    ensures |TopHits(ById(both), k)| < k ==> forall id :: LastWithId(both, id).Some? ==> LastWithId(both, id).value in TopHits(ById(both), k)
  {
    var all := ById(both);
    var top := TopHits(all, k);
    forall id | LastWithId(both, id).Some?
      ensures LastWithId(both, id).value !in top ==> forall i :: 0 <= i < |top| ==> LastWithId(both, id).value.score <= top[i].score
      ensures |top| < k ==> LastWithId(both, id).value in top
    {
      var j := LastInDict(both, id);
      if |top| < k {
        assert top == SortDesc(Values(all), HitScores(Values(all)));
        assert Values(all)[j] == all[j].1;
        SortedHasAll(Values(all), HitScores(Values(all)), j);
      }
    }
  }

  /** The last hit for a document found by either pass is the value the
      dictionary holds at that document's key. */
  lemma LastInDict(hits: seq<Hit>, id: nat) returns (j: nat)
    requires LastWithId(hits, id).Some?
    ensures j < |ById(hits)| && ById(hits)[j].1 == LastWithId(hits, id).value
  {
    ByIdFacts(hits);
    var d := ById(hits);
    assert Get(d, id) == LastWithId(hits, id);
    j := IndexOf(d, id).value;
  }

  /** `sorted(all_r.values(), key=score, reverse=True)[:k]` for a dictionary
      keyed by document id. */
  function TopHits(all: Dict<nat, Hit>, k: nat): (r: seq<Hit>)
    requires DistinctKeys(all) && forall i :: 0 <= i < |all| ==> all[i].1.doc.id == all[i].0
    ensures |r| <= k
    ensures forall a, b :: 0 <= a < b < |r| ==> r[a].score >= r[b].score && r[a].doc.id != r[b].doc.id
    ensures forall i :: 0 <= i < |r| ==> exists j :: 0 <= j < |all| && all[j].1 == r[i]
    ensures |r| == if k < |all| then k else |all|
    ensures forall j, i :: 0 <= j < |all| && all[j].1 !in r && 0 <= i < |r| ==> all[j].1.score <= r[i].score
  {
    var top := Take(SortDesc(Values(all), HitScores(Values(all))), k);
    CutOrder(all, k, top);
    CutIsTop(all, k, top);
    top
  }

  /** The cut of the sorted values is sorted by score, holds each document
      once, and takes only values of the dictionary. */
  lemma CutOrder(all: Dict<nat, Hit>, k: nat, top: seq<Hit>)
    requires DistinctKeys(all) && forall i :: 0 <= i < |all| ==> all[i].1.doc.id == all[i].0
    requires top == Take(SortDesc(Values(all), HitScores(Values(all))), k)
    ensures forall a, b :: 0 <= a < b < |top| ==> top[a].score >= top[b].score && top[a].doc.id != top[b].doc.id
    ensures forall i :: 0 <= i < |top| ==> exists j :: 0 <= j < |all| && all[j].1 == top[i]
  {
    var hits := Values(all);
    var keys := HitScores(hits);
    var order := RankDesc(keys);
    SortDescFacts(hits, keys);
    assert forall i :: 0 <= i < |top| ==> top[i] == hits[order[i]] == all[order[i]].1;
    forall a, b | 0 <= a < b < |top| ensures top[a].score >= top[b].score && top[a].doc.id != top[b].doc.id {
      assert order[a] != order[b];
    }
  }

  /** The cut of the sorted values keeps the `k` best values, or all of
      them when there are fewer. */
  lemma CutIsTop(all: Dict<nat, Hit>, k: nat, top: seq<Hit>)
    requires top == Take(SortDesc(Values(all), HitScores(Values(all))), k)
    ensures |top| == if k < |all| then k else |all|
    ensures forall j, i :: 0 <= j < |all| && all[j].1 !in top && 0 <= i < |top| ==> all[j].1.score <= top[i].score
  {
    var hits := Values(all);
    HitsCutIsTop(hits, k);
    forall j, i | 0 <= j < |all| && all[j].1 !in top && 0 <= i < |top| ensures all[j].1.score <= top[i].score {
      assert hits[j] == all[j].1;
    }
  }

  /** Cutting the hits sorted by score to `k` keeps the best ones. */
  lemma HitsCutIsTop(hits: seq<Hit>, k: nat)
    ensures var top := Take(SortDesc(hits, HitScores(hits)), k);
      forall j, i :: 0 <= j < |hits| && hits[j] !in top && 0 <= i < |top| ==> hits[j].score <= top[i].score
  {
    var keys := HitScores(hits);
    var order := RankDesc(keys);
    var top := Take(SortDesc(hits, keys), k);
    forall j, i | 0 <= j < |hits| && hits[j] !in top && 0 <= i < |top| ensures hits[j].score <= top[i].score {
      TakeSortedIsTop(hits, keys, k, j);
      assert top[i] == hits[order[i]];
    }
  }

  lemma {:induction false} ByIdFacts(hits: seq<Hit>)
    ensures DistinctKeys(ById(hits))
    ensures forall id :: Get(ById(hits), id) == LastWithId(hits, id)
    ensures forall i :: 0 <= i < |ById(hits)| ==>
      ById(hits)[i].1.doc.id == ById(hits)[i].0 && LastWithId(hits, ById(hits)[i].0) == Some(ById(hits)[i].1)
  {
    if hits != [] {
      var p := hits[..|hits| - 1];
      var h := hits[|hits| - 1];
      ByIdFacts(p);
      PutFacts(ById(p), h.doc.id, h);
    }
    var d := ById(hits);
    forall i | 0 <= i < |d|
      ensures d[i].1.doc.id == d[i].0 && LastWithId(hits, d[i].0) == Some(d[i].1)
    {
      GetAt(d, i);
      LastWithIdFound(hits, d[i].0);
    }
  }

  lemma {:induction false} LastWithIdFound(hits: seq<Hit>, id: nat)
    ensures LastWithId(hits, id).Some? ==> LastWithId(hits, id).value.doc.id == id
  {
    if hits != [] && hits[|hits| - 1].doc.id != id {
      LastWithIdFound(hits[..|hits| - 1], id);
    }
  }

  /** In a dictionary with distinct keys, each entry is what its key maps to. */
  lemma GetAt<K(!new), V>(d: Dict<K, V>, i: nat)
    requires DistinctKeys(d) && i < |d|
    ensures Get(d, d[i].0) == Some(d[i].1)
  {
    var j := IndexOf(d, d[i].0);
    assert j.Some?;
  }

  // ---------------------------------------------------------------------
  // Facts about the loaded documents and the section index

  /** The documents `r` of a file: numbered from `base`, carrying the
      file's name and metadata, with sanitized texts. */
  predicate FromFile(r: seq<Document>, filename: string, meta: Metadata, base: nat) {
    forall i :: 0 <= i < |r| ==>
      && r[i].id == base + i && r[i].filename == filename && r[i].metadata == meta
      && IsSanitized(r[i].sectionName) && IsSanitized(r[i].content)
  }

  lemma {:induction false} SectionDocumentsFacts(filename: string, meta: Metadata, sections: Dict<string, string>, base: nat)
    requires IsSanitized(filename)
    ensures FromFile(SectionDocuments(filename, meta, sections, base), filename, meta, base)
  {
    if sections != [] {
      var n := |sections| - 1;
      SectionDocumentsFacts(filename, meta, sections[..n], base);
      var q := SectionDocuments(filename, meta, sections[..n], base);
      var d := Document(base + n, filename, RemoveProblematicChars(sections[n].0),
                        RemoveProblematicChars(sections[n].1), meta);
      assert SectionDocuments(filename, meta, sections, base) == q + [d];
      assert |q| == n;
    }
  }

  lemma SectionDocumentsStep(filename: string, meta: Metadata, sections: Dict<string, string>, j: nat, base: nat)
    requires j < |sections|
    ensures SectionDocuments(filename, meta, sections[..j + 1], base)
      == SectionDocuments(filename, meta, sections[..j], base)
         + [Document(base + j, filename, RemoveProblematicChars(sections[j].0), RemoveProblematicChars(sections[j].1), meta)]
  {
    assert sections[..j + 1][..j] == sections[..j];
  }

  lemma IndexSectionsStep(docs: seq<Document>, d: Document)
    ensures IndexSections(docs + [d]) == Put(IndexSections(docs), d.sectionName, Get(IndexSections(docs), d.sectionName).GetOr([]) + [d.id])
    ensures MetadataOf(docs + [d]) == MetadataOf(docs) + [d.metadata]
  {
    assert (docs + [d])[..|docs|] == docs;
  }

  /** The documents of a file come from that file. */
  lemma FileDocumentsFacts(f: SourceFile, base: nat)
    ensures var filename := RemoveProblematicChars(f.name);
      FromFile(FileDocuments(f, base), filename, FileMetadata(filename), base)
  {
    var filename := RemoveProblematicChars(f.name);
    SectionDocumentsFacts(filename, FileMetadata(filename), Sections(RemoveProblematicChars(f.text)), base);
  }

  /** One step of `LoadedDocuments`: the documents so far, then those of
      the last file if it is a knowledge-base file. */
  lemma LoadedStep(files: seq<SourceFile>)
    requires files != []
    ensures var prev := LoadedDocuments(files[..|files| - 1]);
      var f := files[|files| - 1];
      LoadedDocuments(files) == prev + (if IsKbFile(f.name) then FileDocuments(f, |prev|) else [])
  {
  }

  /** Each document's id is its position in `documents`, and every stored
      text is sanitized. */
  lemma {:induction false} LoadedWellFormed(files: seq<SourceFile>)
    ensures WellFormed(LoadedDocuments(files))
  {
    if files != [] {
      var p := files[..|files| - 1];
      var prev := LoadedDocuments(p);
      LoadedWellFormed(p);
      var f := files[|files| - 1];
      LoadedStep(files);
      var added := if IsKbFile(f.name) then FileDocuments(f, |prev|) else [];
      var docs := prev + added;
      if IsKbFile(f.name) {
        FileDocumentsFacts(f, |prev|);
      }
      forall i | 0 <= i < |docs|
        ensures && docs[i].id == i
                && IsSanitized(docs[i].filename) && IsSanitized(docs[i].sectionName) && IsSanitized(docs[i].content)
      {
        if i < |prev| {
          assert docs[i] == prev[i];
        } else {
          assert docs[i] == added[i - |prev|];
        }
      }
    }
  }

  /** Document `d` comes from a `.md` or `.txt` file of `files` and carries
      that file's metadata. */
  predicate FromListing(d: Document, files: seq<SourceFile>) {
    exists j :: 0 <= j < |files| && FromSourceFile(d, files[j])
  }

  predicate FromSourceFile(d: Document, f: SourceFile) {
    && IsKbFile(f.name)
    && d.filename == RemoveProblematicChars(f.name)
    && d.metadata == FileMetadata(d.filename)
  }

  /** Every document comes from a `.md` or `.txt` file of the listing and
      carries that file's metadata. */
  lemma {:induction false} LoadedFromKbFiles(files: seq<SourceFile>)
    ensures var docs := LoadedDocuments(files);
      forall i :: 0 <= i < |docs| ==> FromListing(docs[i], files)
  {
    if files != [] {
      var p := files[..|files| - 1];
      var prev := LoadedDocuments(p);
      LoadedFromKbFiles(p);
      var f := files[|files| - 1];
      LoadedStep(files);
      var added := if IsKbFile(f.name) then FileDocuments(f, |prev|) else [];
      var docs := prev + added;
      if IsKbFile(f.name) {
        FileDocumentsFacts(f, |prev|);
      }
      forall i | 0 <= i < |docs| ensures FromListing(docs[i], files) {
        if i < |prev| {
          assert docs[i] == prev[i];
          ListingGrows(prev[i], files);
        } else {
          assert docs[i] == added[i - |prev|];
          assert FromSourceFile(docs[i], files[|files| - 1]);
        }
      }
      assert LoadedDocuments(files) == docs;
    }
  }

  /** A document from a file of the listing's prefix is from the listing. */
  lemma ListingGrows(d: Document, files: seq<SourceFile>)
    requires files != [] && FromListing(d, files[..|files| - 1])
    ensures FromListing(d, files)
  {
    var p := files[..|files| - 1];
    var j :| 0 <= j < |p| && FromSourceFile(d, p[j]);
    assert files[j] == p[j];
  }

  /** `section_map` lists each name once, in first-appearance order, with
      the ids of exactly that name's documents. */
  lemma {:induction false} IndexSectionsFacts(docs: seq<Document>)
    ensures DistinctKeys(IndexSections(docs))
    ensures Keys(IndexSections(docs)) == FirstAppearance(docs)
    ensures forall name :: Get(IndexSections(docs), name).GetOr([]) == Positions(docs, name)
  {
    if docs != [] {
      var p := docs[..|docs| - 1];
      IndexSectionsFacts(p);
      var m := IndexSections(p);
      var d := docs[|docs| - 1];
      PutFacts(m, d.sectionName, Get(m, d.sectionName).GetOr([]) + [d.id]);
      forall name ensures Get(IndexSections(docs), name).GetOr([]) == Positions(docs, name) {
        if name != d.sectionName {
          assert Get(IndexSections(docs), name) == Get(m, name);
        }
      }
    }
  }

  /** `ps` lists, in increasing order, exactly the positions of the
      documents of section `name`. */
  predicate PositionsOf(docs: seq<Document>, name: string, ps: seq<nat>) {
    && (forall a, b :: 0 <= a < b < |ps| ==> ps[a] < ps[b])
    && (forall a :: 0 <= a < |ps| ==> ps[a] < |docs| && docs[ps[a]].sectionName == name)
    && (forall i :: 0 <= i < |docs| && docs[i].sectionName == name ==> i in ps)
  }

  /** The ids of a section are increasing positions of exactly the
      documents of that section. */
  lemma {:induction false} PositionsFacts(docs: seq<Document>, name: string)
    requires WellFormed(docs)
    ensures PositionsOf(docs, name, Positions(docs, name))
  {
    if docs != [] {
      var n := |docs| - 1;
      var p := docs[..n];
      assert WellFormed(p);
      PositionsFacts(p, name);
      var pp := Positions(p, name);
      var last := docs[n];
      var ps := Positions(docs, name);
      assert ps == pp + (if last.sectionName == name then [n] else []);
      forall a | 0 <= a < |pp| ensures pp[a] < n && docs[pp[a]] == p[pp[a]] {
      }
      forall i | 0 <= i < |docs| && docs[i].sectionName == name ensures i in ps {
        if i < n {
          assert p[i] == docs[i];
          assert i in pp;
        }
      }
    }
  }

  /** The documents at positions `ids`, each returned with its content
      cleaned. */
  function DocsAt(docs: seq<Document>, ids: seq<nat>): (r: seq<Document>)
    requires forall a :: 0 <= a < |ids| ==> ids[a] < |docs|
    ensures |r| == |ids|
  {
    seq(|ids|, a requires 0 <= a < |ids| => Returned(docs[ids[a]]))
  }

  lemma DocsAtAppend(docs: seq<Document>, ids: seq<nat>, extra: seq<nat>)
    requires forall a :: 0 <= a < |ids| ==> ids[a] < |docs|
    requires forall a :: 0 <= a < |extra| ==> extra[a] < |docs|
    ensures forall a :: 0 <= a < |ids + extra| ==> (ids + extra)[a] < |docs|
    ensures DocsAt(docs, ids + extra) == DocsAt(docs, ids) + DocsAt(docs, extra)
  {
    var all := ids + extra;
    assert forall a :: 0 <= a < |all| ==> all[a] < |docs| by {
      forall a | 0 <= a < |all| ensures all[a] < |docs| {
        if a >= |ids| {
          assert all[a] == extra[a - |ids|];
        }
      }
    }
    var l := DocsAt(docs, all);
    var r := DocsAt(docs, ids) + DocsAt(docs, extra);
    forall a | 0 <= a < |l| ensures l[a] == r[a] {
      if a >= |ids| {
        assert all[a] == extra[a - |ids|];
      }
    }
  }

  /** Positions inside a prefix look up the same documents in the prefix. */
  lemma DocsAtPrefix(docs: seq<Document>, n: nat, ids: seq<nat>)
    requires n <= |docs| && forall a :: 0 <= a < |ids| ==> ids[a] < n
    ensures DocsAt(docs[..n], ids) == DocsAt(docs, ids)
  {
    var p := docs[..n];
    forall a | 0 <= a < |ids| ensures p[ids[a]] == docs[ids[a]] {
    }
  }

  /** Looking the positions up gives the documents of the section. */
  lemma {:induction false} PositionsSelect(docs: seq<Document>, name: string)
    requires WellFormed(docs)
    ensures forall a :: 0 <= a < |Positions(docs, name)| ==> Positions(docs, name)[a] < |docs|
    ensures DocsAt(docs, Positions(docs, name)) == SectionFilter(docs, name)
  {
    PositionsFacts(docs, name);
    if docs != [] {
      var n := |docs| - 1;
      var p := docs[..n];
      assert WellFormed(p);
      PositionsSelect(p, name);
      PositionsFacts(p, name);
      var d := docs[n];
      var pp := Positions(p, name);
      var extra := if d.sectionName == name then [n] else [];
      DocsAtPrefix(docs, n, pp);
      DocsAtAppend(docs, pp, extra);
      if d.sectionName == name {
        SanitizeFixedPoint(d.content);
        assert DocsAt(docs, extra) == [d];
      }
    }
  }

  lemma {:induction false} NamesSanitized(docs: seq<Document>)
    requires WellFormed(docs)
    ensures forall i :: 0 <= i < |FirstAppearance(docs)| ==>
      RemoveProblematicChars(FirstAppearance(docs)[i]) == FirstAppearance(docs)[i]
  {
    if docs != [] {
      assert WellFormed(docs[..|docs| - 1]);
      NamesSanitized(docs[..|docs| - 1]);
      SanitizeFixedPoint(docs[|docs| - 1].sectionName);
    }
  }

  /** Padding: one indexed document, asked for two dense neighbours. The
      index answers the document and the padding label -1, which reads as
      the last document, so the single document is returned twice, first
      with the padding distance. */
  lemma PaddingRepeatsLastDocument(d: Document)
    requires d.id == 0
    ensures HybridResults([d], true, 2, [(1.0, 0), (1000.0, -1)], [0.5])
      == [Hit(1000.0, Returned(d)), Hit(1.0, Returned(d))]
  {
    PaddingMerge();
    MergedFacts(1, 2, [(1.0, 0), (1000.0, -1)], [0.5]);
    var r := HybridResults([d], true, 2, [(1.0, 0), (1000.0, -1)], [0.5]);
    assert r == ToHits([d], [(1000.0, -1), (1.0, 0)]);
  }

  /** The merge of that example: the padding pair has the larger score. */
  lemma PaddingMerge()
    ensures Merged(2, [(1.0, 0), (1000.0, -1)], [0.5]) == [(1000.0, -1), (1.0, 0)]
  {
    var sparseTop := SparseTop([0.5], 2);
    assert RankDesc([0.5]) == [0];
    var c := Candidates([(1.0, 0), (1000.0, -1)], [0.5], sparseTop);
    assert c == [(1.0, 0), (1000.0, -1), (0.5, 0)];
    assert Dedup(c, 1) == [(1.0, 0)];
    assert Dedup(c, 2) == [(1.0, 0), (1000.0, -1)];
    var combined := Dedup(c, |c|);
    assert combined == [(1.0, 0), (1000.0, -1)];
    var keys := Scores(combined);
    assert keys == [1.0, 1000.0];
    var order := RankDesc(keys);
    RankedDistinct(keys, order);
    assert Before(keys, order[0], order[1]);
    assert order == [1, 0];
  }
}
