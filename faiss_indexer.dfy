/**
 * The FAISS-backed document store of indexing/faiss_indexer.py.
 *
 * A `FaissIndexer` keeps the documents as a list of strings beside a flat L2
 * index. The embedding model and the float vectors are not modelled: the index
 * is represented by its dimension and its vector count (`ntotal`), which is all
 * the bookkeeping between the two stores depends on. Files are an abstract
 * `Storage` mapping paths to the two kinds of artifact that `save` writes.
 */
module FaissIndexing {
  import opened Wrappers
  import opened Text

  /** What FAISS knows about a flat index: its dimension and how many vectors it holds. */
  datatype FlatIndex = FlatIndex(dim: nat, ntotal: nat)

  /** The contents of a persisted file: a FAISS index blob or a pickled document list. */
  datatype Artifact = IndexBlob(index: FlatIndex) | DocsBlob(docs: seq<string>)

  datatype IndexError =
    | EmptyInput         // no non-blank document was given to `add_documents`
    | DimensionMismatch  // FAISS refuses vectors of another dimension than the index's
    | CorruptIndex       // `faiss.read_index` cannot read the file at the index path
    | CorruptDocs        // `pickle.load` cannot read a document list from the `.pkl` file

  /** The two stores of an indexer, as one value. */
  datatype Snapshot = Snapshot(index: FlatIndex, docs: seq<string>)

  /** The stores agree: one vector per document. */
  predicate Consistent(s: Snapshot) {
    |s.docs| == s.index.ntotal
  }

  /** `[doc.strip() for doc in docs if doc.strip()]`: the stripped form of
      every non-blank input, in input order. */
  function CleanDocs(docs: seq<string>): (r: seq<string>)
    ensures |r| <= |docs|
  {
    if docs == [] then []
    else (if IsBlank(docs[0]) then [] else [Strip(docs[0])]) + CleanDocs(docs[1..])
  }

  /** Nothing survives cleaning exactly when every document is blank. */
  lemma {:induction false} CleanDocsEmpty(docs: seq<string>)
    ensures CleanDocs(docs) == [] <==> forall k :: 0 <= k < |docs| ==> IsBlank(docs[k])
  {
    if docs != [] {
      CleanDocsEmpty(docs[1..]);
      assert forall k :: 1 <= k < |docs| ==> docs[k] == docs[1..][k - 1];
    }
  }

  /** A document as the indexer stores it: not empty, and already stripped. */
  predicate IsCleanDoc(x: string) {
    x != [] && Strip(x) == x
  }

  /** Every cleaned document is non-empty and already stripped. */
  lemma {:induction false} CleanDocsStripped(docs: seq<string>)
    ensures forall x :: x in CleanDocs(docs) ==> IsCleanDoc(x)
  {
    if docs != [] {
      var head := if IsBlank(docs[0]) then [] else [Strip(docs[0])];
      if !IsBlank(docs[0]) {
        StripIdempotent(docs[0]);
        assert IsCleanDoc(Strip(docs[0]));
      }
      CleanDocsStripped(docs[1..]);
      assert CleanDocs(docs) == head + CleanDocs(docs[1..]);
    }
  }

  /** Cleaning works document by document: it distributes over concatenation,
      so the survivors keep their relative order. */
  lemma {:induction false} CleanDocsAppend(a: seq<string>, b: seq<string>)
    ensures CleanDocs(a + b) == CleanDocs(a) + CleanDocs(b)
  {
    if a == [] {
      assert a + b == b;
    } else {
      var head := if IsBlank(a[0]) then [] else [Strip(a[0])];
      var ab := a + b;
      assert CleanDocs(ab) == head + CleanDocs(a[1..] + b) by {
        assert ab[0] == a[0] && ab[1..] == a[1..] + b;
      }
      CleanDocsAppend(a[1..], b);
      assert head + (CleanDocs(a[1..]) + CleanDocs(b)) == (head + CleanDocs(a[1..])) + CleanDocs(b);
    }
  }

  /** One document survives cleaning exactly when it is not blank, and then as its stripped form. */
  lemma CleanDocsSingle(d: string)
    ensures CleanDocs([d]) == if IsBlank(d) then [] else [Strip(d)]
  {
    assert [d][1..] == [];
  }

  /** A cleaned document is the stripped form of some non-blank input, and
      every non-blank input is kept. */
  lemma {:induction false} CleanDocsMembers(docs: seq<string>, x: string)
    ensures x in CleanDocs(docs) <==> exists k :: 0 <= k < |docs| && !IsBlank(docs[k]) && x == Strip(docs[k])
  {
    if docs != [] {
      var rest := docs[1..];
      var head := if IsBlank(docs[0]) then [] else [Strip(docs[0])];
      assert CleanDocs(docs) == head + CleanDocs(rest);
      CleanDocsMembers(rest, x);
      if x in CleanDocs(docs) {
        if x in head {
          assert !IsBlank(docs[0]) && x == Strip(docs[0]);
        } else {
          var k :| 0 <= k < |rest| && !IsBlank(rest[k]) && x == Strip(rest[k]);
          assert docs[k + 1] == rest[k];
        }
      }
      if exists k :: 0 <= k < |docs| && !IsBlank(docs[k]) && x == Strip(docs[k]) {
        var k :| 0 <= k < |docs| && !IsBlank(docs[k]) && x == Strip(docs[k]);
        if k == 0 {
          assert x in head;
        } else {
          assert rest[k - 1] == docs[k];
          assert x in CleanDocs(rest);
        }
      }
    }
  }

  /** The index of the last `c` in `s`, or -1 (Python's `s.rfind(c)`). */
  function LastIndexOf(s: string, c: char): (r: int)
    ensures -1 <= r < |s|
    ensures r >= 0 ==> s[r] == c
    ensures forall i :: r < i < |s| ==> s[i] != c
  {
    if s == [] then -1
    else if s[|s| - 1] == c then |s| - 1
    else LastIndexOf(s[..|s| - 1], c)
  }

  /** `p[i]` is the dot that starts the extension of `p`: the last `.` of the
      last path component, with a character other than `.` before it in that
      component. */
  ghost predicate ExtensionAt(p: string, i: int) {
    && 0 <= i < |p| && p[i] == '.'
    && (forall j :: i < j < |p| ==> p[j] != '.' && p[j] != '/')
    && exists k :: 0 <= k < i && p[k] != '.' && forall j :: k <= j < i ==> p[j] != '/'
  }

  /** The root of `os.path.splitext(p)` on POSIX: `p` without its extension,
      or `p` itself when it has none. */
  function SplitExtRoot(p: string): (r: string)
    ensures StartsWith(p, r)
    ensures r != p ==> ExtensionAt(p, |r|)
    ensures forall i :: ExtensionAt(p, i) ==> r == p[..i]
  {
    var slash := LastIndexOf(p, '/');
    var dot := LastIndexOf(p, '.');
    if dot > slash && exists k :: slash < k < dot && p[k] != '.' then p[..dot] else p
  }

  /** `os.path.splitext(path)[0] + '.pkl'`: where the document list is pickled. */
  function DocsPath(path: string): (r: string)
    ensures EndsWith(r, ".pkl")
    ensures StartsWith(path, r[..|r| - 4])
  {
    SplitExtRoot(path) + ".pkl"
  }

  /** `LastIndexOf` is pinned down by its contract. */
  lemma LastIndexOfIs(s: string, c: char, k: int)
    requires -1 <= k < |s| && (k >= 0 ==> s[k] == c)
    requires forall i :: k < i < |s| ==> s[i] != c
    ensures LastIndexOf(s, c) == k
  {
  }

  /** For a file name with a visible extension, the documents go beside the
      index under the same name with the extension `.pkl`: `dir/faiss.index`
      gives `dir/faiss.pkl`. `ext` is the extension with its dot. */
  lemma DocsPathSwapsExtension(dir: string, name: string, ext: string)
    requires dir == [] || dir[|dir| - 1] == '/'
    requires name != [] && name[0] != '.'
    requires forall i :: 0 <= i < |name| ==> name[i] != '/'
    requires ext != [] && ext[0] == '.'
    requires forall i :: 1 <= i < |ext| ==> ext[i] != '.' && ext[i] != '/'
    ensures DocsPath(dir + name + ext) == dir + name + ".pkl"
  {
    var p := dir + name + ext;
    var dot := |dir| + |name|;
    assert p[..dot] == dir + name;
    assert ExtensionAt(p, dot) by {
      assert forall i :: dot <= i < |p| ==> p[i] == ext[i - dot];
      assert forall i :: |dir| <= i < dot ==> p[i] == name[i - |dir|];
      assert p[|dir|] == name[0];
    }
  }

  /** An index path that is already `name.pkl` is its own documents path. */
  lemma DocsPathOfPkl(dir: string, name: string)
    requires dir == [] || dir[|dir| - 1] == '/'
    requires name != [] && name[0] != '.'
    requires forall i :: 0 <= i < |name| ==> name[i] != '/'
    ensures DocsPath(dir + name + ".pkl") == dir + name + ".pkl"
  {
    var ext := ".pkl";
    assert ext[0] == '.' && ext[1] == 'p' && ext[2] == 'k' && ext[3] == 'l';
    DocsPathSwapsExtension(dir, name, ext);
  }

  /** A path without a dot gains the extension. */
  lemma DocsPathWithoutDot(path: string)
    requires forall i :: 0 <= i < |path| ==> path[i] != '.'
    ensures DocsPath(path) == path + ".pkl" && DocsPath(path) != path
  {
    LastIndexOfIs(path, '.', -1);
  }

  /** The files after `save(path)` of the stores `s`: the index blob at
      `path`, then the pickled documents at `DocsPath(path)`. */
  function SaveFiles(files: map<string, Artifact>, path: string, s: Snapshot): (r: map<string, Artifact>)
    ensures r.Keys == files.Keys + {path, DocsPath(path)}
    ensures r[DocsPath(path)] == DocsBlob(s.docs)
    ensures path != DocsPath(path) ==> r[path] == IndexBlob(s.index)
    ensures forall q :: q in files && q != path && q != DocsPath(path) ==> r[q] == files[q]
  {
    files[path := IndexBlob(s.index)][DocsPath(path) := DocsBlob(s.docs)]
  }

  /** The stores after `load(path)` from `files`, starting from `cur`, and
      whether it raised. `read_index` failing raises before anything changes;
      a `.pkl` that cannot be unpickled raises after the index was replaced;
      a missing `.pkl` leaves the documents empty. */
  function LoadFrom(files: map<string, Artifact>, path: string, cur: Snapshot): (r: (Snapshot, Outcome<IndexError>))
    ensures r.1 == Fail(CorruptIndex) <==> path !in files || !files[path].IndexBlob?
    ensures r.1 == Fail(CorruptIndex) ==> r.0 == cur
    ensures r.1 != Fail(CorruptIndex) ==> r.0.index == files[path].index
    ensures r.1 == Pass ==>
      r.0.docs == (if DocsPath(path) in files && files[DocsPath(path)].DocsBlob? then files[DocsPath(path)].docs else [])
    ensures r.1 == Fail(CorruptDocs) <==> r.1 != Fail(CorruptIndex) && DocsPath(path) in files && !files[DocsPath(path)].DocsBlob?
    ensures r.1 == Fail(CorruptDocs) ==> r.0.docs == cur.docs
    ensures r.1 == Pass || r.1 == Fail(CorruptIndex) || r.1 == Fail(CorruptDocs)
  {
    if path !in files || !files[path].IndexBlob? then (cur, Fail(CorruptIndex))
    else
      var index := files[path].index;
      var dp := DocsPath(path);
      if dp !in files then (Snapshot(index, []), Pass)
      else if files[dp].DocsBlob? then (Snapshot(index, files[dp].docs), Pass)
      else (cur.(index := index), Fail(CorruptDocs))
  }

  /** `save` then `load` on the same path restores both stores, whatever the
      loading indexer held before, provided the two artifacts have different
      names. */
  lemma LoadAfterSave(files: map<string, Artifact>, path: string, s: Snapshot, cur: Snapshot)
    requires DocsPath(path) != path
    ensures LoadFrom(SaveFiles(files, path, s), path, cur) == (s, Pass)
  {
  }

  /** When the index path already ends in `.pkl`, the pickled documents
      overwrite the index blob and loading it back fails. */
  lemma LoadAfterSaveOnPklPath(files: map<string, Artifact>, path: string, s: Snapshot, cur: Snapshot)
    requires DocsPath(path) == path
    ensures LoadFrom(SaveFiles(files, path, s), path, cur) == (cur, Fail(CorruptIndex))
  {
  }

  /** A missing `.pkl` leaves the loaded vectors without documents: the two
      stores disagree as soon as the index holds a vector. */
  lemma LoadWithoutDocsBreaksConsistency(files: map<string, Artifact>, path: string, cur: Snapshot)
    requires path in files && files[path].IndexBlob? && files[path].index.ntotal > 0
    requires DocsPath(path) !in files
    ensures LoadFrom(files, path, cur).1 == Pass
    ensures LoadFrom(files, path, cur).0.docs == []
    ensures !Consistent(LoadFrom(files, path, cur).0)
  {
  }

  /** The persisted files, keyed by path. */
  class Storage {
    var files: map<string, Artifact>

    constructor (files: map<string, Artifact>)
      ensures this.files == files
    {
      this.files := files;
    }
  }

  class FaissIndexer {
    /** The embedding dimension, read from the model once at construction. */
    const dim: nat
    var index: FlatIndex
    var docs: seq<string>

    function State(): Snapshot
      reads this
    {
      Snapshot(index, docs)
    }

    /** A new indexer: an empty flat index of the model's dimension and no documents. */
    constructor (dim: nat)
      ensures this.dim == dim
      ensures index == FlatIndex(dim, 0) && docs == []
      ensures Consistent(State())
    {
      this.dim := dim;
      index := FlatIndex(dim, 0);
      docs := [];
    }

    /** `add_documents`: embeds the cleaned documents and appends vectors and
        documents; raises, changing nothing, when no document survives
        cleaning or FAISS refuses the vectors' dimension. */
    method AddDocuments(input: seq<string>) returns (r: Outcome<IndexError>)
      modifies this
      ensures var cleaned := CleanDocs(input);
        if cleaned == [] then
          r == Fail(EmptyInput) && State() == old(State())
        else if old(index.dim) != dim then
          r == Fail(DimensionMismatch) && State() == old(State())
        else
          && r == Pass
          && docs == old(docs) + cleaned
          && index == old(index).(ntotal := old(index.ntotal) + |cleaned|)
      ensures old(Consistent(State())) ==> Consistent(State())
    {
      var cleaned := CleanDocs(input);
      if cleaned == [] {
        return Fail(EmptyInput);
      }
      if index.dim != dim {
        return Fail(DimensionMismatch);
      }
      index := index.(ntotal := index.ntotal + |cleaned|);
      docs := docs + cleaned;
      r := Pass;
    }

    /** `save(path)`: writes the index blob, then pickles the documents next to it. */
    method Save(path: string, storage: Storage)
      modifies storage
      ensures storage.files == SaveFiles(old(storage.files), path, State())
    {
      storage.files := storage.files[path := IndexBlob(index)];
      storage.files := storage.files[DocsPath(path) := DocsBlob(docs)];
    }

    /** `load(path)`: replaces the index by the blob at `path`, then the
        documents by the pickled list, or by no documents when there is none. */
    method Load(path: string, storage: Storage) returns (r: Outcome<IndexError>)
      modifies this
      ensures (State(), r) == LoadFrom(storage.files, path, old(State()))
    {
      if path !in storage.files || !storage.files[path].IndexBlob? {
        return Fail(CorruptIndex);
      }
      index := storage.files[path].index;
      var docsPath := DocsPath(path);
      if docsPath in storage.files {
        if !storage.files[docsPath].DocsBlob? {
          return Fail(CorruptDocs);
        }
        docs := storage.files[docsPath].docs;
      } else {
        docs := [];
      }
      r := Pass;
    }
  }

  /** Saving one indexer and loading into another reproduces its stores. */
  method SaveThenLoad(source: FaissIndexer, target: FaissIndexer, path: string, storage: Storage)
    returns (r: Outcome<IndexError>)
    requires DocsPath(path) != path
    modifies target, storage
    ensures r == Pass
    ensures target.State() == old(source.State())
  {
    source.Save(path, storage);
    LoadAfterSave(old(storage.files), path, source.State(), target.State());
    r := target.Load(path, storage);
  }
}
