/**
 * The article metadata store of the ingestion script (`generate_metadata`):
 * an additive merge of records derived from the documents' headers into the
 * map loaded from `article_metadata.json`. Keys already present are never
 * touched.
 */
module Metadata {
  import opened Common
  import opened Records
  import opened Frontmatter

  /** One `*.md` file of the data folder: its name, stem, size in bytes and content (`None` when unreadable). */
  datatype DocFile = DocFile(name: string, stem: string, size: nat, content: Option<string>)

  /** Python's `d.get(key, default)`. */
  function Get(fm: map<string, Value>, key: string, default: Value): Value {
    if key in fm then fm[key] else default
  }

  /** A list author becomes its first element, or the default author when empty; anything else is kept. */
  function NormalizeAuthor(author: Value): Value {
    match author
    case Items(xs) => if xs == [] then Text(DefaultAuthor) else xs[0]
    case _ => author
  }

  /** The record derived for key `key` from a decoded header mapping. */
  function NewRecord(key: string, fm: map<string, Value>): Record {
    Record(
      Get(fm, "title", Text(key)),
      Get(fm, "source", Text("")),
      NormalizeAuthor(Get(fm, "author", Items([]))))
  }

  /** Defaults of a derived record: what a header that lacks a field contributes. */
  lemma NewRecordDefaults(key: string, fm: map<string, Value>)
    ensures "title" in fm ==> NewRecord(key, fm).title == fm["title"]
    ensures "title" !in fm ==> NewRecord(key, fm).title == Text(key)
    ensures "source" in fm ==> NewRecord(key, fm).url == fm["source"]
    ensures "source" !in fm ==> NewRecord(key, fm).url == Text("")
    ensures "author" !in fm ==> NewRecord(key, fm).author == Text(DefaultAuthor)
    ensures "author" in fm && fm["author"] == Items([]) ==> NewRecord(key, fm).author == Text(DefaultAuthor)
    ensures "author" in fm && fm["author"].Items? && fm["author"].items != [] ==>
              NewRecord(key, fm).author == fm["author"].items[0]
    ensures "author" in fm && !fm["author"].Items? ==> NewRecord(key, fm).author == fm["author"]
  {
  }

  /** The author field holds a single string, or a list whose entries are strings. */
  predicate TextualAuthor(v: Value) {
    v.Text? || (v.Items? && forall x :: x in v.items ==> x.Text?)
  }

  /**
   * Normalisation resolves the list-or-string author to one string, and a
   * second normalisation changes nothing.
   */
  lemma NormalizeAuthorResolves(v: Value)
    requires TextualAuthor(v)
    ensures NormalizeAuthor(v).Text?
    ensures NormalizeAuthor(NormalizeAuthor(v)) == NormalizeAuthor(v)
  {
    if v.Items? && v.items != [] {
      assert v.items[0] in v.items;
    }
  }

  /** The record derived for a document whose stem is not yet a key. */
  function RecordFor(f: DocFile, decode: string -> Option<Value>): Record {
    NewRecord(f.stem, ParseFrontmatter(f.content, decode))
  }

  /** The stems of a list of documents. */
  function Stems(files: seq<DocFile>): set<string> {
    set f | f in files :: f.stem
  }

  /**
   * The metadata map after visiting `files` in order, starting from
   * `existing`: a file whose stem is already a key is skipped.
   */
  function Merge(existing: map<string, Record>, files: seq<DocFile>, decode: string -> Option<Value>): (r: map<string, Record>)
    ensures existing.Keys <= r.Keys
    decreases |files|
  {
    if files == [] then existing
    else
      var m := Merge(existing, files[..|files| - 1], decode);
      var f := files[|files| - 1];
      if f.stem in m then m else m[f.stem := RecordFor(f, decode)]
  }

  /** The merge never alters nor drops a record that was already loaded. */
  lemma {:induction false} MergeKeepsExisting(existing: map<string, Record>, files: seq<DocFile>, decode: string -> Option<Value>)
    ensures forall k :: k in existing ==> k in Merge(existing, files, decode) && Merge(existing, files, decode)[k] == existing[k]
    decreases |files|
  {
    if files != [] {
      MergeKeepsExisting(existing, files[..|files| - 1], decode);
    }
  }

  /** The keys after the merge are the loaded keys together with the stems of the documents. */
  lemma {:induction false} MergeKeys(existing: map<string, Record>, files: seq<DocFile>, decode: string -> Option<Value>)
    ensures Merge(existing, files, decode).Keys == existing.Keys + Stems(files)
    decreases |files|
  {
    if files != [] {
      var init := files[..|files| - 1];
      MergeKeys(existing, init, decode);
      assert files == init + [files[|files| - 1]];
      assert Stems(files) == Stems(init) + {files[|files| - 1].stem};
    }
  }

  /** `files[i]` is the first document whose stem is `k`. */
  predicate FirstWithStem(files: seq<DocFile>, i: int, k: string) {
    0 <= i < |files| && files[i].stem == k && forall j :: 0 <= j < i ==> files[j].stem != k
  }

  /**
   * A key the merge adds comes from the FIRST document with that stem, and
   * its record is the one derived from that document's header.
   */
  lemma {:induction false} MergeAddsFirstDocument(existing: map<string, Record>, files: seq<DocFile>, decode: string -> Option<Value>, k: string)
    returns (i: nat)
    requires k in Merge(existing, files, decode) && k !in existing
    ensures FirstWithStem(files, i, k)
    ensures Merge(existing, files, decode)[k] == RecordFor(files[i], decode)
    decreases |files|
  {
    var n := |files| - 1;
    var init := files[..n];
    var m := Merge(existing, init, decode);
    if k in m {
      assert Merge(existing, files, decode)[k] == m[k];
      i := MergeAddsFirstDocument(existing, init, decode, k);
      assert files[i] == init[i];
      assert forall j :: 0 <= j < i ==> files[j] == init[j];
    } else {
      i := n;
      MergeKeys(existing, init, decode);
      forall j | 0 <= j < n ensures files[j].stem != k {
        assert files[j] == init[j] && init[j] in init;
      }
    }
  }

  /** When every stem is already a key, the merge is the identity. */
  lemma {:induction false} MergeNoop(existing: map<string, Record>, files: seq<DocFile>, decode: string -> Option<Value>)
    requires Stems(files) <= existing.Keys
    ensures Merge(existing, files, decode) == existing
    decreases |files|
  {
    if files != [] {
      var init := files[..|files| - 1];
      assert Stems(init) <= Stems(files) by {
        forall s | s in Stems(init) ensures s in Stems(files) {
          var f :| f in init && f.stem == s;
          assert f in files;
        }
      }
      MergeNoop(existing, init, decode);
      assert files[|files| - 1] in files;
    }
  }

  /** Re-running the merge on its own output over the same documents gives an identical map. */
  lemma MergeIdempotent(existing: map<string, Record>, files: seq<DocFile>, decode: string -> Option<Value>)
    ensures Merge(Merge(existing, files, decode), files, decode) == Merge(existing, files, decode)
  {
    MergeKeys(existing, files, decode);
    MergeNoop(Merge(existing, files, decode), files, decode);
  }

  /** The number of records added is the number of stems not loaded before. */
  lemma MergeSize(existing: map<string, Record>, files: seq<DocFile>, decode: string -> Option<Value>)
    ensures |Merge(existing, files, decode)| == |existing| + |Stems(files) - existing.Keys|
  {
    MergeKeys(existing, files, decode);
    var added := Stems(files) - existing.Keys;
    assert existing.Keys + Stems(files) == existing.Keys + added;
    assert existing.Keys !! added;
    assert |existing.Keys + added| == |existing.Keys| + |added|;
  }

  /**
   * `generate_metadata`: `folder` is the data folder's `*.md` files, `None`
   * when the folder is missing. Returns the merged map and the number of
   * records added.
   */
  method GenerateMetadata(existing: map<string, Record>, folder: Option<seq<DocFile>>, decode: string -> Option<Value>)
    returns (metadata: map<string, Record>, newCount: nat)
    ensures folder.None? ==> metadata == existing && newCount == 0
    ensures folder.Some? ==> metadata == Merge(existing, folder.value, decode)
    ensures |metadata| == |existing| + newCount
  {
    metadata := existing;
    newCount := 0;
    if folder.None? {
      return;
    }
    var files := folder.value;
    for i := 0 to |files|
      invariant metadata == Merge(existing, files[..i], decode)
      invariant |metadata| == |existing| + newCount
    {
      var f := files[i];
      assert files[..i + 1][..i] == files[..i];
      if f.stem in metadata {
        continue;
      }
      var frontmatter := ParseFrontmatter(f.content, decode);
      metadata := metadata[f.stem := NewRecord(f.stem, frontmatter)];
      newCount := newCount + 1;
    }
    assert files[..|files|] == files;
  }

  /**
   * The merge AS WRITTEN, where a header that decodes to a true value that is
   * not a mapping reaches `.get(...)` and raises: `None` stands for the run
   * aborting with nothing returned.
   */
  function MergeAsWritten(existing: map<string, Record>, files: seq<DocFile>, decode: string -> Option<Value>): (r: Option<map<string, Record>>)
    ensures r.Some? ==> existing.Keys <= r.value.Keys
    ensures r.None? ==> exists f :: f in files && Truthy(ParsedAsWritten(f.content, decode)) && !ParsedAsWritten(f.content, decode).Mapping?
    decreases |files|
  {
    if files == [] then Some(existing)
    else
      match MergeAsWritten(existing, files[..|files| - 1], decode)
      case None => None
      case Some(m) =>
        var f := files[|files| - 1];
        if f.stem in m then Some(m)
        else
          match ParsedAsWritten(f.content, decode)
          case Mapping(fm) => Some(m[f.stem := NewRecord(f.stem, fm)])
          case _ => None
  }

  /** Whenever the written merge does not abort, it agrees with the corrected one. */
  lemma {:induction false} MergeAsWrittenAgrees(existing: map<string, Record>, files: seq<DocFile>, decode: string -> Option<Value>)
    requires MergeAsWritten(existing, files, decode).Some?
    ensures MergeAsWritten(existing, files, decode).value == Merge(existing, files, decode)
    decreases |files|
  {
    if files != [] {
      MergeAsWrittenAgrees(existing, files[..|files| - 1], decode);
    }
  }

  /**
   * A document whose header is the plain YAML scalar `hello` (which decodes
   * to the string "hello") aborts the written merge, while the corrected
   * merge records it with defaults.
   */
  lemma ScalarHeaderAbortsMerge()
    ensures var files := [DocFile("memo.md", "memo", 20, Some("---\nhello\n---\n"))];
            var decode := (g: string) => Some(Text(g));
            && MergeAsWritten(map[], files, decode).None?
            && Merge(map[], files, decode) == map["memo" := Record(Text("memo"), Text(""), Text(DefaultAuthor))]
  {
    var s := "---\nhello\n---\n";
    assert s[3] == '\n' && s[4] == 'h' && s[5] == 'e' && s[6] == 'l' && s[7] == 'l' && s[8] == 'o';
    assert s[9] == '\n' && s[10] == '-' && s[11] == '-' && s[12] == '-' && s[13] == '\n';
    assert SpaceRunEnd(s, 4) == 4 by { assert !IsSpace(s[4]); }
    assert SpaceRunEnd(s, 3) == 4;
    assert OccursAt(s, Closing, 9);
    forall p: nat | 4 <= p < 9 ensures !OccursAt(s, Closing, p) {
      assert s[p] != '\n';
      assert p + 4 <= |s| ==> s[p..p + 4][0] == s[p];
    }
    assert FindClosing(s, 9) == Some(9);
    assert FindClosing(s, 4) == Some(9);
    assert s[..3] == Opening;
    assert OpensAt(s, 3);
    assert TryOpenings(s, 3) == Some(s[4..9]);
    assert s[4..9] == "hello";
    assert HeaderBlock(s) == Some("hello");
    var files := [DocFile("memo.md", "memo", 20, Some(s))];
    assert files[..0] == [];
  }
}
