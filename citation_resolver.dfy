/**
 * The citation resolver of the chat app (`get_article_info`): a raw citation
 * title is mapped back to the article metadata written by the ingestion
 * script, falling back to the raw title with no link.
 */
module CitationResolver {
  import opened Common
  import opened Records
  import Metadata
  import StoreSync

  const MdExtension: string := ".md"

  /** What the resolver returns: a metadata record, or the raw title with no URL. */
  datatype ArticleInfo = Known(record: Record) | Unlinked(title: string)

  /** The `url` field of the result; `None` (null) for an unresolved title. */
  function InfoUrl(info: ArticleInfo): Value {
    match info
    case Known(r) => r.url
    case Unlinked(_) => Null
  }

  /**
   * Python's `s.replace('.md', '')`: every occurrence is removed, scanning
   * left to right without overlap (not only a trailing extension).
   */
  function RemoveMd(s: string): (r: string)
    ensures |r| <= |s|
    decreases |s|
  {
    if |s| < |MdExtension| then s
    else if s[..|MdExtension|] == MdExtension then RemoveMd(s[|MdExtension|..])
    else [s[0]] + RemoveMd(s[1..])
  }

  /** Dropping the first character of a title without `.md` leaves a title without `.md`. */
  lemma NoMdInTail(s: string)
    requires s != [] && !Contains(s, MdExtension)
    ensures !Contains(s[1..], MdExtension)
  {
    forall i: nat | i <= |s[1..]| ensures !OccursAt(s[1..], MdExtension, i) {
      if i + 3 <= |s[1..]| {
        assert s[1..][i..i + 3] == s[i + 1..i + 4];
        assert !OccursAt(s, MdExtension, i + 1);
      }
    }
  }

  /** A title without `.md` in it is its own key. */
  lemma {:induction false} RemoveMdPlain(s: string)
    requires !Contains(s, MdExtension)
    ensures RemoveMd(s) == s
    decreases |s|
  {
    if |s| >= |MdExtension| {
      assert !OccursAt(s, MdExtension, 0);
      NoMdInTail(s);
      RemoveMdPlain(s[1..]);
      assert s == [s[0]] + s[1..];
    }
  }

  /** A title that starts with a non-empty, `.md`-free part does not start with `.md`. */
  lemma NoMdAtStart(x: string, rest: string)
    requires x != [] && !Contains(x, MdExtension) && |MdExtension| <= |x + rest|
    requires |x| < |MdExtension| ==> rest[..|MdExtension| - |x|] == MdExtension[..|MdExtension| - |x|]
    ensures (x + rest)[..|MdExtension|] != MdExtension
  {
    var t := x + rest;
    if |x| >= |MdExtension| {
      assert t[..|MdExtension|] == x[..|MdExtension|];
      assert !OccursAt(x, MdExtension, 0);
    } else if |x| == 1 {
      assert t[1] == rest[0] == '.';
    } else {
      assert t[2] == rest[0] == '.';
    }
  }

  /**
   * The first `.md` of a title is removed wherever it stands, and the rest
   * of the title is keyed in turn: `replace` removes every occurrence, not
   * only a trailing extension.
   */
  lemma {:induction false} RemoveMdInterior(x: string, y: string)
    requires !Contains(x, MdExtension)
    ensures RemoveMd(x + MdExtension + y) == x + RemoveMd(y)
    decreases |x|
  {
    var rest := MdExtension + y;
    var t := x + rest;
    assert t == x + MdExtension + y;
    if x == [] {
      assert t == rest && rest[..|MdExtension|] == MdExtension && rest[|MdExtension|..] == y;
    } else {
      NoMdAtStart(x, rest);
      assert RemoveMd(t) == [t[0]] + RemoveMd(t[1..]);
      NoMdInTail(x);
      assert t[1..] == x[1..] + MdExtension + y;
      RemoveMdInterior(x[1..], y);
      assert x == [x[0]] + x[1..];
    }
  }

  /** An extension in the middle of a title goes too: `a.mdb` is keyed as `ab`. */
  lemma RemoveMdInteriorExample()
    ensures RemoveMd("a.mdb") == "ab"
  {
    assert !OccursAt("a", MdExtension, 0) && !OccursAt("a", MdExtension, 1);
    assert !OccursAt("b", MdExtension, 0) && !OccursAt("b", MdExtension, 1);
    RemoveMdInterior("a", "b");
    RemoveMdPlain("b");
    assert "a" + MdExtension + "b" == "a.mdb";
  }

  /**
   * Appending the extension does not change the key: `.md` cannot overlap
   * itself, so the added occurrence is the one removed.
   */
  lemma {:induction false} RemoveMdSuffix(s: string)
    ensures RemoveMd(s + MdExtension) == RemoveMd(s)
    decreases |s|
  {
    var t := s + MdExtension;
    if |s| == 0 {
      assert t == MdExtension;
      assert t[|MdExtension|..] == [];
    } else if |s| < |MdExtension| {
      assert t[..|MdExtension|] != MdExtension by {
        if |s| == 1 { assert t[1] == '.'; } else { assert t[2] == '.'; }
      }
      assert t[1..] == s[1..] + MdExtension;
      RemoveMdSuffix(s[1..]);
      RemoveMdPlain(s[1..]);
      assert s == [s[0]] + s[1..];
    } else if s[..|MdExtension|] == MdExtension {
      assert t[..|MdExtension|] == s[..|MdExtension|];
      assert t[|MdExtension|..] == s[|MdExtension|..] + MdExtension;
      RemoveMdSuffix(s[|MdExtension|..]);
    } else {
      assert t[..|MdExtension|] == s[..|MdExtension|];
      assert t[1..] == s[1..] + MdExtension;
      RemoveMdSuffix(s[1..]);
    }
  }

  /**
   * `get_article_info`: the record stored under the title with every `.md`
   * removed, or the raw title with no URL when there is none.
   */
  function GetArticleInfo(metadata: map<string, Record>, filename: string): (info: ArticleInfo)
    ensures RemoveMd(filename) in metadata <==> info.Known?
    ensures info.Known? ==> info.record == metadata[RemoveMd(filename)]
    ensures info.Unlinked? ==> info.title == filename && InfoUrl(info) == Null
  {
    var key := RemoveMd(filename);
    if key in metadata then Known(metadata[key]) else Unlinked(filename)
  }

  /**
   * A citation of an ingested document resolves to that document's record,
   * whether the title is its file name or the display name it was uploaded
   * under (the stem, when at most 100 characters), provided the stem itself
   * contains no `.md`.
   */
  lemma ResolvesIngestedDocument(metadata: map<string, Record>, f: Metadata.DocFile)
    requires f.name == f.stem + MdExtension && !Contains(f.stem, MdExtension)
    requires f.stem in metadata
    ensures GetArticleInfo(metadata, f.name) == Known(metadata[f.stem])
    ensures |f.stem| <= StoreSync.DisplayNameLimit ==>
              GetArticleInfo(metadata, StoreSync.UploadDisplayName(f.stem)) == Known(metadata[f.stem])
  {
    RemoveMdSuffix(f.stem);
    RemoveMdPlain(f.stem);
  }

  /**
   * After a metadata merge over the data folder, every document of the
   * folder (with a `.md`-free stem) resolves, to the record the merge holds
   * for it.
   */
  lemma ResolvesAfterMerge(existing: map<string, Record>, files: seq<Metadata.DocFile>,
                           decode: string -> Option<Value>, f: Metadata.DocFile)
    requires f in files
    requires f.name == f.stem + MdExtension && !Contains(f.stem, MdExtension)
    ensures var m := Metadata.Merge(existing, files, decode);
            f.stem in m && GetArticleInfo(m, f.name) == Known(m[f.stem])
  {
    Metadata.MergeKeys(existing, files, decode);
    ResolvesIngestedDocument(Metadata.Merge(existing, files, decode), f);
  }

  /** A title without a dot cannot contain `.md`. */
  lemma NoDotNoMd(s: string)
    requires forall i :: 0 <= i < |s| ==> s[i] != '.'
    ensures !Contains(s, MdExtension)
  {
    forall i: nat | i <= |s| ensures !OccursAt(s, MdExtension, i) {
      if i + |MdExtension| <= |s| {
        assert s[i..i + |MdExtension|][0] == s[i];
      }
    }
  }

  /** The key of the typical citation title `article-42.md` is `article-42`. */
  lemma ExampleKey()
    ensures RemoveMd("article-42.md") == "article-42"
  {
    var stem := "article-42";
    NoDotNoMd(stem);
    RemoveMdSuffix(stem);
    RemoveMdPlain(stem);
    assert stem + MdExtension == "article-42.md";
  }

  /** A typical citation title, `article-42.md`, resolves through the key `article-42`. */
  lemma ResolvesExample(metadata: map<string, Record>)
    ensures "article-42" in metadata ==> GetArticleInfo(metadata, "article-42.md") == Known(metadata["article-42"])
    ensures "article-42" !in metadata ==> GetArticleInfo(metadata, "article-42.md") == Unlinked("article-42.md")
  {
    ExampleKey();
  }
}
