/**
 * Frontmatter extraction of the ingestion script (`parse_frontmatter`).
 *
 * A document header is matched by the regular expression
 * `^---\s*\n(.*?)\n---` with `.` matching newlines. The match is modelled as
 * the search the regex engine performs: the greedy `\s*` gives back one
 * character at a time, and for each candidate opening newline the lazy group
 * stops at the first closing `\n---`. The YAML decoder is an oracle.
 */
module Frontmatter {
  import opened Common
  import opened Records

  const Opening: string := "---"
  const Closing: string := "\n---"

  /** Python's `\s` on text: exactly the characters for which `str.isspace()` holds. */
  predicate IsSpace(c: char) {
    || c == ' '
    || '\U{9}' <= c <= '\U{d}'
    || '\U{1c}' <= c <= '\U{1f}'
    || c == '\U{85}' || c == '\U{a0}' || c == '\U{1680}'
    || '\U{2000}' <= c <= '\U{200a}'
    || c == '\U{2028}' || c == '\U{2029}' || c == '\U{202f}' || c == '\U{205f}' || c == '\U{3000}'
  }

  /** End of the maximal run of whitespace in `s` that starts at `k`. */
  function SpaceRunEnd(s: string, k: nat): (e: nat)
    requires k <= |s|
    ensures k <= e <= |s|
    ensures forall p :: k <= p < e ==> IsSpace(s[p])
    ensures e < |s| ==> !IsSpace(s[e])
    decreases |s| - k
  {
    if k < |s| && IsSpace(s[k]) then SpaceRunEnd(s, k + 1) else k
  }

  /** The first occurrence of the closing `\n---` at or after index `j`. */
  function FindClosing(s: string, j: nat): (r: Option<nat>)
    ensures r.Some? ==> j <= r.value && OccursAt(s, Closing, r.value)
    ensures r.Some? ==> forall p: nat :: j <= p < r.value ==> !OccursAt(s, Closing, p)
    ensures r.None? ==> forall p: nat :: j <= p ==> !OccursAt(s, Closing, p)
    decreases |s| - j
  {
    if |s| < j + |Closing| then None
    else if OccursAt(s, Closing, j) then Some(j)
    else FindClosing(s, j + 1)
  }

  /** Index `j` is a newline followed, somewhere later, by a closing delimiter. */
  predicate OpensAt(s: string, j: nat)
    requires j < |s|
  {
    s[j] == '\n' && FindClosing(s, j + 1).Some?
  }

  /**
   * Tries the candidate opening newlines `i, i-1, ..., 3` in that order (the
   * greedy `\s*` backtracking) and returns the lazy group of the first that
   * is followed by a closing delimiter.
   */
  function TryOpenings(s: string, i: int): (r: Option<string>)
    requires i < |s|
    decreases i
  {
    if i < |Opening| then None
    else if OpensAt(s, i) then
      Some(s[i + 1..FindClosing(s, i + 1).value])
    else TryOpenings(s, i - 1)
  }

  /** The text captured by the header block at the start of `s`, if any. */
  function HeaderBlock(s: string): (r: Option<string>)
    ensures !(|s| >= 3 && s[..3] == Opening) ==> r.None?
  {
    if |s| < |Opening| || s[..|Opening|] != Opening then None
    else TryOpenings(s, SpaceRunEnd(s, |Opening|) - 1)
  }

  /**
   * `s` has the shape `---` + whitespace + `\n` + `g` + `\n---` + anything,
   * with the opening newline at index `i`.
   */
  predicate FramedAt(s: string, i: nat, g: string) {
    && |Opening| <= i < |s|
    && s[..|Opening|] == Opening
    && (forall p :: |Opening| <= p < i ==> IsSpace(s[p]))
    && s[i] == '\n'
    && i + 1 + |g| <= |s|
    && s[i + 1..i + 1 + |g|] == g
    && OccursAt(s, Closing, i + 1 + |g|)
  }

  /** A slice free of closing delimiters in `s` contains none itself. */
  lemma SliceWithoutClosing(s: string, a: nat, b: nat)
    requires a <= b <= |s|
    requires forall p: nat :: a <= p < b ==> !OccursAt(s, Closing, p)
    ensures forall p: nat :: !OccursAt(s[a..b], Closing, p)
  {
    var g := s[a..b];
    forall p: nat ensures !OccursAt(g, Closing, p) {
      if OccursAt(g, Closing, p) {
        var w := g[p..p + |Closing|];
        var v := s[a + p..a + p + |Closing|];
        forall q | 0 <= q < |Closing| ensures v[q] == w[q] {
          assert v[q] == s[a + p + q] && w[q] == g[p + q];
        }
        assert v == w;
        assert OccursAt(s, Closing, a + p);
      }
    }
  }

  lemma {:induction false} TryOpeningsSound(s: string, i: int, e: nat) returns (k: nat)
    requires i < |s| && i < e <= |s| && |s| >= |Opening| && s[..|Opening|] == Opening
    requires forall p :: |Opening| <= p < e ==> IsSpace(s[p])
    requires TryOpenings(s, i).Some?
    ensures k <= i
    ensures FramedAt(s, k, TryOpenings(s, i).value)
    ensures forall p: nat :: !OccursAt(TryOpenings(s, i).value, Closing, p)
    ensures forall j: nat :: k < j <= i ==> !OpensAt(s, j)
    decreases i
  {
    if OpensAt(s, i) {
      k := i;
      var j := FindClosing(s, i + 1).value;
      var g := s[i + 1..j];
      assert j == i + 1 + |g|;
      SliceWithoutClosing(s, i + 1, j);
    } else {
      k := TryOpeningsSound(s, i - 1, e);
    }
  }

  /**
   * Whatever the header block captures is framed by the opening `---`, a
   * whitespace run ending in a newline, and a closing `\n---`; and it never
   * contains `\n---` itself (the group is lazy).
   */
  lemma HeaderBlockSound(s: string) returns (i: nat)
    requires HeaderBlock(s).Some?
    ensures FramedAt(s, i, HeaderBlock(s).value)
    ensures forall p: nat :: !OccursAt(HeaderBlock(s).value, Closing, p)
    ensures forall j: nat, h: string :: FramedAt(s, j, h) ==> j <= i
  {
    var e := SpaceRunEnd(s, |Opening|);
    i := TryOpeningsSound(s, e - 1, e);
    forall j: nat, h: string | FramedAt(s, j, h) ensures j <= i {
      FramedBeforeRunEnd(s, j, h);
      assert OccursAt(s, Closing, j + 1 + |h|);
    }
  }

  /**
   * The opening newline of a framed content lies inside the whitespace run
   * after `---`, and a closing delimiter follows it.
   */
  lemma FramedBeforeRunEnd(s: string, j: nat, h: string)
    requires FramedAt(s, j, h)
    ensures j < SpaceRunEnd(s, |Opening|)
    ensures OpensAt(s, j)
  {
    var e := SpaceRunEnd(s, |Opening|);
    if e <= j {
      assert IsSpace(s[e]);
    }
    assert OccursAt(s, Closing, j + 1 + |h|);
  }

  lemma {:induction false} TryOpeningsComplete(s: string, k: int, i: nat, g: string)
    requires k < |s| && i <= k
    requires FramedAt(s, i, g)
    ensures TryOpenings(s, k).Some?
    decreases k
  {
    if k == i {
      assert OccursAt(s, Closing, i + 1 + |g|);
    } else if !OpensAt(s, k) {
      TryOpeningsComplete(s, k - 1, i, g);
    }
  }

  /** Every document of the framed shape has a header block. */
  lemma HeaderBlockComplete(s: string, i: nat, g: string)
    requires FramedAt(s, i, g)
    ensures HeaderBlock(s).Some?
  {
    var e := SpaceRunEnd(s, |Opening|);
    assert IsSpace(s[i]);
    TryOpeningsComplete(s, e - 1, i, g);
  }

  /** The decoder's value for the header block of a readable document, if both exist. */
  function DecodedHeader(content: Option<string>, decode: string -> Option<Value>): Option<Value> {
    if content.None? then None
    else match HeaderBlock(content.value)
      case None => None
      case Some(g) => decode(g)
  }

  /**
   * What `parse_frontmatter` returns, AS WRITTEN: `{}` when the file cannot
   * be read, has no header block, or its YAML fails to decode (`decode`
   * answers `None`); otherwise the decoded value when it is true in Python,
   * else `{}`. A truthy value that is not a mapping is returned as it is.
   */
  function ParsedAsWritten(content: Option<string>, decode: string -> Option<Value>): (v: Value)
    ensures v != Mapping(map[]) ==> Truthy(v)
    ensures DecodedHeader(content, decode).Some? && Truthy(DecodedHeader(content, decode).value) ==>
              v == DecodedHeader(content, decode).value
    ensures !(DecodedHeader(content, decode).Some? && Truthy(DecodedHeader(content, decode).value)) ==>
              v == Mapping(map[])
  {
    var empty := Mapping(map[]);
    if content.None? then empty
    else match HeaderBlock(content.value)
      case None => empty
      case Some(g) =>
        match decode(g)
        case None => empty
        case Some(data) => if Truthy(data) then data else empty
  }

  /**
   * `parse_frontmatter` as intended: a mapping in every case, `{}` whenever
   * the header is absent, unreadable, undecodable or not a mapping.
   */
  function ParseFrontmatter(content: Option<string>, decode: string -> Option<Value>): (fm: map<string, Value>)
    ensures content.None? ==> fm == map[]
    ensures content.Some? && HeaderBlock(content.value).None? ==> fm == map[]
    ensures fm != map[] ==>
              && content.Some?
              && HeaderBlock(content.value).Some?
              && decode(HeaderBlock(content.value).value) == Some(Mapping(fm))
    ensures DecodedHeader(content, decode).Some? && DecodedHeader(content, decode).value.Mapping? ==>
              fm == DecodedHeader(content, decode).value.fields
    ensures DecodedHeader(content, decode).Some? && !DecodedHeader(content, decode).value.Mapping? ==>
              fm == map[]
  {
    match ParsedAsWritten(content, decode)
    case Mapping(m) => m
    case _ => map[]
  }
}
