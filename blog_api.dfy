/**
 * The blog listing endpoint's own logic (app/routes/api/blog.ts): snippet
 * truncation, the paging parameters, the tag list, the filter list of the
 * content-store query, the paging answer, and the choice of snippet text.
 * Running the query against the content store is outside this model; the
 * store's answer (the posts and the total) is given as input.
 */
module BlogApi {
  import opened Wrappers
  import opened Text

  // ---------------------------------------------------------------------
  // Snippets
  // ---------------------------------------------------------------------

  /** Index a space must exceed to be used as a soft cut. */
  const MinSoftCut: int := 40

  /**
   * Where `truncateAtWord` cuts a string longer than `max`: at the last
   * space among the first `max - 1` units when that space lies beyond index
   * 40 (the space itself is dropped), else hard at `max - 1`.
   */
  function CutPoint(s: string, max: int): (cut: nat)
    requires s != [] && |s| > max
    ensures cut <= Max(0, max - 1) < |s|
    ensures cut == Max(0, max - 1)
      || (MinSoftCut < cut && s[cut] == ' ' && forall i :: cut < i < Max(0, max - 1) ==> s[i] != ' ')
    ensures cut == Max(0, max - 1) ==> forall i :: MinSoftCut < i < Max(0, max - 1) ==> s[i] != ' '
  {
    var sliced := s[..Max(0, max - 1)];
    var lastSpace := LastIndexOf(sliced, ' ');
    if lastSpace > MinSoftCut then lastSpace else |sliced|
  }

  /**
   * `truncateAtWord(s, max, fallback)`: the empty string stays empty, a
   * string of at most `max` units is returned whole, and a longer one is
   * cut (see `CutPoint`) and followed by `fallback`.
   */
  function TruncateAtWord(s: string, max: int, fallback: string): (r: string)
    ensures s == [] ==> r == []
    ensures s != [] && |s| <= max ==> r == s
    ensures s != [] && |s| > max ==> r == s[..CutPoint(s, max)] + fallback
    ensures |s| > max ==> |r| <= Max(0, max - 1) + |fallback|
  {
    if s == [] then []
    else if |s| <= max then s
    else s[..CutPoint(s, max)] + fallback
  }

  /** The one-unit ellipsis used as the snippet fallback. */
  const Ellipsis: string := "\U{2026}"

  /** With the one-unit ellipsis, the result never exceeds `max` units. */
  lemma TruncateFits(s: string, max: int)
    requires max >= 1
    ensures |TruncateAtWord(s, max, Ellipsis)| <= max
  {
  }

  /** Snippet length. */
  const SnippetLength: int := 200

  /** `stripMarkdown(md)`: "" for "", otherwise the regular-expression rewrite `rewrite`. */
  function StripMarkdown(md: string, rewrite: string -> string): (r: string)
    ensures md == [] ==> r == []
  {
    if md == [] then [] else rewrite(md)
  }

  /**
   * The text a post's snippet is cut from: the trimmed excerpt when the
   * excerpt is a string with non-blank content, otherwise the stripped
   * Markdown body (a body that is not a string counts as "").
   */
  function SnippetBase(excerpt: Option<string>, body: Option<string>, rewrite: string -> string): (base: string)
    ensures excerpt.Some? && Trim(excerpt.value) != [] ==> base == Trim(excerpt.value) && IsTrimmed(base)
    ensures !(excerpt.Some? && Trim(excerpt.value) != []) ==> base == StripMarkdown(body.GetOr(""), rewrite)
  {
    if excerpt.Some? && Trim(excerpt.value) != [] then Trim(excerpt.value)
    else StripMarkdown(body.GetOr(""), rewrite)
  }

  /** A post's snippet: at most 200 units, and a short excerpt is shown whole. */
  function Snippet(excerpt: Option<string>, body: Option<string>, rewrite: string -> string): (snippet: string)
    ensures |snippet| <= SnippetLength
    ensures excerpt.Some? && Trim(excerpt.value) != [] && |Trim(excerpt.value)| <= SnippetLength ==>
      snippet == Trim(excerpt.value)
    ensures var base := SnippetBase(excerpt, body, rewrite);
      && (|base| <= SnippetLength ==> snippet == base)
      && (|base| > SnippetLength ==> snippet == base[..CutPoint(base, SnippetLength)] + Ellipsis)
  {
    var base := SnippetBase(excerpt, body, rewrite);
    TruncateFits(base, SnippetLength);
    TruncateAtWord(base, SnippetLength, Ellipsis)
  }

  // ---------------------------------------------------------------------
  // Request parameters
  // ---------------------------------------------------------------------

  /**
   * `offset`: the number given, but never negative; 0 when the parameter is
   * absent or empty (`None`).
   */
  function ClampOffset(raw: Option<int>): (offset: int)
    ensures offset >= 0
    ensures raw.None? ==> offset == 0
    ensures raw.Some? && raw.value >= 0 ==> offset == raw.value
    ensures raw.Some? && raw.value < 0 ==> offset == 0
  {
    Max(0, raw.GetOr(0))
  }

  const MinLimit: int := 1
  const MaxLimit: int := 50
  const DefaultLimit: int := 10

  /** `limit`: the number given, clamped to [1, 50]; 10 when absent or empty. */
  function ClampLimit(raw: Option<int>): (limit: int)
    ensures MinLimit <= limit <= MaxLimit
    ensures raw.None? ==> limit == DefaultLimit
    ensures raw.Some? && MinLimit <= raw.value <= MaxLimit ==> limit == raw.value
    ensures raw.Some? && raw.value < MinLimit ==> limit == MinLimit
    ensures raw.Some? && raw.value > MaxLimit ==> limit == MaxLimit
  {
    Min(MaxLimit, Max(MinLimit, raw.GetOr(DefaultLimit)))
  }

  /** Each piece trimmed. */
  function TrimAll(pieces: seq<string>): (r: seq<string>)
    ensures |r| == |pieces|
    ensures forall i :: 0 <= i < |r| ==> r[i] == Trim(pieces[i])
  {
    if pieces == [] then [] else [Trim(pieces[0])] + TrimAll(pieces[1..])
  }

  /** The non-empty pieces, in order (`.filter(Boolean)`). */
  function NonEmpty(pieces: seq<string>): (r: seq<string>)
    ensures |r| <= |pieces|
    ensures forall i :: 0 <= i < |r| ==> r[i] != [] && r[i] in pieces
    ensures forall i :: 0 <= i < |pieces| && pieces[i] != [] ==> pieces[i] in r
    ensures (forall i :: 0 <= i < |pieces| ==> pieces[i] != []) ==> r == pieces
    ensures r == [] <==> forall i :: 0 <= i < |pieces| ==> pieces[i] == []
  {
    if pieces == [] then []
    else if pieces[0] == [] then NonEmpty(pieces[1..])
    else [pieces[0]] + NonEmpty(pieces[1..])
  }

  /**
   * Filtering works piece by piece, so the kept pieces stay in their order;
   * with the single-piece cases of `NonEmpty`'s contract this fixes the
   * result for every list.
   */
  lemma {:induction false} NonEmptyAppend(a: seq<string>, b: seq<string>)
    ensures NonEmpty(a + b) == NonEmpty(a) + NonEmpty(b)
  {
    if a == [] {
      assert a + b == b;
    } else {
      assert (a + b)[0] == a[0] && (a + b)[1..] == a[1..] + b;
      NonEmptyAppend(a[1..], b);
    }
  }

  /** A tag slug as the filter receives it: non-blank, trimmed, comma-free. */
  predicate IsSlug(s: string) {
    s != [] && IsTrimmed(s) && ',' !in s
  }

  /**
   * `tagSlugs`: the `tags` parameter split on commas, each piece trimmed,
   * empty pieces dropped, order kept.
   */
  function TagSlugs(raw: Option<string>): (tags: seq<string>)
    ensures forall i :: 0 <= i < |tags| ==> IsSlug(tags[i])
    ensures raw.None? ==> tags == []
  {
    var pieces := Split(OrElse(raw, ""), ',');
    TrimmedPiecesAreSlugs(pieces);
    NonEmpty(TrimAll(pieces))
  }

  /** Comma-free pieces, trimmed, with the empty ones dropped, are slugs. */
  lemma TrimmedPiecesAreSlugs(pieces: seq<string>)
    requires forall i :: 0 <= i < |pieces| ==> ',' !in pieces[i]
    ensures forall i :: 0 <= i < |NonEmpty(TrimAll(pieces))| ==> IsSlug(NonEmpty(TrimAll(pieces))[i])
  {
    var trimmed := TrimAll(pieces);
    forall j | 0 <= j < |trimmed| ensures ',' !in trimmed[j] && IsTrimmed(trimmed[j]) {
      TrimKeepsCommaFree(pieces[j]);
    }
    var tags := NonEmpty(trimmed);
    forall i | 0 <= i < |tags| ensures IsSlug(tags[i]) {
      var x := tags[i];
      assert x in trimmed;
      var j :| 0 <= j < |trimmed| && trimmed[j] == x;
    }
  }

  lemma TrimKeepsCommaFree(x: string)
    requires ',' !in x
    ensures ',' !in Trim(x)
  {
    var lead := LeadingWhitespace(x);
    var r := Trim(x);
    forall k | 0 <= k < |r| ensures r[k] != ',' {
      assert r[k] == x[lead + k];
    }
  }

  /** A comma-joined list of slugs is read back as exactly that list. */
  lemma TagSlugsRoundTrip(slugs: seq<string>)
    requires forall i :: 0 <= i < |slugs| ==> IsSlug(slugs[i])
    ensures TagSlugs(Some(Join(slugs, ","))) == slugs
  {
    var joined := Join(slugs, ",");
    if slugs == [] {
      assert OrElse(Some(joined), "") == "";
      assert NonEmpty(TrimAll(Split("", ','))) == [];
    } else {
      assert forall i :: 0 <= i < |slugs| ==> ',' !in slugs[i];
      SplitJoin(slugs, ',');
      JoinNonEmpty(slugs, ",");
      assert OrElse(Some(joined), "") == joined;
      TrimAllTrimmed(slugs);
      assert NonEmpty(slugs) == slugs;
      calc {
        TagSlugs(Some(joined));
        NonEmpty(TrimAll(Split(joined, ',')));
        NonEmpty(TrimAll(slugs));
        slugs;
      }
    }
  }

  /**
   * Any `tags` parameter is its comma-separated pieces joined by commas; its
   * tag list is those pieces trimmed, with the empty ones dropped, in order.
   */
  lemma TagSlugsOfJoin(pieces: seq<string>)
    requires |pieces| >= 1 && forall i :: 0 <= i < |pieces| ==> ',' !in pieces[i]
    ensures TagSlugs(Some(Join(pieces, ","))) == NonEmpty(TrimAll(pieces))
  {
    var joined := Join(pieces, ",");
    SplitJoin(pieces, ',');
    assert OrElse(Some(joined), "") == joined;
    calc {
      TagSlugs(Some(joined));
      NonEmpty(TrimAll(Split(joined, ',')));
      NonEmpty(TrimAll(pieces));
    }
  }

  /** Trimming already-trimmed pieces changes none of them. */
  lemma TrimAllTrimmed(pieces: seq<string>)
    requires forall i :: 0 <= i < |pieces| ==> IsTrimmed(pieces[i])
    ensures TrimAll(pieces) == pieces
  {
    var trimmed := TrimAll(pieces);
    assert forall i :: 0 <= i < |pieces| ==> trimmed[i] == pieces[i];
  }

  /** A join whose first piece is non-empty is non-empty. */
  lemma JoinNonEmpty(parts: seq<string>, sep: string)
    requires |parts| >= 1 && parts[0] != []
    ensures Join(parts, sep) != []
  {
    if |parts| > 1 {
      assert Join(parts, sep)[..|parts[0]|] == parts[0];
    }
  }

  // ---------------------------------------------------------------------
  // The content-store query
  // ---------------------------------------------------------------------

  const IsPost: string := "_type == \"post\""
  const IsPublished: string := "defined(publishedAt)"
  const MatchesSearch: string := "(title match $q || bodyMarkdown match $q)"
  const HasWantedTag: string := "count(tags[@->slug.current in $tagSlugs]) > 0"
  const FilterSeparator: string := " && "

  /**
   * The filter conditions: always the two base ones, then the search
   * condition when the trimmed query is non-empty, then the tag condition
   * when tags were asked for.
   */
  function BuildFilters(q: string, tagSlugs: seq<string>): (filters: seq<string>)
    ensures |filters| >= 2 && filters[0] == IsPost && filters[1] == IsPublished
    ensures MatchesSearch in filters <==> q != []
    ensures HasWantedTag in filters <==> tagSlugs != []
    ensures |filters| == 2 + (if q != [] then 1 else 0) + (if tagSlugs != [] then 1 else 0)
    ensures q != [] ==> filters[2] == MatchesSearch
    ensures tagSlugs != [] ==> filters[|filters| - 1] == HasWantedTag
  {
    [IsPost, IsPublished]
      + (if q != [] then [MatchesSearch] else [])
      + (if tagSlugs != [] then [HasWantedTag] else [])
  }

  /** The query parameters: `$q` wraps the search text in wildcards; `$tagSlugs` is the tag list. */
  datatype QueryParams = QueryParams(q: Option<string>, tagSlugs: Option<seq<string>>)

  /** What the loader asks the store for. */
  datatype ListQuery = ListQuery(where: string, params: QueryParams, start: int, end: int)

  /**
   * The listing query built from the request: `offset`, `limit`, `q` and
   * `tags` as they arrive (numbers already read, `None` when absent or
   * empty). The page asked for is [offset, offset + limit).
   */
  function BuildListQuery(offsetParam: Option<int>, limitParam: Option<int>, qParam: Option<string>, tagsParam: Option<string>)
    : (query: ListQuery)
    ensures 0 <= query.start && query.start < query.end <= query.start + MaxLimit
    ensures query.start == ClampOffset(offsetParam) && query.end == query.start + ClampLimit(limitParam)
    ensures query.params.q.Some? <==> Trim(OrElse(qParam, "")) != []
    ensures query.params.q.Some? ==> query.params.q.value == "*" + Trim(OrElse(qParam, "")) + "*"
    ensures query.params.tagSlugs.Some? <==> TagSlugs(tagsParam) != []
    ensures query.params.tagSlugs.Some? ==> query.params.tagSlugs.value == TagSlugs(tagsParam)
    ensures query.where == Join(BuildFilters(Trim(OrElse(qParam, "")), TagSlugs(tagsParam)), FilterSeparator)
  {
    var offset := ClampOffset(offsetParam);
    var limit := ClampLimit(limitParam);
    var q := Trim(OrElse(qParam, ""));
    var tags := TagSlugs(tagsParam);
    var params := QueryParams(
      if q != [] then Some("*" + q + "*") else None,
      if tags != [] then Some(tags) else None);
    ListQuery(Join(BuildFilters(q, tags), FilterSeparator), params, offset, offset + limit)
  }

  /** The condition text always begins with the two base conditions. */
  lemma WhereStartsWithBase(q: string, tagSlugs: seq<string>)
    ensures IsPost + FilterSeparator + IsPublished <= Join(BuildFilters(q, tagSlugs), FilterSeparator)
  {
    var filters := BuildFilters(q, tagSlugs);
    if |filters| > 2 {
      assert Join(filters[1..], FilterSeparator) == IsPublished + FilterSeparator + Join(filters[2..], FilterSeparator);
    }
  }

  // ---------------------------------------------------------------------
  // The paging answer
  // ---------------------------------------------------------------------

  datatype Page = Page(nextOffset: int, hasMore: bool)

  /** `nextOffset` and `hasMore` from the offset, the posts returned and the store's total. */
  function NextPage(offset: int, postCount: nat, total: int): (page: Page)
    ensures page.nextOffset - offset == postCount
    ensures page.hasMore <==> page.nextOffset < total
  {
    var nextOffset := offset + postCount;
    Page(nextOffset, nextOffset < total)
  }

  /**
   * When the store returns the page it was asked for (the posts of
   * [offset, offset + limit) that exist among `total`), the next offset is
   * where the following page starts, never past the end, and `hasMore`
   * says exactly whether posts remain after this page.
   */
  lemma NextPageFollowsOn(offset: int, limit: int, total: int)
    requires 0 <= offset <= total && limit >= 1
    ensures var page := NextPage(offset, Min(limit, total - offset), total);
      && page.nextOffset == Min(offset + limit, total)
      && (page.hasMore <==> offset + limit < total)
  {
  }
}
