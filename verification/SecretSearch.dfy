/**
 Listing with the limit pushed into SQL only when that is safe, and ranked search with paging.
 The SQL engine is its documented result: the rows satisfying the WHERE clause, in ORDER BY order.
 */
module SecretSearch {
  import opened Common
  import FtsQuery
  import LikePattern

  // ---- listing --------------------------------------------------------------------------------

  datatype Tag = Tag(key: string, value: string)

  /**
   A row of the listing query as the loop reads it, with its versions looked up. `None` marks a column
   that does not decode; `body` is the decoded secret.
   */
  datatype Candidate = Candidate(
    namespaceId: nat, handle: string, expiresAt: Option<nat>,
    tags: Option<seq<Tag>>, versionsLoad: bool, body: Option<string>)

  datatype SecretFilter = SecretFilter(
    ftsQuery: Option<string>, namePattern: Option<string>, expiresBefore: Option<nat>,
    tagMatch: Option<seq<Tag>>, limit: Option<nat>)

  datatype StorageError = Undecodable

  /** Which rows the full-text index returns for a MATCH expression. */
  type FtsIndex = (string, Candidate) -> bool

  /** The WHERE clause with its bound parameters, as `list_secrets` builds them. */
  predicate Where(row: Candidate, ns: nat, f: SecretFilter, fts: FtsIndex) {
    && row.namespaceId == ns
    && (f.ftsQuery.Some? ==> fts(FtsQuery.Sanitize(f.ftsQuery.value), row))
    && (f.namePattern.Some? ==> LikePattern.Like(LikePattern.CompileGlob(f.namePattern.value), row.handle))
    && (f.expiresBefore.Some? ==> row.expiresAt.Some? && row.expiresAt.value < f.expiresBefore.value)
  }

  /** The rows SQLite returns; the LIMIT clause is present only when there is no tag filter. */
  function SqlRows(table: seq<Candidate>, ns: nat, f: SecretFilter, fts: FtsIndex): (rows: seq<Candidate>) {
    var matching := Filter(table, row => Where(row, ns, f, fts));
    if f.limit.Some? && f.tagMatch.None? then Take(matching, f.limit.value) else matching
  }

  predicate TagsMatch(row: Candidate, f: SecretFilter) {
    f.tagMatch.None? || (row.tags.Some? && forall t <- f.tagMatch.value :: t in row.tags.value)
  }

  /** The row can be processed without an error by the Rust loop. */
  predicate Readable(row: Candidate, f: SecretFilter) {
    && row.versionsLoad
    && (f.tagMatch.Some? ==> row.tags.Some?)
    && (TagsMatch(row, f) ==> row.body.Some?)
  }

  /** What the filter asks for: the glob by its meaning, and every tag, on each row. */
  ghost predicate Meant(row: Candidate, ns: nat, f: SecretFilter, fts: FtsIndex) {
    && row.namespaceId == ns
    && (f.ftsQuery.Some? ==> fts(FtsQuery.Sanitize(f.ftsQuery.value), row))
    && (f.namePattern.Some? ==> LikePattern.GlobMatches(f.namePattern.value, row.handle))
    && (f.expiresBefore.Some? ==> row.expiresAt.Some? && row.expiresAt.value < f.expiresBefore.value)
    && (f.tagMatch.Some? ==> row.tags.Some? && forall t <- f.tagMatch.value :: t in row.tags.value)
  }

  /** The first `limit` rows of the fully filtered table. */
  ghost function Wanted(table: seq<Candidate>, ns: nat, f: SecretFilter, fts: FtsIndex): (rows: seq<Candidate>) {
    var all := Filter(table, row => Meant(row, ns, f, fts));
    if f.limit.Some? then Take(all, f.limit.value) else all
  }

  ghost predicate AreBodies(secrets: seq<string>, rows: seq<Candidate>) {
    && |secrets| == |rows|
    && forall i :: 0 <= i < |rows| ==> rows[i].body == Some(secrets[i])
  }

  /**
   The row loop with its early exits and the final truncation. It succeeds exactly when every row
   SQL returned is readable, and then returns the first `limit` rows of the fully filtered set,
   whichever side applied the limit.
   */
  method ListSecrets(table: seq<Candidate>, ns: nat, f: SecretFilter, fts: FtsIndex)
    returns (r: Result<seq<string>, StorageError>)
    ensures r.Ok? <==> forall row <- SqlRows(table, ns, f, fts) :: Readable(row, f)
    ensures r.Ok? ==> AreBodies(r.value, Wanted(table, ns, f, fts))
  {
    var rows := SqlRows(table, ns, f, fts);
    var secrets: seq<string> := [];
    ghost var kept: seq<Candidate> := [];
    for i := 0 to |rows|
      invariant kept == Filter(rows[..i], row => TagsMatch(row, f))
      invariant AreBodies(secrets, kept)
      invariant forall row <- rows[..i] :: Readable(row, f)
    {
      var row := rows[i];
      assert rows[..i + 1] == rows[..i] + [row];
      FilterSnoc(rows[..i], row, row => TagsMatch(row, f));
      if !row.versionsLoad {
        assert row in rows && !Readable(row, f);
        return Err(Undecodable);
      }
      if f.tagMatch.Some? {
        if row.tags.None? {
          assert row in rows && !Readable(row, f);
          return Err(Undecodable);
        }
        if !(forall t <- f.tagMatch.value :: t in row.tags.value) {
          continue;
        }
      }
      if row.body.None? {
        assert row in rows && !Readable(row, f);
        return Err(Undecodable);
      }
      secrets := secrets + [row.body.value];
      kept := kept + [row];
    }
    assert rows[..|rows|] == rows;
    LimitPushdown(table, ns, f, fts);
    if f.tagMatch.Some? && f.limit.Some? {
      secrets := Take(secrets, f.limit.value);
    }
    return Ok(secrets);
  }

  /** Filtering what SQL returned, then truncating when SQL did not, is the wanted row set. */
  lemma LimitPushdown(table: seq<Candidate>, ns: nat, f: SecretFilter, fts: FtsIndex)
    ensures var kept := Filter(SqlRows(table, ns, f, fts), row => TagsMatch(row, f));
            Wanted(table, ns, f, fts) == if f.tagMatch.Some? && f.limit.Some? then Take(kept, f.limit.value) else kept
  {
    var w := (row: Candidate) => Where(row, ns, f, fts);
    var t := (row: Candidate) => TagsMatch(row, f);
    FilterTwice(table, ns, f, fts);
    if f.tagMatch.None? {
      FilterAll(SqlRows(table, ns, f, fts), t);
      FilterAll(Filter(table, w), t);
    }
  }

  lemma {:induction false} FilterTwice(table: seq<Candidate>, ns: nat, f: SecretFilter, fts: FtsIndex)
    ensures Filter(table, row => Meant(row, ns, f, fts)) ==
            Filter(Filter(table, row => Where(row, ns, f, fts)), row => TagsMatch(row, f))
  {
    if table != [] {
      FilterTwice(table[1..], ns, f, fts);
      if f.namePattern.Some? {
        LikePattern.CompilePreservesMeaning(f.namePattern.value, table[0].handle);
      }
    }
  }

  // ---- ranked search and paging -----------------------------------------------------------------

  const U32_MAX: nat := 0xffff_ffff

  type U32 = n: nat | n <= U32_MAX

  datatype Ranked<T> = Ranked(secret: T, bm25Rank: U32)

  datatype Page<T> = Page(items: seq<Ranked<T>>, total: U32, hasMore: bool)

  function Min(a: nat, b: nat): nat {
    if a < b then a else b
  }

  function Saturate(n: nat): U32 {
    Min(n, U32_MAX)
  }

  /** One page: `ranking` is the match set in BM25 order, read with LIMIT and OFFSET. */
  method SearchSecrets<T>(ranking: seq<T>, offset: U32, limit: U32) returns (page: Page<T>)
    ensures page.total == Saturate(|ranking|)
    ensures page.hasMore <==> page.total > Saturate(offset + limit)
    ensures |page.items| == Min(limit, if offset < |ranking| then |ranking| - offset else 0)
    ensures forall i :: 0 <= i < |page.items| ==>
              && page.items[i].bm25Rank == i + 1
              && page.items[i].secret == ranking[offset + page.items[i].bm25Rank - 1]
  {
    var total := Saturate(|ranking|);
    var hasMore := total > Saturate(offset + limit);
    var lo := Min(offset, |ranking|);
    var rows := ranking[lo..Min(lo + limit, |ranking|)];
    var items: seq<Ranked<T>> := [];
    for pageIdx := 0 to |rows|
      invariant |items| == pageIdx
      invariant forall i :: 0 <= i < pageIdx ==> items[i] == Ranked(rows[i], i + 1)
    {
      items := items + [Ranked(rows[pageIdx], Saturate(pageIdx + 1))];
    }
    page := Page(items, total, hasMore);
  }

  /** The end of the last page a client reaches when the match count saturates: a multiple of `limit`. */
  function LastEnd(limit: U32): (n: nat)
    requires limit >= 1
  {
    (U32_MAX + limit - 1) / limit * limit
  }

  /**
   Following `has_more` with `offset += limit`. The loop terminates, the offset never overflows, and
   the pages concatenate to the ranking: all of it, exactly when it has at most `LastEnd(limit)`
   matches. In particular every ranking of fewer than 2^32 matches is visited once, in order.
   */
  method FollowPages<T>(ranking: seq<T>, limit: U32) returns (seen: seq<T>)
    requires limit >= 1
    ensures seen == Take(ranking, LastEnd(limit))
    ensures seen == ranking <==> |ranking| <= LastEnd(limit)
    ensures |ranking| <= U32_MAX ==> seen == ranking
  {
    LastEndCovers(limit);
    seen := [];
    var offset: U32 := 0;
    ghost var pages := 0;
    var total := Saturate(|ranking|);
    while true
      invariant offset == pages * limit
      invariant offset == 0 || offset < total
      invariant seen == ranking[..offset]
      decreases total - offset
    {
      var page := SearchSecrets(ranking, offset, limit);
      var chunk := seq(|page.items|, i requires 0 <= i < |page.items| => page.items[i].secret);
      PageExtends(ranking, offset, limit, chunk);
      seen := seen + chunk;
      if !page.hasMore {
        if |ranking| >= U32_MAX {
          LastPage(pages, limit);
        }
        return;
      }
      offset := offset + limit;
      pages := pages + 1;
    }
  }

  lemma PageExtends<T>(ranking: seq<T>, offset: nat, limit: nat, chunk: seq<T>)
    requires offset <= |ranking| && |chunk| == Min(limit, |ranking| - offset)
    requires forall i :: 0 <= i < |chunk| ==> chunk[i] == ranking[offset + i]
    ensures ranking[..offset] + chunk == ranking[..Min(offset + limit, |ranking|)]
  {
  }

  lemma LastEndCovers(limit: U32)
    requires limit >= 1
    ensures LastEnd(limit) >= U32_MAX
  {
    var m := U32_MAX + limit - 1;
    assert m == m / limit * limit + m % limit;
  }

  lemma LastPage(pages: nat, limit: U32)
    requires limit >= 1 && pages * limit < U32_MAX <= pages * limit + limit
    ensures LastEnd(limit) == pages * limit + limit
  {
    var m, q := U32_MAX + limit - 1, pages + 1;
    assert q * limit == pages * limit + limit;
    assert q * limit <= m < q * limit + limit;
    DivideUnique(m, limit, q);
  }

  /** With one match per page the client stops after 2^32 - 1 of them. */
  lemma OnePerPageExample<T>(ranking: seq<T>)
    requires |ranking| == U32_MAX + 1
    ensures LastEnd(1) == U32_MAX && Take(ranking, LastEnd(1)) != ranking
  {
    assert U32_MAX / 1 == U32_MAX;
  }

  lemma NextMultiple(a: nat, b: nat, d: nat)
    requires a < b
    ensures a * d + d <= b * d
  {
    assert b * d == a * d + (b - a) * d;
    assert (b - a) * d == d + (b - a - 1) * d;
  }

  lemma DivideUnique(m: nat, d: nat, q: nat)
    requires d >= 1 && q * d <= m < q * d + d
    ensures m / d == q
  {
    var p, r := m / d, m % d;
    assert m == p * d + r && 0 <= r < d;
    if p < q {
      NextMultiple(p, q, d);
    } else if p > q {
      NextMultiple(q, p, d);
    }
  }
}
