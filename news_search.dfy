/**
 * `news.search.NewsSearch`: the three queries, as filters, orderings and
 * slices over the rows of the `News` table. `icontains` is a
 * case-insensitive substring test; the database's order among rows with
 * equal sort keys is not specified, and the model keeps such rows in
 * table order.
 */
module NewsSearch {
  import opened Wrappers
  import opened Text
  import opened NewsModels

  // ---------------------------------------------------------------------------
  // Filter and order
  // ---------------------------------------------------------------------------

  /** `queryset.filter(...)`: the rows that pass, in table order. */
  function Where<T(!new)>(rows: seq<T>, keep: T -> bool): (r: seq<T>)
    ensures forall x :: x in r <==> x in rows && keep(x)
    ensures forall x :: multiset(r)[x] == if keep(x) then multiset(rows)[x] else 0
  {
    if rows == [] then []
    else
      assert rows == [rows[0]] + rows[1..];
      (if keep(rows[0]) then [rows[0]] else []) + Where(rows[1..], keep)
  }

  /** The rows are ordered by `key`, largest first (`order_by('-key')`). */
  predicate SortedDesc<T>(rows: seq<T>, key: T -> int) {
    forall i, j :: 0 <= i < j < |rows| ==> key(rows[i]) >= key(rows[j])
  }

  /** `x` placed in front of the first row with a smaller key. */
  function Insert<T>(x: T, rows: seq<T>, key: T -> int): (r: seq<T>)
    requires SortedDesc(rows, key)
    ensures |r| == |rows| + 1 && (r[0] == x || (rows != [] && r[0] == rows[0]))
    ensures SortedDesc(r, key) && multiset(r) == multiset(rows) + multiset{x}
  {
    if rows == [] || key(x) >= key(rows[0]) then
      PrependSorted(x, rows, key);
      [x] + rows
    else
      TailSorted(rows, key);
      var rest := Insert(x, rows[1..], key);
      PrependSorted(rows[0], rest, key);
      assert rows == [rows[0]] + rows[1..];
      [rows[0]] + rest
  }

  /** A row with a key at least that of the first stays ordered in front. */
  lemma PrependSorted<T>(a: T, rows: seq<T>, key: T -> int)
    requires SortedDesc(rows, key) && (rows != [] ==> key(a) >= key(rows[0]))
    ensures SortedDesc([a] + rows, key)
  {
    var r := [a] + rows;
    forall i, j | 0 <= i < j < |r|
      ensures key(r[i]) >= key(r[j])
    {
      if i == 0 {
        assert key(rows[0]) >= key(rows[j - 1]) || j == 1;
      }
    }
  }

  /** Dropping the first row keeps the order. */
  lemma TailSorted<T>(rows: seq<T>, key: T -> int)
    requires SortedDesc(rows, key) && rows != []
    ensures SortedDesc(rows[1..], key)
  {
    var tail := rows[1..];
    forall i, j | 0 <= i < j < |tail|
      ensures key(tail[i]) >= key(tail[j])
    {
      assert tail[i] == rows[i + 1] && tail[j] == rows[j + 1];
    }
  }

  /** The rows sorted by `key`, largest first: an ordered permutation of the input. */
  function OrderBy<T>(rows: seq<T>, key: T -> int): (r: seq<T>)
    ensures SortedDesc(r, key) && multiset(r) == multiset(rows)
  {
    if rows == [] then []
    else
      assert rows == [rows[0]] + rows[1..];
      Insert(rows[0], OrderBy(rows[1..], key), key)
  }

  /** `queryset.filter(keep).order_by('-key')[:limit]`. */
  function Top<T(!new)>(rows: seq<T>, keep: T -> bool, key: T -> int, limit: nat): (r: seq<T>)
    ensures |r| <= limit && SortedDesc(r, key)
    ensures forall x :: x in r ==> x in rows && keep(x)
    ensures multiset(r) <= multiset(rows)
  {
    var filtered := Where(rows, keep);
    var ordered := OrderBy(filtered, key);
    var n := if limit < |ordered| then limit else |ordered|;
    SliceKeeps(rows, keep, filtered, ordered, n);
    PrefixWithin(ordered, n);
    WhereWithin(rows, keep);
    ordered[..n]
  }

  /** A prefix holds each element at most as often as the whole. */
  lemma PrefixWithin<T>(s: seq<T>, n: nat)
    requires n <= |s|
    ensures multiset(s[..n]) <= multiset(s)
  {
    assert s == s[..n] + s[n..];
  }

  /** A filter holds each row at most as often as the table. */
  lemma WhereWithin<T(!new)>(rows: seq<T>, keep: T -> bool)
    ensures multiset(Where(rows, keep)) <= multiset(rows)
  {
    var r := Where(rows, keep);
    forall x
      ensures multiset(r)[x] <= multiset(rows)[x]
    {
    }
  }

  /** A slice of a reordering of the filtered rows holds only rows that pass. */
  lemma SliceKeeps<T(!new)>(rows: seq<T>, keep: T -> bool, filtered: seq<T>, ordered: seq<T>, n: nat)
    requires forall x :: x in filtered <==> x in rows && keep(x)
    requires multiset(ordered) == multiset(filtered) && n <= |ordered|
    ensures forall x :: x in ordered[..n] ==> x in rows && keep(x)
  {
    forall x | x in ordered[..n]
      ensures x in rows && keep(x)
    {
      assert x in multiset(ordered);
      assert x in filtered;
    }
  }

  /** The primary key, for `order_by('-id')`. */
  function Id(x: NewsRow): int {
    x.id
  }

  /** The view count, for `order_by('-show')`. */
  function Show(x: NewsRow): int {
    x.show
  }

  // ---------------------------------------------------------------------------
  // search and search_by_tag
  // ---------------------------------------------------------------------------

  /** `name`, `short_txt`, `body_txt`, `tag` or `catname` contains the query, ignoring case. */
  predicate Mentions(x: NewsRow, query: string) {
    IContains(x.name, query) || IContains(x.shortTxt, query) || IContains(x.bodyTxt, query)
      || IContains(x.tag, query) || IContains(x.catname, query)
  }

  /** A row that `published_only` lets through. */
  predicate Published(x: NewsRow, publishedOnly: bool) {
    publishedOnly ==> x.act == 1
  }

  /**
   * `NewsSearch.search`: nothing for an empty query; otherwise every row
   * that mentions the query (and is published, when asked), each as often
   * as in the table, newest id first.
   */
  function Search(rows: seq<NewsRow>, query: string, publishedOnly: bool): (r: seq<NewsRow>)
    ensures query == "" ==> r == []
    ensures query != "" ==> forall x :: multiset(r)[x] == if Mentions(x, query) && Published(x, publishedOnly) then multiset(rows)[x] else 0
    ensures SortedDesc(r, Id)
  {
    if query == "" then []
    else OrderBy(Where(rows, (x: NewsRow) => Mentions(x, query) && Published(x, publishedOnly)), Id)
  }

  /**
   * `NewsSearch.search_by_tag`: every row whose `tag` field contains the tag,
   * ignoring case (and is published, when asked), newest id first.
   */
  function SearchByTag(rows: seq<NewsRow>, tag: string, publishedOnly: bool): (r: seq<NewsRow>)
    ensures forall x :: multiset(r)[x] == if IContains(x.tag, tag) && Published(x, publishedOnly) then multiset(rows)[x] else 0
    ensures SortedDesc(r, Id)
  {
    OrderBy(Where(rows, (x: NewsRow) => IContains(x.tag, tag) && Published(x, publishedOnly)), Id)
  }

  /** Unlike `search`, an empty tag is not refused: it matches every row. */
  lemma SearchByEmptyTag(rows: seq<NewsRow>, publishedOnly: bool)
    ensures forall x ::
      multiset(SearchByTag(rows, "", publishedOnly))[x] == if Published(x, publishedOnly) then multiset(rows)[x] else 0
  {
    forall x: NewsRow
      ensures IContains(x.tag, "")
    {
      assert Lower("") == "";
      ContainsEmpty(Lower(x.tag));
    }
  }

  // ---------------------------------------------------------------------------
  // get_related_articles
  // ---------------------------------------------------------------------------

  /** `Q(tag__icontains=t1) | Q(tag__icontains=t2) | ...`, starting from the empty `Q()`. */
  function AnyTag(field: string, tags: seq<string>): bool {
    if tags == [] then false
    else IContains(field, tags[0]) || AnyTag(field, tags[1..])
  }

  /** The disjunction holds exactly when the field contains one of the tags. */
  lemma {:induction false} AnyTagExists(field: string, tags: seq<string>)
    ensures AnyTag(field, tags) <==> exists k :: 0 <= k < |tags| && IContains(field, tags[k])
  {
    if tags != [] {
      AnyTagExists(field, tags[1..]);
      if AnyTag(field, tags[1..]) {
        var k :| 0 <= k < |tags[1..]| && IContains(field, tags[1..][k]);
        assert IContains(field, tags[k + 1]);
      }
      forall k | 1 <= k < |tags|
        ensures tags[k] == tags[1..][k - 1]
      {
      }
    }
  }

  /**
   * A row related to `article`: same category, published, not the article
   * itself, and, when the article has tags, sharing one of them.
   */
  predicate RelatedTo(x: NewsRow, article: NewsRow, tags: seq<string>) {
    && x.catid == article.catid && x.act == 1 && x.id != article.id
    && (tags != [] ==> AnyTag(x.tag, tags))
  }

  /** The tags the related-article filter uses: none for an empty `tag` field. */
  function ArticleTags(article: NewsRow): seq<string> {
    if article.tag != "" then Tags(article.tag) else []
  }

  /**
   * `NewsSearch.get_related_articles`: the related rows, most viewed first,
   * cut to `limit`; a negative limit is refused by the slice.
   */
  function RelatedArticles(rows: seq<NewsRow>, article: NewsRow, limit: int): (r: Result<seq<NewsRow>, string>)
    ensures r.Failure? <==> limit < 0
    ensures r.Success? ==>
      && |r.value| <= limit && SortedDesc(r.value, Show) && multiset(r.value) <= multiset(rows)
      && forall x :: x in r.value ==> x in rows && RelatedTo(x, article, ArticleTags(article))
  {
    if limit < 0 then Failure("Negative indexing is not supported.")
    else
      var tags := ArticleTags(article);
      Success(Top(rows, (x: NewsRow) => RelatedTo(x, article, tags), Show, limit))
  }

  /**
   * The slice keeps the most viewed: a related row left out is viewed no
   * more than any row kept, and nothing is left out when fewer than
   * `limit` rows are related.
   */
  lemma RelatedTop(rows: seq<NewsRow>, article: NewsRow, limit: int, x: NewsRow)
    requires limit >= 0 && x in rows && RelatedTo(x, article, ArticleTags(article))
    ensures var kept := RelatedArticles(rows, article, limit).value;
      x !in kept ==> |kept| == limit && forall i :: 0 <= i < |kept| ==> kept[i].show >= x.show
  {
    var tags := ArticleTags(article);
    var keep := (y: NewsRow) => RelatedTo(y, article, tags);
    assert RelatedArticles(rows, article, limit).value == Top(rows, keep, Show, limit);
    TopDominates(rows, keep, Show, limit, x);
  }

  /** A row that passes the filter but is cut by the slice ranks no higher than any row kept. */
  lemma TopDominates<T(!new)>(rows: seq<T>, keep: T -> bool, key: T -> int, limit: nat, x: T)
    requires x in rows && keep(x)
    ensures var kept := Top(rows, keep, key, limit);
      x !in kept ==> |kept| == limit && forall i :: 0 <= i < |kept| ==> key(kept[i]) >= key(x)
  {
    var ordered := OrderBy(Where(rows, keep), key);
    var n := if limit < |ordered| then limit else |ordered|;
    var kept := ordered[..n];
    assert x in multiset(ordered);
    var k :| 0 <= k < |ordered| && ordered[k] == x;
    if x !in kept {
      assert k >= n;
      forall i | 0 <= i < |kept|
        ensures key(kept[i]) >= key(x)
      {
        assert kept[i] == ordered[i];
      }
    }
  }

  /** Without tags the filter is only category, publication and not-self. */
  lemma RelatedUntagged(article: NewsRow, x: NewsRow)
    requires Tags(article.tag) == []
    ensures RelatedTo(x, article, ArticleTags(article)) <==> x.catid == article.catid && x.act == 1 && x.id != article.id
  {
  }

  /** With tags, a related row's `tag` field contains one of the article's tags. */
  lemma RelatedTagged(article: NewsRow, x: NewsRow)
    requires Tags(article.tag) != [] && RelatedTo(x, article, ArticleTags(article))
    ensures exists k :: 0 <= k < |Tags(article.tag)| && IContains(x.tag, Tags(article.tag)[k])
  {
    TagsOfEmpty();
    AnyTagExists(x.tag, Tags(article.tag));
  }
}
