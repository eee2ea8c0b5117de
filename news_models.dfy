/**
 * `news.models.News`: the article record, what `save` fills in before the
 * row is written (a unique slug, a default meta description), and
 * `get_tags_list`. Django's `slugify` is a parameter; the slugs already in
 * the table are the set `taken`.
 */
module NewsModels {
  import opened Text

  /** `meta_description`'s `max_length`, and how much of `short_txt` its default takes. */
  const MetaLength: nat := 160

  /** A stored row of the `News` table, with the fields the search reads. */
  datatype NewsRow = NewsRow(
    id: int,
    name: string,
    slug: string,
    shortTxt: string,
    bodyTxt: string,
    catname: string,
    catid: int,
    show: int,
    tag: string,
    act: int,
    metaDescription: string)

  // ---------------------------------------------------------------------------
  // Slugs
  // ---------------------------------------------------------------------------

  /** The `n`-th slug `save` tries: the base itself, then `base-1`, `base-2`, ... */
  function Candidate(base: string, n: nat): string {
    if n == 0 then base else base + "-" + DecimalString(n)
  }

  /** The candidates are pairwise distinct, so the search cannot cycle. */
  lemma CandidateInjective(base: string, i: nat, j: nat)
    requires Candidate(base, i) == Candidate(base, j)
    ensures i == j
  {
    DecimalStringFacts(i, 0);
    DecimalStringFacts(j, 0);
    if i > 0 && j > 0 {
      assert Candidate(base, i)[|base| + 1..] == DecimalString(i);
      assert Candidate(base, j)[|base| + 1..] == DecimalString(j);
      DecimalStringInjective(i, j);
    }
  }

  /** `slug` is the first candidate that no row of the table has. */
  ghost predicate FirstFree(slug: string, base: string, taken: set<string>) {
    exists n: nat :: slug == Candidate(base, n) && slug !in taken &&
      forall j :: 0 <= j < n ==> Candidate(base, j) in taken
  }

  /** There is only one first free candidate: the slug `save` picks is determined by the table. */
  lemma FirstFreeUnique(a: string, b: string, base: string, taken: set<string>)
    requires FirstFree(a, base, taken) && FirstFree(b, base, taken)
    ensures a == b
  {
    var m: nat :| a == Candidate(base, m) && a !in taken && forall j :: 0 <= j < m ==> Candidate(base, j) in taken;
    var n: nat :| b == Candidate(base, n) && b !in taken && forall j :: 0 <= j < n ==> Candidate(base, j) in taken;
  }

  // ---------------------------------------------------------------------------
  // Tags
  // ---------------------------------------------------------------------------

  /** `[f(p) for p in parts if f(p)]`: the images under `f` that are not empty, in order. */
  function Kept(parts: seq<string>, f: string -> string): seq<string> {
    if parts == [] then []
    else (if f(parts[0]) != "" then [f(parts[0])] else []) + Kept(parts[1..], f)
  }

  /** `get_tags_list` for the `tag` field. */
  function Tags(tag: string): seq<string> {
    Kept(Split(tag, ','), Strip)
  }

  /**
   * The kept images are exactly the non-empty ones: each is the image of
   * some part, and the image of every part is there unless it is empty.
   */
  lemma {:induction false} KeptExact(parts: seq<string>, f: string -> string)
    ensures var r := Kept(parts, f);
      && (forall i :: 0 <= i < |r| ==> r[i] != "" && exists k :: 0 <= k < |parts| && r[i] == f(parts[k]))
      && (forall k :: 0 <= k < |parts| && f(parts[k]) != "" ==> f(parts[k]) in r)
  {
    if parts != [] {
      KeptExact(parts[1..], f);
      var head := if f(parts[0]) != "" then [f(parts[0])] else [];
      var rest := Kept(parts[1..], f);
      var r := Kept(parts, f);
      assert r == head + rest;
      forall i | 0 <= i < |r|
        ensures r[i] != "" && exists k :: 0 <= k < |parts| && r[i] == f(parts[k])
      {
        if i < |head| {
          assert r[i] == f(parts[0]);
        } else {
          assert r[i] == rest[i - |head|];
          var k :| 0 <= k < |parts[1..]| && rest[i - |head|] == f(parts[1..][k]);
          assert r[i] == f(parts[k + 1]);
        }
      }
      forall k | 0 <= k < |parts| && f(parts[k]) != ""
        ensures f(parts[k]) in r
      {
        if k > 0 {
          assert parts[k] == parts[1..][k - 1];
        }
      }
    }
  }

  /** The strip of a comma-free field is stripped already and comma-free. */
  lemma StripField(part: string)
    requires ',' !in part
    ensures Strip(Strip(part)) == Strip(part) && ',' !in Strip(part)
  {
    StripIdempotent(part, Whitespace);
    StripWithin(part, Whitespace);
  }

  /**
   * Every tag is non-empty, already stripped and free of commas, and every
   * comma-separated field that is not blank yields its stripped text.
   */
  lemma TagsClean(tag: string)
    ensures forall i :: 0 <= i < |Tags(tag)| ==>
      Tags(tag)[i] != "" && Strip(Tags(tag)[i]) == Tags(tag)[i] && ',' !in Tags(tag)[i]
    ensures forall k :: 0 <= k < |Split(tag, ',')| && Strip(Split(tag, ',')[k]) != "" ==> Strip(Split(tag, ',')[k]) in Tags(tag)
  {
    var parts := Split(tag, ',');
    KeptExact(parts, Strip);
    SplitFieldsFree(tag, ',');
    var r := Tags(tag);
    forall i | 0 <= i < |r|
      ensures Strip(r[i]) == r[i] && ',' !in r[i]
    {
      var k :| 0 <= k < |parts| && r[i] == Strip(parts[k]);
      StripField(parts[k]);
    }
  }

  /** An empty `tag` field has no tags. */
  lemma TagsOfEmpty()
    ensures Tags("") == []
  {
    assert Split("", ',') == [""];
    assert Strip("") == "";
  }

  // ---------------------------------------------------------------------------
  // The model instance
  // ---------------------------------------------------------------------------

  /** A `News` instance: the fields of its row, which `save` may fill in. */
  class News {
    var id: int
    var name: string
    var slug: string
    var shortTxt: string
    var bodyTxt: string
    var catname: string
    var catid: int
    var show: int
    var tag: string
    var act: int
    var metaDescription: string

    constructor (row: NewsRow)
      ensures Row() == row
    {
      id, name, slug := row.id, row.name, row.slug;
      shortTxt, bodyTxt, catname := row.shortTxt, row.bodyTxt, row.catname;
      catid, show, tag, act := row.catid, row.show, row.tag, row.act;
      metaDescription := row.metaDescription;
    }

    /** The row `super().save()` writes. */
    function Row(): NewsRow
      reads this
    {
      NewsRow(id, name, slug, shortTxt, bodyTxt, catname, catid, show, tag, act, metaDescription)
    }

    /** `get_tags_list`. */
    function TagsList(): seq<string>
      reads this
    {
      Tags(tag)
    }

    /**
     * `save`, up to the database write: an empty slug becomes the first of
     * `slugify(name)`, `slugify(name)-1`, ... that no row has; an empty
     * meta description becomes the first 160 characters of a non-empty
     * `short_txt`. Nothing else changes.
     */
    method Save(slugify: string -> string, taken: set<string>)
      modifies this
      ensures old(slug) != "" ==> slug == old(slug)
      ensures old(slug) == "" ==> FirstFree(slug, slugify(name), taken)
      ensures old(metaDescription) == "" && shortTxt != "" ==>
        metaDescription == shortTxt[..if |shortTxt| < MetaLength then |shortTxt| else MetaLength]
      ensures old(metaDescription) != "" || shortTxt == "" ==> metaDescription == old(metaDescription)
      ensures |old(metaDescription)| <= MetaLength ==> |metaDescription| <= MetaLength
      ensures Row() == old(Row()).(slug := slug, metaDescription := metaDescription)
    {
      if slug == "" {
        slug := FreeSlug(slugify(name), taken);
      }
      if metaDescription == "" && shortTxt != "" {
        metaDescription := shortTxt[..if |shortTxt| < MetaLength then |shortTxt| else MetaLength];
      }
    }
  }

  /** The slug loop of `save`: try `base`, then `base-1`, `base-2`, ... until no row has it. */
  method FreeSlug(base: string, taken: set<string>) returns (slug: string)
    ensures FirstFree(slug, base, taken)
  {
    slug := base;
    var counter := 1;
    ghost var tried: set<string> := {};
    while slug in taken
      invariant counter >= 1 && slug == Candidate(base, counter - 1)
      invariant forall j :: 0 <= j < counter - 1 ==> Candidate(base, j) in taken
      invariant tried <= taken && |tried| == counter - 1
      invariant forall x :: x in tried ==> exists j :: 0 <= j < counter - 1 && x == Candidate(base, j)
      decreases |taken| - |tried|
    {
      forall x | x in tried
        ensures x != slug
      {
        var j :| 0 <= j < counter - 1 && x == Candidate(base, j);
        if x == slug {
          CandidateInjective(base, j, counter - 1);
        }
      }
      tried := tried + {slug};
      SubsetSize(tried, taken);
      slug := base + "-" + DecimalString(counter);
      counter := counter + 1;
    }
  }

  /** A subset is no larger than its superset. */
  lemma {:induction false} SubsetSize<T>(a: set<T>, b: set<T>)
    requires a <= b
    ensures |a| <= |b|
    decreases |a|
  {
    if a != {} {
      var x :| x in a;
      SubsetSize(a - {x}, b - {x});
    }
  }
}
