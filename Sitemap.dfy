/**
  `app/sitemap.ts` after its query: the base URL, the four static pages and
  one entry per published post, in the order the query returned them. The
  query itself is an input (`None` for a `null` result), and `new Date()` is
  the `Now` timestamp.
*/
module Sitemap {
  import opened Wrappers

  const DefaultBaseUrl: string := "https://taemni.dev"

  /** `process.env.NEXT_PUBLIC_SITE_URL || 'https://taemni.dev'`. */
  function BaseUrl(env: Option<string>): (base: string)
    ensures env.Some? && env.value != [] ==> base == env.value
    ensures env.None? || env.value == [] ==> base == DefaultBaseUrl
  {
    if env.Some? && env.value != [] then env.value else DefaultBaseUrl
  }

  datatype ChangeFrequency = Daily | Weekly | Monthly

  /** `lastModified`: the time of the request, or a post's creation time. */
  datatype LastModified = Now | Created(createdAt: string)

  datatype Entry = Entry(url: string, lastModified: LastModified, changeFrequency: ChangeFrequency, priority: real)

  /** A row of the query: `slug, created_at`. */
  datatype PostRow = PostRow(slug: string, createdAt: string)

  /** `staticPages`: home, tags, series and search, in that order. */
  function StaticPages(base: string): (r: seq<Entry>)
    ensures |r| == 4
    ensures r[0].url == base && r[1].url == base + "/tags" && r[2].url == base + "/series" && r[3].url == base + "/search"
    ensures r[0].changeFrequency == Daily && r[1].changeFrequency == Weekly
    ensures r[2].changeFrequency == Weekly && r[3].changeFrequency == Monthly
    ensures forall i :: 0 <= i < 4 ==> r[i].lastModified == Now
  {
    [
      Entry(base, Now, Daily, 1.0),
      Entry(base + "/tags", Now, Weekly, 0.7),
      Entry(base + "/series", Now, Weekly, 0.7),
      Entry(base + "/search", Now, Monthly, 0.5)
    ]
  }

  /** The entry for one post. */
  function PostEntry(base: string, row: PostRow): (e: Entry)
    ensures e.url == base + "/post/" + row.slug
    ensures e.changeFrequency == Weekly && e.lastModified == Created(row.createdAt)
  {
    Entry(base + "/post/" + row.slug, Created(row.createdAt), Weekly, 0.8)
  }

  /** `postUrls`: `.map` over the rows. */
  function PostEntries(base: string, rows: seq<PostRow>): (r: seq<Entry>)
    ensures |r| == |rows|
  {
    if rows == [] then [] else [PostEntry(base, rows[0])] + PostEntries(base, rows[1..])
  }

  /** The `i`-th post entry belongs to the `i`-th row. */
  lemma {:induction false} PostEntryAt(base: string, rows: seq<PostRow>, i: nat)
    requires i < |rows|
    ensures PostEntries(base, rows)[i] == PostEntry(base, rows[i])
  {
    if i > 0 {
      PostEntryAt(base, rows[1..], i - 1);
    }
  }

  /** The mapping keeps the order of the rows: it distributes over concatenation. */
  lemma {:induction false} PostEntriesAppend(base: string, a: seq<PostRow>, b: seq<PostRow>)
    ensures PostEntries(base, a + b) == PostEntries(base, a) + PostEntries(base, b)
  {
    if a == [] {
      assert a + b == b;
    } else {
      assert (a + b)[0] == a[0];
      assert (a + b)[1..] == a[1..] + b;
      PostEntriesAppend(base, a[1..], b);
    }
  }

  /** `[...staticPages, ...postUrls]`, with `posts || []` for a `null` result. */
  function SitemapEntries(env: Option<string>, posts: Option<seq<PostRow>>): (r: seq<Entry>)
    ensures |r| == 4 + |posts.GetOr([])|
    ensures r[..4] == StaticPages(BaseUrl(env))
    ensures r[4..] == PostEntries(BaseUrl(env), posts.GetOr([]))
  {
    var base := BaseUrl(env);
    var statics := StaticPages(base);
    var postUrls := PostEntries(base, posts.GetOr([]));
    assert (statics + postUrls)[..4] == statics;
    assert (statics + postUrls)[4..] == postUrls;
    statics + postUrls
  }

  /** A `null` query result gives only the four static pages. */
  lemma NullQuery(env: Option<string>)
    ensures SitemapEntries(env, None) == StaticPages(BaseUrl(env))
  {
    var r := SitemapEntries(env, None);
    assert r == r[..4] + r[4..];
  }

  /** After the static pages, entry `4 + i` is the `i`-th post's page, changing weekly. */
  lemma PostPages(env: Option<string>, rows: seq<PostRow>, i: nat)
    requires i < |rows|
    ensures var e := SitemapEntries(env, Some(rows))[4 + i];
      e.url == BaseUrl(env) + "/post/" + rows[i].slug && e.changeFrequency == Weekly
      && e.lastModified == Created(rows[i].createdAt)
  {
    var r := SitemapEntries(env, Some(rows));
    assert r[4 + i] == r[4..][i];
    PostEntryAt(BaseUrl(env), rows, i);
  }
}
