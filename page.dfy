/**
 * The home page: the recent-items selection over the two shared content
 * collections, and the display fields derived for each selected item.
 */
module Page {
  import opened Wrappers
  import opened Dates
  import opened Selection

  /** An essay of the content layer. */
  datatype Post = Post(
    url: string,
    title: string,
    date: CalendarDate,
    cover: Option<string>,
    category: Option<string>,
    excerpt: Option<string>)

  /** A photo of the content layer; its cover image is required. */
  datatype Photo = Photo(url: string, title: string, date: CalendarDate, cover: string)

  function PostDate(p: Post): Date { p.date }
  function PhotoDate(p: Photo): Date { p.date }

  /** How many essays and how many photos the home page shows. */
  const PostLimit: nat := 3
  const AlbumLimit: nat := 8

  /**
   * Sorts both collections in place, newest first and stably, and returns
   * the first three essays and the first eight photos. Each sort changes
   * only its own collection.
   */
  method FetchBlogData(allPosts: array<Post>, allPhotos: array<Photo>)
    returns (posts: seq<Post>, album: seq<Photo>)
    modifies allPosts, allPhotos
    ensures allPosts[..] == Sort(old(allPosts[..]), PostDate)
    ensures allPhotos[..] == Sort(old(allPhotos[..]), PhotoDate)
    ensures posts == allPosts[..Min(allPosts.Length, PostLimit)]
    ensures album == allPhotos[..Min(allPhotos.Length, AlbumLimit)]
    ensures posts == Select(old(allPosts[..]), PostDate, PostLimit)
    ensures album == Select(old(allPhotos[..]), PhotoDate, AlbumLimit)
    ensures SortedDesc(old(allPosts[..]), PostDate) ==> allPosts[..] == old(allPosts[..])
    ensures SortedDesc(old(allPhotos[..]), PhotoDate) ==> allPhotos[..] == old(allPhotos[..])
  {
    SortOfSorted(allPosts[..], PostDate);
    SortOfSorted(allPhotos[..], PhotoDate);
    SortByDateDesc(allPosts, PostDate);
    posts := allPosts[..Min(allPosts.Length, PostLimit)];
    SortByDateDesc(allPhotos, PhotoDate);
    album := allPhotos[..Min(allPhotos.Length, AlbumLimit)];
  }

  /**
   * A second call finds both collections sorted: they stay as they are and
   * the same items are returned.
   */
  method FetchBlogDataTwice(allPosts: array<Post>, allPhotos: array<Photo>)
    returns (posts: seq<Post>, album: seq<Photo>, posts2: seq<Post>, album2: seq<Photo>)
    modifies allPosts, allPhotos
    ensures posts2 == posts && album2 == album
    ensures allPosts[..] == Sort(old(allPosts[..]), PostDate)
    ensures allPhotos[..] == Sort(old(allPhotos[..]), PhotoDate)
  {
    ghost var posts0, photos0 := allPosts[..], allPhotos[..];
    posts, album := FetchBlogData(allPosts, allPhotos);
    SortIsSorted(posts0, PostDate);
    SortIsSorted(photos0, PhotoDate);
    SelectIdempotent(posts0, PostDate, PostLimit);
    SelectIdempotent(photos0, PhotoDate, AlbumLimit);
    posts2, album2 := FetchBlogData(allPosts, allPhotos);
  }

  // ---------------------------------------------------------------------
  // Display fields

  /** A JavaScript truthy string field: present and not empty. */
  predicate Truthy(o: Option<string>)
    ensures Truthy(o) <==> o != None && o != Some("")
  {
    o.Some? && o.value != ""
  }

  /** The endpoint that draws a placeholder cover from a title. */
  const OgImageEndpoint: string := "https://tripper.press/api/og?title="

  /** An image element: its source, its alternative text, and whether it bypasses optimisation. */
  datatype Image = Image(src: string, alt: string, unoptimized: bool)

  /**
   * An essay's cover: its own cover image when it has one, otherwise the
   * placeholder drawn from its title, which is not optimised.
   */
  function PostCover(p: Post): (img: Image)
    ensures img.alt == p.title
    ensures img.src != ""
    ensures Truthy(p.cover) ==> img.src == p.cover.value && !img.unoptimized
    ensures !Truthy(p.cover) ==>
              img.unoptimized &&
              |OgImageEndpoint| <= |img.src| &&
              img.src[..|OgImageEndpoint|] == OgImageEndpoint &&
              img.src[|OgImageEndpoint|..] == p.title
  {
    if Truthy(p.cover) then Image(p.cover.value, p.title, false)
    else Image(OgImageEndpoint + p.title, p.title, true)
  }

  /** The text after the date: a separator and the category, if there is one. */
  function CategorySuffix(category: Option<string>): (s: string)
    ensures Truthy(category) ==> s == " · " + category.value
    ensures !Truthy(category) ==> s == ""
  {
    if Truthy(category) then " · " + category.value else ""
  }

  /** An essay's date line: the rendered date, then the category suffix. */
  function PostDateLine(p: Post): (line: string)
    ensures |FormatDate(p.date)| <= |line|
    ensures ParseDate(line[..|FormatDate(p.date)|]) == Some(p.date)
    ensures line[|FormatDate(p.date)|..] == CategorySuffix(p.category)
    ensures !Truthy(p.category) ==> line == FormatDate(p.date)
  {
    FormatDateRoundTrip(p.date);
    var date, suffix := FormatDate(p.date), CategorySuffix(p.category);
    assert (date + suffix)[..|date|] == date && (date + suffix)[|date|..] == suffix;
    date + suffix
  }

  /**
   * The date line reads back as the essay's date followed by exactly the
   * category suffix (for four-digit years).
   */
  lemma PostDateLineParts(p: Post)
    requires p.date.year < 10000
    ensures ParseDate(PostDateLine(p)[..10]) == Some(p.date)
    ensures PostDateLine(p)[10..] == CategorySuffix(p.category)
    ensures !Truthy(p.category) ==> PostDateLine(p) == FormatDate(p.date)
  {
    FormatDateShape(p.date);
    FormatDateRoundTrip(p.date);
    var line := PostDateLine(p);
    assert line[..10] == FormatDate(p.date);
    assert line[10..] == CategorySuffix(p.category);
  }

  /** An essay's excerpt, shown as is; nothing when there is none. */
  function ExcerptText(p: Post): (s: string)
    ensures p.excerpt.Some? ==> s == p.excerpt.value
    ensures p.excerpt.None? ==> s == ""
  {
    p.excerpt.GetOr("")
  }

  /** What the page shows for one essay. */
  datatype PostCard = PostCard(href: string, cover: Image, title: string, dateLine: string, excerpt: string)

  /** What the page shows for one photo. */
  datatype PhotoTile = PhotoTile(href: string, anchor: string, image: Image, title: string, dateLine: string)

  function PresentPost(p: Post): (c: PostCard)
    ensures c.href == "/post/" + p.url && c.title == p.title
    ensures c.cover == PostCover(p)
    ensures c.dateLine == PostDateLine(p) && c.excerpt == ExcerptText(p)
  {
    PostCard("/post/" + p.url, PostCover(p), p.title, PostDateLine(p), ExcerptText(p))
  }

  /** A photo shows its cover verbatim and its date with no category. */
  function PresentPhoto(ph: Photo): (t: PhotoTile)
    ensures t.href == "/album/" + ph.url && t.anchor == ph.url
    ensures t.image == Image(ph.cover, ph.title, false)
    ensures t.title == ph.title && t.dateLine == FormatDate(ph.date)
  {
    PhotoTile("/album/" + ph.url, ph.url, Image(ph.cover, ph.title, false), ph.title, FormatDate(ph.date))
  }

  /**
   * Renders the home page's content: the three newest essays and the eight
   * newest photos, each through its display rules, in newest-first order.
   */
  method Home(allPosts: array<Post>, allPhotos: array<Photo>)
    returns (cards: seq<PostCard>, tiles: seq<PhotoTile>)
    modifies allPosts, allPhotos
    ensures allPosts[..] == Sort(old(allPosts[..]), PostDate)
    ensures allPhotos[..] == Sort(old(allPhotos[..]), PhotoDate)
    ensures |cards| == Min(allPosts.Length, PostLimit)
    ensures |tiles| == Min(allPhotos.Length, AlbumLimit)
    ensures forall i :: 0 <= i < |cards| ==>
              cards[i] == PresentPost(Select(old(allPosts[..]), PostDate, PostLimit)[i])
    ensures forall i :: 0 <= i < |tiles| ==>
              tiles[i] == PresentPhoto(Select(old(allPhotos[..]), PhotoDate, AlbumLimit)[i])
  {
    var posts, album := FetchBlogData(allPosts, allPhotos);
    cards := seq(|posts|, i requires 0 <= i < |posts| => PresentPost(posts[i]));
    tiles := seq(|album|, i requires 0 <= i < |album| => PresentPhoto(album[i]));
  }

  /** Dates as their own sort key, for the example below. */
  function DateOf(d: Date): Date { d }

  lemma SortExampleFirstTwo()
    ensures Sort([Date(2023, 1, 1), Date(2023, 6, 1)], DateOf) == [Date(2023, 6, 1), Date(2023, 1, 1)]
  {
    var jan, jun := Date(2023, 1, 1), Date(2023, 6, 1);
    assert [jan, jun][..1] == [jan] && [jan][..0] == [];
    assert Sort([jan], DateOf) == [jan];
  }

  lemma SortExample()
    ensures Sort([Date(2023, 1, 1), Date(2023, 6, 1), Date(2023, 3, 1)], DateOf)
         == [Date(2023, 6, 1), Date(2023, 3, 1), Date(2023, 1, 1)]
  {
    var jan, mar, jun := Date(2023, 1, 1), Date(2023, 3, 1), Date(2023, 6, 1);
    SortExampleFirstTwo();
    assert [jan, jun, mar][..2] == [jan, jun];
    assert [jun, jan][1..] == [jan];
    assert Insert([jan], mar, DateOf) == [mar, jan];
    assert Insert([jun, jan], mar, DateOf) == [jun] + Insert([jan], mar, DateOf);
  }

  /**
   * An example: of essays dated 2023-01-01, 2023-06-01 and 2023-03-01, the
   * two newest are those of June and March, in that order.
   */
  lemma SelectExample()
    ensures Select([Date(2023, 1, 1), Date(2023, 6, 1), Date(2023, 3, 1)], DateOf, 2)
         == [Date(2023, 6, 1), Date(2023, 3, 1)]
    ensures Select([], DateOf, 3) == []
  {
    SortExample();
  }
}
