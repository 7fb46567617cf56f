/**
 * The tag index generator: it annotates every post with its tag records, groups the
 * posts by tag, and appends one index page per tag to the site.
 */
module GenTags {
  import opened Wrappers
  import opened TagPaths
  import opened TagBuckets

  /** A post: its `tags` front matter and the `tag_data` the generator writes. */
  class Post {
    var tags: seq<string>
    var tagData: seq<TagRecord>
  }

  /**
   * The `{url, tag}` record of one tag. It is an object so that sharing one record
   * between every occurrence of a tag is a statement about identity.
   */
  class TagRecord {
    const url: string
    const tag: string

    constructor (prefix: string, t: string)
      ensures url == TagUrl(prefix, t) && tag == t
    {
      url := TagUrl(prefix, t);
      tag := t;
    }
  }

  /** A generated tag index page and the data it is rendered with. */
  class TagIndexPage {
    const dir: string
    const name: string
    const title: string
    const posts: seq<Post>

    constructor (prefix: string, tag: string, posts: seq<Post>)
      ensures dir == TagDir(prefix, tag) && name == "index.html"
      ensures title == "Tag: " + tag && this.posts == posts
    {
      dir := TagDir(prefix, tag);
      name := "index.html";
      title := "Tag: " + tag;
      this.posts := posts;
    }
  }

  /** The parts of the site the generator uses. */
  class Site {
    /** The posts collection's documents. */
    const posts: seq<Post>
    /** `collections.posts.permalink` of the configuration, when set. */
    const permalink: Option<string>
    var pages: seq<TagIndexPage>
  }

  /** The tags of each post, in post order. */
  function TagsOf(posts: seq<Post>): (r: seq<seq<string>>)
    reads posts
    ensures |r| == |posts|
  {
    seq(|posts|, i reads posts requires 0 <= i < |posts| => posts[i].tags)
  }

  /** The tag table `posts_by_tag` builds: its buckets, and their keys in insertion order. */
  datatype TagTable = TagTable(order: seq<string>, buckets: map<string, seq<Post>>)

  /**
   * The block `inject_tag_data` maps over one post's tags: the memoised record of each
   * tag, creating and remembering a record only for a tag not yet in the memo.
   */
  method MapTags(tags: seq<string>, prefix: string, memo: map<string, TagRecord>)
    returns (data: seq<TagRecord>, memo': map<string, TagRecord>)
    ensures |data| == |tags|
    ensures forall t | t in memo :: t in memo' && memo'[t] == memo[t]
    ensures forall t :: t in memo' <==> t in memo || t in tags
    ensures forall t | t in memo' && t !in memo ::
      fresh(memo'[t]) && memo'[t].tag == t && memo'[t].url == TagUrl(prefix, t)
    ensures forall a | 0 <= a < |tags| :: data[a] == memo'[tags[a]]
  {
    data, memo' := [], memo;
    for a := 0 to |tags|
      invariant |data| == a
      invariant forall t | t in memo :: t in memo' && memo'[t] == memo[t]
      invariant forall t :: t in memo' <==> t in memo || t in tags[..a]
      invariant forall t | t in memo' && t !in memo ::
        fresh(memo'[t]) && memo'[t].tag == t && memo'[t].url == TagUrl(prefix, t)
      invariant forall b | 0 <= b < a :: data[b] == memo'[tags[b]]
    {
      var t := tags[a];
      var record;
      if t in memo' {
        record := memo'[t];
      } else {
        record := new TagRecord(prefix, t);
        memo' := memo'[t := record];
      }
      data := data + [record];
      assert tags[..a + 1] == tags[..a] + [t];
    }
    assert tags[..|tags|] == tags;
  }

  /**
   * Wherever two posts carry the same tag, their `tag_data` holds the same record object
   * for it.
   */
  ghost predicate SharedRecords(posts: seq<Post>)
    reads posts
  {
    (forall i | 0 <= i < |posts| :: |posts[i].tagData| == |posts[i].tags|) &&
    forall i, a, j, b |
      0 <= i < |posts| && 0 <= a < |posts[i].tags| && 0 <= j < |posts| && 0 <= b < |posts[j].tags| &&
      posts[i].tags[a] == posts[j].tags[b] :: posts[i].tagData[a] == posts[j].tagData[b]
  }

  /**
   * `inject_tag_data`: writes onto every post one record per tag, in the post's tag
   * order. The memo (returned for the contract) holds one record per distinct tag, built
   * once, so every occurrence of a tag in any post shares the same record object.
   */
  method InjectTagData(posts: seq<Post>, prefix: string) returns (ghost memo: map<string, TagRecord>)
    modifies posts
    ensures forall i | 0 <= i < |posts| :: posts[i].tags == old(posts[i].tags)
    ensures forall t :: t in memo <==> exists i | 0 <= i < |posts| :: t in posts[i].tags
    ensures forall t | t in memo :: fresh(memo[t]) && memo[t].tag == t && memo[t].url == TagUrl(prefix, t)
    ensures forall i | 0 <= i < |posts| ::
      |posts[i].tagData| == |posts[i].tags| &&
      forall a | 0 <= a < |posts[i].tags| :: posts[i].tagData[a] == memo[posts[i].tags[a]]
    ensures SharedRecords(posts) && TagDataWritten(posts, prefix)
  {
    var m: map<string, TagRecord> := map[];
    for k := 0 to |posts|
      invariant forall i | 0 <= i < |posts| :: posts[i].tags == old(posts[i].tags)
      invariant forall t :: t in m <==> exists i | 0 <= i < k :: t in posts[i].tags
      invariant forall t | t in m :: fresh(m[t]) && m[t].tag == t && m[t].url == TagUrl(prefix, t)
      invariant forall i | 0 <= i < k ::
        |posts[i].tagData| == |posts[i].tags| &&
        forall a | 0 <= a < |posts[i].tags| :: posts[i].tags[a] in m && posts[i].tagData[a] == m[posts[i].tags[a]]
    {
      var p := posts[k];
      var data;
      data, m := MapTags(p.tags, prefix, m);
      p.tagData := data;
    }
    memo := m;
  }

  /** `order` and `buckets` are the tag table of the scan `occ`. */
  ghost predicate TableOf(occ: seq<Occurrence<Post>>, order: seq<string>, buckets: map<string, seq<Post>>) {
    order == TagOrder(occ) &&
    (forall t :: t in buckets <==> t in order) &&
    (forall t | t in buckets :: buckets[t] == Bucket(occ, t))
  }

  /** `hash[t] << p` on an existing key keeps the table in step with the scan. */
  lemma ExtendBucket(occ: seq<Occurrence<Post>>, order: seq<string>, buckets: map<string, seq<Post>>, p: Post, t: string)
    requires TableOf(occ, order, buckets) && t in buckets
    ensures TableOf(occ + [Occurrence(p, t)], order, buckets[t := buckets[t] + [p]])
  {
    var occ' := occ + [Occurrence(p, t)];
    assert occ'[..|occ'| - 1] == occ;
    forall u | u in buckets ensures Bucket(occ', u) == Bucket(occ, u) + (if u == t then [p] else []) {
    }
  }

  /** `hash[t] << p` on a new key opens its bucket at the end of the key order. */
  lemma OpenBucket(occ: seq<Occurrence<Post>>, order: seq<string>, buckets: map<string, seq<Post>>, p: Post, t: string)
    requires TableOf(occ, order, buckets) && t !in buckets
    ensures TableOf(occ + [Occurrence(p, t)], order + [t], buckets[t := [] + [p]])
  {
    var occ' := occ + [Occurrence(p, t)];
    assert occ'[..|occ'| - 1] == occ;
    TagOrderMembers(occ, t);
    BucketOfAbsentTag(occ, t);
    forall u | u in buckets || u == t ensures Bucket(occ', u) == Bucket(occ, u) + (if u == t then [p] else []) {
    }
  }

  /**
   * `hash[t] << p` on the bucket table: a missing key first gets an empty bucket at the
   * end of the key order, then `p` is appended to the key's bucket.
   */
  method Push(order: seq<string>, buckets: map<string, seq<Post>>, t: string, p: Post, ghost occ: seq<Occurrence<Post>>)
    returns (order': seq<string>, buckets': map<string, seq<Post>>)
    requires TableOf(occ, order, buckets)
    ensures TableOf(occ + [Occurrence(p, t)], order', buckets')
  {
    if t in buckets {
      ExtendBucket(occ, order, buckets, p, t);
      order', buckets' := order, buckets[t := buckets[t] + [p]];
    } else {
      OpenBucket(occ, order, buckets, p, t);
      order', buckets' := order + [t], buckets[t := [] + [p]];
    }
  }

  /**
   * The block `posts_by_tag` runs for one post: `hash[t] << p` for each of its tags, a
   * missing key first getting an empty bucket at the end of the key order.
   */
  method AddPost(p: Post, order: seq<string>, buckets: map<string, seq<Post>>, ghost occ: seq<Occurrence<Post>>)
    returns (order': seq<string>, buckets': map<string, seq<Post>>)
    requires TableOf(occ, order, buckets)
    ensures TableOf(occ + Pairs(p, p.tags), order', buckets')
  {
    order', buckets' := order, buckets;
    ghost var scanned := occ;
    var tags := p.tags;
    for a := 0 to |tags|
      invariant scanned == occ + Pairs(p, tags[..a])
      invariant TableOf(scanned, order', buckets')
    {
      order', buckets' := Push(order', buckets', tags[a], p, scanned);
      PairsStep(p, tags, a);
      scanned := scanned + [Occurrence(p, tags[a])];
    }
    assert tags[..|tags|] == tags;
  }

  /**
   * `posts_by_tag`: one bucket per distinct tag, keyed in first-occurrence order, each
   * listing the posts of the scan that carry the tag, once per occurrence.
   */
  method PostsByTag(posts: seq<Post>) returns (table: TagTable)
    ensures table.order == TagOrder(Occurrences(posts, TagsOf(posts)))
    ensures forall t :: t in table.buckets <==> t in table.order
    ensures forall t | t in table.buckets :: table.buckets[t] == Bucket(Occurrences(posts, TagsOf(posts)), t)
  {
    ghost var tagLists := TagsOf(posts);
    ghost var occ: seq<Occurrence<Post>> := [];
    var order: seq<string> := [];
    var buckets: map<string, seq<Post>> := map[];
    for k := 0 to |posts|
      invariant occ == Occurrences(posts[..k], tagLists[..k])
      invariant TableOf(occ, order, buckets)
    {
      order, buckets := AddPost(posts[k], order, buckets, occ);
      occ := occ + Pairs(posts[k], posts[k].tags);
      assert tagLists[k] == posts[k].tags;
      OccurrencesStep(posts, tagLists, k);
    }
    assert posts[..|posts|] == posts && tagLists[..|posts|] == tagLists;
    table := TagTable(order, buckets);
  }

  /**
   * `pages` are the index pages of the tags of the scan `occ`, one per tag in the tag
   * order: directory `<prefix>/tag/<tag>`, file `index.html`, title `Tag: <tag>`, and
   * the tag's bucket as the page's posts.
   */
  ghost predicate IndexPagesOf(pages: seq<TagIndexPage>, prefix: string, occ: seq<Occurrence<Post>>) {
    var order := TagOrder(occ);
    |pages| == |order| &&
    forall i | 0 <= i < |order| ::
      pages[i].dir == TagDir(prefix, order[i]) && pages[i].name == "index.html" &&
      pages[i].title == "Tag: " + order[i] && pages[i].posts == Bucket(occ, order[i])
  }

  /**
   * Every post's `tag_data` holds, in the post's tag order, a record of each tag with
   * its URL under `prefix`.
   */
  ghost predicate TagDataWritten(posts: seq<Post>, prefix: string)
    reads posts
  {
    forall i | 0 <= i < |posts| ::
      |posts[i].tagData| == |posts[i].tags| &&
      forall a | 0 <= a < |posts[i].tags| ::
        posts[i].tagData[a].tag == posts[i].tags[a] && posts[i].tagData[a].url == TagUrl(prefix, posts[i].tags[a])
  }

  /**
   * The loop of `generate`: appends to the site one new page per key of the table, in
   * key order, for that key and its bucket.
   */
  method AppendTagPages(site: Site, prefix: string, table: TagTable, ghost occ: seq<Occurrence<Post>>)
    requires table.order == TagOrder(occ)
    requires forall t | t in table.order :: t in table.buckets && table.buckets[t] == Bucket(occ, t)
    modifies site
    ensures |site.pages| == |old(site.pages)| + |table.order|
    ensures site.pages[..|old(site.pages)|] == old(site.pages)
    ensures forall j | |old(site.pages)| <= j < |site.pages| :: fresh(site.pages[j])
    ensures IndexPagesOf(site.pages[|old(site.pages)|..], prefix, occ)
  {
    ghost var added: seq<TagIndexPage> := [];
    for i := 0 to |table.order|
      invariant site.pages == old(site.pages) + added && |added| == i
      invariant forall j | 0 <= j < i :: fresh(added[j])
      invariant forall j | 0 <= j < i ::
        added[j].dir == TagDir(prefix, table.order[j]) && added[j].name == "index.html" &&
        added[j].title == "Tag: " + table.order[j] && added[j].posts == table.buckets[table.order[j]]
    {
      var tag := table.order[i];
      var page := new TagIndexPage(prefix, tag, table.buckets[tag]);
      site.pages := site.pages + [page];
      added := added + [page];
    }
    assert site.pages[|old(site.pages)|..] == added;
  }

  /**
   * The `posts_by_tag(...).each` loop of `generate`: groups the posts by tag and appends
   * their index pages, leaving the posts as they are.
   */
  method AddIndexPages(site: Site, prefix: string)
    modifies site
    ensures |site.pages| >= |old(site.pages)| && site.pages[..|old(site.pages)|] == old(site.pages)
    ensures forall i | |old(site.pages)| <= i < |site.pages| :: fresh(site.pages[i])
    ensures IndexPagesOf(site.pages[|old(site.pages)|..], prefix, Occurrences(site.posts, TagsOf(site.posts)))
  {
    var table := PostsByTag(site.posts);
    ghost var occ := Occurrences(site.posts, TagsOf(site.posts));
    AppendTagPages(site, prefix, table, occ);
  }

  /**
   * `generate`: derives the prefix, injects the tag data (one shared record per tag), then
   * appends one index page per bucket, in bucket order. Ruby raises in `directory_prefix`
   * before any change when the permalink is a run of `:title`; `raised` reports that case.
   */
  method Generate(site: Site) returns (raised: bool)
    modifies site, site.posts
    ensures raised <==> DirectoryPrefix(site.permalink).Failure?
    ensures forall i | 0 <= i < |site.posts| :: site.posts[i].tags == old(site.posts[i].tags)
    ensures raised ==> site.pages == old(site.pages)
    ensures raised ==> forall i | 0 <= i < |site.posts| :: site.posts[i].tagData == old(site.posts[i].tagData)
    ensures !raised ==> TagDataWritten(site.posts, DirectoryPrefix(site.permalink).value)
    ensures !raised ==> SharedRecords(site.posts)
    ensures !raised ==>
      |site.pages| >= |old(site.pages)| && site.pages[..|old(site.pages)|] == old(site.pages) &&
      (forall i | |old(site.pages)| <= i < |site.pages| :: fresh(site.pages[i])) &&
      IndexPagesOf(site.pages[|old(site.pages)|..], DirectoryPrefix(site.permalink).value,
                   Occurrences(site.posts, TagsOf(site.posts)))
  {
    var prefixResult := DirectoryPrefix(site.permalink);
    if prefixResult.Failure? {
      return true;
    }
    raised := false;
    var prefix := prefixResult.value;
    ghost var memo := InjectTagData(site.posts, prefix);
    AddIndexPages(site, prefix);
  }
}
