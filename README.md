# Tag index generator and series navigation

This project models the two Jekyll plugins at the core of the site's build in Dafny.

- **The tag index generator** (`_plugins/gen_tags.rb`) runs once per build and does four things:
  - It derives a directory prefix from the posts' permalink pattern.
  - It writes onto every post one `{url, tag}` record per tag (`tag_data`). Every occurrence of a tag shares one record.
  - It groups the posts by tag, keeping the tags in first-seen order.
  - It appends one `TagIndexPage` per tag to the site. Each page has the directory `<prefix>/tag/<tag>`, the name `index.html`, the title `Tag: <tag>` and that tag's posts.
- **The `series_index` Liquid filter** (`_plugins/filters.rb`) takes a named series of position keys and returns the keys just before and just after the first entry `>= input`. It finds that entry with Ruby's `bsearch_index`.

Modules:

- `Wrappers`: `Option` and `Result`.
- `TagPaths`: `directory_prefix`, modelled on Ruby's `String#split` (which drops trailing empty fields), plus the tag URL and directory strings.
- `TagBuckets`: reference definitions for the tag scan.
  - `Occurrences` lists every (post, tag) pair in post order and then tag order.
  - `TagOrder` lists the distinct tags where they first occur. This is the key order of Ruby's insertion-ordered `Hash`.
  - `Bucket` lists the posts of one tag.
  - Lemmas about these definitions.
- `GenTags`: the generator itself.
  - The classes `Post`, `TagRecord`, `TagIndexPage` and `Site`.
  - The methods `PostsByTag` and `Generate`, proved against `TagBuckets`, and `InjectTagData`, proved against `TagUrl` and its memo of one record per tag.
  - `TagRecord` is a class, so the memo's sharing of one record per tag is stated as object identity.
- `Filters`: `series_index`.
  - `ExpectedSeriesIndex` is the reference definition, using a linear lower bound.
  - The method `SeriesIndex` runs Ruby's binary search, `BsearchIndex`, including its `satisfied` flag. It is proved equal to `ExpectedSeriesIndex` on ascending entries.

The model follows the code, including where its behaviour may surprise a reader:

- **Series with an empty `entries` array.** Such a series is not "no navigation". `[]` is truthy in Ruby, so `bsearch_index` returns `nil`, and `idx.zero?` then raises. The same happens when every entry is below the key. `Filters.SeriesIndexResult.NilIndex` represents that failure.
- **Permalink that is only placeholders.** A permalink made up entirely of `:title` placeholders, including the empty string, makes `split` return `[]`. `directory_prefix` then indexes `nil` and raises. `DirectoryPrefix` returns `Failure` in that case, and `Generate` reports `raised` and changes nothing.
- **Key not in the series.** For a key that is not in the series, `next` is the entry after the first entry `>= input`, so it skips that entry (`Filters.NonMemberSkipsInsertionPoint`).

## Model

| member | source | states |
|---|---|---|
| TagPaths.BeforeTitle | _plugins/gen_tags.rb:31 | the result is a prefix of the pattern that ends exactly where the first `:title` starts, or at the end when there is none |
| TagPaths.Fields | _plugins/gen_tags.rb:31 | splitting on `:title` yields at least one field, and the first is the text before the first placeholder |
| TagPaths.DropTrailingEmpty | _plugins/gen_tags.rb:31 | Ruby's trailing-field removal keeps a prefix of the fields that ends in a non-empty field (or is empty), and drops only empty fields |
| TagPaths.BeforeTitleIsTitleFree | _plugins/gen_tags.rb:31 | the text before the first placeholder contains no `:title` |
| TagPaths.Split | _plugins/gen_tags.rb:31 | `split(':title')` keeps the fields in order, each free of `:title`, and drops only empty fields at the end, so the result never ends in an empty field |
| TagPaths.FieldsJoin | _plugins/gen_tags.rb:31 | splitting loses nothing but the separators: joining the fields with `:title` gives the permalink back |
| TagPaths.FieldsAllEmpty | _plugins/gen_tags.rb:31 | every field is empty exactly when the pattern is a run of `:title` placeholders |
| TagPaths.SplitFirstField | _plugins/gen_tags.rb:31 | `split(':title')` is `[]` exactly for a run of placeholders; otherwise its first field is the text before the first `:title` |
| TagPaths.DirectoryPrefix | _plugins/gen_tags.rb:28-34 | no permalink gives `""`; the lookup fails exactly for a run of placeholders; otherwise the result is the text before the first `:title` with at most one trailing `/` removed |
| TagPaths.BeforeTitleOfPattern | _plugins/gen_tags.rb:31 | for a permalink `p + ":title" + rest` where `p` holds no `:title` (other placeholders such as `:year` allowed), `p` is the text before the first placeholder |
| TagPaths.DirectoryPrefixOfPattern | _plugins/gen_tags.rb:31-32 | for every such permalink (except `:title` followed by a run of `:title`), the prefix is `p` with one trailing `/` removed, whatever follows the placeholder |
| TagPaths.DirectoryPrefixExamples | _plugins/gen_tags.rb:28-34 | `posts/:title/` gives `posts`; `posts//:title` gives `posts/` (only one slash is stripped) |
| TagPaths.DirectoryPrefixDateExample | _plugins/gen_tags.rb:28-34 | `/:year/:month/:title/` gives `/:year/:month`: other placeholders stay in the prefix |
| TagPaths.TagDir | _plugins/gen_tags.rb:6 | a page directory is the prefix, then `/tag/`, then the tag, so the tag can be read back from it |
| TagPaths.TagUrl | _plugins/gen_tags.rb:51 | a tag's URL is its index page's directory followed by `/` |
| TagPaths.TagPathsDistinct | _plugins/gen_tags.rb:51 | under one prefix, distinct tags get distinct page directories and distinct URLs |
| TagBuckets.Pairs | _plugins/gen_tags.rb:39 | one post contributes exactly one occurrence per tag |
| TagBuckets.PairsAt | _plugins/gen_tags.rb:39 | the `a`-th occurrence of a post is that post with its `a`-th tag |
| TagBuckets.Occurrences | _plugins/gen_tags.rb:38-39 | the scan visits as many occurrences as there are tags over all posts |
| TagBuckets.PairsHold | _plugins/gen_tags.rb:39 | one post's occurrences contain `(d, t)` exactly when the post is `d` and carries `t` |
| TagBuckets.OccurrenceIn | _plugins/gen_tags.rb:38-39 | a post is scanned with tag `t` exactly when that post's tags contain `t` |
| TagBuckets.TagOrder | _plugins/gen_tags.rb:37-41 | the hash keys are distinct |
| TagBuckets.TagOrderMembers | _plugins/gen_tags.rb:37-41 | a tag is a hash key exactly when the scan meets it |
| TagBuckets.TagOrderIsPostTags | _plugins/gen_tags.rb:36-42 | the keys of `posts_by_tag` are exactly the tags some post carries |
| TagBuckets.TagOrderIsFirstOccurrenceOrder | _plugins/gen_tags.rb:37-41 | insertion order: a key listed before another first occurs earlier in the scan than any occurrence of the later key |
| TagBuckets.Bucket | _plugins/gen_tags.rb:39 | a bucket is no longer than the scan |
| TagBuckets.BucketMembers | _plugins/gen_tags.rb:39 | a post is in the bucket of `t` exactly when the scan meets it with `t` |
| TagBuckets.BucketOfAbsentTag | _plugins/gen_tags.rb:37 | a tag never met has an empty bucket (the hash default) |
| TagBuckets.BucketAppend | _plugins/gen_tags.rb:38-39 | buckets grow in scan order: scanning more appends to each bucket |
| TagBuckets.BucketMultiplicity | _plugins/gen_tags.rb:38-39 | with distinct posts, a post appears in the bucket of `t` as many times as `t` is among its tags |
| TagBuckets.UntaggedPostInNoBucket | _plugins/gen_tags.rb:38-39 | a post with no tags is in no bucket |
| TagBuckets.BucketSizesCoverScan | _plugins/gen_tags.rb:36-42 | the buckets of the distinct tags together hold exactly the scanned occurrences |
| TagBuckets.BucketsCoverEveryTag | _plugins/gen_tags.rb:36-42 | nothing is lost or duplicated: the bucket lengths add up to the number of tags on all posts |
| TagBuckets.OccurrencesStep | _plugins/gen_tags.rb:38 | scanning one more post appends that post's occurrences |
| TagBuckets.PairsStep | _plugins/gen_tags.rb:39 | scanning one more tag of a post appends one occurrence |
| GenTags.TagRecord.constructor | _plugins/gen_tags.rb:51 | the record holds `url` `<prefix>/tag/<t>/` and `tag` `t` |
| GenTags.TagIndexPage.constructor | _plugins/gen_tags.rb:3-13 | the page has dir `<prefix>/tag/<tag>`, name `index.html`, title `Tag: <tag>` and the given posts |
| GenTags.MapTags | _plugins/gen_tags.rb:47-53 | each tag maps to its memo record; a missing tag gets a fresh, correct record added to the memo; existing memo entries are kept |
| GenTags.InjectTagData | _plugins/gen_tags.rb:44-55 | every post gets one record per tag, in tag order, each with that tag and its URL; equal tags anywhere share one record object; tags are unchanged |
| GenTags.ExtendBucket | _plugins/gen_tags.rb:39 | `hash[t] << p` on an existing key keeps the table equal to the reference of the longer scan |
| GenTags.OpenBucket | _plugins/gen_tags.rb:37-39 | `hash[t] << p` on a new key puts the key at the end of the order and keeps the table equal to the reference |
| GenTags.Push | _plugins/gen_tags.rb:37-39 | one `hash[t] << p` step preserves agreement with the reference scan |
| GenTags.AddPost | _plugins/gen_tags.rb:39 | one post's tag loop preserves agreement with the reference scan extended by that post |
| GenTags.PostsByTag | _plugins/gen_tags.rb:36-42 | the keys are the distinct tags in first-occurrence order, and each key's bucket is exactly its reference bucket |
| GenTags.AppendTagPages | _plugins/gen_tags.rb:23-25 | appends, after the existing pages, one fresh page per key in key order, with that key's dir, name, title and bucket |
| GenTags.AddIndexPages | _plugins/gen_tags.rb:23-25 | after the old pages, appends fresh pages that are exactly the index pages of the reference scan, one per distinct tag in first-occurrence order |
| GenTags.Generate | _plugins/gen_tags.rb:20-26 | fails (changing nothing) exactly when `directory_prefix` raises; otherwise gives every post one record per tag with that tag and its URL, the same record object wherever a tag recurs in any post, and appends exactly the index pages of the reference scan after the old pages |
| Filters.LowerBound | _plugins/filters.rb:12 | the first index whose entry is `>= x`, or none when every entry is `< x` |
| Filters.BsearchIndex | _plugins/filters.rb:12 | a found index holds an entry `>= x`; `nil` means no entries or a last entry `< x`; on ascending entries it is the lower bound |
| Filters.EntriesOf | _plugins/filters.rb:9-10 | the entries are present exactly when the series exists and has an `entries` key, and are then that key's value |
| Filters.Navigate | _plugins/filters.rb:13-14 | the result always has both keys; `prev` is `nil` exactly at the first index and is otherwise the entry before; `next` is `nil` exactly at the last index and is otherwise the entry after |
| Filters.ExpectedSeriesIndex | _plugins/filters.rb:7-15 | `nil` exactly without `entries`; an error exactly when every entry is below `input`; otherwise the neighbours of the first entry `>= input` |
| Filters.SeriesIndex | _plugins/filters.rb:7-15 | `nil` exactly without `entries`; on ascending entries it equals the reference; on any entries its neighbours surround an entry `>= input` |
| Filters.MemberNeighbours | _plugins/filters.rb:12-14 | on a strictly ascending series, a member's result is the entries just before and after it, `nil` at either end |
| Filters.PrevIsPredecessor | _plugins/filters.rb:12-13 | on ascending entries `prev` is the largest entry below `input`, and is `nil` exactly when none is |
| Filters.NonMemberSkipsInsertionPoint | _plugins/filters.rb:12-14 | for a non-member key, some entry lies strictly between `input` and `next` |
| Filters.SeriesIndexMemberExamples | _plugins/filters.rb:7-15 | on `[1, 3, 5, 7]`: 3 gives (1, 5), 1 gives (nil, 3), 7 gives (5, nil) |
| Filters.SeriesIndexOtherExamples | _plugins/filters.rb:7-15 | on `[1, 3, 5, 7]`: 4 gives (3, 7) and 8 raises; a series without `entries` and an unknown series give `nil` |

## Left out

- `TagPaths.DirectoryPrefix`: the `or site.config.permalink` operand (`_plugins/gen_tags.rb:29`) is not modelled. Because `or` binds more loosely than `=`, it never changes `permalink`, but it is evaluated when no posts permalink is set, and on a configuration without a `permalink` method it raises. The model assumes that call returns normally, so `DirectoryPrefix(None) == Success("")` holds only under that assumption.
- `TagIndexPage#initialize`'s `process` and `read_yaml` (layout loading), and the `site` and `base` fields: these are framework I/O. Only `dir`, `name`, `title` and `posts` are modelled.
- `GenTags.TagIndexPage`: its fields are `const`, because nothing in the core reassigns them after construction.
- `Site.pages`: it holds only the generated `TagIndexPage`s. Other page kinds of the framework are not modelled.
- Posts without a `tags` key: Ruby calls `each`/`map` on `nil` and raises. The model gives every post a (possibly empty) tag list.
- `posts.docs`: modelled as the sequence `Site.posts`. The collection object and the rest of each post's front matter are left out.
- The generator's registration (`safe`, `priority`) and the filter's registration with Liquid are plugin wiring with no behaviour of their own.
- `basename` (`_plugins/filters.rb:3-5`): it delegates entirely to `File.basename`.
- `series_index` reads `post_series` from `@context.registers[:site].data`. It is modelled as an explicit `Registry` parameter, and a `post_series` that is itself missing is not modelled.
- Series keys: modelled as integers. Ruby compares any keys that define `>=`.
- `Filters.SeriesIndex`: on entries that are not ascending, it states only that the neighbours surround some entry `>= input`. Ruby's result there depends on the probe sequence and is given by `BsearchIndex`.
- `DirectoryPrefix`: the Ruby exception is modelled as a `Failure` value. `Generate` reports it as `raised`.
- Strings are sequences of characters. Encodings are not modelled.
