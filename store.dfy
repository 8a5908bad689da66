/** The write side of nextjs/src/lib/blog-api.ts over an abstract post store: the table of
    posts as a map from id to row, the post-category link table as a set of
    (post id, category id) pairs. The current time is a parameter. */
module Store {
  import opened BlogTypes
  import Slug

  /** Store-level failures of a write that the model keeps: `.single()` finding no row to
      update, and the store's unique constraint on slugs. */
  datatype StoreError = NotFound | DuplicateSlug

  datatype Result<T> = Success(value: T) | Failure(error: StoreError)

  /** `excludeId && id === excludeId`: the empty string is falsy and excludes nothing. */
  predicate Excludes(excludeId: Id, id: Id) {
    excludeId != "" && id == excludeId
  }

  /** The probe `.eq('slug', slug).maybeSingle()` finds no post, or finds the excluded one. */
  predicate SlugFree(posts: map<Id, Post>, slug: string, excludeId: Id) {
    forall id | id in posts && posts[id].slug == slug :: Excludes(excludeId, id)
  }

  /** No post other than `owner` holds `slug` (the store's unique constraint, as seen by a
      write to `owner`). */
  predicate OnlyHeldBy(posts: map<Id, Post>, slug: string, owner: Id) {
    forall id | id in posts && posts[id].slug == slug :: id == owner
  }

  predicate SlugsUnique(posts: map<Id, Post>) {
    forall a, b | a in posts && b in posts && a != b :: posts[a].slug != posts[b].slug
  }

  predicate IdsMatch(posts: map<Id, Post>) {
    forall id | id in posts :: posts[id].id == id
  }

  /** A row of the posts table holds no joined relation. */
  predicate NoJoinedCategories(posts: map<Id, Post>) {
    forall id | id in posts :: posts[id].categories.None?
  }

  /** `slug-k` is free and every `slug-j` before it is taken. */
  predicate FirstFreeSuffix(posts: map<Id, Post>, slug: string, excludeId: Id, k: nat) {
    && 1 <= k
    && SlugFree(posts, Slug.Suffixed(slug, k), excludeId)
    && forall j :: 1 <= j < k ==> !SlugFree(posts, Slug.Suffixed(slug, j), excludeId)
  }

  /** `r` is the answer of ensureUniqueSlug(slug, excludeId) against `posts`: `slug` itself
      when it is free, otherwise `slug-k` for the least k >= 1 whose name is free. */
  ghost predicate ResolvesTo(posts: map<Id, Post>, slug: string, excludeId: Id, r: string) {
    if SlugFree(posts, slug, excludeId) then r == slug
    else exists k: nat :: r == Slug.Suffixed(slug, k) && FirstFreeSuffix(posts, slug, excludeId, k)
  }

  /** The answer of the probe is determined by the store: two answers are equal. */
  lemma {:induction false} ResolutionIsUnique(posts: map<Id, Post>, slug: string, excludeId: Id, r1: string, r2: string)
    requires ResolvesTo(posts, slug, excludeId, r1) && ResolvesTo(posts, slug, excludeId, r2)
    ensures r1 == r2
  {
    if !SlugFree(posts, slug, excludeId) {
      var k1: nat :| r1 == Slug.Suffixed(slug, k1) && FirstFreeSuffix(posts, slug, excludeId, k1);
      var k2: nat :| r2 == Slug.Suffixed(slug, k2) && FirstFreeSuffix(posts, slug, excludeId, k2);
      assert k1 == k2;
    }
  }

  /** Editing a post without renaming it: its own slug resolves to itself when its id is
      given as the exclusion. */
  lemma OwnSlugResolvesToItself(posts: map<Id, Post>, id: Id)
    requires SlugsUnique(posts) && id in posts && id != ""
    ensures ResolvesTo(posts, posts[id].slug, id, posts[id].slug)
  {
  }

  /** An empty id is falsy and excludes nothing: a post stored under the id `""` that
      re-submits its own non-empty slug gets a suffixed name instead. */
  lemma {:induction false} EmptyIdDoesNotKeepOwnSlug(posts: map<Id, Post>, r: string)
    requires "" in posts && posts[""].slug != ""
    requires ResolvesTo(posts, posts[""].slug, "", r)
    ensures r != posts[""].slug
  {
    assert !SlugFree(posts, posts[""].slug, "") by {
      assert !Excludes("", "");
    }
    var k: nat :| r == Slug.Suffixed(posts[""].slug, k) && FirstFreeSuffix(posts, posts[""].slug, "", k);
  }

  /** With "a", "a-1" and "a-2" taken by three other posts, "a" resolves to "a-3". */
  lemma {:induction false} ThirdSuffixExample(posts: map<Id, Post>, p: Id, q: Id, s: Id)
    requires posts.Keys == {p, q, s}
    requires posts[p].slug == "a"
    requires posts[q].slug == Slug.Suffixed("a", 1) && posts[s].slug == Slug.Suffixed("a", 2)
    ensures ResolvesTo(posts, "a", "", Slug.Suffixed("a", 3))
  {
    forall j: nat | 1 <= j < 4
      ensures Slug.Suffixed("a", 3) != Slug.Suffixed("a", j) || j == 3
    {
      if Slug.Suffixed("a", 3) == Slug.Suffixed("a", j) { Slug.SuffixedInjective("a", 3, j); }
    }
    assert !SlugFree(posts, Slug.Suffixed("a", 1), "");
    assert !SlugFree(posts, Slug.Suffixed("a", 2), "");
    assert FirstFreeSuffix(posts, "a", "", 3);
  }

  lemma {:induction false} SubsetCardinality(a: set<Id>, b: set<Id>)
    requires a <= b
    ensures |a| <= |b|
    decreases b
  {
    if a != {} {
      var x :| x in a;
      SubsetCardinality(a - {x}, b - {x});
    }
  }

  /** The probe has found `taken.Keys`, one post per tried name `slug-1` .. `slug-(counter-1)`;
      none of them holds a name still to be tried. */
  ghost predicate TakenSuffixes(posts: map<Id, Post>, slug: string, taken: set<Id>, counter: nat) {
    && taken <= posts.Keys
    && |taken| == counter - 1
    && forall id, k :: id in taken && counter <= k ==> posts[id].slug != Slug.Suffixed(slug, k)
  }

  /** One failed probe: the post holding `slug-counter` is new to `taken`. */
  lemma ProbeStep(posts: map<Id, Post>, slug: string, taken: set<Id>, counter: nat, holder: Id)
    requires 1 <= counter && TakenSuffixes(posts, slug, taken, counter)
    requires holder in posts && posts[holder].slug == Slug.Suffixed(slug, counter)
    ensures holder !in taken
    ensures TakenSuffixes(posts, slug, taken + {holder}, counter + 1)
    ensures |posts.Keys - (taken + {holder})| < |posts.Keys - taken|
  {
    forall id, k | id in taken + {holder} && counter + 1 <= k
      ensures posts[id].slug != Slug.Suffixed(slug, k)
    {
      if id == holder && posts[id].slug == Slug.Suffixed(slug, k) {
        Slug.SuffixedInjective(slug, counter, k);
      }
    }
    assert posts.Keys - (taken + {holder}) == (posts.Keys - taken) - {holder};
  }

  /** The link rows `post.category_ids.map(category_id => ({ post_id, category_id }))`:
      one link per listed category, none when the list is absent or empty. */
  function CategoryLinks(postId: Id, categoryIds: Option<seq<Id>>): (r: set<(Id, Id)>)
    ensures forall p, c :: (p, c) in r <==> p == postId && categoryIds.Some? && c in categoryIds.value
  {
    set c | c in categoryIds.GetOr([]) :: (postId, c)
  }

  /** Delete every link of `postId`, then insert the new list, when a list is given;
      leave every link alone when it is not. */
  function ReplaceLinks(links: set<(Id, Id)>, postId: Id, categoryIds: Option<seq<Id>>): (r: set<(Id, Id)>)
    ensures categoryIds.None? ==> r == links
    ensures forall p, c :: p != postId ==> ((p, c) in r <==> (p, c) in links)
    ensures categoryIds.Some? ==> forall c :: (postId, c) in r <==> c in categoryIds.value
  {
    if categoryIds.None? then links
    else (set l | l in links && l.0 != postId) + CategoryLinks(postId, categoryIds)
  }

  /** The categories a post is linked to. */
  function LinkedCategories(links: set<(Id, Id)>, postId: Id): (r: set<Id>)
    ensures forall c :: c in r <==> (postId, c) in links
  {
    set l | l in links && l.0 == postId :: l.1
  }

  /** The row `insert({ ...post, slug, author_id, published_at })` stores. `created_at` and
      `updated_at` are the store's defaults, taken to be `now`; an omitted `tags` is taken to
      be the column default `[]`. */
  function InsertedRow(input: CreateInput, id: Id, slug: string, authorId: Id, now: Timestamp): (r: Post)
    ensures r.id == id && r.slug == slug && r.authorId == Some(authorId)
    ensures r.title == input.title && r.content == input.content && r.status == input.status
    ensures r.excerpt == input.excerpt && r.featuredImage == input.featuredImage
    ensures r.metaTitle == input.metaTitle && r.metaDescription == input.metaDescription
    ensures input.status == Published ==> r.publishedAt == Some(now)
    ensures input.status != Published ==> r.publishedAt == input.publishedAt
    ensures r.createdAt == now && r.updatedAt == now
    ensures r.tags == (if input.tags.Some? then input.tags.value else [])
    ensures r.categories.None?
  {
    Post(id, input.title, slug, input.excerpt, input.content, input.featuredImage, input.status,
         Some(authorId),
         if input.status == Published then Some(now) else input.publishedAt,
         now, now, input.metaTitle, input.metaDescription, input.tags.GetOr([]), None)
  }

  /** `a ?? b` for one field of a partial update. */
  function Override<T>(supplied: Option<T>, current: Option<T>): Option<T> {
    if supplied.Some? then supplied else current
  }

  /** `published_at` after an update: now when the update publishes without a non-empty
      timestamp (`!post.published_at`), the supplied one otherwise, and the stored one when
      none is supplied. */
  function UpdatedPublishedAt(input: UpdateInput, current: Option<Timestamp>, now: Timestamp): (r: Option<Timestamp>)
    ensures input.status == Some(Published) && (input.publishedAt.None? || input.publishedAt == Some("")) ==>
              r == Some(now)
    ensures input.status != Some(Published) && input.publishedAt.Some? ==> r == input.publishedAt
    ensures input.publishedAt.Some? && input.publishedAt != Some("") ==> r == input.publishedAt
    ensures input.status != Some(Published) && input.publishedAt.None? ==> r == current
  {
    if input.status == Some(Published) && (input.publishedAt.None? || input.publishedAt == Some("")) then Some(now)
    else Override(input.publishedAt, current)
  }

  /** The row after `.update(updates)`, where `slug` is the slug the update writes: every
      supplied field overwrites the stored one, every omitted field stays; the id, the author,
      the timestamps kept by the store and the (absent) joined categories do not change. */
  function UpdatedRow(row: Post, input: UpdateInput, slug: string, now: Timestamp): (r: Post)
    ensures r.id == row.id && r.authorId == row.authorId
    ensures r.createdAt == row.createdAt && r.updatedAt == row.updatedAt && r.categories == row.categories
    ensures r.slug == slug
    ensures r.title == (if input.title.Some? then input.title.value else row.title)
    ensures r.content == (if input.content.Some? then input.content.value else row.content)
    ensures r.status == (if input.status.Some? then input.status.value else row.status)
    ensures r.tags == (if input.tags.Some? then input.tags.value else row.tags)
    ensures r.excerpt == (if input.excerpt.Some? then input.excerpt else row.excerpt)
    ensures r.featuredImage == (if input.featuredImage.Some? then input.featuredImage else row.featuredImage)
    ensures r.metaTitle == (if input.metaTitle.Some? then input.metaTitle else row.metaTitle)
    ensures r.metaDescription == (if input.metaDescription.Some? then input.metaDescription else row.metaDescription)
    ensures r.publishedAt == UpdatedPublishedAt(input, row.publishedAt, now)
  {
    row.(
      title := input.title.GetOr(row.title),
      slug := slug,
      excerpt := Override(input.excerpt, row.excerpt),
      content := input.content.GetOr(row.content),
      featuredImage := Override(input.featuredImage, row.featuredImage),
      status := input.status.GetOr(row.status),
      publishedAt := UpdatedPublishedAt(input, row.publishedAt, now),
      metaTitle := Override(input.metaTitle, row.metaTitle),
      metaDescription := Override(input.metaDescription, row.metaDescription),
      tags := input.tags.GetOr(row.tags))
  }

  /** A post published through an update always ends up published with a non-empty
      `published_at` (given a non-empty clock reading). */
  lemma PublishingUpdateStampsTime(row: Post, input: UpdateInput, slug: string, now: Timestamp)
    requires input.status == Some(Published) && now != ""
    ensures UpdatedRow(row, input, slug, now).status == Published
    ensures UpdatedRow(row, input, slug, now).publishedAt.Some?
    ensures UpdatedRow(row, input, slug, now).publishedAt.value != ""
  {
  }

  /** An update input that carries only the id. */
  function IdOnly(id: Id): UpdateInput {
    UpdateInput(id, None, None, None, None, None, None, None, None, None, None, None)
  }

  /** An update that supplies nothing but the id leaves the row as it is. */
  lemma IdOnlyUpdateChangesNothing(row: Post, now: Timestamp)
    ensures UpdatedRow(row, IdOnly(row.id), row.slug, now) == row
  {
  }

  /** Applying the same update twice gives the row it gave once. */
  lemma UpdateIsIdempotent(row: Post, input: UpdateInput, slug: string, now: Timestamp)
    ensures UpdatedRow(UpdatedRow(row, input, slug, now), input, slug, now) == UpdatedRow(row, input, slug, now)
  {
  }

  /** Replacing one row by a row with the same id, no joined categories and a slug no other
      post holds keeps the store invariant. */
  lemma ReplaceRowKeepsInvariant(posts: map<Id, Post>, id: Id, row: Post)
    requires IdsMatch(posts) && SlugsUnique(posts) && NoJoinedCategories(posts)
    requires row.id == id && row.categories.None? && OnlyHeldBy(posts, row.slug, id)
    ensures IdsMatch(posts[id := row]) && SlugsUnique(posts[id := row]) && NoJoinedCategories(posts[id := row])
  {
  }

  /** The store. `Valid` is what the store keeps: rows are keyed by their own id, no two
      posts share a slug, and a row holds no joined categories. */
  class PostStore {
    var posts: map<Id, Post>
    var links: set<(Id, Id)>

    ghost predicate Valid()
      reads this
    {
      IdsMatch(posts) && SlugsUnique(posts) && NoJoinedCategories(posts)
    }

    constructor ()
      ensures Valid() && posts == map[] && links == {}
    {
      posts := map[];
      links := {};
    }

    /** ensureUniqueSlug(slug, excludeId). The probe loop has no bound in the source; it
        stops because each taken `slug-j` is held by a different post, so at most |posts|
        names are taken. */
    method EnsureUniqueSlug(slug: string, excludeId: Id) returns (r: string)
      requires SlugsUnique(posts)
      ensures SlugFree(posts, r, excludeId)
      ensures ResolvesTo(posts, slug, excludeId, r)
      ensures !SlugFree(posts, slug, excludeId) ==>
                exists k: nat :: 1 <= k <= |posts| + 1 && r == Slug.Suffixed(slug, k)
    {
      if SlugFree(posts, slug, excludeId) {
        return slug;
      }
      var counter: nat := 1;
      var candidate := Slug.Suffixed(slug, counter);
      ghost var taken: set<Id> := {};
      while !SlugFree(posts, candidate, excludeId)
        invariant 1 <= counter && candidate == Slug.Suffixed(slug, counter)
        invariant TakenSuffixes(posts, slug, taken, counter)
        invariant forall j :: 1 <= j < counter ==> !SlugFree(posts, Slug.Suffixed(slug, j), excludeId)
        decreases |posts.Keys - taken|
      {
        ghost var holder :| holder in posts && posts[holder].slug == candidate && !Excludes(excludeId, holder);
        ProbeStep(posts, slug, taken, counter, holder);
        taken := taken + {holder};
        counter := counter + 1;
        candidate := Slug.Suffixed(slug, counter);
      }
      SubsetCardinality(taken, posts.Keys);
      assert FirstFreeSuffix(posts, slug, excludeId, counter);
      r := candidate;
    }

    /** createBlogPost(input, authorId): the store assigns the fresh id `newId`, which no row
        of either table carries yet. */
    method CreatePost(input: CreateInput, authorId: Id, newId: Id, now: Timestamp) returns (post: Post)
      requires Valid() && newId !in posts && forall l | l in links :: l.0 != newId
      modifies this
      ensures Valid()
      ensures posts == old(posts)[newId := post]
      ensures post == InsertedRow(input, newId, post.slug, authorId, now)
      ensures ResolvesTo(old(posts), input.slug, "", post.slug)
      ensures OnlyHeldBy(posts, post.slug, newId)
      ensures post.authorId == Some(authorId)
      ensures post.publishedAt == if input.status == Published then Some(now) else input.publishedAt
      ensures links == old(links) + CategoryLinks(newId, input.categoryIds)
      ensures LinkedCategories(links, newId) == set c | c in input.categoryIds.GetOr([])
    {
      var slug := EnsureUniqueSlug(input.slug, "");
      post := InsertedRow(input, newId, slug, authorId, now);
      posts := posts[newId := post];
      if input.categoryIds.Some? && |input.categoryIds.value| > 0 {
        links := links + CategoryLinks(newId, input.categoryIds);
      } else {
        assert CategoryLinks(newId, input.categoryIds) == {};
      }
    }

    /** updateBlogPost(input). A non-empty slug is re-resolved with the post's own id
        excluded; an empty one is written as it is. A missing row, or a slug another post
        holds, fails with nothing changed; the links are replaced only after the row update
        succeeded. */
    method UpdatePost(input: UpdateInput, now: Timestamp) returns (result: Result<Post>)
      requires Valid()
      modifies this
      ensures Valid()
      ensures input.id !in old(posts) ==> result == Failure(NotFound)
      ensures result.Success? <==>
                input.id in old(posts) && (input.slug != Some("") || OnlyHeldBy(old(posts), "", input.id))
      ensures result.Failure? ==> unchanged(this)
      ensures result.Success? ==>
                && input.id in old(posts)
                && posts == old(posts)[input.id := result.value]
                && result.value == UpdatedRow(old(posts)[input.id], input, result.value.slug, now)
                && links == ReplaceLinks(old(links), input.id, input.categoryIds)
      ensures result.Success? ==>
                if input.slug.Some? && input.slug.value != ""
                then ResolvesTo(old(posts), input.slug.value, input.id, result.value.slug)
                else result.value.slug == input.slug.GetOr(old(posts)[input.id].slug)
      ensures result.Failure? && input.id in old(posts) ==>
                result.error == DuplicateSlug && input.slug == Some("")
                && !OnlyHeldBy(old(posts), "", input.id)
    {
      var slug: string;
      if input.slug.Some? && input.slug.value != "" {
        slug := EnsureUniqueSlug(input.slug.value, input.id);
      } else if input.id in posts {
        slug := input.slug.GetOr(posts[input.id].slug);
      } else {
        slug := "";
      }
      if input.id !in posts {
        return Failure(NotFound);
      }
      if !OnlyHeldBy(posts, slug, input.id) {
        return Failure(DuplicateSlug);
      }
      var row := UpdatedRow(posts[input.id], input, slug, now);
      ReplaceRowKeepsInvariant(posts, input.id, row);
      posts := posts[input.id := row];
      if input.categoryIds.Some? {
        links := set l | l in links && l.0 != input.id;
        if |input.categoryIds.value| > 0 {
          links := links + CategoryLinks(input.id, input.categoryIds);
        } else {
          assert CategoryLinks(input.id, input.categoryIds) == {};
        }
      }
      result := Success(row);
    }

    /** deleteBlogPost(id): removes the row; the links are left to the store. */
    method DeletePost(id: Id)
      requires Valid()
      modifies this
      ensures Valid()
      ensures posts == old(posts) - {id} && links == old(links)
    {
      posts := posts - {id};
    }
  }
}
