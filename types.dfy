/** Record and enumeration types of the blog (nextjs/src/lib/types/blog.ts).
    `null` in a stored record and an absent (`undefined`) field of an input are both `None`. */
module BlogTypes {

  /** Opaque identifiers (UUID strings in the store). */
  type Id = string

  /** ISO-8601 timestamps; their format is not modelled. */
  type Timestamp = string

  datatype Option<+T> = None | Some(value: T) {
    /** `x || d` / `x ?? d` on an optional value. */
    function GetOr(default: T): T {
      match this
      case Some(v) => v
      case None => default
    }
  }

  /** `'draft' | 'published' | 'archived'`: a post's status is exactly one of the three. */
  datatype Status = Draft | Published | Archived

  /** `'pending' | 'approved' | 'spam'` of a comment. */
  datatype CommentStatus = Pending | Approved | Spam

  datatype Category = Category(
    id: Id,
    name: string,
    slug: string,
    description: Option<string>,
    createdAt: Timestamp)

  /** A stored post. `categories` is the optional joined relation: present only when a
      query asks the store to join it. */
  datatype Post = Post(
    id: Id,
    title: string,
    slug: string,
    excerpt: Option<string>,
    content: string,
    featuredImage: Option<string>,
    status: Status,
    authorId: Option<Id>,
    publishedAt: Option<Timestamp>,
    createdAt: Timestamp,
    updatedAt: Timestamp,
    metaTitle: Option<string>,
    metaDescription: Option<string>,
    tags: seq<string>,
    categories: Option<seq<Category>>)

  datatype Comment = Comment(
    id: Id,
    postId: Id,
    authorName: string,
    authorEmail: string,
    content: string,
    status: CommentStatus,
    createdAt: Timestamp,
    updatedAt: Timestamp)

  /** CreateBlogPostInput: title, slug, content and status are required, the rest optional. */
  datatype CreateInput = CreateInput(
    title: string,
    slug: string,
    excerpt: Option<string>,
    content: string,
    featuredImage: Option<string>,
    status: Status,
    publishedAt: Option<Timestamp>,
    metaTitle: Option<string>,
    metaDescription: Option<string>,
    tags: Option<seq<string>>,
    categoryIds: Option<seq<Id>>)

  /** UpdateBlogPostInput = Partial<CreateBlogPostInput> & { id }: only `id` is required. */
  datatype UpdateInput = UpdateInput(
    id: Id,
    title: Option<string>,
    slug: Option<string>,
    excerpt: Option<string>,
    content: Option<string>,
    featuredImage: Option<string>,
    status: Option<Status>,
    publishedAt: Option<Timestamp>,
    metaTitle: Option<string>,
    metaDescription: Option<string>,
    tags: Option<seq<string>>,
    categoryIds: Option<seq<Id>>)

  /** `{ id, ...input }`: a create input spread into an update input. Every required field
      becomes present, every optional field keeps its presence and value. */
  function AsUpdate(id: Id, input: CreateInput): (u: UpdateInput)
    ensures u.id == id
    ensures u.title == Some(input.title) && u.slug == Some(input.slug)
    ensures u.content == Some(input.content) && u.status == Some(input.status)
    ensures u.excerpt == input.excerpt && u.featuredImage == input.featuredImage
    ensures u.publishedAt == input.publishedAt
    ensures u.metaTitle == input.metaTitle && u.metaDescription == input.metaDescription
    ensures u.tags == input.tags && u.categoryIds == input.categoryIds
  {
    UpdateInput(id, Some(input.title), Some(input.slug), input.excerpt, Some(input.content),
                input.featuredImage, Some(input.status), input.publishedAt, input.metaTitle,
                input.metaDescription, input.tags, input.categoryIds)
  }
}
