# Blog CMS core in Dafny

A model of the blog feature of a Next.js application that keeps its posts in a hosted
database. It covers three parts:

- the slug rules in `nextjs/src/lib/blog-api.ts`:
  - `generateSlug` turns a title into a URL slug;
  - `ensureUniqueSlug` probes `slug`, `slug-1`, `slug-2`, … until it finds a free name;
- the write path of the same file (`createBlogPost`, `updateBlogPost`, `deleteBlogPost`). The
  database is modelled as an abstract store: a map of post rows and a set of
  (post id, category id) links. The current time and the store-assigned id are parameters;
- the post editor of `nextjs/src/app/app/blog-admin/page.tsx`. Its form is a
  `CreateBlogPostInput`, with a tag input, the post being edited and the dialog flag. Each
  event handler is a transition on that state.

The record and union types of `nextjs/src/lib/types/blog.ts` are datatypes. A post's status
is exactly one of `Draft`, `Published`, `Archived`; a comment's is one of `Pending`,
`Approved`, `Spam`. `null` in a stored row and an absent field of an input are both `None`.
An update input has a required `id` and an optional version of every create-input field.

Files:

- `types.dfy`: module `BlogTypes`.
- `text.dfy`: module `Text`, the JavaScript built-ins the code relies on:
  - the `\s` white-space set, `trim`;
  - decimal rendering of a number;
  - `filter(x => x !== v)`.
- `slug.dfy`: module `Slug`.
- `store.dfy`: module `Store`, with class `PostStore`.
- `admin.dfy`: module `Admin`, with class `AdminPage`.

`PostStore.Valid()` is the store invariant, and every write keeps it:

- rows are keyed by their own id;
- no two posts share a slug;
- a row carries no joined categories.

`ensureUniqueSlug` has no loop bound in the source. The model proves that it stops after
at most |posts| + 1 probes: each name it rejects is held by a different post.

`createBlogPost` (nextjs/src/lib/blog-api.ts:109) overwrites a supplied `published_at`
with the current time whenever the status is `published`; `PostStore.CreatePost` does the
same.

## Model

| member | source | states |
|---|---|---|
| `BlogTypes.AsUpdate` | nextjs/src/app/app/blog-admin/page.tsx:103-107 | `{ id, ...form }`: every required field of the form becomes present in the update; every optional field keeps its presence and value |
| `Text.IsSpace` | nextjs/src/lib/blog-api.ts:20-21 | the `\s` set: no white-space character is an ASCII letter, digit, `_` or `-`, so the classes of the slug filter do not overlap |
| `Text.TrimStartOfSpaces` | nextjs/src/app/app/blog-admin/page.tsx:80 | `trimStart()` drops exactly a leading run of white space in front of text that starts with a non-space |
| `Text.TrimStart` | nextjs/src/app/app/blog-admin/page.tsx:80 | the result is a suffix of the input; all that was dropped is white space; the result does not start with white space |
| `Text.TrimEnd` | nextjs/src/app/app/blog-admin/page.tsx:80 | the mirror image of TrimStart, at the end of the string |
| `Text.Trim` | nextjs/src/app/app/blog-admin/page.tsx:80 | `trim()` gives a slice `s[i..j]`; everything outside it is white space; it neither starts nor ends with white space |
| `Text.TrimIdempotent` | nextjs/src/app/app/blog-admin/page.tsx:80 | trimming a trimmed string changes nothing |
| `Text.Decimal` | nextjs/src/lib/blog-api.ts:39 | `${counter}` is a non-empty string of decimal digits, most significant first, whose value (DigitsValue) is the number; it has no leading zero, and one digit exactly when the number is below 10 |
| `Text.DecimalInjective` | nextjs/src/lib/blog-api.ts:39-52 | two numbers with the same decimal rendering are equal |
| `Text.Without` | nextjs/src/app/app/blog-admin/page.tsx:92 | `filter(t => t !== v)` removes every `v`; the order of the rest is kept; every other element keeps its number of occurrences |
| `Slug.LowerChar` | nextjs/src/lib/blog-api.ts:19 | an ASCII capital becomes its lower-case letter; KELVIN SIGN becomes `k`; CAPITAL I WITH DOT ABOVE becomes `i` and a combining dot; every other character stays as it is; no ASCII capital is left |
| `Slug.Lower` | nextjs/src/lib/blog-api.ts:19 | `toLowerCase()` of one character is LowerChar of it; the whole title has no ASCII capital letter and is at least as long as the title |
| `Slug.LowerAppend` | nextjs/src/lib/blog-api.ts:19 | lowering a concatenation concatenates the lowered parts, so with the one-character case Lower is fixed on every title |
| `Slug.KelvinSignSlug` | nextjs/src/lib/blog-api.ts:17-23 | the title made of KELVIN SIGN alone gives the slug `k` |
| `Slug.LowerByPosition` | nextjs/src/lib/blog-api.ts:19 | without the two special letters, `toLowerCase()` keeps the length and lowers position by position, as LowerChar says |
| `Slug.DeleteDisallowed` | nextjs/src/lib/blog-api.ts:20 | `replace(/[^\w\s-]/g, '')` keeps exactly the `\w`, `\s` and `-` characters: in their order, each as often as in the input; no other character remains |
| `Slug.DeleteLeavesSlugCharsAndSpaces` | nextjs/src/lib/blog-api.ts:20 | after `[^\w\s-]` is deleted from a lower-cased string, only slug characters and white space remain |
| `Slug.HyphenateSpaces` | nextjs/src/lib/blog-api.ts:21 | `replace(/\s+/g, '-')` never lengthens the text and is empty only on empty text |
| `Slug.HyphenateLeadingRun` | nextjs/src/lib/blog-api.ts:21 | a leading run of white space becomes exactly one `-` |
| `Slug.HyphenateRun` | nextjs/src/lib/blog-api.ts:21 | `a + run + b`, with a run of white space between text without white space and text not starting with it, becomes `a + "-"` followed by the hyphenation of `b` |
| `Slug.Prefix` | nextjs/src/lib/blog-api.ts:22 | `substring(0, n)` is the first min(length, n) characters |
| `Slug.HyphenateRemovesSpaces` | nextjs/src/lib/blog-api.ts:21 | `\s+ -> '-'` leaves no white space, so only slug characters remain |
| `Slug.GenerateSlug` | nextjs/src/lib/blog-api.ts:17-23 | the slug has at most 100 characters; each is a lower-case ASCII letter, a digit, `_` or `-`, so none is white space |
| `Slug.SlugIsFixedPoint` | nextjs/src/lib/blog-api.ts:17-23 | every valid slug is mapped to itself |
| `Slug.LowerOfUncased` | nextjs/src/lib/blog-api.ts:19 | lower-casing leaves a string without capitals unchanged |
| `Slug.DeleteOfKept` | nextjs/src/lib/blog-api.ts:20 | the filter leaves a string of allowed characters unchanged |
| `Slug.SymbolsAreDeleted` | nextjs/src/lib/blog-api.ts:20 | the filter deletes a string of symbols entirely |
| `Slug.HyphenateSpacelessHead` | nextjs/src/lib/blog-api.ts:21 | a head without white space passes the hyphenation unchanged |
| `Slug.HyphenateOfSpaceless` | nextjs/src/lib/blog-api.ts:21 | a string without white space is not changed by the hyphenation |
| `Slug.GenerateSlugIdempotent` | nextjs/src/lib/blog-api.ts:17-23 | `generateSlug(generateSlug(t)) == generateSlug(t)` |
| `Slug.GenerateSlugOfSymbols` | nextjs/src/lib/blog-api.ts:17-23 | the empty title, and any title made only of symbols, gives the empty slug |
| `Slug.GenerateSlugJoinsWords` | nextjs/src/lib/blog-api.ts:17-23 | two words of slug characters separated by white space become the words joined by one `-` (when that fits in 100 characters) |
| `Slug.GenerateSlugOfAsciiWord` | nextjs/src/lib/blog-api.ts:17-23 | a title of at most 100 ASCII word characters keeps its length; each capital is lowered in place and every other character is kept |
| `Slug.Suffixed` | nextjs/src/lib/blog-api.ts:52 | `${slug}-${counter}` is the slug, a hyphen, then exactly Decimal(counter) |
| `Slug.SuffixedExample` | nextjs/src/lib/blog-api.ts:52 | the candidate for `a` and 3 is the text `a-3`; for `post` and 12 it is `post-12` |
| `Slug.SuffixedInjective` | nextjs/src/lib/blog-api.ts:38-53 | different counters give different candidate names, so no name is probed twice |
| `Store.ResolutionIsUnique` | nextjs/src/lib/blog-api.ts:26-54 | the store determines the probe's answer: any two answers are equal |
| `Store.OwnSlugResolvesToItself` | nextjs/src/lib/blog-api.ts:33-35 | a post's own slug, probed with the post's non-empty id excluded, comes back unchanged |
| `Store.EmptyIdDoesNotKeepOwnSlug` | nextjs/src/lib/blog-api.ts:33 | the empty id is falsy and excludes nothing: a post stored under `""` re-submitting its own non-empty slug gets a different, suffixed name |
| `Store.ThirdSuffixExample` | nextjs/src/lib/blog-api.ts:37-53 | with `a`, `a-1` and `a-2` held by other posts, `a` resolves to `a-3` |
| `Store.ProbeStep` | nextjs/src/lib/blog-api.ts:41-53 | each rejected candidate is held by a post not met before, so the set of posts met grows and stays inside the store |
| `Store.CategoryLinks` | nextjs/src/lib/blog-api.ts:117-126 | one link per listed category id; no link when the list is absent or empty |
| `Store.ReplaceLinks` | nextjs/src/lib/blog-api.ts:153-171 | without `category_ids` nothing changes; with a list, even `[]`, the post's links afterwards are exactly that list; other posts' links never change |
| `Store.LinkedCategories` | nextjs/src/lib/blog-api.ts:153-171 | the categories linked to a post are exactly those of its link rows |
| `Store.InsertedRow` | nextjs/src/lib/blog-api.ts:103-110 | the inserted row carries the input's fields, the resolved slug, the new id and `author_id`; `published_at` is now for a published post and the input's value otherwise; timestamps are now; omitted tags are `[]`; no joined categories |
| `Store.UpdatedPublishedAt` | nextjs/src/lib/blog-api.ts:133-141 | `published_at` becomes now when the update publishes without a non-empty timestamp; a supplied non-empty one, or any supplied one when not publishing, is written; otherwise the stored one stays |
| `Store.UpdatedRow` | nextjs/src/lib/blog-api.ts:133-148 | every supplied field overwrites the stored one and every omitted field stays; the slug is the one written; id, author, store timestamps and joined categories are kept; `published_at` as UpdatedPublishedAt |
| `Store.PublishingUpdateStampsTime` | nextjs/src/lib/blog-api.ts:139-141 | after an update that publishes, the row is published and has a non-empty `published_at` |
| `Store.ReplaceRowKeepsInvariant` | nextjs/src/lib/blog-api.ts:143-148 | overwriting one row with the same id and a slug no other post holds keeps ids matching, slugs unique and rows free of joined categories |
| `Store.IdOnlyUpdateChangesNothing` | nextjs/src/lib/blog-api.ts:132-148 | an update that supplies only the id leaves the row as it is |
| `Store.UpdateIsIdempotent` | nextjs/src/lib/blog-api.ts:132-148 | applying the same partial update twice gives the same row as applying it once |
| `Store.PostStore.EnsureUniqueSlug` | nextjs/src/lib/blog-api.ts:26-54 | returns the slug itself when it is free (unused, or held by the non-empty `excludeId`); otherwise returns `slug-k` for the least free k, with k <= |posts| + 1; the answer is never held by another post |
| `Store.PostStore.CreatePost` | nextjs/src/lib/blog-api.ts:100-129 | inserts one row under the new id; its slug is the resolved one, held by no other post, and `author_id` is the caller; `published_at` is now for a published post and the input's value otherwise; adds exactly the listed links, so the new post's categories are exactly the listed ids (none when the list is absent); keeps the store invariant |
| `Store.PostStore.UpdatePost` | nextjs/src/lib/blog-api.ts:132-174 | a missing row fails with nothing changed; a non-empty slug is re-resolved with the post's own id excluded; an empty slug is written as it is, and fails if another post holds `''`; supplied fields overwrite and the rest stay; `published_at` is stamped only when publishing without a non-empty one; links are replaced per ReplaceLinks; keeps the store invariant |
| `Store.PostStore.DeletePost` | nextjs/src/lib/blog-api.ts:177-184 | removes the row; links are left to the store; keeps the store invariant |
| `Admin.EmptyForm` | nextjs/src/app/app/blog-admin/page.tsx:36-44 | the initial form: an empty draft with empty tag and category lists |
| `Admin.SaveEnabledTracksTitleAndContent` | nextjs/src/app/app/blog-admin/page.tsx:426-434 | the save buttons (SaveEnabled) depend only on title and content: a title change enables them exactly when the new title and the content are non-empty; the tag and category handlers never change them; a loaded post can be saved exactly when its title and content are non-empty |
| `Admin.SaveDisabledOnEmptyForm` | nextjs/src/app/app/blog-admin/page.tsx:426-434 | both save buttons are disabled on the empty draft, since title and content are empty |
| `Admin.TitleChanged` | nextjs/src/app/app/blog-admin/page.tsx:71-77 | the title is always set; while creating, the slug becomes `generateSlug(title)`, a valid slug; while editing, the slug is kept; nothing else changes |
| `Admin.TagAdded` | nextjs/src/app/app/blog-admin/page.tsx:79-87 | a trimmed, non-empty tag not yet present is appended and the input is cleared; otherwise nothing changes; a duplicate-free list stays duplicate-free; afterwards the trimmed tag is present |
| `Admin.TagRemoved` | nextjs/src/app/app/blog-admin/page.tsx:89-94 | every occurrence of the tag is removed; the rest keep their order and counts; nothing else changes |
| `Admin.CategoryToggled` | nextjs/src/app/app/blog-admin/page.tsx:403-407 | checking appends the id; unchecking removes every occurrence and keeps the rest in order; no other field changes |
| `Admin.CategoryIds` | nextjs/src/app/app/blog-admin/page.tsx:136 | `categories.map(c => c.id)`, position by position |
| `Admin.OrEmpty` | nextjs/src/app/app/blog-admin/page.tsx:128 | `x \|\| ''` on a nullable text |
| `Admin.EditFormAsWritten` | nextjs/src/app/app/blog-admin/page.tsx:136 | as written, category ids become `[]` when the post carries no joined categories |
| `Admin.EditForm` | nextjs/src/app/app/blog-admin/page.tsx:123-137 | null texts become `''`; a null or empty `published_at` becomes absent; other fields are copied; category ids come from the joined categories, and stay absent when none were loaded (the corrected form) |
| `Admin.SubmitStatus` | nextjs/src/app/app/blog-admin/page.tsx:99 | the Publish button sends `published`; Save Draft sends the form's own status |
| `Admin.SubmitCall` | nextjs/src/app/app/blog-admin/page.tsx:96-111 | a post being edited is updated under its own id; otherwise the form is created, and only when a user is present; the status is SubmitStatus |
| `Admin.SavingAsWrittenDropsCategories` | nextjs/src/app/app/blog-admin/page.tsx:136 | as written, saving an edited post loaded without its categories removes all of its links |
| `Admin.SavingEditedPostKeepsCategories` | nextjs/src/app/app/blog-admin/page.tsx:123-137 | corrected: saving without touching the categories leaves every link as it was |
| `Admin.EditAndSaveRoundTrip` | nextjs/src/app/app/blog-admin/page.tsx:96-137 | for a post with a non-empty id, loading it and saving it unchanged, with either button, writes its own slug back, as the store's re-resolution gives it. The row written equals the post, with three changes: null texts become `''`, the Publish button sets `published`, and a published post without a timestamp is stamped now |
| `Admin.AdminPage.constructor` | nextjs/src/app/app/blog-admin/page.tsx:29-45 | initial state: empty draft, empty tag input, nothing being edited, dialog closed |
| `Admin.AdminPage.ResetForm` | nextjs/src/app/app/blog-admin/page.tsx:152-163 | restores the initial empty draft and clears the tag input; both save buttons are then disabled |
| `Admin.AdminPage.NewPost` | nextjs/src/app/app/blog-admin/page.tsx:195-199 | nothing is being edited, the form is reset and the dialog opens |
| `Admin.AdminPage.HandleTitleChange` | nextjs/src/app/app/blog-admin/page.tsx:71-77 | the form becomes TitleChanged, with "editing" meaning a post is being edited |
| `Admin.AdminPage.SetTagInput` | nextjs/src/app/app/blog-admin/page.tsx:353 | the tag input takes the typed value |
| `Admin.AdminPage.HandleAddTag` | nextjs/src/app/app/blog-admin/page.tsx:79-87 | the form and tag input become TagAdded |
| `Admin.AdminPage.HandleRemoveTag` | nextjs/src/app/app/blog-admin/page.tsx:89-94 | the form becomes TagRemoved |
| `Admin.AdminPage.HandleCategoryToggle` | nextjs/src/app/app/blog-admin/page.tsx:403-407 | the form becomes CategoryToggled |
| `Admin.AdminPage.HandleEdit` | nextjs/src/app/app/blog-admin/page.tsx:123-139 | corrected handler: the post becomes the one being edited, the form becomes the corrected EditForm of it, and the dialog opens |
| `Admin.AdminPage.HandleEditAsWritten` | nextjs/src/app/app/blog-admin/page.tsx:123-139 | handler as written: as HandleEdit, with EditFormAsWritten |
| `Admin.AdminPage.HandleSubmit` | nextjs/src/app/app/blog-admin/page.tsx:96-121 | runs the store call SubmitCall chooses. It saves exactly when: a create is chosen; or an update is chosen whose post exists and whose slug does not clash. After a save, the store changed as CreatePost or UpdatePost says, including the resolved slug and a created post's categories, and the dialog is closed, nothing is edited and the form is reset. Otherwise page and store are unchanged |
| `Admin.AdminPage.Saved` | nextjs/src/app/app/blog-admin/page.tsx:113-115 | closes the dialog, clears the edited post, resets the form |
| `Admin.EditThenSave` | nextjs/src/app/app/blog-admin/page.tsx:96-139 | corrected handler: opening a stored post and saving it at once always succeeds. It keeps every category link, every post id and every other row. For a non-empty id the row becomes ResavedRow, keeping its slug |
| `Admin.EditThenSaveAsWritten` | nextjs/src/app/app/blog-admin/page.tsx:96-139 | handler as written: the save succeeds (dialog closed, nothing edited, form reset) and leaves the edited post with no category links; other posts' links are unchanged |

## Findings

| source | as written | input that shows it | evidently intended | confidence | as-written member | corrected member |
|---|---|---|---|---|---|---|
| nextjs/src/app/app/blog-admin/page.tsx:136 | `handleEdit` sets `category_ids` to `post.categories?.map(c => c.id) \|\| []`. The posts come from `getUserPosts` (nextjs/src/lib/blog-api.ts:187-196), which selects `*` and never joins `categories`, so the form always gets `[]`. `updateBlogPost` then deletes every link of the post (nextjs/src/lib/blog-api.ts:153-171) | a post linked to one category; click Edit, then Save Draft without touching the checkboxes; the post has no categories afterwards | saving an edited post keeps its categories unless the checkboxes are changed | high (not executed) | `Admin.SavingAsWrittenDropsCategories` | `Admin.SavingEditedPostKeepsCategories` |

The corrected `Admin.EditForm` leaves `category_ids` absent when no categories were loaded.
`Admin.AdminPage.HandleEdit` uses it, so `Admin.EditThenSave` keeps the links. The handler
as written is `Admin.AdminPage.HandleEditAsWritten`; on the page class the same loss shows
in `Admin.EditThenSaveAsWritten`.

## Left out

- Store client construction and environment keys (nextjs/src/lib/blog-api.ts:4-14): foreign library calls.
- The read queries `getPublishedPosts`, `getPostBySlug`, `getCategories`, `getUserPosts` and `searchPosts`. They only forward filters, ordering, ranges and `ilike` patterns to the database, whose null ordering, collation and pattern semantics are not visible. The one fact the model uses is that `getUserPosts` returns plain rows without joined categories. `PostStore.Valid` keeps that fact.
- Store failures other than a missing row and a slug clash on update: connectivity, other constraint violations, a failing insert. The result of the link insert is ignored in the source. The write paths are modelled single-threaded and atomic. Concurrent editors racing the slug probe are not modelled.
- Store.PostStore.EnsureUniqueSlug: requires that slugs are unique. `.maybeSingle()` on several matching rows is not modelled.
- `category_ids` is spread into the insert and update payloads of the post row. Whether the store accepts such a column depends on the database schema, which is not part of this model. The model leaves it out of the row.
- Store.PostStore.DeletePost: keeps every link row, including those of the deleted post. `deleteBlogPost` itself touches only the posts table. A cascading delete on the link table would remove that post's links, and the database schema, which decides this, is not part of this model.
- Store.InsertedRow: takes an omitted `tags` to be `[]`, the assumed column default, and takes `created_at` and `updated_at` to be the insert time. Both are decided by the schema, which is not part of this model.
- Duplicate category ids in one list collapse in the link set. The schema's key on the link table is not visible.
- Wall-clock time: `new Date().toISOString()` is the `now` parameter, and timestamp formats are not modelled. `created_at` and `updated_at` are maintained by the database: a created row takes `now` for both, and an update leaves them as they were.
- The new post id is generated by the database. It is a parameter, required to be carried by no post row and no link row.
- Slug.LowerChar: `toLowerCase()` is exact only on the characters whose lower-case form can pass the `[^\w\s-]` filter: ASCII capitals, KELVIN SIGN and CAPITAL I WITH DOT ABOVE. Every other character is kept as it is. This is because both it and its real lower-case form are outside `[\w\s-]` and get deleted. `substring(0, 100)` counts UTF-16 units; after white-space runs become `-`, every character is ASCII, so units and characters agree.
- A worked example of the slug of "Hello, World!" is not included: proving the filter and hyphenation steps on that literal string exhausts the verifier's resource limit. The one-character example `Slug.KelvinSignSlug` is included.
- Admin page plumbing: the session check and redirect, `loadData` and the post list, `handleDelete`'s confirmation dialog and reload (the deletion itself is `PostStore.DeletePost`), alerts and console output, and all rendering, including the status badges.
- The plain field edits of the form (slug, excerpt, content, featured image, meta fields, the status select) are one-field assignments `setFormData({ ...formData, field: value })`. They have no rule beyond that and are not modelled one by one.
- The `author` join of a post is display data and is left out of `Post`. `Comment` is declared as a datatype but no code uses it.
- nextjs/src/app/blog/page.tsx and nextjs/src/app/blog/[slug]/page.tsx are not part of this model. They are server-rendered read views, whose only computations are display details.
