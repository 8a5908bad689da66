/** The post editor of nextjs/src/app/app/blog-admin/page.tsx: the form state (a
    CreateBlogPostInput), the tag input, the post being edited and the dialog flag, with
    one transition per event handler. The new form values are functions; the page is a
    class whose methods apply them. */
module Admin {
  import opened BlogTypes
  import opened Text
  import Slug
  import Store

  /** The initial form and the one resetForm restores: an empty draft. */
  function EmptyForm(): (f: CreateInput)
    ensures f.title == "" && f.slug == "" && f.content == "" && f.status == Draft
    ensures f.excerpt == Some("") && f.tags == Some([]) && f.categoryIds == Some([])
    ensures f.featuredImage.None? && f.publishedAt.None? && f.metaTitle.None? && f.metaDescription.None?
  {
    CreateInput("", "", Some(""), "", None, Draft, None, None, None, Some([]), Some([]))
  }

  /** Both save buttons are enabled exactly when `title` and `content` are non-empty. */
  predicate SaveEnabled(f: CreateInput) {
    f.title != "" && f.content != ""
  }

  /** The empty draft cannot be saved: both buttons start disabled. */
  lemma SaveDisabledOnEmptyForm()
    ensures !SaveEnabled(EmptyForm())
  {
  }

  /** Which edits can enable or disable the save buttons: only the title and the content
      matter, so the tag and category handlers leave them as they were, and a loaded post
      can be saved exactly when its own title and content are non-empty. */
  lemma SaveEnabledTracksTitleAndContent(f: CreateInput, title: string, editing: bool, tagInput: string,
                                         tag: string, id: Id, checked: bool, p: Post)
    ensures SaveEnabled(TitleChanged(f, title, editing)) <==> title != "" && f.content != ""
    ensures SaveEnabled(TagAdded(f, tagInput).0) == SaveEnabled(f)
    ensures SaveEnabled(TagRemoved(f, tag)) == SaveEnabled(f)
    ensures SaveEnabled(CategoryToggled(f, id, checked)) == SaveEnabled(f)
    ensures SaveEnabled(EditForm(p)) <==> p.title != "" && p.content != ""
  {
  }

  /** The form after handleTitleChange: the title always changes; the slug follows the
      title, as a generated slug, only while a new post is being written. */
  function TitleChanged(f: CreateInput, title: string, editing: bool): (g: CreateInput)
    ensures g.title == title
    ensures editing ==> g.slug == f.slug
    ensures !editing ==> g.slug == Slug.GenerateSlug(title) && Slug.IsSlug(g.slug)
    ensures g == f.(title := g.title, slug := g.slug)
  {
    f.(title := title, slug := if editing then f.slug else Slug.GenerateSlug(title))
  }

  /** The form and tag input after handleAddTag. A trimmed, non-empty tag not yet in the list
      is appended and the input cleared; otherwise nothing changes. Only `tags` can change,
      and a duplicate-free list stays duplicate-free. */
  function TagAdded(f: CreateInput, tagInput: string): (r: (CreateInput, string))
    ensures var t := Trim(tagInput);
      var added := t != "" && t !in f.tags.GetOr([]);
      && (added ==> r.0.tags == Some(f.tags.GetOr([]) + [t]) && r.1 == "")
      && (!added ==> r == (f, tagInput))
    ensures r.0 == f.(tags := r.0.tags)
    ensures Trim(tagInput) != "" ==> Trim(tagInput) in r.0.tags.GetOr([])
    ensures NoDuplicates(f.tags.GetOr([])) ==> NoDuplicates(r.0.tags.GetOr([]))
  {
    var t := Trim(tagInput);
    var tags := f.tags.GetOr([]);
    if t != "" && t !in tags then (f.(tags := Some(tags + [t])), "") else (f, tagInput)
  }

  /** The form after handleRemoveTag(tag): every occurrence of `tag` is gone, every other
      tag keeps its number of occurrences and its order; nothing else changes. */
  function TagRemoved(f: CreateInput, tag: string): (g: CreateInput)
    ensures g.tags.Some? && tag !in g.tags.value
    ensures IsSubsequence(g.tags.value, f.tags.GetOr([]))
    ensures forall t :: t != tag ==> multiset(g.tags.value)[t] == multiset(f.tags.GetOr([]))[t]
    ensures g == f.(tags := g.tags)
  {
    f.(tags := Some(Without(f.tags.GetOr([]), tag)))
  }

  /** The form after the checkbox of category `id` changes: checking appends the id,
      unchecking removes every occurrence of it and keeps the rest in order; nothing else
      changes. */
  function CategoryToggled(f: CreateInput, id: Id, checked: bool): (g: CreateInput)
    ensures g.categoryIds.Some?
    ensures checked ==> g.categoryIds.value == f.categoryIds.GetOr([]) + [id]
    ensures !checked ==> id !in g.categoryIds.value
                         && IsSubsequence(g.categoryIds.value, f.categoryIds.GetOr([]))
                         && forall c :: c != id ==>
                              multiset(g.categoryIds.value)[c] == multiset(f.categoryIds.GetOr([]))[c]
    ensures g == f.(categoryIds := g.categoryIds)
  {
    var ids := f.categoryIds.GetOr([]);
    f.(categoryIds := Some(if checked then ids + [id] else Without(ids, id)))
  }

  /** `post.categories?.map(c => c.id)` */
  function CategoryIds(cs: seq<Category>): (ids: seq<Id>)
    ensures |ids| == |cs| && forall i :: 0 <= i < |cs| ==> ids[i] == cs[i].id
  {
    seq(|cs|, i requires 0 <= i < |cs| => cs[i].id)
  }

  /** `x || ''` on a nullable text field. */
  function OrEmpty(x: Option<string>): (r: string)
    ensures x.Some? ==> r == x.value
    ensures x.None? ==> r == ""
  {
    x.GetOr("")
  }

  /** The form handleEdit loads, as written: category_ids is `[]` when the post carries no
      joined categories. */
  function EditFormAsWritten(p: Post): (f: CreateInput)
    ensures f.categoryIds == Some(CategoryIds(p.categories.GetOr([])))
    ensures f == EditForm(p).(categoryIds := f.categoryIds)
  {
    EditForm(p).(categoryIds := Some(CategoryIds(p.categories.GetOr([]))))
  }

  /** The form handleEdit loads, with category_ids left absent when the post was loaded
      without its categories (see README, Findings). Null texts become `''`, a null or empty
      published_at becomes absent, everything else is copied. */
  function EditForm(p: Post): (f: CreateInput)
    ensures f.title == p.title && f.slug == p.slug && f.content == p.content
    ensures f.status == p.status && f.tags == Some(p.tags)
    ensures f.excerpt == Some(OrEmpty(p.excerpt)) && f.featuredImage == Some(OrEmpty(p.featuredImage))
    ensures f.metaTitle == Some(OrEmpty(p.metaTitle)) && f.metaDescription == Some(OrEmpty(p.metaDescription))
    ensures f.publishedAt == if p.publishedAt == Some("") then None else p.publishedAt
    ensures p.categories.None? ==> f.categoryIds.None?
    ensures p.categories.Some? ==> f.categoryIds == Some(CategoryIds(p.categories.value))
  {
    CreateInput(
      p.title, p.slug, Some(OrEmpty(p.excerpt)), p.content, Some(OrEmpty(p.featuredImage)),
      p.status, if p.publishedAt == Some("") then None else p.publishedAt,
      Some(OrEmpty(p.metaTitle)), Some(OrEmpty(p.metaDescription)), Some(p.tags),
      if p.categories.Some? then Some(CategoryIds(p.categories.value)) else None)
  }

  /** What handleSubmit asks of the store. */
  datatype SaveCall =
    | CallUpdate(update: UpdateInput)
    | CallCreate(create: CreateInput, authorId: Id)
    | NoCall

  /** The status handleSubmit sends: `published` from the Publish button, the form's own
      status from Save Draft. */
  function SubmitStatus(f: CreateInput, publish: bool): (s: Status)
    ensures publish ==> s == Published
    ensures !publish ==> s == f.status
  {
    if publish then Published else f.status
  }

  /** handleSubmit's choice: an edited post is updated under its own id; otherwise the form
      is created, and only when a user is signed in. */
  function SubmitCall(f: CreateInput, publish: bool, editing: Option<Post>, user: Option<Id>): (c: SaveCall)
    ensures c.CallUpdate? <==> editing.Some?
    ensures c.CallCreate? <==> editing.None? && user.Some?
    ensures c.CallUpdate? ==> c.update == AsUpdate(editing.value.id, f.(status := SubmitStatus(f, publish)))
    ensures c.CallCreate? ==> c.create == f.(status := SubmitStatus(f, publish)) && c.authorId == user.value
  {
    var sent := f.(status := SubmitStatus(f, publish));
    if editing.Some? then CallUpdate(AsUpdate(editing.value.id, sent))
    else if user.Some? then CallCreate(sent, user.value)
    else NoCall
  }

  /** Finding, as written: editing a post loaded without its categories and saving it,
      with either button, deletes every category link of that post. */
  lemma {:induction false} SavingAsWrittenDropsCategories(links: set<(Id, Id)>, p: Post, category: Id,
                                                          publish: bool, user: Option<Id>)
    requires p.categories.None? && (p.id, category) in links
    ensures var call := SubmitCall(EditFormAsWritten(p), publish, Some(p), user);
      && call.CallUpdate?
      && category in Store.LinkedCategories(links, p.id)
      && Store.LinkedCategories(Store.ReplaceLinks(links, p.id, call.update.categoryIds), p.id) == {}
  {
    var call := SubmitCall(EditFormAsWritten(p), publish, Some(p), user);
    assert call.update.categoryIds == Some([]);
    var after := Store.ReplaceLinks(links, p.id, call.update.categoryIds);
    assert forall c :: (p.id, c) !in after;
  }

  /** Corrected: saving an edited post whose categories were not loaded, and not touched,
      leaves every link as it was; when they were loaded, the post's links afterwards are
      exactly the loaded categories. */
  lemma {:induction false} SavingEditedPostKeepsCategories(links: set<(Id, Id)>, p: Post, publish: bool, user: Option<Id>)
    ensures var call := SubmitCall(EditForm(p), publish, Some(p), user);
      var after := Store.ReplaceLinks(links, p.id, call.update.categoryIds);
      && call.CallUpdate?
      && (p.categories.None? ==> after == links)
      && (p.categories.Some? ==>
            forall c :: c in Store.LinkedCategories(after, p.id) <==> c in CategoryIds(p.categories.value))
  {
    var call := SubmitCall(EditForm(p), publish, Some(p), user);
    assert call.update.categoryIds == EditForm(p).categoryIds;
  }

  /** The row that opening a post in the editor and saving it unchanged writes: null texts
      are stored as `''`, the Publish button sets the status, and a post that ends up
      published without a timestamp is stamped now. */
  function ResavedRow(p: Post, publish: bool, now: Timestamp): Post {
    var status := SubmitStatus(EditForm(p), publish);
    p.(excerpt := Some(OrEmpty(p.excerpt)),
       featuredImage := Some(OrEmpty(p.featuredImage)),
       metaTitle := Some(OrEmpty(p.metaTitle)),
       metaDescription := Some(OrEmpty(p.metaDescription)),
       status := status,
       publishedAt := if status == Published && (p.publishedAt.None? || p.publishedAt == Some(""))
                      then Some(now) else p.publishedAt)
  }

  /** Loading a stored post (with a non-empty id) into the form and saving it unchanged: the
      slug the update writes, re-resolved with the post's own id excluded, is the post's own
      slug, and the row written is ResavedRow. */
  lemma {:induction false} EditAndSaveRoundTrip(posts: map<Id, Post>, p: Post, publish: bool, slug: string,
                                                now: Timestamp, user: Option<Id>)
    requires Store.SlugsUnique(posts) && p.id in posts && posts[p.id] == p && p.id != ""
    requires p.slug != "" ==> Store.ResolvesTo(posts, p.slug, p.id, slug)
    requires p.slug == "" ==> slug == ""
    ensures slug == p.slug
    ensures var call := SubmitCall(EditForm(p), publish, Some(p), user);
      Store.UpdatedRow(p, call.update, slug, now) == ResavedRow(p, publish, now)
  {
    if p.slug != "" {
      Store.OwnSlugResolvesToItself(posts, p.id);
      Store.ResolutionIsUnique(posts, p.slug, p.id, slug, p.slug);
    }
  }

  /** The admin page's editor state. */
  class AdminPage {
    var form: CreateInput
    var tagInput: string
    var editing: Option<Post>
    var dialogOpen: bool
    var user: Option<Id>

    /** The page as first rendered for the signed-in `user` (none when the session is gone). */
    constructor (user: Option<Id>)
      ensures form == EmptyForm() && tagInput == "" && editing.None? && !dialogOpen
      ensures this.user == user
    {
      form := EmptyForm();
      tagInput := "";
      editing := None;
      dialogOpen := false;
      this.user := user;
    }

    /** Empty draft back in the form, tag input cleared. */
    method ResetForm()
      modifies this`form, this`tagInput
      ensures form == EmptyForm() && tagInput == ""
      ensures !SaveEnabled(form)
    {
      form := EmptyForm();
      tagInput := "";
    }

    /** The "New Post" button: nothing is being edited, the form is reset, the dialog opens. */
    method NewPost()
      modifies this`form, this`tagInput, this`editing, this`dialogOpen
      ensures editing.None? && dialogOpen
      ensures form == EmptyForm() && tagInput == ""
    {
      editing := None;
      ResetForm();
      dialogOpen := true;
    }

    method HandleTitleChange(title: string)
      modifies this`form
      ensures form == TitleChanged(old(form), title, editing.Some?)
    {
      form := TitleChanged(form, title, editing.Some?);
    }

    /** `setTagInput(e.target.value)` */
    method SetTagInput(value: string)
      modifies this`tagInput
      ensures tagInput == value
    {
      tagInput := value;
    }

    method HandleAddTag()
      modifies this`form, this`tagInput
      ensures (form, tagInput) == TagAdded(old(form), old(tagInput))
    {
      var next := TagAdded(form, tagInput);
      form, tagInput := next.0, next.1;
    }

    method HandleRemoveTag(tag: string)
      modifies this`form
      ensures form == TagRemoved(old(form), tag)
    {
      form := TagRemoved(form, tag);
    }

    method HandleCategoryToggle(id: Id, checked: bool)
      modifies this`form
      ensures form == CategoryToggled(old(form), id, checked)
    {
      form := CategoryToggled(form, id, checked);
    }

    /** handleEdit(post): the post becomes the one being edited, its fields fill the form,
        the dialog opens. The tag input is left as it is. */
    method HandleEdit(post: Post)
      modifies this`form, this`editing, this`dialogOpen
      ensures editing == Some(post) && form == EditForm(post) && dialogOpen
    {
      editing := Some(post);
      form := EditForm(post);
      dialogOpen := true;
    }

    /** handleEdit(post) as written: like HandleEdit, but `category_ids` becomes `[]` when
        the post carries no joined categories (see README, Findings). */
    method HandleEditAsWritten(post: Post)
      modifies this`form, this`editing, this`dialogOpen
      ensures editing == Some(post) && form == EditFormAsWritten(post) && dialogOpen
    {
      editing := Some(post);
      form := EditFormAsWritten(post);
      dialogOpen := true;
    }

    /** handleSubmit(publish). The store call chosen by SubmitCall runs. After a successful
        one (`saved`) the dialog closes, nothing is being edited and the form is reset.
        Without a post being edited and without a user nothing happens; an update the store
        refuses leaves the page and the store as they were. */
    method HandleSubmit(publish: bool, store: Store.PostStore, now: Timestamp, newId: Id)
      returns (ghost saved: bool)
      requires store.Valid() && newId !in store.posts && forall l | l in store.links :: l.0 != newId
      modifies this, store
      ensures store.Valid() && user == old(user)
      ensures saved <==> match old(SubmitCall(form, publish, editing, user))
                         case NoCall => false
                         case CallCreate(_, _) => true
                         case CallUpdate(u) =>
                           u.id in old(store.posts)
                           && (u.slug != Some("") || Store.OnlyHeldBy(old(store.posts), "", u.id))
      ensures !saved ==> unchanged(this) && unchanged(store)
      ensures saved ==> form == EmptyForm() && tagInput == "" && editing.None? && !dialogOpen
      ensures saved && old(SubmitCall(form, publish, editing, user)).CallCreate? ==>
                var c := old(SubmitCall(form, publish, editing, user));
                && store.posts.Keys == old(store.posts).Keys + {newId}
                && store.posts == old(store.posts)[newId := store.posts[newId]]
                && store.posts[newId] == Store.InsertedRow(c.create, newId, store.posts[newId].slug, c.authorId, now)
                && Store.ResolvesTo(old(store.posts), c.create.slug, "", store.posts[newId].slug)
                && store.links == old(store.links) + Store.CategoryLinks(newId, c.create.categoryIds)
                && Store.LinkedCategories(store.links, newId) == set x | x in c.create.categoryIds.GetOr([])
      ensures saved && old(SubmitCall(form, publish, editing, user)).CallUpdate? ==>
                var u := old(SubmitCall(form, publish, editing, user)).update;
                && store.posts.Keys == old(store.posts).Keys
                && store.posts == old(store.posts)[u.id := store.posts[u.id]]
                && store.posts[u.id] == Store.UpdatedRow(old(store.posts)[u.id], u, store.posts[u.id].slug, now)
                && (if u.slug.Some? && u.slug.value != ""
                    then Store.ResolvesTo(old(store.posts), u.slug.value, u.id, store.posts[u.id].slug)
                    else store.posts[u.id].slug == u.slug.GetOr(old(store.posts)[u.id].slug))
                && store.links == Store.ReplaceLinks(old(store.links), u.id, u.categoryIds)
    {
      var call := SubmitCall(form, publish, editing, user);
      match call {
        case NoCall =>
          saved := false;
        case CallCreate(input, authorId) =>
          var _ := store.CreatePost(input, authorId, newId, now);
          Saved();
          saved := true;
        case CallUpdate(input) =>
          var result := store.UpdatePost(input, now);
          saved := result.Success?;
          if result.Success? {
            Saved();
          }
      }
    }

    /** The common tail of a successful save. */
    method Saved()
      modifies this`form, this`tagInput, this`editing, this`dialogOpen
      ensures form == EmptyForm() && tagInput == "" && editing.None? && !dialogOpen
    {
      dialogOpen := false;
      editing := None;
      ResetForm();
    }
  }

  /** Opening a stored post for editing and saving it straight away, with either button,
      always succeeds, leaves every category link and every other post as it was and, for
      a non-empty id, writes ResavedRow: the post keeps its own slug. */
  method EditThenSave(page: AdminPage, store: Store.PostStore, id: Id, publish: bool, now: Timestamp, newId: Id)
    requires store.Valid() && id in store.posts && newId !in store.posts
    requires forall l | l in store.links :: l.0 != newId
    modifies page, store
    ensures store.Valid()
    ensures store.links == old(store.links)
    ensures store.posts.Keys == old(store.posts).Keys
    ensures store.posts == old(store.posts)[id := store.posts[id]]
    ensures id != "" ==> store.posts[id] == ResavedRow(old(store.posts[id]), publish, now)
    ensures !page.dialogOpen && page.editing.None?
  {
    ghost var before := store.posts;
    var p := store.posts[id];
    page.HandleEdit(p);
    ghost var saved := page.HandleSubmit(publish, store, now, newId);
    assert saved;
    if id != "" {
      EditAndSaveRoundTrip(before, p, publish, store.posts[id].slug, now, page.user);
    }
  }

  /** The same, with the handler as written (see README, Findings): the save succeeds and
      every category link of the edited post is gone; other posts' links are untouched. */
  method EditThenSaveAsWritten(page: AdminPage, store: Store.PostStore, id: Id, publish: bool, now: Timestamp,
                               newId: Id)
    requires store.Valid() && id in store.posts && newId !in store.posts
    requires forall l | l in store.links :: l.0 != newId
    modifies page, store
    ensures store.Valid()
    ensures store.posts.Keys == old(store.posts).Keys
    ensures Store.LinkedCategories(store.links, id) == {}
    ensures forall q, c :: q != id ==> ((q, c) in store.links <==> (q, c) in old(store.links))
    ensures !page.dialogOpen && page.editing.None? && page.form == EmptyForm() && page.tagInput == ""
  {
    var p := store.posts[id];
    page.HandleEditAsWritten(p);
    ghost var saved := page.HandleSubmit(publish, store, now, newId);
    assert saved;
  }
}
