# Blogicum: post visibility and ownership, in Dafny

Blogicum is a server-rendered blog. Users publish posts under categories and
locations, and other users comment on them. Whether a post shows depends on
three things: its own publication flag, its category's flag, and a
publication date that may lie in the future.

This project models the policy part of the blog:
- which posts a viewer may see, list, edit or delete;
- how new posts and comments are stamped with their author;
- what the foreign-key delete rules do to the rest of the database.

The database is a value of five tables (`Models.Tables`): users, categories,
locations, posts and comments. Each table is a sequence of rows in table
order. The read side is made of pure functions over that value. The write
side is the class `Store.Blog`: its methods change the tables in place
behind the same login and ownership checks as the views.

Modules:

- `Collections`: the queryset primitives. `Filter` is `filter`, `FindKey` is
  a primary-key or unique-field lookup, and `UniqueBy` says a column is unique.
- `Ordering`: `order_by`, a sort proved to order its rows and to permute them.
- `Models` (`blog/models.py`): the records and what the key constraints
  guarantee (`WellFormed`). It also holds the visibility rule, the
  `comment_count` annotation, the two manager scopes, the comment ordering
  and the `__str__` labels.
- `Writes`: inserts, updates, and deletes under `CASCADE` and `SET_NULL`.
  Each one is proved to keep the database well formed.
- `Views` (`blog/views.py`): the index, profile and category listings, the
  two-branch detail lookup, the ownership gates, and pages of 10.
- `Store`: the `Blog` class, with the create, update and delete views, the
  profile edit, and the deletions of users, categories and locations.

Time is an integer. Each query that compares with the clock takes the
instant `now` as a parameter. A viewer is `Option<User>`, where `None` is the
anonymous visitor. As in Django, a model instance equals the requester only
when the primary keys match, so the anonymous visitor is never an author.

## Model

| member | source | states |
|---|---|---|
| `Ordering.SortBy` | blogicum/blog/models.py:66 | the rows come out in key order and are a permutation of the input |
| `Models.PublishedFlag` | blogicum/blog/models.py:10-15 | a new row's `is_published` is the value given, or true when none is given |
| `Models.SlugNamesOneCategory` | blogicum/blog/models.py:28-31 | in a well-formed database, two categories with the same slug are the same category |
| `Models.VisibleIff` | blogicum/blog/models.py:62-66 | a post is visible iff it is published, its `pub_date` is at most `now`, and its category row exists and is published |
| `Models.UncategorisedIsHidden` | blogicum/blog/models.py:102-108 | a post whose category is null is never visible, whatever its flag and date |
| `Models.VisiblePosts` | blogicum/blog/views.py:24-28 | holds exactly the posts of the table that pass the visibility filter, each as many times as in the table |
| `Models.CommentCountIsCardinality` | blogicum/blog/models.py:129-134 | a post's comment count equals the number of distinct comments whose post is that post |
| `Models.OrderedComments` | blogicum/blog/models.py:141-142 | lists exactly the comments on the post, by ascending `created_at`, and there are as many as its comment count |
| `Models.NewestFirst` | blogicum/blog/views.py:31-33 | each post becomes one row holding that post and its comment count; rows are ordered by descending `pub_date` |
| `Models.PublishedScope` | blogicum/blog/models.py:56-66 | holds exactly the visible posts, each with its comment count, newest first; it has one row per visible post |
| `Models.PublishedScopeOnce` | blogicum/blog/models.py:56-66 | in a well-formed database no post appears twice in the published scope |
| `Models.NewestFirstOnce` | blogicum/blog/views.py:31-33 | annotating and ordering posts with distinct keys gives rows with distinct keys |
| `Models.OrderedCommentsOnce` | blogicum/blog/models.py:141-142 | in a well-formed database each comment on the post is listed once |
| `Models.AllScope` | blogicum/blog/models.py:69-75 | holds every post once with its comment count, newest first |
| `Models.PublishedWithinAll` | blogicum/blog/models.py:56-75 | every row of the published scope is a row of the all-posts scope, and the published scope is no longer |
| `Models.CategoryLabel` | blogicum/blog/models.py:41-42 | the label is at most 15 characters of the title, then "/ ", then the slug |
| `Models.CommentLabel` | blogicum/blog/models.py:146-147 | the label is a prefix of the text, 10 characters long, or the whole text when it is shorter |
| `Writes.InsertCategory` | blogicum/blog/models.py:28-31 | adding a category whose key and slug are new keeps the database well formed, slug uniqueness included |
| `Writes.InsertPost` | blogicum/blog/views.py:100-102 | saving a new post whose keys point at existing rows keeps the database well formed |
| `Writes.InsertComment` | blogicum/blog/views.py:203-206 | saving a new comment on an existing post keeps the database well formed |
| `Writes.InsertCommentCounts` | blogicum/blog/models.py:129-134 | a new comment adds one to its own post's count and leaves every other post's count unchanged |
| `Writes.ReplacePost` | blogicum/blog/views.py:121-124 | an edit overwrites only the row with the post's key, and the database stays well formed |
| `Writes.ReplaceComment` | blogicum/blog/views.py:227-230 | an edit overwrites only the row with the comment's key, and the database stays well formed |
| `Writes.RenameUser` | blogicum/blog/forms.py:21-25 | a user row takes a new username that no other user holds; every key is kept, the other tables are unchanged, and the database stays well formed |
| `Writes.RemoveComment` | blogicum/blog/views.py:233-236 | deleting a comment removes that row and nothing else, and the database stays well formed |
| `Writes.RemovePost` | blogicum/blog/models.py:129-134 | deleting a post also deletes exactly the comments on it; the other tables are unchanged and no key dangles |
| `Writes.RemovePostCounts` | blogicum/blog/models.py:129-134 | deleting a post leaves every other post's comment count unchanged |
| `Writes.RemoveUser` | blogicum/blog/models.py:88-139 | `Post.author` (lines 88-93) and `Comment.author` (lines 135-139) are both `CASCADE`: deleting a user deletes their posts, their comments and every comment on their posts; nothing else is deleted and no key dangles |
| `Writes.RemoveCategory` | blogicum/blog/models.py:102-108 | deleting a category keeps every post; the posts in that category get a null category and nothing else changes |
| `Writes.RemoveLocation` | blogicum/blog/models.py:94-101 | deleting a location keeps every post; the posts at that location get a null location and nothing else changes |
| `Writes.RemoveCategoryVisibility` | blogicum/blog/models.py:102-108 | after a category is deleted, its former posts are hidden and every other post is visible exactly as before |
| `Views.Index` | blogicum/blog/views.py:162-170 | lists exactly the visible posts, each with its comment count, newest first; it has as many rows as there are visible posts |
| `Views.IndexListsEachPostOnce` | blogicum/blog/views.py:162-170 | in a well-formed database no post appears twice on the index |
| `Views.FrozenClockHidesDuePost` | blogicum/blog/views.py:24-28 | counterexample: with the clock read at import, a post that falls due later stays off the index although it is visible at request time |
| `Views.Profile` | blogicum/blog/views.py:45-54 | the page is not found exactly when no user has the username |
| `Views.ProfileContents` | blogicum/blog/views.py:47-54 | the owner sees all of their own posts; anyone else sees only the visible ones; both lists are newest first with comment counts, list each post once, and have one row per listed post |
| `Views.CategoryMembers` | blogicum/blog/views.py:181-185 | holds exactly the category's posts that are published and whose `pub_date` is at most `now`, each as many times as in the table |
| `Views.CategoryPage` | blogicum/blog/views.py:176-185 | not found unless a published category has the slug; otherwise lists that category's published, due posts, newest first, one row per such post |
| `Views.PublishedCategoryPage` | blogicum/blog/views.py:176-185 | every published category has a page, and it lists exactly that category's visible posts, each once |
| `Views.PostDetail` | blogicum/blog/views.py:143-151 | returns only the post with the requested key, and only to its author or when it is visible; an unknown key is not found |
| `Views.AuthorResolvesOwnPost` | blogicum/blog/views.py:143-146 | the author always gets their post, whatever its flag, category and date |
| `Views.OthersResolveOnlyVisible` | blogicum/blog/views.py:147-151 | any other viewer, the anonymous one included, gets the post iff it is visible, and not-found otherwise |
| `Views.DetailAgreesWithIndex` | blogicum/blog/views.py:147-151 | a post a non-author can open is a row of the index |
| `Views.ScheduledPostSeenOnlyByAuthor` | blogicum/blog/views.py:143-151 | a post scheduled for later is off the index, but its author sees it on their profile and detail page; everyone else gets not-found |
| `Views.DetailComments` | blogicum/blog/views.py:153-158 | the detail page shows exactly the post's comments, oldest first, as many as the post's comment count |
| `Views.PostGate` | blogicum/blog/views.py:111-118 | an unknown post is not found, and the anonymous visitor never passes |
| `Views.PostGateOwnerOnly` | blogicum/blog/views.py:111-118 | for an existing post, exactly its author passes the gate; anyone else is redirected |
| `Views.CommentGate` | blogicum/blog/views.py:214-224 | an unknown comment is not found, and the anonymous visitor never passes |
| `Views.CommentGateOwnerOnly` | blogicum/blog/views.py:214-224 | for an existing comment, exactly its author passes the gate; anyone else is redirected |
| `Views.PageCount` | blogicum/blog/views.py:55 | there is at least one page, and every page but the last is full |
| `Views.Paginate` | blogicum/blog/views.py:55-57 | cuts the listing into `PageCount` pages; every page but the last holds exactly 10 rows |
| `Views.PaginateRoundTrip` | blogicum/blog/views.py:55-57 | reading the pages in order gives back the whole listing |
| `Views.PageSlice` | blogicum/blog/views.py:186-188 | page n holds rows (n-1)*10 up to n*10 of the listing |
| `Views.TwentyFiveRowsMakeThreePages` | blogicum/blog/views.py:167 | 25 rows give pages of 10, 10 and 5 |
| `Store.NewPost` | blogicum/blog/views.py:100-102 | a created post has the requester as author, is published by default and carries the creation time; its title, text, image, date, category and location are the form's |
| `Store.EditedPost` | blogicum/blog/forms.py:13 | an edit takes every field from the form but leaves `is_published`, `created_at` and `author` as they were |
| `Store.NewComment` | blogicum/blog/views.py:203-206 | a created comment has the requester as author and the URL's post as post, and is published by default |
| `Store.Blog.UpdateProfile` | blogicum/blog/views.py:82-90 | an anonymous visitor is sent to log in; a username that is empty, longer than 150 characters or held by another user is refused, with nothing changed; otherwise the requester's own row is renamed and the requester goes to the profile under the new name |
| `Store.RenameMovesProfile` | blogicum/blog/views.py:36-42 | after a rename, the profile resolves under the new username, and the old username is no longer found |
| `Store.RenamedProfileContents` | blogicum/blog/views.py:45-54 | under the new username the profile lists exactly that user's posts with their comment counts: all of them for the user, the visible ones for anyone else |
| `Store.Blog.AddCategory` | blogicum/blog/models.py:28-31 | a slug that is already taken is refused with nothing changed; otherwise exactly one category is added |
| `Store.Blog.AddLocation` | blogicum/blog/models.py:45-50 | adds exactly one location, published unless told otherwise |
| `Store.Blog.CreatePost` | blogicum/blog/views.py:93-102 | an anonymous visitor goes to login and a bad form is shown again, with nothing changed in either case; otherwise the new post is appended and the requester goes to their profile |
| `Store.Blog.UpdatePost` | blogicum/blog/views.py:111-124 | not found for an unknown post; anyone but the author (anonymous included) goes to the detail page with nothing changed; the author's valid form rewrites only that post |
| `Store.Blog.DeletePost` | blogicum/blog/views.py:111-133 | same gate; the author's request deletes the post and its comments and leads to the author's profile |
| `Store.Blog.CreateComment` | blogicum/blog/views.py:196-206 | login comes first, then the form, then the post lookup (not found if the post is missing, with no visibility check); the comment is appended and the request leads to the post's page |
| `Store.Blog.UpdateComment` | blogicum/blog/views.py:209-230 | the comment is looked up by its own key; a non-author goes to the detail page of the URL's `post_id` with nothing changed; the author's valid form replaces only the text |
| `Store.Blog.DeleteComment` | blogicum/blog/views.py:209-236 | same gate; the author's request deletes only that comment and leads to the detail page of the URL's `post_id` |
| `Store.Blog.DeleteUser` | blogicum/blog/models.py:88-139 | the tables become `RemoveUser` of the old tables, and the database stays well formed |
| `Store.Blog.DeleteCategory` | blogicum/blog/models.py:102-108 | the tables become `RemoveCategory` of the old tables, and the database stays well formed |
| `Store.Blog.DeleteLocation` | blogicum/blog/models.py:94-101 | the tables become `RemoveLocation` of the old tables, and the database stays well formed |

## Findings

| source | as written | input that shows it | evidently intended | confidence | as-written member | corrected member |
|---|---|---|---|---|---|---|
| blogicum/blog/views.py:24-28 | `FILTERED_POSTS` calls `timezone.now()` once, when the module is imported. The index, the non-owner profile and the non-author detail page then compare every `pub_date` with the time the server started. | The server starts at instant 0. A published post in a published category is due at 5. At a request at instant 10 it is visible, yet the index leaves it out, and strangers get not-found on its detail page until a restart. | Compare with the time of each request, as `category_posts` (views.py:184) and `PublishedManager` (models.py:65) do. | high; not executed | `Views.IndexAsWritten`, shown by `Views.FrozenClockHidesDuePost` | `Views.Index`, which takes the request's `now`; `Views.Profile` and `Views.PostDetail` also take `now` from their caller |

## Left out

- Page-number handling in `Paginator.get_page` is left out: parsing the `page` parameter and clamping an out-of-range number to the first or last page belong to the framework. `Views.Page` requires a number that is already in range.
- HTTP, templates and URL reversing are left out. A request that changes state ends in an abstract `Store.Response`.
- GET requests to the create, update and delete views are left out. They render a form or a confirmation page and change nothing. The model covers the submitting request only.
- `LoginRequiredMixin`'s machinery is left out. The requester is `Option<User>`, and `None` is the anonymous visitor.
- The real clock and time zones are left out. Time is an integer, and each query takes `now` as a parameter.
- `select_related` is left out: it is a performance hint with no effect on results.
- Image upload and storage are left out. `image` is kept as an opaque string.
- `Store.Blog.UpdateProfile` models only the `username` field of `UserForm`. The first name, last name and e-mail are not part of the model's user row. The character rules of the username validator are not modelled; only its length and uniqueness are.
- The authentication framework's user table is kept to id and username. `Store.Blog.AddUser` covers only the uniqueness of usernames, so it has no row above.
- Form validation is reduced to which fields are required, title length and whether referenced rows exist. Whitespace stripping and date parsing are left out.
- Ties in `pub_date` are left out. The database leaves the order of equal dates unspecified, and the model's insertion sort picks one such order.
- Primary keys come from a counter per table, standing in for the database's sequences.
- Concurrency and transactions are left out. Each request runs alone, one after another.
- `Location.__str__` and `Post.__str__` return a field unchanged and are not modelled.
- The admin site and its display settings are left out: they are configuration with no behaviour.
