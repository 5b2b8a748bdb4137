/** What the views of `blog/views.py` read: the index, profile and category
    listings, the two-branch resolution of the post detail page, the
    ownership gates of the edit and delete views, and the division of a
    listing into pages of ten. */
module Views {
  import opened Collections
  import opened Models

  /** `request.user`: an anonymous visitor, or a signed-in user. */
  type Viewer = Option<User>

  /** `obj.author == request.user`: model instances compare by primary key, and
      the anonymous user equals no user. */
  predicate IsRequester(viewer: Viewer, uid: UserId) {
    viewer.Some? && viewer.value.id == uid
  }

  // ---------------------------------------------------------------------------
  // Listings

  /** The index page (`PostListView`): the visible posts with comment counts,
      ordered by `-pub_date`, judged at the instant `now` of the request. */
  function Index(t: Tables, now: Timestamp): (r: seq<Annotated>)
    ensures forall a :: a in r <==>
      a.post in t.posts && IsVisible(t, a.post, now)
      && a.commentCount == CommentCount(t, a.post.id)
    ensures forall i, j :: 0 <= i < j < |r| ==> r[i].post.pubDate >= r[j].post.pubDate
    ensures |r| == |VisiblePosts(t, now)|
  {
    PublishedScope(t, now)
  }

  /** In a well-formed database the index holds each visible post exactly once. */
  lemma IndexListsEachPostOnce(t: Tables, now: Timestamp)
    requires WellFormed(t)
    ensures var r := Index(t, now);
      forall i, j :: 0 <= i < j < |r| ==> r[i].post.id != r[j].post.id
  {
    PublishedScopeOnce(t, now);
  }

  /** The index as the source computes it: `FILTERED_POSTS` holds the clock
      read once, when the module was imported, whatever the request's time. */
  function IndexAsWritten(t: Tables, importedAt: Timestamp, requestedAt: Timestamp): seq<Annotated> {
    Index(t, importedAt)
  }

  /** A database with one published post, due at instant 5, in a published category. */
  function OneScheduledPost(): Tables {
    Tables([User(0, "author")], [Category(0, "News", "", "news", true, 0)], [],
           [Post(0, "Title", "Text", 5, 0, None, Some(0), "", true, 0)], [])
  }

  /** With the clock read at 0 and a request at 10, the post due at 5 is
      visible at the request's time yet missing from the index as written. */
  lemma FrozenClockHidesDuePost()
    ensures var t := OneScheduledPost();
      var a := Annotated(t.posts[0], 0);
      IsVisible(t, t.posts[0], 10)
      && a !in IndexAsWritten(t, 0, 10)
      && a in Index(t, 10)
  {
    var t := OneScheduledPost();
    assert CommentsOn(t.comments, 0) == [];
    assert FindKey(t.categories, CategoryKey, 0) == Some(t.categories[0]);
  }

  /** The profile page: not found for an unknown username; for the owner, all
      their posts (`All_POSTS`); for anyone else, those of them that pass the
      filter of `FILTERED_POSTS` at `now` (the source fixes that clock at import,
      as `IndexAsWritten` shows). */
  function Profile(t: Tables, viewer: Viewer, username: string, now: Timestamp)
    : (r: Option<seq<Annotated>>)
    ensures r.None? <==> forall u :: u in t.users ==> u.username != username
  {
    match FindKey(t.users, UserName, username)
    case None => None
    case Some(owner) =>
      if IsRequester(viewer, owner.id) then Some(NewestFirst(t, ByAuthor(t.posts, owner.id)))
      else Some(NewestFirst(t, ByAuthor(VisiblePosts(t, now), owner.id)))
  }

  /** A profile lists exactly the profiled user's posts: every one of them when
      the owner is looking, otherwise only the visible ones; newest first. */
  lemma ProfileContents(t: Tables, viewer: Viewer, owner: User, now: Timestamp)
    requires WellFormed(t)
    requires owner in t.users
    ensures Profile(t, viewer, owner.username, now).Some?
    ensures var items := Profile(t, viewer, owner.username, now).value;
      (forall a :: a in items <==>
        a.post in t.posts && a.post.author == owner.id
        && (IsRequester(viewer, owner.id) || IsVisible(t, a.post, now))
        && a.commentCount == CommentCount(t, a.post.id))
      && (forall i, j :: 0 <= i < j < |items| ==> items[i].post.pubDate >= items[j].post.pubDate)
      && (forall i, j :: 0 <= i < j < |items| ==> items[i].post.id != items[j].post.id)
      && |items| == |ByAuthor(if IsRequester(viewer, owner.id) then t.posts else VisiblePosts(t, now), owner.id)|
  {
    FindKeyUnique(t.users, UserName, owner);
    var source := if IsRequester(viewer, owner.id) then t.posts else VisiblePosts(t, now);
    FilterUnique(t.posts, (p: Post) => IsVisible(t, p, now), PostKey);
    FilterUnique(source, (p: Post) => p.author == owner.id, PostKey);
    NewestFirstOnce(t, ByAuthor(source, owner.id));
  }

  function IsPublishedCategory(c: Category): bool { c.isPublished }

  /** The posts `category.posts.filter(is_published=True, pub_date__lte=now)`. */
  function CategoryMembers(t: Tables, cid: CategoryId, now: Timestamp): (r: seq<Post>)
    ensures forall p :: p in r <==>
      p in t.posts && p.category == Some(cid) && p.isPublished && p.pubDate <= now
    ensures forall p :: multiset(r)[p] == if p.category == Some(cid) && p.isPublished && p.pubDate <= now
                                          then multiset(t.posts)[p] else 0
  {
    Filter(t.posts, (p: Post) => p.category == Some(cid) && p.isPublished && p.pubDate <= now)
  }

  /** The category page: not found unless a published category has the slug;
      otherwise that category and its published, due posts, newest first. */
  function CategoryPage(t: Tables, slug: string, now: Timestamp)
    : (r: Option<(Category, seq<Annotated>)>)
    ensures r.None? <==> forall c :: c in t.categories && c.slug == slug ==> !c.isPublished
    ensures r.Some? ==> r.value.0 in t.categories && r.value.0.slug == slug && r.value.0.isPublished
    ensures r.Some? ==> forall a :: a in r.value.1 <==>
      a.post in t.posts && a.post.category == Some(r.value.0.id)
      && a.post.isPublished && a.post.pubDate <= now
      && a.commentCount == CommentCount(t, a.post.id)
    ensures r.Some? ==> forall i, j :: 0 <= i < j < |r.value.1| ==>
      r.value.1[i].post.pubDate >= r.value.1[j].post.pubDate
    ensures r.Some? ==> |r.value.1| == |CategoryMembers(t, r.value.0.id, now)|
  {
    match FindKey(Filter(t.categories, IsPublishedCategory), CategorySlug, slug)
    case None => None
    case Some(cat) => Some((cat, NewestFirst(t, CategoryMembers(t, cat.id, now))))
  }

  /** A published category has a page, and it lists exactly the category's
      visible posts: the page does not test the category's flag per post,
      but only a published category has a page. */
  lemma PublishedCategoryPage(t: Tables, c: Category, now: Timestamp)
    requires WellFormed(t)
    requires c in t.categories && c.isPublished
    ensures CategoryPage(t, c.slug, now).Some?
    ensures CategoryPage(t, c.slug, now).value.0 == c
    ensures forall a :: a in CategoryPage(t, c.slug, now).value.1 <==>
      a.post in t.posts && a.post.category == Some(c.id) && IsVisible(t, a.post, now)
      && a.commentCount == CommentCount(t, a.post.id)
    ensures var items := CategoryPage(t, c.slug, now).value.1;
      forall i, j :: 0 <= i < j < |items| ==> items[i].post.id != items[j].post.id
  {
    var published := Filter(t.categories, IsPublishedCategory);
    FilterUnique(t.categories, IsPublishedCategory, CategorySlug);
    FindKeyUnique(published, CategorySlug, c);
    FindKeyUnique(t.categories, CategoryKey, c);
    FilterUnique(t.posts, (p: Post) => p.category == Some(c.id) && p.isPublished && p.pubDate <= now, PostKey);
    NewestFirstOnce(t, CategoryMembers(t, c.id, now));
  }

  // ---------------------------------------------------------------------------
  // The post detail page

  /** `PostDetailView.get_object`: look the post up among all posts; its author
      gets it as it is, anyone else only through the filter of `FILTERED_POSTS`
      at `now`. */
  function PostDetail(t: Tables, viewer: Viewer, pid: PostId, now: Timestamp)
    : (r: Option<Post>)
    ensures r.Some? ==> r.value in t.posts && r.value.id == pid
    ensures r.Some? ==> IsRequester(viewer, r.value.author) || IsVisible(t, r.value, now)
    ensures (forall p :: p in t.posts ==> p.id != pid) ==> r.None?
  {
    match FindKey(t.posts, PostKey, pid)
    case None => None
    case Some(post) =>
      if IsRequester(viewer, post.author) then Some(post)
      else FindKey(VisiblePosts(t, now), PostKey, pid)
  }

  /** The author of a post always resolves it, whatever its flags, category and date. */
  lemma AuthorResolvesOwnPost(t: Tables, viewer: Viewer, p: Post, now: Timestamp)
    requires WellFormed(t)
    requires p in t.posts && IsRequester(viewer, p.author)
    ensures PostDetail(t, viewer, p.id, now) == Some(p)
  {
    FindKeyUnique(t.posts, PostKey, p);
  }

  /** Anyone but the author (the anonymous visitor too) resolves a post exactly
      when it is visible, and otherwise gets not-found. */
  lemma OthersResolveOnlyVisible(t: Tables, viewer: Viewer, p: Post, now: Timestamp)
    requires WellFormed(t)
    requires p in t.posts && !IsRequester(viewer, p.author)
    ensures PostDetail(t, viewer, p.id, now) ==
      if IsVisible(t, p, now) then Some(p) else None
  {
    FindKeyUnique(t.posts, PostKey, p);
    var visible := VisiblePosts(t, now);
    if IsVisible(t, p, now) {
      FilterUnique(t.posts, (q: Post) => IsVisible(t, q, now), PostKey);
      FindKeyUnique(visible, PostKey, p);
    } else {
      forall q | q in visible ensures q.id != p.id {
        if q.id == p.id {
          FindKeyUnique(t.posts, PostKey, q);
        }
      }
    }
  }

  /** What a non-author sees on the detail page is a row of the index. */
  lemma DetailAgreesWithIndex(t: Tables, viewer: Viewer, pid: PostId, now: Timestamp)
    requires PostDetail(t, viewer, pid, now).Some?
    requires !IsRequester(viewer, PostDetail(t, viewer, pid, now).value.author)
    ensures var p := PostDetail(t, viewer, pid, now).value;
      Annotated(p, CommentCount(t, p.id)) in Index(t, now)
  {
  }

  /** A post scheduled for later is missing from the index, yet its author
      finds it on their own profile and on its detail page. */
  lemma ScheduledPostSeenOnlyByAuthor(t: Tables, author: User, p: Post, now: Timestamp)
    requires WellFormed(t)
    requires author in t.users && p in t.posts && p.author == author.id
    requires p.pubDate > now
    ensures Annotated(p, CommentCount(t, p.id)) !in Index(t, now)
    ensures Annotated(p, CommentCount(t, p.id)) in Profile(t, Some(author), author.username, now).value
    ensures PostDetail(t, Some(author), p.id, now) == Some(p)
    ensures forall v :: !IsRequester(v, author.id) ==> PostDetail(t, v, p.id, now).None?
  {
    ProfileContents(t, Some(author), author, now);
    AuthorResolvesOwnPost(t, Some(author), p, now);
    forall v | !IsRequester(v, author.id) ensures PostDetail(t, v, p.id, now).None? {
      OthersResolveOnlyVisible(t, v, p, now);
    }
  }

  /** The comments shown under the post, oldest first. */
  function DetailComments(t: Tables, post: Post): (r: seq<Comment>)
    ensures forall c :: c in r <==> c in t.comments && c.post == post.id
    ensures forall i, j :: 0 <= i < j < |r| ==> r[i].createdAt <= r[j].createdAt
    ensures |r| == CommentCount(t, post.id)
  {
    OrderedComments(t, post.id)
  }

  // ---------------------------------------------------------------------------
  // Ownership gates of the edit and delete views

  /** How `dispatch` of `PostMixin` and `CommentMixin` ends: 404, a redirect to
      the post's detail page, or on to the edit or delete view. */
  datatype Gate = Missing | Refused | Allowed

  /** `PostMixin.dispatch`: 404 for an unknown post, a redirect unless the
      requester wrote it. The check runs before the login check. */
  function PostGate(t: Tables, viewer: Viewer, pid: PostId): (g: Gate)
    ensures g == Missing <==> forall p :: p in t.posts ==> p.id != pid
    ensures g == Allowed ==> viewer.Some?
    ensures g == Allowed ==> exists p :: p in t.posts && p.id == pid && IsRequester(viewer, p.author)
  {
    match FindKey(t.posts, PostKey, pid)
    case None => Missing
    case Some(p) => if IsRequester(viewer, p.author) then Allowed else Refused
  }

  /** Only the post's author gets past the post gate. */
  lemma PostGateOwnerOnly(t: Tables, viewer: Viewer, p: Post)
    requires WellFormed(t)
    requires p in t.posts
    ensures PostGate(t, viewer, p.id) == if IsRequester(viewer, p.author) then Allowed else Refused
  {
    FindKeyUnique(t.posts, PostKey, p);
  }

  /** `CommentMixin.dispatch`: the comment is looked up by its own key alone;
      the `post_id` of the URL is not compared with the comment's post. */
  function CommentGate(t: Tables, viewer: Viewer, cid: CommentId): (g: Gate)
    ensures g == Missing <==> forall c :: c in t.comments ==> c.id != cid
    ensures g == Allowed ==> viewer.Some?
    ensures g == Allowed ==> exists c :: c in t.comments && c.id == cid && IsRequester(viewer, c.author)
  {
    match FindKey(t.comments, CommentKey, cid)
    case None => Missing
    case Some(c) => if IsRequester(viewer, c.author) then Allowed else Refused
  }

  /** Only the comment's author gets past the comment gate. */
  lemma CommentGateOwnerOnly(t: Tables, viewer: Viewer, c: Comment)
    requires WellFormed(t)
    requires c in t.comments
    ensures CommentGate(t, viewer, c.id) == if IsRequester(viewer, c.author) then Allowed else Refused
  {
    FindKeyUnique(t.comments, CommentKey, c);
  }

  // ---------------------------------------------------------------------------
  // Pages

  /** `Paginator(items, 10)`. */
  const PageSize: nat := 10

  /** The number of pages: an empty listing still has its one, empty, page. */
  function PageCount(n: nat): (k: nat)
    ensures k >= 1
    ensures n > 0 ==> (k - 1) * PageSize < n <= k * PageSize
  {
    if n <= PageSize then 1 else 1 + PageCount(n - PageSize)
  }

  /** The listing cut into consecutive pages of `PageSize` rows, the last one shorter. */
  function Paginate<T>(items: seq<T>): (pages: seq<seq<T>>)
    ensures |pages| == PageCount(|items|)
    ensures forall k :: 0 <= k < |pages| ==> |pages[k]| <= PageSize
    ensures forall k :: 0 <= k < |pages| - 1 ==> |pages[k]| == PageSize
    decreases |items|
  {
    if |items| <= PageSize then [items]
    else [items[..PageSize]] + Paginate(items[PageSize..])
  }

  function Flatten<T>(pages: seq<seq<T>>): seq<T> {
    if pages == [] then [] else pages[0] + Flatten(pages[1..])
  }

  /** Reading the pages in order gives back the whole listing. */
  lemma {:induction false} PaginateRoundTrip<T>(items: seq<T>)
    ensures Flatten(Paginate(items)) == items
    decreases |items|
  {
    if |items| > PageSize {
      PaginateRoundTrip(items[PageSize..]);
      assert items == items[..PageSize] + items[PageSize..];
    }
  }

  /** Page `number` of a listing, counting from 1 (`paginator.get_page(number)`
      for a number already in range). */
  function Page<T>(items: seq<T>, number: nat): seq<T>
    requires 1 <= number <= PageCount(|items|)
  {
    Paginate(items)[number - 1]
  }

  /** Page `number` holds the rows from `(number-1)*10` up to `number*10`. */
  lemma {:induction false} PageSlice<T>(items: seq<T>, number: nat)
    requires 1 <= number <= PageCount(|items|)
    ensures (number - 1) * PageSize <= |items|
    ensures Page(items, number) == items[(number - 1) * PageSize .. Min(number * PageSize, |items|)]
    decreases |items|
  {
    if number > 1 {
      var rest := items[PageSize..];
      PageSlice(rest, number - 1);
      assert Paginate(items)[number - 1] == Paginate(rest)[number - 2];
    }
  }

  /** Twenty-five rows make three pages of 10, 10 and 5. */
  lemma TwentyFiveRowsMakeThreePages<T>(items: seq<T>)
    requires |items| == 25
    ensures PageCount(|items|) == 3
    ensures |Page(items, 1)| == 10 && |Page(items, 2)| == 10 && |Page(items, 3)| == 5
  {
    PageSlice(items, 1);
    PageSlice(items, 2);
    PageSlice(items, 3);
  }
}
