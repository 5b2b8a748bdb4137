/** The records of the blog and the read scopes declared on them
    (`blog/models.py`): categories, locations, posts and comments, the users
    they belong to, the visibility rule for posts, the per-post comment count
    and the `__str__` labels. Every table is a sequence of rows in table order. */
module Models {
  import opened Collections
  import opened Ordering

  /** Instants of time (`DateTimeField`), as a count of some fixed unit. */
  type Timestamp = int

  type UserId = nat
  type CategoryId = nat
  type LocationId = nat
  type PostId = nat
  type CommentId = nat

  /** `BaseModel.is_published` is `default=True` on every model that inherits it. */
  const PublishedByDefault: bool := true

  datatype User = User(id: UserId, username: string)

  datatype Category = Category(
    id: CategoryId, title: string, description: string, slug: string,
    isPublished: bool, createdAt: Timestamp)

  datatype Location = Location(id: LocationId, name: string, isPublished: bool, createdAt: Timestamp)

  /** `category` and `location` are nullable foreign keys; `author` is not. */
  datatype Post = Post(
    id: PostId, title: string, text: string, pubDate: Timestamp, author: UserId,
    location: Option<LocationId>, category: Option<CategoryId>, image: string,
    isPublished: bool, createdAt: Timestamp)

  datatype Comment = Comment(
    id: CommentId, text: string, post: PostId, author: UserId,
    isPublished: bool, createdAt: Timestamp)

  /** The whole database: one sequence of rows per table. */
  datatype Tables = Tables(
    users: seq<User>, categories: seq<Category>, locations: seq<Location>,
    posts: seq<Post>, comments: seq<Comment>)

  // Key columns, as functions for the generic lookups.
  function UserKey(u: User): UserId { u.id }
  function UserName(u: User): string { u.username }
  function CategoryKey(c: Category): CategoryId { c.id }
  function CategorySlug(c: Category): string { c.slug }
  function LocationKey(l: Location): LocationId { l.id }
  function PostKey(p: Post): PostId { p.id }
  function CommentKey(c: Comment): CommentId { c.id }

  /** The value `is_published` takes on a new row: the one given, else the default. */
  function PublishedFlag(given: Option<bool>): (b: bool)
    ensures given.None? ==> b
    ensures given.Some? ==> b == given.value
  {
    if given.Some? then given.value else PublishedByDefault
  }

  // ---------------------------------------------------------------------------
  // Integrity of the database

  /** Primary keys, `Category.slug` (`unique=True`) and `User.username` are unique. */
  ghost predicate UniqueRows(t: Tables) {
    UniqueBy(t.users, UserKey) && UniqueBy(t.users, UserName)
    && UniqueBy(t.categories, CategoryKey) && UniqueBy(t.categories, CategorySlug)
    && UniqueBy(t.locations, LocationKey)
    && UniqueBy(t.posts, PostKey) && UniqueBy(t.comments, CommentKey)
  }

  /** The foreign keys of a post point at existing rows (the nullable ones when set). */
  ghost predicate PostRefsOk(t: Tables, p: Post) {
    p.author in Keys(t.users, UserKey)
    && (p.category.Some? ==> p.category.value in Keys(t.categories, CategoryKey))
    && (p.location.Some? ==> p.location.value in Keys(t.locations, LocationKey))
  }

  /** The foreign keys of a comment point at an existing post and user. */
  ghost predicate CommentRefsOk(t: Tables, c: Comment) {
    c.post in Keys(t.posts, PostKey) && c.author in Keys(t.users, UserKey)
  }

  /** What the database's key constraints guarantee of every state. */
  ghost predicate WellFormed(t: Tables) {
    UniqueRows(t)
    && (forall p :: p in t.posts ==> PostRefsOk(t, p))
    && (forall c :: c in t.comments ==> CommentRefsOk(t, c))
  }

  /** No two categories share a slug: the slug names at most one category. */
  lemma SlugNamesOneCategory(t: Tables, c: Category, d: Category)
    requires WellFormed(t)
    requires c in t.categories && d in t.categories && c.slug == d.slug
    ensures c == d
  {
    FindKeyUnique(t.categories, CategorySlug, c);
    FindKeyUnique(t.categories, CategorySlug, d);
  }

  // ---------------------------------------------------------------------------
  // Visibility

  /** The category row a post's foreign key joins to, if the key is set. */
  function CategoryOf(t: Tables, p: Post): Option<Category> {
    if p.category.None? then None else FindKey(t.categories, CategoryKey, p.category.value)
  }

  /** The published filter `is_published=True, category__is_published=True,
      pub_date__lte=now`; the join on `category` drops a post whose category is null. */
  predicate IsVisible(t: Tables, p: Post, now: Timestamp) {
    p.isPublished && p.pubDate <= now
    && CategoryOf(t, p).Some? && CategoryOf(t, p).value.isPublished
  }

  /** A post is visible exactly when it is published, due, and has a published category. */
  lemma VisibleIff(t: Tables, p: Post, now: Timestamp)
    requires WellFormed(t)
    ensures IsVisible(t, p, now) <==>
      p.isPublished && p.pubDate <= now
      && exists c :: c in t.categories && p.category == Some(c.id) && c.isPublished
  {
    if exists c :: c in t.categories && p.category == Some(c.id) && c.isPublished {
      var c :| c in t.categories && p.category == Some(c.id) && c.isPublished;
      FindKeyUnique(t.categories, CategoryKey, c);
    }
  }

  /** A post without a category is never visible, whatever its flags and date. */
  lemma UncategorisedIsHidden(t: Tables, p: Post, now: Timestamp)
    requires p.category.None?
    ensures !IsVisible(t, p, now)
  {
  }

  /** The posts of `t` that pass the published filter, in table order. */
  function VisiblePosts(t: Tables, now: Timestamp): (r: seq<Post>)
    ensures forall p :: p in r <==> p in t.posts && IsVisible(t, p, now)
    ensures forall p :: multiset(r)[p] == if IsVisible(t, p, now) then multiset(t.posts)[p] else 0
  {
    Filter(t.posts, (p: Post) => IsVisible(t, p, now))
  }

  /** The posts of `ps` written by `uid` (`filter(author=...)`). */
  function ByAuthor(ps: seq<Post>, uid: UserId): (r: seq<Post>)
    ensures forall p :: p in r <==> p in ps && p.author == uid
    ensures forall p :: multiset(r)[p] == if p.author == uid then multiset(ps)[p] else 0
  {
    Filter(ps, (p: Post) => p.author == uid)
  }

  // ---------------------------------------------------------------------------
  // Comments

  /** The comments whose foreign key is `pid` (the reverse relation `post.comments`). */
  function CommentsOn(cs: seq<Comment>, pid: PostId): (r: seq<Comment>)
    ensures forall c :: c in r <==> c in cs && c.post == pid
    ensures forall c :: multiset(r)[c] == if c.post == pid then multiset(cs)[c] else 0
  {
    Filter(cs, (c: Comment) => c.post == pid)
  }

  /** `Count('comments')`: the number of comment rows on post `pid`. */
  function CommentCount(t: Tables, pid: PostId): nat {
    |CommentsOn(t.comments, pid)|
  }

  /** The count equals the number of distinct comments whose post is `pid`. */
  lemma CommentCountIsCardinality(t: Tables, pid: PostId)
    requires WellFormed(t)
    ensures CommentCount(t, pid) == |set c | c in t.comments && c.post == pid :: c.id|
  {
    var on := CommentsOn(t.comments, pid);
    FilterUnique(t.comments, (c: Comment) => c.post == pid, CommentKey);
    UniqueKeysCount(on, CommentKey);
    assert Keys(on, CommentKey) == set c | c in t.comments && c.post == pid :: c.id;
  }

  function CreatedAt(c: Comment): int { c.createdAt }

  /** `post.comments` under `Comment.Meta.ordering = ('created_at',)`. */
  function OrderedComments(t: Tables, pid: PostId): (r: seq<Comment>)
    ensures forall c :: c in r <==> c in t.comments && c.post == pid
    ensures forall i, j :: 0 <= i < j < |r| ==> r[i].createdAt <= r[j].createdAt
    ensures |r| == CommentCount(t, pid)
  {
    var on := CommentsOn(t.comments, pid);
    SortByMembers(on, CreatedAt);
    SortBy(on, CreatedAt)
  }

  /** In a well-formed database the comments under a post are listed once each. */
  lemma OrderedCommentsOnce(t: Tables, pid: PostId)
    requires WellFormed(t)
    ensures var r := OrderedComments(t, pid);
      forall i, j :: 0 <= i < j < |r| ==> r[i].id != r[j].id
  {
    var on := CommentsOn(t.comments, pid);
    FilterUnique(t.comments, (c: Comment) => c.post == pid, CommentKey);
    PermutationKeepsUnique(on, SortBy(on, CreatedAt), CommentKey);
  }

  // ---------------------------------------------------------------------------
  // Read scopes

  /** A post as a listing shows it: with its `comment_count` annotation. */
  datatype Annotated = Annotated(post: Post, commentCount: nat)

  /** `annotate(comment_count=Count('comments'))` over `ps`. */
  function Annotate(t: Tables, ps: seq<Post>): (r: seq<Annotated>)
    ensures |r| == |ps|
    ensures forall i :: 0 <= i < |r| ==> r[i].post == ps[i] && r[i].commentCount == CommentCount(t, ps[i].id)
    ensures forall a :: a in r <==> a.post in ps && a.commentCount == CommentCount(t, a.post.id)
  {
    if ps == [] then []
    else
      var rest := Annotate(t, ps[1..]);
      assert forall p :: p in ps <==> p == ps[0] || p in ps[1..];
      [Annotated(ps[0], CommentCount(t, ps[0].id))] + rest
  }

  function Recency(a: Annotated): int { -a.post.pubDate }

  function AnnotatedKey(a: Annotated): PostId { a.post.id }

  /** `ps` annotated with comment counts and `order_by('-pub_date')`. */
  function NewestFirst(t: Tables, ps: seq<Post>): (r: seq<Annotated>)
    ensures |r| == |ps|
    ensures forall a :: a in r <==> a.post in ps && a.commentCount == CommentCount(t, a.post.id)
    ensures forall i, j :: 0 <= i < j < |r| ==> r[i].post.pubDate >= r[j].post.pubDate
  {
    var annotated := Annotate(t, ps);
    SortByMembers(annotated, Recency);
    var r := SortBy(annotated, Recency);
    assert forall i, j :: 0 <= i < j < |r| ==> Recency(r[i]) <= Recency(r[j]);
    r
  }

  /** Posts with distinct keys stay distinct rows once annotated and sorted. */
  lemma NewestFirstOnce(t: Tables, ps: seq<Post>)
    requires UniqueBy(ps, PostKey)
    ensures UniqueBy(NewestFirst(t, ps), AnnotatedKey)
  {
    var annotated := Annotate(t, ps);
    assert UniqueBy(annotated, AnnotatedKey);
    PermutationKeepsUnique(annotated, SortBy(annotated, Recency), AnnotatedKey);
  }

  /** `Post.published`: the visible posts, annotated, newest first. */
  function PublishedScope(t: Tables, now: Timestamp): (r: seq<Annotated>)
    ensures forall a :: a in r <==>
      a.post in t.posts && IsVisible(t, a.post, now) && a.commentCount == CommentCount(t, a.post.id)
    ensures forall i, j :: 0 <= i < j < |r| ==> r[i].post.pubDate >= r[j].post.pubDate
    ensures |r| == |VisiblePosts(t, now)|
  {
    NewestFirst(t, VisiblePosts(t, now))
  }

  /** In a well-formed database the published scope lists each visible post
      once: its rows are as many as the visible posts, with distinct keys. */
  lemma PublishedScopeOnce(t: Tables, now: Timestamp)
    requires WellFormed(t)
    ensures var r := PublishedScope(t, now);
      forall i, j :: 0 <= i < j < |r| ==> r[i].post.id != r[j].post.id
  {
    FilterUnique(t.posts, (p: Post) => IsVisible(t, p, now), PostKey);
    NewestFirstOnce(t, VisiblePosts(t, now));
  }

  /** `Post.all_posts`: every post, annotated, newest first. */
  function AllScope(t: Tables): (r: seq<Annotated>)
    ensures |r| == |t.posts|
    ensures forall a :: a in r <==> a.post in t.posts && a.commentCount == CommentCount(t, a.post.id)
    ensures forall i, j :: 0 <= i < j < |r| ==> r[i].post.pubDate >= r[j].post.pubDate
  {
    NewestFirst(t, t.posts)
  }

  /** Every row of the published scope is a row of the all-posts scope, and
      the published scope is never longer. */
  lemma PublishedWithinAll(t: Tables, now: Timestamp)
    ensures forall a :: a in PublishedScope(t, now) ==> a in AllScope(t)
    ensures |PublishedScope(t, now)| <= |AllScope(t)|
  {
  }

  // ---------------------------------------------------------------------------
  // Labels

  function Min(a: int, b: int): int { if a <= b then a else b }

  /** Python's `s[:n]`: the first `n` characters, or all of `s` when shorter. */
  function Prefix(s: string, n: nat): (r: string)
    ensures |r| == Min(|s|, n)
    ensures r <= s
  {
    if |s| <= n then s else s[..n]
  }

  /** `Category.__str__`: at most 15 characters of the title, then "/ ", then the slug. */
  function CategoryLabel(c: Category): (r: string)
    ensures |r| == Min(|c.title|, 15) + 2 + |c.slug|
    ensures r[..Min(|c.title|, 15)] <= c.title
    ensures r[Min(|c.title|, 15)..] == "/ " + c.slug
  {
    Prefix(c.title, 15) + "/ " + c.slug
  }

  /** `Comment.__str__`: at most the first 10 characters of the text. */
  function CommentLabel(c: Comment): (r: string)
    ensures |r| <= 10 && r <= c.text
    ensures |c.text| >= 10 ==> |r| == 10
    ensures |c.text| <= 10 ==> r == c.text
  {
    Prefix(c.text, 10)
  }
}
