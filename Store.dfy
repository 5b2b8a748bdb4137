/** The blog's database as one object whose tables are changed in place: the
    create, update and delete views of `blog/views.py` behind their login and
    ownership checks, and the deletion of users, categories and locations under
    the foreign-key rules of `blog/models.py`. */
module Store {
  import opened Collections
  import opened Models
  import opened Writes
  import opened Views

  /** How a request that may change the database ends. */
  datatype Response =
    | RedirectDetail(postId: PostId)     // to the detail page of `post_id`
    | RedirectProfile(username: string)  // to the requester's profile page
    | RedirectLogin                      // `LoginRequiredMixin` turning an anonymous visitor away
    | NotFound                           // `get_object_or_404`
    | FormRejected                       // the form shown again with its errors

  /** What `PostForm` takes from the request: every field of `Post` except
      `is_published`, `created_at` and `author`. */
  datatype PostForm = PostForm(
    title: string, text: string, pubDate: Timestamp,
    location: Option<LocationId>, category: Option<CategoryId>, image: string)

  /** `max_length` of `Post.title`. */
  const TitleMaxLength: nat := 256

  /** The field checks of `PostForm`: a title of 1 to 256 characters, a text, a
      category chosen among the existing ones (the key is `null=True` but not
      `blank=True`, so the form requires it), and an existing location if any. */
  predicate PostFormValid(t: Tables, f: PostForm) {
    0 < |f.title| <= TitleMaxLength && |f.text| > 0
    && f.category.Some? && FindKey(t.categories, CategoryKey, f.category.value).Some?
    && (f.location.Some? ==> FindKey(t.locations, LocationKey, f.location.value).Some?)
  }

  /** `CommentForm` has the one required field `text`. */
  predicate CommentFormValid(text: string) {
    |text| > 0
  }

  /** `max_length` of the authentication framework's `User.username`. */
  const UsernameMaxLength: nat := 150

  /** The username check of `UserForm` for the user `uid`: 1 to 150 characters,
      and held by no other user (the form's uniqueness check skips the row it edits). */
  predicate UserFormValid(t: Tables, uid: UserId, name: string) {
    0 < |name| <= UsernameMaxLength
    && forall v :: v in t.users && v.id != uid ==> v.username != name
  }

  /** A valid form names rows that exist. */
  lemma ValidFormRefs(t: Tables, f: PostForm)
    requires PostFormValid(t, f)
    ensures f.category.value in Keys(t.categories, CategoryKey)
    ensures f.location.Some? ==> f.location.value in Keys(t.locations, LocationKey)
  {
  }

  /** The post `PostCreateView.form_valid` saves: the requester is its author,
      and `is_published`, absent from the form, takes its default. */
  function NewPost(id: PostId, author: UserId, f: PostForm, now: Timestamp): (p: Post)
    ensures p.id == id && p.author == author && p.createdAt == now
    ensures p.isPublished
    ensures p.category == f.category && p.location == f.location && p.pubDate == f.pubDate
    ensures p.title == f.title && p.text == f.text && p.image == f.image
  {
    Post(id, f.title, f.text, f.pubDate, author, f.location, f.category, f.image,
         PublishedFlag(None), now)
  }

  /** The post `PostUpdateView` saves: the form's fields replace the old ones;
      the excluded `is_published`, `created_at` and `author` stay as they were. */
  function EditedPost(p: Post, f: PostForm): (q: Post)
    ensures q.id == p.id && q.author == p.author
    ensures q.isPublished == p.isPublished && q.createdAt == p.createdAt
    ensures q.title == f.title && q.text == f.text && q.pubDate == f.pubDate
    ensures q.category == f.category && q.location == f.location && q.image == f.image
  {
    p.(title := f.title, text := f.text, pubDate := f.pubDate,
       location := f.location, category := f.category, image := f.image)
  }

  /** The comment `CommentCreateView.form_valid` saves: written by the
      requester, on the post of the URL, published by default. */
  function NewComment(id: CommentId, author: UserId, pid: PostId, text: string, now: Timestamp)
    : (c: Comment)
    ensures c.id == id && c.author == author && c.post == pid && c.text == text
    ensures c.isPublished && c.createdAt == now
  {
    Comment(id, text, pid, author, PublishedFlag(None), now)
  }

  /** After a rename the profile page moves to the new username, and the old
      username no longer resolves. */
  lemma RenameMovesProfile(t: Tables, u: User, name: string, viewer: Viewer, now: Timestamp)
    requires WellFormed(t)
    requires u in t.users && UserFormValid(t, u.id, name)
    ensures Profile(RenameUser(t, u.id, name), viewer, name, now).Some?
    ensures name != u.username ==> Profile(RenameUser(t, u.id, name), viewer, u.username, now).None?
  {
    RenamedRow(t, u, name);
    if name != u.username {
      RenameFreesName(t, u, name);
    }
  }

  /** Under the new username the profile lists the same user's posts as before. */
  lemma RenamedProfileContents(t: Tables, u: User, name: string, viewer: Viewer, now: Timestamp)
    requires WellFormed(t)
    requires u in t.users && UserFormValid(t, u.id, name)
    ensures forall a :: a in Profile(RenameUser(t, u.id, name), viewer, name, now).value <==>
      a.post in t.posts && a.post.author == u.id
      && (IsRequester(viewer, u.id) || IsVisible(t, a.post, now))
      && a.commentCount == CommentCount(t, a.post.id)
  {
    var r := RenameUser(t, u.id, name);
    RenamedRow(t, u, name);
    ProfileContents(r, viewer, u.(username := name), now);
    assert forall p :: IsVisible(r, p, now) == IsVisible(t, p, now);
    assert forall pid :: CommentCount(r, pid) == CommentCount(t, pid);
  }

  /** The renamed row is a row of the new user table. */
  lemma RenamedRow(t: Tables, u: User, name: string)
    requires WellFormed(t)
    requires u in t.users && UserFormValid(t, u.id, name)
    ensures u.(username := name) in RenameUser(t, u.id, name).users
  {
    var i :| 0 <= i < |t.users| && t.users[i] == u;
    assert RenameUser(t, u.id, name).users[i] == u.(username := name);
  }

  /** After a rename nobody holds the old username. */
  lemma RenameFreesName(t: Tables, u: User, name: string)
    requires WellFormed(t)
    requires u in t.users && UserFormValid(t, u.id, name) && name != u.username
    ensures forall v :: v in RenameUser(t, u.id, name).users ==> v.username != u.username
  {
    var r := RenameUser(t, u.id, name);
    forall v | v in r.users ensures v.username != u.username {
      var k :| 0 <= k < |r.users| && r.users[k] == v;
      var w := t.users[k];
      if w.id != u.id {
        assert w in t.users && v == w;
        FindKeyUnique(t.users, UserName, u);
        FindKeyUnique(t.users, UserName, w);
      }
    }
  }

  /** The next primary key each table hands out (the database's sequences). */
  datatype Sequences = Sequences(user: nat, category: nat, location: nat, post: nat, comment: nat)

  class Blog {
    var users: seq<User>
    var categories: seq<Category>
    var locations: seq<Location>
    var posts: seq<Post>
    var comments: seq<Comment>
    var next: Sequences

    /** The tables as a value. */
    function State(): Tables
      reads this
    {
      Tables(users, categories, locations, posts, comments)
    }

    /** The database is well formed and every key already used is below its sequence. */
    ghost predicate Valid()
      reads this
    {
      WellFormed(State())
      && (forall u :: u in users ==> u.id < next.user)
      && (forall c :: c in categories ==> c.id < next.category)
      && (forall l :: l in locations ==> l.id < next.location)
      && (forall p :: p in posts ==> p.id < next.post)
      && (forall c :: c in comments ==> c.id < next.comment)
    }

    constructor ()
      ensures Valid()
      ensures State() == Tables([], [], [], [], [])
    {
      users, categories, locations, posts, comments := [], [], [], [], [];
      next := Sequences(0, 0, 0, 0, 0);
    }

    /** Writes the tables `t` back into the fields. */
    method Commit(t: Tables)
      modifies this
      ensures State() == t && next == old(next)
    {
      users, categories, locations, posts, comments :=
        t.users, t.categories, t.locations, t.posts, t.comments;
    }

    // -------------------------------------------------------------------------
    // Rows the authentication framework and the admin site create

    /** A new user; a username already taken is refused. */
    method AddUser(username: string) returns (r: Option<UserId>)
      requires Valid()
      modifies this
      ensures Valid()
      ensures (exists u :: u in old(users) && u.username == username) ==> r.None? && unchanged(this)
      ensures r.Some? ==> r.value == old(next.user)
      ensures r.Some? ==> State() == old(State()).(users := old(users) + [User(r.value, username)])
      ensures r.Some? ==> next == old(next).(user := old(next.user) + 1)
      ensures (forall u :: u in old(users) ==> u.username != username) ==> r.Some?
    {
      if FindKey(users, UserName, username).Some? {
        return None;
      }
      var u := User(next.user, username);
      Commit(InsertUser(State(), u));
      r := Some(next.user);
      next := next.(user := next.user + 1);
    }

    /** `ProfileUpdateView`: an anonymous visitor is sent to log in; the form
        edits the requester's own row; a username that is empty, too long or
        held by someone else is refused; otherwise the row takes the new
        username and the requester goes to their profile under that name. */
    method UpdateProfile(viewer: Viewer, name: string) returns (r: Response)
      requires Valid()
      requires viewer.Some? ==> viewer.value in users
      modifies this
      ensures Valid()
      ensures next == old(next)
      ensures viewer.None? ==> r == RedirectLogin && unchanged(this)
      ensures viewer.Some? && !UserFormValid(old(State()), viewer.value.id, name) ==>
        r == FormRejected && unchanged(this)
      ensures viewer.Some? && UserFormValid(old(State()), viewer.value.id, name) ==>
        r == RedirectProfile(name) && State() == RenameUser(old(State()), viewer.value.id, name)
    {
      if viewer.None? {
        return RedirectLogin;
      }
      if !UserFormValid(State(), viewer.value.id, name) {
        return FormRejected;
      }
      var t := RenameUser(State(), viewer.value.id, name);
      forall u | u in t.users ensures u.id < next.user {
        assert u.id in Keys(users, UserKey);
      }
      Commit(t);
      r := RedirectProfile(name);
    }

    /** A new category; the `unique=True` slug makes a taken slug fail. */
    method AddCategory(title: string, description: string, slug: string,
                       isPublished: Option<bool>, now: Timestamp)
      returns (r: Option<CategoryId>)
      requires Valid()
      modifies this
      ensures Valid()
      ensures (exists c :: c in old(categories) && c.slug == slug) ==> r.None? && unchanged(this)
      ensures r.Some? ==> r.value == old(next.category)
      ensures r.Some? ==> State() == old(State()).(categories := old(categories) +
        [Category(r.value, title, description, slug, PublishedFlag(isPublished), now)])
      ensures r.Some? ==> next == old(next).(category := old(next.category) + 1)
      ensures (forall c :: c in old(categories) ==> c.slug != slug) ==> r.Some?
    {
      if FindKey(categories, CategorySlug, slug).Some? {
        return None;
      }
      var c := Category(next.category, title, description, slug, PublishedFlag(isPublished), now);
      Commit(InsertCategory(State(), c));
      r := Some(next.category);
      next := next.(category := next.category + 1);
    }

    /** A new location. */
    method AddLocation(name: string, isPublished: Option<bool>, now: Timestamp)
      returns (id: LocationId)
      requires Valid()
      modifies this
      ensures Valid()
      ensures id == old(next.location)
      ensures State() == old(State()).(locations := old(locations) +
        [Location(id, name, PublishedFlag(isPublished), now)])
      ensures next == old(next).(location := old(next.location) + 1)
    {
      id := next.location;
      Commit(InsertLocation(State(), Location(id, name, PublishedFlag(isPublished), now)));
      next := next.(location := id + 1);
    }

    // -------------------------------------------------------------------------
    // Posts

    /** `PostCreateView`: an anonymous visitor is sent to log in; an invalid form
        is shown again; otherwise the post is saved with the requester as its
        author and the requester is sent to their profile. */
    method CreatePost(viewer: Viewer, f: PostForm, now: Timestamp) returns (r: Response)
      requires Valid()
      requires viewer.Some? ==> viewer.value in users
      modifies this
      ensures Valid()
      ensures viewer.None? ==> r == RedirectLogin && unchanged(this)
      ensures viewer.Some? && !PostFormValid(old(State()), f) ==> r == FormRejected && unchanged(this)
      ensures viewer.Some? && PostFormValid(old(State()), f) ==>
        r == RedirectProfile(viewer.value.username)
        && State() == old(State()).(posts := old(posts) + [NewPost(old(next.post), viewer.value.id, f, now)])
        && next == old(next).(post := old(next.post) + 1)
    {
      if viewer.None? {
        return RedirectLogin;
      }
      if !PostFormValid(State(), f) {
        return FormRejected;
      }
      var user := viewer.value;
      var p := NewPost(next.post, user.id, f, now);
      ValidFormRefs(State(), f);
      Commit(InsertPost(State(), p));
      next := next.(post := next.post + 1);
      r := RedirectProfile(user.username);
    }

    /** `PostUpdateView`: the ownership check of `PostMixin.dispatch` first
        (not found, or a redirect to the detail page for anyone but the author,
        an anonymous visitor included), then the form; a valid form overwrites
        the post's editable fields and leads back to its detail page. */
    method UpdatePost(viewer: Viewer, pid: PostId, f: PostForm) returns (r: Response)
      requires Valid()
      modifies this
      ensures Valid()
      ensures next == old(next)
      ensures PostGate(old(State()), viewer, pid) == Missing ==> r == NotFound && unchanged(this)
      ensures PostGate(old(State()), viewer, pid) == Refused ==> r == RedirectDetail(pid) && unchanged(this)
      ensures PostGate(old(State()), viewer, pid) == Allowed && !PostFormValid(old(State()), f) ==>
        r == FormRejected && unchanged(this)
      ensures PostGate(old(State()), viewer, pid) == Allowed && PostFormValid(old(State()), f) ==>
        r == RedirectDetail(pid)
        && State() == ReplacePost(old(State()),
             EditedPost(FindKey(old(posts), PostKey, pid).value, f))
    {
      var gate := PostGate(State(), viewer, pid);
      if gate == Missing {
        return NotFound;
      } else if gate == Refused {
        return RedirectDetail(pid);
      }
      if !PostFormValid(State(), f) {
        return FormRejected;
      }
      var current := FindKey(posts, PostKey, pid).value;
      var p := EditedPost(current, f);
      ValidFormRefs(State(), f);
      assert PostRefsOk(State(), current);
      Commit(ReplacePost(State(), p));
      r := RedirectDetail(pid);
    }

    /** `PostDeleteView`: behind the same ownership check; the author's request
        deletes the post with its comments and leads to the author's profile. */
    method DeletePost(viewer: Viewer, pid: PostId) returns (r: Response)
      requires Valid()
      modifies this
      ensures Valid()
      ensures next == old(next)
      ensures PostGate(old(State()), viewer, pid) == Missing ==> r == NotFound && unchanged(this)
      ensures PostGate(old(State()), viewer, pid) == Refused ==> r == RedirectDetail(pid) && unchanged(this)
      ensures PostGate(old(State()), viewer, pid) == Allowed ==>
        r == RedirectProfile(viewer.value.username) && State() == RemovePost(old(State()), pid)
    {
      var gate := PostGate(State(), viewer, pid);
      if gate == Missing {
        return NotFound;
      } else if gate == Refused {
        return RedirectDetail(pid);
      }
      Commit(RemovePost(State(), pid));
      r := RedirectProfile(viewer.value.username);
    }

    // -------------------------------------------------------------------------
    // Comments

    /** `CommentCreateView`: an anonymous visitor is sent to log in and an
        invalid form is shown again; only then is the post of the URL looked up
        (not found if it does not exist; its visibility is not checked). The
        comment is saved with the requester as author and that post as post. */
    method CreateComment(viewer: Viewer, pid: PostId, text: string, now: Timestamp)
      returns (r: Response)
      requires Valid()
      requires viewer.Some? ==> viewer.value in users
      modifies this
      ensures Valid()
      ensures viewer.None? ==> r == RedirectLogin && unchanged(this)
      ensures viewer.Some? && !CommentFormValid(text) ==> r == FormRejected && unchanged(this)
      ensures viewer.Some? && CommentFormValid(text) && (forall p :: p in old(posts) ==> p.id != pid) ==>
        r == NotFound && unchanged(this)
      ensures viewer.Some? && CommentFormValid(text) && (exists p :: p in old(posts) && p.id == pid) ==>
        r == RedirectDetail(pid)
        && State() == old(State()).(comments := old(comments) +
             [NewComment(old(next.comment), viewer.value.id, pid, text, now)])
        && next == old(next).(comment := old(next.comment) + 1)
    {
      if viewer.None? {
        return RedirectLogin;
      }
      if !CommentFormValid(text) {
        return FormRejected;
      }
      if FindKey(posts, PostKey, pid).None? {
        return NotFound;
      }
      var c := NewComment(next.comment, viewer.value.id, pid, text, now);
      assert c.post in Keys(posts, PostKey) by {
        var p := FindKey(posts, PostKey, pid).value;
        assert p in posts;
      }
      Commit(InsertComment(State(), c));
      next := next.(comment := next.comment + 1);
      r := RedirectDetail(pid);
    }

    /** `CommentUpdateView`: `CommentMixin.dispatch` finds the comment by its
        own key, redirects anyone but its author to the detail page of the URL's
        `post_id`, and the author's valid form replaces the text; the comment's
        own post is never compared with `post_id`. */
    method UpdateComment(viewer: Viewer, pid: PostId, cid: CommentId, text: string)
      returns (r: Response)
      requires Valid()
      modifies this
      ensures Valid()
      ensures next == old(next)
      ensures CommentGate(old(State()), viewer, cid) == Missing ==> r == NotFound && unchanged(this)
      ensures CommentGate(old(State()), viewer, cid) == Refused ==> r == RedirectDetail(pid) && unchanged(this)
      ensures CommentGate(old(State()), viewer, cid) == Allowed && !CommentFormValid(text) ==>
        r == FormRejected && unchanged(this)
      ensures CommentGate(old(State()), viewer, cid) == Allowed && CommentFormValid(text) ==>
        r == RedirectDetail(pid)
        && State() == ReplaceComment(old(State()),
             FindKey(old(comments), CommentKey, cid).value.(text := text))
    {
      var gate := CommentGate(State(), viewer, cid);
      if gate == Missing {
        return NotFound;
      } else if gate == Refused {
        return RedirectDetail(pid);
      }
      if !CommentFormValid(text) {
        return FormRejected;
      }
      var c := FindKey(comments, CommentKey, cid).value;
      assert CommentRefsOk(State(), c);
      Commit(ReplaceComment(State(), c.(text := text)));
      r := RedirectDetail(pid);
    }

    /** `CommentDeleteView`: behind the same check; the author's request deletes
        the comment and leads to the detail page of the URL's `post_id`. */
    method DeleteComment(viewer: Viewer, pid: PostId, cid: CommentId) returns (r: Response)
      requires Valid()
      modifies this
      ensures Valid()
      ensures next == old(next)
      ensures CommentGate(old(State()), viewer, cid) == Missing ==> r == NotFound && unchanged(this)
      ensures CommentGate(old(State()), viewer, cid) == Refused ==> r == RedirectDetail(pid) && unchanged(this)
      ensures CommentGate(old(State()), viewer, cid) == Allowed ==>
        r == RedirectDetail(pid) && State() == RemoveComment(old(State()), cid)
    {
      var gate := CommentGate(State(), viewer, cid);
      if gate == Missing {
        return NotFound;
      } else if gate == Refused {
        return RedirectDetail(pid);
      }
      Commit(RemoveComment(State(), cid));
      r := RedirectDetail(pid);
    }

    // -------------------------------------------------------------------------
    // Deletions under the foreign-key rules

    /** Deleting a user cascades to their posts, their comments and the
        comments on their posts. */
    method DeleteUser(uid: UserId)
      requires Valid()
      modifies this
      ensures Valid()
      ensures State() == RemoveUser(old(State()), uid) && next == old(next)
    {
      Commit(RemoveUser(State(), uid));
    }

    /** Deleting a category sets `category` to null on its posts. */
    method DeleteCategory(cid: CategoryId)
      requires Valid()
      modifies this
      ensures Valid()
      ensures State() == RemoveCategory(old(State()), cid) && next == old(next)
    {
      var t := RemoveCategory(State(), cid);
      assert forall i :: 0 <= i < |t.posts| ==> t.posts[i].id == posts[i].id;
      assert forall p :: p in t.posts ==> exists i :: 0 <= i < |posts| && p.id == posts[i].id;
      Commit(t);
    }

    /** Deleting a location sets `location` to null on its posts. */
    method DeleteLocation(lid: LocationId)
      requires Valid()
      modifies this
      ensures Valid()
      ensures State() == RemoveLocation(old(State()), lid) && next == old(next)
    {
      var t := RemoveLocation(State(), lid);
      assert forall i :: 0 <= i < |t.posts| ==> t.posts[i].id == posts[i].id;
      assert forall p :: p in t.posts ==> exists i :: 0 <= i < |posts| && p.id == posts[i].id;
      Commit(t);
    }
  }
}
