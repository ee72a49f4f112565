/** The App component's state container: the posts array, the selected
    post, the edit flag and the persisted copy of the posts, updated by the
    component's handlers one event at a time. */
module BlogApp {
  import opened Posts
  import Views

  /** The `posts` entry of the browser's local storage: absent, or the
      serialized array of the last save. */
  datatype Blob = Missing | Saved(posts: seq<Post>)

  /** What `fetchPosts` reads back: a missing entry parses to `null`, which
      falls back to the empty array. */
  function Fetch(b: Blob): seq<Post>
  {
    match b
    case Missing => []
    case Saved(ps) => ps
  }

  class App {
    var posts: seq<Post>
    var currentPost: Selection
    var isEditing: bool
    /** The persisted store standing in for local storage. */
    var stored: Blob

    /** Reloading from the store gives back the collection in memory, and
        the editor is open only on a selected post. */
    ghost predicate Valid()
      reads this
    {
      Fetch(stored) == posts && (isEditing ==> currentPost.Selected?)
    }

    /** The detail view, when shown, shows a post of the collection. */
    ghost predicate DetailInCollection()
      reads this
    {
      currentPost.Selected? && !isEditing ==> currentPost.post in posts
    }

    /** The views rendered in the current state. */
    function Screens(): set<Views.Screen>
      reads this
    {
      Views.Screens(currentPost, isEditing)
    }

    /** Mounting the component: the initial state, then the effect that
        loads the stored posts, taken as one step. */
    constructor (blob: Blob)
      ensures Valid() && DetailInCollection()
      ensures posts == Fetch(blob) && stored == blob
      ensures currentPost == Null && !isEditing
      ensures Screens() == {Views.Form, Views.List}
    {
      posts := Fetch(blob);
      stored := blob;
      currentPost := Null;
      isEditing := false;
    }

    /** `handleViewPost`: select the first post with `id`, or `undefined`. */
    method ViewPost(id: int)
      requires Valid()
      modifies this
      ensures Valid() && DetailInCollection()
      ensures posts == old(posts) && stored == old(stored)
      ensures currentPost == Find(posts, id) && !isEditing
      ensures Screens() == if id in Ids(posts) then {Views.Detail} else {Views.List}
    {
      currentPost := Find(posts, id);
      isEditing := false;
    }

    /** `handleAddPost`: append the draft stamped with the clock reading
        `now`, and save. */
    method AddPost(draft: Draft, now: int)
      requires Valid()
      modifies this
      ensures Valid()
      ensures posts == Append(old(posts), draft, now) && stored == Saved(posts)
      ensures currentPost == old(currentPost) && isEditing == old(isEditing)
      ensures old(DetailInCollection()) ==> DetailInCollection()
      ensures old(UniqueIds(posts)) && now !in old(Ids(posts)) ==> UniqueIds(posts)
    {
      AppendUnique(posts, draft, now);
      posts := Append(posts, draft, now);
      stored := Saved(posts);
    }

    /** `handleEditPost`: replace the entries whose id equals the draft's,
        and save. */
    method EditPost(draft: Draft)
      requires Valid()
      modifies this
      ensures Valid()
      ensures posts == Replace(old(posts), draft) && stored == Saved(posts)
      ensures currentPost == old(currentPost) && isEditing == old(isEditing)
      ensures Ids(posts) == old(Ids(posts))
      ensures UniqueIds(posts) <==> old(UniqueIds(posts))
    {
      ReplaceKeepsIds(posts, draft);
      posts := Replace(posts, draft);
      stored := Saved(posts);
    }

    /** `handleDeletePost`: drop the entries with `id`, save, and go back
        to the list when the selected post is the one deleted. */
    method DeletePost(id: int)
      requires Valid()
      modifies this
      ensures Valid()
      ensures posts == Remove(old(posts), id) && stored == Saved(posts)
      ensures if old(currentPost).Selected? && old(currentPost).post.id == id
              then currentPost == Null && !isEditing
              else currentPost == old(currentPost) && isEditing == old(isEditing)
      ensures old(DetailInCollection()) ==> DetailInCollection()
      ensures old(UniqueIds(posts)) ==> UniqueIds(posts)
    {
      RemoveMembers(posts, id);
      if UniqueIds(posts) {
        RemoveKeepsUnique(posts, id);
      }
      posts := Remove(posts, id);
      stored := Saved(posts);
      if currentPost.Selected? && currentPost.post.id == id {
        currentPost := Null;
        isEditing := false;
      }
    }

    /** `handleBack`: deselect and leave the editor. */
    method Back()
      requires Valid()
      modifies this
      ensures Valid() && DetailInCollection()
      ensures posts == old(posts) && stored == old(stored)
      ensures currentPost == Null && !isEditing
      ensures Screens() == {Views.Form, Views.List}
    {
      currentPost := Null;
      isEditing := false;
    }

    /** The form's `onSave`: edit when a post is selected, add otherwise,
        then deselect and leave the editor. */
    method Save(draft: Draft, now: int)
      requires Valid()
      modifies this
      ensures Valid() && DetailInCollection()
      ensures posts == if old(currentPost).Selected?
                       then Replace(old(posts), draft)
                       else Append(old(posts), draft, now)
      ensures stored == Saved(posts)
      ensures currentPost == Null && !isEditing
      ensures Screens() == {Views.Form, Views.List}
    {
      if currentPost.Selected? {
        EditPost(draft);
      } else {
        AddPost(draft, now);
      }
      currentPost := Null;
      isEditing := false;
    }

    /** The detail view's `onEdit`: select `p` and open the editor on it. */
    method EnterEdit(p: Post)
      requires Valid()
      modifies this
      ensures Valid() && DetailInCollection()
      ensures posts == old(posts) && stored == old(stored)
      ensures currentPost == Selected(p) && isEditing
      ensures Screens() == {Views.Form}
    {
      currentPost := Selected(p);
      isEditing := true;
    }
  }

  /** A session from an empty store: add a post through the form, open it,
      edit it, and save the edit. */
  method EditSession()
  {
    var app := new App(Missing);
    var title, body := "title", "body";
    app.Save(Draft(None, map[title := "A", body := "x"]), 1000);
    assert app.posts == [Post(1000, map[title := "A", body := "x"])];

    app.ViewPost(1000);
    assert app.currentPost == Selected(Post(1000, map[title := "A", body := "x"]));
    assert app.Screens() == {Views.Detail};

    app.EnterEdit(app.currentPost.post);
    assert app.Screens() == {Views.Form};

    app.Save(Draft(Some(1000), map[title := "A2", body := "x"]), 2000);
    assert app.posts == [Post(1000, map[title := "A2", body := "x"])];
    assert Fetch(app.stored) == app.posts;
    assert Views.List in app.Screens();
  }
}
