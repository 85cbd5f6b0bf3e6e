/**
  The module-level `posts` array of the script and the functions that change
  or read it. Browser signals are parameters: the `edit` query parameter is
  `editId`, the user's answer to a confirmation dialog is `confirmed`, and
  whether `localStorage.setItem` succeeded is `saveOk`.
 */
module Store {
  import opened Wrappers
  import opened Posts

  /** The alert dialogs the script raises, one per message. */
  datatype Alert =
    | IdAlreadyExists
    | ContentAlreadyExists
    | PostCreated
    | PostUpdated
    | SaveFailed
    | PostDeleted
    | DeleteFailed
    | AllCleared

  /**
    addPost edits when the `edit` parameter is truthy: present and not the
    empty string.
   */
  predicate EditMode(editId: Option<string>) {
    editId.Some? && editId.value != ""
  }

  class PostList {
    /** The in-memory list of posts, in insertion order. */
    var posts: seq<Post>

    /** The load block run when the script starts. */
    constructor (stored: StoredItem)
      ensures posts == Load(stored)
    {
      posts := Load(stored);
    }

    /** The `forEach` of the create path, which sets `idExists` and `contentExists`. */
    method ScanDuplicates(post: Post) returns (idExists: bool, contentExists: bool)
      ensures idExists <==> HasId(posts, post.id)
      ensures contentExists <==> HasContent(posts, post.content)
    {
      idExists, contentExists := false, false;
      var i := 0;
      while i < |posts|
        invariant 0 <= i <= |posts|
        invariant idExists <==> exists k :: 0 <= k < i && posts[k].id == post.id
        invariant contentExists <==> exists k :: 0 <= k < i && posts[k].content == post.content
      {
        var p := posts[i];
        if p.id == post.id {
          idExists := true;
        }
        if p.content == post.content {
          contentExists := true;
        }
        i := i + 1;
      }
    }

    /**
      The create path of addPost. A clash of id is reported before a clash
      of content; a post that passes both checks is appended before the
      save is tried, so a failed save still leaves it in the list.
     */
    method Create(post: Post, saveOk: bool) returns (ok: bool, alert: Alert)
      modifies this
      ensures HasId(old(posts), post.id) ==>
        !ok && alert == IdAlreadyExists && posts == old(posts)
      ensures !HasId(old(posts), post.id) && HasContent(old(posts), post.content) ==>
        !ok && alert == ContentAlreadyExists && posts == old(posts)
      ensures !HasId(old(posts), post.id) && !HasContent(old(posts), post.content) ==>
        posts == old(posts) + [post] && ok == saveOk &&
        alert == (if saveOk then PostCreated else SaveFailed)
      ensures UniqueIds(old(posts)) ==> UniqueIds(posts)
      ensures UniqueContents(old(posts)) ==> UniqueContents(posts)
    {
      var idExists, contentExists := ScanDuplicates(post);
      if idExists {
        return false, IdAlreadyExists;
      }
      if contentExists {
        return false, ContentAlreadyExists;
      }
      AppendKeepsUnique(posts, post);
      posts := posts + [post];
      if !saveOk {
        return false, SaveFailed;
      }
      return true, PostCreated;
    }

    /**
      The edit path of addPost: the first post whose id is `editId` is
      overwritten with the submitted id and content (the submitted id, not
      `editId`), with no duplicate check. An `editId` no post carries fails
      silently. A failed save leaves the overwrite in place.
     */
    method Edit(editId: string, post: Post, saveOk: bool) returns (ok: bool, alert: Option<Alert>)
      modifies this
      ensures FirstIndexOf(old(posts), editId).None? ==>
        !ok && alert.None? && posts == old(posts)
      ensures FirstIndexOf(old(posts), editId).Some? ==>
        var i := FirstIndexOf(old(posts), editId).value;
        |posts| == |old(posts)| && posts[i] == post &&
        (forall k :: 0 <= k < |posts| && k != i ==> posts[k] == old(posts)[k]) &&
        ok == saveOk && alert == Some(if saveOk then PostUpdated else SaveFailed)
      ensures FirstIndexOf(old(posts), editId).Some? && post.id == editId && UniqueIds(old(posts)) ==>
        UniqueIds(posts)
    {
      var index := FirstIndexOf(posts, editId);
      if index.None? {
        return false, None;
      }
      if post.id == editId && UniqueIds(posts) {
        EditSameIdKeepsUniqueIds(posts, editId, post);
      }
      // `{ id: post.id, content: post.content }` is the value `post` itself.
      posts := posts[index.value := post];
      if !saveOk {
        return false, Some(SaveFailed);
      }
      return true, Some(PostUpdated);
    }

    /** addPost: edit when `editId` is truthy, create otherwise. */
    method AddPost(post: Post, editId: Option<string>, saveOk: bool) returns (ok: bool, alert: Option<Alert>)
      modifies this
      ensures EditMode(editId) && FirstIndexOf(old(posts), editId.value).None? ==>
        !ok && alert.None? && posts == old(posts)
      ensures EditMode(editId) && FirstIndexOf(old(posts), editId.value).Some? ==>
        posts == old(posts)[FirstIndexOf(old(posts), editId.value).value := post] &&
        ok == saveOk && alert == Some(if saveOk then PostUpdated else SaveFailed)
      ensures !EditMode(editId) && HasId(old(posts), post.id) ==>
        !ok && alert == Some(IdAlreadyExists) && posts == old(posts)
      ensures !EditMode(editId) && !HasId(old(posts), post.id) && HasContent(old(posts), post.content) ==>
        !ok && alert == Some(ContentAlreadyExists) && posts == old(posts)
      ensures !EditMode(editId) && !HasId(old(posts), post.id) && !HasContent(old(posts), post.content) ==>
        posts == old(posts) + [post] && ok == saveOk &&
        alert == Some(if saveOk then PostCreated else SaveFailed)
    {
      if EditMode(editId) {
        ok, alert := Edit(editId.value, post, saveOk);
      } else {
        var a;
        ok, a := Create(post, saveOk);
        alert := Some(a);
      }
    }

    /**
      deletePost: after confirmation, keep the posts whose id differs, then
      save; the table is redrawn only when the save succeeded.
     */
    method DeletePost(postId: string, confirmed: bool, saveOk: bool)
      returns (alert: Option<Alert>, shown: Option<seq<Row>>)
      modifies this
      ensures !confirmed ==> posts == old(posts) && alert.None? && shown.None?
      ensures confirmed ==> posts == RemoveId(old(posts), postId)
      ensures confirmed && !HasId(old(posts), postId) ==> posts == old(posts)
      ensures confirmed && saveOk ==> alert == Some(PostDeleted) && shown == Some(Render(posts))
      ensures confirmed && !saveOk ==> alert == Some(DeleteFailed) && shown.None?
      ensures UniqueIds(old(posts)) ==> UniqueIds(posts)
      ensures UniqueContents(old(posts)) ==> UniqueContents(posts)
    {
      if !confirmed {
        return None, None;
      }
      if !HasId(posts, postId) {
        RemoveIdNoMatch(posts, postId);
      }
      if UniqueIds(posts) {
        RemoveIdKeepsUniqueIds(posts, postId);
      }
      if UniqueContents(posts) {
        RemoveIdKeepsUniqueContents(posts, postId);
      }
      posts := RemoveId(posts, postId);
      if !saveOk {
        return Some(DeleteFailed), None;
      }
      var rows := DisplayPosts();
      return Some(PostDeleted), Some(rows);
    }

    /** deleteAllPosts: after confirmation, empty the list and redraw the table. */
    method DeleteAllPosts(confirmed: bool) returns (alert: Option<Alert>, shown: Option<seq<Row>>)
      modifies this
      ensures !confirmed ==> posts == old(posts) && alert.None? && shown.None?
      ensures confirmed ==> posts == [] && alert == Some(AllCleared) && shown == Some([Placeholder])
    {
      if !confirmed {
        return None, None;
      }
      posts := [];
      var rows := DisplayPosts();
      return Some(AllCleared), Some(rows);
    }

    /**
      displayPosts: the placeholder row for an empty list, otherwise one row
      per post appended in list order.
     */
    method DisplayPosts() returns (rows: seq<Row>)
      ensures rows == Render(posts)
    {
      if |posts| == 0 {
        return [Placeholder];
      }
      rows := [];
      var i := 0;
      while i < |posts|
        invariant 0 <= i <= |posts|
        invariant |rows| == i
        invariant forall k :: 0 <= k < i ==> rows[k] == RowOf(posts[k])
      {
        rows := rows + [RowOf(posts[i])];
        i := i + 1;
      }
      assert rows == RowsOf(posts);
    }
  }

  /**
    A session on an empty store: one create succeeds, a second create with
    the same id and one with the same content are both refused, an edit
    replaces the content, and a delete empties the list again.
   */
  method Session() {
    var store := new PostList(Missing);
    assert store.posts == [];
    var ok, alert := store.AddPost(Post("1", "hello"), None, true);
    assert ok && store.posts == [Post("1", "hello")];
    assert store.posts[0].id == "1";
    ok, alert := store.AddPost(Post("1", "world"), None, true);
    assert !ok && alert == Some(IdAlreadyExists) && store.posts == [Post("1", "hello")];
    assert store.posts[0].id != "2";
    assert store.posts[0].content == "hello";
    ok, alert := store.AddPost(Post("2", "hello"), None, true);
    assert !ok && alert == Some(ContentAlreadyExists) && store.posts == [Post("1", "hello")];
    assert FirstIndexOf(store.posts, "1") == Some(0);
    ok, alert := store.AddPost(Post("1", "hi"), Some("1"), true);
    assert ok && store.posts == [Post("1", "hi")];
    var shown;
    alert, shown := store.DeletePost("1", true, true);
    assert store.posts == RemoveId([Post("1", "hi")], "1") == [];
    assert shown == Some([Placeholder]);
  }
}
