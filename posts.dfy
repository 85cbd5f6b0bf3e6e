/**
  The values of the posts page: a post, the list of posts, the table rows
  rendered from it, and the pure operations on the list (lookup by id, the
  filter used by delete, the initial load), with the lemmas that relate them.
 */
module Posts {
  import opened Wrappers

  /** A post as the script stores it: a user-chosen id and free text. */
  datatype Post = Post(id: string, content: string)

  /** Some post in `s` carries `id`. */
  predicate HasId(s: seq<Post>, id: string) {
    exists k :: 0 <= k < |s| && s[k].id == id
  }

  /** Some post in `s` carries `content`. */
  predicate HasContent(s: seq<Post>, content: string) {
    exists k :: 0 <= k < |s| && s[k].content == content
  }

  /** No two posts share an id. */
  predicate UniqueIds(s: seq<Post>) {
    forall i, j :: 0 <= i < j < |s| ==> s[i].id != s[j].id
  }

  /** No two posts share a content. */
  predicate UniqueContents(s: seq<Post>) {
    forall i, j :: 0 <= i < j < |s| ==> s[i].content != s[j].content
  }

  // ---------------------------------------------------------------------------
  // Lookup
  // ---------------------------------------------------------------------------

  /** `posts.findIndex(p => p.id === id)`, with `None` for the result -1. */
  function FirstIndexOf(s: seq<Post>, id: string): (r: Option<nat>)
    ensures r.Some? ==> r.value < |s| && s[r.value].id == id
    ensures r.Some? ==> forall k :: 0 <= k < r.value ==> s[k].id != id
    ensures r.None? <==> !HasId(s, id)
  {
    if s == [] then None
    else if s[0].id == id then Some(0)
    else
      match FirstIndexOf(s[1..], id)
      case None =>
        assert forall k :: 1 <= k < |s| ==> s[k] == s[1..][k - 1];
        None
      case Some(k) => Some(k + 1)
  }

  /** `posts.find(post => post.id === id)` (getPostById), with `None` for `undefined`. */
  function Find(s: seq<Post>, id: string): (r: Option<Post>)
    ensures r.None? <==> !HasId(s, id)
    ensures r.Some? ==> r.value.id == id && r.value in s
    ensures r.Some? ==> FirstIndexOf(s, id).Some? && r.value == s[FirstIndexOf(s, id).value]
  {
    if s == [] then None
    else if s[0].id == id then Some(s[0])
    else
      var r := Find(s[1..], id);
      assert HasId(s[1..], id) ==> HasId(s, id) by {
        if HasId(s[1..], id) {
          var k :| 0 <= k < |s[1..]| && s[1..][k].id == id;
          assert s[k + 1].id == id;
        }
      }
      assert HasId(s, id) ==> HasId(s[1..], id) by {
        if HasId(s, id) {
          var k :| 0 <= k < |s| && s[k].id == id;
          assert k != 0 && s[1..][k - 1].id == id;
        }
      }
      r
  }

  /**
    The post `getPostById` returns (used to prefill the edit form) is the very
    post at the index `findIndex` gives `addPost` in edit mode: the first one
    with that id.
   */
  lemma FindIsFirstIndex(s: seq<Post>, id: string)
    ensures Find(s, id).Some? <==> FirstIndexOf(s, id).Some?
    ensures FirstIndexOf(s, id).Some? ==> Find(s, id) == Some(s[FirstIndexOf(s, id).value])
  {
  }

  // ---------------------------------------------------------------------------
  // Delete: the filter
  // ---------------------------------------------------------------------------

  /** `posts.filter(post => post.id !== id)`. */
  function RemoveId(s: seq<Post>, id: string): (r: seq<Post>)
    ensures forall p :: p in r <==> p in s && p.id != id
    ensures |r| <= |s|
    ensures !HasId(r, id)
  {
    if s == [] then []
    else
      var rest := RemoveId(s[1..], id);
      assert forall p :: p in s <==> p == s[0] || p in s[1..] by {
        assert s == [s[0]] + s[1..];
      }
      if s[0].id == id then rest else [s[0]] + rest
  }

  /** Deleting an id that no post carries leaves the list as it was. */
  lemma {:induction false} RemoveIdNoMatch(s: seq<Post>, id: string)
    requires !HasId(s, id)
    ensures RemoveId(s, id) == s
  {
    if s != [] {
      assert s[0].id != id;
      forall k | 0 <= k < |s[1..]| ensures s[1..][k].id != id {
        assert s[1..][k] == s[k + 1];
      }
      RemoveIdNoMatch(s[1..], id);
      assert s == [s[0]] + s[1..];
    }
  }

  /** The filter works segment by segment, so the survivors keep their relative order. */
  lemma {:induction false} RemoveIdConcat(a: seq<Post>, b: seq<Post>, id: string)
    ensures RemoveId(a + b, id) == RemoveId(a, id) + RemoveId(b, id)
  {
    if a != [] {
      assert (a + b)[1..] == a[1..] + b;
      RemoveIdConcat(a[1..], b, id);
    } else {
      assert a + b == b;
    }
  }

  /** With unique ids, the id of post `k` occurs neither before nor after it. */
  lemma UniqueIdOnlyAt(s: seq<Post>, k: nat)
    requires UniqueIds(s)
    requires k < |s|
    ensures !HasId(s[..k], s[k].id) && !HasId(s[k + 1..], s[k].id)
  {
  }

  /** Deleting an id that only one post carries removes that post and nothing else. */
  lemma RemoveIdSingle(before: seq<Post>, p: Post, after: seq<Post>)
    requires !HasId(before, p.id) && !HasId(after, p.id)
    ensures RemoveId(before + [p] + after, p.id) == before + after
  {
    RemoveIdNoMatch(before, p.id);
    RemoveIdNoMatch(after, p.id);
    assert before + [p] + after == before + ([p] + after);
    RemoveIdConcat(before, [p] + after, p.id);
    assert ([p] + after)[1..] == after;
  }

  /** With unique ids, deleting the id of post `k` removes exactly post `k`. */
  lemma DeleteAtUniqueId(s: seq<Post>, k: nat)
    requires UniqueIds(s)
    requires k < |s|
    ensures RemoveId(s, s[k].id) == s[..k] + s[k + 1..]
  {
    UniqueIdOnlyAt(s, k);
    assert s[k..] == [s[k]] + s[k + 1..];
    assert s == s[..k] + [s[k]] + s[k + 1..];
    RemoveIdSingle(s[..k], s[k], s[k + 1..]);
  }

  /** With unique ids, a delete of an id that is present shrinks the list by one. */
  lemma RemoveIdUniqueDropsOne(s: seq<Post>, id: string)
    requires UniqueIds(s)
    requires HasId(s, id)
    ensures |RemoveId(s, id)| == |s| - 1
  {
    var k :| 0 <= k < |s| && s[k].id == id;
    DeleteAtUniqueId(s, k);
  }

  /** A list with one post at its head is unique iff its tail is and the head's id is new. */
  lemma UniqueIdsCons(p: Post, s: seq<Post>)
    ensures UniqueIds([p] + s) <==> !HasId(s, p.id) && UniqueIds(s)
  {
    var t := [p] + s;
    assert forall j :: 0 <= j < |s| ==> t[j + 1] == s[j];
    if UniqueIds(t) {
      forall k | 0 <= k < |s| ensures s[k].id != p.id {
        assert t[0].id != t[k + 1].id;
      }
      forall i, j | 0 <= i < j < |s| ensures s[i].id != s[j].id {
        assert t[i + 1].id != t[j + 1].id;
      }
    }
    if !HasId(s, p.id) && UniqueIds(s) {
      forall i, j | 0 <= i < j < |t| ensures t[i].id != t[j].id {
        assert t[j] == s[j - 1];
        if i > 0 { assert t[i] == s[i - 1]; }
      }
    }
  }

  /** Content counterpart of UniqueIdsCons. */
  lemma UniqueContentsCons(p: Post, s: seq<Post>)
    ensures UniqueContents([p] + s) <==> !HasContent(s, p.content) && UniqueContents(s)
  {
    var t := [p] + s;
    assert forall j :: 0 <= j < |s| ==> t[j + 1] == s[j];
    if UniqueContents(t) {
      forall k | 0 <= k < |s| ensures s[k].content != p.content {
        assert t[0].content != t[k + 1].content;
      }
      forall i, j | 0 <= i < j < |s| ensures s[i].content != s[j].content {
        assert t[i + 1].content != t[j + 1].content;
      }
    }
    if !HasContent(s, p.content) && UniqueContents(s) {
      forall i, j | 0 <= i < j < |t| ensures t[i].content != t[j].content {
        assert t[j] == s[j - 1];
        if i > 0 { assert t[i] == s[i - 1]; }
      }
    }
  }

  /** A delete introduces no id or content that was not there before. */
  lemma RemoveIdNothingNew(s: seq<Post>, id: string, p: Post)
    ensures !HasId(s, p.id) ==> !HasId(RemoveId(s, id), p.id)
    ensures !HasContent(s, p.content) ==> !HasContent(RemoveId(s, id), p.content)
  {
  }

  /** A delete keeps the id invariant. */
  lemma {:induction false} RemoveIdKeepsUniqueIds(s: seq<Post>, id: string)
    requires UniqueIds(s)
    ensures UniqueIds(RemoveId(s, id))
  {
    if s != [] {
      var t := s[1..];
      assert s == [s[0]] + t;
      UniqueIdsCons(s[0], t);
      RemoveIdKeepsUniqueIds(t, id);
      if s[0].id != id {
        RemoveIdNothingNew(t, id, s[0]);
        UniqueIdsCons(s[0], RemoveId(t, id));
      }
    }
  }

  /** A delete keeps the content invariant. */
  lemma {:induction false} RemoveIdKeepsUniqueContents(s: seq<Post>, id: string)
    requires UniqueContents(s)
    ensures UniqueContents(RemoveId(s, id))
  {
    if s != [] {
      var t := s[1..];
      assert s == [s[0]] + t;
      UniqueContentsCons(s[0], t);
      RemoveIdKeepsUniqueContents(t, id);
      if s[0].id != id {
        RemoveIdNothingNew(t, id, s[0]);
        UniqueContentsCons(s[0], RemoveId(t, id));
      }
    }
  }

  // ---------------------------------------------------------------------------
  // Create and edit: what they do to the invariants
  // ---------------------------------------------------------------------------

  /** Appending a post whose id and content are both new keeps both invariants. */
  lemma AppendKeepsUnique(s: seq<Post>, p: Post)
    requires !HasId(s, p.id) && !HasContent(s, p.content)
    ensures UniqueIds(s) ==> UniqueIds(s + [p])
    ensures UniqueContents(s) ==> UniqueContents(s + [p])
  {
  }

  /**
    An edit that writes back the id it was opened with (what the read-only id
    field of the form does) keeps the id invariant.
   */
  lemma EditSameIdKeepsUniqueIds(s: seq<Post>, editId: string, p: Post)
    requires UniqueIds(s)
    requires FirstIndexOf(s, editId).Some?
    requires p.id == editId
    ensures UniqueIds(s[FirstIndexOf(s, editId).value := p])
  {
  }

  /**
    The edit path makes no duplicate check: starting from a list whose ids and
    contents are unique, overwriting post "2" with the content of post "1"
    leaves two posts with the same content.
   */
  lemma EditCanDuplicateContent()
    ensures var s := [Post("1", "hello"), Post("2", "world")];
            UniqueIds(s) && UniqueContents(s) &&
            FirstIndexOf(s, "2") == Some(1) &&
            !UniqueContents(s[1 := Post("2", "hello")])
  {
    var s := [Post("1", "hello"), Post("2", "world")];
    var t := s[1 := Post("2", "hello")];
    assert t[0].content == t[1].content;
    assert "1" != "2";
    assert "hello" != "world";
  }

  /**
    The edit path makes no duplicate check, on any list: when some other post
    already has the submitted content, the overwrite leaves two posts with
    that content.
   */
  lemma EditDuplicatesContent(s: seq<Post>, editId: string, p: Post, j: nat)
    requires FirstIndexOf(s, editId).Some?
    requires j < |s| && j != FirstIndexOf(s, editId).value
    requires s[j].content == p.content
    ensures !UniqueContents(s[FirstIndexOf(s, editId).value := p])
  {
    var i := FirstIndexOf(s, editId).value;
    var t := s[i := p];
    assert t[i].content == t[j].content;
    if i < j {
      assert !(t[i].content != t[j].content);
    } else {
      assert !(t[j].content != t[i].content);
    }
  }

  // ---------------------------------------------------------------------------
  // Rendering
  // ---------------------------------------------------------------------------

  /**
    One row of the table body: the placeholder shown for an empty list, or a
    post's id and content with the id written into its edit and delete
    buttons. The model takes that id as the target the button passes on;
    the script writes it unescaped into an `onclick` attribute and a URL.
   */
  datatype Row =
    | Placeholder
    | PostRow(id: string, content: string, editTarget: string, deleteTarget: string)

  function RowOf(p: Post): Row {
    PostRow(p.id, p.content, p.id, p.id)
  }

  /** One row per post, in list order, as the `forEach` in displayPosts appends them. */
  function RowsOf(s: seq<Post>): (r: seq<Row>)
    ensures |r| == |s|
    ensures forall k :: 0 <= k < |s| ==> r[k] == RowOf(s[k])
  {
    if s == [] then [] else [RowOf(s[0])] + RowsOf(s[1..])
  }

  /** The rows displayPosts writes into the table body. */
  function Render(s: seq<Post>): (r: seq<Row>)
    ensures s == [] ==> r == [Placeholder]
    ensures s != [] ==> |r| == |s|
    ensures s != [] ==> forall k :: 0 <= k < |s| ==>
      r[k].PostRow? && r[k].id == s[k].id && r[k].content == s[k].content
    ensures s != [] ==> forall k :: 0 <= k < |s| ==>
      r[k].PostRow? && r[k].editTarget == s[k].id && r[k].deleteTarget == s[k].id
  {
    if s == [] then [Placeholder] else RowsOf(s)
  }

  /**
    With unique ids, the id written into the buttons of row `k` addresses
    post `k`: looked up, it finds post `k`, and deleted, it removes post `k`
    and nothing else.
   */
  lemma RowTargetsAddressTheirPost(s: seq<Post>, k: nat)
    requires UniqueIds(s)
    requires k < |s|
    ensures Render(s)[k].PostRow?
    ensures Find(s, Render(s)[k].editTarget) == Some(s[k])
    ensures RemoveId(s, Render(s)[k].deleteTarget) == s[..k] + s[k + 1..]
  {
    var id := s[k].id;
    FindIsFirstIndex(s, id);
    var i := FirstIndexOf(s, id).value;
    assert s[i].id == s[k].id;
    assert i == k;
    DeleteAtUniqueId(s, k);
  }

  // ---------------------------------------------------------------------------
  // Initial load
  // ---------------------------------------------------------------------------

  /**
    What `localStorage.getItem('posts')` produced: the call threw, there was
    no item, or an item whose text `JSON.parse` either turned into a list of
    posts or rejected (`None`).
   */
  datatype StoredItem =
    | Unreadable
    | Missing
    | Item(text: string, parsed: Option<seq<Post>>)

  /** The initial value of `posts`: the stored list, or empty on any failure or empty text. */
  function Load(item: StoredItem): (r: seq<Post>)
    ensures r != [] ==> item.Item? && item.text != "" && item.parsed == Some(r)
    ensures item.Item? && item.text != "" && item.parsed.Some? ==> r == item.parsed.value
  {
    match item
    case Item(text, parsed) =>
      if text != "" && parsed.Some? then parsed.value else []
    case _ => []
  }
}
