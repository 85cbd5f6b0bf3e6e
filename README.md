# Posts page: a verified model of the in-memory post list

The script behind the posts page keeps every post in a module-level array
`posts` of `{id, content}` records. It loads that array from local storage
when the page starts, and then:

- `addPost` creates posts. A linear scan rejects a duplicate id first and a
  duplicate content second.
- `addPost` also edits a post when the `edit` query parameter is set.
- `deletePost` deletes by id with a filter, and `deleteAllPosts` clears the list.
- `getPostById` looks a post up.
- `displayPosts` renders the list as table rows.

This project models that list and those operations in Dafny and proves what
they do.

- `Wrappers` (wrappers.dfy): the `Option` type. It stands for the script's
  `null`, `undefined` and `-1` results.
- `Posts` (posts.dfy): the values (`Post`, `Row`, `StoredItem`) and the pure
  operations: `FirstIndexOf` for `findIndex`, `Find` for `find`, `RemoveId` for
  the filter, `Render` for the rows and `Load` for the initial value. It also
  holds the uniqueness predicates and the lemmas that relate all of these.
- `Store` (store.dfy): the class `PostList`. Its field `posts` is the array the
  script mutates, and its methods are `addPost` (split into `Create` and
  `Edit`), `deletePost`, `deleteAllPosts` and `displayPosts`, with the loops
  the script has. `Session` proves the outcome of one short session:
  a create, two refused creates, an edit and a delete.

The browser's signals are parameters:

- the `edit` query parameter is `editId: Option<string>`;
- the user's answer to `confirm(...)` is `confirmed`;
- whether `localStorage.setItem` succeeded is `saveOk`;
- what `localStorage.getItem` and `JSON.parse` produced at start-up is a `StoredItem`.

Alerts are returned as values of `Alert`. The rows that `displayPosts`
writes are returned as `seq<Row>`. A row is its id, its content and the id
written into its edit and delete buttons; the HTML markup is not modelled.

The model follows the code in these details, which a reader might not expect:

- A failed save does not restore the list. `push`, the index assignment and
  the filter all happen before `setItem`. So a create or an edit whose save
  fails still changes `posts`, and a delete whose save fails has already
  filtered the list but does not redraw the table.
- The edit path writes the submitted `post.id`, not `editId`, and makes no
  duplicate check. Only the read-only id field of the form keeps the id
  fixed, and nothing keeps the content unique (`EditDuplicatesContent`,
  `EditCanDuplicateContent`).
- The empty string as `edit` parameter is falsy, so it selects create mode
  (`EditMode`).
- Delete removes every post with the given id, not exactly one.
  `RemoveIdUniqueDropsOne` proves that it removes exactly one when ids are
  unique.

## Model

| member | source | states |
|---|---|---|
| `Posts.FirstIndexOf` | script.js:33 | `findIndex` by id: the index returned holds a post with that id and no earlier index does. The result is none exactly when no post has the id. |
| `Posts.Find` | script.js:123-125 | `getPostById`: the result is none exactly when no post has the id. Otherwise it is the post at the first index with that id. |
| `Posts.FindIsFirstIndex` | script.js:123-125 | `find` and `findIndex` agree. The post that prefills the edit form is the post at the index the edit path overwrites. |
| `Posts.RemoveId` | script.js:105 | The filter: a post survives if and only if it was in the list and its id differs. No survivor has the id, and the list does not grow. |
| `Posts.RemoveIdNoMatch` | script.js:105 | Deleting an id that no post has leaves the list unchanged. |
| `Posts.RemoveIdConcat` | script.js:105 | The filter distributes over concatenation, so survivors keep their original relative order. |
| `Posts.RemoveIdSingle` | script.js:105 | If only one post has the id, deleting that id removes that post and leaves the posts before and after it in order. |
| `Posts.DeleteAtUniqueId` | script.js:105 | With unique ids, deleting the id of post `k` yields the list without post `k`. |
| `Posts.RemoveIdUniqueDropsOne` | script.js:105 | With unique ids, deleting an id that is present shrinks the list by exactly one. |
| `Posts.RemoveIdKeepsUniqueIds` | script.js:105 | A delete keeps ids unique. |
| `Posts.RemoveIdKeepsUniqueContents` | script.js:105 | A delete keeps contents unique. |
| `Posts.AppendKeepsUnique` | script.js:59-67 | Appending a post whose id and content both passed the checks keeps ids and contents unique. |
| `Posts.EditSameIdKeepsUniqueIds` | script.js:33-35 | An edit that writes back the id it was opened with keeps ids unique. |
| `Posts.EditDuplicatesContent` | script.js:33-35 | On any list, if a post other than the first match already has the submitted content, the overwrite leaves two posts with that content: the edit path checks nothing. |
| `Posts.EditCanDuplicateContent` | script.js:31-35 | The edit path can break content uniqueness: on a list with unique ids and contents, overwriting post "2" with post "1"'s content leaves two equal contents. |
| `Posts.RowsOf` | script.js:87-97 | One row per post, in list order. Row `k` shows post `k`'s id and content. |
| `Posts.Render` | script.js:84-97 | An empty list renders as exactly one placeholder row. Otherwise there is one row per post, in order, carrying the post's id and content, and its edit and delete buttons carry the post's id. |
| `Posts.RowTargetsAddressTheirPost` | script.js:93-94 | With unique ids, the id written into row `k`'s edit button finds post `k`, and the id written into its delete button removes post `k` and nothing else. |
| `Posts.Load` | script.js:17-24 | The initial list: a non-empty result is exactly what was stored and parsed. A non-empty stored text that parses gives the parsed list. A missing item, empty text, a storage failure or a parse failure gives the empty list. |
| `Store.PostList.constructor` | script.js:17-24 | The list starts as `Load` of what storage held. |
| `Store.PostList.ScanDuplicates` | script.js:49-58 | The loop's flags are set exactly when some post has the candidate's id, and exactly when some post has its content. |
| `Store.PostList.Create` | script.js:48-76 | An id clash returns false with the id alert and no change, even if the content also clashes. A content clash with a fresh id returns false with the content alert and no change. Otherwise the post is appended after all earlier posts, the result equals the save outcome, and a failed save keeps the append. Unique ids and contents stay unique. |
| `Store.PostList.Edit` | script.js:31-46 | With no post having `editId`, it returns false with no alert and no change. Otherwise only the first such index is overwritten, with the submitted post: length and all other entries stay the same, and the result equals the save outcome. If the submitted id is `editId`, unique ids stay unique. |
| `Store.PostList.AddPost` | script.js:26-78 | A truthy `editId` selects the edit path and anything else selects the create path. The state and result are those of that path. |
| `Store.PostList.DeletePost` | script.js:103-116 | Unconfirmed: nothing changes. Confirmed: exactly the posts with a different id remain, in order, and the list is unchanged if none matched. The table is redrawn only after a successful save. Uniqueness of ids and of contents is kept. |
| `Store.PostList.DeleteAllPosts` | script.js:2-9 | Unconfirmed: nothing changes. Confirmed: the list is empty whatever its size before, the table shows the placeholder row, and the cleared alert is raised. |
| `Store.PostList.DisplayPosts` | script.js:80-101 | The rows equal `Render` of the list: the placeholder row for an empty list, otherwise one row per post in list order. |

## Left out

- `Posts.RowTargetsAddressTheirPost`: a button's target is modelled as the raw post id. The script writes the id unescaped into the `onclick` attribute and, for edit, unencoded into the `?edit=` URL. Ids containing `'`, `"`, `\`, `&`, `+`, `#`, `%` or an HTML entity therefore reach `deletePost`, `getPostById` and `addPost` changed, or not at all. The lemma holds only for ids that pass through both unchanged.

- `localStorage` reads, writes and removal, and `JSON.parse`/`JSON.stringify`: browser storage and library serialisation. Only their outcomes enter the model: `saveOk`, and the `StoredItem` read at start-up. The save/reload round trip is therefore not modelled.
- `Load`: stored JSON that parses to something other than a list of posts (for example `null`) is not modelled. The parse outcome is given as a list or a failure.
- `Store.PostList.DeleteAllPosts`: assumes `localStorage.removeItem` returns normally. The script calls it outside any `try`, and a throw there would leave the list uncleared; that case is not modelled.
- The `confirm` and `alert` dialogs and `console.error`: user-interface side effects. Answers are `confirmed` parameters, and alerts are returned values.
- URL parsing and navigation (`URLSearchParams`, `window.location`, `editPost`): browser plumbing. `editId` is a parameter.
- DOM lookups, `innerHTML`, the `postBody` presence check, the `readOnly` flag, relabelling of the form, and the event-listener wiring, including the submit handler and its confirmation before an update. These are user interface. The id lock of the form is not enforced by `addPost`, and the model does not add it.
- The HTML markup and emoji of each row: a row is modelled abstractly as its id, content and button targets. The script escapes nothing, and the model adds no escaping.
- The remote-database variant of the page is not part of this model.
