# Prodivity Blogger: the post state container, in Dafny

The blog is a single React component, `App`. It keeps three pieces of state:

- the `posts` array;
- `currentPost`, which is `null`, `undefined` or a post;
- the `isEditing` flag.

It writes the whole array to local storage after every change. Five handlers change this state: view, add, edit, delete and back. Two inline callbacks change it too: the form's save and the detail view's edit. Three guards pick which of the form, list and detail views are rendered.

This project models that container and proves what each step does to it.

- `posts.dfy` (module `Posts`) holds the records and the pure array transformations the handlers build. `find` becomes `Find`, the spread-append becomes `Append`, `map` becomes `Replace` and `filter` becomes `Remove`. Lemmas state their properties: order, lengths, uniqueness of ids, and the no-op cases.
- `views.dfy` (module `Views`) holds the three render guards as one function, `Screens`. Its contract is the full table of which views appear in which state.
- `app.dfy` (module `BlogApp`) holds the class `App`. Its fields are `posts`, `currentPost`, `isEditing` and `stored`, the local-storage entry. Each handler is a method whose contract gives the whole new state in terms of the old one. Every method keeps the invariant `Valid()`: reading the store back gives the collection in memory, and the editor is open only on a selected post. `EditSession` replays an add, view, edit and save session against those contracts.

Modelling choices:

- A post is `Post(id, fields)`. The `fields` map holds the title, the body and any other string field the form collects.
- The object the form hands to `onSave` is a `Draft`. Its `id` is optional, because only a form seeded from an existing post can carry one. An add overwrites any id with the clock reading. An edit whose draft has no id matches no entry.
- `currentPost` is a `Selection`: `Null`, `Undefined` or `Selected(post)`. `find` yields `undefined` on a miss, and the form's guard tests `=== null` while the other two guards test truthiness. So after viewing a missing id only the list is shown, and the create form is not.

Where the code departs from the behaviour the app evidently intends, the model follows the code:

- A malformed stored entry makes `JSON.parse` throw. It is not read as an empty collection. Only a missing entry reads as empty (`Fetch`).
- Ids are unique only when every add gets an unused timestamp. Two adds in the same millisecond produce a duplicate id (`Posts.SameInstantDuplicates`).
- An edit replaces every entry with the draft's id, not just one. With unique ids that is exactly one entry (`Posts.ReplaceAt`).
- A view of a missing id leaves `currentPost` `undefined`, not `null`. That selects different views, as described above.

## Model

| member | source | states |
|---|---|---|
| `Posts.Find` | src/App.js:23 | The result is never `null`. It is `undefined` exactly when no entry has the id. Otherwise it is an entry of the collection with that id. |
| `Posts.FindFirst` | src/App.js:23 | `find` returns the entry at the first index holding the id. |
| `Posts.FindUnique` | src/App.js:22-24 | With unique ids, viewing a post's id selects exactly that post. |
| `Posts.Append` | src/App.js:29 | An add appends one post at the end. The earlier entries are unchanged and in order. The new post has the draft's fields and the timestamp as its id. The set of ids grows by exactly that timestamp. |
| `Posts.AppendUnique` | src/App.js:29 | An add leaves ids unique if and only if they were unique before and the timestamp was not yet in use. |
| `Posts.SameInstantDuplicates` | src/App.js:29 | Two adds with the same clock reading always produce duplicate ids, so the code alone does not guarantee uniqueness. |
| `Posts.AddAllUnique` | src/App.js:28-31 | Any run of adds with distinct, unused timestamps grows the collection by one entry per add and keeps ids unique. |
| `Posts.Replace` | src/App.js:35-37 | The length is unchanged. Every entry whose id equals the draft's becomes the draft. Every other entry stays at its position. |
| `Posts.ReplaceKeepsIds` | src/App.js:35-37 | An edit never changes the set of ids, and keeps ids unique if and only if they were unique. |
| `Posts.ReplaceAbsent` | src/App.js:35-37 | A draft with no id, or with an id not in the collection, leaves the collection as it was. |
| `Posts.ReplaceAt` | src/App.js:35-37 | With unique ids, an edit changes exactly the one entry with the draft's id, in place. |
| `Posts.ReplaceIdempotent` | src/App.js:34-38 | Saving the same edit twice changes nothing the second time. |
| `Posts.Remove` | src/App.js:43 | A delete shortens the collection by the number of entries carrying the id. |
| `Posts.RemoveMembers` | src/App.js:43 | A delete keeps exactly the entries whose id differs. |
| `Posts.RemoveAppend` | src/App.js:43 | Filtering distributes over concatenation, so the kept entries stay in their original order. |
| `Posts.RemoveAbsent` | src/App.js:43 | Deleting an id that is not present leaves the collection unchanged. |
| `Posts.RemoveAt` | src/App.js:43 | With unique ids, deleting the id at index i gives the collection with exactly that entry cut out. |
| `Posts.CountUnique` | src/App.js:43 | With unique ids, an id occurs once if present and zero times if absent. |
| `Posts.RemoveLength` | src/App.js:42-44 | With unique ids, a delete drops the length by one when the id is present and by zero when it is absent. |
| `Posts.RemoveKeepsUnique` | src/App.js:43 | A delete keeps ids unique. |
| `Posts.RemoveIdempotent` | src/App.js:42-44 | Deleting the same id twice changes nothing the second time. |
| `Views.Screens` | src/App.js:71-89 | Some view is always shown, and the detail view is never shown with another. While editing, only the form is shown. In state (null, false) the form and the list are both shown. In state (undefined, false) only the list is shown. With a post selected and no editing, only the detail view is shown. |
| `BlogApp.App.constructor` | src/App.js:8-20 | On mount the collection is what the store reads back, a missing entry giving the empty array. The state is (null, false), which shows the form and the list. |
| `BlogApp.App.ViewPost` | src/App.js:22-26 | Sets `currentPost` to the first post with the id, or to `undefined` on a miss. Always clears `isEditing`. Leaves the collection and the store alone. The result is the detail view for a present id and only the list for a missing one. |
| `BlogApp.App.AddPost` | src/App.js:28-32 | The collection becomes the old one with the stamped draft appended. The store then equals the new collection. The view state is unchanged. Ids stay unique when the timestamp is fresh. |
| `BlogApp.App.EditPost` | src/App.js:34-40 | The collection becomes the edited one, and the store equals it. The view state is unchanged. The set of ids is unchanged, and so is whether they are unique. |
| `BlogApp.App.DeletePost` | src/App.js:42-51 | The collection becomes the filtered one, and the store equals it. The view state resets to (null, false) exactly when the selected post has the deleted id; otherwise it is unchanged. Unique ids stay unique. A shown detail post stays in the collection. |
| `BlogApp.App.Back` | src/App.js:53-56 | Always gives (null, false), with the collection and the store unchanged. |
| `BlogApp.App.Save` | src/App.js:74-82 | Edits when a post is selected and adds otherwise. The store then equals the new collection. The state ends at (null, false), showing the form and the list. |
| `BlogApp.App.EnterEdit` | src/App.js:93-96 | Gives (post, true), which shows only the form. The collection and the store are unchanged. |

## Left out

- Rendering, styling, the brand image and the developer link (src/App.js:58-110) are presentational. Only the three guards that choose views are modelled.
- Local storage and JSON serialization are foreign browser APIs. The store is the abstract value `Blob`, either `Missing` or `Saved(posts)`. A stored entry that is malformed JSON, or that parses to something other than an array, makes the source throw or misbehave. That case is not modelled.
- Field values are modelled as strings. Whatever a JSON round trip would lose or change in other value types is not captured.
- `Date.now()` is a clock, so the timestamp is the parameter `now`. Freshness is a stated precondition where uniqueness is claimed.
- React's asynchronous state updates, batching, stale closures and the first render before the loading effect runs are not modelled. Each handler is one atomic step. The constructor folds mount and load into one step.
- The `BlogForm`, `BlogList` and `BlogPost` components are not part of this model. The model does not know which fields the form collects or whether its draft carries an id, so the `Draft` id is optional. It also does not know whether the list and detail views pass only ids and posts that exist, so every handler accepts any argument.
- A stored post without an `id`, or with a non-numeric `id`, is not modelled. `Post.id` is an integer.
