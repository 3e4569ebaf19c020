# MasterBlog API: a Dafny model of the post handlers

The MasterBlog backend is a small Flask service that keeps blog posts
(`id`, `title`, `content`, `author`, `date`) in one JSON file. Every request
loads the whole list and works on it. Only create, update and delete write
the list back, and only on success; list and search never write. This
project models what the five handlers of `backend/backend_app.py` do to that
list, and proves what they promise:

- **list/sort** (`GET /api/posts`): 400 for an empty `sort` or `direction`;
  otherwise Python's stable `sorted` by the named key, reversed exactly when
  `direction == "desc"`. The result is a permutation of the store, ordered by
  the key, and posts with equal keys keep their stored order.
- **create** (`POST /api/posts`): 405 for a missing or empty body, 404 when
  `title`, `content` or `author` is missing or empty. Both leave the store
  alone. Otherwise the new post gets `max(ids) + 1` (1 for an empty store) and
  the given date, and is appended. Its id is larger than every stored id, so
  unique ids stay unique.
- **update** (`PUT /api/posts/<id>`): 404 with the store unchanged for an
  unknown id. Otherwise only the first post with that id changes, and only in
  the fields the body carries.
- **delete** (`DELETE /api/posts/<id>`): 404 with the store unchanged for an
  unknown id. Otherwise exactly the first post with that id is removed and the
  rest keep their order. With unique ids, a second delete of the same id is a
  404.
- **search** (`GET /api/posts/search`): the posts, in stored order and each at
  most once, for which some field among title, content, author and date
  contains its non-empty query argument, ignoring case.

Files and modules:

- `posts.dfy` (`Posts`): the post record, the request body (a JSON object with
  string values), the statuses, and the field names with their values.
- `text.dfy` (`Text`): ASCII lower-casing and Python's `in` on strings, proved
  equal to "occurs at some position".
- `sorting.dfy` (`Sorting`): Python's ordering on ints and strings, and `sorted`
  as a stable insertion sort. Proved: permutation, ordered, stable.
- `collection.dfy` (`Collection`): the pure parts of the handlers. These are
  the next id, body validation, `next(...)` lookup by id, `list.remove`, the
  partial patch and the search filter, with their lemmas.
- `backend_app.dfy` (`BackendApp`): the class `PostStore`. Its field `posts` is
  the file's content. It has one method per handler, each written as the
  handler works: loops with `break`/early return, field-by-field
  assignments. Each method is proved against the functions of `Collection`
  and `Sorting`.

Three behaviours of the code that are easy to miss:

- A search with no query arguments returns nothing. An absent argument is
  `None`, and `if query` rejects it (backend/backend_app.py:119-120;
  `Collection.SearchWithoutQuery`).
- An absent `sort` or `direction` takes its default, `"id"` or `"asc"`
  (backend/backend_app.py:45-46). Only an empty one gives 400
  (backend/backend_app.py:47-48).
- An unknown sort key raises `KeyError` (a 500) only when there is a post to
  sort. With an empty store `sorted` never calls the key, so the answer is 200
  with an empty list.

## Model

| member | source | states |
|---|---|---|
| BackendApp.PostStore.constructor | backend/backend_app.py:30-34 | the store holds the given list, which stands for the list `load_posts` returns |
| BackendApp.PostStore.GetPosts | backend/backend_app.py:42-54 | empty `sort`/`direction` gives 400 and no list; an unknown key with a non-empty store gives 500; otherwise 200 with a permutation of the store, ordered by the key, descending iff direction is "desc", equal keys in stored order |
| BackendApp.PostStore.AddPost | backend/backend_app.py:56-77 | missing/empty body gives 405, a missing or empty title/content/author gives 404, both with the store unchanged; otherwise 201 and the store is the old one plus exactly one post at the end with id max+1 (1 if empty), the body's title/content/author and the given date; that id exceeds every stored id and unique ids stay unique |
| BackendApp.PostStore.DeletePost | backend/backend_app.py:80-90 | unknown id gives 404 with the store unchanged; otherwise 200, the first post with the id is removed, the length drops by one and the rest keep their order; with unique ids they stay unique and the id is gone |
| BackendApp.PostStore.UpdatePost | backend/backend_app.py:93-109 | unknown id gives 404 with the store unchanged; otherwise 200, only the first post with the id is replaced, by its patch with the body, and that post is returned; length and id uniqueness kept, and with unique ids the patched post is the only one with the id |
| BackendApp.PostStore.SearchPost | backend/backend_app.py:112-124 | always 200; the nested loop with `break` returns exactly the posts of the store that match the query, in stored order |
| Posts.ParseField | backend/backend_app.py:53 | a key name resolves to the field of that name and to nothing else; any other name is the KeyError case |
| Posts.TextOf | backend/backend_app.py:120 | the text read from a searched field is that field's value |
| Posts.KeyOf | backend/backend_app.py:53 | `post[sort_by]` for a known key: the id as a number, the other fields as strings |
| Text.Lower | backend/backend_app.py:120 | lower-casing keeps the length and lowers every character, leaving no upper-case letter |
| Text.ContainsSound | backend/backend_app.py:120 | when `pat in text` holds, pat occurs at some position of text |
| Text.ContainsComplete | backend/backend_app.py:120 | when pat occurs at some position of text, `pat in text` holds |
| Text.ContainsIffOccurs | backend/backend_app.py:120 | `pat in text` holds iff pat occurs at some position of text |
| Sorting.StrLeTotal | backend/backend_app.py:53 | any two strings are comparable by Python's string order |
| Sorting.StrLeTransitive | backend/backend_app.py:53 | Python's string order is transitive |
| Sorting.Insert | backend/backend_app.py:53 | inserting adds exactly the one post to the multiset of the list |
| Sorting.SortBy | backend/backend_app.py:53 | `sorted` returns a permutation of its input |
| Sorting.InsertOrdered | backend/backend_app.py:53 | inserting into an ordered list keeps it ordered |
| Sorting.SortOrdered | backend/backend_app.py:49-53 | the sorted list is ordered by the key, ascending, or descending when reversed |
| Sorting.InsertStable | backend/backend_app.py:53 | insertion puts the post ahead of every post with its key |
| Sorting.SortStable | backend/backend_app.py:53 | for every key value, the posts with that key appear in their original order, also when reversed |
| Collection.BodyMissing | backend/backend_app.py:60 | `not data`: no JSON body, or an empty object |
| Collection.Truthy | backend/backend_app.py:63 | `data.get(key)` is truthy: the key is present with a non-empty string |
| Collection.HasRequiredFields | backend/backend_app.py:63 | title, content and author are all present and non-empty |
| Collection.DeleteFirst | backend/backend_app.py:83-86 | the store after removing the first post with the id, or the store itself when no post has it |
| Collection.Patched | backend/backend_app.py:101-106 | the partial update: title, content and author are overwritten when the body has them and kept otherwise; id and date are never touched |
| Collection.QueryFor | backend/backend_app.py:119 | `request.args.get(field)` for each searched field, None when absent |
| Collection.Hits | backend/backend_app.py:119-120 | the query for the field is present and non-empty, and its lower-cased form is contained in the lower-cased field |
| Collection.Matches | backend/backend_app.py:118-122 | some field among title, content, author and date hits, so the inner loop appends the post and breaks |
| Collection.Search | backend/backend_app.py:116-122 | the posts of the store that match, in store order, each taken once per stored occurrence |
| Text.Contains | backend/backend_app.py:120 | Python's `pat in text`: pat is a prefix of text or of one of its suffixes |
| Sorting.StrLe | backend/backend_app.py:53 | Python's `<=` on strings: lexicographic by code point, a prefix before its extensions |
| Sorting.KeyLe | backend/backend_app.py:53 | the key comparison `sorted` uses: `<=` on ids, Python's string order on the other fields |
| Collection.MaxId | backend/backend_app.py:66 | the maximum is at least every id and is the id of some post |
| Collection.NextId | backend/backend_app.py:66 | the new id exceeds every stored id, is 1 for an empty store and otherwise one more than a stored id |
| Collection.AppendNextIdKeepsUnique | backend/backend_app.py:66-75 | appending a post with the next id keeps ids unique |
| Collection.NewPost | backend/backend_app.py:63-73 | the created post has a fresh id and non-empty title, content and author |
| Collection.FirstIndex | backend/backend_app.py:97 | finds the first post with the id, or reports that no post has it |
| Collection.FirstIndexUnique | backend/backend_app.py:97 | with unique ids the post found is the only one with the id |
| Collection.RemoveFirst | backend/backend_app.py:85 | `list.remove` drops exactly one occurrence of the value |
| Collection.RemoveFirstAt | backend/backend_app.py:83-85 | removing the first post with the id removes exactly its position, since no earlier element equals it |
| Collection.RemovalFacts | backend/backend_app.py:85 | dropping one position shortens the list by one, loses exactly that post, and keeps the rest in order |
| Collection.DeleteFirstRemovesOne | backend/backend_app.py:83-90 | a missing id changes nothing; otherwise one post less, exactly the first with the id gone, the rest in order |
| Collection.DeleteTwiceNotFound | backend/backend_app.py:83-90 | with unique ids, deleting keeps them unique and leaves no post with the deleted id |
| Collection.UpdateKeepsUnique | backend/backend_app.py:101-106 | a partial update keeps ids unique |
| Collection.SearchMembership | backend/backend_app.py:116-122 | a post is in the result iff it is stored and matches the query |
| Collection.SearchSubsequence | backend/backend_app.py:116-122 | the result is a subsequence of the store and holds each post at most as often as the store |
| Collection.SearchWithoutQuery | backend/backend_app.py:119-120 | with no non-empty query argument the result is empty |
| Collection.SearchIgnoresCase | backend/backend_app.py:120 | queries that differ only in letter case find the same posts |

## Left out

- Reading and writing the JSON file (`load_posts`, `save_posts`): the store is
  the field `posts`. A handler that fails leaves it unchanged, as the file is
  never written on those paths.
- The Flask routing, `request.args`, `get_json`, `jsonify`, CORS and the Swagger
  blueprint. Handlers take their arguments and return a status and a value.
  The text of the messages sent with errors and with a delete is not modelled.
- `datetime.now()`: the creation date is a parameter.
- Unicode case mapping of `str.lower()`: lowering is ASCII-only.
- JSON values that are not strings, and JSON bodies that are not objects. A
  body is a map from keys to strings. A falsy non-object body (`[]`, `0`, `""`)
  counts as missing. A truthy non-object body, which makes `.get` raise, is not
  modelled.
- UpdatePost: when the id exists, a request without a JSON body makes the
  source raise at `"title" in data`. That crash is not modelled: the body is always a map.
- Concurrent requests racing on the file: each handler runs alone on the
  store.
- The browser front end (`frontend/static/main.js`): DOM and `fetch` code with
  no logic of its own.
