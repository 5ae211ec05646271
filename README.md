# hultagram: a verified model of the request rules and the "time since" text

hultagram is a small photo-sharing web application. Users upload an image with
a caption, browse a feed of posts (newest first), open a post, comment on it
and like it. This project models its decision logic in Dafny:

- `app.dfy` (module `App`): the upload check `allowed_file`, and the handlers
  `index`, `create_post`, `post_detail`, `add_comment` and `like_post`. They
  run over an abstract store, the class `Store`. Its posts are a map from id to
  `Post` and its comments are a sequence. The store invariant `Store.Valid`
  says that every comment names an existing post and has a non-empty author
  and content, that comment ids increase, and that like counts are never
  negative. Every handler preserves it.
- `models.dfy` (module `Models`): the `Post` and `Comment` records and
  `time_since`. `time_since` is split into `Classify`, which sorts an elapsed
  time into "just now", minutes, hours or days, and `Render`, which writes the
  text. `ParseAge` reads the text back, so the text is proved to lose nothing.
- `decimal.dfy` (module `Decimal`): the decimal notation Python's f-strings
  give a count, and reading it back.
- `wrappers.dfy` (module `Wrappers`): `Option`, used for form fields and
  uploads that may be missing.

Inputs the source takes from the system are parameters. These are the random
token from `uuid.uuid4()`, the sanitised name from `secure_filename`, the
configured set of allowed extensions, and the clock reading "now" (whole
seconds).

Comments are flat: each belongs to exactly one post.

## Model

| member | source | states |
|---|---|---|
| `App.AfterLastDot` | app.py:21-22 | None exactly when the name has no dot; otherwise the text after a dot that has no dot after it, i.e. after the last dot |
| `App.Lower` | app.py:22 | lower-casing keeps the length, maps each character in place, and leaves no capital letter A-Z in the result |
| `App.LowerIdempotent` | app.py:22 | lower-casing an already lower-cased name changes nothing |
| `App.LowerSlice` | app.py:22 | lower-casing part of a name gives the same text as that part of the lower-cased name |
| `App.LowerKeepsDots` | app.py:21-22 | lower-casing neither adds nor removes a dot |
| `App.LastDotIsUnique` | app.py:21-22 | a dot with no dot after it is the one `rsplit(".", 1)` splits at |
| `App.AfterLastDotOfLower` | app.py:21-22 | a name and its lower-cased form have a last dot in the same cases, and the extension of the lower-cased name is the lower-cased extension |
| `App.AllowedFile` | app.py:19-23 | false for any name without a dot; true exactly when some dot with no dot after it is followed by text whose lower-cased form is an allowed extension |
| `App.AllowedFileIgnoresCase` | app.py:22 | a name and its lower-cased form get the same answer |
| `App.UniqueFilename` | app.py:45-46 | the stored name starts with the random token and ends with "_" followed by the sanitised name |
| `App.AuthorName` | app.py:68 | the author is never empty: the submitted name when present and non-empty, "Anonymous" otherwise |
| `App.CommentsOf` | models.py:14 | a post's comments are the stored comments whose post id is that post's, each kept as often as it is stored (as a multiset) and no other comment |
| `App.NewestFirstListsEachPostOnce` | app.py:35 | the feed has one entry per stored post, each entry is the post stored under its id, and no id repeats |
| `App.NewestFirst` | app.py:35 | the feed has as many entries as there are posts |
| `App.NewestFirstHoldsEveryPost` | app.py:35 | every stored post is in the feed |
| `App.NewestFirstIsNewestFirst` | app.py:35 | timestamps never increase along the feed |
| `App.Store.Valid` | models.py:35-42 | the store invariant implies that every comment belongs to a stored post and has an author, and that no two comments share an id |
| `App.Store.constructor` | app.py:12-13 | the store on a new database is empty and satisfies the store invariant |
| `App.Store.CreatePost` | app.py:39-55 | a post is added exactly when an upload is present and `AllowedFile` accepts its name; it is the `NewPost` with an unused id, the unique file name, the caption and the current time; otherwise nothing changes; the invariant is kept |
| `App.Store.PostDetail` | app.py:58-61 | 404 exactly when no post has the id; otherwise that post and its comments, which are exactly `CommentsOf` the store's comments for that id |
| `App.Store.AddComment` | app.py:64-77 | 404 and no change for a missing post; refusal and no change for missing or empty content; otherwise exactly one comment is appended, with the route's post id, the `AuthorName` and the content; posts never change; the invariant (every comment names an existing post) is kept |
| `App.Store.LikePost` | app.py:80-87 | 404 and no change for a missing post; otherwise that post's likes go up by exactly 1, and every other post, every comment and the id counters stay the same |
| `Models.NewPost` | models.py:6-14 | a new post carries the given id, file name and caption, the current time as its timestamp and 0 likes, and reads "just now" at that time |
| `Models.NewComment` | models.py:35-42 | a new comment carries the given id, author, content and post id, the current time as its timestamp, and reads "just now" at that time |
| `Models.Classify` | models.py:20-29 | "just now" exactly when fewer than 60 seconds have elapsed, negative times included; minutes exactly for 60 to 3599 s (count 1 to 59), hours for 3600 to 86399 s (count 1 to 23), days from 86400 s (count at least 1) |
| `Models.ClassifyCountsWholeUnits` | models.py:23-29 | from one minute on, the count is the number of whole units elapsed: count × unit ≤ seconds < (count + 1) × unit, i.e. floor division |
| `Models.Suffix` | models.py:24-30 | the text after the count starts with a space and ends with " ago", and the letter before " ago" is "s" exactly when the count is not 1 |
| `Models.SuffixSpelled` | models.py:24-30 | the text after the count is exactly " minute ago" or " minutes ago" for minutes, " hour ago" or " hours ago" for hours, " day ago" or " days ago" for days, singular exactly when the count is 1 |
| `Models.Render` | models.py:22-30 | the text is "just now" exactly for `JustNow`; any other age's text starts with a digit and ends with " ago" |
| `Models.Describe` | models.py:20-30 | the text is "just now" exactly when fewer than 60 seconds have elapsed |
| `Models.DescribeSpellsTheUnit` | models.py:22-30 | from 60 s to 3599 s the text is the count `seconds // 60` followed by " minute ago" (count 1) or " minutes ago"; from 3600 s to 86399 s, `seconds // 3600` and " hour ago" or " hours ago"; from 86400 s, `seconds // 86400` and " day ago" or " days ago" |
| `Models.DescribeReadsBack` | models.py:20-30 | reading the shown text back gives exactly the bucket and count of `Classify` |
| `Models.RenderRoundTrip` | models.py:22-30 | reading a rendered age back, by its digits and the literal unit words, gives that age: the text determines the count and unit |
| `Models.PluralUnlessOne` | models.py:22-30 | from one minute on, the unit word ends in "s" exactly when the count is not 1 |
| `Models.Post.TimeSince` | models.py:16-30 | a post's age text is "just now" exactly when `now - timestamp` is under a minute, a timestamp in the future included |
| `Models.Comment.TimeSince` | models.py:44-58 | the same for a comment |
| `Models.CommentTimeSinceMatchesPost` | models.py:44-58 | a comment and a post with equal timestamps show the same text at the same moment |
| `Decimal.Show` | models.py:24 | the count's decimal text is non-empty, all digits, reads back to the count, and starts with "0" only for zero |

## Left out

- Flask routing, `render_template`, `flash` messages, `url_for`, `redirect` and `like_post`'s fallback from the referrer to the index page: these are framework plumbing. A handler's outcome is reduced to 404, refused, or done.
- `file_url` (app.py:26-30): it only builds a URL for templates.
- The GET branch of `create_post`: it only renders the form.
- The database session, commits and query execution. Ids come from counters in the store, starting at 1. A post's comments come back in store (insertion) order, because the relationship in the source gives no ordering.
- `App.NewestFirst`: a ghost definition of the sorted query result, not an executable sort. Posts with equal timestamps may appear in any order, as the database does not fix it.
- Saving the uploaded file to disk and creating the uploads folder (I/O).
- `uuid.uuid4()` and `secure_filename`: their results are the `token` and `secured` parameters of `CreatePost`.
- `ALLOWED_EXTENSIONS`: it is defined in config.py, which is not part of this model, so it is the `allowed` parameter.
- `datetime.utcnow()` and `total_seconds()`: time is whole seconds and "now" is a parameter. Fractions of a second are not modelled.
- `App.Lower`: lower-cases ASCII letters only. Python's `str.lower` covers all of Unicode and can change a string's length. `AllowedFileIgnoresCase` holds for this ASCII lower-casing only. Under Python's rules it can fail: a final capital sigma lower-cases by context, so `"a.Σ".lower()` is `"a.ς"` while `"Σ".lower()` is `"σ"`. With the allowed set {"σ"}, `allowed_file("a.Σ")` is true and `allowed_file("a.ς")` is false.
- Column length limits (`String(255)`, `String(100)`) are not enforced, and neither are nullability rules beyond those the handlers guarantee.
- `__repr__` of both records: debugging output only.
- Concurrent requests, for example two likes racing and losing an update: concurrency is out of scope.
