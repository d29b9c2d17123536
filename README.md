# Community forum: a verified model

This project models the forum script of the QuickAid site (`jsFile/form2.js`).
The script keeps a collection of posts in browser storage. Each post has a
title, content, category, author, like count, list of likers, comments, share
count and creation time. The handlers modelled here read and rewrite that
collection:

- the list view filters it by tab, category and search text;
- the category control lists its distinct categories;
- the create form prepends a new post;
- the comment modal appends a comment to one post;
- the like button records the current demo user's like.

Two helpers are modelled too. One is the HTML escaping the script applies to
the title, content, category and author name on each card, and to comment
text and author names in the comment modal. The other is the "just now / 5m /
3h / 2d" relative-time label.

Modules:

- `Text` (`text.dfy`): JavaScript's `trim` (the exact ECMAScript whitespace
  set), `toLowerCase` (ASCII) and `includes`, with `startsWith` as a helper.
- `Escape` (`escape.dfy`): `Utils.escapeHtml` as its chain of five `replaceAll`
  calls. It is proved equal to escaping each character on its own, and its
  output is proved safe and reversible.
- `RelativeTime` (`relative_time.dfy`): `Utils.timeAgo`, with timestamps as
  integer milliseconds and the clock as a parameter.
- `Seqs` (`seqs.dfy`): `Array.prototype.filter`, subsequences and first
  occurrences. These are generic helpers.
- `Posts` (`posts.dfy`): the records and each handler's effect on the stored
  collection, as pure functions with lemmas. The store invariants are unique
  identifiers and a like count equal to the number of distinct likers.
- `ForumPage` (`forum.dfy`): class `Forum` holds the script's state:
  - the stored collection (`Storage.load`/`Storage.save` read and overwrite
    the `posts` field);
  - the post objects captured by the rendered cards;
  - `activeCommentPostId`;
  - `currentTab`.

  Its mutating handlers are each proved against the `Posts` function that
  specifies them. `OpenComments` and `CloseComments` only set or clear the
  active post.

`currentTab` is declared as `'all'` and never reassigned (form2.js:508). The
tab buttons pass their own tab to `renderAllPosts` (form2.js:416). The category
and search handlers pass `currentTab`, so they always filter as if the "all"
tab were selected (form2.js:426, 435). `Forum.ChangeCategory` and
`Forum.Search` state exactly that.

## Model

| member | source | states |
|---|---|---|
| `Text.Trim` | jsFile/form2.js:477-478 | `trim` returns a slice of the input with only whitespace cut off before and after it, with no whitespace left at either end; it is empty exactly when the input has no non-whitespace character |
| `Text.TrimIdempotent` | jsFile/form2.js:233 | trimming an already trimmed text changes nothing |
| `Text.LowerChar` | jsFile/form2.js:380 | an ASCII upper-case letter becomes its lower-case letter (code + 32); every other character is unchanged |
| `Text.Lower` | jsFile/form2.js:380 | `toLowerCase` keeps the length and lower-cases each character, leaving no upper-case ASCII letter |
| `Text.LowerIdempotent` | jsFile/form2.js:380 | lower-casing twice is lower-casing once |
| `Text.LowerEqual` | jsFile/form2.js:380-384 | two strings lower-case alike exactly when they have the same length and each pair of characters is equal or the same ASCII letter in the other case, so the category and search comparisons ignore ASCII case and nothing else |
| `Text.Includes` | jsFile/form2.js:383-384 | `includes` as a left-to-right scan of start positions; its meaning is stated by `Text.IncludesIff` |
| `Text.IncludesIff` | jsFile/form2.js:383-384 | `includes` holds exactly when the needle occurs at some index of the text |
| `Escape.ReplaceAll` | jsFile/form2.js:19 | a single-character `replaceAll` leaves no occurrence of the character when the replacement has none, and introduces no character from elsewhere |
| `Escape.ReplaceSpecials` | jsFile/form2.js:19-23 | the five `replaceAll` calls in source order, `&` first; what they give is stated by `Escape.ReplaceSpecialsChar` and `Escape.EscapeHtmlIsPerChar` |
| `Escape.ReplaceSpecialsChar` | jsFile/form2.js:19-23 | for one character, the five replacements give exactly its entity: no later replacement rewrites an entity an earlier one made |
| `Escape.EscapeHtml` | jsFile/form2.js:16-24 | an empty input gives empty text, any other goes through the five replacements; its properties are stated by `Escape.EscapeHtmlIsPerChar` and `Escape.EscapeHtmlSafe` |
| `Escape.EscapeHtmlIsPerChar` | jsFile/form2.js:16-24 | `escapeHtml` equals escaping each character independently, so `&` introduced by an entity is never escaped again |
| `Escape.EscapeHtmlSafe` | jsFile/form2.js:16-24 | empty in gives empty out; no `<`, `>`, `"` or `'` survives; every `&` begins one of the five entities; unescaping gives the input back; text without markup characters is unchanged |
| `RelativeTime.ElapsedSeconds` | jsFile/form2.js:35 | the elapsed seconds are the floor of the millisecond difference divided by 1000, also for a date in the future |
| `RelativeTime.Decimal` | jsFile/form2.js:38 | the number's text is non-empty, all digits, without a leading zero |
| `RelativeTime.ParseDecimalInverse` | jsFile/form2.js:38 | the printed count can be read back as the number |
| `RelativeTime.AgeOf` | jsFile/form2.js:36-41 | the bucket chosen from the elapsed seconds by repeated floor division; stated on the seconds directly by `RelativeTime.AgeBuckets` and `RelativeTime.AgeBounds` |
| `RelativeTime.Label` | jsFile/form2.js:37-41 | the text of a bucket, "just now" or the count followed by `m`, `h` or `d`; `RelativeTime.LabelInjective` and `RelativeTime.ParseDecimalInverse` state that it loses nothing |
| `RelativeTime.TimeAgo` | jsFile/form2.js:34-42 | `timeAgo` at a given instant: the label of the bucket of the floored elapsed seconds; stated by `RelativeTime.ElapsedSeconds`, `RelativeTime.AgeBuckets` and `RelativeTime.LabelInjective` |
| `RelativeTime.AgeBuckets` | jsFile/form2.js:34-42 | under 60 s is "just now"; under an hour is minutes = s/60 (1 to 59); under a day is hours = s/3600 (1 to 23); otherwise days = s/86400, all by floor division |
| `RelativeTime.AgeBounds` | jsFile/form2.js:37-41 | a count N of minutes, hours or days means at least N and fewer than N + 1 whole units have passed |
| `RelativeTime.LabelInjective` | jsFile/form2.js:36-41 | two different ages never print the same label |
| `Seqs.Filter` | jsFile/form2.js:377-384 | `filter` keeps the elements that satisfy the predicate, in order; stated by `Seqs.FilterSpec` |
| `Seqs.FilterSpec` | jsFile/form2.js:377-384 | the result of `filter` is a subsequence of the input (order kept), and each value occurs in it as often as in the input when it satisfies the predicate and not at all otherwise |
| `Posts.FilterPosts` | jsFile/form2.js:377-386 | the tab, category and search filters applied in source order; stated by `Posts.FilterPostsIsShown` and `Posts.FilterPostsSpec` |
| `Posts.FilterPostsIsShown` | jsFile/form2.js:377-386 | the chain of tab, category and search filters is a single filter by the conjunction of the filters that are switched on |
| `Posts.FilterPostsSpec` | jsFile/form2.js:377-386 | the list is an order-preserving subsequence of the store; a post is in it exactly when it is stored and passes every switched-on filter (`my`: author id "me"; `doctor`: role "doctor"; case-insensitive category equality; case-insensitive substring of title or content), as often as it is stored |
| `Posts.DistinctNonEmpty` | jsFile/form2.js:401 | `[...new Set(cats.filter(Boolean))]` built one value at a time; stated by `Posts.DistinctNonEmptySpec` |
| `Posts.DistinctNonEmptySpec` | jsFile/form2.js:401 | the `Set` of truthy values holds each non-empty value once, in order of first occurrence |
| `Posts.CategoryList` | jsFile/form2.js:401 | the category options of the stored posts; stated by `Posts.CategoryListSpec` |
| `Posts.CategoryListSpec` | jsFile/form2.js:401 | the category options are exactly the non-empty categories of the stored posts, each once, ordered by where each first occurs in the store |
| `Posts.SubmitPost` | jsFile/form2.js:477-493 | the post is created exactly when trimmed title, trimmed content and category are non-empty, otherwise the store is unchanged; a created post is at index 0 with the given id and time, no likes, likers, comments or shares, the trimmed texts, and the demo doctor as author when the author type is "doctor" or the current user otherwise; the old posts follow in order |
| `Posts.SubmitKeepsWellFormed` | jsFile/form2.js:486-493 | with an identifier not yet in use, creating a post keeps identifiers unique and like counts consistent |
| `Posts.IndexOfId` | jsFile/form2.js:237 | `find` by id gives the first post with that id, or none when no post has it |
| `Posts.SubmitComment` | jsFile/form2.js:233-248 | a text that trims to empty is refused; an unknown or cleared active id reports "not found"; both leave the store unchanged; no comment changes the number of posts |
| `Posts.SubmitCommentSpec` | jsFile/form2.js:240-248 | a posted comment appends exactly one comment by the current user with the trimmed text to the first post with the active id, changes nothing else in that post and no other post, and raises the store's comment total by one |
| `Posts.SubmitCommentKeepsWellFormed` | jsFile/form2.js:236-248 | commenting keeps identifiers unique and like counts consistent |
| `Posts.LikeCard` | jsFile/form2.js:337-340 | after a click the card's post is liked by "me"; if it was not, likes rise by exactly one, "me" is appended to `likedBy` and nothing else changes; a duplicate-free, consistent like list stays so |
| `Posts.LikeCardIdempotent` | jsFile/form2.js:338-344 | clicking like twice has the effect of clicking once |
| `Posts.ReplaceById` | jsFile/form2.js:341 | the saved collection is the loaded one with every post of the card's id replaced by the card's post |
| `Posts.SaveLike` | jsFile/form2.js:336-345 | the handler saves exactly when the card was not liked yet, and then every stored post with the card's id becomes the card's liked post (`LikeCard` of the card); posts with another id are unchanged, the number of posts stays the same, and an already liked card saves nothing |
| `Posts.SaveLikeOverwrites` | jsFile/form2.js:341 | the saved post takes the card's comments, whatever the store held |
| `Posts.StaleLikeLosesComment` | jsFile/form2.js:341 | render, comment from the modal, then like: the stored post ends with no comment |
| `Posts.LikeInStore` | jsFile/form2.js:336-345 | corrected like on the stored post: the number of posts stays the same; its effect is stated by `Posts.LikeInStoreSpec` |
| `Posts.LikeInStoreSpec` | jsFile/form2.js:336-345 | the corrected like keeps every comment and every post of another id, likes exactly when the first post with that id is not yet liked by "me", reports a missing post exactly when no post has the id, changes nothing unless it likes, replaces exactly that post by its liked version (`LikeCard`) when it likes, and raises the like total by exactly that one |
| `Posts.LikeInStoreIdempotent` | jsFile/form2.js:338 | a second corrected like changes nothing |
| `Posts.FreshCardAgrees` | jsFile/form2.js:336-345 | with unique ids, the handler as written and the corrected like agree when the card is the current stored post |
| `Posts.LikeKeepsWellFormed` | jsFile/form2.js:336-345 | both likes keep identifiers unique and like counts consistent, the written one when the card's own like list was consistent |
| `ForumPage.Forum.constructor` | jsFile/form2.js:7-10 | a missing or malformed stored value loads as the empty collection |
| `ForumPage.Forum.RenderAllPosts` | jsFile/form2.js:369-395 | the cards become `FilterPosts` of the store and the options `CategoryList` of the store |
| `ForumPage.Forum.ChangeCategory` | jsFile/form2.js:424-427 | the category change renders with the "all" tab, whatever tab button was clicked |
| `ForumPage.Forum.Search` | jsFile/form2.js:433-436 | the search renders with the trimmed query and the "all" tab |
| `ForumPage.Forum.FindPost` | jsFile/form2.js:237 | the scan returns the first index with the id, or none when no post has it |
| `ForumPage.Forum.OpenComments` | jsFile/form2.js:177-183 | the post becomes the active one and the result says whether it is stored |
| `ForumPage.Forum.CloseComments` | jsFile/form2.js:165-169 | closing the modal clears the active post |
| `ForumPage.Forum.SubmitComment` | jsFile/form2.js:232-248 | the store and the notice are those of `Posts.SubmitComment` for the active post |
| `ForumPage.Forum.SubmitPost` | jsFile/form2.js:475-493 | the store and the notice are those of `Posts.SubmitPost` |
| `ForumPage.Forum.Like` | jsFile/form2.js:336-345 | the card becomes `LikeCard` of itself and the store that of `Posts.SaveLike` |

## Left out

- Lower: models `toLowerCase` on ASCII letters only; JavaScript lower-cases all of Unicode.
- Escape.EscapeHtmlSafe: the input is a string. The falsy non-string inputs of `escapeHtml` (`null`, `undefined`, `0`, `false`) and the `String(...)` conversion are not modelled.
- Storage: `localStorage`, `JSON.parse` and `JSON.stringify` are not modelled. The store is the `posts` field. A missing or malformed value is a `None` passed to the constructor. Storage-quota errors are left out.
- Stored records always have every field. The script's defaults for fields missing from older data (`p.category || ''`, `post.likes || 0`, `post.likedBy || []`, `p.author?.id`) are not modelled.
- Identifiers and time: the values from `Date.now()`, `Math.random()` and `new Date().toISOString()` are parameters (`id`, `commentId`, `now`). Uniqueness of a new id is assumed only by `SubmitKeepsWellFormed`.
- Dates are integer milliseconds. Date parsing is not modelled, nor the label of an invalid date (`NaN`). The comment modal's sort by `createdAt` (form2.js:195) is left out because it depends on that parsing.
- `Utils.fileToDataUrl` and the image preview: the post's image is given to `SubmitPost` as an optional data URL.
- Presentation: the markup of `renderPostCard` and the comment modal, `Toast` (its messages are the outcome values), `updateCommentCountOnCard`, and the animation timers.
- The share button: it only copies the page address to the clipboard and changes no data.
- The category options (form2.js:403-404) are written into the select's markup without `Utils.escapeHtml`, unlike the same field in the card header (form2.js:303). A category containing `<` or `"` therefore reaches that markup unchanged. Markup is not modelled, so this is noted here and not proved.
- Re-selecting the previous category option after `populateCategoryDropdown` is a DOM `select` behaviour and is left out.
- The re-render after creating a post (form2.js:503) is left out: `SubmitPost` only changes the store, and a caller follows it with `RenderAllPosts`.
- Event wiring (`attachTabs`, `attachMenuToggle`, the init functions) is left out, except the category and search handlers, which show how `currentTab` is used.
- Other versions of this forum module toggle likes and duplicate a post on share. `form2.js` does neither, and the model follows `form2.js`.
- `jsFile/careTips.js`, `scripts/userToggle.js`, `script.js` and `scripts/script.js` are not part of this model. They are static content and menu toggles.

## Findings

| source | as written | input that shows it | evidently intended | confidence | as-written member | corrected member |
|---|---|---|---|---|---|---|
| jsFile/form2.js:336-345 | The like handler checks and updates the card's copy of the post, taken when the list was rendered. It then saves that copy over the stored post with the same id. | Render a post `p` with no comments. Post the comment "Thanks" on `p` from the comment modal: the card is not re-rendered. Click like on `p`'s card. The stored `p` now has no comments. | Like the post as currently stored, keeping comments added since rendering. | high; not executed | `Posts.SaveLike`, shown by `Posts.StaleLikeLosesComment` and `Posts.SaveLikeOverwrites` | `Posts.LikeInStore`, with `Posts.LikeInStoreSpec` and `Posts.LikeInStoreIdempotent` |

`ForumPage.Forum.Like` keeps the behaviour as written, because the class models
the page as it runs. `Posts.FreshCardAgrees` shows that the two versions agree
whenever the card is the current stored post.
