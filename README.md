# Diary posts: list page and new-post form

A model of the client-side logic of a small content-management tool for
short text posts ("diary entries") with a draft / published / archived
lifecycle:

- the **post list page** (`app/page.tsx`): the list shown for a search text
  and a status filter (`'all'` shows the published posts, `'draft'` and
  `'archived'` their own status); the single status change each post card
  offers (publish a draft, archive a published post, restore an archived
  one); the Drafts and Archived toggles; and the delete and status-update
  handlers, which send nothing for an empty id;
- the **new-post form** (`app/posts/page.tsx`): the tag list editor
  (add a trimmed, new, non-empty tag; remove a tag by value) and the submit
  flow (reject an empty title or content, send `{title, content, status,
  tags}`, reset `saving` on every path).

Files:

- `options.dfy` — module `Options`: the `Option` type both pages' models
  use for "no request" and "nothing sent".
- `array_ops.dfy` — module `ArrayOps`: `Array.prototype.filter`, the
  subsequence relation (an increasing embedding of positions) and arrays
  without repetitions, with their lemmas.
- `text.dfy` — module `Text`: `toLowerCase` over ASCII, `includes` as a
  left-to-right search proved equal to "occurs at some position", and `trim`
  over ECMAScript's whitespace and line-terminator characters.
- `post_list.dfy` — module `PostList`: `Status`, `Post`, the filter, the
  status buttons, the toggles and the requests of the list page.
- `new_post.dfy` — module `NewPost`: the tag editor and submit as functions,
  and the class `NewPostForm` holding the form's state, whose handlers are
  proved to update it as those functions say and to keep the tag list free
  of repetitions.

Pure parts of the source (the `filter` predicate, the per-status button
choice, the toggles, the new tag arrays) are functions with lemmas. The form
state that the handlers overwrite is a class with `modifies` clauses.

The functions that compute what the source computes, and the lines they
follow: `NewPost.AddTag` is `handleAddTag` (app/posts/page.tsx:16-22),
`NewPost.RemoveTag` is `handleRemoveTag` (:24-26) and `NewPost.Submit` is
`handleSubmit` (:28-56); `PostList.FilteredNotes` is `filteredNotes`
(app/page.tsx:91-98), `PostList.StatusActions` the status buttons of a card
(:114-131 and :157-164), `PostList.ToggleDrafts` and
`PostList.ToggleArchived` the two toggles (:195 and :205),
`PostList.DeleteRequest` the guard and request of `handleDelete` (:44-54) and
`PostList.StatusUpdateRequest` those of `handleStatusUpdate` (:63-77);
`Text.Trim` is the `trim()` call of app/posts/page.tsx:17 and
`Text.Includes` the `includes` call of app/page.tsx:92. The lemmas in the
table below state what these functions guarantee.

The network, the confirmation dialog and navigation are parameters. The
user's answer to `confirm` is the `confirmed` argument of
`PostList.DeleteRequest`. How the create request ends is a `SaveResponse`
argument of `NewPostForm.HandleSubmit`. Navigating to the list is its
`navigated` result.

## Model

| member | source | states |
|---|---|---|
| `PostList.ParseStatus` | app/page.tsx:13 | a post's status is one of three names; reading a name back gives the status with that name, and any other string names no status |
| `PostList.StatusNameRoundTrip` | app/page.tsx:13 | every status is read back from its name |
| `PostList.StatusNameInjective` | app/page.tsx:13 | two statuses have the same name only when they are the same status |
| `PostList.FilteredNotes` | app/page.tsx:91-98 | every listed post is in `notes` and passes the search and the status test; no post of `notes` that passes both is dropped |
| `PostList.FilteredIsSubsequence` | app/page.tsx:91 | the listed posts are a subsequence of `notes`, in the same relative order |
| `PostList.FilteredCount` | app/page.tsx:91-98 | a post that passes is listed as many times as it occurs in `notes`, any other post zero times |
| `PostList.MatchesFilterIff` | app/page.tsx:93-96 | `'all'` admits exactly the published posts, `'draft'` exactly the drafts, `'archived'` exactly the archived posts |
| `PostList.AllListsOnlyPublished` | app/page.tsx:94-95 | under `'all'` every listed post is published, so drafts and archived posts never appear |
| `PostList.StatusFilterListsOnlyThatStatus` | app/page.tsx:96 | under `'draft'` or `'archived'` each listed post's status name equals the filter value |
| `PostList.MatchesSearchIff` | app/page.tsx:92 | a post passes the search exactly when the lower-cased search text occurs at some position of the lower-cased title |
| `PostList.EmptySearchMatchesAll` | app/page.tsx:92 | an empty search matches every title |
| `PostList.EmptySearchListsByStatus` | app/page.tsx:91-98 | with an empty search the listed posts are those of `notes` that pass the status test, with their counts |
| `PostList.SearchIgnoresCase` | app/page.tsx:92 | lower-casing the search text or the title beforehand does not change whether a post matches |
| `PostList.StatusActionsFollowLifecycle` | app/page.tsx:114-164 | each post card offers exactly one status change, and its target is the only lifecycle successor of the post's status (draft to published, published to archived, archived to published) |
| `PostList.NoActionTargetsDraft` | app/page.tsx:114-164 | no status button targets draft, and none targets the post's current status |
| `PostList.NeverBackToDraft` | app/page.tsx:114-164 | after one or more presses of a post's status button it is never a draft again, and it alternates with period two |
| `PostList.CardRequestFollowsLifecycle` | app/page.tsx:114-164 | for a post with an id, its status button sends a PATCH to that post's status path whose body is a lifecycle successor of its status and never draft |
| `PostList.ToggleDraftsFlips` | app/page.tsx:195-202 | Drafts goes to `'draft'` from any other filter and back to `'all'` from `'draft'`; twice from `'all'` or `'draft'` gives the start, twice from `'archived'` gives `'all'`; it reads "Show All" exactly when pressing it returns to `'all'` |
| `PostList.ToggleArchivedFlips` | app/page.tsx:205-212 | the Archived toggle behaves the same way with `'archived'` in place of `'draft'` |
| `PostList.ToggleThenList` | app/page.tsx:195-205 | after a toggle press the status test admits exactly the published posts (back at `'all'`) or exactly the posts of the toggle's status |
| `PostList.EmptyIdGuards` | app/page.tsx:44-77 | a delete is sent exactly when the id is non-empty and the user confirms, a status update exactly when the id is non-empty, each to a path that names that id |
| `PostList.DeletePathRoundTrip` | app/page.tsx:52 | the id is read back from the delete path |
| `PostList.StatusPathRoundTrip` | app/page.tsx:71 | the id is read back from the status path |
| `PostList.PathsAreDistinct` | app/page.tsx:52-71 | a status update never goes to a post's delete path, and each path names one id |
| `PostList.StatusBodyInjective` | app/page.tsx:76 | different statuses are sent as different JSON bodies |
| `Text.ToLowerShape` | app/page.tsx:92 | lower-casing keeps the length and leaves no ASCII capital letter |
| `Text.IncludesIff` | app/page.tsx:92 | the substring search succeeds exactly when the text occurs at some position |
| `Text.TrimEmptyIff` | app/posts/page.tsx:17-18 | trimming gives the empty string exactly when the input is all whitespace |
| `Text.TrimIsSlice` | app/posts/page.tsx:17 | the trimmed tag is the piece of the input between its leading and trailing whitespace |
| `Text.TrimIdempotent` | app/posts/page.tsx:17 | trimming a trimmed tag changes nothing |
| `NewPost.AddTagKeepsNoDuplicates` | app/posts/page.tsx:18-19 | if the tags have no repetitions before Add, they have none after |
| `NewPost.AddTagAppends` | app/posts/page.tsx:17-20 | an accepted add puts exactly the trimmed input at the end, keeps the earlier tags in order and clears the input |
| `NewPost.AddTagRejects` | app/posts/page.tsx:18-21 | a blank trimmed input or a tag already present leaves both the tags and the input unchanged |
| `NewPost.AcceptsTagIff` | app/posts/page.tsx:17-18 | an add is accepted exactly when the input has a non-whitespace character and its trimmed text is not yet a tag |
| `NewPost.RemoveTag` | app/posts/page.tsx:25 | after removal no copy of the tag is left, and every other tag still is |
| `NewPost.RemoveTagKeepsOthers` | app/posts/page.tsx:25 | removal keeps every other tag in its original order and with its original count |
| `NewPost.RemoveTagKeepsNoDuplicates` | app/posts/page.tsx:25 | removal keeps a list without repetitions without repetitions |
| `NewPost.RemoveAbsentTag` | app/posts/page.tsx:25 | removing a tag that is not present changes nothing |
| `NewPost.AddThenRemove` | app/posts/page.tsx:16-26 | adding a tag that is not yet present and then removing it restores the original list |
| `NewPost.ButtonStatusNames` | app/posts/page.tsx:131-139 | the Post button submits `'published'` and Save Draft submits `'draft'`, the names of those statuses |
| `NewPost.SubmitValidates` | app/posts/page.tsx:32-42 | nothing is sent exactly when the title or content is empty, and then the fill-in error is shown; otherwise exactly `{title, content, status, tags}` is sent |
| `NewPost.SubmitOutcome` | app/posts/page.tsx:45-54 | the form goes to the list only after a successful save and then shows no error; a rejection always shows an error, the fallback "Failed to save" when the backend gives no message |
| `NewPost.NewPostForm.constructor` | app/posts/page.tsx:9-14 | the form starts with empty fields, no tags, not saving and no error |
| `NewPost.NewPostForm.SetTitle` | app/posts/page.tsx:72 | typing sets the title |
| `NewPost.NewPostForm.SetContent` | app/posts/page.tsx:80 | typing sets the content |
| `NewPost.NewPostForm.SetTagInput` | app/posts/page.tsx:92 | typing sets the tag input |
| `NewPost.NewPostForm.HandleAddTag` | app/posts/page.tsx:16-22 | updates the tags and the input as the add rule says, and keeps the tags free of repetitions |
| `NewPost.NewPostForm.HandleRemoveTag` | app/posts/page.tsx:24-26 | updates the tags as the removal rule says, and keeps them free of repetitions |
| `NewPost.NewPostForm.HandleSubmit` | app/posts/page.tsx:28-56 | sends, shows the error and navigates as the submit rule says for the form's fields and the chosen button; `saving` is false at the end on every path |

## Left out

- The API routes (`app/api/proxy/route.ts`, `app/api/proxy1/[id]/route.ts`, `app/api/proxy2/[id]/status/route.ts`) are not modelled; the model stops at the request the page sends. Besides forwarding with `fetch`, they validate and map responses. `app/api/proxy1/[id]/route.ts` answers 400 with an error message for a missing id, a missing body, a body that is not JSON or a body without `status` (:51-63, :77-80). It passes a backend 204 on with an empty body (:33-35) and turns a failed GET into `{message: 'Post not found'}` with the backend's status (:13-16). `app/api/proxy2/[id]/status/route.ts` turns a failed update into `{error: 'Failed to update status'}` with the backend's status, and reads an empty backend body as `{}` (:17-23).
- Request headers: `PostList.Request` has no headers, so the `Content-Type: application/json` header of the status update (app/page.tsx:73-75) is not modelled.
- `fetchNotes`, and what `handleDelete` and `handleStatusUpdate` do after their request (reading the response, reloading the list, `alert`, `console` logging): these are I/O. The list is the `notes` argument of `PostList.FilteredNotes`.
- The `loading` and `error` state of the list page and all rendering and styling. Disabling the form's buttons while `saving` is UI-only.
- `PostList.MatchesSearch`: `toLowerCase` is modelled on the ASCII letters only. Other characters are compared unchanged, so the model's case-insensitivity covers ASCII only.
- `Text.Trim`: models `trim` over ECMAScript's WhiteSpace and LineTerminator characters, listed explicitly: tab, line feed, vertical tab, form feed, carriage return, U+0020, U+00A0, U+1680, U+2000 to U+200A, U+2028, U+2029, U+202F, U+205F, U+3000 and U+FEFF. Every other character is kept.
- `NewPost.Submit`: the payload is the structured object `Payload`, not its `JSON.stringify` text. A `message` in a rejection body that is not a string is not modelled: `SaveResponse.Rejected` carries a string, empty when the body has none.
- The timestamps `created_at` and `updated_at` of a post are opaque strings that no logic reads, so `PostList.Post` has no such fields.
- The confirmation dialog, the request's outcome and navigation are parameters or results (see above), not effects.
