/** The post list page: which posts are listed for a search text and a status
    filter, the status change each post card offers, the two filter toggles,
    and the requests the delete and status buttons make. */
module PostList {
  import ArrayOps
  import opened Text
  import opened Options

  /** The three lifecycle states of a post. */
  datatype Status = Published | Draft | Archived

  /** The name a status has in the posts' JSON. */
  function StatusName(s: Status): string {
    match s
    case Published => "published"
    case Draft => "draft"
    case Archived => "archived"
  }

  /** Reads a status name back; every other string names no status. */
  function ParseStatus(name: string): (r: Option<Status>)
    ensures r.Some? ==> StatusName(r.value) == name
    ensures r.None? ==> forall s: Status :: StatusName(s) != name
  {
    if name == "published" then Some(Published)
    else if name == "draft" then Some(Draft)
    else if name == "archived" then Some(Archived)
    else None
  }

  /** Every status survives being written out and read back. */
  lemma StatusNameRoundTrip(s: Status)
    ensures ParseStatus(StatusName(s)) == Some(s)
  {
  }

  /** Distinct statuses have distinct names. */
  lemma StatusNameInjective(s: Status, t: Status)
    ensures StatusName(s) == StatusName(t) <==> s == t
  {
    StatusNameRoundTrip(s);
    StatusNameRoundTrip(t);
  }

  /** A post as the list receives it (its timestamps are not modelled). */
  datatype Post = Post(id: string, title: string, content: string, status: Status, tags: seq<string>)

  /** The list filter of the page: `'all'`, `'draft'` or `'archived'`. */
  datatype ListFilter = All | DraftOnly | ArchivedOnly

  /** The string value the page keeps for a filter. */
  function FilterName(f: ListFilter): string {
    match f
    case All => "all"
    case DraftOnly => "draft"
    case ArchivedOnly => "archived"
  }

  /** The lower-cased title contains the lower-cased search text. */
  predicate MatchesSearch(p: Post, search: string) {
    Includes(ToLower(p.title), ToLower(search))
  }

  /** Under `'all'` only published posts pass; otherwise the post's status
      name must equal the filter's value. */
  predicate MatchesFilter(p: Post, filter: ListFilter) {
    if filter == All then p.status == Published
    else StatusName(p.status) == FilterName(filter)
  }

  /** The predicate the list's `filter` call applies to each post. */
  predicate Shown(p: Post, search: string, filter: ListFilter) {
    MatchesSearch(p, search) && MatchesFilter(p, filter)
  }

  /** `filteredNotes`: every listed post comes from `notes` and passes both
      tests, and no post of `notes` that passes both is dropped. */
  function FilteredNotes(notes: seq<Post>, search: string, filter: ListFilter): (r: seq<Post>)
    ensures |r| <= |notes|
    ensures forall i :: 0 <= i < |r| ==> r[i] in notes && Shown(r[i], search, filter)
    ensures forall i :: 0 <= i < |notes| && Shown(notes[i], search, filter) ==> notes[i] in r
  {
    ArrayOps.Filter(notes, p => Shown(p, search, filter))
  }

  /** The listed posts appear in `notes` in the same relative order. */
  lemma FilteredIsSubsequence(notes: seq<Post>, search: string, filter: ListFilter)
    ensures ArrayOps.IsSubsequence(FilteredNotes(notes, search, filter), notes)
  {
    ArrayOps.FilterIsSubsequence(notes, p => Shown(p, search, filter));
  }

  /** A post that passes is listed as often as it occurs in `notes`; any other
      post not at all. */
  lemma FilteredCount(notes: seq<Post>, search: string, filter: ListFilter, p: Post)
    ensures multiset(FilteredNotes(notes, search, filter))[p]
         == if Shown(p, search, filter) then multiset(notes)[p] else 0
  {
    ArrayOps.FilterCount(notes, q => Shown(q, search, filter), p);
  }

  /** Each filter admits exactly one status: `'all'` the published posts, the
      other two their own status, so drafts and archived posts never appear
      under `'all'`. */
  lemma MatchesFilterIff(p: Post, filter: ListFilter)
    ensures filter == All ==> (MatchesFilter(p, filter) <==> p.status == Published)
    ensures filter == DraftOnly ==> (MatchesFilter(p, filter) <==> p.status == Draft)
    ensures filter == ArchivedOnly ==> (MatchesFilter(p, filter) <==> p.status == Archived)
  {
  }

  /** Under `'all'` every listed post is published. */
  lemma AllListsOnlyPublished(notes: seq<Post>, search: string)
    ensures forall p :: p in FilteredNotes(notes, search, All) ==> p.status == Published
  {
  }

  /** Under `'draft'` or `'archived'` a listed post has exactly that status. */
  lemma StatusFilterListsOnlyThatStatus(notes: seq<Post>, search: string, filter: ListFilter)
    requires filter != All
    ensures forall p :: p in FilteredNotes(notes, search, filter) ==>
      StatusName(p.status) == FilterName(filter)
      && p.status == (if filter == DraftOnly then Draft else Archived)
  {
    forall p | p in FilteredNotes(notes, search, filter)
      ensures p.status == (if filter == DraftOnly then Draft else Archived)
    {
      MatchesFilterIff(p, filter);
    }
  }

  /** The lower-cased search text stands somewhere in the lower-cased title of
      a post exactly when the post passes the search test. */
  lemma MatchesSearchIff(p: Post, search: string)
    ensures MatchesSearch(p, search) <==> exists i :: OccursAt(ToLower(p.title), ToLower(search), i)
  {
    IncludesIff(ToLower(p.title), ToLower(search));
  }

  /** An empty search text matches every title. */
  lemma EmptySearchMatchesAll(p: Post)
    ensures MatchesSearch(p, "")
  {
    IncludesEmpty(ToLower(p.title));
  }

  /** With an empty search text only the status filter decides. */
  lemma EmptySearchListsByStatus(notes: seq<Post>, filter: ListFilter, p: Post)
    ensures multiset(FilteredNotes(notes, "", filter))[p]
         == if MatchesFilter(p, filter) then multiset(notes)[p] else 0
  {
    EmptySearchMatchesAll(p);
    FilteredCount(notes, "", filter, p);
  }

  /** The search ignores upper and lower case in the search text and in the title. */
  lemma SearchIgnoresCase(p: Post, search: string)
    ensures MatchesSearch(p, search) == MatchesSearch(p, ToLower(search))
    ensures MatchesSearch(p, search) == MatchesSearch(p.(title := ToLower(p.title)), search)
  {
    ToLowerIdempotent(search);
    ToLowerIdempotent(p.title);
  }

  /** The status-change buttons a post card can show. */
  datatype StatusAction = Archive | Restore | Publish

  /** The status each button passes to the status update. */
  function ActionTarget(a: StatusAction): Status {
    match a
    case Archive => Archived
    case Restore => Published
    case Publish => Published
  }

  /** The status-change buttons `renderPost` shows for a post with status
      `s`: Archive for a published post and Restore for an archived one in the
      top corner, then Publish for a draft beside the links. */
  function StatusActions(s: Status): seq<StatusAction> {
    (if s == Published then [Archive] else [])
    + (if s == Archived then [Restore] else [])
    + (if s == Draft then [Publish] else [])
  }

  /** The post lifecycle: a draft is published, a published post archived and
      an archived post restored to published. */
  predicate Transition(from: Status, to: Status) {
    || (from == Draft && to == Published)
    || (from == Published && to == Archived)
    || (from == Archived && to == Published)
  }

  /** Every post card offers exactly one status change, and it is the one
      lifecycle step out of the post's status. */
  lemma StatusActionsFollowLifecycle(s: Status)
    ensures |StatusActions(s)| == 1
    ensures forall t :: Transition(s, t) <==> t == ActionTarget(StatusActions(s)[0])
  {
  }

  /** No button changes a post to draft, and none leaves the status as it is. */
  lemma NoActionTargetsDraft(s: Status)
    ensures forall a :: a in StatusActions(s) ==> ActionTarget(a) != Draft && ActionTarget(a) != s
  {
  }

  /** The status after pressing a post's status button `n` times. */
  function AfterPresses(s: Status, n: nat): Status
    decreases n
  {
    if n == 0 then s
    else
      StatusActionsFollowLifecycle(s);
      AfterPresses(ActionTarget(StatusActions(s)[0]), n - 1)
  }

  /** Once a post has been moved by its button it never returns to draft: it
      alternates between published and archived. */
  lemma {:induction false} NeverBackToDraft(s: Status, n: nat)
    requires n > 0
    ensures AfterPresses(s, n) != Draft
    ensures AfterPresses(s, n) == AfterPresses(s, n + 2)
    decreases n
  {
    var t := ActionTarget(StatusActions(s)[0]);
    if n > 1 {
      NeverBackToDraft(t, n - 1);
    } else {
      assert AfterPresses(t, 2) == t;
    }
  }

  /** The Drafts toggle: back to `'all'` from `'draft'`, otherwise to `'draft'`. */
  function ToggleDrafts(f: ListFilter): ListFilter {
    if f == DraftOnly then All else DraftOnly
  }

  /** The Archived toggle: back to `'all'` from `'archived'`, otherwise to `'archived'`. */
  function ToggleArchived(f: ListFilter): ListFilter {
    if f == ArchivedOnly then All else ArchivedOnly
  }

  /** The caption of the Drafts toggle. */
  function DraftsCaption(f: ListFilter): string {
    if f == DraftOnly then "Show All" else "Drafts"
  }

  /** The caption of the Archived toggle. */
  function ArchivedCaption(f: ListFilter): string {
    if f == ArchivedOnly then "Show All" else "Archived"
  }

  /** The Drafts toggle flips between `'draft'` and `'all'`: pressed twice it
      restores `'all'` or `'draft'`, and from `'archived'` it goes to `'draft'`;
      its caption reads "Show All" exactly when pressing it shows all. */
  lemma ToggleDraftsFlips(f: ListFilter)
    ensures ToggleDrafts(f) == DraftOnly <==> f != DraftOnly
    ensures ToggleDrafts(f) == All <==> f == DraftOnly
    ensures f != ArchivedOnly ==> ToggleDrafts(ToggleDrafts(f)) == f
    ensures ToggleDrafts(ToggleDrafts(ArchivedOnly)) == All
    ensures DraftsCaption(f) == "Show All" <==> ToggleDrafts(f) == All
  {
  }

  /** The Archived toggle mirrors the Drafts toggle. */
  lemma ToggleArchivedFlips(f: ListFilter)
    ensures ToggleArchived(f) == ArchivedOnly <==> f != ArchivedOnly
    ensures ToggleArchived(f) == All <==> f == ArchivedOnly
    ensures f != DraftOnly ==> ToggleArchived(ToggleArchived(f)) == f
    ensures ToggleArchived(ToggleArchived(DraftOnly)) == All
    ensures ArchivedCaption(f) == "Show All" <==> ToggleArchived(f) == All
  {
  }

  /** After a press of either toggle the list holds the published posts (when
      it went back to `'all'`) or the posts of the toggle's own status. */
  lemma ToggleThenList(f: ListFilter, p: Post)
    ensures MatchesFilter(p, ToggleDrafts(f)) <==> p.status == (if f == DraftOnly then Published else Draft)
    ensures MatchesFilter(p, ToggleArchived(f)) <==> p.status == (if f == ArchivedOnly then Published else Archived)
  {
    MatchesFilterIff(p, ToggleDrafts(f));
    MatchesFilterIff(p, ToggleArchived(f));
  }

  /** The HTTP methods the page's buttons use. */
  datatype HttpMethod = Delete | Patch

  /** An outgoing request of the page: method, path and optional JSON body.
      Request headers (the status update's `Content-Type`) are not modelled. */
  datatype Request = Request(verb: HttpMethod, path: string, body: Option<string>)

  /** The path a delete is sent to. */
  function DeletePath(id: string): string {
    "/api/proxy1/" + id
  }

  /** The path a status update is sent to: the status sub-resource. */
  function StatusPath(id: string): string {
    "/api/proxy2/" + id + "/status"
  }

  /** `JSON.stringify({ status: newStatus })`; no status name needs escaping. */
  function StatusBody(s: Status): string {
    "{\"status\":\"" + StatusName(s) + "\"}"
  }

  /** `handleDelete`: no request for an empty id (the dialog is not even
      shown) nor when the user does not confirm; otherwise a DELETE to the
      post's path, without a body. */
  function DeleteRequest(id: string, confirmed: bool): Option<Request> {
    if id == "" then None
    else if !confirmed then None
    else Some(Request(Delete, DeletePath(id), None))
  }

  /** `handleStatusUpdate`: no request for an empty id; otherwise a PATCH of
      the new status to the post's status path. */
  function StatusUpdateRequest(id: string, newStatus: Status): Option<Request> {
    if id == "" then None
    else Some(Request(Patch, StatusPath(id), Some(StatusBody(newStatus))))
  }

  /** The id a delete path names: the inverse of `DeletePath`. */
  function DeleteTarget(path: string): (r: Option<string>)
    ensures r.Some? ==> DeletePath(r.value) == path
  {
    var prefix := "/api/proxy1/";
    if |prefix| <= |path| && path[..|prefix|] == prefix then
      assert path == prefix + path[|prefix|..];
      Some(path[|prefix|..])
    else None
  }

  /** The id a status path names: the inverse of `StatusPath`. */
  function StatusTarget(path: string): (r: Option<string>)
    ensures r.Some? ==> StatusPath(r.value) == path
  {
    var prefix, suffix := "/api/proxy2/", "/status";
    if |prefix| + |suffix| <= |path| && path[..|prefix|] == prefix
       && path[|path| - |suffix|..] == suffix then
      var id := path[|prefix|..|path| - |suffix|];
      assert path == prefix + id + suffix;
      Some(id)
    else None
  }

  /** A delete path names its post again. */
  lemma DeletePathRoundTrip(id: string)
    ensures DeleteTarget(DeletePath(id)) == Some(id)
  {
    var path, prefix := DeletePath(id), "/api/proxy1/";
    assert path[..|prefix|] == prefix;
    assert path[|prefix|..] == id;
  }

  /** A status path names its post again. */
  lemma StatusPathRoundTrip(id: string)
    ensures StatusTarget(StatusPath(id)) == Some(id)
  {
    var path, prefix, suffix := StatusPath(id), "/api/proxy2/", "/status";
    assert path == prefix + id + suffix;
    assert path[..|prefix|] == prefix;
    assert path[|path| - |suffix|..] == suffix;
    assert path[|prefix|..|path| - |suffix|] == id;
  }

  /** A status update never goes to a post's own path, and each path names
      exactly one post. */
  lemma PathsAreDistinct(a: string, b: string)
    ensures DeletePath(a) != StatusPath(b)
    ensures DeletePath(a) == DeletePath(b) <==> a == b
    ensures StatusPath(a) == StatusPath(b) <==> a == b
  {
    assert DeletePath(a)[10] == '1' && StatusPath(b)[10] == '2';
    DeletePathRoundTrip(a);
    DeletePathRoundTrip(b);
    StatusPathRoundTrip(a);
    StatusPathRoundTrip(b);
  }

  /** An empty id makes no delete and no status request; a non-empty one
      makes a status request, and a delete once confirmed, each to that
      post's own path. */
  lemma EmptyIdGuards(id: string, confirmed: bool, s: Status)
    ensures DeleteRequest(id, confirmed).Some? <==> id != "" && confirmed
    ensures StatusUpdateRequest(id, s).Some? <==> id != ""
    ensures DeleteRequest(id, confirmed).Some? ==>
      DeleteTarget(DeleteRequest(id, confirmed).value.path) == Some(id)
    ensures StatusUpdateRequest(id, s).Some? ==>
      StatusTarget(StatusUpdateRequest(id, s).value.path) == Some(id)
  {
    DeletePathRoundTrip(id);
    StatusPathRoundTrip(id);
  }

  /** The request a post card's status button makes. */
  function ActionRequest(p: Post, a: StatusAction): Option<Request> {
    StatusUpdateRequest(p.id, ActionTarget(a))
  }

  /** Distinct statuses are sent as distinct bodies. */
  lemma StatusBodyInjective(s: Status, t: Status)
    ensures StatusBody(s) == StatusBody(t) <==> s == t
  {
    var front, back := "{\"status\":\"", "\"}";
    if StatusBody(s) == StatusBody(t) {
      assert StatusBody(s) == front + StatusName(s) + back;
      assert StatusName(s) == StatusBody(s)[|front|..|StatusBody(s)| - |back|];
      assert StatusName(t) == StatusBody(t)[|front|..|StatusBody(t)| - |back|];
      StatusNameInjective(s, t);
    }
  }

  /** The status button of a post card with an id patches its status path with
      the next lifecycle status, which is never draft. */
  lemma CardRequestFollowsLifecycle(p: Post)
    requires p.id != ""
    ensures var r := ActionRequest(p, StatusActions(p.status)[0]);
      && r.Some? && r.value.verb == Patch && r.value.path == StatusPath(p.id)
      && r.value.body != Some(StatusBody(Draft))
      && exists t :: Transition(p.status, t) && r.value.body == Some(StatusBody(t))
  {
    var t := ActionTarget(StatusActions(p.status)[0]);
    StatusActionsFollowLifecycle(p.status);
    StatusBodyInjective(t, Draft);
    assert Transition(p.status, t);
  }
}
