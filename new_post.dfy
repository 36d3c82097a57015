/** The new-post form: its tag list editor and its submit flow. The form's
    state is a `NewPostForm` object whose handlers update it; what each
    handler computes is given by a function beside it. */
module NewPost {
  import ArrayOps
  import opened Text
  import opened Options
  import PostList

  /** The tag list and the tag input box after a handler has run. */
  datatype TagEditor = TagEditor(tags: seq<string>, tagInput: string)

  /** Add takes the input exactly when its trimmed text is non-empty and not
      yet in the list. */
  predicate AcceptsTag(tags: seq<string>, tagInput: string) {
    Trim(tagInput) != "" && Trim(tagInput) !in tags
  }

  /** `handleAddTag`: appends the trimmed input and clears the box when the
      tag is accepted, and otherwise changes nothing. */
  function AddTag(tags: seq<string>, tagInput: string): TagEditor {
    var trimmed := Trim(tagInput);
    if trimmed != "" && trimmed !in tags then TagEditor(tags + [trimmed], "")
    else TagEditor(tags, tagInput)
  }

  /** `handleRemoveTag`: no occurrence of `tag` is left, and every other tag
      stays. */
  function RemoveTag(tags: seq<string>, tag: string): (r: seq<string>)
    ensures tag !in r
    ensures forall x :: x in tags && x != tag ==> x in r
  {
    ArrayOps.Filter(tags, t => t != tag)
  }

  /** A list without repetitions keeps that property when a tag is added. */
  lemma AddTagKeepsNoDuplicates(tags: seq<string>, tagInput: string)
    requires ArrayOps.NoDuplicates(tags)
    ensures ArrayOps.NoDuplicates(AddTag(tags, tagInput).tags)
  {
    ArrayOps.NoDuplicatesAppend(tags, Trim(tagInput));
  }

  /** An accepted tag lands at the end, after the earlier tags in their
      order, and the input box is cleared. */
  lemma AddTagAppends(tags: seq<string>, tagInput: string)
    requires AcceptsTag(tags, tagInput)
    ensures var r := AddTag(tags, tagInput);
      && |r.tags| == |tags| + 1
      && r.tags[..|tags|] == tags
      && r.tags[|tags|] == Trim(tagInput)
      && r.tagInput == ""
  {
    var r := AddTag(tags, tagInput);
    assert r.tags == tags + [Trim(tagInput)];
  }

  /** Input that is blank after trimming, or a tag already present, leaves
      both the list and the input box as they were. */
  lemma AddTagRejects(tags: seq<string>, tagInput: string)
    requires !AcceptsTag(tags, tagInput)
    ensures AddTag(tags, tagInput) == TagEditor(tags, tagInput)
  {
  }

  /** The trimmed input is empty exactly when the input is whitespace only.
      So Add takes the input exactly when it holds a character other than
      whitespace and its trimmed text is new. */
  lemma AcceptsTagIff(tags: seq<string>, tagInput: string)
    ensures AcceptsTag(tags, tagInput) <==>
      (exists i :: 0 <= i < |tagInput| && !IsWhitespace(tagInput[i])) && Trim(tagInput) !in tags
  {
    TrimEmptyIff(tagInput);
  }

  /** Removing keeps the other tags in their original order and with their
      original counts, and drops every copy of `tag`. */
  lemma RemoveTagKeepsOthers(tags: seq<string>, tag: string, x: string)
    ensures ArrayOps.IsSubsequence(RemoveTag(tags, tag), tags)
    ensures multiset(RemoveTag(tags, tag))[x] == if x == tag then 0 else multiset(tags)[x]
  {
    ArrayOps.FilterIsSubsequence(tags, t => t != tag);
    ArrayOps.FilterCount(tags, t => t != tag, x);
  }

  /** A list without repetitions keeps that property when a tag is removed. */
  lemma RemoveTagKeepsNoDuplicates(tags: seq<string>, tag: string)
    requires ArrayOps.NoDuplicates(tags)
    ensures ArrayOps.NoDuplicates(RemoveTag(tags, tag))
  {
    ArrayOps.FilterNoDuplicates(tags, t => t != tag);
  }

  /** Removing a tag that is not in the list changes nothing. */
  lemma RemoveAbsentTag(tags: seq<string>, tag: string)
    requires tag !in tags
    ensures RemoveTag(tags, tag) == tags
  {
    ArrayOps.FilterKeepsAll(tags, t => t != tag);
  }

  /** Adding a tag that is not yet in the list and removing it again gives
      back the original list. */
  lemma AddThenRemove(tags: seq<string>, tagInput: string)
    requires Trim(tagInput) !in tags
    ensures RemoveTag(AddTag(tags, tagInput).tags, Trim(tagInput)) == tags
  {
    var trimmed := Trim(tagInput);
    var keep := (t: string) => t != trimmed;
    RemoveAbsentTag(tags, trimmed);
    if trimmed != "" {
      ArrayOps.FilterAppend(tags, [trimmed], keep);
      assert ArrayOps.Filter([trimmed], keep) == [];
    }
  }

  /** The two submit buttons of the form. */
  datatype SubmitButton = PostButton | SaveDraftButton

  /** The status each button submits: Post publishes, Save Draft keeps a draft. */
  function ButtonStatus(b: SubmitButton): string {
    match b
    case PostButton => PostList.StatusName(PostList.Published)
    case SaveDraftButton => PostList.StatusName(PostList.Draft)
  }

  /** Post submits `'published'` and Save Draft `'draft'`, each the name of
      the status it means. */
  lemma ButtonStatusNames()
    ensures ButtonStatus(PostButton) == "published"
    ensures ButtonStatus(SaveDraftButton) == "draft"
    ensures PostList.ParseStatus(ButtonStatus(PostButton)) == Some(PostList.Published)
    ensures PostList.ParseStatus(ButtonStatus(SaveDraftButton)) == Some(PostList.Draft)
  {
  }

  /** The JSON object the create request carries. */
  datatype Payload = Payload(title: string, content: string, status: string, tags: seq<string>)

  /** How the create request ended. */
  datatype SaveResponse =
    | Saved                      // the response was ok
    | Rejected(message: string)  // not ok; the body's `message`, empty when it has none
    | Failed(message: string)    // the request or the reading of its body threw this message

  const MissingFieldsError := "Please fill in both title and content"
  const SaveFailedError := "Failed to save"

  /** What `handleSubmit` leaves behind: the payload it sent, if any, the
      error shown, and whether it went on to the post list. */
  datatype SubmitResult = SubmitResult(sent: Option<Payload>, error: string, navigated: bool)

  /** `handleSubmit` for the given state and the answer the request gets. */
  function Submit(title: string, content: string, status: string, tags: seq<string>,
                  response: SaveResponse): SubmitResult
  {
    if title == "" || content == "" then SubmitResult(None, MissingFieldsError, false)
    else
      var sent := Some(Payload(title, content, status, tags));
      match response
      case Saved => SubmitResult(sent, "", true)
      case Rejected(m) => SubmitResult(sent, if m != "" then m else SaveFailedError, false)
      case Failed(m) => SubmitResult(sent, m, false)
  }

  /** An empty title or content sets the fill-in error and sends nothing;
      otherwise exactly the form's title, content, status and tags are sent. */
  lemma SubmitValidates(title: string, content: string, status: string, tags: seq<string>,
                        response: SaveResponse)
    ensures var r := Submit(title, content, status, tags, response);
      && (r.sent.None? <==> title == "" || content == "")
      && (r.sent.None? ==> r.error == MissingFieldsError && !r.navigated)
      && (r.sent.Some? ==> r.sent.value == Payload(title, content, status, tags))
  {
  }

  /** The form goes on to the post list only after a successful save, and
      then shows no error; a rejection shows the backend's message, or the
      fallback when it gave none. */
  lemma SubmitOutcome(title: string, content: string, status: string, tags: seq<string>,
                      response: SaveResponse)
    ensures var r := Submit(title, content, status, tags, response);
      && (r.navigated <==> r.sent.Some? && response == Saved)
      && (r.navigated ==> r.error == "")
      && (r.sent.Some? && response.Rejected? ==> r.error != "")
      && (r.sent.Some? && response == Rejected("") ==> r.error == SaveFailedError)
  {
  }

  /** The state of the new-post form. */
  class NewPostForm {
    var title: string
    var content: string
    var tagInput: string
    var tags: seq<string>
    var saving: bool
    var error: string

    /** The form's invariant: no tag appears twice. */
    predicate Valid()
      reads this
    {
      ArrayOps.NoDuplicates(tags)
    }

    /** An empty form, as the page first shows it. */
    constructor ()
      ensures Valid()
      ensures title == "" && content == "" && tagInput == "" && tags == []
      ensures !saving && error == ""
    {
      title, content, tagInput, tags := "", "", "", [];
      saving, error := false, "";
    }

    /** Typing into the title box. */
    method SetTitle(value: string)
      requires Valid()
      modifies this`title
      ensures Valid()
      ensures title == value
    {
      title := value;
    }

    /** Typing into the content box. */
    method SetContent(value: string)
      requires Valid()
      modifies this`content
      ensures Valid()
      ensures content == value
    {
      content := value;
    }

    /** Typing into the tag box. */
    method SetTagInput(value: string)
      requires Valid()
      modifies this`tagInput
      ensures Valid()
      ensures tagInput == value
    {
      tagInput := value;
    }

    /** `handleAddTag` on the form. */
    method HandleAddTag()
      requires Valid()
      modifies this`tags, this`tagInput
      ensures Valid()
      ensures TagEditor(tags, tagInput) == AddTag(old(tags), old(tagInput))
    {
      var trimmed := Trim(tagInput);
      if trimmed != "" && trimmed !in tags {
        ArrayOps.NoDuplicatesAppend(tags, trimmed);
        tags := tags + [trimmed];
        tagInput := "";
      }
    }

    /** `handleRemoveTag` on the form. */
    method HandleRemoveTag(tag: string)
      requires Valid()
      modifies this`tags
      ensures Valid()
      ensures tags == RemoveTag(old(tags), tag)
    {
      RemoveTagKeepsNoDuplicates(tags, tag);
      tags := RemoveTag(tags, tag);
    }

    /** `handleSubmit` pressed with `button`, when the create request ends as
        `response`: title, content and tags stay as they are, and `saving` is
        false again on every path. */
    method HandleSubmit(button: SubmitButton, response: SaveResponse)
      returns (sent: Option<Payload>, navigated: bool)
      modifies this`saving, this`error
      ensures SubmitResult(sent, error, navigated)
           == Submit(title, content, ButtonStatus(button), tags, response)
      ensures !saving
    {
      saving := true;
      error := "";
      if title == "" || content == "" {
        error := MissingFieldsError;
        saving := false;
        sent, navigated := None, false;
        return;
      }
      sent := Some(Payload(title, content, ButtonStatus(button), tags));
      navigated := false;
      match response {
        case Saved =>
          navigated := true;
        case Rejected(m) =>
          error := if m != "" then m else SaveFailedError;
        case Failed(m) =>
          error := m;
      }
      saving := false;
    }
  }
}
