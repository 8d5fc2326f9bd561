/**
 * The dashboard page (app/dashboard/page.tsx): the state the `Dashboard`
 * component keeps and the handlers that change it. Each handler runs to
 * completion as one step; the remote calls it awaits go to the `Store`, with
 * the outcome the transport reports passed in as a parameter. The signed-in
 * user is the identity `supabase.auth.getUser` resolved, and `new URL(u)` is
 * the `urlParses` function supplied when the page is built.
 */
module DashboardPage {
  import opened Wrappers
  import opened JsText
  import opened BookmarkCard
  import opened BookmarkStore

  /** The text an error slot of the page shows; `Blank` is the empty string
      the source uses for "no error". */
  datatype ErrorText = Blank | TitleRequired | UrlRequired | UrlInvalid | SubmitFailed {
    function Text(): (t: string)
      ensures t == "" <==> this == Blank
    {
      match this
      case Blank => ""
      case TitleRequired => "Title is required"
      case UrlRequired => "URL is required"
      case UrlInvalid => "Please enter a valid URL (e.g., https://example.com)"
      case SubmitFailed => "Failed to add bookmark. Please try again."
    }
  }

  /** The bookmark a delete is waiting to be confirmed for. */
  datatype DeleteTarget = DeleteTarget(id: string, title: string)

  /** The title error an add attempt leaves: set exactly when the title is blank. */
  function TitleError(title: string): (e: ErrorText)
    ensures e == Blank <==> !AllWhitespace(title)
    ensures e != Blank ==> e == TitleRequired
  {
    TrimEmptyIff(title);
    if Trim(title) == "" then TitleRequired else Blank
  }

  /** The url error an add attempt leaves: "required" exactly when the url is
      blank, "invalid" exactly when it is not blank but the URL parser rejects
      the untrimmed text, and none otherwise. */
  function UrlError(url: string, urlParses: string -> bool): (e: ErrorText)
    ensures e == UrlRequired <==> AllWhitespace(url)
    ensures e == UrlInvalid <==> !AllWhitespace(url) && !urlParses(url)
    ensures e == Blank <==> !AllWhitespace(url) && urlParses(url)
  {
    TrimEmptyIff(url);
    if Trim(url) == "" then UrlRequired else if !urlParses(url) then UrlInvalid else Blank
  }

  class Dashboard {
    const store: Store
    /** `new URL(u)` returns instead of throwing. */
    const urlParses: string -> bool

    var user: Option<string>
    var bookmarks: seq<BookmarkItem>
    var title: string
    var url: string
    var submitting: bool
    var titleError: ErrorText
    var urlError: ErrorText
    var submitError: ErrorText
    var deleteTarget: Option<DeleteTarget>

    /** Between handlers: nothing is being submitted, and the list holds only
        the signed-in user's rows, newest first. */
    ghost predicate Valid()
      reads this`user, this`bookmarks, this`submitting, store`rows
    {
      && store.Valid()
      && !submitting
      && NewestFirst(bookmarks)
      && (user.None? ==> bookmarks == [])
      && (forall b :: b in bookmarks ==> user.Some? && b.userId == user.value)
    }

    /** The list shows exactly what a select for the user returns right now. */
    ghost predicate InSync()
      reads this`user, this`bookmarks, store`rows
    {
      user.Some? && bookmarks == SelectOwned(store.rows, user.value)
    }

    /** The field errors would both be empty for the current form. */
    ghost predicate FieldsPass()
      reads this`title, this`url
    {
      TitleError(title) == Blank && UrlError(url, urlParses) == Blank
    }

    /** The initial state (lines 15-24). */
    constructor (store: Store, urlParses: string -> bool)
      requires store.Valid()
      ensures Valid()
      ensures this.store == store && this.urlParses == urlParses
      ensures user.None? && bookmarks == [] && title == "" && url == "" && !submitting
      ensures titleError == Blank && urlError == Blank && submitError == Blank && deleteTarget.None?
    {
      this.store := store;
      this.urlParses := urlParses;
      user := None;
      bookmarks := [];
      title := "";
      url := "";
      submitting := false;
      titleError := Blank;
      urlError := Blank;
      submitError := Blank;
      deleteTarget := None;
    }

    /** `getUser` on mount (lines 29-35) and the fetch the user effect then
        runs (line 44). Without a user the page only redirects. */
    method SignIn(found: Option<string>, outcome: Outcome)
      requires Valid() && user.None?
      modifies this`user, this`bookmarks
      ensures Valid()
      ensures user == found
      ensures found.Some? && outcome.Ok? ==> InSync()
      ensures bookmarks == if found.Some? && outcome.Ok? then SelectOwned(store.rows, found.value) else []
    {
      if found.Some? {
        user := found;
        FetchBookmarks(outcome);
      }
    }

    /** `fetchBookmarks` (lines 61-69): the list becomes the user's rows, newest
        first; without a user, or on error, nothing changes. The realtime
        notification of line 55 is a call of this method. */
    method FetchBookmarks(outcome: Outcome)
      requires Valid()
      modifies this`bookmarks
      ensures Valid()
      ensures user.Some? && outcome.Ok? ==> InSync()
      ensures bookmarks == if user.Some? && outcome.Ok? then SelectOwned(store.rows, user.value) else old(bookmarks)
    {
      if user.None? {
        return;
      }
      var data := store.Select(user.value, outcome);
      if data.Some? {
        bookmarks := data.value;
      }
    }

    /** `addBookmark` (lines 71-108). Both fields are validated, independently;
        on a validation error nothing else changes. Otherwise the trimmed row is
        inserted; on success the form is cleared and the list refetched, on
        failure the submit error is shown and the form kept. */
    method AddBookmark(insert: InsertOutcome, refetch: Outcome)
      requires Valid()
      modifies this`submitting, this`title, this`url, this`bookmarks, this`titleError, this`urlError, this`submitError, store`rows
      ensures Valid()
      ensures old(user).None? ==>
        && title == old(title) && url == old(url) && bookmarks == old(bookmarks)
        && titleError == old(titleError) && urlError == old(urlError) && submitError == old(submitError)
        && store.rows == old(store.rows)
      ensures old(user).Some? ==>
        && titleError == TitleError(old(title))
        && urlError == UrlError(old(url), urlParses)
      ensures old(user).Some? && !old(FieldsPass()) ==>
        && submitError == Blank
        && title == old(title) && url == old(url)
        && bookmarks == old(bookmarks) && store.rows == old(store.rows)
      ensures old(user).Some? && old(FieldsPass()) ==>
        var uid := old(user).value;
        if insert.Inserted? && !HasId(old(store.rows), insert.id) then
          && store.rows == old(store.rows) + [BookmarkItem(insert.id, Trim(old(title)), Trim(old(url)), uid, insert.createdAt)]
          && submitError == Blank && title == "" && url == ""
          && bookmarks == (if refetch.Ok? then SelectOwned(store.rows, uid) else old(bookmarks))
        else
          && store.rows == old(store.rows)
          && submitError == SubmitFailed
          && title == old(title) && url == old(url) && bookmarks == old(bookmarks)
    {
      if user.None? {
        return;
      }
      var hasError := ValidateFields();
      if hasError {
        return;
      }
      var _ := SubmitValidated(insert, refetch);
    }

    /** Lines 74-92: the three errors are cleared, then the title and the url
        are checked one after the other, each setting its own error. */
    method ValidateFields() returns (hasError: bool)
      requires Valid()
      modifies this`titleError, this`urlError, this`submitError
      ensures Valid()
      ensures titleError == TitleError(title) && urlError == UrlError(url, urlParses)
      ensures submitError == Blank
      ensures hasError <==> !FieldsPass()
    {
      titleError := Blank;
      urlError := Blank;
      submitError := Blank;
      hasError := false;
      if Trim(title) == "" {
        titleError := TitleRequired;
        hasError := true;
      }
      if Trim(url) == "" {
        urlError := UrlRequired;
        hasError := true;
      } else if !urlParses(url) {
        urlError := UrlInvalid;
        hasError := true;
      }
    }

    /** Lines 94-107, reached once both fields are valid: the insert, then
        either the submit error or the cleared form and a refetch. */
    method SubmitValidated(insert: InsertOutcome, refetch: Outcome) returns (inserted: bool)
      requires Valid() && user.Some?
      modifies this`submitting, this`submitError, this`title, this`url, this`bookmarks, store`rows
      ensures Valid()
      ensures inserted <==> insert.Inserted? && !HasId(old(store.rows), insert.id)
      ensures inserted ==>
        && store.rows == old(store.rows) + [BookmarkItem(insert.id, Trim(old(title)), Trim(old(url)), user.value, insert.createdAt)]
        && submitError == old(submitError) && title == "" && url == ""
        && bookmarks == (if refetch.Ok? then SelectOwned(store.rows, user.value) else old(bookmarks))
      ensures !inserted ==>
        && store.rows == old(store.rows)
        && submitError == SubmitFailed
        && title == old(title) && url == old(url) && bookmarks == old(bookmarks)
    {
      inserted := InsertForm(insert);
      if !inserted {
        submitError := SubmitFailed;
        return;
      }
      ClearFormAndRefetch(refetch);
    }

    /** Lines 94-100: the trimmed fields go to the insert while `submitting` is set. */
    method InsertForm(insert: InsertOutcome) returns (inserted: bool)
      requires Valid() && user.Some?
      modifies this`submitting, store`rows
      ensures Valid()
      ensures inserted <==> insert.Inserted? && !HasId(old(store.rows), insert.id)
      ensures store.rows == if inserted
        then old(store.rows) + [BookmarkItem(insert.id, Trim(title), Trim(url), user.value, insert.createdAt)]
        else old(store.rows)
    {
      submitting := true;
      inserted := store.Insert(Trim(title), Trim(url), user.value, insert);
      submitting := false;
    }

    /** Lines 105-107: the form is emptied and the list refetched. */
    method ClearFormAndRefetch(refetch: Outcome)
      requires Valid() && user.Some?
      modifies this`title, this`url, this`bookmarks
      ensures Valid()
      ensures title == "" && url == ""
      ensures bookmarks == if refetch.Ok? then SelectOwned(store.rows, user.value) else old(bookmarks)
    {
      title := "";
      url := "";
      FetchBookmarks(refetch);
    }

    /** `openDeleteDialog` (line 110): the last request wins. */
    method OpenDeleteDialog(id: string, bookmarkTitle: string)
      requires Valid()
      modifies this`deleteTarget
      ensures Valid()
      ensures deleteTarget == Some(DeleteTarget(id, bookmarkTitle))
    {
      deleteTarget := Some(DeleteTarget(id, bookmarkTitle));
    }

    /** `closeDeleteDialog` (line 111). */
    method CloseDeleteDialog()
      requires Valid()
      modifies this`deleteTarget
      ensures Valid()
      ensures deleteTarget.None?
    {
      deleteTarget := None;
    }

    /** `confirmDeleteBookmark` (lines 113-123). Without a target (or with an
        empty id) or without a user nothing happens. Otherwise the target is
        cleared first; the store loses the rows matching both the id and the
        user, and on success the list loses the entries with that id. */
    method ConfirmDeleteBookmark(outcome: Outcome)
      requires Valid()
      modifies this`deleteTarget, this`bookmarks, store`rows
      ensures Valid()
      ensures old(deleteTarget).None? || old(deleteTarget).value.id == "" || old(user).None? ==>
        deleteTarget == old(deleteTarget) && bookmarks == old(bookmarks) && store.rows == old(store.rows)
      ensures old(deleteTarget).Some? && old(deleteTarget).value.id != "" && old(user).Some? ==>
        var id := old(deleteTarget).value.id;
        && deleteTarget.None?
        && store.rows == (if outcome.Ok? then DeleteWhere(old(store.rows), id, old(user).value) else old(store.rows))
        && bookmarks == (if outcome.Ok? then WithoutId(old(bookmarks), id) else old(bookmarks))
      ensures old(InSync()) ==> InSync()
    {
      if deleteTarget.None? || deleteTarget.value.id == "" || user.None? {
        return;
      }
      var id := deleteTarget.value.id;
      CloseDeleteDialog();
      var _ := DeleteRemotely(id, outcome);
    }

    /** Lines 117-122, after the target is cleared: the scoped remote delete,
        then on success the local list loses the entries with that id. The
        alert on failure changes no state. */
    method DeleteRemotely(id: string, outcome: Outcome) returns (deleted: bool)
      requires Valid() && user.Some?
      modifies this`bookmarks, store`rows
      ensures Valid()
      ensures deleted <==> outcome.Ok?
      ensures store.rows == if deleted then DeleteWhere(old(store.rows), id, user.value) else old(store.rows)
      ensures bookmarks == if deleted then WithoutId(old(bookmarks), id) else old(bookmarks)
      ensures old(InSync()) ==> InSync()
    {
      deleted := store.Delete(id, user.value, outcome);
      if deleted {
        WithoutIdNewestFirst(bookmarks, id);
        DeleteConverges(old(store.rows), id, user.value);
        bookmarks := WithoutId(bookmarks, id);
      }
    }

    /** `onTitleChange` (lines 156-159): the title takes the new text and only
        the title error is cleared. */
    method OnTitleChange(v: string)
      requires Valid()
      modifies this`title, this`titleError
      ensures Valid()
      ensures title == v && titleError == Blank
    {
      title := v;
      if titleError != Blank {
        titleError := Blank;
      }
    }

    /** `onUrlChange` (lines 160-163): the url takes the new text and only the
        url error is cleared. */
    method OnUrlChange(v: string)
      requires Valid()
      modifies this`url, this`urlError
      ensures Valid()
      ensures url == v && urlError == Blank
    {
      url := v;
      if urlError != Blank {
        urlError := Blank;
      }
    }
  }

  /** Two delete requests and a confirmation: only the second request's row is
      deleted, from the table and from the list, and the dialog ends closed. */
  method LastRequestWins(d: Dashboard, first: DeleteTarget, second: DeleteTarget, outcome: Outcome)
    requires d.Valid() && d.user.Some? && second.id != ""
    modifies d`deleteTarget, d`bookmarks, d.store`rows
    ensures d.Valid() && d.deleteTarget.None?
    ensures d.store.rows == if outcome.Ok? then DeleteWhere(old(d.store.rows), second.id, d.user.value) else old(d.store.rows)
    ensures d.bookmarks == if outcome.Ok? then WithoutId(old(d.bookmarks), second.id) else old(d.bookmarks)
  {
    d.OpenDeleteDialog(first.id, first.title);
    d.OpenDeleteDialog(second.id, second.title);
    d.ConfirmDeleteBookmark(outcome);
  }
}
