/** The task list page: the create/edit form with its client-side checks,
    the choice between a create and an update request, the numbered page
    items and the Prev/Next rules, and the modal's form state. */
module TasksPage {
  import opened Wrappers
  import opened Text
  import opened TaskModel
  import opened TaskController

  datatype FormData = FormData(title: string, description: string)

  const EmptyForm := FormData("", "")

  /** The verdict of the save handler's checks, one value per alert. */
  datatype FormCheck = Accept | EmptyField | TitleTooLong | DescriptionTooLong

  /** The alert each refusal raises; an accepted form raises none. */
  function AlertMessage(c: FormCheck): (m: string)
    ensures m == "" <==> c == Accept
    ensures c == EmptyField ==> m == "Title and Description cannot be empty."
    ensures c == TitleTooLong ==> m == "Title must be 100 characters or less."
    ensures c == DescriptionTooLong ==> m == "Description must be 500 characters or less."
  {
    match c
    case Accept => ""
    case EmptyField => "Title and Description cannot be empty."
    case TitleTooLong => "Title must be 100 characters or less."
    case DescriptionTooLong => "Description must be 500 characters or less."
  }

  /** The checks of the save handler, in order: blank after trimming, then
      the untrimmed title length, then the untrimmed description length. The
      first that fails decides. */
  function CheckForm(form: FormData): (c: FormCheck)
    ensures c == EmptyField <==> AllWhitespace(form.title) || AllWhitespace(form.description)
    ensures c == TitleTooLong <==>
              !AllWhitespace(form.title) && !AllWhitespace(form.description) && |form.title| > MaxTitleLength
    ensures c == DescriptionTooLong <==>
              && !AllWhitespace(form.title) && !AllWhitespace(form.description)
              && |form.title| <= MaxTitleLength && |form.description| > MaxDescriptionLength
    ensures c == Accept <==>
              && !AllWhitespace(form.title) && !AllWhitespace(form.description)
              && |form.title| <= MaxTitleLength && |form.description| <= MaxDescriptionLength
  {
    TrimEmptyIffBlank(form.title);
    TrimEmptyIffBlank(form.description);
    if Trim(form.title) == "" || Trim(form.description) == "" then EmptyField
    else if |form.title| > 100 then TitleTooLong
    else if |form.description| > 500 then DescriptionTooLong
    else Accept
  }

  /** The task being edited, as the listing delivered it. */
  type ListedTask = (TaskId, Task)

  /** The request the save handler sends; the form is the request body. */
  datatype Request = Create(body: FormData) | Update(id: TaskId, body: FormData)

  /** `handleSaveTask` up to the request: nothing is sent when a check fails;
      otherwise an update of the task being edited, or else a create. */
  function SaveRequest(editing: Option<ListedTask>, form: FormData): (r: Option<Request>)
    ensures r.None? <==> CheckForm(form) != Accept
    ensures r.Some? ==> r.value.body == form
    ensures r.Some? ==> (r.value.Update? <==> editing.Some?)
    ensures r.Some? && r.value.Update? ==> r.value.id == editing.value.0
  {
    if CheckForm(form) != Accept then None
    else if editing.Some? then Some(Update(editing.value.0, form))
    else Some(Create(form))
  }

  /** The save handler raises an alert exactly when it sends nothing. */
  lemma AlertIffNothingSent(editing: Option<ListedTask>, form: FormData)
    ensures AlertMessage(CheckForm(form)) != "" <==> SaveRequest(editing, form).None?
  {
  }

  /** A form the page accepts whose fields hold no angle brackets is also
      accepted by the server's create: sanitising leaves it alone and the
      schema's limits, measured after trimming, are no stricter. */
  lemma AcceptedPlainFormIsCreated(form: FormData, createdAt: nat)
    requires CheckForm(form) == Accept
    requires '<' !in form.title && '>' !in form.title
    requires '<' !in form.description && '>' !in form.description
    ensures Supplied(Some(form.title)) && Supplied(Some(form.description))
    ensures NewTask(Escape(form.title), Escape(form.description), createdAt).Some?
  {
    EscapeKeepsOthers(form.title);
    EscapeKeepsOthers(form.description);
    NewTaskRejects(form.title, form.description, createdAt);
  }

  /** The page measures the title before sanitising and the server after:
      a title of 26 to 100 `<` passes the page's check but, escaped to four
      times its length, fails the server's 100-character limit. */
  lemma BracketsDefeatPageCheck(title: string, description: string, createdAt: nat)
    requires CheckForm(FormData(title, description)) == Accept
    requires |title| > 25 && forall i | 0 <= i < |title| :: title[i] == '<'
    ensures NewTask(Escape(title), Escape(description), createdAt).None?
  {
    EscapedBracketRun(title);
    LongTitleRejected(Escape(title), Escape(description), createdAt);
  }

  /** A run of `<` escapes to four times its length, with nothing to trim. */
  lemma EscapedBracketRun(s: string)
    requires forall i | 0 <= i < |s| :: s[i] == '<'
    ensures |Escape(s)| == 4 * |s| && Trim(Escape(s)) == Escape(s)
  {
    BracketsAllSame(s);
    EscapeKeepsNonWhitespace(s);
    TrimmedBracketFree(Escape(s));
  }

  /** A title longer than the limit once trimmed is refused on save. */
  lemma LongTitleRejected(title: string, description: string, createdAt: nat)
    requires |Trim(title)| > MaxTitleLength
    ensures NewTask(title, description, createdAt).None?
  {
    NewTaskRejects(title, description, createdAt);
  }

  /** A string of `<` only counts each of its characters. */
  lemma {:induction false} BracketsAllSame(s: string)
    requires forall i | 0 <= i < |s| :: s[i] == '<'
    ensures Brackets(s) == |s|
  {
    if s != [] {
      BracketsAllSame(s[1..]);
    }
  }

  /** Escaping introduces no whitespace. */
  lemma {:induction false} EscapeKeepsNonWhitespace(s: string)
    requires forall i | 0 <= i < |s| :: !IsWhitespace(s[i])
    ensures forall i | 0 <= i < |Escape(s)| :: !IsWhitespace(Escape(s)[i])
  {
    if s != [] {
      EscapeKeepsNonWhitespace(s[1..]);
      var head := EscapeChar(s[0]);
      assert forall i | 0 <= i < |head| :: !IsWhitespace(head[i]);
      assert Escape(s) == head + Escape(s[1..]);
    }
  }

  /** An escaped run of brackets has no whitespace, so trimming keeps its
      full length. */
  lemma TrimmedBracketFree(s: string)
    requires forall i | 0 <= i < |s| :: !IsWhitespace(s[i])
    ensures Trim(s) == s
  {
    if s != [] {
      TrimUnchanged(s);
    }
  }

  /** One numbered page link. */
  datatype PageItem = PageItem(number: int, active: bool)

  /** The loop that builds the page links: numbers 1 to `totalPages` in
      order, the one equal to `currentPage` marked active. */
  method PaginationItems(totalPages: nat, currentPage: int) returns (items: seq<PageItem>)
    ensures |items| == totalPages
    ensures forall i | 0 <= i < |items| :: items[i].number == i + 1
    ensures forall i | 0 <= i < |items| :: items[i].active <==> i + 1 == currentPage
    ensures (exists i | 0 <= i < |items| :: items[i].active) <==> 1 <= currentPage <= totalPages
  {
    items := [];
    var number := 1;
    while number <= totalPages
      invariant 1 <= number <= totalPages + 1
      invariant |items| == number - 1
      invariant forall i | 0 <= i < |items| :: items[i].number == i + 1
      invariant forall i | 0 <= i < |items| :: items[i].active <==> i + 1 == currentPage
    {
      items := items + [PageItem(number, number == currentPage)];
      number := number + 1;
    }
    if 1 <= currentPage <= totalPages {
      assert items[currentPage - 1].active;
    }
  }

  /** Prev is disabled exactly on page 1, so from any page Prev leads to a
      page no lower than 1. */
  function PrevDisabled(currentPage: int): (disabled: bool)
    ensures currentPage >= 1 && !disabled ==> currentPage - 1 >= 1
    ensures currentPage == 1 ==> disabled
    ensures currentPage >= 2 ==> !disabled && currentPage - 1 >= 1
  {
    currentPage == 1
  }

  /** Next as written: disabled only when the current page equals the page
      count. Below the last page it leads to a page that exists. */
  function NextDisabled(currentPage: int, totalPages: nat): (disabled: bool)
    ensures currentPage == totalPages ==> disabled
    ensures currentPage < totalPages ==> !disabled && currentPage + 1 <= totalPages
  {
    currentPage == totalPages
  }

  /** Next disabled on and past the last page, and when there is no page:
      when enabled it always leads to a page that exists. */
  function NextDisabledCorrected(currentPage: int, totalPages: nat): (disabled: bool)
    ensures !disabled ==> currentPage + 1 <= totalPages
    ensures totalPages == 0 && currentPage >= 1 ==> disabled
  {
    currentPage >= totalPages
  }

  /** With the rule as written, an empty listing (no tasks, or no match for
      the search) leaves Next enabled on page 1, and following it asks for a
      page past the last one, where the server answers with no items. */
  lemma NextEnabledOnEmptyListing()
    ensures PrevDisabled(1) && !NextDisabled(1, 0)
    ensures TotalPages(0, TasksPerPage) == 0 && 1 + 1 > TotalPages(0, TasksPerPage)
  {
  }

  /** With the rule as written, every page past the last keeps Next enabled,
      so repeated clicks never stop. */
  lemma NextEnabledPastLastPage(currentPage: int, totalPages: nat)
    requires currentPage > totalPages
    ensures !NextDisabled(currentPage, totalPages) && !NextDisabled(currentPage + 1, totalPages)
  {
  }

  /** With the corrected rule, Next never leads past the last page, and Prev
      never leads below page 1; on every in-range page the two rules agree. */
  lemma CorrectedNextStaysInRange(currentPage: int, totalPages: nat)
    requires currentPage >= 1
    ensures !NextDisabledCorrected(currentPage, totalPages) ==> currentPage + 1 <= totalPages
    ensures !PrevDisabled(currentPage) ==> currentPage - 1 >= 1
    ensures currentPage <= totalPages ==>
              (NextDisabledCorrected(currentPage, totalPages) <==> NextDisabled(currentPage, totalPages))
  {
  }

  /** The form field an input event names. */
  datatype FormField = TitleField | DescriptionField

  /** The create/edit modal: whether it is shown, the task being edited
      (none while creating) and the form contents. */
  class TaskModal {
    var showModal: bool
    var editingTask: Option<ListedTask>
    var formData: FormData

    /** A hidden modal holds no editing task and an empty form. */
    predicate Valid()
      reads this
    {
      !showModal ==> editingTask.None? && formData == EmptyForm
    }

    constructor ()
      ensures Valid()
      ensures !showModal && editingTask.None? && formData == EmptyForm
    {
      showModal := false;
      editingTask := None;
      formData := EmptyForm;
    }

    /** `handleCloseModal`. */
    method Close()
      modifies this
      ensures Valid()
      ensures !showModal && editingTask.None? && formData == EmptyForm
    {
      showModal := false;
      editingTask := None;
      formData := EmptyForm;
    }

    /** `handleShowCreateModal`: an empty form for a new task. */
    method ShowCreate()
      modifies this
      ensures Valid()
      ensures showModal && editingTask.None? && formData == EmptyForm
    {
      editingTask := None;
      formData := EmptyForm;
      showModal := true;
    }

    /** `handleShowEditModal`: the form prefilled with the task's stored
        title and description. */
    method ShowEdit(task: ListedTask)
      modifies this
      ensures Valid()
      ensures showModal && editingTask == Some(task)
      ensures formData == FormData(task.1.title, task.1.description)
    {
      editingTask := Some(task);
      formData := FormData(task.1.title, task.1.description);
      showModal := true;
    }

    /** `handleFormChange`: the named field takes the typed value, the other
        is kept. The form's inputs exist only while the modal is shown. */
    method ChangeField(field: FormField, value: string)
      requires Valid() && showModal
      modifies this
      ensures Valid()
      ensures showModal && editingTask == old(editingTask)
      ensures formData == (match field
                           case TitleField => old(formData).(title := value)
                           case DescriptionField => old(formData).(description := value))
    {
      formData := (match field
                   case TitleField => formData.(title := value)
                   case DescriptionField => formData.(description := value));
    }

    /** `handleSaveTask`: returns the request sent, if any. A refused form
        keeps the modal as it is; so does a request the server fails
        (`requestOk` false). A request that succeeds closes and resets the
        modal. */
    method Save(requestOk: bool) returns (sent: Option<Request>)
      requires Valid()
      modifies this
      ensures Valid()
      ensures sent == SaveRequest(old(editingTask), old(formData))
      ensures sent.Some? && requestOk ==> !showModal && editingTask.None? && formData == EmptyForm
      ensures sent.None? || !requestOk ==>
                showModal == old(showModal) && editingTask == old(editingTask) && formData == old(formData)
    {
      sent := SaveRequest(editingTask, formData);
      if sent.Some? && requestOk {
        Close();
      }
    }
  }
}
