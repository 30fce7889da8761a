/** The add-task form: five fields the user edits one at a time, and a
    submit that hands the fields to the task screen only when the title is
    not blank, then clears the form. */
module TaskForm {
  import opened Tasks
  import Text

  datatype Option<T> = None | Some(value: T)

  /** The form's state. The due date is kept as the day it names. */
  datatype Form = Form(
    title: string,
    description: string,
    dueDate: Day,
    priority: Priority,
    category: string)

  /** What the form shows when it appears and after every accepted submit:
      empty texts, today's date and medium priority. */
  function Initial(today: Day): (f: Form)
    ensures f.title == [] && f.description == [] && f.category == []
    ensures f.dueDate == today && f.priority == Medium
  {
    Form([], [], today, Medium, [])
  }

  /** The inputs the user can change: three text fields, the date field and
      the three priority buttons. */
  datatype Edit =
    | EditTitle(title: string)
    | EditDescription(description: string)
    | EditCategory(category: string)
    | EditDueDate(day: Day)
    | SelectPriority(priority: Priority)

  /** One input event: it sets its own field and leaves the others alone. */
  function Step(f: Form, e: Edit): (r: Form)
    ensures e.EditTitle? ==> r == f.(title := e.title)
    ensures e.EditDescription? ==> r == f.(description := e.description)
    ensures e.EditCategory? ==> r == f.(category := e.category)
    ensures e.EditDueDate? ==> r == f.(dueDate := e.day)
    ensures e.SelectPriority? ==> r == f.(priority := e.priority)
  {
    match e
    case EditTitle(s) => Form(s, f.description, f.dueDate, f.priority, f.category)
    case EditDescription(s) => Form(f.title, s, f.dueDate, f.priority, f.category)
    case EditCategory(s) => Form(f.title, f.description, f.dueDate, f.priority, s)
    case EditDueDate(d) => Form(f.title, f.description, d, f.priority, f.category)
    case SelectPriority(p) => Form(f.title, f.description, f.dueDate, p, f.category)
  }

  /** Both events set the same field. */
  predicate SameField(e1: Edit, e2: Edit) {
    || (e1.EditTitle? && e2.EditTitle?)
    || (e1.EditDescription? && e2.EditDescription?)
    || (e1.EditCategory? && e2.EditCategory?)
    || (e1.EditDueDate? && e2.EditDueDate?)
    || (e1.SelectPriority? && e2.SelectPriority?)
  }

  /** Setting a field twice keeps only the second value; setting two
      different fields gives the same form in either order. */
  lemma StepsInteract(f: Form, e1: Edit, e2: Edit)
    ensures SameField(e1, e2) ==> Step(Step(f, e1), e2) == Step(f, e2)
    ensures !SameField(e1, e2) ==> Step(Step(f, e1), e2) == Step(Step(f, e2), e1)
  {
  }

  datatype Submitted = Submitted(form: Form, emitted: Option<TaskFields>)

  /** `handleSubmit`: a title that trims to nothing submits nothing and
      leaves the form as it is; otherwise the five fields go out exactly as
      typed (the title is not trimmed) and the form returns to its initial
      state for the current day. */
  function Submit(f: Form, today: Day): (r: Submitted)
    ensures r.emitted.None? <==> Text.AllWhitespace(f.title)
    ensures r.emitted.None? ==> r.form == f
    ensures r.emitted.Some? ==>
      && r.emitted.value == TaskFields(f.title, f.description, f.dueDate, f.priority, f.category)
      && r.form == Initial(today)
  {
    if Text.Trim(f.title) == [] then Submitted(f, None)
    else Submitted(Initial(today), Some(TaskFields(f.title, f.description, f.dueDate, f.priority, f.category)))
  }

  /** Whatever the form emits has a title that is not blank. */
  lemma SubmitEmitsTitled(f: Form, today: Day)
    ensures Submit(f, today).emitted.Some? ==> !Text.AllWhitespace(Submit(f, today).emitted.value.title)
  {
  }

  /** Pressing the button again right after an accepted submit emits
      nothing: the cleared title is blank. */
  lemma SubmitTwiceEmitsOnce(f: Form, today: Day, later: Day)
    requires Submit(f, today).emitted.Some?
    ensures Submit(Submit(f, today).form, later).emitted.None?
    ensures Submit(Submit(f, today).form, later).form == Initial(today)
  {
  }

  /** Filling in every field and submitting emits exactly what was typed,
      whatever the form held before, provided the title is not blank. */
  lemma FillAndSubmit(f: Form, fields: TaskFields, today: Day)
    requires !Text.AllWhitespace(fields.title)
    ensures var g := Step(Step(Step(Step(Step(f,
                       EditTitle(fields.title)), EditDescription(fields.description)),
                       EditCategory(fields.category)), EditDueDate(fields.dueDate)),
                       SelectPriority(fields.priority));
            Submit(g, today) == Submitted(Initial(today), Some(fields))
  {
  }
}
