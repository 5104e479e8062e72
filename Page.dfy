/** One run of the page, top to bottom: read the rows, compute the gate, then act
    on the button that was pressed. */
module Page {
  import opened Text
  import opened Wrappers
  import opened Form
  import opened Submission

  /** The rows the page reads when it shows `n` blocks. */
  function FormRows(n: nat, widgets: map<nat, ContactRow>): (rows: seq<ContactRow>)
    ensures |rows| == n
  {
    seq(n, i requires 0 <= i < n => StripRow(WidgetRow(widgets, i)))
  }

  /** One pass of the script. `addPressed`: "Add university contact" was clicked,
      which reruns the page at once, so nothing after it runs. `submitClicked`: what
      `st.button("Submit", ...)` returns, true on the pass that handles a click on the
      button as the previous pass drew it. An input edit committed together with that
      click is already in `widgets` and `facultyName`, so the handler runs on the
      click alone and filters the rows afresh. `canSubmit` is the gate the button is
      drawn with for the next click. */
  method RunPage(session: Session, store: Store, widgets: map<nat, ContactRow>, facultyName: string,
                 addPressed: bool, submitClicked: bool)
    returns (canSubmit: bool, submitted: Option<SubmitOutcome>)
    requires session.Valid()
    modifies session, store
    ensures session.Valid() && store.Valid() == old(store.Valid())
    ensures addPressed ==>
      && session.numUniversities == old(session.numUniversities) + 1
      && store.file == old(store.file) && submitted == None && !canSubmit
    ensures var rows := FormRows(old(session.numUniversities), widgets);
      !addPressed ==>
        && session.numUniversities == old(session.numUniversities)
        && (canSubmit <==> CanSubmit(facultyName, rows))
    ensures var rows := FormRows(old(session.numUniversities), widgets);
      !addPressed && submitClicked ==>
        && (ValidEntries(rows) == [] ==> store.file == old(store.file) && submitted == Some(NoValidEntries))
        && (ValidEntries(rows) != [] ==>
              && store.Records() == old(store.Records()) + MakeRecords(facultyName, ValidEntries(rows))
              && submitted == Some(Saved))
    ensures var rows := FormRows(old(session.numUniversities), widgets);
      !addPressed && submitClicked && CanSubmit(facultyName, rows) ==> submitted == Some(Saved)
    ensures addPressed || !submitClicked ==> store.file == old(store.file) && submitted == None
  {
    var rows := session.CollectRows(widgets);
    assert rows == FormRows(session.numUniversities, widgets);
    if addPressed {
      session.AddUniversity();
      return false, None;
    }
    var warning;
    canSubmit, warning := EvaluateSubmit(facultyName, rows);
    if submitClicked {
      if canSubmit {
        SubmittableHasValidEntry(facultyName, rows);
      }
      var outcome := store.Submit(facultyName, rows);
      submitted := Some(outcome);
    } else {
      submitted := None;
    }
  }
}
