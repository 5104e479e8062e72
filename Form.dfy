/** The live form: the row counter kept in the session, the rows read back from
    the text inputs, and the gate that enables the Submit button. */
module Form {
  import opened Text
  import opened Wrappers
  import opened Email

  /** One "University i" block: its four text inputs, in the form's column order. */
  datatype ContactRow = ContactRow(university: string, contact: string, designation: string, email: string)
  {
    /** The row's values in the order of its keys: University Name, Contact Name,
        Designation, Email. */
    function Fields(): seq<string>
    {
      [university, contact, designation, email]
    }

    /** `all(entry.values())`: no field is the empty string. */
    predicate IsComplete()
    {
      university != [] && contact != [] && designation != [] && email != []
    }

    predicate HasGoodEmail()
    {
      IsEmail(Some(email))
    }

    /** Complete and with a well-formed e-mail address. */
    predicate IsValid()
    {
      IsComplete() && HasGoodEmail()
    }

    predicate IsStrippedRow()
    {
      IsStripped(university) && IsStripped(contact) && IsStripped(designation) && IsStripped(email)
    }
  }

  /** The row of inputs nobody has typed into. */
  const EmptyRow := ContactRow("", "", "", "")

  /** Each input is read with `.strip()`: every field of the row read is free of
      surrounding whitespace. */
  function StripRow(raw: ContactRow): (r: ContactRow)
    ensures r.IsStrippedRow()
  {
    ContactRow(Strip(raw.university), Strip(raw.contact), Strip(raw.designation), Strip(raw.email))
  }

  /** The raw inputs of block `i`; a block whose inputs were never rendered reads as empty. */
  function WidgetRow(widgets: map<nat, ContactRow>, i: nat): ContactRow
  {
    if i in widgets then widgets[i] else EmptyRow
  }

  /** A row read from the form is complete exactly when none of its raw inputs is blank. */
  lemma CollectedRowComplete(raw: ContactRow)
    ensures StripRow(raw).IsComplete() <==>
      !AllSpace(raw.university) && !AllSpace(raw.contact) && !AllSpace(raw.designation) && !AllSpace(raw.email)
  {
    StripEmptyIff(raw.university);
    StripEmptyIff(raw.contact);
    StripEmptyIff(raw.designation);
    StripEmptyIff(raw.email);
  }

  /** The per-user session state: how many university blocks the form shows. */
  class Session {
    var numUniversities: nat

    ghost predicate Valid()
      reads this
    {
      numUniversities >= 1
    }

    /** First run of the page: one block. */
    constructor ()
      ensures Valid() && numUniversities == 1
    {
      numUniversities := 1;
    }

    /** "Add university contact": one more block. */
    method AddUniversity()
      requires Valid()
      modifies this
      ensures Valid() && numUniversities == old(numUniversities) + 1
    {
      numUniversities := numUniversities + 1;
    }

    /** Read the blocks 0 .. numUniversities - 1 from the inputs, stripping every field. */
    method CollectRows(widgets: map<nat, ContactRow>) returns (rows: seq<ContactRow>)
      ensures |rows| == numUniversities
      ensures forall i :: 0 <= i < |rows| ==> rows[i] == StripRow(WidgetRow(widgets, i))
    {
      rows := [];
      var i := 0;
      while i < numUniversities
        invariant 0 <= i <= numUniversities
        invariant |rows| == i
        invariant forall j :: 0 <= j < i ==> rows[j] == StripRow(WidgetRow(widgets, j))
      {
        var raw := WidgetRow(widgets, i);
        rows := rows + [StripRow(raw)];
        i := i + 1;
      }
    }
  }

  /** Some row has all four fields filled in. */
  predicate HasCompleteRow(rows: seq<ContactRow>)
  {
    exists i :: 0 <= i < |rows| && rows[i].IsComplete()
  }

  /** No complete row has a malformed e-mail address. */
  predicate CompleteRowsHaveGoodEmail(rows: seq<ContactRow>)
  {
    forall i :: 0 <= i < |rows| && rows[i].IsComplete() ==> rows[i].HasGoodEmail()
  }

  /** When the Submit button is enabled: then the faculty name is not blank and
      some row is valid. */
  predicate CanSubmit(facultyName: string, rows: seq<ContactRow>): (enabled: bool)
    ensures enabled ==> Strip(facultyName) != [] && exists i :: 0 <= i < |rows| && rows[i].IsValid()
  {
    Strip(facultyName) != [] && HasCompleteRow(rows) && CompleteRowsHaveGoodEmail(rows)
  }

  /** Row `k` is the first complete row whose e-mail address is malformed. */
  predicate IsFirstBadRow(rows: seq<ContactRow>, k: int)
  {
    && 0 <= k < |rows| && rows[k].IsComplete() && !rows[k].HasGoodEmail()
    && forall j :: 0 <= j < k ==> !rows[j].IsComplete() || rows[j].HasGoodEmail()
  }

  /** The gate computed on every run of the page: whether Submit is enabled, and
      the e-mail address shown in the "Invalid email format" warning, if any. */
  method EvaluateSubmit(facultyName: string, rows: seq<ContactRow>) returns (canSubmit: bool, warning: Option<string>)
    ensures canSubmit <==> CanSubmit(facultyName, rows)
    ensures Strip(facultyName) == [] ==> !canSubmit
    ensures warning.Some? <==> HasCompleteRow(rows) && !CompleteRowsHaveGoodEmail(rows)
    ensures warning.Some? ==> exists k :: IsFirstBadRow(rows, k) && warning.value == rows[k].email
  {
    var hasCompleteRow := exists i | 0 <= i < |rows| :: rows[i].IsComplete();
    warning := None;
    if hasCompleteRow {
      var i := 0;
      while i < |rows|
        invariant 0 <= i <= |rows|
        invariant forall j :: 0 <= j < i ==> !rows[j].IsComplete() || rows[j].HasGoodEmail()
      {
        if rows[i].IsComplete() && !IsEmail(Some(rows[i].email)) {
          hasCompleteRow := false;
          warning := Some(rows[i].email);
          assert IsFirstBadRow(rows, i);
          break;
        }
        i := i + 1;
      }
    }
    canSubmit := Strip(facultyName) != [] && hasCompleteRow;
  }

  /** A row with a blank field takes no part in the gate: removing it changes nothing. */
  lemma {:induction false} IncompleteRowIgnored(facultyName: string, before: seq<ContactRow>, r: ContactRow, after: seq<ContactRow>)
    requires !r.IsComplete()
    ensures CanSubmit(facultyName, before + [r] + after) == CanSubmit(facultyName, before + after)
  {
    var rows, rest := before + [r] + after, before + after;
    // Index i of `rest` is index Up(i) of `rows`.
    var n := |before|;
    assert forall i :: 0 <= i < |rest| ==> rest[i] == rows[if i < n then i else i + 1];
    assert forall i :: 0 <= i < |rows| && i != n ==> rows[i] == rest[if i < n then i else i - 1];
    if HasCompleteRow(rows) {
      var i :| 0 <= i < |rows| && rows[i].IsComplete();
      assert rest[if i < n then i else i - 1].IsComplete();
    }
    if HasCompleteRow(rest) {
      var i :| 0 <= i < |rest| && rest[i].IsComplete();
      assert rows[if i < n then i else i + 1].IsComplete();
    }
    if CompleteRowsHaveGoodEmail(rest) {
      forall i | 0 <= i < |rows| && rows[i].IsComplete()
        ensures rows[i].HasGoodEmail()
      {
        assert rest[if i < n then i else i - 1] == rows[i];
      }
    }
    if CompleteRowsHaveGoodEmail(rows) {
      forall i | 0 <= i < |rest| && rest[i].IsComplete()
        ensures rest[i].HasGoodEmail()
      {
        assert rows[if i < n then i else i + 1] == rest[i];
      }
    }
  }
}
