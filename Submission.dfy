/** The Submit handler: keep the valid rows, turn each into a five-column record
    headed by the faculty name, and append the records to the submissions store. */
module Submission {
  import opened Text
  import opened Wrappers
  import opened Email
  import opened Form

  /** One line of the submissions table. */
  datatype Record = Record(faculty: string, university: string, contact: string, designation: string, email: string)
  {
    /** The record's cells, in the table's column order. */
    function Columns(): seq<string>
    {
      [faculty, university, contact, designation, email]
    }

    /** The contact part of the record, as the row it was made from. */
    function Contact(): ContactRow
    {
      ContactRow(university, contact, designation, email)
    }

    /** What every record written by Submit satisfies. */
    predicate IsWellFormed()
    {
      IsStripped(faculty) && Contact().IsValid()
    }
  }

  /** The table's header line. */
  const Header: seq<string> := ["Faculty Name", "University Name", "Contact Name", "Designation", "Email"]

  /** `[x for x in xs if keep(x)]`. */
  function Filter<T>(xs: seq<T>, keep: T -> bool): (ys: seq<T>)
    ensures |ys| <= |xs|
    ensures forall k :: 0 <= k < |ys| ==> keep(ys[k])
  {
    if xs == [] then []
    else (if keep(xs[0]) then [xs[0]] else []) + Filter(xs[1..], keep)
  }

  /** The indices `lo <= i < |xs|` of the kept elements, in increasing order. */
  function KeptIndicesFrom<T>(xs: seq<T>, keep: T -> bool, lo: nat): (idx: seq<nat>)
    requires lo <= |xs|
    ensures forall k :: 0 <= k < |idx| ==> lo <= idx[k] < |xs| && keep(xs[idx[k]])
    ensures forall k, l :: 0 <= k < l < |idx| ==> idx[k] < idx[l]
    ensures forall i :: lo <= i < |xs| && keep(xs[i]) ==> i in idx
    decreases |xs| - lo
  {
    if lo == |xs| then []
    else (if keep(xs[lo]) then [lo] else []) + KeptIndicesFrom(xs, keep, lo + 1)
  }

  /** Entry k of the filtered suffix `xs[lo..]` is element KeptIndicesFrom(xs, keep, lo)[k]. */
  lemma {:induction false} FilterSelects<T>(xs: seq<T>, keep: T -> bool, lo: nat)
    requires lo <= |xs|
    ensures |Filter(xs[lo..], keep)| == |KeptIndicesFrom(xs, keep, lo)|
    ensures forall k :: 0 <= k < |KeptIndicesFrom(xs, keep, lo)| ==>
      Filter(xs[lo..], keep)[k] == xs[KeptIndicesFrom(xs, keep, lo)[k]]
    decreases |xs| - lo
  {
    if lo < |xs| {
      FilterSelects(xs, keep, lo + 1);
      assert xs[lo..][1..] == xs[lo + 1..];
    }
  }

  /** Filtering distributes over concatenation. */
  lemma {:induction false} FilterAppend<T>(a: seq<T>, b: seq<T>, keep: T -> bool)
    ensures Filter(a + b, keep) == Filter(a, keep) + Filter(b, keep)
  {
    if a != [] {
      FilterAppend(a[1..], b, keep);
      var head := if keep(a[0]) then [a[0]] else [];
      assert (a + b)[0] == a[0];
      assert (a + b)[1..] == a[1..] + b;
      calc {
        Filter(a + b, keep);
        head + Filter(a[1..] + b, keep);
        head + (Filter(a[1..], keep) + Filter(b, keep));
        (head + Filter(a[1..], keep)) + Filter(b, keep);
        Filter(a, keep) + Filter(b, keep);
      }
    } else {
      assert a + b == b;
    }
  }

  /** An element that fails the test leaves the rest of the result as it was. */
  lemma FilterSkips<T>(a: seq<T>, x: T, b: seq<T>, keep: T -> bool)
    requires !keep(x)
    ensures Filter(a + [x] + b, keep) == Filter(a + b, keep)
  {
    FilterAppend(a + [x], b, keep);
    FilterAppend(a, [x], keep);
    FilterAppend(a, b, keep);
    assert Filter([x], keep) == [];
  }

  /** An element is kept exactly when it occurs in the input and passes the test. */
  lemma {:induction false} FilterMembership<T>(xs: seq<T>, keep: T -> bool, x: T)
    ensures x in Filter(xs, keep) <==> x in xs && keep(x)
  {
    if xs != [] {
      FilterMembership(xs[1..], keep, x);
      assert xs == [xs[0]] + xs[1..];
    }
  }

  predicate IsValidRow(r: ContactRow)
  {
    r.IsValid()
  }

  /** `[e for e in university_data if all(e.values()) and is_email(e["Email"])]`. */
  function ValidEntries(rows: seq<ContactRow>): (entries: seq<ContactRow>)
    ensures |entries| <= |rows|
    ensures forall k :: 0 <= k < |entries| ==> entries[k].IsValid()
  {
    Filter(rows, IsValidRow)
  }

  /** The valid entries of the form are its valid rows, all of them, in form order:
      entry k is row idx[k], idx increases, and idx holds exactly the valid rows. */
  lemma ValidEntriesAreValidRows(rows: seq<ContactRow>)
    ensures var idx := KeptIndicesFrom(rows, IsValidRow, 0);
      && |ValidEntries(rows)| == |idx|
      && (forall k :: 0 <= k < |idx| ==> ValidEntries(rows)[k] == rows[idx[k]])
      && (forall k, l :: 0 <= k < l < |idx| ==> idx[k] < idx[l])
      && (forall i :: 0 <= i < |rows| ==> (rows[i].IsValid() <==> i in idx))
  {
    FilterSelects(rows, IsValidRow, 0);
    assert rows[0..] == rows;
  }

  /** A row is an entry exactly when it is one of the rows and is valid. */
  lemma ValidEntriesMembership(rows: seq<ContactRow>, r: ContactRow)
    ensures r in ValidEntries(rows) <==> r in rows && r.IsValid()
  {
    FilterMembership(rows, IsValidRow, r);
  }

  /** A row with a blank field is dropped and does not disturb the other rows' entries. */
  lemma IncompleteRowDropped(before: seq<ContactRow>, r: ContactRow, after: seq<ContactRow>)
    requires !r.IsComplete()
    ensures ValidEntries(before + [r] + after) == ValidEntries(before + after)
  {
    assert !IsValidRow(r);
    FilterSkips(before, r, after, IsValidRow);
  }

  /** When Submit is enabled there is something to save. */
  lemma SubmittableHasValidEntry(facultyName: string, rows: seq<ContactRow>)
    requires CanSubmit(facultyName, rows)
    ensures ValidEntries(rows) != []
  {
    var i :| 0 <= i < |rows| && rows[i].IsComplete();
    ValidEntriesMembership(rows, rows[i]);
  }

  /** The gate is stricter than the filter: a complete row with a malformed
      address keeps Submit disabled although another row is valid and would be saved. */
  lemma BadRowBlocksValidRow(facultyName: string, good: ContactRow, bad: ContactRow)
    requires good.IsValid() && bad.IsComplete() && !bad.HasGoodEmail()
    ensures ValidEntries([good, bad]) == [good]
    ensures !CanSubmit(facultyName, [good, bad])
  {
    FilterAppend([good], [bad], IsValidRow);
    assert [good, bad] == [good] + [bad];
    assert [good, bad][1] == bad;
  }

  /** A form with a faculty name and a single valid row can be submitted, and saves that row. */
  lemma OneValidRow(facultyName: string, row: ContactRow)
    requires Strip(facultyName) != [] && row.IsValid()
    ensures CanSubmit(facultyName, [row]) && ValidEntries([row]) == [row]
  {
    assert [row][0] == row && [row][1..] == [];
  }

  lemma AcceptsBob()
    ensures IsEmail(Some("bob@ut.edu"))
  {
    var t := "bob@ut.edu";
    StripOfStripped(t);
    assert AllLocal(t[..3]) && AllDomain(t[4..6]) && AllLetters(t[7..]);
    assert PatternSplit(t, 3, 6);
    EmailShapeCorrect(t);
  }

  /** Jane's form with one complete row for Bob at UT can be submitted, and that row is its only entry. */
  lemma JaneExample()
    ensures var row := ContactRow("UT", "Bob", "Dean", "bob@ut.edu");
      CanSubmit("Jane", [row]) && ValidEntries([row]) == [row]
  {
    AcceptsBob();
    StripOfStripped("Jane");
    OneValidRow("Jane", ContactRow("UT", "Bob", "Dean", "bob@ut.edu"));
  }

  /** `{"Faculty Name": faculty_name.strip(), **e}`: the entry, unchanged, behind the
      stripped faculty name; a record made from a valid entry is well formed. */
  function RecordOf(facultyName: string, e: ContactRow): (r: Record)
    ensures IsStripped(r.faculty) && r.Contact() == e
    ensures e.IsValid() ==> r.IsWellFormed()
  {
    Record(Strip(facultyName), e.university, e.contact, e.designation, e.email)
  }

  /** The records of one submission, one per valid entry, in entry order. */
  function MakeRecords(facultyName: string, entries: seq<ContactRow>): (recs: seq<Record>)
    ensures |recs| == |entries|
    ensures forall k :: 0 <= k < |recs| ==>
      recs[k].Columns() == [Strip(facultyName)] + entries[k].Fields() && recs[k].Contact() == entries[k]
  {
    seq(|entries|, k requires 0 <= k < |entries| => RecordOf(facultyName, entries[k]))
  }

  /** Every record made from the valid entries satisfies the store's invariant. */
  lemma {:induction false} NewRecordsWellFormed(facultyName: string, rows: seq<ContactRow>)
    ensures forall k :: 0 <= k < |MakeRecords(facultyName, ValidEntries(rows))| ==>
      MakeRecords(facultyName, ValidEntries(rows))[k].IsWellFormed()
  {
  }

  /** The table as written to disk: nothing when the file does not exist, else the
      header line followed by one line per record. */
  function CsvTable(file: Option<seq<Record>>): (table: seq<seq<string>>)
    ensures file.None? ==> table == []
    ensures file.Some? ==> |table| == |file.value| + 1 && table[0] == Header
    ensures file.Some? ==> forall k :: 0 <= k < |file.value| ==> table[k + 1] == file.value[k].Columns()
  {
    match file
    case None => []
    case Some(recs) => [Header] + seq(|recs|, k requires 0 <= k < |recs| => recs[k].Columns())
  }

  /** What the page shows after Submit is pressed. */
  datatype SubmitOutcome =
    | Saved               // "Form submitted successfully"
    | NoValidEntries      // "Please complete at least one university section with a valid email."

  /** The submissions file, `submissions.csv`. */
  class Store {
    /** None while the file does not exist; otherwise its records, header left implicit. */
    var file: Option<seq<Record>>

    function Records(): seq<Record>
      reads this
    {
      match file
      case None => []
      case Some(recs) => recs
    }

    /** Every stored record came from a valid row. */
    ghost predicate Valid()
      reads this
    {
      forall k :: 0 <= k < |Records()| ==> Records()[k].IsWellFormed()
    }

    /** No submissions file yet. */
    constructor Absent()
      ensures file == None && Valid()
    {
      file := None;
    }

    /** A submissions file that already holds `recs`. */
    constructor Existing(recs: seq<Record>)
      ensures file == Some(recs) && Records() == recs
    {
      file := Some(recs);
    }

    /** Pressing Submit: filter the rows, build the records and rewrite the file as
        its old records followed by the new ones. */
    method Submit(facultyName: string, rows: seq<ContactRow>) returns (outcome: SubmitOutcome)
      modifies this
      ensures var recs := MakeRecords(facultyName, ValidEntries(rows));
        && (recs == [] ==> file == old(file) && outcome == NoValidEntries)
        && (recs != [] ==> file == Some(old(Records()) + recs) && outcome == Saved)
      ensures old(Records()) <= Records()
      ensures |Records()| == |old(Records())| + |ValidEntries(rows)|
      ensures Valid() == old(Valid())
    {
      var validEntries := ValidEntries(rows);
      if validEntries == [] {
        outcome := NoValidEntries;
      } else {
        var df := MakeRecords(facultyName, validEntries);
        NewRecordsWellFormed(facultyName, rows);
        if file.Some? {
          file := Some(file.value + df);
        } else {
          file := Some(df);
          assert df == [] + df;
        }
        outcome := Saved;
      }
    }
  }

  /** Two submissions with one valid row each, into a fresh store, leave the header
      line and the two records, in submission order. */
  method TwoSubmissions(f1: string, rows1: seq<ContactRow>, f2: string, rows2: seq<ContactRow>)
    returns (table: seq<seq<string>>)
    requires |ValidEntries(rows1)| == 1 && |ValidEntries(rows2)| == 1
    ensures |table| == 3 && table[0] == Header
    ensures table[1] == [Strip(f1)] + ValidEntries(rows1)[0].Fields()
    ensures table[2] == [Strip(f2)] + ValidEntries(rows2)[0].Fields()
  {
    var r1, r2 := MakeRecords(f1, ValidEntries(rows1)), MakeRecords(f2, ValidEntries(rows2));
    assert r1 != [] && [] + r1 == r1;
    var store := new Store.Absent();
    var _ := store.Submit(f1, rows1);
    assert store.file == Some(r1);
    var _ := store.Submit(f2, rows2);
    assert store.file == Some(r1 + r2);
    table := CsvTable(store.file);
    assert (r1 + r2)[0] == r1[0] && (r1 + r2)[1] == r2[0];
  }

  /** One submission onto an existing file: the old lines keep their place and the
      new records follow them, in entry order. */
  method SubmitOntoExisting(recs: seq<Record>, facultyName: string, rows: seq<ContactRow>)
    returns (table: seq<seq<string>>)
    ensures var entries := ValidEntries(rows);
      && |table| == |recs| + |entries| + 1 && table[0] == Header
      && (forall k :: 0 <= k < |recs| ==> table[k + 1] == recs[k].Columns())
      && (forall k :: 0 <= k < |entries| ==> table[|recs| + 1 + k] == [Strip(facultyName)] + entries[k].Fields())
  {
    var store := new Store.Existing(recs);
    var _ := store.Submit(facultyName, rows);
    var df := MakeRecords(facultyName, ValidEntries(rows));
    if df == [] {
      assert recs + df == recs;
    }
    assert store.file == Some(recs + df);
    table := CsvTable(store.file);
    forall k | 0 <= k < |df|
      ensures table[|recs| + 1 + k] == [Strip(facultyName)] + ValidEntries(rows)[k].Fields()
    {
      assert (recs + df)[|recs| + k] == df[k];
    }
  }
}
