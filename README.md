# University contact intake form — Dafny model

The application is a single Streamlit page (`app.py`). A faculty member types a
name and one or more "University" blocks. Each block has a university name, a
contact name, a designation and an e-mail address. An "Add university contact"
button adds another block. The Submit button stays disabled until the form
passes a gate. When it is pressed, the valid blocks are turned into five-column
records, headed by the faculty name, and appended to `submissions.csv`.

This project models the logic under that page:

- `Text.dfy` (module `Text`): Python's `str.strip()`. The whitespace set is
  the one `str.isspace()` uses.
- `Email.dfy` (module `Email`): `is_email`. The regular expression
  `^[A-Za-z0-9._%+-]+@[A-Za-z0-9.-]+\.[A-Za-z]{2,}$` is modelled in two ways. It is
  stated declaratively as a split `L @ D . T` (`MatchesPattern`). It is also
  decided by a computable check (`EmailShape`), which finds the first `@` and
  the last `.` after it. A lemma proves the two agree. Python's `$` also
  matches before a final line feed (`RegexMatch`), and the input is first
  passed through `(s or "").strip()`.
- `Form.dfy` (module `Form`): a contact row, the session counter
  `num_universities` (class `Session`), the loop that reads and strips the
  inputs (`Session.CollectRows`), and the gate that enables Submit
  (`EvaluateSubmit`). The gate's loop stops at the first complete row with a
  bad address.
- `Submission.dfy` (module `Submission`): the valid-entry filter, written as
  an order-preserving `Filter`. It also holds the construction of the records
  and the submissions file (class `Store`). The file is either absent or a
  sequence of records; submitting rewrites it as old records followed by new
  ones.
- `Page.dfy` (module `Page`): one top-to-bottom run of the page. It reads the
  rows, computes the gate the Submit button is drawn with, and then acts on
  "Add" or on a Submit click. The click was made on the button as the previous
  run drew it, and an input edit sent with the click is already in this run's
  rows, so the handler filters the rows afresh and can reach the "no valid
  entries" warning (app.py:199-200).
- `Wrappers.dfy`: the `Option` type used for Python's `None`.

The gate is stricter than "some row is valid": every complete row must also
have a well-formed address (app.py:177-182). One complete row with a bad address
keeps Submit disabled even when another row is valid and would be saved
(`BadRowBlocksValidRow`).

## Model

| member | source | states |
|---|---|---|
| Text.TrimLeftRemovesSpacePrefix | app.py:71 | the left half of `strip()` removes exactly a whitespace prefix, and what is left does not start with whitespace |
| Text.TrimRightRemovesSpaceSuffix | app.py:71 | the right half of `strip()` removes exactly a whitespace suffix, and what is left does not end in whitespace |
| Text.Strip | app.py:71 | the result of `strip()` neither starts nor ends with whitespace and is no longer than the input |
| Text.StripIsTrimmedSlice | app.py:71 | `strip()` returns a contiguous slice of its input, and everything cut off on either side is whitespace |
| Text.StripOfStripped | app.py:71 | a string without surrounding whitespace is unchanged by `strip()` |
| Text.StripIdempotent | app.py:71 | stripping twice is the same as stripping once |
| Text.StripEmptyIff | app.py:184 | a stripped value, such as the faculty name, is empty exactly when the raw input is all whitespace |
| Email.FindFirst | app.py:69 | returns the index of the first occurrence of the character, or None exactly when it does not occur |
| Email.FindLast | app.py:69 | returns the index of the last occurrence of the character, or None exactly when it does not occur |
| Email.EmailShapeCorrect | app.py:69 | the computed check accepts a string exactly when it splits as L + "@" + D + "." + T. L is one or more of `[A-Za-z0-9._%+-]`, D is one or more of `[A-Za-z0-9.-]`, and T is two or more ASCII letters |
| Email.RegexMatch | app.py:69 | on a string without surrounding whitespace, `re.match` with the final `$` accepts exactly what the computed check accepts; the line-feed allowance of `$` adds nothing there |
| Email.IsEmail | app.py:69-71 | `is_email(s)` holds exactly when `(s or "").strip()` matches the pattern L + "@" + D + "." + T in full; after stripping, the `$` line-feed allowance never applies |
| Email.IsEmailIgnoresSurroundingSpace | app.py:71 | `is_email(s) == is_email(s.strip())` |
| Email.AcceptedHasOneAt | app.py:69 | every accepted address contains exactly one `@` |
| Email.BlankRejected | app.py:71 | None, the empty string and an all-whitespace string are rejected |
| Email.AcceptsShortAddress | app.py:69-71 | "a@b.co" is accepted |
| Email.RejectsMissingTopLevelDomain | app.py:69-71 | "a@b" is rejected |
| Email.RejectsEmpty | app.py:69-71 | "" is rejected |
| Form.StripRow | app.py:150-153 | every field of a row read from the form is free of surrounding whitespace |
| Form.CollectedRowComplete | app.py:150-153 | a row read from the form is complete exactly when none of its four raw inputs is blank |
| Form.Session.constructor | app.py:76-77 | a new session shows one university block |
| Form.Session.AddUniversity | app.py:166-167 | "Add university contact" raises the block count by exactly one and keeps it at least 1 |
| Form.Session.CollectRows | app.py:147-159 | yields one row per block, in block order; row i is block i's inputs, each stripped, and a never-filled block reads as empty |
| Form.EvaluateSubmit | app.py:174-184 | Submit is enabled iff the stripped faculty name is non-empty, some row is complete, and every complete row has a well-formed address; an empty faculty name always disables it; a warning is raised iff some row is complete and a complete row has a bad address, and it shows the address of the first such row |
| Form.CanSubmit | app.py:174-184 | when Submit is enabled, the stripped faculty name is non-empty and some row is complete with a well-formed address |
| Form.IncompleteRowIgnored | app.py:174-182 | inserting or removing a row with a blank field never changes whether Submit is enabled |
| Submission.ValidEntries | app.py:198 | every valid entry is complete and has a well-formed address, and there are no more entries than rows |
| Submission.ValidEntriesAreValidRows | app.py:198 | the valid entries are exactly the rows that are complete and have a good address, taken in form order (entry k is row idx[k], idx strictly increases, and idx holds every valid row index and no other) |
| Submission.ValidEntriesMembership | app.py:198 | a row is among the valid entries iff it is one of the rows and is valid |
| Submission.FilterAppend | app.py:198 | filtering the concatenation of two row lists gives the two filtered lists, concatenated |
| Submission.IncompleteRowDropped | app.py:198 | a row with a blank field is dropped and the other rows' entries are unchanged |
| Submission.SubmittableHasValidEntry | app.py:174-200 | whenever the gate is on, there is at least one valid entry, so a click handled with the inputs the button was drawn with never reaches the "complete at least one section" warning |
| Submission.BadRowBlocksValidRow | app.py:177-198 | with one valid row and one complete row with a bad address, the filter would save the valid row, but Submit stays disabled |
| Submission.OneValidRow | app.py:174-198 | a form with a non-blank faculty name and a single valid row can be submitted, and that row is its only valid entry |
| Submission.JaneExample | app.py:174-198 | faculty "Jane" with one complete row (UT, Bob, Dean, bob@ut.edu) can submit, and that row is the only valid entry |
| Submission.RecordOf | app.py:202 | a record carries its entry unchanged behind the stripped faculty name, and a record made from a valid entry is well formed |
| Submission.MakeRecords | app.py:202 | one record per valid entry, in entry order; each record's columns are the stripped faculty name, then University Name, Contact Name, Designation, Email |
| Submission.NewRecordsWellFormed | app.py:198-202 | every record built on submit has a stripped faculty name and a complete row with a well-formed address |
| Submission.CsvTable | app.py:204-208 | an absent file has no lines; otherwise the table is the header line followed by one line per record, in record order |
| Submission.Store.Absent | app.py:204 | the store starts with no submissions file and satisfies its invariant |
| Submission.Store.Existing | app.py:204-205 | a store whose file already exists holds exactly the records read from it |
| Submission.Store.Submit | app.py:197-208 | with no valid entries the file is unchanged and the warning outcome is returned; otherwise the file becomes its old records followed by the new records (just the new records if it did not exist), and the success outcome is returned; old records keep their place, the record count grows by the number of valid entries, and the well-formedness invariant is kept |
| Submission.TwoSubmissions | app.py:203-208 | two submissions with one valid row each, into a store with no file, leave a header and two data lines, in submission order |
| Submission.SubmitOntoExisting | app.py:198-206 | one submission onto an existing file keeps the header and every old line in place and appends one line per valid entry, in entry order, each the stripped faculty name followed by the entry's four fields |
| Page.RunPage | app.py:145-209 | "Add" adds one block and touches nothing else; otherwise the Submit button is drawn enabled exactly when the gate holds; a handled Submit click filters the current rows afresh and either appends exactly the records of the valid entries with the success outcome, or, with no valid entry, leaves the file unchanged with the warning outcome; a click handled with the inputs the gate approved always saves; without a click the file is unchanged |

## Left out

- Everything visual is left out: page configuration, CSS, background and logo
  images, expanders, columns, captions, the info and success banners, and the
  footer (app.py:11-63, 83-140, 161-168, 186-192, 209-241).
- `st.rerun()` is left out. `Page.RunPage` models one pass of the script, and
  the add button ends that pass.
- The widgets are modelled as a map from block index to raw inputs. An
  unrendered block reads as empty, and Streamlit's keyed widget state is not
  modelled further.
- pandas is left out: `read_csv` type inference, quoting, and the byte-level CSV
  format. The file is a sequence of records behind an implicit header (`CsvTable`).
- Submission.Store.Submit: "old records keep their place" holds of the records as
  the model stores them, not of the bytes on disk. Each later submit reads the
  file back with `read_csv` (app.py:205-206), which turns earlier cells such as
  "N/A", "NA", "null" or "nan" into NaN and writes them back as empty cells. This
  is pandas' value conversion, which the model does not include.
- I/O failures are left out. Nothing in `app.py` catches them, so an exception
  ends the run.
- Two users rewriting `submissions.csv` at once can race. This is concurrency,
  outside a sequential model.
- There is no e-mail notification in `app.py`. The SMTP sender in the older
  draft `.ipynb_checkpoints/app-checkpoint.py` is not part of this model.
- `Text.IsSpace` lists the characters that `str.isspace()` accepts. Unicode
  normalisation and case are not involved and are not modelled.
