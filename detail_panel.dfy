/**
 * The list logic of the meeting detail dialog
 * (src/components/detailPanel/DetailPanel.tsx): which employees are listed,
 * whether each one's checkbox is ticked, what ticking or unticking does to
 * the form's attendee list, which department a selected name stands for,
 * and the payload sent when the form is saved.
 *
 * The form's `attendees` value is typed `number[]`, but `undefined` reaches
 * it: the default value maps the ids of `Partial<Employee>` attendees, and
 * ticking an employee without an id appends that employee's missing id. An
 * element of the list is therefore an `Option<int>`.
 */
module DetailPanel {
  import opened Types

  // ---------------------------------------------------------------------
  // The attendee list of the form
  // ---------------------------------------------------------------------

  /** The form's initial attendee list: the ids of the meeting's attendees, in order, or empty without a meeting. */
  function DefaultAttendees(meeting: Option<MeetingData>): (ids: seq<Option<int>>)
    ensures meeting.None? ==> ids == []
    ensures meeting.Some? ==> |ids| == |meeting.value.attendees|
    ensures meeting.Some? ==> forall i :: 0 <= i < |ids| ==> ids[i] == meeting.value.attendees[i].id
  {
    match meeting
    case None => []
    case Some(m) => seq(|m.attendees|, i requires 0 <= i < |m.attendees| => m.attendees[i].id)
  }

  /** `isChecked`: the employee has an id and the attendee list contains it. */
  function IsChecked(employeeId: Option<int>, attendees: seq<Option<int>>): (checked: bool)
    ensures checked ==> employeeId.Some?
    ensures checked <==> exists i :: 0 <= i < |attendees| && attendees[i].Some? && attendees[i] == employeeId
  {
    employeeId.Some? && employeeId in attendees
  }

  /** `filter((id) => id !== employee.id)`: the list with every occurrence of `id` taken out. */
  function Without(attendees: seq<Option<int>>, id: int): (r: seq<Option<int>>)
    ensures Some(id) !in r
    ensures |r| <= |attendees|
    ensures Some(id) in attendees ==> |r| < |attendees|
    ensures forall x :: x != Some(id) ==> multiset(r)[x] == multiset(attendees)[x]
  {
    if attendees == [] then []
    else
      var rest := Without(attendees[1..], id);
      assert attendees == [attendees[0]] + attendees[1..];
      if attendees[0] == Some(id) then rest else [attendees[0]] + rest
  }

  /** The checkbox's `onChange`: untick removes every occurrence of the id, tick appends the id at the end. */
  function ToggleAttendee(employeeId: Option<int>, attendees: seq<Option<int>>): (r: seq<Option<int>>)
    ensures IsChecked(employeeId, attendees) ==>
              && !IsChecked(employeeId, r)
              && |r| < |attendees|
              && forall x :: x != employeeId ==> multiset(r)[x] == multiset(attendees)[x]
    ensures !IsChecked(employeeId, attendees) ==>
              && |r| == |attendees| + 1
              && r[..|attendees|] == attendees
              && r[|attendees|] == employeeId
    ensures employeeId.Some? ==> (IsChecked(employeeId, r) <==> !IsChecked(employeeId, attendees))
  {
    if IsChecked(employeeId, attendees) then Without(attendees, employeeId.value)
    else attendees + [employeeId]
  }

  // ---------------------------------------------------------------------
  // Properties of the toggle
  // ---------------------------------------------------------------------

  /** Taking an id out distributes over concatenation, so everything else keeps its relative order. */
  lemma {:induction false} WithoutConcat(a: seq<Option<int>>, b: seq<Option<int>>, id: int)
    ensures Without(a + b, id) == Without(a, id) + Without(b, id)
  {
    if a == [] {
      assert a + b == b;
    } else {
      assert (a + b)[1..] == a[1..] + b;
      assert (a + b)[0] == a[0];
      WithoutConcat(a[1..], b, id);
    }
  }

  /** Taking out an id that is not there changes nothing. */
  lemma {:induction false} WithoutAbsent(a: seq<Option<int>>, id: int)
    requires Some(id) !in a
    ensures Without(a, id) == a
  {
    if a != [] {
      assert a == [a[0]] + a[1..];
      WithoutAbsent(a[1..], id);
    }
  }

  /** `sub` is obtained from `s` by deleting elements. */
  predicate IsSubsequence(sub: seq<Option<int>>, s: seq<Option<int>>)
    decreases |s|
  {
    if sub == [] then true
    else if s == [] then false
    else if sub[0] == s[0] then IsSubsequence(sub[1..], s[1..])
    else IsSubsequence(sub, s[1..])
  }

  /** Taking an id out keeps the other elements in their order: the result is a subsequence of the list. */
  lemma {:induction false} WithoutIsSubsequence(a: seq<Option<int>>, id: int)
    ensures IsSubsequence(Without(a, id), a)
  {
    if a != [] {
      var w := Without(a[1..], id);
      WithoutIsSubsequence(a[1..], id);
      if a[0] == Some(id) {
        assert w == [] || w[0] != a[0];
      } else {
        assert ([a[0]] + w)[1..] == w;
      }
    }
  }

  /** Ticking then unticking an employee whose id is not in the list gives the list back. */
  lemma ToggleTwiceAbsent(id: int, attendees: seq<Option<int>>)
    requires Some(id) !in attendees
    ensures ToggleAttendee(Some(id), ToggleAttendee(Some(id), attendees)) == attendees
  {
    WithoutConcat(attendees, [Some(id)], id);
    WithoutAbsent(attendees, id);
    assert Without([Some(id)], id) == [];
  }

  /** Unticking then ticking an employee whose id is in the list leaves one copy of it, moved to the end. */
  lemma ToggleTwicePresent(id: int, attendees: seq<Option<int>>)
    requires Some(id) in attendees
    ensures ToggleAttendee(Some(id), ToggleAttendee(Some(id), attendees)) == Without(attendees, id) + [Some(id)]
  {
  }

  /** Toggling one employee never changes whether an employee with a different id is ticked. */
  lemma ToggleLeavesOthers(e: Option<int>, other: Option<int>, attendees: seq<Option<int>>)
    requires other != e
    ensures IsChecked(other, ToggleAttendee(e, attendees)) == IsChecked(other, attendees)
  {
    var r := ToggleAttendee(e, attendees);
    if IsChecked(e, attendees) {
      assert multiset(r)[other] == multiset(attendees)[other];
      assert other in r <==> other in multiset(r);
    } else {
      assert r == attendees + [e];
    }
  }

  /** An employee without an id is never ticked, and clicking it appends a missing id every time. */
  lemma NoIdNeverChecked(attendees: seq<Option<int>>)
    ensures !IsChecked(None, attendees)
    ensures ToggleAttendee(None, attendees) == attendees + [None]
    ensures !IsChecked(None, ToggleAttendee(None, attendees))
  {
  }

  // ---------------------------------------------------------------------
  // The employees listed in the dialog
  // ---------------------------------------------------------------------

  /** `{ id: emp.id, name: emp.name }`: an employee reduced to its id and name. */
  function IdAndName(e: PartialEmployee): (shown: PartialEmployee)
  {
    PartialEmployee(e.id, e.name, None, None, None)
  }

  /**
   * The list the display effect computes: the selected department's
   * employees when they have been fetched (even an empty list), otherwise the
   * meeting's attendees, each reduced to id and name. `None` stands for the
   * effect returning early (no meeting), which leaves the list as it was.
   */
  function EmployeesToDisplay(meeting: Option<MeetingData>, departmentEmployees: Option<seq<PartialEmployee>>)
    : (r: Option<seq<PartialEmployee>>)
    ensures r.None? <==> meeting.None?
    ensures r.Some? ==>
              var source := if departmentEmployees.Some? then departmentEmployees.value else meeting.value.attendees;
              && |r.value| == |source|
              && forall i :: 0 <= i < |source| ==>
                   && r.value[i].id == source[i].id
                   && r.value[i].name == source[i].name
                   && r.value[i].email.None? && r.value[i].position.None? && r.value[i].department.None?
  {
    match meeting
    case None => None
    case Some(m) =>
      var source := if departmentEmployees.Some? then departmentEmployees.value else m.attendees;
      Some(seq(|source|, i requires 0 <= i < |source| => IdAndName(source[i])))
  }

  /** Before any department is chosen, every listed attendee that has an id starts out ticked. */
  lemma InitiallyAttendeesChecked(m: MeetingData, i: int)
    requires 0 <= i < |m.attendees|
    requires m.attendees[i].id.Some?
    ensures var shown := EmployeesToDisplay(Some(m), None).value;
            IsChecked(shown[i].id, DefaultAttendees(Some(m)))
  {
    var ids := DefaultAttendees(Some(m));
    assert ids[i] == m.attendees[i].id;
  }

  // ---------------------------------------------------------------------
  // Department lookup by name
  // ---------------------------------------------------------------------

  /** The index of the first department called `name`, if any. */
  function FirstNamed(departments: seq<Department>, name: string): (i: Option<nat>)
    ensures i.None? ==> forall j :: 0 <= j < |departments| ==> departments[j].name != name
    ensures i.Some? ==> i.value < |departments| && departments[i.value].name == name
    ensures i.Some? ==> forall j :: 0 <= j < i.value ==> departments[j].name != name
  {
    if departments == [] then None
    else if departments[0].name == name then Some(0)
    else
      match FirstNamed(departments[1..], name)
      case None => None
      case Some(k) => Some(k + 1)
  }

  /** `departments?.find((dpt) => dpt.name === value)?.id`. */
  function FindDepartmentId(departments: Option<seq<Department>>, name: string): (r: Option<int>)
    ensures departments.None? ==> r.None?
    ensures departments.Some? ==>
              (r.Some? <==> exists j :: 0 <= j < |departments.value| && departments.value[j].name == name)
    ensures r.Some? ==>
              exists j :: 0 <= j < |departments.value| && departments.value[j].name == name
                && departments.value[j].id == r.value
                && forall j' :: 0 <= j' < j ==> departments.value[j'].name != name
  {
    match departments
    case None => None
    case Some(ds) =>
      match FirstNamed(ds, name)
      case None => None
      case Some(j) => Some(ds[j].id)
  }

  // ---------------------------------------------------------------------
  // Choosing a department in the select
  // ---------------------------------------------------------------------

  /** The form's `department` value and the `selectedDepartmentId` state. */
  datatype DepartmentChoice = DepartmentChoice(formDepartment: string, selectedDepartmentId: Option<int>)

  /** Before any choice: the form's default `""` and no selected department. */
  const InitialDepartmentChoice := DepartmentChoice("", None)

  /**
   * The select's `onChange` as written: it replaces the field's own
   * `onChange`, so only the selected department id follows the choice and
   * the form's `department` value stays what it was.
   */
  function ChooseDepartmentAsWritten(state: DepartmentChoice, departments: Option<seq<Department>>, name: string)
    : (next: DepartmentChoice)
    ensures next.formDepartment == state.formDepartment
    ensures next.selectedDepartmentId == FindDepartmentId(departments, name)
    ensures next.selectedDepartmentId.Some? ==> departments.Some? && exists j :: 0 <= j < |departments.value| && departments.value[j].name == name
  {
    DepartmentChoice(state.formDepartment, FindDepartmentId(departments, name))
  }

  /** The select's `onChange` with the field updated as well: the form's `department` becomes the chosen name. */
  function ChooseDepartment(state: DepartmentChoice, departments: Option<seq<Department>>, name: string)
    : (next: DepartmentChoice)
    ensures next.formDepartment == name
    ensures next.selectedDepartmentId == FindDepartmentId(departments, name)
    ensures next.selectedDepartmentId.Some? ==> departments.Some? && exists j :: 0 <= j < |departments.value| && departments.value[j].name == name
  {
    DepartmentChoice(name, FindDepartmentId(departments, name))
  }

  /** The state after the user chooses each name of `names` in turn, with the select as written or corrected. */
  function ChooseInTurn(state: DepartmentChoice, departments: Option<seq<Department>>, names: seq<string>, asWritten: bool)
    : (final: DepartmentChoice)
    ensures names == [] ==> final == state
    ensures names != [] ==> final.selectedDepartmentId == FindDepartmentId(departments, names[|names| - 1])
    decreases |names|
  {
    if names == [] then state
    else
      var next := if asWritten then ChooseDepartmentAsWritten(state, departments, names[0])
                  else ChooseDepartment(state, departments, names[0]);
      ChooseInTurn(next, departments, names[1..], asWritten)
  }

  /**
   * As written, however many departments the user chooses, the form's
   * `department` stays `""` and the saved payload carries `department: ""`
   * (the selected id still follows the last choice: see `ChooseInTurn`).
   */
  lemma {:induction false} AsWrittenDepartmentNeverSaved<D>(
    departments: Option<seq<Department>>, names: seq<string>, m: MeetingData, data: FormData<D>, toIsoString: D -> string)
    ensures var final := ChooseInTurn(InitialDepartmentChoice, departments, names, true);
            && final.formDepartment == ""
            && OnSubmit(Some(m), data.(department := final.formDepartment), toIsoString).value.department == ""
  {
    AsWrittenKeepsFormDepartment(InitialDepartmentChoice, departments, names);
  }

  lemma {:induction false} AsWrittenKeepsFormDepartment(state: DepartmentChoice, departments: Option<seq<Department>>, names: seq<string>)
    ensures ChooseInTurn(state, departments, names, true).formDepartment == state.formDepartment
    decreases |names|
  {
    if names != [] {
      AsWrittenKeepsFormDepartment(ChooseDepartmentAsWritten(state, departments, names[0]), departments, names[1..]);
    }
  }

  /** With the field updated, the saved payload carries the last department name chosen. */
  lemma {:induction false} ChosenDepartmentIsSaved<D>(
    state: DepartmentChoice, departments: Option<seq<Department>>, names: seq<string>, m: MeetingData, data: FormData<D>,
    toIsoString: D -> string)
    requires names != []
    ensures var final := ChooseInTurn(state, departments, names, false);
            && final.formDepartment == names[|names| - 1]
            && OnSubmit(Some(m), data.(department := final.formDepartment), toIsoString).value.department == names[|names| - 1]
    decreases |names|
  {
    var next := ChooseDepartment(state, departments, names[0]);
    if |names| > 1 {
      ChosenDepartmentIsSaved(next, departments, names[1..], m, data, toIsoString);
      assert names[1..][|names[1..]| - 1] == names[|names| - 1];
    }
  }

  // ---------------------------------------------------------------------
  // The update payload
  // ---------------------------------------------------------------------

  /** The form's values; `D` is the date-time library's value type. */
  datatype FormData<D> = FormData(start: D, end: D, department: string, attendees: seq<Option<int>>)

  /** The body of the update request. */
  datatype UpdatePayload = UpdatePayload(
    id: int,
    startTime: string,
    endTime: string,
    department: string,
    attendeeIds: seq<Option<int>>)

  /**
   * `onSubmit`: no payload without a meeting; otherwise the meeting's id,
   * the two times rendered by `toIsoString`, the department string and the
   * attendee list exactly as the form holds it.
   */
  function OnSubmit<D>(meeting: Option<MeetingData>, data: FormData<D>, toIsoString: D -> string)
    : (p: Option<UpdatePayload>)
    ensures p.None? <==> meeting.None?
    ensures p.Some? ==>
              && p.value.id == meeting.value.id
              && p.value.startTime == toIsoString(data.start)
              && p.value.endTime == toIsoString(data.end)
              && p.value.department == data.department
              && p.value.attendeeIds == data.attendees
  {
    match meeting
    case None => None
    case Some(m) =>
      Some(UpdatePayload(m.id, toIsoString(data.start), toIsoString(data.end), data.department, data.attendees))
  }

  /** An employee with an id is ticked exactly when the saved payload lists that id. */
  lemma PayloadMatchesCheckboxes<D>(m: MeetingData, data: FormData<D>, toIsoString: D -> string, id: int)
    ensures IsChecked(Some(id), data.attendees) <==> Some(id) in OnSubmit(Some(m), data, toIsoString).value.attendeeIds
  {
  }
}
