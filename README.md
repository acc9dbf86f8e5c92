# Meeting calendar front end: grid placement and attendee selection

This project is a Dafny model of the two pieces of logic in a browser appointment calendar.

- **Grid placement.** `calculateMeetingGridProps` places a meeting on the day-view grid. It takes the wall-clock hour and minute of the meeting's start and end and computes a 1-based CSS row range `[gridRowStart, gridRowEnd)`:
  - Minutes are counted from `START_HOUR`.
  - The start is rounded down in units of `INTERVAL_MINUTES`, and the end is rounded up.
- **Attendee selection.** The meeting detail dialog does four list operations:
  - It lists either the selected department's employees or the meeting's attendees, reduced to id and name.
  - Each listed employee has a checkbox. The checkbox is ticked when the form's attendee list contains the employee's id. Clicking it removes every copy of the id or appends the id.
  - It finds the department whose name was chosen and records that department's id in its state. The form's `department` value is not updated (see "## Findings").
  - It builds the update payload when the form is saved.

All of this is pure computation, so the model is made of datatypes, functions and lemmas:

- `types.dfy` (module `Types`) holds the records: `Employee`, `Partial<Employee>`, the department and the meeting. Optional fields and `undefined` become `Option`.
- `meeting.dfy` (module `MeetingGrid`) models the grid arithmetic.
- `detail_panel.dfy` (module `DetailPanel`) models the dialog's list logic.

The hour and minute of each timestamp are integer inputs. They stand in for `getHours` and `getMinutes`. `START_HOUR` and `INTERVAL_MINUTES` are the fields of a `GridConfig` parameter, and `INTERVAL_MINUTES` is required to be positive. `Calendar.tsx` does not define these two constants, and no other file in this model does either.

The grid code converts hours to minutes with a factor of **30**, not 60. The model keeps that factor in `CalculateMeetingGridProps`. The consequences are under "## Findings".

The form's attendee list is typed `number[]`, but `undefined` gets into it in two ways:
- The default value maps the ids of `Partial<Employee>` attendees.
- Ticking an employee who has no id appends that missing id.

So the model keeps the list as `seq<Option<int>>`.

## Model

| member | source | states |
|---|---|---|
| `MeetingGrid.FloorDiv` | src/components/meeting/Meeting.tsx:43 | `Math.floor(x / k)` for `k > 0` is the q with `k*q <= x < k*q + k`, negative x included |
| `MeetingGrid.CeilDiv` | src/components/meeting/Meeting.tsx:46 | `Math.ceil(x / k)` for `k > 0` is the q with `k*q - k < x <= k*q` |
| `MeetingGrid.StartRow` | src/components/meeting/Meeting.tsx:42-43 | the start row r satisfies `k*(r-1) <= total < k*r`, i.e. floor(total/k) + 1 |
| `MeetingGrid.EndRow` | src/components/meeting/Meeting.tsx:46 | the end row r satisfies `k*(r-2) < total <= k*(r-1)`, i.e. ceil(total/k) + 1 |
| `MeetingGrid.CalculateMeetingGridProps` | src/components/meeting/Meeting.tsx:35-52 | with `s = (startHour - START_HOUR)*30 + startMinute` the start row is floor(s/INTERVAL_MINUTES)+1; with `e = (endHour - START_HOUR)*30 + endMinute` the end row is ceil(e/INTERVAL_MINUTES)+1; the factor 30 is taken as written and nothing is clamped |
| `MeetingGrid.StartRowMonotone` | src/components/meeting/Meeting.tsx:41-43 | a larger start total never gives a smaller start row |
| `MeetingGrid.EndRowMonotone` | src/components/meeting/Meeting.tsx:45-46 | a larger end total never gives a smaller end row |
| `MeetingGrid.RowsOrderedOnTotals` | src/components/meeting/Meeting.tsx:41-46 | start total <= end total gives start row <= end row; strictly less gives strictly less (floor below, ceiling above) |
| `MeetingGrid.ExactMultipleOnTotals` | src/components/meeting/Meeting.tsx:42-46 | on an exact multiple of the interval, floor and ceiling agree and both rows are total/k + 1 |
| `MeetingGrid.RowsOrdered` | src/components/meeting/Meeting.tsx:41-46 | a meeting whose end total is not below its start total gets `gridRowStart <= gridRowEnd` |
| `MeetingGrid.PositiveLengthSpansRow` | src/components/meeting/Meeting.tsx:42-46 | a meeting whose end total exceeds its start total spans at least one row (`gridRowStart < gridRowEnd`) |
| `MeetingGrid.ExactMultipleRow` | src/components/meeting/Meeting.tsx:42-46 | a boundary whose total is a multiple of INTERVAL_MINUTES lands on row total/INTERVAL_MINUTES + 1, and rounding it the other way would give the same row |
| `MeetingGrid.NoClampBeforeStartHour` | src/components/meeting/Meeting.tsx:41-43 | no lower clamp: `gridRowStart <= 0` exactly when the start total is negative. For a valid clock time that is exactly a start two or more hours before START_HOUR (any minute), or in the hour just before it at a minute below 30. In that last hour, from minute 30 on, the factor 30 lifts the total to 0 or more |
| `MeetingGrid.NoClampAfterLastRow` | src/components/meeting/Meeting.tsx:41-43 | no upper clamp: every row number >= 1 is the start row of a valid clock time (hour 0..23, minute 0..59) on a grid with INTERVAL_MINUTES 1 and a START_HOUR at or before midnight (negative above row 30) |
| `MeetingGrid.RowsMonotone` | src/components/meeting/Meeting.tsx:41-46 | between two meetings, a larger start total never gives a smaller `gridRowStart`, and a larger end total never gives a smaller `gridRowEnd` |
| `MeetingGrid.OnlyClockTimeMatters` | src/components/meeting/Meeting.tsx:36-39 | two meetings whose boundaries agree in hour and minute get the same rows, whatever their day, id, title or attendees |
| `MeetingGrid.AsWrittenClockTimeAnomalies` | src/components/meeting/Meeting.tsx:41-46 | with the factor 30: 10:00–11:00 on an 8 o'clock 30-minute grid gets rows [3,4); ending at 9:00 gives an earlier end row than ending at 8:59; 8:45–9:00 spans no row; on a 15-minute grid 8:59–9:00 gets the inverted range [4,3); a start at 7:45, before START_HOUR, lands inside the grid on row 1; the latest start, 23:59, lands on row 17, so late meetings are squeezed into the grid rather than pushed past it |
| `MeetingGrid.IntendedGridProps` | src/components/meeting/Meeting.tsx:41-46 | with 60 minutes to the hour the rows are floor and ceiling of (minutes since midnight − 60·START_HOUR)/INTERVAL_MINUTES, plus 1 |
| `MeetingGrid.IntendedFollowsClock` | src/components/meeting/Meeting.tsx:41-46 | with 60 minutes to the hour, a later clock time never gets a smaller row, and a meeting that ends after it starts spans at least one row |
| `MeetingGrid.IntendedTenToEleven` | src/components/meeting/Meeting.tsx:41-46 | with 60 minutes to the hour, 10:00–11:00 on an 8 o'clock 30-minute grid gets rows [5,7) |
| `DetailPanel.DefaultAttendees` | src/components/detailPanel/DetailPanel.tsx:56 | the initial attendee list holds the meeting's attendee ids in order, one per attendee, or is empty without a meeting |
| `DetailPanel.IsChecked` | src/components/detailPanel/DetailPanel.tsx:119-120 | ticked exactly when the employee has an id and some element of the list equals it; an employee without an id is never ticked |
| `DetailPanel.Without` | src/components/detailPanel/DetailPanel.tsx:128-130 | the filtered list has no copy of the id, is strictly shorter when the id was there, and keeps every other value with its multiplicity |
| `DetailPanel.ToggleAttendee` | src/components/detailPanel/DetailPanel.tsx:119-134 | a ticked employee becomes unticked, and every other value keeps its multiplicity; an unticked one gets its id appended at the end with the old list as an unchanged prefix; an employee with an id flips between ticked and unticked |
| `DetailPanel.WithoutConcat` | src/components/detailPanel/DetailPanel.tsx:129 | removing an id distributes over concatenation |
| `DetailPanel.WithoutAbsent` | src/components/detailPanel/DetailPanel.tsx:129 | removing an id that is absent leaves the list unchanged |
| `DetailPanel.WithoutIsSubsequence` | src/components/detailPanel/DetailPanel.tsx:129 | removing an id keeps the relative order of everything else: the result is a subsequence of the list |
| `DetailPanel.ToggleTwiceAbsent` | src/components/detailPanel/DetailPanel.tsx:126-134 | ticking then unticking an id that was absent gives the original list back |
| `DetailPanel.ToggleTwicePresent` | src/components/detailPanel/DetailPanel.tsx:126-134 | unticking then ticking a present id leaves the list without it plus one copy at the end |
| `DetailPanel.ToggleLeavesOthers` | src/components/detailPanel/DetailPanel.tsx:119-134 | toggling one employee never changes whether an employee with a different id is ticked |
| `DetailPanel.NoIdNeverChecked` | src/components/detailPanel/DetailPanel.tsx:119-133 | an employee with no id is never ticked, and clicking it appends `undefined` each time |
| `DetailPanel.EmployeesToDisplay` | src/components/detailPanel/DetailPanel.tsx:78-89 | without a meeting the list is left as it was; otherwise it is the department employees if fetched (even an empty list) or else the meeting's attendees, with the same length and order, keeping only id and name |
| `DetailPanel.InitiallyAttendeesChecked` | src/components/detailPanel/DetailPanel.tsx:56-120 | before a department is chosen, every listed attendee that has an id starts out ticked |
| `DetailPanel.FirstNamed` | src/components/detailPanel/DetailPanel.tsx:199-201 | the result is the index of the first department with that name, or none when no department has it |
| `DetailPanel.FindDepartmentId` | src/components/detailPanel/DetailPanel.tsx:199-201 | some id exactly when a department has that name; that id belongs to the first department with that name; none when the department list has not been fetched |
| `DetailPanel.ChooseDepartmentAsWritten` | src/components/detailPanel/DetailPanel.tsx:186-203 | choosing a name sets the selected id to the id of the first department with that name, or to none exactly when no department has it, and leaves the form's `department` value as it was, because the select's own `onChange` replaces the field's |
| `DetailPanel.ChooseDepartment` | src/components/detailPanel/DetailPanel.tsx:186-203 | the corrected select: the form's `department` becomes the chosen name, and the selected id is the id of the first department with that name, or none exactly when no department has it |
| `DetailPanel.ChooseInTurn` | src/components/detailPanel/DetailPanel.tsx:186-203 | after a series of choices, the selected department id is the lookup of the last name chosen, with the select as written or corrected; an empty series of choices leaves the state as it was |
| `DetailPanel.AsWrittenKeepsFormDepartment` | src/components/detailPanel/DetailPanel.tsx:186-203 | as written, no series of choices changes the form's `department` value |
| `DetailPanel.AsWrittenDepartmentNeverSaved` | src/components/detailPanel/DetailPanel.tsx:55-203 | as written, starting from the default `""`, the form's `department` stays `""` after any choices, so the saved payload carries `department: ""` |
| `DetailPanel.ChosenDepartmentIsSaved` | src/components/detailPanel/DetailPanel.tsx:97-203 | with the field updated, after at least one choice the form's `department` is the last name chosen, and the saved payload carries it |
| `DetailPanel.OnSubmit` | src/components/detailPanel/DetailPanel.tsx:97-109 | no payload without a meeting; otherwise the payload carries `meeting.id`, the two times rendered by the date library, the form's department string, and the attendee list unchanged as `attendee_ids` |
| `DetailPanel.PayloadMatchesCheckboxes` | src/components/detailPanel/DetailPanel.tsx:100-120 | an employee with an id is ticked exactly when the saved payload's `attendee_ids` contains that id |

## Left out

- Parsing `start_time` and `end_time` with `new Date(...)` and taking the local hour and minute are not modelled. The time zone is not modelled either. The model takes the hour and minute as integers (`Timestamp`).
- `toLocaleTimeString` (Meeting.tsx:64-72) is left out. It only formats text for display.
- Dayjs and `toISOString` (DetailPanel.tsx:102-103) are not modelled. The conversion is the function parameter `toIsoString` of `OnSubmit`.
- `CalculateMeetingGridProps` requires `INTERVAL_MINUTES > 0`. In JavaScript a zero interval divides to `Infinity` or `NaN`. That case is not modelled.
- The arithmetic is modelled on unbounded integers. JavaScript computes the quotient in floating point before `Math.floor`/`Math.ceil`, which gives the same result for the small minute counts involved.
- The React state and effects are not modelled. That covers `useState`, `useEffect`, `setStartPos`/`setEndPos`, `setEmployeesToDisplay` and `field.onChange`. The model computes the values these hooks receive.
- DetailPanel.tsx:80 returns early when both the attendees and the department employees are missing. `MeetingData.attendees` is a required array, so the model treats it as always present and this guard cannot fire.
- The effect at DetailPanel.tsx:70-74 is not modelled. It sets the selected id to `parseInt` of the form's `department` value when that value is not `""`. As written, the value always stays `""` (see "## Findings"), so this effect never runs. In the corrected select the value would be a department name, and `parseInt` of a name is `NaN`. That interaction is not modelled either.
- The select's displayed value is not modelled. As written it stays `""`, so the select keeps showing "Select a department".
- `deleteMeeting` (DetailPanel.tsx:91-95) is not modelled. It only issues a delete request and closes the dialog.
- The RTK Query clients in `src/services/appointment.ts` and `src/services/department.ts` are not modelled, nor is the token read from `localStorage`. These are network and storage I/O.
- The store, app root, calendar layout, create dialog and all rendering are not modelled. They contain no logic beyond wiring and layout.
- Overlap detection between meetings does not occur in any of the modelled files, so there is nothing to model.

## Findings

| source | as written | input that shows it | evidently intended | confidence | as-written member | corrected member |
|---|---|---|---|---|---|---|
| src/components/meeting/Meeting.tsx:41-46 | hours are converted to minutes with `* 30`, so rows do not follow the clock | START_HOUR 8, INTERVAL_MINUTES 30: 10:00–11:00 gets rows [3,4) instead of [5,7). Ending at 9:00 gives end row 2, but ending at 8:59 gives 3. 8:45–9:00 spans no row. With INTERVAL_MINUTES 15, 8:59–9:00 gets the inverted range [4,3). A start at 7:45 lands inside the grid, on row 1. The latest start, 23:59, lands on row 17 | `* 60`, so that a later clock time never gets an earlier row and every meeting of positive length spans at least one row | high; not executed | `MeetingGrid.AsWrittenClockTimeAnomalies` | `MeetingGrid.IntendedFollowsClock` |
| src/components/detailPanel/DetailPanel.tsx:197-203 | the select's `onChange` sets only the selected department id. It replaces the spread `field.onChange`, so the form's `department` never leaves its default `""` | choose "Sales" in the select, then save: the payload carries `department: ""`, and the select still shows "Select a department" | also update the field, so that the form's `department` is the chosen name and the payload carries it. This alone is not the whole fix: the effect at DetailPanel.tsx:70-74 would then set the selected id to `parseInt` of the name, which is `NaN`. That `parseInt` suggests the options were meant to carry department ids. The corrected member models only the field update | medium; not executed | `DetailPanel.AsWrittenDepartmentNeverSaved` | `DetailPanel.ChosenDepartmentIsSaved` |

The rest of the model keeps the factor 30, because that is what the code computes. The monotonicity and ordering lemmas for `CalculateMeetingGridProps` are therefore stated over the code's own minute totals. They hold over those totals, but not over clock time. `IntendedGridProps` is the definition with 60 minutes to the hour. `IntendedFollowsClock` and `IntendedTenToEleven` state its properties.

For the department select, `ChooseInTurn` models both versions. `ChooseDepartmentAsWritten` is the code as it is, and `ChooseDepartment` also updates the field.
