/**
 * The state of the dashboard component (src/components/Content.js): its
 * `useState` fields and the handlers that update them. A handler's state
 * updates are applied in order; the `selectAll` effect is `SyncSelectAll`,
 * which React runs after every change of `selectedRows` or `users`.
 */
module DashboardState {
  import opened Wrappers
  import opened Table

  /** The searchable columns, each with its own query box. */
  const Columns: seq<string> := ["username", "level", "ping", "status", "rotation_status", "proxy",
                                 "world", "position", "gems", "playtime", "online_time", "age"]

  /** The initial `searchQueries`: every column's query empty. */
  function EmptyQueries(): (q: map<string, string>)
    ensures q.Keys == set k | k in Columns
    ensures forall k :: k in q ==> q[k] == ""
  {
    map k | k in Columns :: ""
  }

  /** How `handleDelete` ends. */
  datatype DeleteOutcome =
    | NoSelection              // "No rows selected!"
    | Cancelled                // the confirmation was dismissed
    | Deleted(requested: set<int>, count: nat)  // one DELETE per selected index, all succeeded
    | Failed                   // some DELETE failed

  /** The status counters shown in the statistics panel. */
  datatype Stats = Stats(totalUsers: nat, totalOnline: nat, totalOffline: nat, totalBanned: nat)

  class Dashboard {
    var users: seq<User>
    var previousData: seq<User>
    var updatedCells: set<string>
    var selectedRows: set<int>
    var selectAll: bool
    var currentPage: int
    var lastSelectedIndex: Option<int>
    var searchQueries: map<string, string>

    constructor ()
      ensures users == [] && previousData == [] && updatedCells == {}
      ensures selectedRows == {} && !selectAll && lastSelectedIndex == None
      ensures currentPage == 1 && searchQueries == EmptyQueries()
    {
      users, previousData, updatedCells := [], [], {};
      selectedRows, selectAll, lastSelectedIndex := {}, false, None;
      currentPage, searchQueries := 1, EmptyQueries();
    }

    /**
     * One poll of `fetchData`: on a response, mark the cells that changed since
     * the previous poll and replace both lists; on an error, keep everything.
     */
    method FetchData(response: Option<seq<User>>)
      modifies this
      ensures response.None? ==> users == old(users) && previousData == old(previousData) && updatedCells == old(updatedCells)
      ensures response.Some? ==> && updatedCells == UpdatedCells(old(previousData), response.value)
                                 && previousData == response.value && users == response.value
      ensures selectedRows == old(selectedRows) && selectAll == old(selectAll) && currentPage == old(currentPage)
      ensures lastSelectedIndex == old(lastSelectedIndex) && searchQueries == old(searchQueries)
    {
      if response.None? {
        return;
      }
      var newUsers := response.value;
      var newUpdatedCells := ComputeUpdatedCells(previousData, newUsers);
      updatedCells := newUpdatedCells;
      previousData := newUsers;
      users := newUsers;
    }

    /** The `selectAll` effect. */
    method SyncSelectAll()
      modifies this
      ensures selectAll == SelectAllFlag(users, selectedRows)
      ensures users == old(users) && previousData == old(previousData) && updatedCells == old(updatedCells)
      ensures selectedRows == old(selectedRows) && currentPage == old(currentPage)
      ensures lastSelectedIndex == old(lastSelectedIndex) && searchQueries == old(searchQueries)
    {
      selectAll := |users| > 0 && |selectedRows| == |users|;
    }

    /**
     * `handleSelectRow`: a shift-click after an earlier click adds the whole
     * range between the two indices; any other click toggles the row. Either
     * way the clicked index becomes the last one.
     */
    method HandleSelectRow(index: int, shiftKey: bool)
      modifies this
      ensures shiftKey && old(lastSelectedIndex).Some? ==>
                forall j :: j in selectedRows <==>
                  j in old(selectedRows) || Min(old(lastSelectedIndex).value, index) <= j <= Max(old(lastSelectedIndex).value, index)
      ensures !(shiftKey && old(lastSelectedIndex).Some?) ==> selectedRows == Toggled(old(selectedRows), index)
      ensures lastSelectedIndex == Some(index)
      ensures users == old(users) && previousData == old(previousData) && updatedCells == old(updatedCells)
      ensures selectAll == old(selectAll) && currentPage == old(currentPage) && searchQueries == old(searchQueries)
    {
      if shiftKey && lastSelectedIndex.Some? {
        var newSelectedRows := AddRange(selectedRows, lastSelectedIndex.value, index);
        selectedRows := newSelectedRows;
      } else {
        var newSelectedRows := selectedRows;
        if index in newSelectedRows {
          newSelectedRows := newSelectedRows - {index};
        } else {
          newSelectedRows := newSelectedRows + {index};
        }
        selectedRows := newSelectedRows;
      }
      lastSelectedIndex := Some(index);
    }

    /** `handleSelectAll`: clear the selection if all were selected, else select every user; flip the flag. */
    method HandleSelectAll()
      modifies this
      ensures old(selectAll) ==> selectedRows == {}
      ensures !old(selectAll) ==> selectedRows == Indices(users)
      ensures selectAll == !old(selectAll)
      ensures users == old(users) && previousData == old(previousData) && updatedCells == old(updatedCells)
      ensures currentPage == old(currentPage) && lastSelectedIndex == old(lastSelectedIndex)
      ensures searchQueries == old(searchQueries)
    {
      if selectAll {
        selectedRows := {};
      } else {
        selectedRows := Indices(users);
      }
      selectAll := !selectAll;
    }

    /** The context menu's "select all". */
    method OnSelectAll()
      modifies this
      ensures selectedRows == Indices(users)
      ensures users == old(users) && previousData == old(previousData) && updatedCells == old(updatedCells)
      ensures selectAll == old(selectAll) && currentPage == old(currentPage)
      ensures lastSelectedIndex == old(lastSelectedIndex) && searchQueries == old(searchQueries)
    {
      selectedRows := Indices(users);
    }

    /** The context menu's "deselect all". */
    method OnDeselectAll()
      modifies this
      ensures selectedRows == {}
      ensures users == old(users) && previousData == old(previousData) && updatedCells == old(updatedCells)
      ensures selectAll == old(selectAll) && currentPage == old(currentPage)
      ensures lastSelectedIndex == old(lastSelectedIndex) && searchQueries == old(searchQueries)
    {
      selectedRows := {};
    }

    /** `handleSearchChange`: set the query of the column named `name`, keeping the others. */
    method HandleSearchChange(name: string, value: string)
      modifies this
      ensures searchQueries == old(searchQueries)[name := value]
      ensures users == old(users) && previousData == old(previousData) && updatedCells == old(updatedCells)
      ensures selectedRows == old(selectedRows) && selectAll == old(selectAll)
      ensures currentPage == old(currentPage) && lastSelectedIndex == old(lastSelectedIndex)
    {
      searchQueries := searchQueries[name := value];
    }

    /**
     * `handleDelete`: with no selection, only warn; after confirmation, send
     * one DELETE per selected index and, if all succeed, keep exactly the
     * unselected users and clear the selection.
     */
    method HandleDelete(confirmed: bool, requestsSucceed: bool) returns (outcome: DeleteOutcome)
      modifies this
      ensures old(selectedRows) == {} ==> outcome == NoSelection
      ensures old(selectedRows) != {} && !confirmed ==> outcome == Cancelled
      ensures old(selectedRows) != {} && confirmed ==>
                outcome == (if requestsSucceed then Deleted(old(selectedRows), |old(selectedRows)|) else Failed)
      ensures outcome.Deleted? ==> users == RemoveSelected(old(users), old(selectedRows)) && selectedRows == {}
      ensures !outcome.Deleted? ==> users == old(users) && selectedRows == old(selectedRows)
      ensures previousData == old(previousData) && updatedCells == old(updatedCells) && selectAll == old(selectAll)
      ensures currentPage == old(currentPage) && lastSelectedIndex == old(lastSelectedIndex)
      ensures searchQueries == old(searchQueries)
    {
      if |selectedRows| == 0 {
        return NoSelection;
      }
      if !confirmed {
        return Cancelled;
      }
      if !requestsSucceed {
        return Failed;
      }
      var deleted := selectedRows;
      users := RemoveSelected(users, selectedRows);
      selectedRows := {};
      outcome := Deleted(deleted, |deleted|);
    }

    /** The rows the table shows: the current page of the filtered users. */
    function CurrentUsers(): (r: seq<User>)
      reads this
      requires AllSearchable(users, searchQueries)
      ensures |r| <= RowsPerPage
      ensures forall u :: u in r ==> u in FilterUsers(users, searchQueries)
    {
      var filtered := FilterUsers(users, searchQueries);
      PageRowsBounded(filtered, currentPage);
      PageRows(filtered, currentPage)
    }

    /** `goToNextPage`. */
    method GoToNextPage()
      modifies this
      requires AllSearchable(users, searchQueries)
      ensures users == old(users) && previousData == old(previousData) && updatedCells == old(updatedCells)
      ensures selectedRows == old(selectedRows) && selectAll == old(selectAll)
      ensures lastSelectedIndex == old(lastSelectedIndex) && searchQueries == old(searchQueries)
      ensures currentPage == NextPage(old(currentPage), TotalPages(|FilterUsers(users, searchQueries)|))
    {
      var totalPages := TotalPages(|FilterUsers(users, searchQueries)|);
      currentPage := Min(currentPage + 1, totalPages);
    }

    /** `goToPreviousPage`. */
    method GoToPreviousPage()
      modifies this
      ensures currentPage == PreviousPage(old(currentPage))
      ensures users == old(users) && previousData == old(previousData) && updatedCells == old(updatedCells)
      ensures selectedRows == old(selectedRows) && selectAll == old(selectAll)
      ensures lastSelectedIndex == old(lastSelectedIndex) && searchQueries == old(searchQueries)
    {
      currentPage := Max(currentPage - 1, 1);
    }

    /** `handlePageChange`: jump to `page`. */
    method HandlePageChange(page: int)
      modifies this
      ensures currentPage == page
      ensures users == old(users) && previousData == old(previousData) && updatedCells == old(updatedCells)
      ensures selectedRows == old(selectedRows) && selectAll == old(selectAll)
      ensures lastSelectedIndex == old(lastSelectedIndex) && searchQueries == old(searchQueries)
    {
      currentPage := page;
    }

    /** The statistics panel's counters. */
    function Statistics(): (s: Stats)
      reads this
      ensures s.totalUsers == |users|
      ensures s.totalOnline + s.totalOffline == s.totalUsers
      ensures s.totalBanned <= s.totalOffline
    {
      Counters(users);
      Stats(|users|, |Filter(users, IsOnline)|, |Filter(users, IsOffline)|, |Filter(users, IsBanned)|)
    }
  }
}
