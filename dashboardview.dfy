// The student list of the desktop dashboard: the full list loaded from the
// server, the filtered list the table shows, the page count of the pager and
// the status line. Widgets, threads and the calls to the server are dropped: a
// search hands back the request it would send, and its answer comes in through
// `SearchCompleted`.

module DashboardViewModel {
  import opened Wrappers
  import opened JavaText
  import opened StudentModel
  import opened StudentControllerModel

  /** Rows per page of the pager. */
  const PageSize: int := 10

  /** The entries of the search-criteria box, "All" preselected. */
  const CriteriaItems: seq<string> := ["All", "First Name", "Last Name", "Age", "Grade"]

  /** `getSearchField`: the column a criteria label searches; unknown labels and "All" search first names. */
  function SearchField(criteria: string): (column: string)
    ensures column in SearchColumns
  {
    if criteria == "First Name" then "first_name"
    else if criteria == "Last Name" then "last_name"
    else if criteria == "Age" then "age"
    else if criteria == "Grade" then "grade"
    else "first_name"
  }

  /** Every column the server searches on can be chosen from the criteria box, "All" meaning first names. */
  lemma EveryColumnOffered(column: string)
    requires column in SearchColumns
    ensures exists item :: item in CriteriaItems && SearchField(item) == column
    ensures SearchField("All") == "first_name"
  {
    if column == "first_name" {
      assert SearchField(CriteriaItems[1]) == column;
    } else if column == "last_name" {
      assert SearchField(CriteriaItems[2]) == column;
    } else if column == "age" {
      assert SearchField(CriteriaItems[3]) == column;
    } else {
      assert SearchField(CriteriaItems[4]) == column;
    }
  }

  /** `max(1, ceil(n / pageSize))`. */
  function PageCount(n: nat): (pages: int)
    ensures pages >= 1
  {
    if n == 0 then 1 else (n + PageSize - 1) / PageSize
  }

  /** The page count is the least number of 10-row pages that hold `n` rows, and at least one. */
  lemma PageCountFits(n: nat)
    ensures n <= PageCount(n) * PageSize
    ensures PageCount(n) == 1 || (PageCount(n) - 1) * PageSize < n
  {
  }

  /** `updateStatus`: the status line for `total` loaded and `filtered` shown students. */
  function StatusText(total: int, filtered: int): string {
    if total == filtered then "Showing " + IntText(total) + " students"
    else "Showing " + IntText(filtered) + " of " + IntText(total) + " students"
  }

  /** The short form of the status line appears exactly when nothing is filtered out. */
  lemma {:induction false} StatusShort(total: int, filtered: int)
    ensures StatusText(total, filtered) == "Showing " + IntText(filtered) + " students" <==> total == filtered
  {
    if total != filtered {
      var long := StatusText(total, filtered);
      assert |long| == |"Showing " + IntText(filtered) + " students"| + |" of " + IntText(total)|;
    }
  }

  /** The status line after a search answer arrives. */
  function FoundText(count: int): string {
    "Search completed. Found " + IntText(count) + " students."
  }

  /** The request `performSearch` hands to the client: the column and the trimmed term. */
  datatype SearchRequest = SearchRequest(column: string, term: string)

  class Dashboard {
    var allStudents: seq<StudentData>
    var filteredStudents: seq<StudentData>
    var pageCount: int
    var status: string

    /** The pager always offers at least one page. */
    predicate Valid()
      reads this
    {
      pageCount >= 1
    }

    /** The empty dashboard: no students, one page, status "Ready". */
    constructor ()
      ensures Valid()
      ensures allStudents == [] && filteredStudents == [] && pageCount == 1 && status == "Ready"
    {
      allStudents := [];
      filteredStudents := [];
      pageCount := 1;
      status := "Ready";
    }

    /** `applyFilters`: the table shows the full list again. */
    method ApplyFilters()
      modifies this
      ensures filteredStudents == allStudents
      ensures allStudents == old(allStudents) && pageCount == old(pageCount) && status == old(status)
    {
      filteredStudents := allStudents;
    }

    /** `updatePagination`: the page count follows the filtered list. */
    method UpdatePagination()
      modifies this
      ensures Valid()
      ensures pageCount == PageCount(|filteredStudents|)
      ensures allStudents == old(allStudents) && filteredStudents == old(filteredStudents) && status == old(status)
    {
      pageCount := PageCount(|filteredStudents|);
    }

    /** `updateStatus`: the status line compares the filtered list with the full one. */
    method UpdateStatus()
      modifies this
      ensures status == StatusText(|allStudents|, |filteredStudents|)
      ensures allStudents == old(allStudents) && filteredStudents == old(filteredStudents)
      ensures pageCount == old(pageCount)
    {
      status := StatusText(|allStudents|, |filteredStudents|);
    }

    /**
     * The answer of the initial load: the list is replaced, nothing is filtered out,
     * the pager and status follow, and the status is the short "Showing N students".
     */
    method DataLoaded(students: seq<StudentData>)
      modifies this
      ensures Valid()
      ensures allStudents == students && filteredStudents == students
      ensures pageCount == PageCount(|students|)
      ensures status == "Showing " + IntText(|students|) + " students"
    {
      allStudents := students;
      ApplyFilters();
      UpdatePagination();
      UpdateStatus();
    }

    /**
     * `performSearch`: a blank term puts the full list back and sends nothing (pager
     * and status untouched); any other term shows "Searching..." and yields the
     * request for the column the criteria selects, which the server accepts.
     */
    method PerformSearch(searchText: string, criteria: string) returns (request: Option<SearchRequest>)
      modifies this
      ensures request.None? <==> Trim(searchText) == ""
      ensures request.None? ==> filteredStudents == allStudents && status == old(status)
      ensures request.Some? ==>
        && request.value == SearchRequest(SearchField(criteria), Trim(searchText))
        && filteredStudents == old(filteredStudents) && status == "Searching..."
      ensures allStudents == old(allStudents) && pageCount == old(pageCount)
    {
      var searchTerm := Trim(searchText);
      if searchTerm == "" {
        filteredStudents := allStudents;
        return None;
      }
      status := "Searching...";
      request := Some(SearchRequest(SearchField(criteria), searchTerm));
    }

    /** The search answer arrives: the table shows the results and the pager follows. */
    method SearchCompleted(results: seq<StudentData>)
      modifies this
      ensures Valid()
      ensures filteredStudents == results && allStudents == old(allStudents)
      ensures pageCount == PageCount(|results|)
      ensures status == FoundText(|results|)
    {
      filteredStudents := results;
      UpdatePagination();
      status := FoundText(|results|);
    }

    /** The Clear button: the full list is shown again, with its pager and short status. */
    method Clear()
      modifies this
      ensures Valid()
      ensures filteredStudents == allStudents && allStudents == old(allStudents)
      ensures pageCount == PageCount(|allStudents|)
      ensures status == "Showing " + IntText(|allStudents|) + " students"
    {
      filteredStudents := allStudents;
      UpdatePagination();
      UpdateStatus();
    }
  }
}
