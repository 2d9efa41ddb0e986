/**
 * The `WithSorting` trait of the admin list components: the column a list is
 * sorted by and its direction, changed by clicking a column header.
 */
module Sorting {

  /** The two properties of the trait. */
  datatype SortState = SortState(sortBy: string, sortDirection: string)

  predicate IsDirection(d: string)
  {
    d == "asc" || d == "desc"
  }

  /** The state of a fresh component: newest first. */
  function Initial(): (s: SortState)
    ensures IsDirection(s.sortDirection)
    ensures s == SortState("created_at", "desc")
  {
    SortState("created_at", "desc")
  }

  /** The other direction: 'desc' after 'asc', 'asc' after anything else. */
  function Flip(d: string): (r: string)
    ensures IsDirection(r)
    ensures IsDirection(d) ==> r != d
    ensures d != "asc" ==> r == "asc"
  {
    if d == "asc" then "desc" else "asc"
  }

  /** `sort($field)`: the same field toggles the direction, a new field starts ascending. */
  function SortStep(s: SortState, field: string): (r: SortState)
    ensures r.sortBy == field && IsDirection(r.sortDirection)
    ensures s.sortBy != field ==> r.sortDirection == "asc"
    ensures s.sortBy == field && IsDirection(s.sortDirection) ==> r.sortDirection != s.sortDirection
  {
    if s.sortBy == field then SortState(field, Flip(s.sortDirection)) else SortState(field, "asc")
  }

  /** Two sorts on the current field give back the state before them. */
  lemma SortTwiceRestores(s: SortState)
    requires IsDirection(s.sortDirection)
    ensures SortStep(SortStep(s, s.sortBy), s.sortBy) == s
  {
  }

  /** Sorting by a new field twice gives a descending sort on it, whatever came before. */
  lemma NewFieldTwiceIsDescending(s: SortState, field: string)
    requires s.sortBy != field
    ensures SortStep(SortStep(s, field), field) == SortState(field, "desc")
  {
  }

  /** A list component's sort properties, changed in place. */
  class SortableList {
    var sortBy: string
    var sortDirection: string

    function State(): SortState
      reads this
    {
      SortState(sortBy, sortDirection)
    }

    /** The trait's property defaults. */
    constructor ()
      ensures State() == Initial()
    {
      sortBy := "created_at";
      sortDirection := "desc";
    }

    /** `sort`: the new state is one step of the state machine from the old one. */
    method Sort(field: string)
      modifies this
      ensures State() == SortStep(old(State()), field)
    {
      if sortBy == field {
        sortDirection := if sortDirection == "asc" then "desc" else "asc";
      } else {
        sortBy := field;
        sortDirection := "asc";
      }
    }
  }
}
