/**
 * The `PageStatus` backed enum: its cases, backing strings, labels and badge
 * colours. SCHEDULED is included: the page model and the update action use it,
 * and one of the enum's test files expects it with label 'Scheduled' and colour
 * 'blue'.
 */
module PageStatuses {
  import opened Wrappers

  datatype PageStatus = Draft | Published | Private | Scheduled

  /** The backing string of a case. */
  function Value(s: PageStatus): string
  {
    match s
    case Draft => "draft"
    case Published => "published"
    case Private => "private"
    case Scheduled => "scheduled"
  }

  /** `PageStatus::tryFrom`: the case backed by `v`, if any. */
  function FromValue(v: string): (r: Option<PageStatus>)
    ensures r.Some? ==> Value(r.value) == v
    ensures r.None? ==> forall s: PageStatus :: Value(s) != v
  {
    if v == "draft" then Some(Draft)
    else if v == "published" then Some(Published)
    else if v == "private" then Some(Private)
    else if v == "scheduled" then Some(Scheduled)
    else None
  }

  /** Reading back a stored backing string gives the case that was stored. */
  lemma FromValueOfValue(s: PageStatus)
    ensures FromValue(Value(s)) == Some(s)
  {
  }

  /** The human label of a case. */
  function Label(s: PageStatus): (r: string)
    ensures r != ""
  {
    match s
    case Draft => "Draft"
    case Published => "Published"
    case Private => "Private"
    case Scheduled => "Scheduled"
  }

  /** The badge colour of a case. */
  function Color(s: PageStatus): string
  {
    match s
    case Draft => "zinc"
    case Published => "green"
    case Private => "orange"
    case Scheduled => "blue"
  }

  /** Every case has its own backing string, label and colour. */
  lemma CasesAreDistinguishable(a: PageStatus, b: PageStatus)
    requires a != b
    ensures Value(a) != Value(b) && Label(a) != Label(b) && Color(a) != Color(b)
  {
  }
}
