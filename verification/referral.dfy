/**
 The referral edge: one record per credit award, naming the credited ancestor
 (`referrer`), the account whose redemption triggered the award (`referred`), the
 distance between them, the amount and the calendar month of the award.
 */
module Referral {
  import opened Outcomes
  import opened User

  /** The distance between the redeeming account and the credited ancestor. */
  datatype Level = L1 | L2 | L3 {
    /** The number stored for this level. */
    function Number(): (n: int)
      ensures 1 <= n <= 3
    {
      match this
      case L1 => 1
      case L2 => 2
      case L3 => 3
    }
  }

  /** Reads a stored level number; only 1, 2 and 3 are levels. */
  function LevelOf(n: int): (r: Option<Level>)
    ensures r.Some? <==> 1 <= n <= 3
    ensures r.Some? ==> r.value.Number() == n
  {
    if n == 1 then Some(L1) else if n == 2 then Some(L2) else if n == 3 then Some(L3) else None
  }

  /** Every level survives being stored as its number and read back. */
  lemma LevelRoundTrip(l: Level)
    ensures LevelOf(l.Number()) == Some(l)
  {
  }

  /** The declared lifecycle of an edge; nothing in the engine moves an edge past `Pending`. */
  datatype Status = Pending | Credited | Cancelled

  function StatusName(s: Status): string
  {
    match s
    case Pending => "pending"
    case Credited => "credited"
    case Cancelled => "cancelled"
  }

  /** Reads a stored status name; anything outside the three names is rejected. */
  function StatusOf(name: string): (r: Option<Status>)
    ensures r.Some? <==> name in {"pending", "credited", "cancelled"}
    ensures r.Some? ==> StatusName(r.value) == name
  {
    if name == "pending" then Some(Pending)
    else if name == "credited" then Some(Credited)
    else if name == "cancelled" then Some(Cancelled)
    else None
  }

  datatype Edge = Edge(referrer: Id, referred: Id, level: Level, creditAmount: real, status: Status, month: Month)

  /** A freshly created edge: its status takes the schema default. */
  function NewEdge(referrer: Id, referred: Id, level: Level, creditAmount: real, month: Month): Edge
  {
    Edge(referrer, referred, level, creditAmount, Pending, month)
  }

  /**
   An edge document as handed to the store before validation: every field may be
   missing, the level is a raw number and the status a raw name.
   */
  datatype EdgeDocument = EdgeDocument(
    referrer: Option<Id>,
    referred: Option<Id>,
    level: Option<int>,
    creditAmount: Option<real>,
    status: Option<string>,
    month: Option<Month>)

  /** A required reference or string field is present and not empty. */
  predicate Present(s: Option<string>)
  {
    s.Some? && s.value != ""
  }

  /** The paths that fail validation, in schema order. */
  function Problems(d: EdgeDocument): seq<string>
  {
    (if Present(d.referrer) then [] else ["referrer"])
    + (if Present(d.referred) then [] else ["referred"])
    + (if d.level.Some? && LevelOf(d.level.value).Some? then [] else ["level"])
    + (if d.creditAmount.Some? then [] else ["creditAmount"])
    + (if d.status.None? || StatusOf(d.status.value).Some? then [] else ["status"])
    + (if Present(d.month) then [] else ["month"])
  }

  /** Schema validation: required fields present, level and status within their enums, status defaulted. */
  function Validate(d: EdgeDocument): (r: Result<Edge, seq<string>>)
    ensures r.Ok? <==>
              && Present(d.referrer) && Present(d.referred) && Present(d.month)
              && d.level.Some? && 1 <= d.level.value <= 3
              && d.creditAmount.Some?
              && (d.status.None? || d.status.value in {"pending", "credited", "cancelled"})
    ensures r.Ok? ==>
              && r.value.referrer == d.referrer.value
              && r.value.referred == d.referred.value
              && r.value.level.Number() == d.level.value
              && r.value.creditAmount == d.creditAmount.value
              && r.value.month == d.month.value
              && (d.status.None? ==> r.value.status == Pending)
    ensures r.Err? ==> r.error != []
  {
    if Problems(d) != [] then
      Err(Problems(d))
    else
      var status := if d.status.Some? then StatusOf(d.status.value).value else Pending;
      Ok(Edge(d.referrer.value, d.referred.value, LevelOf(d.level.value).value,
              d.creditAmount.value, status, d.month.value))
  }

  /** The document an edge is stored as. */
  function ToDocument(e: Edge): EdgeDocument
  {
    EdgeDocument(Some(e.referrer), Some(e.referred), Some(e.level.Number()),
                 Some(e.creditAmount), Some(StatusName(e.status)), Some(e.month))
  }

  /** Storing an edge with non-empty references and month and validating it gives the edge back. */
  lemma ValidateRoundTrip(e: Edge)
    requires e.referrer != "" && e.referred != "" && e.month != ""
    ensures Validate(ToDocument(e)) == Ok(e)
  {
    LevelRoundTrip(e.level);
  }
}
