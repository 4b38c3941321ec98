/** The "new policy" form handler (app.py, lines 66-78): an empty name is
    refused with a warning; any other name appends one seven-field row to the
    policy sheet and yields the WhatsApp link for the customer. */
module PolicyForm {
  import opened WhatsApp

  /** The insurance types offered by the form's select box. */
  datatype Coverage = Trafik | Kasko | DASK | Konut | Saglik {
    /** The text written into the sheet for this type. */
    function Label(): string {
      match this
      case Trafik => "Trafik"
      case Kasko => "Kasko"
      case DASK => "DASK"
      case Konut => "Konut"
      case Saglik => "Sağlık"
    }
  }

  /** The type whose label is `s`, if any. */
  function CoverageOf(s: string): (r: Option<Coverage>)
    ensures r.Some? ==> r.value.Label() == s
  {
    if s == "Trafik" then Some(Trafik)
    else if s == "Kasko" then Some(Kasko)
    else if s == "DASK" then Some(DASK)
    else if s == "Konut" then Some(Konut)
    else if s == "Sağlık" then Some(Saglik)
    else None
  }

  /** Each type is written as its own label and read back as itself. */
  lemma CoverageLabelRoundTrip(c: Coverage)
    ensures CoverageOf(c.Label()) == Some(c)
  {
  }

  /** A spreadsheet cell: text, or the amount, which the number field with
      minimum 0 delivers as a non-negative integer. */
  datatype Cell = Text(text: string) | Number(value: nat)

  type Row = seq<Cell>

  /** What one submission of the form carries; the end date is the text the
      date field renders to, kept opaque. */
  datatype Policy = Policy(
    name: string, phone: string, plate: string, coverage: Coverage,
    endDate: string, amount: nat, notes: string)

  const FieldCount: nat := 7

  /** The row appended to the sheet, in column order: name, phone, plate,
      type, end date, amount, notes. */
  function ToRow(p: Policy): (r: Row)
    ensures |r| == FieldCount
  {
    [Text(p.name), Text(p.phone), Text(p.plate), Text(p.coverage.Label()),
     Text(p.endDate), Number(p.amount), Text(p.notes)]
  }

  /** Reads a policy back from a row of the sheet. */
  function FromRow(r: Row): (p: Option<Policy>)
    ensures p.Some? ==> |r| == FieldCount
  {
    if |r| != FieldCount then None
    else match (r[0], r[1], r[2], r[3], r[4], r[5], r[6])
      case (Text(name), Text(phone), Text(plate), Text(kind), Text(endDate), Number(amount), Text(notes)) =>
        (match CoverageOf(kind)
         case Some(coverage) => Some(Policy(name, phone, plate, coverage, endDate, amount, notes))
         case None => None)
      case _ => None
  }

  /** A row holds every field of the policy, each in its own column, as
      entered: nothing is lost or moved between columns. */
  lemma FromToRow(p: Policy)
    ensures FromRow(ToRow(p)) == Some(p)
  {
    var kind := p.coverage.Label();
    assert CoverageOf(kind) == Some(p.coverage);
  }

  /** What the handler shows after the submit button: nothing, the
      missing-name warning, or the success message with the link. */
  datatype Outcome = Idle | NameMissing | Saved(link: string)

  /** The policy sheet: its rows, in order, of which the form only appends. */
  class Sheet {
    var rows: seq<Row>

    constructor (existing: seq<Row>)
      ensures rows == existing
    {
      rows := existing;
    }

    /** `sheet.append_row(row)`. */
    method AppendRow(row: Row)
      modifies this
      ensures rows == old(rows) + [row]
    {
      rows := rows + [row];
    }

    /** The form's submit branch. */
    method Submit(submitted: bool, p: Policy) returns (outcome: Outcome)
      modifies this
      ensures !submitted ==> outcome == Idle && rows == old(rows)
      ensures submitted && p.name == "" ==> outcome == NameMissing && rows == old(rows)
      ensures submitted && p.name != "" ==>
        && rows == old(rows) + [ToRow(p)]
        && outcome == Saved(Link(p.phone, p.name))
    {
      if !submitted {
        return Idle;
      }
      if p.name == "" {
        outcome := NameMissing;
      } else {
        AppendRow(ToRow(p));
        outcome := Saved(Link(p.phone, p.name));
      }
    }
  }

  /** After a successful submission the new policy is the last row and reads
      back as submitted; every earlier row is where it was. */
  method SubmitAppendsLast(sheet: Sheet, p: Policy) returns (outcome: Outcome)
    requires p.name != ""
    modifies sheet
    ensures |sheet.rows| == |old(sheet.rows)| + 1
    ensures FromRow(sheet.rows[|sheet.rows| - 1]) == Some(p)
    ensures forall i :: 0 <= i < |old(sheet.rows)| ==> sheet.rows[i] == old(sheet.rows[i])
    ensures outcome.Saved?
  {
    outcome := sheet.Submit(true, p);
    FromToRow(p);
  }
}
