/**
 * Charge rows of a booking (`.BookingCharges tbody tr`): a row of at least
 * thirteen `td` cells becomes one charge whose thirteen fields are the first
 * thirteen cells in order; a shorter row is skipped.
 */
module Charges {
  import opened PyStr

  /** Number of cells a charge row needs. */
  const ChargeCells: nat := 13

  datatype Charge = Charge(
    seqNumber: string,
    chargeDescription: string,
    counts: string,
    offenseDate: string,
    docketNumber: string,
    sentenceDate: string,
    disposition: string,
    dispositionDate: string,
    sentenceLength: string,
    crimeClass: string,
    arrestingAgencies: string,
    attemptCommit: string,
    chargeBond: string)

  /** The thirteen fields of a charge, in column order. */
  function CellsOf(c: Charge): (cells: seq<string>)
    ensures |cells| == ChargeCells
  {
    [c.seqNumber, c.chargeDescription, c.counts, c.offenseDate, c.docketNumber,
     c.sentenceDate, c.disposition, c.dispositionDate, c.sentenceLength,
     c.crimeClass, c.arrestingAgencies, c.attemptCommit, c.chargeBond]
  }

  /** One charge row: a charge from its first thirteen cells, or nothing
      when it has fewer. */
  function ChargeOfRow(cells: seq<string>): (r: Option<Charge>)
    ensures r.Some? <==> |cells| >= ChargeCells
    ensures r.Some? ==> CellsOf(r.value) == cells[..ChargeCells]
  {
    if |cells| >= ChargeCells then
      Some(Charge(cells[0], cells[1], cells[2], cells[3], cells[4], cells[5], cells[6],
                  cells[7], cells[8], cells[9], cells[10], cells[11], cells[12]))
    else None
  }

  /** A charge written out as its cells reads back as the same charge, and
      cells past the thirteenth change nothing. */
  lemma ChargeRoundTrip(c: Charge, extra: seq<string>)
    ensures ChargeOfRow(CellsOf(c) + extra) == Some(c)
  {
    var cells := CellsOf(c) + extra;
    assert cells[..ChargeCells] == CellsOf(c);
  }

  /** The charges extracted from `rows`, in row order. */
  function ChargesOf(rows: seq<seq<string>>): seq<Charge> {
    if rows == [] then []
    else
      var last := rows[|rows| - 1];
      ChargesOf(rows[..|rows| - 1]) + (if |last| >= ChargeCells then [ChargeOfRow(last).value] else [])
  }

  /** The loop that appends one charge per long-enough row. */
  method ExtractCharges(rows: seq<seq<string>>) returns (charges: seq<Charge>)
    ensures charges == ChargesOf(rows)
  {
    charges := [];
    for i := 0 to |rows|
      invariant charges == ChargesOf(rows[..i])
    {
      var cells := rows[i];
      if |cells| >= ChargeCells {
        var charge := Charge(cells[0], cells[1], cells[2], cells[3], cells[4], cells[5], cells[6],
                             cells[7], cells[8], cells[9], cells[10], cells[11], cells[12]);
        charges := charges + [charge];
      }
      assert rows[..i + 1][..i] == rows[..i];
    }
    assert rows[..|rows|] == rows;
  }

  /** Extraction distributes over concatenation: charges keep the order of
      their rows. */
  lemma {:induction false} ChargesOfAppend(a: seq<seq<string>>, b: seq<seq<string>>)
    ensures ChargesOf(a + b) == ChargesOf(a) + ChargesOf(b)
    decreases |b|
  {
    if b != [] {
      var n := |b| - 1;
      assert (a + b)[..|a + b| - 1] == a + b[..n];
      ChargesOfAppend(a, b[..n]);
    } else {
      assert a + b == a;
    }
  }

  /** A single row gives one charge from its first thirteen cells when it
      has at least thirteen, and nothing otherwise. */
  lemma ChargesOfRow(cells: seq<string>)
    ensures |cells| >= ChargeCells ==> ChargesOf([cells]) == [ChargeOfRow(cells).value]
    ensures |cells| < ChargeCells ==> ChargesOf([cells]) == []
  {
    assert [cells][..0] == [];
  }

  /** The number of charges is the number of rows with at least thirteen
      cells, so never more than the number of rows. */
  function LongRows(rows: seq<seq<string>>): (n: nat)
    ensures n <= |rows|
  {
    if rows == [] then 0
    else LongRows(rows[..|rows| - 1]) + (if |rows[|rows| - 1]| >= ChargeCells then 1 else 0)
  }

  lemma {:induction false} ChargesOfCount(rows: seq<seq<string>>)
    ensures |ChargesOf(rows)| == LongRows(rows) <= |rows|
    ensures (forall i :: 0 <= i < |rows| ==> |rows[i]| < ChargeCells) ==> ChargesOf(rows) == []
  {
    if rows != [] {
      ChargesOfCount(rows[..|rows| - 1]);
    }
  }
}
