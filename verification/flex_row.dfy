/**
 The flexibility record shared by every device: per time step the scheduled
 power, the negative and positive flexible power, the energy each can be
 sustained for, and the price of each.
 */
module FlexRow {

  datatype Row = Row(
    schP: real,    // Sch_P: scheduled power
    negP: real,    // Neg_P: negative flexible power (<= 0 by convention)
    posP: real,    // Pos_P: positive flexible power (>= 0 by convention)
    negE: real,    // Neg_E: energy of the negative offer
    posE: real,    // Pos_E: energy of the positive offer
    negPr: real,   // Neg_Pr: price of the negative offer
    posPr: real)   // Pos_Pr: price of the positive offer

  /** Column accessors, one series per record column. */
  function NegPowers(rows: seq<Row>): (s: seq<real>)
    ensures |s| == |rows|
    ensures forall i :: 0 <= i < |rows| ==> s[i] == rows[i].negP
  {
    seq(|rows|, i requires 0 <= i < |rows| => rows[i].negP)
  }

  function PosPowers(rows: seq<Row>): (s: seq<real>)
    ensures |s| == |rows|
    ensures forall i :: 0 <= i < |rows| ==> s[i] == rows[i].posP
  {
    seq(|rows|, i requires 0 <= i < |rows| => rows[i].posP)
  }
}
