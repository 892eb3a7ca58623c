/**
 The collaborators the parser calls but does not define: encoding/csv's reader and strconv's
 number parsers. They are not modelled; they come in as a Library value whose functions give,
 for a text and a field delimiter, the successive results of csv.Reader.Read, and for a token
 whether ParseInt (base 10, 64 bits) accepts it and what ParseFloat (64 bits) makes of it.
 */
module Csv {
  import opened Wrappers

  /** One call of Read: a record, a parse error (including a wrong field count), or io.EOF. */
  datatype ReadResult = Rec(fields: seq<string>) | Fail | Eof

  datatype Library = Library(
    read: (string, char) -> seq<ReadResult>,
    isInt: string -> bool,
    parseFloat: string -> Option<real>)
  {
    /**
     The one property of the csv reader the parser relies on: with the default FieldsPerRecord,
     every record a reader returns without error has as many fields as the first.
     */
    ghost predicate Valid()
    {
      forall text: string, comma: char :: UniformWidth(read(text, comma))
    }
  }

  predicate UniformWidth(rs: seq<ReadResult>)
  {
    forall i, j :: 0 <= i < |rs| && 0 <= j < |rs| && rs[i].Rec? && rs[j].Rec? ==>
      |rs[i].fields| == |rs[j].fields|
  }

  /** The result of the read numbered i (from 0): once the listed results run out, io.EOF. */
  function ReadAt(rs: seq<ReadResult>, i: nat): (r: ReadResult)
    ensures r.Rec? ==> i < |rs|
  {
    if i < |rs| then rs[i] else Eof
  }

  /** How many reads from i on return a record before the first error or io.EOF. */
  function Leading(rs: seq<ReadResult>, i: nat): (n: nat)
    requires i <= |rs|
    ensures i <= n <= |rs|
    ensures forall j :: i <= j < n ==> rs[j].Rec?
    ensures !ReadAt(rs, n).Rec?
    decreases |rs| - i
  {
    if i == |rs| || !rs[i].Rec? then i else Leading(rs, i + 1)
  }

  /** The number of records a read loop sees before it stops. */
  function RecordCount(rs: seq<ReadResult>): (n: nat)
    ensures n <= |rs|
    ensures forall j :: 0 <= j < n ==> rs[j].Rec?
    ensures !ReadAt(rs, n).Rec?
  {
    Leading(rs, 0)
  }

  /** A loop that has read i records and then no record is at the end of the leading records. */
  lemma RecordCountAt(rs: seq<ReadResult>, i: nat)
    requires forall j :: 0 <= j < i ==> ReadAt(rs, j).Rec?
    requires !ReadAt(rs, i).Rec?
    ensures RecordCount(rs) == i
  {
  }
}
