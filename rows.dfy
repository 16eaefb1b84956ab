/** The rows the entry tables show: `(id, website, username)`, numbered from
    1 in the order the records were fetched. */
module Rows {
  import Text
  import Vault
  import opened Ranking

  datatype Row = Row(id: nat, website: string, username: string)

  /** `(i, *record) for i, record in enumerate(records, 1)` */
  function Enumerate(records: seq<Vault.Record>): (rows: seq<Row>)
    ensures NumberedFromOne(rows)
    ensures RecordsOf(rows) == records
  {
    seq(|records|, k requires 0 <= k < |records| => Row(k + 1, records[k].website, records[k].username))
  }

  /** The row at position k has ID k + 1. */
  predicate NumberedFromOne(rows: seq<Row>) {
    forall k | 0 <= k < |rows| :: rows[k].id == k + 1
  }

  /** The (website, username) pairs of some rows. */
  function RecordsOf(rows: seq<Row>): seq<Vault.Record> {
    seq(|rows|, k requires 0 <= k < |rows| => Vault.Record(rows[k].website, rows[k].username))
  }

  /** `" ".join([str(cell) for cell in row])`: the text the matcher scores. */
  function MakeString(row: Row): string {
    Text.NatToString(row.id) + " " + row.website + " " + row.username
  }

  /** Every row paired with its score for `query`, in table order. */
  function ScoreRows(rows: seq<Row>, query: string, matcher: Matcher): (scored: seq<Scored<Row>>)
    ensures Items(scored) == rows
  {
    seq(|rows|, k requires 0 <= k < |rows| => Scored(rows[k], matcher(query, MakeString(rows[k]))))
  }

  lemma ScoreRowsPrefix(rows: seq<Row>, query: string, matcher: Matcher, i: nat)
    requires i < |rows|
    ensures ScoreRows(rows, query, matcher)[..i + 1]
         == ScoreRows(rows, query, matcher)[..i] + [Scored(rows[i], matcher(query, MakeString(rows[i])))]
  {
  }

  /** Each scored row carries the matcher's score of that row. */
  lemma ScoreRowsMembers(rows: seq<Row>, query: string, matcher: Matcher)
    ensures forall y | y in ScoreRows(rows, query, matcher) ::
      y.item in rows && y.score == matcher(query, MakeString(y.item))
  {
    forall y | y in ScoreRows(rows, query, matcher)
      ensures y.item in rows && y.score == matcher(query, MakeString(y.item))
    {
      var k :| 0 <= k < |rows| && ScoreRows(rows, query, matcher)[k] == y;
    }
  }
}
