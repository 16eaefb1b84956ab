/** `Table`: the in-memory copy of one account's entries that backs the
    table widget, with IDs numbered from 1 and a fuzzy search over it. */
module TableModel {
  import opened Wrappers
  import Text
  import Vault
  import opened Ranking
  import opened Rows

  class Table {
    /** The column headers. */
    const columns: seq<string> := ["ID", "Website", "Username"]
    var rows: seq<Row>

    constructor()
      ensures rows == []
    {
      rows := [];
    }

    ghost predicate Numbered()
      reads this
    {
      NumberedFromOne(rows)
    }

    /** `populate_table`: replace the rows by the records numbered 1..n in
        the order given. */
    method PopulateTable(records: seq<Vault.Record>)
      modifies this
      ensures rows == Enumerate(records)
      ensures Numbered() && RecordsOf(rows) == records
    {
      rows := [];
      var i := 0;
      while i < |records|
        invariant 0 <= i <= |records|
        invariant rows == Enumerate(records[..i])
      {
        rows := rows + [Row(i + 1, records[i].website, records[i].username)];
        i := i + 1;
      }
      assert records[..i] == records;
    }

    /** `generator`: every stored row, in order; nothing is modified. */
    method Generator() returns (yielded: seq<Row>)
      ensures yielded == rows
    {
      yielded := [];
      var i := 0;
      while i < |rows|
        invariant 0 <= i <= |rows|
        invariant yielded == rows[..i]
      {
        yielded := yielded + [rows[i]];
        i := i + 1;
      }
    }

    /** `get_key`: the ID cell as decimal text, from which `int()` reads the
        ID back. */
    function GetKey(row: Row): (key: string)
      ensures key != [] && Text.AllDigits(key)
      ensures Text.ParseInt(key) == Some(row.id)
      ensures key[0] != '0' || row.id == 0
    {
      Text.ParseIntOfNatToString(row.id);
      Text.NatToString(row.id)
    }

    /** `get_fuzzied_records`: the rows scoring above 0, each once with its
        score, by non-increasing score, rows of equal score in table order. */
    method GetFuzziedRecords(query: string, matcher: Matcher) returns (result: seq<Scored<Row>>)
      ensures result == SortDesc(Positive(ScoreRows(rows, query, matcher)))
      ensures NonIncreasing(result)
      ensures forall k | 0 <= k < |result| ::
        result[k].score > 0.0 && result[k].score == matcher(query, MakeString(result[k].item)) && result[k].item in rows
      ensures multiset(result) == multiset(Positive(ScoreRows(rows, query, matcher)))
      ensures forall v | v > 0.0 :: WithScore(result, v) == WithScore(ScoreRows(rows, query, matcher), v)
    {
      ghost var scored := ScoreRows(rows, query, matcher);
      var kept: seq<Scored<Row>> := [];
      var i := 0;
      while i < |rows|
        invariant 0 <= i <= |rows|
        invariant kept == Positive(scored[..i])
      {
        var score := matcher(query, MakeString(rows[i]));
        ScoreRowsPrefix(rows, query, matcher, i);
        PositiveAppend(scored[..i], Scored(rows[i], score));
        if score > 0.0 {
          kept := kept + [Scored(rows[i], score)];
        }
        i := i + 1;
      }
      assert scored[..i] == scored;
      result := SortDesc(kept);
      SortDescPermutes(kept);
      SortDescMembers(kept);
      PositiveMembers(scored);
      ScoreRowsMembers(rows, query, matcher);
      forall v | v > 0.0 ensures WithScore(result, v) == WithScore(scored, v) {
        SortDescStable(kept, v);
        PositivePreservesWithScore(scored, v);
      }
    }

    /** `add_record`: append the next-numbered row and return its ID; the
        earlier rows stay as they were. */
    method AddRecord(website: string, username: string) returns (id: nat)
      modifies this
      ensures id == |old(rows)| + 1
      ensures rows == old(rows) + [Row(id, website, username)]
      ensures old(Numbered()) ==> Numbered()
    {
      id := |rows| + 1;
      rows := rows + [Row(id, website, username)];
    }
  }
}
