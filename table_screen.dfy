/** The entry screen's helpers: `Data` (the list of shown rows behind the
    table widget and the unfiltered fuzzy ranking over it), the filter the
    screen applies to a search, and `TimeString`, which gathers digit
    keypresses typed in quick succession into one row number. */
module TableScreen {
  import Vault
  import opened Ranking
  import opened Rows

  class Data {
    const profile: Vault.Profile
    /** The database the profile's queries run against. */
    const vault: Vault.Vault
    var allRecords: seq<Row>

    constructor(profile: Vault.Profile, vault: Vault.Vault)
      ensures this.profile == profile && this.vault == vault
      ensures allRecords == []
    {
      this.profile := profile;
      this.vault := vault;
      allRecords := [];
    }

    /** `rows` are this account's entries, each once, numbered from 1. */
    ghost predicate ListsEntries(rows: seq<Row>)
      reads vault
    {
      && NumberedFromOne(rows)
      && (forall i, j | 0 <= i < j < |rows| :: RecordsOf(rows)[i] != RecordsOf(rows)[j])
      && (forall r: Vault.Record :: r in RecordsOf(rows) <==>
            Vault.EntryKey(profile.account, r.username, r.website) in vault.passwords)
    }

    /** Add the account's entries, numbered 1..n in fetch order, to a fresh
        table (`shown`) and to `allRecords`; the earlier `allRecords` are kept,
        not cleared. */
    method MakeTable() returns (shown: seq<Row>)
      modifies this
      ensures allRecords == old(allRecords) + shown
      ensures ListsEntries(shown)
    {
      var records := vault.GetRecords(profile);
      shown := [];
      var i := 0;
      while i < |records|
        invariant 0 <= i <= |records|
        invariant shown == Enumerate(records[..i])
        invariant allRecords == old(allRecords) + shown
      {
        var row := Row(i + 1, records[i].website, records[i].username);
        shown := shown + [row];
        allRecords := allRecords + [row];
        i := i + 1;
      }
      assert records[..i] == records;
    }

    /** `remake_records`: reset `allRecords` to the account's entries
        numbered 1..n, adding the same rows to the (cleared) table. */
    method RemakeRecords() returns (shown: seq<Row>)
      modifies this
      ensures allRecords == shown
      ensures ListsEntries(shown)
    {
      var records := vault.GetRecords(profile);
      allRecords := [];
      shown := [];
      var i := 0;
      while i < |records|
        invariant 0 <= i <= |records|
        invariant shown == Enumerate(records[..i])
        invariant allRecords == shown
      {
        var row := Row(i + 1, records[i].website, records[i].username);
        shown := shown + [row];
        allRecords := allRecords + [row];
        i := i + 1;
      }
      assert records[..i] == records;
    }

    /** `add_record`: append the next-numbered row and return its ID. */
    method AddRecord(website: string, username: string) returns (last: nat)
      modifies this
      ensures last == |old(allRecords)| + 1
      ensures allRecords == old(allRecords) + [Row(last, website, username)]
      ensures NumberedFromOne(old(allRecords)) ==> NumberedFromOne(allRecords)
    {
      last := |allRecords| + 1;
      allRecords := allRecords + [Row(last, website, username)];
    }

    /** `do_fuzzy`: every row exactly once with its score, unfiltered, by
        non-increasing score, rows of equal score in `allRecords` order. */
    method DoFuzzy(query: string, matcher: Matcher) returns (result: seq<Scored<Row>>)
      ensures result == SortDesc(ScoreRows(allRecords, query, matcher))
      ensures NonIncreasing(result)
      ensures multiset(Items(result)) == multiset(allRecords)
      ensures forall k | 0 <= k < |result| :: result[k].score == matcher(query, MakeString(result[k].item))
      ensures forall v :: WithScore(result, v) == WithScore(ScoreRows(allRecords, query, matcher), v)
    {
      ghost var scored := ScoreRows(allRecords, query, matcher);
      var unsorted: seq<Scored<Row>> := [];
      var i := 0;
      while i < |allRecords|
        invariant 0 <= i <= |allRecords|
        invariant unsorted == scored[..i]
      {
        var score := matcher(query, MakeString(allRecords[i]));
        unsorted := unsorted + [Scored(allRecords[i], score)];
        i := i + 1;
      }
      assert unsorted == scored;
      result := SortDesc(unsorted);
      SortDescItems(unsorted);
      SortDescPermutes(unsorted);
      SortDescMembers(unsorted);
      ScoreRowsMembers(allRecords, query, matcher);
      forall v ensures WithScore(result, v) == WithScore(scored, v) {
        SortDescStable(unsorted, v);
      }
    }
  }

  /** The screen's reaction to a new search text: the rows the table then
      shows. The table is cleared first, so the result is the whole display. */
  method OnMyTableFuzzied(data: Data, query: string, matcher: Matcher) returns (displayed: seq<Row>)
    ensures query == [] ==> displayed == data.allRecords
    ensures query != [] ==>
      displayed == Items(SortDesc(Positive(ScoreRows(data.allRecords, query, matcher))))
    ensures query != [] ==> forall k | 0 <= k < |displayed| ::
      matcher(query, MakeString(displayed[k])) > 0.0
  {
    if query == [] {
      displayed := [];
      var i := 0;
      while i < |data.allRecords|
        invariant 0 <= i <= |data.allRecords|
        invariant displayed == data.allRecords[..i]
      {
        displayed := displayed + [data.allRecords[i]];
        i := i + 1;
      }
      return;
    }
    var records := data.DoFuzzy(query, matcher);
    displayed := ShowPositive(records);
    PositiveOfSortDesc(ScoreRows(data.allRecords, query, matcher));
    ShownRowsMatch(records, query, matcher);
  }

  /** When every score is the matcher's score of its row, every row kept
      for display matches the query. */
  lemma ShownRowsMatch(records: seq<Scored<Row>>, query: string, matcher: Matcher)
    requires forall k | 0 <= k < |records| :: records[k].score == matcher(query, MakeString(records[k].item))
    ensures forall k | 0 <= k < |Items(Positive(records))| ::
      matcher(query, MakeString(Items(Positive(records))[k])) > 0.0
  {
    PositiveMembers(records);
    forall k | 0 <= k < |Items(Positive(records))|
      ensures matcher(query, MakeString(Items(Positive(records))[k])) > 0.0
    {
      assert Positive(records)[k] in Positive(records);
    }
  }

  /** The rows of a ranking whose score is above 0, in ranking order: the
      rows the search adds back to the cleared table. */
  method ShowPositive(records: seq<Scored<Row>>) returns (displayed: seq<Row>)
    ensures displayed == Items(Positive(records))
  {
    displayed := [];
    var i := 0;
    while i < |records|
      invariant 0 <= i <= |records|
      invariant displayed == Items(Positive(records[..i]))
    {
      PositiveAppend(records[..i], records[i]);
      assert records[..i + 1] == records[..i] + [records[i]];
      if records[i].score > 0.0 {
        ItemsAppend(Positive(records[..i]), records[i]);
        displayed := displayed + [records[i].item];
      }
      i := i + 1;
    }
    assert records[..i] == records;
  }

  /** The state of a `TimeString`: the digits gathered in the current chunk,
      the clock reading at which the chunk started, and whether the chunk
      is known to have expired. */
  datatype Chunk = Chunk(text: string, start: int, timedOut: bool)

  /** The state of a new `TimeString` created at time `now`. */
  function Initial(now: int): Chunk {
    Chunk("", now, true)
  }

  /** `send(ch)` at clock reading `now`: a chunk that was already expired, or
      whose start lies more than `timeout` before `now`, is replaced by a
      fresh one starting at `now`; then `ch` is appended. */
  function Next(c: Chunk, ch: char, now: int, timeout: int): (d: Chunk)
    ensures !d.timedOut && |d.text| >= 1 && d.text[|d.text| - 1] == ch
  {
    var expired := c.timedOut || now - c.start > timeout;
    if expired then Chunk([ch], now, false) else Chunk(c.text + [ch], c.start, false)
  }

  /** The state after sending each `(character, clock reading)` in turn. */
  function SendAll(c: Chunk, presses: seq<(char, int)>, timeout: int): Chunk
    decreases |presses|
  {
    if presses == [] then c else SendAll(Next(c, presses[0].0, presses[0].1, timeout), presses[1..], timeout)
  }

  /** The first send after construction starts a chunk holding just that
      character, whatever the clock says. */
  lemma FirstSendFresh(created: int, ch: char, now: int, timeout: int)
    ensures Next(Initial(created), ch, now, timeout) == Chunk([ch], now, false)
  {
  }

  /** A send within the window of a live chunk extends it and leaves its
      start where it was; a send after the window restarts it at `now`. */
  lemma SendWithinOrAfterWindow(c: Chunk, ch: char, now: int, timeout: int)
    requires !c.timedOut
    ensures now - c.start <= timeout ==> Next(c, ch, now, timeout) == Chunk(c.text + [ch], c.start, false)
    ensures now - c.start > timeout ==> Next(c, ch, now, timeout) == Chunk([ch], now, false)
  {
  }

  /** A burst: if every keypress after the first comes at most `timeout`
      after the chunk start, the chunk holds all the burst's characters and
      keeps its start; the window is measured from the chunk's first
      keypress, not from the latest one. */
  lemma {:induction false} ChunkWithinWindow(c: Chunk, presses: seq<(char, int)>, timeout: int)
    requires !c.timedOut
    requires forall k | 0 <= k < |presses| :: presses[k].1 - c.start <= timeout
    ensures SendAll(c, presses, timeout).start == c.start
    ensures SendAll(c, presses, timeout).text == c.text + seq(|presses|, k requires 0 <= k < |presses| => presses[k].0)
    decreases |presses|
  {
    var chars := seq(|presses|, k requires 0 <= k < |presses| => presses[k].0);
    if presses != [] {
      var d := Next(c, presses[0].0, presses[0].1, timeout);
      assert d == Chunk(c.text + [presses[0].0], c.start, false);
      ChunkWithinWindow(d, presses[1..], timeout);
      var rest := seq(|presses[1..]|, k requires 0 <= k < |presses[1..]| => presses[1..][k].0);
      assert chars == [presses[0].0] + rest;
    } else {
      assert chars == [];
    }
  }

  /** Any burst of keypresses, the first at a time when the chunk has
      expired, yields exactly the burst's characters as long as each comes
      within `timeout` of the first. */
  lemma FreshBurst(c: Chunk, presses: seq<(char, int)>, timeout: int)
    requires presses != []
    requires c.timedOut || presses[0].1 - c.start > timeout
    requires forall k | 0 <= k < |presses| :: presses[k].1 - presses[0].1 <= timeout
    ensures SendAll(c, presses, timeout).start == presses[0].1
    ensures SendAll(c, presses, timeout).text == seq(|presses|, k requires 0 <= k < |presses| => presses[k].0)
  {
    var d := Next(c, presses[0].0, presses[0].1, timeout);
    assert d == Chunk([presses[0].0], presses[0].1, false);
    ChunkWithinWindow(d, presses[1..], timeout);
    var rest := seq(|presses[1..]|, k requires 0 <= k < |presses[1..]| => presses[1..][k].0);
    assert seq(|presses|, k requires 0 <= k < |presses| => presses[k].0) == [presses[0].0] + rest;
  }

  /** Concatenates the characters sent within one time chunk. The clock is
      a parameter of the constructor and of `Send`. */
  class TimeString {
    var finalStr: string
    var start: int
    var timedOut: bool
    const timeout: int

    constructor(timeoutNs: int, now: int)
      ensures State() == Initial(now) && timeout == timeoutNs
    {
      finalStr := "";
      start := now;
      timedOut := true;
      timeout := timeoutNs;
    }

    function State(): Chunk
      reads this
    {
      Chunk(finalStr, start, timedOut)
    }

    /** Send one character at clock reading `now`; returns every character
        of the current chunk. */
    method Send(ch: char, now: int) returns (r: string)
      modifies this
      ensures State() == Next(old(State()), ch, now, timeout)
      ensures r == finalStr
    {
      if !timedOut {
        if now - start > timeout {
          timedOut := true;
        }
      }
      if timedOut {
        start := now;
        timedOut := false;
        finalStr := "";
      }
      finalStr := finalStr + [ch];
      r := finalStr;
    }
  }
}
