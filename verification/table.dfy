/** The attribute table scraped from a placemark's description: the `<td>`
    cell texts, in document order, read as alternating key and value cells and
    folded into a dictionary in which a later duplicate key overwrites an
    earlier one. */
module Table {
  import opened Wrappers
  import opened Seqs

  /** One key cell together with the value cell that follows it. */
  datatype Entry = Entry(key: string, value: string)

  /** An odd number of cells makes the value access for the last key cell
      read past the end of the cell list, at index `missingIndex`; the
      resulting index error is not caught. */
  datatype ScrapeError = OddCellCount(missingIndex: nat)

  /** The cells pair up: every key cell has a value cell after it. */
  predicate Paired(cells: seq<string>) {
    |cells| % 2 == 0
  }

  /** The (key, value) entries of the cells: entry `p` pairs cell `2p` with
      cell `2p + 1`. An odd cell count is an error at the missing index. */
  function Entries(cells: seq<string>): (r: Result<seq<Entry>, ScrapeError>)
    ensures r.Success? <==> Paired(cells)
    ensures r.Failure? ==> r.error == OddCellCount(|cells|)
    ensures r.Success? ==> 2 * |r.value| == |cells|
    ensures r.Success? ==>
      forall p :: 0 <= p < |r.value| ==> r.value[p] == Entry(cells[2 * p], cells[2 * p + 1])
    decreases |cells|
  {
    if |cells| == 0 then Success([])
    else if |cells| == 1 then Failure(OddCellCount(1))
    else
      match Entries(cells[2..])
      case Failure(_) => Failure(OddCellCount(|cells|))
      case Success(rest) =>
        var es := [Entry(cells[0], cells[1])] + rest;
        assert forall p :: 1 <= p < |es| ==> es[p] == rest[p - 1];
        Success(es)
  }

  /** No entry after position `i` has the same key as entry `i`. */
  predicate IsLastWrite(entries: seq<Entry>, i: nat)
    requires i < |entries|
  {
    forall j :: i < j < |entries| ==> entries[j].key != entries[i].key
  }

  /** The dictionary built by assigning the entries one after another: its
      keys are the keys of the entries, and each key maps to the value of its
      last entry. */
  function Assign(entries: seq<Entry>): (m: map<string, string>)
    ensures m.Keys == set e | e in entries :: e.key
    ensures forall i {:trigger IsLastWrite(entries, i)} ::
      0 <= i < |entries| && IsLastWrite(entries, i) ==>
      m[entries[i].key] == entries[i].value
    decreases |entries|
  {
    if |entries| == 0 then map[]
    else
      var init := entries[..|entries| - 1];
      var last := entries[|entries| - 1];
      var m := Assign(init)[last.key := last.value];
      AssignKeys(entries);
      forall i | 0 <= i < |entries| && IsLastWrite(entries, i)
        ensures m[entries[i].key] == entries[i].value
      {
        if i < |init| {
          assert entries[i] == init[i];
          assert IsLastWrite(init, i);
        }
      }
      m
  }

  /** The keys after one more entry are the earlier keys and the new one. */
  lemma AssignKeys(entries: seq<Entry>)
    requires |entries| > 0
    ensures (set e | e in entries :: e.key)
         == (set e | e in entries[..|entries| - 1] :: e.key) + {entries[|entries| - 1].key}
  {
    assert entries == entries[..|entries| - 1] + [entries[|entries| - 1]];
  }

  /** The attribute table of a description, or the error an odd cell count
      raises. */
  function Scrape(cells: seq<string>): (r: Result<map<string, string>, ScrapeError>)
    ensures r.Success? <==> Paired(cells)
    ensures r.Failure? ==> r.error == OddCellCount(|cells|)
  {
    match Entries(cells)
    case Failure(e) => Failure(e)
    case Success(entries) => Success(Assign(entries))
  }

  /** A reference reading of the table, straight off the cells: scanning the
      key cells from the back, the value after the last key cell equal to
      `name`, or the empty string when no key cell is. */
  function LastValue(cells: seq<string>, name: string): string
    decreases |cells|
  {
    if |cells| < 2 then ""
    else if cells[|cells| - 2] == name then cells[|cells| - 1]
    else LastValue(cells[..|cells| - 2], name)
  }

  /** `data.get(name, '')`: the value stored under `name`, or the empty
      string. */
  function Get(data: map<string, string>, name: string): string {
    if name in data then data[name] else ""
  }

  /** A reference reading of the dictionary, straight off the entries:
      scanning from the back, the value of the last entry whose key is
      `name`, or the empty string when no entry has that key. */
  function LastEntryValue(entries: seq<Entry>, name: string): string
    decreases |entries|
  {
    if |entries| == 0 then ""
    else if entries[|entries| - 1].key == name then entries[|entries| - 1].value
    else LastEntryValue(entries[..|entries| - 1], name)
  }

  /** A lookup after an assignment sees the assigned value under its key
      and the earlier table under every other name. */
  lemma GetUpdate(data: map<string, string>, key: string, value: string, name: string)
    ensures Get(data[key := value], name) == (if name == key then value else Get(data, name))
  {
  }

  /** `data.get(name, '')` on the dictionary the assignments build is the
      value of the last entry with that key, or the empty string when no
      entry has it. */
  lemma {:induction false} AssignGet(entries: seq<Entry>, name: string)
    ensures Get(Assign(entries), name) == LastEntryValue(entries, name)
    decreases |entries|
  {
    if |entries| > 0 {
      var init, last := entries[..|entries| - 1], entries[|entries| - 1];
      assert init + [last] == entries;
      AssignSnoc(init, last);
      AssignGet(init, name);
      GetUpdate(Assign(init), last.key, last.value, name);
    }
  }

  /** Looking a name up in the scraped table agrees with the reference
      reading of the cells: last write wins, and a missing name reads as the
      empty string. */
  lemma {:induction false} ScrapeGet(cells: seq<string>, name: string)
    requires Paired(cells)
    ensures Get(Scrape(cells).value, name) == LastValue(cells, name)
    decreases |cells|
  {
    if |cells| >= 2 {
      var init := cells[..|cells| - 2];
      var key, value := cells[|cells| - 2], cells[|cells| - 1];
      assert init + [key, value] == cells;
      ScrapeSnoc(init, key, value);
      ScrapeGet(init, name);
      var before := Scrape(init).value;
      assert Scrape(cells).value == before[key := value];
      GetUpdate(before, key, value, name);
      if name == key {
        assert LastValue(cells, name) == value;
      } else {
        assert LastValue(cells, name) == LastValue(init, name);
      }
    } else {
      assert Entries(cells).value == [];
    }
  }

  /** Appending one key cell and one value cell assigns that value to that
      key in the table, overwriting any earlier value. */
  lemma ScrapeSnoc(cells: seq<string>, key: string, value: string)
    requires Paired(cells)
    ensures Scrape(cells + [key, value]).Success?
    ensures Scrape(cells + [key, value]).value == Scrape(cells).value[key := value]
  {
    EntriesSnoc(cells, key, value);
    AssignSnoc(Entries(cells).value, Entry(key, value));
  }

  /** Two more cells give one more entry, at the end. */
  lemma EntriesSnoc(cells: seq<string>, key: string, value: string)
    requires Paired(cells)
    ensures Entries(cells + [key, value]) == Success(Entries(cells).value + [Entry(key, value)])
  {
    var longer := cells + [key, value];
    var es, es' := Entries(cells).value, Entries(longer).value;
    assert |es'| == |es| + 1;
    forall p | 0 <= p < |es| ensures es'[p] == es[p] {
      assert longer[2 * p] == cells[2 * p] && longer[2 * p + 1] == cells[2 * p + 1];
    }
    assert es'[|es|] == Entry(key, value) by {
      assert 2 * |es| == |cells|;
      assert longer[|cells|] == key && longer[|cells| + 1] == value;
    }
    SnocEqual(es', es, Entry(key, value));
  }

  /** Assigning one more entry updates the dictionary at its key. */
  lemma AssignSnoc(entries: seq<Entry>, e: Entry)
    ensures Assign(entries + [e]) == Assign(entries)[e.key := e.value]
  {
    assert (entries + [e])[..|entries|] == entries;
  }

  /** One iteration of the loop below: the table of the next two cells'
      prefix is the current table with cell `i` assigned cell `i + 1`. */
  lemma ScrapeStep(cells: seq<string>, i: nat, data: map<string, string>)
    requires i + 2 <= |cells|
    requires Scrape(cells[..i]) == Success(data)
    ensures Scrape(cells[..i + 2]) == Success(data[cells[i] := cells[i + 1]])
  {
    PrefixTwoMore(cells, i);
    ScrapeSnoc(cells[..i], cells[i], cells[i + 1]);
  }

  /** No cells at all give the empty table. */
  lemma ScrapeNone(cells: seq<string>)
    ensures Scrape(cells[..0]) == Success(map[])
  {
    assert cells[..0] == [];
    assert Entries([]) == Success([]);
  }

  /** A key cell left without a value cell, after a well-paired prefix,
      fails at the index one past the last cell. */
  lemma ScrapeLastKey(cells: seq<string>, i: nat, data: map<string, string>)
    requires i + 1 == |cells|
    requires Scrape(cells[..i]) == Success(data)
    ensures Scrape(cells) == Failure(OddCellCount(i + 1))
  {
    assert |cells[..i]| == i;
  }

  /** Python's loop over the cells, two at a time: the key is cell `i`, the
      value cell `i + 1`, and each assignment overwrites the key's earlier
      value. It computes the same table as Scrape, or raises the same error. */
  method CollectCells(cells: seq<string>) returns (r: Result<map<string, string>, ScrapeError>)
    ensures r == Scrape(cells)
  {
    var data: map<string, string> := map[];
    var i := 0;
    ScrapeNone(cells);
    while i < |cells|
      invariant 0 <= i <= |cells|
      invariant Scrape(cells[..i]) == Success(data)
    {
      if i + 1 >= |cells| {
        ScrapeLastKey(cells, i, data);
        return Failure(OddCellCount(i + 1));
      }
      ScrapeStep(cells, i, data);
      data := data[cells[i] := cells[i + 1]];
      i := i + 2;
    }
    assert cells[..|cells|] == cells;
    r := Success(data);
  }
}
