/**
 * The `qualifications` table as an id-keyed store. `nextId` stands for the
 * AUTOINCREMENT counter: one past the largest id ever issued, so ids of
 * deleted rows are never reused.
 */
module Store {
  import opened Records

  /** The seven sample rows that seeding inserts, in insertion order. */
  const SampleData: seq<Record> := [
    Record("Natural Sciences", "Bachelor of Science in Computer Science (NQF Level 7 – 360 credits)", "DHET Submitted", "2024-07-10"),
    Record("EMS", "Bachelor of Commerce in Accounting (NQF Level 7 – 360 credits)", "DHET Approved", "2025-03-03"),
    Record("EMS", "Bachelor of Commerce in Economics (NQF Level 7 – 360 credits)", "SAQA Registration", "2025-04-10"),
    Record("CHS", "Bachelor of Arts Honours in Sport and Exercise Science (NQF Level 8 – 120 credits)", "CHE Recommendation Approval", "2025-01-31"),
    Record("Arts", "Master of Arts Quality Assurance (NQF Level 9 – 180 credits)", "Not Submitted", ""),
    Record("Law", "Master of Laws in Human Rights Advocacy Law (NQF Level 9 – 180 credits)", "CHE Submitted", "2024-11-10"),
    Record("Arts", "Doctor of Philosophy in Anthropology (NQF Level 10 – minimum 360 credits)", "SAQA Registration", "2024-11-30")
  ]

  // ---------------------------------------------------------------- reading

  /** The stored ids in `[1, n)`. */
  ghost function IdsBelow(table: map<int, Record>, n: int): set<int>
  {
    set id | id in table && 1 <= id < n
  }

  /** The rows with ids in `[1, n)`, in ascending id order (a full scan of a rowid table). */
  function RowsBelow(table: map<int, Record>, n: int): (r: seq<Row>)
    decreases n
    ensures forall row :: row in r ==> row.id < n
  {
    if n <= 1 then []
    else
      var prev := RowsBelow(table, n - 1);
      if n - 1 in table then prev + [Row(n - 1, table[n - 1])] else prev
  }

  /** The scan yields the stored rows below `n` and nothing else, each as stored. */
  lemma {:induction false} RowsBelowMembers(table: map<int, Record>, n: int)
    ensures forall row :: row in RowsBelow(table, n) <==> 1 <= row.id < n && row.id in table && table[row.id] == row.fields
    decreases n
  {
    if n > 1 {
      RowsBelowMembers(table, n - 1);
    }
  }

  /** The scan yields the rows in strictly ascending id order. */
  lemma {:induction false} RowsBelowAscending(table: map<int, Record>, n: int)
    ensures forall i, j :: 0 <= i < j < |RowsBelow(table, n)| ==> RowsBelow(table, n)[i].id < RowsBelow(table, n)[j].id
    decreases n
  {
    if n > 1 {
      RowsBelowAscending(table, n - 1);
      var prev := RowsBelow(table, n - 1);
      if n - 1 in table {
        var r := prev + [Row(n - 1, table[n - 1])];
        forall i, j | 0 <= i < j < |r| ensures r[i].id < r[j].id {
          if j == |prev| {
            assert r[i] in prev;
          }
        }
      }
    }
  }

  /** One row per stored id below `n`. */
  lemma {:induction false} RowsBelowCount(table: map<int, Record>, n: int)
    ensures |RowsBelow(table, n)| == |IdsBelow(table, n)|
    decreases n
  {
    if n <= 1 {
      assert IdsBelow(table, n) == {};
    } else {
      RowsBelowCount(table, n - 1);
      if n - 1 in table {
        assert IdsBelow(table, n) == IdsBelow(table, n - 1) + {n - 1};
      } else {
        assert IdsBelow(table, n) == IdsBelow(table, n - 1);
      }
    }
  }

  /** No stored id in `[1, n)` means no rows. */
  lemma {:induction false} RowsBelowNone(table: map<int, Record>, n: int)
    requires forall id :: id in table ==> id >= n
    ensures RowsBelow(table, n) == []
    decreases n
  {
    if n > 1 {
      RowsBelowNone(table, n - 1);
    }
  }

  // ---------------------------------------------------------------- seeding

  /** The position in the inserted list of the row with `id`. */
  function Offset(start: int, id: int): int
  {
    id - start
  }

  /** The records of `data`, in order, under consecutive ids from `start`. */
  function InsertedAt(start: int, data: seq<Record>): (table: map<int, Record>)
    ensures forall id :: id in table <==> start <= id < start + |data|
  {
    map id | start <= id < start + |data| :: data[Offset(start, id)]
  }

  /** One id per record. */
  lemma {:induction false} InsertedAtSize(start: int, data: seq<Record>)
    ensures |InsertedAt(start, data)| == |data|
    decreases |data|
  {
    if data != [] {
      var init := data[..|data| - 1];
      InsertedAtSize(start, init);
      InsertedAtSnoc(start, data, |data| - 1);
      assert data[..|data| - 1 + 1] == data;
      assert start + |init| !in InsertedAt(start, init);
    }
  }

  /** Inserting one more record extends the map by that record under the next id. */
  lemma InsertedAtSnoc(start: int, data: seq<Record>, i: nat)
    requires i < |data|
    ensures InsertedAt(start, data[..i + 1]) == InsertedAt(start, data[..i])[start + i := data[i]]
  {
  }

  lemma UnionUpdate(a: map<int, Record>, b: map<int, Record>, k: int, v: Record)
    ensures a + b[k := v] == (a + b)[k := v]
  {
  }

  /** The first `n` records of `data` as rows numbered from id `start` on, in list order. */
  function NumberedFrom(start: int, data: seq<Record>, n: nat): (r: seq<Row>)
    requires n <= |data|
  {
    seq(n, i requires 0 <= i < n => Row(start + i, data[i]))
  }

  lemma RowsBelowStep(table: map<int, Record>, n: int)
    requires n > 1 && n - 1 in table
    ensures RowsBelow(table, n) == RowsBelow(table, n - 1) + [Row(n - 1, table[n - 1])]
  {
  }

  lemma NumberedFromStep(start: int, data: seq<Record>, n: nat)
    requires 0 < n <= |data|
    ensures NumberedFrom(start, data, n) == NumberedFrom(start, data, n - 1) + [Row(start + n - 1, data[n - 1])]
  {
  }

  /**
   * Reading a table whose ids start at `start` and run on consecutively for
   * `n` rows returns those rows in id order.
   */
  lemma {:induction false} ConsecutiveRowsInOrder(table: map<int, Record>, start: int, data: seq<Record>, n: nat)
    requires 1 <= start && n <= |data|
    requires forall id :: id in table ==> id >= start
    requires forall id :: start <= id < start + n ==> id in table && table[id] == data[id - start]
    ensures RowsBelow(table, start + n) == NumberedFrom(start, data, n)
  {
    if n == 0 {
      RowsBelowNone(table, start);
    } else {
      var last := start + n - 1;
      assert last in table && table[last] == data[n - 1];
      assert RowsBelow(table, last) == NumberedFrom(start, data, n - 1) by {
        ConsecutiveRowsInOrder(table, start, data, n - 1);
      }
      assert RowsBelow(table, start + n) == RowsBelow(table, last) + [Row(last, data[n - 1])] by {
        RowsBelowStep(table, start + n);
      }
      NumberedFromStep(start, data, n);
    }
  }

  /**
   * Reading back records inserted into an empty table returns exactly
   * them, in list order, with increasing ids from `start`.
   */
  lemma InsertedRowsInListOrder(start: int, data: seq<Record>)
    requires 1 <= start
    ensures RowsBelow(InsertedAt(start, data), start + |data|) == NumberedFrom(start, data, |data|)
  {
    ConsecutiveRowsInOrder(InsertedAt(start, data), start, data, |data|);
  }

  // ---------------------------------------------------------------- saving

  /** One `UPDATE qualifications SET ... WHERE id=?` for an edited row. */
  function ApplyEdit(table: map<int, Record>, edit: EditedRow): (t: map<int, Record>)
    ensures t.Keys == table.Keys
    ensures forall id :: id in table ==> t[id] == if edit.id == Some(id) then edit.fields else table[id]
  {
    match edit.id
    case Some(id) => if id in table then table[id := edit.fields] else table
    case None => table
  }

  /** The UPDATEs of the save loop, in the order of the edited rows. */
  function ApplyEdits(table: map<int, Record>, edits: seq<EditedRow>): (t: map<int, Record>)
    ensures t.Keys == table.Keys
    decreases |edits|
  {
    if edits == [] then table
    else ApplyEdit(ApplyEdits(table, edits[..|edits| - 1]), edits[|edits| - 1])
  }

  /** The position of the last edited row carrying `id`, if any does. */
  function LastEditIndex(edits: seq<EditedRow>, id: int): (k: Option<nat>)
    ensures k.None? ==> forall i :: 0 <= i < |edits| ==> edits[i].id != Some(id)
    ensures k.Some? ==> k.value < |edits| && edits[k.value].id == Some(id)
    ensures k.Some? ==> forall j :: k.value < j < |edits| ==> edits[j].id != Some(id)
    decreases |edits|
  {
    if edits == [] then None
    else if edits[|edits| - 1].id == Some(id) then Some(|edits| - 1)
    else
      var init := edits[..|edits| - 1];
      assert forall i :: 0 <= i < |init| ==> init[i] == edits[i];
      LastEditIndex(init, id)
  }

  /**
   * Saving overwrites each stored row with the last edited row that carries
   * its id; rows no edited row names keep their fields.
   */
  lemma {:induction false} SaveLastEditWins(table: map<int, Record>, edits: seq<EditedRow>, id: int)
    requires id in table
    ensures ApplyEdits(table, edits)[id] ==
              match LastEditIndex(edits, id) case Some(k) => edits[k].fields case None => table[id]
    decreases |edits|
  {
    if edits != [] {
      var init := edits[..|edits| - 1];
      SaveLastEditWins(table, init, id);
      if edits[|edits| - 1].id != Some(id) {
        assert LastEditIndex(edits, id) == LastEditIndex(init, id);
        match LastEditIndex(init, id)
        case Some(k) => assert init[k] == edits[k];
        case None =>
      }
    }
  }

  // ---------------------------------------------------------------- the table

  class Table {
    var rows: map<int, Record>
    var nextId: int

    /** Every stored id was issued by the counter; ids start at 1. */
    ghost predicate Valid()
      reads this
    {
      1 <= nextId && forall id :: id in rows ==> 1 <= id < nextId
    }

    /** `CREATE TABLE IF NOT EXISTS` on a fresh database file. */
    constructor ()
      ensures Valid() && rows == map[] && nextId == 1
    {
      rows, nextId := map[], 1;
    }

    /**
     * `SELECT * FROM qualifications`: every stored row exactly once, in
     * ascending id order.
     */
    function Load(): (r: seq<Row>)
      reads this
      requires Valid()
      ensures |r| == |rows|
      ensures forall row :: row in r <==> row.id in rows && rows[row.id] == row.fields
      ensures forall i, j :: 0 <= i < j < |r| ==> r[i].id < r[j].id
    {
      RowsBelowCount(rows, nextId);
      RowsBelowMembers(rows, nextId);
      RowsBelowAscending(rows, nextId);
      assert IdsBelow(rows, nextId) == rows.Keys;
      RowsBelow(rows, nextId)
    }

    /** `INSERT INTO qualifications (...) VALUES (...)`: the new row gets a fresh id. */
    method Insert(fields: Record) returns (id: int)
      requires Valid()
      modifies this
      ensures Valid()
      ensures id == old(nextId) && id !in old(rows)
      ensures forall other :: other in old(rows) ==> other < id
      ensures rows == old(rows)[id := fields] && nextId == id + 1
    {
      id := nextId;
      rows := rows[id := fields];
      nextId := nextId + 1;
    }

    /** `executemany` of the INSERT: the records of `data`, one after another. */
    method InsertAll(data: seq<Record>)
      requires Valid()
      modifies this
      ensures Valid()
      ensures rows == old(rows) + InsertedAt(old(nextId), data) && nextId == old(nextId) + |data|
    {
      var i := 0;
      while i < |data|
        invariant 0 <= i <= |data|
        invariant rows == old(rows) + InsertedAt(old(nextId), data[..i]) && nextId == old(nextId) + i
        invariant Valid()
      {
        InsertedAtSnoc(old(nextId), data, i);
        UnionUpdate(old(rows), InsertedAt(old(nextId), data[..i]), old(nextId) + i, data[i]);
        var _ := Insert(data[i]);
        i := i + 1;
      }
      assert data[..i] == data;
    }

    /** `seed_database`: insert the sample rows only if the table has no rows. */
    method Seed()
      requires Valid()
      modifies this
      ensures Valid()
      ensures old(|rows|) == 0 ==>
                rows == InsertedAt(old(nextId), SampleData) && nextId == old(nextId) + |SampleData|
      ensures old(|rows|) != 0 ==> rows == old(rows) && nextId == old(nextId)
    {
      if |rows| == 0 {
        InsertAll(SampleData);
      }
    }

    /** One `UPDATE ... WHERE id=?`: a row without an id, or an unknown id, matches nothing. */
    method Update(edit: EditedRow)
      requires Valid()
      modifies this
      ensures Valid()
      ensures rows == ApplyEdit(old(rows), edit) && nextId == old(nextId)
    {
      if edit.id.Some? && edit.id.value in rows {
        rows := rows[edit.id.value := edit.fields];
      }
    }

    /** The Save button: one UPDATE per edited row, in frame order. No row is added or removed. */
    method Save(edited: seq<EditedRow>)
      requires Valid()
      modifies this
      ensures Valid()
      ensures rows == ApplyEdits(old(rows), edited) && nextId == old(nextId)
      ensures rows.Keys == old(rows.Keys)
    {
      var i := 0;
      while i < |edited|
        invariant 0 <= i <= |edited|
        invariant rows == ApplyEdits(old(rows), edited[..i]) && nextId == old(nextId)
        invariant Valid()
      {
        assert edited[..i + 1][..i] == edited[..i];
        Update(edited[i]);
        i := i + 1;
      }
      assert edited[..i] == edited;
    }

    /** `DELETE FROM qualifications WHERE id=?`: an absent id changes nothing. */
    method Delete(id: int)
      requires Valid()
      modifies this
      ensures Valid()
      ensures rows == old(rows) - {id} && nextId == old(nextId)
      ensures id !in rows
      ensures forall other :: other in old(rows) && other != id ==> other in rows && rows[other] == old(rows)[other]
      ensures id !in old(rows) ==> rows == old(rows)
    {
      rows := rows - {id};
    }
  }

  /**
   * Seed a fresh database, delete id 5, then save an edit of row 1: six rows
   * remain, none with id 5, and row 1 carries the new status and date.
   */
  method SeedDeleteSaveScenario() returns (loaded: seq<Row>)
    ensures |loaded| == 6
    ensures forall row :: row in loaded ==> row.id != 5
    ensures exists row :: row in loaded && row.id == 1
              && row.fields.status == "DHET Approved" && row.fields.date == "2024-08-01"
  {
    var table := new Table();
    table.Seed();
    InsertedAtSize(1, SampleData);
    assert |table.rows| == 7 && 1 in table.rows && 5 in table.rows;
    table.Delete(5);
    assert |table.rows| == 6 && 1 in table.rows;
    var edit := EditedRow(Some(1), Record("Natural Sciences",
      "Bachelor of Science in Computer Science (NQF Level 7 – 360 credits)", "DHET Approved", "2024-08-01"));
    ghost var before := table.rows;
    table.Save([edit]);
    assert table.rows == ApplyEdit(before, edit) by {
      assert [edit][..0] == [];
    }
    assert table.rows[1] == edit.fields;
    loaded := table.Load();
    assert Row(1, edit.fields) in loaded;
  }
}
