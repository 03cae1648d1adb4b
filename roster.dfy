/** Student rows and the export records built from them: the gender filter
    (`get_students_by_gender`) and the record builder (`build_jsonl`). A row
    is the four columns the core reads; the date of birth is kept abstract
    (type parameter `D`) and its `%Y-%m-%d` rendering is a parameter. */
module Roster {

  /** One table row: "Student Name", "Student Number", "DoB", "Gender". */
  datatype Row<D> = Row(name: string, number: string, dob: D, gender: string)

  /** The single entry of a record's `additional_details` list. */
  datatype Details = Details(dob: string, gender: string, specialCharacter: string)

  /** One export record: `id`, `student_number`, `additional_details`. */
  datatype Record = Record(id: nat, studentNumber: string, additionalDetails: seq<Details>)

  /** The two sentinel strings of the `special_character` field. */
  const Yes: string := "['yes']"
  const No: string := "['no']"

  /** `get_students_by_gender(df, gender)`: the rows whose Gender equals
      `gender`, in table order. */
  function StudentsByGender<D>(rows: seq<Row<D>>, gender: string): (matching: seq<Row<D>>)
    ensures |matching| <= |rows|
    ensures forall k :: 0 <= k < |matching| ==> matching[k].gender == gender
  {
    if rows == [] then []
    else (if rows[0].gender == gender then [rows[0]] else []) + StudentsByGender(rows[1..], gender)
  }

  /** Filtering a concatenation filters each part: rows keep their relative
      order across the two parts. */
  lemma {:induction false} StudentsByGenderAppend<D>(a: seq<Row<D>>, b: seq<Row<D>>, gender: string)
    ensures StudentsByGender(a + b, gender) == StudentsByGender(a, gender) + StudentsByGender(b, gender)
    decreases |a|
  {
    if a == [] {
      assert a + b == b;
    } else {
      assert (a + b)[1..] == a[1..] + b;
      StudentsByGenderAppend(a[1..], b, gender);
    }
  }

  /** The positions, from `from` on and in increasing order, of the rows
      whose Gender equals `gender`. */
  function MatchPositions<D>(rows: seq<Row<D>>, gender: string, from: nat): (positions: seq<nat>)
    requires from <= |rows|
    ensures forall k :: 0 <= k < |positions| ==> from <= positions[k] < |rows|
    decreases |rows| - from
  {
    if from == |rows| then []
    else (if rows[from].gender == gender then [from] else []) + MatchPositions(rows, gender, from + 1)
  }

  /** The positions are exactly the matching positions from `from` on, each
      listed once, in increasing order. */
  lemma {:induction false} MatchPositionsExact<D>(rows: seq<Row<D>>, gender: string, from: nat)
    requires from <= |rows|
    ensures var positions := MatchPositions(rows, gender, from);
      && (forall k :: 0 <= k < |positions| ==> from <= positions[k] < |rows| && rows[positions[k]].gender == gender)
      && (forall k, l :: 0 <= k < l < |positions| ==> positions[k] < positions[l])
      && (forall i :: from <= i < |rows| && rows[i].gender == gender ==> i in positions)
    decreases |rows| - from
  {
    if from < |rows| {
      MatchPositionsExact(rows, gender, from + 1);
      var rest := MatchPositions(rows, gender, from + 1);
      var head := if rows[from].gender == gender then [from] else [];
      assert MatchPositions(rows, gender, from) == head + rest;
      forall i | from <= i < |rows| && rows[i].gender == gender
        ensures i in head + rest
      {
        if i == from {
          assert i in head;
        } else {
          assert i in rest;
        }
      }
    }
  }

  /** The filter returns the matching rows at their positions, in
      increasing position order: the k-th selected row is the row at the
      k-th matching position. */
  lemma StudentsByGenderPositions<D>(rows: seq<Row<D>>, gender: string)
    ensures var positions, matching := MatchPositions(rows, gender, 0), StudentsByGender(rows, gender);
      && |matching| == |positions|
      && forall k :: 0 <= k < |positions| ==> matching[k] == rows[positions[k]]
  {
    StudentsByGenderPositionsFrom(rows, gender, 0);
    assert rows[0..] == rows;
  }

  lemma {:induction false} StudentsByGenderPositionsFrom<D>(rows: seq<Row<D>>, gender: string, from: nat)
    requires from <= |rows|
    ensures var positions, matching := MatchPositions(rows, gender, from), StudentsByGender(rows[from..], gender);
      && |matching| == |positions|
      && forall k :: 0 <= k < |positions| ==> matching[k] == rows[positions[k]]
    decreases |rows| - from
  {
    if from < |rows| {
      StudentsByGenderPositionsFrom(rows, gender, from + 1);
      var head := if rows[from].gender == gender then [from] else [];
      var positions, matching := MatchPositions(rows, gender, from + 1), StudentsByGender(rows[from + 1..], gender);
      FilterStep(rows, gender, from);
      assert MatchPositions(rows, gender, from) == head + positions;
      if rows[from].gender == gender {
        forall k | 0 <= k < |positions| + 1
          ensures ([rows[from]] + matching)[k] == rows[([from] + positions)[k]]
        {
          if k > 0 {
            assert ([rows[from]] + matching)[k] == matching[k - 1];
            assert ([from] + positions)[k] == positions[k - 1];
          }
        }
      }
    }
  }

  /** One step of the filter over a suffix of the table. */
  lemma FilterStep<D>(rows: seq<Row<D>>, gender: string, from: nat)
    requires from < |rows|
    ensures StudentsByGender(rows[from..], gender) ==
      (if rows[from].gender == gender then [rows[from]] else []) + StudentsByGender(rows[from + 1..], gender)
  {
    assert rows[from..][1..] == rows[from + 1..];
  }

  /** The `special_character` sentinel for a row name. */
  function SpecialFlag(name: string, specialCharNames: seq<string>): (flag: string)
    ensures flag == Yes <==> name in specialCharNames
    ensures flag == Yes || flag == No
  {
    if name in specialCharNames then Yes else No
  }

  /** `build_jsonl(shuffled_df, special_char_names)`: one record per row, in
      row order, numbered from 0 by a running counter. */
  method BuildJsonl<D>(rows: seq<Row<D>>, specialCharNames: seq<string>, formatDate: D -> string)
    returns (records: seq<Record>)
    ensures |records| == |rows|
    ensures forall i :: 0 <= i < |rows| ==>
      && records[i].id == i
      && records[i].studentNumber == rows[i].number
      && records[i].additionalDetails ==
           [Details(formatDate(rows[i].dob), rows[i].gender, SpecialFlag(rows[i].name, specialCharNames))]
  {
    records := [];
    var idCount := 0;
    for k := 0 to |rows|
      invariant idCount == k && |records| == k
      invariant forall i :: 0 <= i < k ==>
        && records[i].id == i
        && records[i].studentNumber == rows[i].number
        && records[i].additionalDetails ==
             [Details(formatDate(rows[i].dob), rows[i].gender, SpecialFlag(rows[i].name, specialCharNames))]
    {
      var row := rows[k];
      var hasSpecialCharacter: string;
      if row.name in specialCharNames {
        hasSpecialCharacter := Yes;
      } else {
        hasSpecialCharacter := No;
      }
      var details := Details(formatDate(row.dob), row.gender, hasSpecialCharacter);
      records := records + [Record(idCount, row.number, [details])];
      idCount := idCount + 1;
    }
  }
}
