/**
 * The listing script: it selects the rows whose recipient is still empty and
 * prints each row's name, capitalised, one per line in query order. It only
 * reads the table, so it is a function of the rows.
 */
module LeftToDo {
  import opened Text
  import opened Recipients

  /** The query for the rows whose recipient is empty. */
  function Unassigned(rows: seq<Row>): (r: seq<Row>)
    ensures |r| <= |rows|
    ensures forall x :: x in r <==> x in rows && x.recipient == ""
    ensures forall n :: n in NameSet(r) <==> Row(n, "") in rows
  {
    var r := Select(rows, RecipientIs(""));
    assert forall n :: Row(n, "") in rows ==> Row(n, "") in r;
    r
  }

  /** `Capitalize` applied to each name, in order. */
  function CapitalizeAll(names: seq<string>): (r: seq<string>)
    ensures |r| == |names|
    ensures forall i :: 0 <= i < |names| ==> r[i] == Capitalize(names[i])
  {
    if names == [] then [] else [Capitalize(names[0])] + CapitalizeAll(names[1..])
  }

  /** The printed lines: one capitalised name per unassigned row. */
  function LeftToDo(rows: seq<Row>): (lines: seq<string>)
    ensures |lines| == |Unassigned(rows)| <= |rows|
    ensures forall line :: line in lines <==> exists x :: x in rows && x.recipient == "" && Capitalize(x.name) == line
  {
    var u := Unassigned(rows);
    var names := Names(u);
    var lines := CapitalizeAll(names);
    forall line | line in lines ensures exists x :: x in rows && x.recipient == "" && Capitalize(x.name) == line {
      var k :| 0 <= k < |lines| && lines[k] == line;
      assert names[k] == u[k].name && u[k] in u;
    }
    forall x | x in rows && x.recipient == "" ensures Capitalize(x.name) in lines {
      assert x in u;
      var k :| 0 <= k < |u| && u[k] == x;
      assert lines[k] == Capitalize(names[k]);
    }
    lines
  }

  /** The lines come in table order: listing two parts of the table lists each in turn. */
  lemma LeftToDoConcat(a: seq<Row>, b: seq<Row>)
    ensures LeftToDo(a + b) == LeftToDo(a) + LeftToDo(b)
  {
    SelectConcat(a, b, RecipientIs(""));
    NamesConcat(Unassigned(a), Unassigned(b));
    CapitalizeAllConcat(Names(Unassigned(a)), Names(Unassigned(b)));
  }

  lemma {:induction false} CapitalizeAllConcat(a: seq<string>, b: seq<string>)
    ensures CapitalizeAll(a + b) == CapitalizeAll(a) + CapitalizeAll(b)
  {
    if a == [] {
      assert a + b == b;
    } else {
      assert (a + b)[0] == a[0];
      assert (a + b)[1..] == a[1..] + b;
      CapitalizeAllConcat(a[1..], b);
    }
  }

  /**
   * The query returns a giver's unassigned row exactly when the assign
   * handler would let that giver past its "already assigned" check, and then
   * once per such row; such a giver's capitalised name is printed. The
   * converse does not hold for printed lines: names that differ only in case
   * print the same line.
   */
  lemma ListedExactlyWhenAssignable(rows: seq<Row>, giver: string)
    ensures Row(giver, "") in Unassigned(rows) <==> HasUnassignedRow(rows, giver)
    ensures multiset(Unassigned(rows))[Row(giver, "")] == multiset(rows)[Row(giver, "")]
    ensures HasUnassignedRow(rows, giver) ==> Capitalize(giver) in LeftToDo(rows)
  {
    SelectCounts(rows, RecipientIs(""));
    if HasUnassignedRow(rows, giver) {
      assert Row(giver, "") in rows && Capitalize(Row(giver, "").name) == Capitalize(giver);
    }
  }
}
