/**
 * The `recipients(name, recipient)` table that all three programs share, and
 * the SQL statements they issue against it, as functions on the rows in
 * table order. The empty string as a recipient means "no recipient yet".
 */
module Recipients {

  datatype Row = Row(name: string, recipient: string)

  /** The row conditions that the programs' WHERE clauses use. */
  datatype Where =
    | NameIs(name: string)
    | NameIsNot(name: string)
    | RecipientIs(recipient: string)
      /** The name is not among `taken` and is not the giver. */
    | Eligible(taken: set<string>, giver: string)
    | And(left: Where, right: Where)

  predicate Holds(w: Where, x: Row) {
    match w
    case NameIs(n) => x.name == n
    case NameIsNot(n) => x.name != n
    case RecipientIs(v) => x.recipient == v
    case Eligible(taken, g) => x.name !in taken && x.name != g
    case And(a, b) => Holds(a, x) && Holds(b, x)
  }

  /** A query of all columns under condition `w`: the matching rows, in table order. */
  function Select(rows: seq<Row>, w: Where): (r: seq<Row>)
    ensures |r| <= |rows|
    ensures forall x :: x in r <==> x in rows && Holds(w, x)
  {
    if rows == [] then []
    else
      assert rows == [rows[0]] + rows[1..];
      (if Holds(w, rows[0]) then [rows[0]] else []) + Select(rows[1..], w)
  }

  /** The `name` column of some rows, in order. */
  function Names(rows: seq<Row>): (r: seq<string>)
    ensures |r| == |rows|
    ensures forall i :: 0 <= i < |rows| ==> r[i] == rows[i].name
    ensures forall n :: n in r <==> n in NameSet(rows)
  {
    seq(|rows|, i requires 0 <= i < |rows| => rows[i].name)
  }

  lemma NamesConcat(a: seq<Row>, b: seq<Row>)
    ensures Names(a + b) == Names(a) + Names(b)
  {
    assert forall i :: 0 <= i < |a + b| ==> Names(a + b)[i] == (a + b)[i].name;
  }

  function NameSet(rows: seq<Row>): set<string> {
    set x | x in rows :: x.name
  }

  /** The recipient column, as a set (it holds `""` while anyone is unassigned). */
  function RecipientSet(rows: seq<Row>): set<string> {
    set x | x in rows :: x.recipient
  }

  /**
   * The draw pool: the names of the rows whose name is nobody's recipient
   * and is not the giver, in table order.
   */
  function Available(rows: seq<Row>, giver: string): (r: seq<string>)
    ensures forall n :: n in r <==> n in NameSet(rows) && n !in RecipientSet(rows) && n != giver
  {
    var s := Select(rows, Eligible(RecipientSet(rows), giver));
    assert forall n :: n in NameSet(s) ==> n in NameSet(rows);
    assert forall x :: x in rows && x.name !in RecipientSet(rows) && x.name != giver ==> x in s;
    Names(s)
  }

  /**
   * The "already assigned" check: the query for the giver's rows with an
   * empty recipient returns a row.
   */
  predicate HasUnassignedRow(rows: seq<Row>, giver: string)
    ensures HasUnassignedRow(rows, giver) <==> Row(giver, "") in rows
  {
    var w := And(NameIs(giver), RecipientIs(""));
    var s := Select(rows, w);
    assert forall x :: Holds(w, x) <==> x == Row(giver, "");
    assert s != [] ==> s[0] in s;
    assert Row(giver, "") in rows ==> Row(giver, "") in s;
    s != []
  }

  /** Deleting every row of the giver: the other rows stay, in order. */
  function Delete(rows: seq<Row>, giver: string): (r: seq<Row>)
    ensures |r| <= |rows|
    ensures NameSet(r) == NameSet(rows) - {giver}
    ensures RecipientSet(r) <= RecipientSet(rows)
    ensures Select(r, NameIs(giver)) == []
    ensures forall n :: n != giver ==> Select(r, NameIs(n)) == Select(rows, NameIs(n))
  {
    var r := Select(rows, NameIsNot(giver));
    forall n | n != giver ensures Select(r, NameIs(n)) == Select(rows, NameIs(n)) {
      SelectAfterWeaker(rows, NameIsNot(giver), NameIs(n));
    }
    SelectNone(r, NameIs(giver));
    assert forall n :: n in NameSet(rows) - {giver} ==> n in NameSet(r) by {
      forall n | n in NameSet(rows) - {giver} ensures n in NameSet(r) {
        var x :| x in rows && x.name == n;
        assert x in r;
      }
    }
    r
  }

  /**
   * The delete followed by the insert of the pair (giver, c): the giver's
   * old rows go and one new row is added after all the others.
   */
  function Replace(rows: seq<Row>, giver: string, c: string): (r: seq<Row>)
    ensures NameSet(r) == NameSet(rows) + {giver}
    ensures RecipientSet(r) <= RecipientSet(rows) + {c}
    ensures forall x :: x in r && x.name == giver <==> x == Row(giver, c)
    ensures forall x :: x in r && x.name != giver <==> x in rows && x.name != giver
  {
    var kept := Delete(rows, giver);
    var r := kept + [Row(giver, c)];
    assert NameSet(r) == NameSet(kept) + {giver} by {
      assert forall x :: x in r <==> x in kept || x == Row(giver, c);
    }
    assert RecipientSet(r) == RecipientSet(kept) + {c} by {
      assert forall x :: x in r <==> x in kept || x == Row(giver, c);
    }
    r
  }

  /** Setting the recipient of every row of the giver to `v`. */
  function Update(rows: seq<Row>, giver: string, v: string): (r: seq<Row>)
    ensures |r| == |rows|
    ensures forall i :: 0 <= i < |rows| ==> r[i].name == rows[i].name
    ensures forall i :: 0 <= i < |rows| ==> r[i].recipient == if rows[i].name == giver then v else rows[i].recipient
  {
    if rows == [] then []
    else [if rows[0].name == giver then Row(giver, v) else rows[0]] + Update(rows[1..], giver, v)
  }

  /**
   * The MySQL database the programs connect to: whether the `recipients`
   * table exists, and its rows.
   */
  class Database {
    var tableExists: bool
    var rows: seq<Row>

    /** The database as the programs find it when they connect. */
    constructor (tableExists: bool, rows: seq<Row>)
      ensures this.tableExists == tableExists && this.rows == rows
    {
      this.tableExists := tableExists;
      this.rows := rows;
    }
  }

  // ---------------------------------------------------------------------
  // The matching invariant

  predicate DistinctNames(rows: seq<Row>) {
    forall i, j :: 0 <= i < j < |rows| ==> rows[i].name != rows[j].name
  }

  /** Nobody is their own recipient. */
  predicate NoSelfAssignment(rows: seq<Row>) {
    forall x :: x in rows && x.recipient != "" ==> x.recipient != x.name
  }

  /** No participant is the recipient of two rows. */
  predicate DistinctRecipients(rows: seq<Row>) {
    forall i, j :: 0 <= i < j < |rows| && rows[i].recipient != "" ==> rows[i].recipient != rows[j].recipient
  }

  /** Every recipient is one of the table's names. */
  predicate RecipientsAreParticipants(rows: seq<Row>) {
    forall x :: x in rows && x.recipient != "" ==> x.recipient in NameSet(rows)
  }

  /** One row per participant, and the recipients form a partial matching without fixed points. */
  predicate ValidMatching(rows: seq<Row>) {
    && DistinctNames(rows)
    && NoSelfAssignment(rows)
    && DistinctRecipients(rows)
    && RecipientsAreParticipants(rows)
  }

  // ---------------------------------------------------------------------
  // Lemmas about the statements

  /** A query reads the table front to back: selecting from two parts is selecting from each in turn. */
  lemma {:induction false} SelectConcat(a: seq<Row>, b: seq<Row>, w: Where)
    ensures Select(a + b, w) == Select(a, w) + Select(b, w)
  {
    if a == [] {
      assert a + b == b;
    } else {
      assert (a + b)[0] == a[0];
      assert (a + b)[1..] == a[1..] + b;
      SelectConcat(a[1..], b, w);
    }
  }

  /** A query returns each matching row as often as the table holds it, and no other row. */
  lemma {:induction false} SelectCounts(rows: seq<Row>, w: Where)
    ensures forall x :: multiset(Select(rows, w))[x] == if Holds(w, x) then multiset(rows)[x] else 0
  {
    if rows != [] {
      SelectCounts(rows[1..], w);
      assert rows == [rows[0]] + rows[1..];
    }
  }

  /** A query reads the first row, then the rest of the table. */
  lemma SelectCons(x: Row, rest: seq<Row>, w: Where)
    ensures Select([x] + rest, w) == (if Holds(w, x) then [x] else []) + Select(rest, w)
  {
    assert ([x] + rest)[1..] == rest;
  }

  /** Filtering by a weaker condition first does not change the result. */
  lemma {:induction false} SelectAfterWeaker(rows: seq<Row>, w1: Where, w2: Where)
    requires forall x :: Holds(w2, x) ==> Holds(w1, x)
    ensures Select(Select(rows, w1), w2) == Select(rows, w2)
  {
    if rows != [] {
      var x, tail := rows[0], Select(rows[1..], w1);
      SelectAfterWeaker(rows[1..], w1, w2);
      if Holds(w1, x) {
        var s := [x] + tail;
        assert Select(rows, w1) == s;
        assert s[0] == x && s[1..] == tail;
        assert Select(s, w2) == (if Holds(w2, x) then [x] else []) + Select(tail, w2);
        assert Select(rows, w2) == (if Holds(w2, x) then [x] else []) + Select(rows[1..], w2);
      } else {
        assert !Holds(w2, x);
        assert Select(rows, w1) == tail;
        assert Select(rows, w2) == Select(rows[1..], w2);
      }
    }
  }

  /** A condition that no row of the table meets selects nothing. */
  lemma {:induction false} SelectNone(rows: seq<Row>, w: Where)
    requires forall x :: x in rows ==> !Holds(w, x)
    ensures Select(rows, w) == []
  {
    if rows != [] {
      assert rows[0] in rows;
      assert forall x :: x in rows[1..] ==> x in rows;
      SelectNone(rows[1..], w);
    }
  }

  /** A condition that every row of the table meets selects the whole table. */
  lemma {:induction false} SelectAll(rows: seq<Row>, w: Where)
    requires forall x :: x in rows ==> Holds(w, x)
    ensures Select(rows, w) == rows
  {
    if rows != [] {
      assert rows[0] in rows;
      assert forall x :: x in rows[1..] ==> x in rows;
      SelectAll(rows[1..], w);
      assert rows == [rows[0]] + rows[1..];
    }
  }

  lemma DistinctNamesTail(rows: seq<Row>)
    requires rows != [] && DistinctNames(rows)
    ensures DistinctNames(rows[1..]) && rows[0].name !in NameSet(rows[1..])
  {
    forall x | x in rows[1..] ensures x.name != rows[0].name {
      var k :| 0 <= k < |rows[1..]| && rows[1..][k] == x;
      assert rows[k + 1] == x;
    }
  }

  lemma DistinctRecipientsTail(rows: seq<Row>)
    requires rows != [] && DistinctRecipients(rows)
    ensures DistinctRecipients(rows[1..])
    ensures rows[0].recipient != "" ==> rows[0].recipient !in RecipientSet(rows[1..])
  {
    forall x | x in rows[1..] && rows[0].recipient != "" ensures x.recipient != rows[0].recipient {
      var k :| 0 <= k < |rows[1..]| && rows[1..][k] == x;
      assert rows[k + 1] == x;
    }
  }

  lemma DistinctNamesCons(x: Row, s: seq<Row>)
    requires DistinctNames(s) && x.name !in NameSet(s)
    ensures DistinctNames([x] + s)
  {
    forall i, j | 0 <= i < j < |[x] + s| ensures ([x] + s)[i].name != ([x] + s)[j].name {
      assert ([x] + s)[j] == s[j - 1];
      if i == 0 {
        assert s[j - 1] in s;
      } else {
        assert ([x] + s)[i] == s[i - 1];
      }
    }
  }

  lemma DistinctRecipientsCons(x: Row, s: seq<Row>)
    requires DistinctRecipients(s) && (x.recipient != "" ==> x.recipient !in RecipientSet(s))
    ensures DistinctRecipients([x] + s)
  {
    forall i, j | 0 <= i < j < |[x] + s| && ([x] + s)[i].recipient != ""
      ensures ([x] + s)[i].recipient != ([x] + s)[j].recipient
    {
      assert ([x] + s)[j] == s[j - 1];
      if i == 0 {
        assert s[j - 1] in s;
      } else {
        assert ([x] + s)[i] == s[i - 1];
      }
    }
  }

  lemma DistinctNamesSnoc(s: seq<Row>, x: Row)
    requires DistinctNames(s) && x.name !in NameSet(s)
    ensures DistinctNames(s + [x])
  {
    forall i, j | 0 <= i < j < |s + [x]| ensures (s + [x])[i].name != (s + [x])[j].name {
      assert (s + [x])[i] == s[i];
      if j == |s| {
        assert s[i] in s;
      } else {
        assert (s + [x])[j] == s[j];
      }
    }
  }

  lemma DistinctRecipientsSnoc(s: seq<Row>, x: Row)
    requires DistinctRecipients(s) && x.recipient !in RecipientSet(s)
    ensures DistinctRecipients(s + [x])
  {
    forall i, j | 0 <= i < j < |s + [x]| && (s + [x])[i].recipient != ""
      ensures (s + [x])[i].recipient != (s + [x])[j].recipient
    {
      assert (s + [x])[i] == s[i];
      if j == |s| {
        assert s[i] in s;
      } else {
        assert (s + [x])[j] == s[j];
      }
    }
  }

  /** Removing rows keeps the names distinct. */
  lemma {:induction false} SelectKeepsDistinctNames(rows: seq<Row>, w: Where)
    requires DistinctNames(rows)
    ensures DistinctNames(Select(rows, w))
  {
    if rows != [] {
      DistinctNamesTail(rows);
      SelectKeepsDistinctNames(rows[1..], w);
      if Holds(w, rows[0]) {
        DistinctNamesCons(rows[0], Select(rows[1..], w));
      }
    }
  }

  /** Removing rows keeps the recipients distinct. */
  lemma {:induction false} SelectKeepsDistinctRecipients(rows: seq<Row>, w: Where)
    requires DistinctRecipients(rows)
    ensures DistinctRecipients(Select(rows, w))
  {
    if rows != [] {
      DistinctRecipientsTail(rows);
      SelectKeepsDistinctRecipients(rows[1..], w);
      if Holds(w, rows[0]) {
        DistinctRecipientsCons(rows[0], Select(rows[1..], w));
      }
    }
  }

  /** With one row per name, selecting a name that has a row gives exactly that row. */
  lemma {:induction false} SelectUniqueName(rows: seq<Row>, i: nat)
    requires i < |rows| && DistinctNames(rows)
    ensures Select(rows, NameIs(rows[i].name)) == [rows[i]]
  {
    DistinctNamesTail(rows);
    if i == 0 {
      SelectNone(rows[1..], NameIs(rows[0].name));
    } else {
      assert rows[1..][i - 1] == rows[i];
      SelectUniqueName(rows[1..], i - 1);
    }
  }

  /** An UPDATE of one name leaves the rows of every other name as they were. */
  lemma {:induction false} UpdateKeepsOthers(rows: seq<Row>, giver: string, v: string, n: string)
    requires n != giver
    ensures Select(Update(rows, giver, v), NameIs(n)) == Select(rows, NameIs(n))
  {
    if rows != [] {
      UpdateKeepsOthers(rows[1..], giver, v, n);
      assert Update(rows, giver, v)[1..] == Update(rows[1..], giver, v);
    }
  }

  /** An UPDATE of one name rewrites the recipient of that name's rows and nothing else about them. */
  lemma {:induction false} UpdateOfGiver(rows: seq<Row>, giver: string, v: string)
    ensures Select(Update(rows, giver, v), NameIs(giver)) == Update(Select(rows, NameIs(giver)), giver, v)
  {
    if rows != [] {
      UpdateOfGiver(rows[1..], giver, v);
      assert Update(rows, giver, v)[1..] == Update(rows[1..], giver, v);
      if rows[0].name == giver {
        var s := Select(rows, NameIs(giver));
        assert s == [rows[0]] + Select(rows[1..], NameIs(giver));
        assert s[1..] == Select(rows[1..], NameIs(giver));
      }
    }
  }

  /** A second UPDATE of the same name overwrites the first. */
  lemma UpdateTwice(rows: seq<Row>, giver: string, u: string, v: string)
    ensures Update(Update(rows, giver, u), giver, v) == Update(rows, giver, v)
  {
    var a := Update(Update(rows, giver, u), giver, v);
    var b := Update(rows, giver, v);
    assert |a| == |b|;
    forall i | 0 <= i < |a| ensures a[i] == b[i] {
      assert a[i].name == b[i].name && a[i].recipient == b[i].recipient;
    }
  }

  /** An UPDATE changes no name. */
  lemma UpdateKeepsNameSet(rows: seq<Row>, giver: string, v: string)
    ensures NameSet(Update(rows, giver, v)) == NameSet(rows)
  {
    var r := Update(rows, giver, v);
    forall n | n in NameSet(r) ensures n in NameSet(rows) {
      var x :| x in r && x.name == n;
      var k :| 0 <= k < |r| && r[k] == x;
      assert rows[k] in rows;
    }
    forall n | n in NameSet(rows) ensures n in NameSet(r) {
      var x :| x in rows && x.name == n;
      var k :| 0 <= k < |rows| && rows[k] == x;
      assert r[k] in r;
    }
  }

  /** An UPDATE that writes what the giver's rows already hold changes nothing. */
  lemma UpdateUnchanged(rows: seq<Row>, giver: string, v: string)
    requires forall x :: x in rows && x.name == giver ==> x.recipient == v
    ensures Update(rows, giver, v) == rows
  {
    var r := Update(rows, giver, v);
    forall i | 0 <= i < |rows| ensures r[i] == rows[i] {
      assert rows[i] in rows;
    }
  }
}
