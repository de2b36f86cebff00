/**
 * The web application's assignment handlers: `name` gives a participant a
 * recipient, `reroll` replaces it; startup creates the table when it is
 * missing. A recipient is drawn from the names nobody has as a recipient
 * yet, the giver excepted; the random draw is a nondeterministic choice.
 */
module SecretSanta {
  import opened Text
  import opened Recipients
  import opened DbSetup

  /** The fields of `config.json` the handlers read. */
  datatype Config = Config(names: seq<string>, rerollEnabled: bool)

  /** The error pages the handlers render. */
  datatype Error =
    | UnknownName            // the lowered name is not in the configuration
    | AlreadyAssigned        // the giver has no unassigned row
    | NoAvailableRecipients  // nobody is left to draw
    | RerollDisabled         // rerolling is switched off

  datatype Result<T> = Ok(value: T) | Err(error: Error)

  // ---------------------------------------------------------------------
  // Assign: DELETE the giver's rows, INSERT (giver, chosen)

  /** An assignment drawn from the available names keeps the matching valid. */
  lemma AssignKeepsMatching(rows: seq<Row>, giver: string, c: string)
    requires ValidMatching(rows)
    requires c in Available(rows, giver)
    ensures ValidMatching(Replace(rows, giver, c))
  {
    var kept := Delete(rows, giver);
    var x := Row(giver, c);
    SelectKeepsDistinctNames(rows, NameIsNot(giver));
    SelectKeepsDistinctRecipients(rows, NameIsNot(giver));
    assert giver !in NameSet(kept);
    DistinctNamesSnoc(kept, x);
    assert RecipientSet(kept) <= RecipientSet(rows);
    DistinctRecipientsSnoc(kept, x);
    var after := kept + [x];
    assert NameSet(rows) <= NameSet(after) by {
      forall n | n in NameSet(rows) ensures n in NameSet(after) {
        var y :| y in rows && y.name == n;
        if n != giver {
          assert y in kept;
        } else {
          assert x in after;
        }
      }
    }
  }

  /** An assignment rewrites the giver's rows to the single new one; every other name's rows stay as they were. */
  lemma AssignChangesOnlyGiver(rows: seq<Row>, giver: string, c: string)
    ensures forall n :: n != giver ==> Select(Replace(rows, giver, c), NameIs(n)) == Select(rows, NameIs(n))
    ensures Select(Replace(rows, giver, c), NameIs(giver)) == [Row(giver, c)]
  {
    var kept := Delete(rows, giver);
    forall n | n != giver ensures Select(Replace(rows, giver, c), NameIs(n)) == Select(rows, NameIs(n)) {
      SelectConcat(kept, [Row(giver, c)], NameIs(n));
      SelectAfterWeaker(rows, NameIsNot(giver), NameIs(n));
      assert Select([Row(giver, c)], NameIs(n)) == [];
    }
    SelectConcat(kept, [Row(giver, c)], NameIs(giver));
    SelectNone(kept, NameIs(giver));
    assert [Row(giver, c)][1..] == [];
  }

  /** A giver who has just been assigned is turned away as "already assigned" by the next call. */
  lemma AssignThenAlreadyAssigned(rows: seq<Row>, giver: string, c: string)
    requires HasUnassignedRow(rows, giver)
    requires c in Available(rows, giver)
    ensures c != "" && !HasUnassignedRow(Replace(rows, giver, c), giver)
  {
    assert "" in RecipientSet(rows);
  }

  /** A fresh table of three, the table after "ann" draws "bob", and after "bob" then draws "ann". */
  const Fresh3: seq<Row> := [Row("ann", ""), Row("bob", ""), Row("cat", "")]
  const AnnDrawn: seq<Row> := [Row("bob", ""), Row("cat", ""), Row("ann", "bob")]
  const BobDrawn: seq<Row> := [Row("cat", ""), Row("ann", "bob"), Row("bob", "ann")]

  /** Deleting the giver of the first of three rows with distinct names leaves the other two. */
  lemma DeleteThree(a: Row, b: Row, c: Row, giver: string)
    requires a.name == giver && b.name != giver && c.name != giver
    ensures Delete([a, b, c], giver) == [b, c]
  {
    var w := NameIsNot(giver);
    SelectCons(c, [], w);
    assert [c] == [c] + [];
    SelectCons(b, [c], w);
    assert [b, c] == [b] + [c];
    SelectCons(a, [b, c], w);
    assert [a, b, c] == [a] + [b, c];
  }

  lemma AnnDraws()
    ensures FreshTable(Fresh3, ["ann", "bob", "cat"])
    ensures HasUnassignedRow(Fresh3, "ann") && "bob" in Available(Fresh3, "ann")
  {
    var t := Fresh3;
    assert NameSet(t) == {"ann", "bob", "cat"};
    assert RecipientSet(t) == {""};
  }

  lemma AnnWritten()
    ensures Replace(Fresh3, "ann", "bob") == AnnDrawn
  {
    DeleteThree(Row("ann", ""), Row("bob", ""), Row("cat", ""), "ann");
  }

  lemma BobDraws()
    ensures HasUnassignedRow(AnnDrawn, "bob") && "ann" in Available(AnnDrawn, "bob")
  {
    var t := AnnDrawn;
    assert NameSet(t) == {"ann", "bob", "cat"};
    assert RecipientSet(t) == {"", "bob"};
  }

  lemma BobWritten()
    ensures Replace(AnnDrawn, "bob", "ann") == BobDrawn
  {
    DeleteThree(Row("bob", ""), Row("cat", ""), Row("ann", "bob"), "bob");
  }

  lemma CatCornered()
    ensures ValidMatching(BobDrawn) && HasUnassignedRow(BobDrawn, "cat") && Available(BobDrawn, "cat") == []
  {
    var t := BobDrawn;
    assert NameSet(t) == {"ann", "bob", "cat"};
    assert RecipientSet(t) == {"", "bob", "ann"};
  }

  /**
   * The "no available recipients" page is reachable through the `name`
   * handler alone: from a fresh table of three, "ann" draws "bob" and "bob"
   * draws "ann", each an available name, and then "cat" passes the "already
   * assigned" check but has nobody left to draw.
   */
  lemma NoRecipientsReachable()
    ensures var t0 := [Row("ann", ""), Row("bob", ""), Row("cat", "")];
      var t1 := Replace(t0, "ann", "bob");
      var t2 := Replace(t1, "bob", "ann");
      && FreshTable(t0, ["ann", "bob", "cat"])
      && HasUnassignedRow(t0, "ann") && "bob" in Available(t0, "ann")
      && HasUnassignedRow(t1, "bob") && "ann" in Available(t1, "bob")
      && ValidMatching(t2) && HasUnassignedRow(t2, "cat") && Available(t2, "cat") == []
  {
    AnnDraws();
    AnnWritten();
    BobDraws();
    BobWritten();
    CatCornered();
  }

  /**
   * Once every row has a recipient, the recipients are exactly the
   * participants: each participant receives from exactly one giver, and
   * nobody from themselves.
   */
  lemma CompleteMatchingIsDerangement(rows: seq<Row>)
    requires ValidMatching(rows)
    requires forall x :: x in rows ==> x.recipient != ""
    ensures RecipientSet(rows) == NameSet(rows)
  {
    DistinctNamesCount(rows);
    DistinctRecipientsCount(rows);
    var a, b := RecipientSet(rows), NameSet(rows);
    assert a <= b by {
      forall c | c in a ensures c in b {
        var x :| x in rows && x.recipient == c;
      }
    }
    SubsetOfSameSize(a, b);
  }

  lemma SubsetOfSameSize(a: set<string>, b: set<string>)
    requires a <= b && |a| == |b|
    ensures a == b
  {
    var d := b - a;
    assert b == a + d && a * d == {};
    assert |d| == 0;
  }

  lemma {:induction false} DistinctNamesCount(rows: seq<Row>)
    requires DistinctNames(rows)
    ensures |NameSet(rows)| == |rows|
  {
    if rows != [] {
      DistinctNamesTail(rows);
      DistinctNamesCount(rows[1..]);
      assert rows == [rows[0]] + rows[1..];
      assert NameSet(rows) == {rows[0].name} + NameSet(rows[1..]);
    }
  }

  lemma {:induction false} DistinctRecipientsCount(rows: seq<Row>)
    requires DistinctRecipients(rows)
    requires forall x :: x in rows ==> x.recipient != ""
    ensures |RecipientSet(rows)| == |rows|
  {
    if rows != [] {
      DistinctRecipientsTail(rows);
      assert rows[0] in rows;
      assert forall x :: x in rows[1..] ==> x in rows;
      DistinctRecipientsCount(rows[1..]);
      assert rows == [rows[0]] + rows[1..];
      assert RecipientSet(rows) == {rows[0].recipient} + RecipientSet(rows[1..]);
    }
  }

  // ---------------------------------------------------------------------
  // Reroll: UPDATE the giver's recipient to '', draw, UPDATE to the new one

  /** A reroll drawn from the names available after clearing keeps the matching valid. */
  lemma RerollKeepsMatching(rows: seq<Row>, giver: string, c: string)
    requires ValidMatching(rows)
    requires c in Available(Update(rows, giver, ""), giver)
    ensures ValidMatching(Update(rows, giver, c))
  {
    UpdateKeepsNameSet(rows, giver, "");
    UpdateKeepsNameSet(rows, giver, c);
    RerollKeepsNoSelf(rows, giver, c);
    RerollKeepsDistinctRecipients(rows, giver, c);
  }

  lemma RerollKeepsNoSelf(rows: seq<Row>, giver: string, c: string)
    requires NoSelfAssignment(rows) && RecipientsAreParticipants(rows)
    requires c != giver && c in NameSet(rows)
    ensures NoSelfAssignment(Update(rows, giver, c)) && RecipientsAreParticipants(Update(rows, giver, c))
  {
    var after := Update(rows, giver, c);
    UpdateKeepsNameSet(rows, giver, c);
    forall x | x in after && x.recipient != "" ensures x.recipient != x.name && x.recipient in NameSet(after) {
      var k :| 0 <= k < |after| && after[k] == x;
      assert rows[k] in rows;
    }
  }

  lemma RerollKeepsDistinctRecipients(rows: seq<Row>, giver: string, c: string)
    requires DistinctNames(rows) && DistinctRecipients(rows)
    requires c !in RecipientSet(Update(rows, giver, ""))
    ensures DistinctRecipients(Update(rows, giver, c))
  {
    var cleared := Update(rows, giver, "");
    var after := Update(rows, giver, c);
    forall i, j | 0 <= i < j < |after| && after[i].recipient != ""
      ensures after[i].recipient != after[j].recipient
    {
      if rows[i].name == giver {
        assert cleared[j] in cleared;
      } else if rows[j].name == giver {
        assert cleared[i] in cleared;
      }
    }
  }

  /** A reroll rewrites only the recipient of the giver's rows; every other name's rows stay as they were. */
  lemma RerollChangesOnlyGiver(rows: seq<Row>, giver: string, c: string)
    ensures forall n :: n != giver ==> Select(Update(rows, giver, c), NameIs(n)) == Select(rows, NameIs(n))
    ensures Select(Update(rows, giver, c), NameIs(giver)) == Update(Select(rows, NameIs(giver)), giver, c)
  {
    forall n | n != giver ensures Select(Update(rows, giver, c), NameIs(n)) == Select(rows, NameIs(n)) {
      UpdateKeepsOthers(rows, giver, c, n);
    }
    UpdateOfGiver(rows, giver, c);
  }

  /**
   * Clearing releases the giver's old recipient, who is then available
   * again; so a giver who had a recipient can always reroll.
   */
  lemma RerollReleasesOldRecipient(rows: seq<Row>, giver: string, previous: string)
    requires ValidMatching(rows)
    requires Row(giver, previous) in rows && previous != ""
    ensures previous in Available(Update(rows, giver, ""), giver)
  {
    var cleared := Update(rows, giver, "");
    UpdateKeepsNameSet(rows, giver, "");
    var i :| 0 <= i < |rows| && rows[i] == Row(giver, previous);
    forall x | x in cleared ensures x.recipient != previous {
      var j :| 0 <= j < |cleared| && cleared[j] == x;
      if rows[j].name != giver {
        assert j != i;
        if i < j {
          assert rows[i].recipient != rows[j].recipient;
        } else {
          assert rows[j] in rows;
        }
      }
    }
  }

  /**
   * On a giver who has no recipient yet, clearing changes nothing, the same
   * names are available as for assign, and the giver ends with the same rows
   * as assign would leave (only the row's position differs).
   */
  lemma RerollOfUnassignedIsAssign(rows: seq<Row>, giver: string, c: string)
    requires DistinctNames(rows)
    requires HasUnassignedRow(rows, giver)
    ensures Update(rows, giver, "") == rows
    ensures Available(Update(rows, giver, ""), giver) == Available(rows, giver)
    ensures forall n :: Select(Update(rows, giver, c), NameIs(n)) == Select(Replace(rows, giver, c), NameIs(n))
  {
    var i :| 0 <= i < |rows| && rows[i] == Row(giver, "");
    forall x | x in rows && x.name == giver ensures x.recipient == "" {
      var j :| 0 <= j < |rows| && rows[j] == x;
      assert i == j;
    }
    UpdateUnchanged(rows, giver, "");
    RerollChangesOnlyGiver(rows, giver, c);
    AssignChangesOnlyGiver(rows, giver, c);
    forall n ensures Select(Update(rows, giver, c), NameIs(n)) == Select(Replace(rows, giver, c), NameIs(n)) {
      if n == giver {
        SelectUniqueName(rows, i);
        var one := [Row(giver, "")];
        assert Select(rows, NameIs(giver)) == one;
        assert Update(one, giver, c) == [Row(giver, c)] by {
          assert Update(one, giver, c)[0] == Row(giver, c);
        }
      }
    }
  }

  // ---------------------------------------------------------------------
  // The application

  class App {
    const config: Config
    const db: Database

    constructor (config: Config, db: Database)
      ensures this.config == config && this.db == db
    {
      this.config := config;
      this.db := db;
    }

    /** At startup the setup script runs only when the table is missing, so existing assignments survive a restart. */
    method Startup()
      modifies db
      ensures db.tableExists
      ensures old(db.tableExists) ==> db.rows == old(db.rows)
      ensures !old(db.tableExists) ==> FreshTable(db.rows, config.names)
    {
      if !db.tableExists {
        Setup(db, config.names);
      }
    }

    /**
     * The `name` handler: assign the giver a recipient. The result is the raw
     * recipient name placed in the redirect URL; the rules page shows it
     * capitalised.
     */
    method Name(firstname: string) returns (res: Result<string>)
      requires db.tableExists
      modifies db`rows
      ensures Lower(firstname) !in config.names ==>
                res == Err(UnknownName) && db.rows == old(db.rows)
      ensures Lower(firstname) in config.names && !HasUnassignedRow(old(db.rows), Lower(firstname)) ==>
                res == Err(AlreadyAssigned) && db.rows == old(db.rows)
      ensures Lower(firstname) in config.names && HasUnassignedRow(old(db.rows), Lower(firstname))
              && Available(old(db.rows), Lower(firstname)) == [] ==>
                res == Err(NoAvailableRecipients) && db.rows == old(db.rows)
      ensures Lower(firstname) in config.names && HasUnassignedRow(old(db.rows), Lower(firstname))
              && Available(old(db.rows), Lower(firstname)) != [] ==>
                && res.Ok?
                && res.value in Available(old(db.rows), Lower(firstname))
                && db.rows == Replace(old(db.rows), Lower(firstname), res.value)
      ensures ValidMatching(old(db.rows)) ==> ValidMatching(db.rows)
    {
      var giver := Lower(firstname);
      if giver !in config.names {
        return Err(UnknownName);
      }
      if !HasUnassignedRow(db.rows, giver) {
        return Err(AlreadyAssigned);
      }
      var available := Available(db.rows, giver);
      if available == [] {
        return Err(NoAvailableRecipients);
      }
      assert available[0] in available;
      var chosen :| chosen in available;
      if ValidMatching(db.rows) {
        AssignKeepsMatching(db.rows, giver, chosen);
      }
      db.rows := Replace(db.rows, giver, chosen);
      return Ok(chosen);
    }

    /**
     * The `reroll` handler: draw a new recipient for the giver and return it
     * capitalised. Clearing and rewriting are committed together; a failed
     * draw rolls the clearing back.
     */
    method Reroll(firstname: string) returns (res: Result<string>, ghost chosen: string)
      requires db.tableExists
      modifies db`rows
      ensures !config.rerollEnabled ==>
                res == Err(RerollDisabled) && db.rows == old(db.rows)
      ensures config.rerollEnabled && Lower(firstname) !in config.names ==>
                res == Err(UnknownName) && db.rows == old(db.rows)
      ensures config.rerollEnabled && Lower(firstname) in config.names
              && Available(Update(old(db.rows), Lower(firstname), ""), Lower(firstname)) == [] ==>
                res == Err(NoAvailableRecipients) && db.rows == old(db.rows)
      ensures config.rerollEnabled && Lower(firstname) in config.names
              && Available(Update(old(db.rows), Lower(firstname), ""), Lower(firstname)) != [] ==>
                && res == Ok(Capitalize(chosen))
                && chosen in Available(Update(old(db.rows), Lower(firstname), ""), Lower(firstname))
                && db.rows == Update(old(db.rows), Lower(firstname), chosen)
      ensures config.rerollEnabled && Lower(firstname) in config.names && ValidMatching(old(db.rows))
              && (exists i :: 0 <= i < |old(db.rows)| && old(db.rows)[i].name == Lower(firstname) && old(db.rows)[i].recipient != "") ==>
                res.Ok?
      ensures ValidMatching(old(db.rows)) ==> ValidMatching(db.rows)
    {
      chosen := "";
      if !config.rerollEnabled {
        return Err(RerollDisabled), chosen;
      }
      var giver := Lower(firstname);
      if giver !in config.names {
        return Err(UnknownName), chosen;
      }
      // clear the giver's recipient: seen by the draw, not yet committed
      var working := Update(db.rows, giver, "");
      var available := Available(working, giver);
      forall i | 0 <= i < |db.rows| && db.rows[i].name == giver && db.rows[i].recipient != "" && ValidMatching(db.rows)
        ensures available != []
      {
        RerollReleasesOldRecipient(db.rows, giver, db.rows[i].recipient);
      }
      if available == [] {
        return Err(NoAvailableRecipients), chosen;
      }
      assert available[0] in available;
      var pick :| pick in available;
      chosen := pick;
      UpdateTwice(db.rows, giver, "", pick);
      if ValidMatching(db.rows) {
        RerollKeepsMatching(db.rows, giver, pick);
      }
      // write the pick as the giver's recipient, then commit
      db.rows := Update(working, giver, pick);
      return Ok(Capitalize(pick)), chosen;
    }
  }
}
