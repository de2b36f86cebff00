/**
 * The setup script: it drops any `recipients` table, creates it anew and
 * inserts one unassigned row per configured name, in configuration order.
 */
module DbSetup {
  import opened Recipients

  /** The table holds exactly one unassigned row per entry of `names`, in order, duplicates kept. */
  predicate FreshTable(rows: seq<Row>, names: seq<string>) {
    && |rows| == |names|
    && forall i :: 0 <= i < |rows| ==> rows[i] == Row(names[i], "")
  }

  predicate NoDuplicates(names: seq<string>) {
    forall i, j :: 0 <= i < j < |names| ==> names[i] != names[j]
  }

  /** Drop and recreate the table, then insert the rows one at a time. */
  method Setup(db: Database, names: seq<string>)
    modifies db
    ensures db.tableExists && FreshTable(db.rows, names)
  {
    // drop the table if there is one
    db.tableExists, db.rows := false, [];
    // create the table, empty
    db.tableExists := true;
    for i := 0 to |names|
      invariant db.tableExists
      invariant FreshTable(db.rows, names[..i])
    {
      // insert the name with an empty recipient
      db.rows := db.rows + [Row(names[i], "")];
    }
    assert names[..|names|] == names;
  }

  /**
   * A fresh table has no assignment at all, so the recipient invariants hold
   * for any configuration; its names are distinct exactly when the
   * configured names are. Every configured name can be assigned.
   */
  lemma FreshTableIsMatching(rows: seq<Row>, names: seq<string>)
    requires FreshTable(rows, names)
    ensures NoSelfAssignment(rows) && DistinctRecipients(rows) && RecipientsAreParticipants(rows)
    ensures DistinctNames(rows) <==> NoDuplicates(names)
    ensures NoDuplicates(names) ==> ValidMatching(rows)
    ensures Select(rows, RecipientIs("")) == rows
    ensures NameSet(rows) == set n | n in names
    ensures forall n :: n in names ==> HasUnassignedRow(rows, n)
  {
    forall x | x in rows ensures x.recipient == "" {
      var k :| 0 <= k < |rows| && rows[k] == x;
    }
    SelectAll(rows, RecipientIs(""));
    forall n | n in names ensures HasUnassignedRow(rows, n) && n in NameSet(rows) {
      var k :| 0 <= k < |names| && names[k] == n;
      assert rows[k] in rows;
    }
    forall n | n in NameSet(rows) ensures n in names {
      var x :| x in rows && x.name == n;
      var k :| 0 <= k < |rows| && rows[k] == x;
    }
  }
}
