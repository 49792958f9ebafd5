/**
 * Query results whose row order SQL leaves open: a set of ids listed, each
 * once, in an order the database chooses.
 */
module Query {

  /** No id occurs twice. */
  predicate Distinct(s: seq<int>)
  {
    forall i, j :: 0 <= i < j < |s| ==> s[i] != s[j]
  }

  /** A non-empty set has a member to pick. */
  lemma HasMember(s: set<int>)
    requires s != {}
    ensures exists x :: x in s
  {
    if forall x :: x !in s {
      assert false;
    }
  }

  /** Some row of a result set. */
  method Pick(s: set<int>) returns (x: int)
    requires s != {}
    ensures x in s
  {
    HasMember(s);
    x :| x in s;
  }

  /** The rows of a result set, each once, in the order the database returns them. */
  method ListRows(s: set<int>) returns (rows: seq<int>)
    ensures Distinct(rows)
    ensures forall r :: r in rows <==> r in s
  {
    var pending := s;
    rows := [];
    while pending != {}
      invariant pending <= s
      invariant forall r :: r in rows <==> r in s && r !in pending
      invariant Distinct(rows)
      decreases |pending|
    {
      var r := Pick(pending);
      pending := pending - {r};
      rows := rows + [r];
    }
  }
}
