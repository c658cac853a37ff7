/**
 * The customer search box of the client list: an empty query shows every
 * row; any other query keeps, in table order, the rows whose `Usuario`
 * contains the query with case ignored, and never a row whose `Usuario` is
 * missing.
 */
module Search {
  import opened Strings
  import opened Frame

  /** `Usuario.str.contains(query, case=False, na=False)` for one row. */
  predicate Matches(row: Customer, query: string)
  {
    row.usuario.Text? && Contains(Lower(row.usuario.s), Lower(query))
  }

  /** The rows that match, in table order (the boolean-mask selection). */
  function Filter(rows: seq<Customer>, query: string): (r: seq<Customer>)
    ensures |r| <= |rows|
    ensures forall k :: 0 <= k < |r| ==> Matches(r[k], query)
  {
    if rows == [] then []
    else
      var last := rows[|rows| - 1];
      Filter(rows[..|rows| - 1], query) + (if Matches(last, query) then [last] else [])
  }

  /** The positions of the matching rows, in increasing order. */
  function MatchPositions(rows: seq<Customer>, query: string): (ps: seq<int>)
    ensures forall k :: 0 <= k < |ps| ==> 0 <= ps[k] < |rows| && Matches(rows[ps[k]], query)
    ensures forall k, l :: 0 <= k < l < |ps| ==> ps[k] < ps[l]
    ensures forall i :: 0 <= i < |rows| && Matches(rows[i], query) ==> i in ps
  {
    if rows == [] then []
    else
      var n := |rows| - 1;
      var front := rows[..n];
      assert forall i :: 0 <= i < n ==> front[i] == rows[i];
      MatchPositions(front, query) + (if Matches(rows[n], query) then [n] else [])
  }

  /**
   * The selection is exactly the rows at the matching positions: an
   * order-preserving subsequence holding every matching row and nothing else.
   */
  lemma {:induction false} FilterIsSelection(rows: seq<Customer>, query: string)
    ensures |Filter(rows, query)| == |MatchPositions(rows, query)|
    ensures forall k :: 0 <= k < |Filter(rows, query)| ==>
              Filter(rows, query)[k] == rows[MatchPositions(rows, query)[k]]
  {
    if rows != [] {
      var n := |rows| - 1;
      var front := rows[..n];
      FilterIsSelection(front, query);
      assert forall i :: 0 <= i < n ==> front[i] == rows[i];
    }
  }

  /** The rows the client list shows for `busqueda`. */
  function SearchRows(rows: seq<Customer>, query: string): (r: seq<Customer>)
    ensures query == "" ==> r == rows
    ensures query != "" ==> r == Filter(rows, query)
  {
    if query != "" then Filter(rows, query) else rows
  }

  /** A non-empty query never shows a row whose `Usuario` is missing. */
  lemma MissingUserNeverFound(rows: seq<Customer>, query: string, row: Customer)
    requires query != "" && !row.usuario.Text?
    ensures row !in SearchRows(rows, query)
  {
  }

  /**
   * The empty query is not the same as matching the empty string: matching
   * "" would still drop rows whose `Usuario` is missing, while the empty query
   * shows them.
   */
  lemma EmptyQueryKeepsMissingUsers(rows: seq<Customer>, i: int)
    requires 0 <= i < |rows| && !rows[i].usuario.Text?
    ensures rows[i] in SearchRows(rows, "")
    ensures rows[i] !in Filter(rows, "")
  {
  }

  /** Every row whose `Usuario` holds the query, in any letter case, is shown. */
  lemma {:induction false} MatchingRowShown(rows: seq<Customer>, query: string, i: int)
    requires 0 <= i < |rows| && rows[i].usuario.Text?
    requires exists j :: OccursAt(Lower(query), Lower(rows[i].usuario.s), j)
    ensures rows[i] in SearchRows(rows, query)
  {
    ContainsIff(Lower(rows[i].usuario.s), Lower(query));
    var ps := MatchPositions(rows, query);
    var k :| 0 <= k < |ps| && ps[k] == i;
    FilterIsSelection(rows, query);
    if query != "" {
      assert SearchRows(rows, query)[k] == rows[i];
    }
  }

  /**
   * Every row a non-empty query shows has a `Usuario` that holds the query,
   * in some letter case.
   */
  lemma {:induction false} ShownRowMatches(rows: seq<Customer>, query: string, k: int)
    requires query != "" && 0 <= k < |SearchRows(rows, query)|
    ensures var row := SearchRows(rows, query)[k];
            row.usuario.Text? && exists j :: OccursAt(Lower(query), Lower(row.usuario.s), j)
  {
    var row := SearchRows(rows, query)[k];
    ContainsIff(Lower(row.usuario.s), Lower(query));
  }

  /** The example of a case-insensitive search: "ali" finds "alice" and "Alina", not "bob". */
  lemma SearchExample()
    ensures var alice := Customer(1, Text("alice"), Null, Null, Null, Null);
            var alina := Customer(2, Text("Alina"), Null, Null, Null, Null);
            var bob := Customer(3, Text("bob"), Null, Null, Null, Null);
            SearchRows([alice, alina, bob], "ali") == [alice, alina]
  {
    var alice := Customer(1, Text("alice"), Null, Null, Null, Null);
    var alina := Customer(2, Text("Alina"), Null, Null, Null, Null);
    var bob := Customer(3, Text("bob"), Null, Null, Null, Null);
    assert Lower("Alina") == "alina";
    assert Lower("ali") == "ali";
    assert Lower("bob") == "bob";
    assert !Contains("b", "ali") && !Contains("ob", "ali") && !Contains("bob", "ali") by {
      assert !Contains("", "ali");
      assert "bob"[0] != "ali"[0] && "ob"[0] != "ali"[0];
      assert "bob"[1..] == "ob" && "ob"[1..] == "b" && "b"[1..] == "";
    }
    assert Matches(alice, "ali") && Matches(alina, "ali") && !Matches(bob, "ali");
    var rows := [alice, alina, bob];
    assert rows[..2] == [alice, alina] && rows[..2][..1] == [alice] && [alice][..0] == [];
    assert Filter([alice], "ali") == [alice];
    assert Filter([alice, alina], "ali") == [alice, alina];
    assert Filter(rows, "ali") == [alice, alina];
  }
}
