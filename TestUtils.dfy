/** The test doubles and helpers of the vessel-tree tests: a fake logic that
    hands back a preset vessel, a fake markup node holding labelled control
    points in insertion order, and the stable sort used to compare trees. */
module TestUtils {
  import opened Wrappers
  import opened Lexicographic

  // ---------------------------------------------------------------------
  // FakeLogic: the vessel it returns is a settable property.

  class FakeLogic<V> {
    var vessel: V

    /** Starts out returning the vessel given at construction. */
    constructor (returnedVessel: V)
      ensures ReturnedVessel() == returnedVessel
    {
      vessel := returnedVessel;
    }

    /** The `returnedVessel` property getter. */
    function ReturnedVessel(): V
      reads this
    {
      vessel
    }

    /** `setReturnedVessel(vessel)`. */
    method SetReturnedVessel(v: V)
      modifies this
      ensures ReturnedVessel() == v
    {
      vessel := v;
    }

    /** The `returnedVessel` property setter: the same field as
        `SetReturnedVessel`. */
    method AssignReturnedVessel(v: V)
      modifies this
      ensures ReturnedVessel() == v
    {
      vessel := v;
    }
  }

  /** Whichever of the two setters runs last decides what the fake logic
      returns. */
  method LastSetVesselWins<V>(initial: V, first: V, second: V, propertyFirst: bool) returns (returned: V)
    ensures returned == second
  {
    var logic := new FakeLogic(initial);
    if propertyFirst {
      logic.AssignReturnedVessel(first);
      logic.SetReturnedVessel(second);
    } else {
      logic.SetReturnedVessel(first);
      logic.AssignReturnedVessel(second);
    }
    returned := logic.ReturnedVessel();
  }

  // ---------------------------------------------------------------------
  // FakeMarkupNode: an insertion-ordered label -> position dictionary.

  /** The labels of `history` in order of first appearance: the key order
      of an ordered dictionary after assigning to each label in turn. */
  function FirstOccurrences(history: seq<string>): (r: seq<string>)
    ensures |r| <= |history|
    ensures forall i :: 0 <= i < |r| ==> r[i] in history
  {
    if history == [] then []
    else
      var earlier := history[..|history| - 1];
      var name := history[|history| - 1];
      if name in earlier then FirstOccurrences(earlier) else FirstOccurrences(earlier) + [name]
  }

  predicate NoDuplicates(s: seq<string>)
  {
    forall i, j :: 0 <= i < j < |s| ==> s[i] != s[j]
  }

  function Elements(s: seq<string>): set<string>
  {
    set x | x in s
  }

  /** The key order lists every label ever assigned, each exactly once. */
  lemma {:induction false} FirstOccurrencesAreDistinctLabels(history: seq<string>)
    ensures NoDuplicates(FirstOccurrences(history))
    ensures Elements(FirstOccurrences(history)) == Elements(history)
  {
    if history != [] {
      var earlier := history[..|history| - 1];
      FirstOccurrencesAreDistinctLabels(earlier);
      assert history == earlier + [history[|history| - 1]];
      assert Elements(history) == Elements(earlier) + {history[|history| - 1]};
    }
  }

  /** Assigning to a label adds it to the end of the key order unless it is
      already there. */
  lemma FirstOccurrencesAppend(history: seq<string>, name: string)
    ensures FirstOccurrences(history + [name])
         == if name in history then FirstOccurrences(history) else FirstOccurrences(history) + [name]
  {
    assert (history + [name])[..|history|] == history;
  }

  /** Assigning `position` to `name` keeps the key order equal to the labels
      in order of first assignment and the keys equal to the labels. */
  lemma AddKeepsKeyOrder(labels: seq<string>, positions: map<string, seq<real>>, added: seq<string>,
                         name: string, position: seq<real>)
    requires labels == FirstOccurrences(added) && positions.Keys == Elements(labels)
    ensures var labels' := if name in positions then labels else labels + [name];
      && labels' == FirstOccurrences(added + [name])
      && positions[name := position].Keys == Elements(labels')
  {
    assert Elements(labels) == Elements(added) by { FirstOccurrencesAreDistinctLabels(added); }
    FirstOccurrencesAppend(added, name);
    if name in added {
      assert name in Elements(labels);
      assert positions[name := position].Keys == positions.Keys;
    } else {
      ElementsAppend(labels, name);
      assert positions[name := position].Keys == positions.Keys + {name};
    }
  }

  lemma ElementsAppend(s: seq<string>, x: string)
    ensures Elements(s + [x]) == Elements(s) + {x}
  {
    assert forall y :: y in s + [x] <==> y in s || y == x;
  }

  /** A sequence without duplicates has as many elements as its length. */
  lemma {:induction false} DistinctCount(s: seq<string>)
    requires NoDuplicates(s)
    ensures |Elements(s)| == |s|
  {
    if s != [] {
      var init := s[..|s| - 1];
      DistinctCount(init);
      assert s == init + [s[|s| - 1]];
      assert s[|s| - 1] !in init;
      assert Elements(s) == Elements(init) + {s[|s| - 1]};
    }
  }

  /** Python list indexing: a negative index counts from the end. */
  function PyIndex(i: int, n: nat): (k: nat)
    requires -(n as int) <= i < n
    ensures k < n
    ensures i >= 0 ==> k == i
    ensures i < 0 ==> k == n + i
  {
    if i < 0 then n + i else i
  }

  class FakeMarkupNode {
    /** The dictionary's keys, in insertion order. */
    var labels: seq<string>
    /** The position stored under each key. */
    var positions: map<string, seq<real>>
    /** Every label passed to AddNode, in call order. */
    ghost var added: seq<string>

    ghost predicate Valid()
      reads this
    {
      && labels == FirstOccurrences(added)
      && positions.Keys == Elements(labels)
    }

    constructor ()
      ensures Valid()
      ensures added == [] && labels == [] && positions == map[]
    {
      labels := [];
      positions := map[];
      added := [];
    }

    /** `add_node(label, position)`: a new label goes to the end of the key
        order; an existing one keeps its place and gets the new position. */
    method AddNode(name: string, position: seq<real>)
      requires Valid()
      modifies this
      ensures Valid()
      ensures added == old(added) + [name]
      ensures positions == old(positions)[name := position]
      ensures labels == if name in old(positions) then old(labels) else old(labels) + [name]
    {
      AddKeepsKeyOrder(labels, positions, added, name, position);
      if name !in positions {
        labels := labels + [name];
      }
      positions := positions[name := position];
      added := added + [name];
    }

    /** `GetNumberOfControlPoints()`: the number of distinct labels added. */
    method GetNumberOfControlPoints() returns (n: nat)
      requires Valid()
      ensures n == |positions|
      ensures n == |Elements(added)|
    {
      n := |labels|;
      FirstOccurrencesAreDistinctLabels(added);
      DistinctCount(labels);
      assert positions.Keys == Elements(labels);
    }

    /** `GetNthControlPointLabel(i)`: the `i`-th distinct label in order of
        first insertion (negative `i` counting from the end). */
    method GetNthControlPointLabel(i: int) returns (name: string)
      requires Valid()
      requires -|labels| <= i < |labels|
      ensures name in positions
      ensures name == FirstOccurrences(added)[PyIndex(i, |labels|)]
    {
      name := labels[PyIndex(i, |labels|)];
    }

    /** `GetNthControlPointPosition(i, out)`: copies the first `out.Length`
        components of the `i`-th position into `out`, nothing else. */
    method GetNthControlPointPosition(i: int, out: array<real>)
      requires Valid()
      requires -|labels| <= i < |labels|
      requires out.Length <= |positions[labels[PyIndex(i, |labels|)]]|
      modifies out
      ensures out[..] == positions[labels[PyIndex(i, |labels|)]][..out.Length]
      ensures unchanged(this)
    {
      var position := positions[labels[PyIndex(i, |labels|)]];
      for k := 0 to out.Length
        invariant forall j :: 0 <= j < k ==> out[j] == position[j]
      {
        out[k] := position[k];
      }
    }
  }

  // ---------------------------------------------------------------------
  // treeSort: rows of optional strings sorted by a key that reads None as "".

  type Cell = Option<string>
  type Row = seq<Cell>

  /** `removeNone(row)`: each None becomes "", every string is kept. */
  function RemoveNone(row: Row): (key: seq<string>)
    ensures |key| == |row|
    ensures forall i :: 0 <= i < |row| ==> (row[i] == None && key[i] == "") || row[i] == Some(key[i])
  {
    seq(|row|, i requires 0 <= i < |row| => if row[i].Some? then row[i].value else "")
  }

  /** Python's `sorted` compares keys with `<` only: a row may follow
      another unless its key is strictly smaller. */
  predicate RowLess(r: Row, s: Row)
  {
    StrListLess(RemoveNone(r), RemoveNone(s))
  }

  predicate SortedByKey(rows: seq<Row>)
  {
    forall i, j :: 0 <= i < j < |rows| ==> !RowLess(rows[j], rows[i])
  }

  /** The rows whose key is `key`, in their order. */
  function WithKey(rows: seq<Row>, key: seq<string>): seq<Row>
  {
    if rows == [] then []
    else (if RemoveNone(rows[0]) == key then [rows[0]] else []) + WithKey(rows[1..], key)
  }

  /** Rows with equal keys appear in `output` in the order they had in
      `input`. */
  ghost predicate Stable(input: seq<Row>, output: seq<Row>)
  {
    forall key :: WithKey(output, key) == WithKey(input, key)
  }

  /** Inserts `row` into sorted rows after every row whose key is not
      larger. */
  function Insert(rows: seq<Row>, row: Row): (r: seq<Row>)
    ensures multiset(r) == multiset(rows) + multiset{row}
  {
    if rows == [] then [row]
    else if RowLess(row, rows[0]) then [row] + rows
    else
      assert rows == [rows[0]] + rows[1..];
      [rows[0]] + Insert(rows[1..], row)
  }

  /** `treeSort(tree)`: a new list, the rows of `tree` stably sorted by
      their `removeNone` key. */
  function TreeSort(tree: seq<Row>): (r: seq<Row>)
    ensures multiset(r) == multiset(tree)
  {
    if tree == [] then []
    else
      assert tree == tree[..|tree| - 1] + [tree[|tree| - 1]];
      Insert(TreeSort(tree[..|tree| - 1]), tree[|tree| - 1])
  }

  // The row order inherits irreflexivity, transitivity and totality from
  // Python's `<` on lists of strings.

  lemma RowLessIrreflexive(r: Row)
    ensures !RowLess(r, r)
  {
    StrLessIsStrictTotalOrder();
    LexIrreflexive(RemoveNone(r), StrLess);
  }

  lemma RowLessTransitive(r: Row, s: Row, t: Row)
    ensures RowLess(r, s) && RowLess(s, t) ==> RowLess(r, t)
  {
    if RowLess(r, s) && RowLess(s, t) {
      StrLessIsStrictTotalOrder();
      LexTransitive(RemoveNone(r), RemoveNone(s), RemoveNone(t), StrLess);
    }
  }

  lemma RowLessTotal(r: Row, s: Row)
    ensures RemoveNone(r) == RemoveNone(s) || RowLess(r, s) || RowLess(s, r)
  {
    if RemoveNone(r) != RemoveNone(s) {
      StrLessIsStrictTotalOrder();
      LexTotal(RemoveNone(r), RemoveNone(s), StrLess);
    }
  }

  lemma {:induction false} InsertKeepsSorted(rows: seq<Row>, row: Row)
    requires SortedByKey(rows)
    ensures SortedByKey(Insert(rows, row))
  {
    if rows == [] {
    } else if RowLess(row, rows[0]) {
      InsertFrontKeepsSorted(rows, row);
    } else {
      SortedTail(rows);
      InsertKeepsSorted(rows[1..], row);
      InsertLaterKeepsSorted(rows, row);
    }
  }

  /** A row below the first of sorted rows is below none of them. */
  lemma InsertFrontKeepsSorted(rows: seq<Row>, row: Row)
    requires SortedByKey(rows) && rows != [] && RowLess(row, rows[0])
    ensures SortedByKey(Insert(rows, row))
  {
    InsertUnfolds(rows, row);
    forall x | x in rows ensures !RowLess(x, row) {
      var k :| 0 <= k < |rows| && rows[k] == x;
      RowLessIrreflexive(rows[0]);
      RowLessTransitive(x, row, rows[0]);
      assert !RowLess(rows[k], rows[0]);
    }
    ConsSorted(row, rows);
  }

  /** The step case: the first row stays in front, since neither the
      inserted row nor any later row is below it. */
  lemma InsertLaterKeepsSorted(rows: seq<Row>, row: Row)
    requires SortedByKey(rows) && rows != [] && !RowLess(row, rows[0])
    requires SortedByKey(Insert(rows[1..], row))
    ensures SortedByKey(Insert(rows, row))
  {
    InsertUnfolds(rows, row);
    InsertedNotBelowHead(rows, row);
    ConsSorted(rows[0], Insert(rows[1..], row));
  }

  lemma InsertedNotBelowHead(rows: seq<Row>, row: Row)
    requires SortedByKey(rows) && rows != [] && !RowLess(row, rows[0])
    ensures forall x :: x in Insert(rows[1..], row) ==> !RowLess(x, rows[0])
  {
    forall x | x in Insert(rows[1..], row) ensures !RowLess(x, rows[0]) {
      assert x in multiset(Insert(rows[1..], row));
      if x != row {
        assert x in multiset(rows[1..]);
        var k :| 0 <= k < |rows[1..]| && rows[1..][k] == x;
        assert rows[k + 1] == x;
      }
    }
  }

  /** A row that no row of a sorted list is below can go in front of it. */
  lemma ConsSorted(first: Row, rest: seq<Row>)
    requires SortedByKey(rest)
    requires forall x :: x in rest ==> !RowLess(x, first)
    ensures SortedByKey([first] + rest)
  {
    var r := [first] + rest;
    forall i, j | 0 <= i < j < |r| ensures !RowLess(r[j], r[i]) {
      assert r[j] == rest[j - 1];
      if i > 0 {
        assert r[i] == rest[i - 1];
      }
    }
  }

  /** One step of `Insert` on a non-empty list. */
  lemma InsertUnfolds(rows: seq<Row>, row: Row)
    requires rows != []
    ensures Insert(rows, row)
         == if RowLess(row, rows[0]) then [row] + rows else [rows[0]] + Insert(rows[1..], row)
  {
  }

  lemma {:induction false} WithKeyAppend(a: seq<Row>, b: seq<Row>, key: seq<string>)
    ensures WithKey(a + b, key) == WithKey(a, key) + WithKey(b, key)
  {
    if a == [] {
      assert a + b == b;
    } else {
      var rest := a[1..];
      var head := if RemoveNone(a[0]) == key then [a[0]] else [];
      assert a == [a[0]] + rest;
      assert a + b == [a[0]] + (rest + b);
      WithKeyCons(a[0], rest + b, key);
      WithKeyCons(a[0], rest, key);
      WithKeyAppend(rest, b, key);
      ConcatAssociative(head, WithKey(rest, key), WithKey(b, key));
    }
  }

  lemma {:induction false} WithKeyAbsent(rows: seq<Row>, key: seq<string>)
    requires forall i :: 0 <= i < |rows| ==> RemoveNone(rows[i]) != key
    ensures WithKey(rows, key) == []
  {
    if rows != [] {
      WithKeyAbsent(rows[1..], key);
    }
  }

  lemma {:induction false} InsertWithKey(rows: seq<Row>, row: Row, key: seq<string>)
    requires SortedByKey(rows)
    ensures WithKey(Insert(rows, row), key)
         == WithKey(rows, key) + (if RemoveNone(row) == key then [row] else [])
  {
    if rows == [] {
      WithKeyCons(row, [], key);
    } else if RowLess(row, rows[0]) {
      InsertFrontWithKey(rows, row, key);
    } else {
      assert rows == [rows[0]] + rows[1..];
      SortedTail(rows);
      InsertWithKey(rows[1..], row, key);
      InsertLaterWithKey(rows[0], rows[1..], row, key);
    }
  }

  /** A row that goes in front of sorted rows starts its own key group. */
  lemma InsertFrontWithKey(rows: seq<Row>, row: Row, key: seq<string>)
    requires SortedByKey(rows) && rows != [] && RowLess(row, rows[0])
    ensures WithKey(Insert(rows, row), key)
         == WithKey(rows, key) + (if RemoveNone(row) == key then [row] else [])
  {
    assert Insert(rows, row) == [row] + rows;
    WithKeyCons(row, rows, key);
    if RemoveNone(row) == key {
      KeyBelowSortedIsAbsent(rows, row);
    }
  }

  /** The step case: inserting behind the first row keeps that row in front
      of the key group the insertion into the rest produced. */
  lemma InsertLaterWithKey(first: Row, rest: seq<Row>, row: Row, key: seq<string>)
    requires !RowLess(row, first)
    requires WithKey(Insert(rest, row), key)
          == WithKey(rest, key) + (if RemoveNone(row) == key then [row] else [])
    ensures WithKey(Insert([first] + rest, row), key)
         == WithKey([first] + rest, key) + (if RemoveNone(row) == key then [row] else [])
  {
    var head := if RemoveNone(first) == key then [first] else [];
    var extra := if RemoveNone(row) == key then [row] else [];
    calc {
      WithKey(Insert([first] + rest, row), key);
      { InsertUnfolds([first] + rest, row); assert ([first] + rest)[1..] == rest; }
      WithKey([first] + Insert(rest, row), key);
      { WithKeyCons(first, Insert(rest, row), key); }
      head + WithKey(Insert(rest, row), key);
      head + (WithKey(rest, key) + extra);
      { ConcatAssociative(head, WithKey(rest, key), extra); }
      (head + WithKey(rest, key)) + extra;
      { WithKeyCons(first, rest, key); }
      WithKey([first] + rest, key) + extra;
    }
  }

  lemma ConcatAssociative<T>(a: seq<T>, b: seq<T>, c: seq<T>)
    ensures a + (b + c) == (a + b) + c
  {
  }

  lemma WithKeyCons(first: Row, rest: seq<Row>, key: seq<string>)
    ensures WithKey([first] + rest, key) == (if RemoveNone(first) == key then [first] else []) + WithKey(rest, key)
  {
    var s := [first] + rest;
    assert s[0] == first && s[1..] == rest;
  }

  lemma SortedTail(rows: seq<Row>)
    requires SortedByKey(rows) && rows != []
    ensures SortedByKey(rows[1..])
  {
    forall i, j | 0 <= i < j < |rows| - 1 ensures !RowLess(rows[1..][j], rows[1..][i]) {
      assert rows[1..][j] == rows[j + 1] && rows[1..][i] == rows[i + 1];
    }
  }

  /** A row whose key is below the first of sorted rows shares its key with
      none of them. */
  lemma KeyBelowSortedIsAbsent(rows: seq<Row>, row: Row)
    requires SortedByKey(rows) && rows != [] && RowLess(row, rows[0])
    ensures WithKey(rows, RemoveNone(row)) == []
  {
    forall i | 0 <= i < |rows| ensures RemoveNone(rows[i]) != RemoveNone(row) {
      RowLessIrreflexive(rows[0]);
      if i > 0 {
        assert !RowLess(rows[i], rows[0]);
      }
    }
    WithKeyAbsent(rows, RemoveNone(row));
  }

  /** treeSort orders the rows by key. */
  lemma {:induction false} TreeSortIsSorted(tree: seq<Row>)
    ensures SortedByKey(TreeSort(tree))
  {
    if tree != [] {
      TreeSortIsSorted(tree[..|tree| - 1]);
      InsertKeepsSorted(TreeSort(tree[..|tree| - 1]), tree[|tree| - 1]);
    }
  }

  /** treeSort keeps rows with equal keys in their input order. */
  lemma {:induction false} TreeSortIsStable(tree: seq<Row>)
    ensures Stable(tree, TreeSort(tree))
  {
    if tree != [] {
      var init, last := tree[..|tree| - 1], tree[|tree| - 1];
      assert tree == init + [last];
      TreeSortIsStable(init);
      TreeSortIsSorted(init);
      assert TreeSort(tree) == Insert(TreeSort(init), last);
      forall key ensures WithKey(TreeSort(tree), key) == WithKey(tree, key) {
        InsertLastKeepsGroup(TreeSort(init), init, last, key);
      }
    }
  }

  /** If the sorted rows have the key group of `init`, inserting `last`
      gives the key group of `init + [last]`. */
  lemma InsertLastKeepsGroup(sorted: seq<Row>, init: seq<Row>, last: Row, key: seq<string>)
    requires SortedByKey(sorted) && WithKey(sorted, key) == WithKey(init, key)
    ensures WithKey(Insert(sorted, last), key) == WithKey(init + [last], key)
  {
    InsertWithKey(sorted, last, key);
    WithKeyCons(last, [], key);
    assert [last] + [] == [last];
    WithKeyAppend(init, [last], key);
  }

  /** Sorted and stable pin the result down: any arrangement of the input
      that is sorted by key and keeps equal keys in input order is exactly
      what treeSort returns. */
  lemma SortedAndStableIsTreeSort(tree: seq<Row>, output: seq<Row>)
    requires SortedByKey(output) && Stable(tree, output)
    ensures output == TreeSort(tree)
  {
    TreeSortIsSorted(tree);
    TreeSortIsStable(tree);
    SameKeyGroupsAreEqual(output, TreeSort(tree));
  }

  /** Two sorted row lists that agree, key by key, on the rows with that
      key are equal. */
  lemma {:induction false} SameKeyGroupsAreEqual(rows1: seq<Row>, rows2: seq<Row>)
    requires SortedByKey(rows1) && SortedByKey(rows2)
    requires forall key :: WithKey(rows1, key) == WithKey(rows2, key)
    ensures rows1 == rows2
    decreases |rows1|
  {
    if rows1 == [] || rows2 == [] {
      // A row on one side only would have its key group on one side only.
      if rows1 != [] {
        FirstRowHasGroup(rows1);
      } else if rows2 != [] {
        FirstRowHasGroup(rows2);
      }
    } else {
      SortedHeadsShareKey(rows1, rows2);
      TailGroupsAgree(rows1, rows2);
      SortedTail(rows1);
      SortedTail(rows2);
      SameKeyGroupsAreEqual(rows1[1..], rows2[1..]);
      assert rows1 == [rows1[0]] + rows1[1..];
      assert rows2 == [rows2[0]] + rows2[1..];
    }
  }

  /** The first rows of two sorted lists with the same key groups have the
      same key: the smallest one. */
  lemma SortedHeadsShareKey(rows1: seq<Row>, rows2: seq<Row>)
    requires SortedByKey(rows1) && SortedByKey(rows2) && rows1 != [] && rows2 != []
    requires forall key :: WithKey(rows1, key) == WithKey(rows2, key)
    ensures RemoveNone(rows1[0]) == RemoveNone(rows2[0])
  {
    var key1, key2 := RemoveNone(rows1[0]), RemoveNone(rows2[0]);
    FirstRowHasGroup(rows1);
    FirstRowHasGroup(rows2);
    assert WithKey(rows2, key1) == WithKey(rows1, key1);
    assert WithKey(rows1, key2) == WithKey(rows2, key2);
    WithKeyOccurs(rows2, key1);
    WithKeyOccurs(rows1, key2);
    var j2 :| 0 <= j2 < |rows2| && RemoveNone(rows2[j2]) == key1;
    var j1 :| 0 <= j1 < |rows1| && RemoveNone(rows1[j1]) == key2;
    RowLessIrreflexive(rows1[0]);
    RowLessIrreflexive(rows2[0]);
    assert !RowLess(rows2[j2], rows2[0]);
    assert !RowLess(rows1[j1], rows1[0]);
    RowLessTotal(rows1[0], rows2[0]);
  }

  /** Once the first rows share a key, they are the same row, and the
      remaining rows have the same key groups. */
  lemma TailGroupsAgree(rows1: seq<Row>, rows2: seq<Row>)
    requires rows1 != [] && rows2 != [] && RemoveNone(rows1[0]) == RemoveNone(rows2[0])
    requires forall key :: WithKey(rows1, key) == WithKey(rows2, key)
    ensures rows1[0] == rows2[0]
    ensures forall key :: WithKey(rows1[1..], key) == WithKey(rows2[1..], key)
  {
    var key1 := RemoveNone(rows1[0]);
    assert WithKey(rows1, key1) == [rows1[0]] + WithKey(rows1[1..], key1);
    assert WithKey(rows2, key1) == [rows2[0]] + WithKey(rows2[1..], key1);
    var group := WithKey(rows1, key1);
    assert group == WithKey(rows2, key1);
    assert rows1[0] == group[0] == rows2[0];
    assert WithKey(rows1[1..], key1) == group[1..] == WithKey(rows2[1..], key1);
    forall key ensures WithKey(rows1[1..], key) == WithKey(rows2[1..], key) {
      if key != key1 {
        assert WithKey(rows1, key) == WithKey(rows1[1..], key);
        assert WithKey(rows2, key) == WithKey(rows2[1..], key);
      }
    }
  }

  lemma FirstRowHasGroup(rows: seq<Row>)
    requires rows != []
    ensures WithKey(rows, RemoveNone(rows[0])) != []
  {
  }

  lemma {:induction false} WithKeyOccurs(rows: seq<Row>, key: seq<string>)
    requires WithKey(rows, key) != []
    ensures exists j :: 0 <= j < |rows| && RemoveNone(rows[j]) == key
  {
    if RemoveNone(rows[0]) != key {
      WithKeyOccurs(rows[1..], key);
      var j :| 0 <= j < |rows[1..]| && RemoveNone(rows[1..][j]) == key;
      assert rows[j + 1] == rows[1..][j];
    }
  }

  lemma TreeSortTwo(first: Row, second: Row)
    ensures TreeSort([first, second]) == if RowLess(second, first) then [second, first] else [first, second]
  {
    assert [first, second][..1] == [first];
    assert [first][..0] == [];
    assert TreeSort([first]) == [first];
    assert TreeSort([first, second]) == Insert([first], second);
  }

  /** None reads as "": a row with None and a row with "" tie and keep their
      input order, in either order. */
  lemma NoneTiesWithEmptyStringCase()
    ensures TreeSort([[Some("")], [None]]) == [[Some("")], [None]]
    ensures TreeSort([[None], [Some("")]]) == [[None], [Some("")]]
  {
    var empty, none: Row := [Some("")], [None];
    assert RemoveNone(empty) == [""] == RemoveNone(none);
    StrListLessIsStrictTotalOrder();
    assert !StrListLess([""], [""]);
    TreeSortTwo(empty, none);
    TreeSortTwo(none, empty);
  }

  /** A None cell sorts before any non-empty string. */
  lemma NoneSortsFirstCase()
    ensures TreeSort([[Some("b")], [None], [Some("a")]]) == [[None], [Some("a")], [Some("b")]]
  {
    var b, none, a: Row := [Some("b")], [None], [Some("a")];
    NoneSortsFirstKeys();
    TreeSortTwo(b, none);
    assert [b, none, a][..2] == [b, none];
    assert TreeSort([b, none, a]) == Insert([none, b], a);
    assert Insert([b], a) == [a, b];
    assert Insert([none, b], a) == [none] + Insert([b], a);
  }

  lemma NoneSortsFirstKeys()
    ensures RowLess([None], [Some("b")]) && !RowLess([Some("a")], [None]) && RowLess([Some("a")], [Some("b")])
  {
    var b, none, a: Row := [Some("b")], [None], [Some("a")];
    assert RemoveNone(b) == ["b"] && RemoveNone(none) == [""] && RemoveNone(a) == ["a"];
    assert StrLess("", "b") && !StrLess("a", "") && StrLess("a", "b");
  }
}
