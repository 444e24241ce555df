/**
 * The order in which the task table returns its rows: every stored row,
 * sorted by the position column in ascending order (null positions last,
 * rows with equal positions in no particular order), and what that order
 * means for the tree the build makes of them.
 */
module TaskFetch {
  import opened TaskModel
  import opened TaskStore

  // ---------------------------------------------------------------------
  // Sorting by position
  // ---------------------------------------------------------------------

  /** Ascending order on the position column, a null position sorting after every number. */
  predicate PositionLe(a: Option<int>, b: Option<int>) {
    b.None? || (a.Some? && a.value <= b.value)
  }

  /** Rows in ascending order of position. */
  predicate ByPosition(rows: seq<Row>) {
    forall i, j :: 0 <= i < j < |rows| ==> PositionLe(rows[i].position, rows[j].position)
  }

  /** A fetch of the stored rows: the same rows, each as often, sorted by position. */
  predicate FetchedFrom(fetched: seq<Row>, stored: seq<Row>) {
    multiset(fetched) == multiset(stored) && ByPosition(fetched)
  }

  /** Rows whose positions are all set and strictly increase. */
  predicate Increasing(rows: seq<Row>) {
    forall i, j :: 0 <= i < j < |rows| ==> Earlier(rows[i].position, rows[j].position)
  }

  /** Both positions set, the first strictly smaller. */
  predicate Earlier(a: Option<int>, b: Option<int>) {
    a.Some? && b.Some? && a.value < b.value
  }

  /**
   * Two orderings of the same rows, one by position and one by strictly
   * increasing position, are the same ordering: with no two positions
   * equal, sorting leaves no choice.
   */
  lemma {:induction false} SortedEqual(a: seq<Row>, b: seq<Row>)
    requires multiset(a) == multiset(b) && Increasing(a) && ByPosition(b)
    ensures a == b
    decreases |a|
  {
    assert |a| == |multiset(a)| == |multiset(b)| == |b|;
    if a != [] {
      assert b[0] in multiset(a);
      var k :| 0 <= k < |a| && a[k] == b[0];
      assert a[0] in multiset(b);
      var m :| 0 <= m < |b| && b[m] == a[0];
      assert PositionLe(b[0].position, b[m].position);
      FirstAtMost(a, k);
      assert a[0] == b[0];
      var a', b' := a[1..], b[1..];
      assert multiset(a') == multiset(b') by {
        TailMultiset(a);
        TailMultiset(b);
      }
      assert Increasing(a') && ByPosition(b') by {
        SortedTails(a, b);
      }
      SortedEqual(a', b');
    }
  }

  /** In strictly increasing rows only the first has a position no later than the first's. */
  lemma FirstAtMost(a: seq<Row>, k: int)
    requires Increasing(a) && 0 <= k < |a| && PositionLe(a[k].position, a[0].position)
    ensures k == 0
  {
  }

  /** Both orders survive dropping the first row. */
  lemma SortedTails(a: seq<Row>, b: seq<Row>)
    requires a != [] && b != [] && Increasing(a) && ByPosition(b)
    ensures Increasing(a[1..]) && ByPosition(b[1..])
  {
    var a', b' := a[1..], b[1..];
    forall i, j | 0 <= i < j < |a'|
      ensures Earlier(a'[i].position, a'[j].position)
    {
      assert a'[i] == a[i + 1] && a'[j] == a[j + 1];
    }
    forall i, j | 0 <= i < j < |b'|
      ensures PositionLe(b'[i].position, b'[j].position)
    {
      assert b'[i] == b[i + 1] && b'[j] == b[j + 1];
    }
  }

  /** Dropping the head of a sequence drops one copy of it from the multiset. */
  lemma TailMultiset<T>(s: seq<T>)
    requires s != []
    ensures multiset(s[1..]) == multiset(s) - multiset{s[0]}
  {
    assert s == [s[0]] + s[1..];
  }

  // ---------------------------------------------------------------------
  // Sibling groups
  // ---------------------------------------------------------------------

  /** The rows whose parent id, read the way the build reads it, is `parentId`, in row order. */
  function Siblings(rows: seq<Row>, parentId: Option<string>): seq<Row> {
    if rows == [] then []
    else (if NonEmpty(rows[0].parentId) == parentId then [rows[0]] else []) + Siblings(rows[1..], parentId)
  }

  /** The child filter of the build is the sibling group of the parent, by id. */
  lemma {:induction false} ChildRowsAreSiblings(rows: seq<Row>, id: string)
    ensures ChildRows(rows, id) == RowIds(Siblings(rows, Some(id)))
  {
    if rows != [] {
      ChildRowsAreSiblings(rows[1..], id);
      var r := rows[0];
      var head := if NonEmpty(r.parentId) == Some(id) then [r] else [];
      assert Siblings(rows, Some(id)) == head + Siblings(rows[1..], Some(id));
      RowIdsAppend(head, Siblings(rows[1..], Some(id)));
      assert RowIds(head) == (if Truthy(r.parentId) && r.parentId.value == id then [r.id] else []);
    }
  }

  /** The root filter of the build is the sibling group without a parent, by id. */
  lemma {:induction false} RootRowsAreSiblings(rows: seq<Row>)
    ensures RootRows(rows) == RowIds(Siblings(rows, None))
  {
    if rows != [] {
      RootRowsAreSiblings(rows[1..]);
      var r := rows[0];
      var head := if NonEmpty(r.parentId) == None then [r] else [];
      assert Siblings(rows, None) == head + Siblings(rows[1..], None);
      RowIdsAppend(head, Siblings(rows[1..], None));
      assert RowIds(head) == (if !Truthy(r.parentId) then [r.id] else []);
    }
  }

  lemma RowIdsAppend(a: seq<Row>, b: seq<Row>)
    ensures RowIds(a + b) == RowIds(a) + RowIds(b)
  {
  }

  /** A sibling group holds each row of its parent as often as the rows do, and no other row. */
  lemma {:induction false} SiblingsCount(rows: seq<Row>, parentId: Option<string>)
    ensures forall x ::
      multiset(Siblings(rows, parentId))[x] == (if NonEmpty(x.parentId) == parentId then multiset(rows)[x] else 0)
  {
    if rows != [] {
      SiblingsCount(rows[1..], parentId);
      assert rows == [rows[0]] + rows[1..];
    }
  }

  /** Sorted rows have sorted sibling groups. */
  lemma {:induction false} SiblingsByPosition(rows: seq<Row>, parentId: Option<string>)
    requires ByPosition(rows)
    ensures ByPosition(Siblings(rows, parentId))
  {
    if rows != [] {
      var rest := Siblings(rows[1..], parentId);
      SiblingsByPosition(rows[1..], parentId);
      if NonEmpty(rows[0].parentId) == parentId {
        assert Siblings(rows, parentId) == [rows[0]] + rest;
        HeadBeforeSiblings(rows, parentId);
        SortedCons(rows[0], rest);
      } else {
        assert Siblings(rows, parentId) == rest;
      }
    }
  }

  /** The first of sorted rows comes no later than any sibling group of the others. */
  lemma HeadBeforeSiblings(rows: seq<Row>, parentId: Option<string>)
    requires rows != [] && ByPosition(rows)
    ensures forall y :: y in Siblings(rows[1..], parentId) ==> PositionLe(rows[0].position, y.position)
  {
    var rest := Siblings(rows[1..], parentId);
    SiblingsCount(rows[1..], parentId);
    forall y | y in rest
      ensures PositionLe(rows[0].position, y.position)
    {
      assert multiset(rest)[y] > 0;
      assert y in rows[1..];
      var k :| 0 <= k < |rows[1..]| && rows[1..][k] == y;
      assert rows[k + 1] == y;
    }
  }

  /** A row no later than every row of a sorted list, put in front of it, keeps it sorted. */
  lemma SortedCons(r: Row, rest: seq<Row>)
    requires ByPosition(rest) && forall y :: y in rest ==> PositionLe(r.position, y.position)
    ensures ByPosition([r] + rest)
  {
    var s := [r] + rest;
    forall i, j | 0 <= i < j < |s|
      ensures PositionLe(s[i].position, s[j].position)
    {
      assert s[j] == rest[j - 1];
      if i > 0 {
        assert s[i] == rest[i - 1];
      }
    }
  }

  /**
   * A sibling group whose stored positions strictly increase comes back
   * from a fetch exactly as it was stored.
   */
  lemma FetchedSiblings(fetched: seq<Row>, stored: seq<Row>, parentId: Option<string>)
    requires FetchedFrom(fetched, stored) && Increasing(Siblings(stored, parentId))
    ensures Siblings(fetched, parentId) == Siblings(stored, parentId)
  {
    SiblingsCount(fetched, parentId);
    SiblingsCount(stored, parentId);
    assert multiset(Siblings(fetched, parentId)) == multiset(Siblings(stored, parentId));
    SiblingsByPosition(fetched, parentId);
    SortedEqual(Siblings(stored, parentId), Siblings(fetched, parentId));
  }

  // ---------------------------------------------------------------------
  // Distinct ids and the id-to-task map under reordering
  // ---------------------------------------------------------------------

  /** Rows with distinct ids hold no row twice. */
  lemma {:induction false} DistinctOnce(rows: seq<Row>)
    requires DistinctIds(rows)
    ensures forall x :: multiset(rows)[x] <= 1
    decreases |rows|
  {
    if rows != [] {
      var n := |rows| - 1;
      DistinctOnce(rows[..n]);
      assert rows == rows[..n] + [rows[n]];
      assert rows[n] !in rows[..n];
    }
  }

  lemma Twice(s: seq<Row>, i: nat, j: nat)
    requires i < j < |s|
    ensures s[i] == s[j] ==> multiset(s)[s[i]] >= 2
  {
    assert s == s[..i] + [s[i]] + s[i + 1..j] + [s[j]] + s[j + 1..];
  }

  /** Two different rows among rows with distinct ids have different ids. */
  lemma IdsDiffer(rows: seq<Row>, a: Row, b: Row)
    requires DistinctIds(rows) && a in rows && b in rows && a != b
    ensures a.id != b.id
  {
    var p :| 0 <= p < |rows| && rows[p] == a;
    var q :| 0 <= q < |rows| && rows[q] == b;
    assert p != q;
  }

  /** Reordering rows with distinct ids keeps the ids distinct. */
  lemma PermutedDistinct(fetched: seq<Row>, stored: seq<Row>)
    requires multiset(fetched) == multiset(stored) && DistinctIds(stored)
    ensures DistinctIds(fetched)
  {
    DistinctOnce(stored);
    forall i, j | 0 <= i < j < |fetched|
      ensures fetched[i].id != fetched[j].id
    {
      Twice(fetched, i, j);
      assert fetched[i] != fetched[j];
      assert fetched[i] in multiset(stored) && fetched[j] in multiset(stored);
      IdsDiffer(stored, fetched[i], fetched[j]);
    }
  }

  /** With distinct ids, the map holds the task of row `i` under its id. */
  lemma NodeOfRow(rows: seq<Row>, i: nat)
    requires DistinctIds(rows) && i < |rows|
    ensures rows[i].id in MapNodes(rows) && MapNodes(rows)[rows[i].id] == ToTask(rows[i])
  {
    IdAtRow(rows, i);
    MapNodesLastWins(rows, rows[i].id);
  }

  /** The map has an entry exactly for the ids of the rows. */
  lemma KeyOfRow(rows: seq<Row>, k: string)
    requires k in MapNodes(rows)
    ensures exists i :: 0 <= i < |rows| && rows[i].id == k
  {
    MapDomain(rows);
    var i :| 0 <= i < |rows| && RowIds(rows)[i] == k;
  }

  /** With distinct ids, the map the build makes does not depend on the order of the rows. */
  lemma PermutedNodes(fetched: seq<Row>, stored: seq<Row>)
    requires multiset(fetched) == multiset(stored) && DistinctIds(stored) && DistinctIds(fetched)
    ensures MapNodes(fetched) == MapNodes(stored)
  {
    var a, b := MapNodes(fetched), MapNodes(stored);
    forall k | k in a
      ensures k in b && b[k] == a[k]
    {
      KeyOfRow(fetched, k);
      var i :| 0 <= i < |fetched| && fetched[i].id == k;
      NodeOfRow(fetched, i);
      assert fetched[i] in multiset(stored);
      var j :| 0 <= j < |stored| && stored[j] == fetched[i];
      NodeOfRow(stored, j);
    }
    forall k | k in b
      ensures k in a
    {
      KeyOfRow(stored, k);
      var j :| 0 <= j < |stored| && stored[j].id == k;
      assert stored[j] in multiset(fetched);
      var i :| 0 <= i < |fetched| && fetched[i] == stored[j];
      NodeOfRow(fetched, i);
    }
    assert a.Keys == b.Keys;
  }

  // ---------------------------------------------------------------------
  // The positions `updateTasksOrder` writes
  // ---------------------------------------------------------------------

  /** Tasks numbered `index`, `index + 1`, ... by their positions. */
  predicate Numbered(ts: seq<Task>, index: int) {
    forall i :: 0 <= i < |ts| ==> ts[i].position == Some(index + i)
  }

  /** A reloaded forest is numbered from `index`, and every children array in it from 0. */
  lemma {:induction false} ReloadedNumbered(ts: seq<Task>, parentId: Option<string>, userId: string, index: int)
    ensures Numbered(Reloaded(ts, parentId, userId, index), index)
    ensures forall x :: x in PreOrder(Reloaded(ts, parentId, userId, index)) ==> Numbered(Kids(x), 0)
  {
    if ts != [] {
      var t := ts[0];
      var r := Reloaded(ts, parentId, userId, index);
      var below := if t.children.Children? then Reloaded(t.children.list, Some(t.id), userId, 0) else [];
      var rest := Reloaded(ts[1..], parentId, userId, index + 1);
      assert r[0].position == Some(index) && Kids(r[0]) == below && r[1..] == rest;
      if t.children.Children? {
        ReloadedNumbered(t.children.list, Some(t.id), userId, 0);
      }
      ReloadedNumbered(ts[1..], parentId, userId, index + 1);
      NumberedCons(r, index);
      assert PreOrder(r) == [r[0]] + PreOrder(below) + PreOrder(rest) by { PreOrderParts(r); }
    }
  }

  /** A list whose head is at `index` and whose tail is numbered from `index + 1`. */
  lemma NumberedCons(r: seq<Task>, index: int)
    requires r != [] && r[0].position == Some(index) && Numbered(r[1..], index + 1)
    ensures Numbered(r, index)
  {
    forall i | 0 < i < |r|
      ensures r[i].position == Some(index + i)
    {
      assert r[i] == r[1..][i - 1];
    }
  }

  /** The rows saved for a numbered list have strictly increasing positions. */
  lemma SavedIncreasing(ts: seq<Task>, userId: string, index: int)
    requires Numbered(ts, index)
    ensures Increasing(SaveAll(ts, userId))
  {
  }

  /** The sibling groups of the rows saved for stored nodes are the rows saved for the nodes naming that parent. */
  lemma {:induction false} SiblingsOfSaved(ts: seq<Task>, userId: string, parentId: Option<string>)
    requires forall x :: x in ts ==> NormalParent(x.parentId)
    ensures Siblings(SaveAll(ts, userId), parentId) == SaveAll(WithParent(ts, parentId), userId)
  {
    if ts != [] {
      var t := ts[0];
      var s := SaveAll(ts, userId);
      var head := if t.parentId == parentId then [t] else [];
      var others := WithParent(ts[1..], parentId);
      assert s[0] == SaveRow(t, userId) && s[1..] == SaveAll(ts[1..], userId);
      assert NonEmpty(s[0].parentId) == t.parentId;
      SiblingsOfSaved(ts[1..], userId, parentId);
      assert Siblings(s, parentId) == SaveAll(head, userId) + Siblings(s[1..], parentId);
      assert WithParent(ts, parentId) == head + others;
      SaveAllAppend(head, others, userId);
    }
  }

  // ---------------------------------------------------------------------
  // Reorder, then fetch sorted by position
  // ---------------------------------------------------------------------

  /**
   * The round trip of a reorder: the rows written for a reordered forest,
   * fetched back in ascending position order (whatever order the table
   * picks among equal positions), build the forest as `Reloaded`
   * describes it: same ids, same nesting, same sibling order, when ids are
   * unique and non-empty.
   */
  lemma FetchThenBuild(ts: seq<Task>, userId: string, fetched: seq<Row>)
    requires UniqueIds(ts) && forall x :: x in PreOrder(ts) ==> x.id != ""
    requires FetchedFrom(fetched, FlattenRows(ts, userId))
    ensures BuildForest(fetched) == Reloaded(ts, None, userId, 0)
  {
    var forest := Reloaded(ts, None, userId, 0);
    var listing := PreOrder(forest);
    var rows := SaveAll(listing, userId);
    assert FlattenRows(ts, userId) == rows by {
      FlattenIsSaveAll(ts, None, userId, 0);
    }
    assert UniqueIds(forest) by {
      ReloadedIds(ts, None, userId, 0);
    }
    assert Linked(forest, None) by {
      ReloadedLinked(ts, None, userId, 0);
    }
    assert forall x :: x in listing ==> NormalParent(x.parentId) by {
      ReloadedStored(ts, None, userId, 0);
    }
    ReloadedNumbered(ts, None, userId, 0);
    SavedDistinct(listing, userId);
    PermutedDistinct(fetched, rows);
    PermutedNodes(fetched, rows);
    assert Increasing(Siblings(rows, None)) by {
      SavedRootsIncreasing(forest, userId);
    }
    assert forall id :: id in MapNodes(rows) ==> Increasing(Siblings(rows, Some(id))) by {
      forall id | id in MapNodes(rows)
        ensures Increasing(Siblings(rows, Some(id)))
      {
        SavedKidsIncreasing(forest, userId, id);
      }
    }
    SameBuild(fetched, rows);
    ReorderThenFetch(ts, userId);
  }

  /**
   * When every sibling group of the stored rows has strictly increasing
   * positions, any fetch of them builds the forest the rows in stored order
   * build: each filter of the build sees its group in the same order.
   */
  lemma SameBuild(fetched: seq<Row>, rows: seq<Row>)
    requires FetchedFrom(fetched, rows) && DistinctIds(rows) && DistinctIds(fetched)
    requires MapNodes(fetched) == MapNodes(rows)
    requires Increasing(Siblings(rows, None))
    requires forall id :: id in MapNodes(rows) ==> Increasing(Siblings(rows, Some(id)))
    ensures BuildForest(fetched) == BuildForest(rows)
  {
    var nodes := MapNodes(rows);
    MapKeysOfDistinct(fetched);
    MapKeysOfDistinct(rows);
    FetchedRoots(fetched, rows);
    forall id | id in nodes
      ensures ChildIds(RowIds(fetched), nodes, id) == ChildIds(RowIds(rows), nodes, id)
    {
      FetchedChildren(fetched, rows, id);
    }
    ChildMapsAgree(RowIds(fetched), RowIds(rows), nodes);
  }

  /** Child lists that agree for every id make the same child map. */
  lemma ChildMapsAgree(a: seq<string>, b: seq<string>, nodes: map<string, Task>)
    requires (forall k :: k in a ==> k in nodes) && (forall k :: k in b ==> k in nodes)
    requires forall id :: id in nodes ==> ChildIds(a, nodes, id) == ChildIds(b, nodes, id)
    ensures ChildMap(a, nodes) == ChildMap(b, nodes)
  {
  }

  /** The saved roots of a numbered, linked forest have strictly increasing positions. */
  lemma SavedRootsIncreasing(forest: seq<Task>, userId: string)
    requires Linked(forest, None) && Numbered(forest, 0)
    requires forall x :: x in PreOrder(forest) ==> NormalParent(x.parentId)
    ensures Increasing(Siblings(SaveAll(PreOrder(forest), userId), None))
  {
    SiblingsOfSaved(PreOrder(forest), userId, None);
    FilterRoots(forest, None);
    SavedIncreasing(forest, userId, 0);
  }

  /** The saved children of every node of a numbered, linked forest have strictly increasing positions. */
  lemma SavedKidsIncreasing(forest: seq<Task>, userId: string, id: string)
    requires UniqueIds(forest) && Linked(forest, None)
    requires forall x :: x in PreOrder(forest) ==> Numbered(Kids(x), 0)
    requires forall x :: x in PreOrder(forest) ==> NormalParent(x.parentId)
    requires id in MapNodes(SaveAll(PreOrder(forest), userId))
    ensures Increasing(Siblings(SaveAll(PreOrder(forest), userId), Some(id)))
  {
    var listing := PreOrder(forest);
    var rows := SaveAll(listing, userId);
    KeyOfRow(rows, id);
    var i :| 0 <= i < |rows| && rows[i].id == id;
    var x := listing[i];
    SiblingsOfSaved(listing, userId, Some(id));
    FilterChildren(forest, None, x);
    SavedIncreasing(Kids(x), userId, 0);
  }

  /** A fetch keeps the root filter of the build when the stored roots are numbered in order. */
  lemma FetchedRoots(fetched: seq<Row>, rows: seq<Row>)
    requires FetchedFrom(fetched, rows) && DistinctIds(rows) && DistinctIds(fetched)
    requires MapNodes(fetched) == MapNodes(rows)
    requires Increasing(Siblings(rows, None))
    ensures forall k :: k in RowIds(fetched) ==> k in MapNodes(rows)
    ensures forall k :: k in RowIds(rows) ==> k in MapNodes(rows)
    ensures RootIds(RowIds(fetched), MapNodes(rows)) == RootIds(RowIds(rows), MapNodes(rows))
  {
    RowsAgree(fetched);
    RowsAgree(rows);
    FiltersOfRows(fetched, MapNodes(rows), "");
    FiltersOfRows(rows, MapNodes(rows), "");
    RootRowsAreSiblings(fetched);
    RootRowsAreSiblings(rows);
    FetchedSiblings(fetched, rows, None);
  }

  /** A fetch keeps the child filter of the build for a parent whose stored children are numbered in order. */
  lemma FetchedChildren(fetched: seq<Row>, rows: seq<Row>, id: string)
    requires FetchedFrom(fetched, rows) && DistinctIds(rows) && DistinctIds(fetched)
    requires MapNodes(fetched) == MapNodes(rows)
    requires Increasing(Siblings(rows, Some(id)))
    ensures forall k :: k in RowIds(fetched) ==> k in MapNodes(rows)
    ensures forall k :: k in RowIds(rows) ==> k in MapNodes(rows)
    ensures ChildIds(RowIds(fetched), MapNodes(rows), id) == ChildIds(RowIds(rows), MapNodes(rows), id)
  {
    RowsAgree(fetched);
    RowsAgree(rows);
    FiltersOfRows(fetched, MapNodes(rows), id);
    FiltersOfRows(rows, MapNodes(rows), id);
    ChildRowsAreSiblings(fetched, id);
    ChildRowsAreSiblings(rows, id);
    FetchedSiblings(fetched, rows, Some(id));
  }
}
