/**
 * The data layer around the task table: the row a task is stored as, the
 * mapping of a fetched row to a task and of a task to a saved row, the
 * build of the task tree from the fetched rows, and the flattening of a
 * reordered tree back into rows.
 *
 * The table calls themselves (authentication, select, upsert, delete and
 * the change subscription) are not modelled; the rows they return or
 * receive are parameters and results here.
 */
module TaskStore {
  import opened TaskModel

  // ---------------------------------------------------------------------
  // Rows
  // ---------------------------------------------------------------------

  /** One row of the task table. Nullable columns are options. */
  datatype Row = Row(
    id: string,
    userId: string,
    title: string,
    startDate: int,
    endDate: int,
    progress: int,
    taskType: Option<TaskKind>,
    parentId: Option<string>,
    position: Option<int>,
    isExpanded: Option<bool>,
    dependencies: Option<seq<string>>)

  /** `x || undefined` / `x || null` on an optional string: empty becomes absent. */
  function NonEmpty(s: Option<string>): (r: Option<string>)
    ensures r.None? <==> !Truthy(s)
    ensures r.Some? ==> r == s && r.value != ""
  {
    if Truthy(s) then s else None
  }

  /** A parent id as the data layer leaves it: absent, or a non-empty id. */
  predicate NormalParent(p: Option<string>) {
    p.None? || p.value != ""
  }

  /**
   * The task object built for a fetched row: no children yet, missing
   * dependencies read as none, an empty or null parent id read as absent.
   */
  function ToTask(r: Row): (t: Task)
    ensures t.id == r.id && t.children == Children([])
    ensures t.dependencies == (if r.dependencies.Some? then r.dependencies.value else [])
    ensures t.parentId.None? <==> !Truthy(r.parentId)
    ensures t.parentId.Some? ==> t.parentId == r.parentId && NormalParent(t.parentId)
  {
    Task(
      id := r.id,
      title := r.title,
      startDate := r.startDate,
      endDate := r.endDate,
      progress := r.progress,
      dependencies := r.dependencies.GetOr([]),
      parentId := NonEmpty(r.parentId),
      children := Children([]),
      isExpanded := r.isExpanded,
      kind := r.taskType,
      position := r.position,
      userId := Some(r.userId))
  }

  /**
   * The row written when one task is saved for user `userId`: an absent or
   * empty parent id is written as null and an undefined expanded flag as
   * expanded.
   */
  function SaveRow(t: Task, userId: string): (r: Row)
    ensures r.id == t.id && r.userId == userId
    ensures r.parentId.None? <==> !Truthy(t.parentId)
    ensures r.isExpanded == Some(t.isExpanded != Some(false))
  {
    assert t.isExpanded.Some? ==> t.isExpanded.GetOr(true) == t.isExpanded.value;
    Row(
      id := t.id,
      userId := userId,
      title := t.title,
      startDate := t.startDate,
      endDate := t.endDate,
      progress := t.progress,
      taskType := t.kind,
      parentId := NonEmpty(t.parentId),
      position := t.position,
      isExpanded := Some(t.isExpanded.GetOr(true)),
      dependencies := Some(t.dependencies))
  }

  /**
   * Reading a saved task back gives the task itself, except that it has
   * lost its subtree, belongs to the saving user, has a defined expanded
   * flag and an empty parent id dropped.
   */
  lemma SaveThenLoad(t: Task, userId: string)
    ensures ToTask(SaveRow(t, userId)) == t.(children := Children([]), userId := Some(userId),
      isExpanded := Some(t.isExpanded != Some(false)), parentId := NonEmpty(t.parentId))
  {
  }

  /**
   * Saving a fetched task again, for the row's own user, gives the row back
   * with its null columns filled in the way the data layer fills them.
   */
  lemma LoadThenSave(r: Row)
    ensures SaveRow(ToTask(r), r.userId) == r.(dependencies := Some(r.dependencies.GetOr([])),
      parentId := NonEmpty(r.parentId), isExpanded := Some(r.isExpanded != Some(false)))
  {
  }

  /** The ids of a list of rows, in order. */
  function RowIds(rows: seq<Row>): (r: seq<string>)
    ensures |r| == |rows| && forall i :: 0 <= i < |rows| ==> r[i] == rows[i].id
  {
    seq(|rows|, i requires 0 <= i < |rows| => rows[i].id)
  }

  // ---------------------------------------------------------------------
  // The id-to-task map of the build
  // ---------------------------------------------------------------------

  /**
   * The keys of the map after setting every row in turn: each id where it
   * was first set (setting an existing key keeps its place).
   */
  function MapKeys(rows: seq<Row>): seq<string> {
    if rows == [] then []
    else
      var ks := MapKeys(rows[..|rows| - 1]);
      var id := rows[|rows| - 1].id;
      if id in ks then ks else ks + [id]
  }

  /** The values of the map after setting every row in turn: the last row set under each id. */
  function MapNodes(rows: seq<Row>): map<string, Task> {
    if rows == [] then map[]
    else
      var last := rows[|rows| - 1];
      MapNodes(rows[..|rows| - 1])[last.id := ToTask(last)]
  }

  /** The map's keys are its entries, and they are exactly the ids of the rows. */
  lemma {:induction false} MapDomain(rows: seq<Row>)
    ensures forall k :: k in MapKeys(rows) <==> k in MapNodes(rows)
    ensures forall k :: k in MapNodes(rows) <==> k in RowIds(rows)
  {
    if rows != [] {
      var init := rows[..|rows| - 1];
      MapDomain(init);
      assert RowIds(rows) == RowIds(init) + [rows[|rows| - 1].id];
    }
  }

  /** Every value of the map is a fetched task stored under its own id. */
  predicate Loaded(nodes: map<string, Task>) {
    forall k :: k in nodes ==> nodes[k].id == k && nodes[k].children == Children([]) && NormalParent(nodes[k].parentId)
  }

  lemma {:induction false} MapNodesLoaded(rows: seq<Row>)
    ensures Loaded(MapNodes(rows))
  {
    if rows != [] {
      MapNodesLoaded(rows[..|rows| - 1]);
    }
  }

  // ---------------------------------------------------------------------
  // Parent links
  // ---------------------------------------------------------------------

  /** The keys, in map order, whose task names `id` as its (non-empty) parent. */
  function ChildIds(ks: seq<string>, nodes: map<string, Task>, id: string): (r: seq<string>)
    requires forall k :: k in ks ==> k in nodes
  {
    if ks == [] then []
    else
      var t := nodes[ks[0]];
      (if Truthy(t.parentId) && t.parentId.value == id then [ks[0]] else []) + ChildIds(ks[1..], nodes, id)
  }

  /** The keys, in map order, whose task has no (non-empty) parent id. */
  function RootIds(ks: seq<string>, nodes: map<string, Task>): (r: seq<string>)
    requires forall k :: k in ks ==> k in nodes
  {
    if ks == [] then []
    else
      var t := nodes[ks[0]];
      (if !Truthy(t.parentId) then [ks[0]] else []) + RootIds(ks[1..], nodes)
  }

  /** A key is a child of `id` exactly when its task names `id` as a non-empty parent id. */
  lemma {:induction false} ChildIdsMembers(ks: seq<string>, nodes: map<string, Task>, id: string)
    requires forall k :: k in ks ==> k in nodes
    ensures forall k :: k in ChildIds(ks, nodes, id) <==> k in ks && Truthy(nodes[k].parentId) && nodes[k].parentId.value == id
  {
    if ks != [] {
      ChildIdsMembers(ks[1..], nodes, id);
    }
  }

  /** A key is a root exactly when its task has no non-empty parent id. */
  lemma {:induction false} RootIdsMembers(ks: seq<string>, nodes: map<string, Task>)
    requires forall k :: k in ks ==> k in nodes
    ensures forall k :: k in RootIds(ks, nodes) <==> k in ks && !Truthy(nodes[k].parentId)
  {
    if ks != [] {
      RootIdsMembers(ks[1..], nodes);
    }
  }

  lemma {:induction false} ChildIdsSnoc(ks: seq<string>, k: string, nodes: map<string, Task>, id: string)
    requires forall x :: x in ks ==> x in nodes
    requires k in nodes
    ensures var t := nodes[k];
      ChildIds(ks + [k], nodes, id) == ChildIds(ks, nodes, id) + (if Truthy(t.parentId) && t.parentId.value == id then [k] else [])
  {
    if ks == [] {
      assert ks + [k] == [k];
    } else {
      assert (ks + [k])[1..] == ks[1..] + [k];
      ChildIdsSnoc(ks[1..], k, nodes, id);
    }
  }

  lemma {:induction false} RootIdsSnoc(ks: seq<string>, k: string, nodes: map<string, Task>)
    requires forall x :: x in ks ==> x in nodes
    requires k in nodes
    ensures RootIds(ks + [k], nodes) == RootIds(ks, nodes) + (if !Truthy(nodes[k].parentId) then [k] else [])
  {
    if ks == [] {
      assert ks + [k] == [k];
    } else {
      assert (ks + [k])[1..] == ks[1..] + [k];
      RootIdsSnoc(ks[1..], k, nodes);
    }
  }

  /** The children arrays once every task has been pushed onto its parent's: id to child ids. */
  function ChildMap(ks: seq<string>, nodes: map<string, Task>): (kids: map<string, seq<string>>)
    requires forall k :: k in ks ==> k in nodes
    ensures Graph(nodes, kids)
  {
    ChildIdsWithin(ks, nodes);
    map id | id in nodes :: ChildIds(ks, nodes, id)
  }

  lemma ChildIdsWithin(ks: seq<string>, nodes: map<string, Task>)
    requires forall k :: k in ks ==> k in nodes
    ensures forall id, k :: k in ChildIds(ks, nodes, id) ==> k in ks
  {
    forall id, k | k in ChildIds(ks, nodes, id) {
      ChildIdsMembers(ks, nodes, id);
    }
  }

  /** Children arrays for exactly the map's tasks, naming only the map's tasks. */
  predicate Graph(nodes: map<string, Task>, kids: map<string, seq<string>>) {
    nodes.Keys == kids.Keys &&
    forall id, c :: id in kids && c in kids[id] ==> c in nodes
  }

  // ---------------------------------------------------------------------
  // Reading the linked task objects back as a tree
  // ---------------------------------------------------------------------

  /** The keys on a path, as a set. */
  function Elements(path: seq<string>): (r: set<string>)
    ensures forall k :: k in r <==> k in path
  {
    set k | k in path
  }

  /**
   * The task object under key `k` with its children array followed, as a
   * value. `path` holds the keys of the objects already being read above
   * it; an object is never entered twice on one path (`ChainExtends`
   * shows that this never cuts anything off for the objects the build
   * reaches).
   */
  function ReadNode(nodes: map<string, Task>, kids: map<string, seq<string>>, k: string, path: seq<string>): (t: Task)
    requires Graph(nodes, kids) && k in nodes && k !in path
    ensures t == nodes[k].(children := t.children) && t.children.Children?
    decreases nodes.Keys - Elements(path), 0, 0
  {
    assert nodes.Keys - Elements(path + [k]) < nodes.Keys - Elements(path) by {
      assert Elements(path + [k]) == Elements(path) + {k};
    }
    nodes[k].(children := Children(ReadList(nodes, kids, kids[k], path + [k])))
  }

  /** The objects under the keys `ids`, in order, each read as a value. */
  function ReadList(nodes: map<string, Task>, kids: map<string, seq<string>>, ids: seq<string>, path: seq<string>): (r: seq<Task>)
    requires Graph(nodes, kids) && forall c :: c in ids ==> c in nodes
    decreases nodes.Keys - Elements(path), 1, |ids|
  {
    if ids == [] then []
    else (if ids[0] in path then [] else [ReadNode(nodes, kids, ids[0], path)]) + ReadList(nodes, kids, ids[1..], path)
  }

  /** The root list the build produces from the fetched rows. */
  function BuildForest(rows: seq<Row>): seq<Task> {
    var ks, nodes := MapKeys(rows), MapNodes(rows);
    MapDomain(rows);
    RootIdsMembers(ks, nodes);
    ReadList(nodes, ChildMap(ks, nodes), RootIds(ks, nodes), [])
  }

  /**
   * The build of `fetchTasks`: every row becomes a task object in an
   * id-keyed map; then, in map order, each object with a non-empty parent
   * id is pushed onto that parent's children array when the parent is in
   * the map (and dropped otherwise), and each object without one is pushed
   * onto the root list. The map holds objects that the children arrays
   * share, so the result is read back through `ReadList`.
   */
  method BuildTree(rows: seq<Row>) returns (roots: seq<Task>)
    ensures roots == BuildForest(rows)
  {
    var keys, nodes, kids := IndexRows(rows);
    MapDomain(rows);
    var rootIds, links := LinkNodes(keys, nodes);
    RootIdsMembers(keys, nodes);
    roots := ReadList(nodes, links, rootIds, []);
    BuiltForest(rows, keys, nodes, links, rootIds);
  }

  /**
   * The first pass of the build: one task object per row id, the last row
   * with that id winning, each with an empty children array; `keys` is the
   * map's insertion order.
   */
  method IndexRows(rows: seq<Row>) returns (keys: seq<string>, nodes: map<string, Task>, kids: map<string, seq<string>>)
    ensures keys == MapKeys(rows) && nodes == MapNodes(rows)
    ensures kids.Keys == nodes.Keys && forall id :: id in kids ==> kids[id] == []
  {
    keys, nodes, kids := [], map[], map[];
    var i := 0;
    while i < |rows|
      invariant 0 <= i <= |rows|
      invariant keys == MapKeys(rows[..i]) && nodes == MapNodes(rows[..i])
      invariant forall id :: id in kids <==> id in nodes
      invariant forall id :: id in kids ==> kids[id] == []
    {
      var row := rows[i];
      MapSnoc(rows, i);
      if row.id !in keys {
        keys := keys + [row.id];
      }
      nodes := nodes[row.id := ToTask(row)];
      kids := kids[row.id := []];
      i := i + 1;
    }
    assert rows[..i] == rows;
  }

  /**
   * The second pass of the build, in map order: a task with a non-empty
   * parent id is pushed onto its parent's children array when the parent
   * is in the map, and dropped otherwise; a task without one is pushed onto
   * the root list.
   */
  method LinkNodes(keys: seq<string>, nodes: map<string, Task>) returns (rootIds: seq<string>, kids: map<string, seq<string>>)
    requires forall k :: k in keys ==> k in nodes
    ensures rootIds == RootIds(keys, nodes) && kids == ChildMap(keys, nodes)
  {
    rootIds := [];
    kids := map id | id in nodes :: [];
    assert kids == ChildMap(keys[..0], nodes);
    var j := 0;
    while j < |keys|
      invariant 0 <= j <= |keys|
      invariant rootIds == RootIds(keys[..j], nodes)
      invariant kids == ChildMap(keys[..j], nodes)
    {
      var key := keys[j];
      var task := nodes[key];
      LinkStep(keys, j, nodes);
      if Truthy(task.parentId) {
        var parentId := task.parentId.value;
        if parentId in nodes {
          kids := kids[parentId := kids[parentId] + [key]];
        }
      } else {
        rootIds := rootIds + [key];
      }
      j := j + 1;
    }
    assert keys[..j] == keys;
  }

  /** What the two passes of the build leave behind is what `BuildForest` reads. */
  lemma BuiltForest(rows: seq<Row>, keys: seq<string>, nodes: map<string, Task>,
                    kids: map<string, seq<string>>, rootIds: seq<string>)
    requires keys == MapKeys(rows) && nodes == MapNodes(rows)
    requires forall k :: k in keys ==> k in nodes
    requires kids == ChildMap(keys, nodes) && rootIds == RootIds(keys, nodes)
    requires forall c :: c in rootIds ==> c in nodes
    ensures ReadList(nodes, kids, rootIds, []) == BuildForest(rows)
  {
  }

  lemma TakeSnoc<T>(s: seq<T>, i: nat)
    requires i < |s|
    ensures s[..i + 1] == s[..i] + [s[i]]
  {
  }

  /** Setting one more row in the map. */
  lemma MapSnoc(rows: seq<Row>, i: nat)
    requires i < |rows|
    ensures var ks := MapKeys(rows[..i]);
      MapKeys(rows[..i + 1]) == if rows[i].id in ks then ks else ks + [rows[i].id]
    ensures MapNodes(rows[..i + 1]) == MapNodes(rows[..i])[rows[i].id := ToTask(rows[i])]
  {
    assert rows[..i + 1][..i] == rows[..i];
  }

  /** Pushing one more key onto its parent's children array, or onto the roots. */
  lemma LinkStep(keys: seq<string>, j: nat, nodes: map<string, Task>)
    requires j < |keys| && forall k :: k in keys ==> k in nodes
    ensures var k, p := keys[j], nodes[keys[j]].parentId;
      && (!Truthy(p) ==> RootIds(keys[..j + 1], nodes) == RootIds(keys[..j], nodes) + [k])
      && (Truthy(p) ==> RootIds(keys[..j + 1], nodes) == RootIds(keys[..j], nodes))
    ensures var k, p, kids := keys[j], nodes[keys[j]].parentId, ChildMap(keys[..j], nodes);
      && (Truthy(p) && p.value in nodes ==> ChildMap(keys[..j + 1], nodes) == kids[p.value := kids[p.value] + [k]])
      && (!(Truthy(p) && p.value in nodes) ==> ChildMap(keys[..j + 1], nodes) == kids)
  {
    var ks, k := keys[..j], keys[j];
    TakeSnoc(keys, j);
    RootIdsSnoc(ks, k, nodes);
    ChildMapSnoc(ks, k, nodes);
  }

  /** The child map of one more key: that key appended to its parent's children, if the parent is a key. */
  lemma ChildMapSnoc(ks: seq<string>, k: string, nodes: map<string, Task>)
    requires k in nodes && forall x :: x in ks ==> x in nodes
    ensures var t, kids := nodes[k], ChildMap(ks, nodes);
      ChildMap(ks + [k], nodes) ==
        if Truthy(t.parentId) && t.parentId.value in nodes then kids[t.parentId.value := kids[t.parentId.value] + [k]] else kids
  {
    var t := nodes[k];
    var kids, after := ChildMap(ks, nodes), ChildMap(ks + [k], nodes);
    var expected := if Truthy(t.parentId) && t.parentId.value in nodes then kids[t.parentId.value := kids[t.parentId.value] + [k]] else kids;
    assert after.Keys == nodes.Keys == expected.Keys;
    forall id | id in nodes
      ensures after[id] == expected[id]
    {
      ChildIdsSnoc(ks, k, nodes, id);
    }
  }

  // ---------------------------------------------------------------------
  // What the build produces
  // ---------------------------------------------------------------------

  /**
   * `path` is a line of descent in the map: a parentless task first, then
   * each task naming the one before it as its parent, no key twice.
   */
  predicate Chain(nodes: map<string, Task>, path: seq<string>) {
    && (forall i :: 0 <= i < |path| ==> path[i] in nodes)
    && (forall i, j :: 0 <= i < j < |path| ==> path[i] != path[j])
    && (|path| > 0 ==> !Truthy(nodes[path[0]].parentId))
    && (forall i :: 0 < i < |path| ==> nodes[path[i]].parentId == Some(path[i - 1]))
  }

  /** The keys `ids` hang off the end of `path`: roots when it is empty, children of its last key otherwise. */
  predicate Attached(nodes: map<string, Task>, ids: seq<string>, path: seq<string>)
    requires forall c :: c in ids ==> c in nodes
  {
    forall c :: c in ids ==>
      if path == [] then !Truthy(nodes[c].parentId)
      else Truthy(nodes[c].parentId) && nodes[c].parentId.value == path[|path| - 1]
  }

  /**
   * A key attached to a line of descent is not on it, and extends it. Every
   * task has one parent id and the line starts at a parentless task, so
   * coming back to a key on the line would need a task with two parents.
   */
  lemma ChainExtends(nodes: map<string, Task>, path: seq<string>, c: string)
    requires Chain(nodes, path) && c in nodes && Attached(nodes, [c], path)
    ensures c !in path && Chain(nodes, path + [c])
  {
    forall m | 0 <= m < |path|
      ensures path[m] != c
    {
      if 0 < m {
        assert nodes[path[m]].parentId == Some(path[m - 1]);
      }
    }
    var q := path + [c];
    assert forall i :: 0 <= i < |path| ==> q[i] == path[i];
    forall i, j | 0 <= i < j < |q|
      ensures q[i] != q[j]
    {
      if j == |path| {
        assert q[i] == path[i];
      }
    }
  }

  /**
   * Reading the objects under keys attached to a line of descent: no key is
   * skipped, and every object read is the map's task under its own key,
   * with a children array listing exactly that key's children array, and a
   * parent id that is absent or names a task of the map.
   */
  lemma {:induction false} ReadShape(nodes: map<string, Task>, kids: map<string, seq<string>>, ids: seq<string>, path: seq<string>)
    requires Graph(nodes, kids) && Loaded(nodes)
    requires forall id, c :: id in kids && c in kids[id] ==> Truthy(nodes[c].parentId) && nodes[c].parentId.value == id
    requires Chain(nodes, path)
    requires forall c :: c in ids ==> c in nodes
    requires Attached(nodes, ids, path)
    ensures Ids(ReadList(nodes, kids, ids, path)) == ids
    ensures forall x :: x in PreOrder(ReadList(nodes, kids, ids, path)) ==> ReadAsLoaded(nodes, kids, x)
    decreases nodes.Keys - Elements(path), |ids|
  {
    if ids != [] {
      var c := ids[0];
      ChainExtends(nodes, path, c);
      var below := ReadList(nodes, kids, kids[c], path + [c]);
      assert nodes.Keys - Elements(path + [c]) < nodes.Keys - Elements(path) by {
        assert Elements(path + [c]) == Elements(path) + {c};
      }
      ReadShape(nodes, kids, kids[c], path + [c]);
      ReadShape(nodes, kids, ids[1..], path);
      var t := ReadNode(nodes, kids, c, path);
      var rest := ReadList(nodes, kids, ids[1..], path);
      assert t == nodes[c].(children := Children(below));
      assert ReadList(nodes, kids, ids, path) == [t] + rest;
      assert ReadAsLoaded(nodes, kids, t) by {
        assert t.id == c;
        if Truthy(nodes[c].parentId) {
          assert path != [] && nodes[c].parentId.value == path[|path| - 1];
        }
      }
      assert PreOrder([t] + rest) == [t] + PreOrder(below) + PreOrder(rest) by {
        assert ([t] + rest)[1..] == rest;
      }
    }
  }

  /**
   * `x` is read as the map holds it: the task under its own key, with a
   * children array that lists that key's children, and a parent id that is
   * absent or names a task of the map.
   */
  predicate ReadAsLoaded(nodes: map<string, Task>, kids: map<string, seq<string>>, x: Task) {
    && x.id in nodes && x.id in kids
    && x == nodes[x.id].(children := x.children)
    && x.children.Children? && Ids(x.children.list) == kids[x.id]
    && (x.parentId.None? || x.parentId.value in nodes)
  }

  /**
   * The shape of the built forest: its roots are the parentless keys in map
   * order, and every node anywhere in it is the map's task under its id,
   * carrying as children exactly the keys that name it as parent, in map
   * order. A task whose non-empty parent id names no task is left out,
   * so every parent id in the forest names a task of the map.
   */
  lemma BuildShape(rows: seq<Row>)
    ensures forall k :: k in MapKeys(rows) <==> k in MapNodes(rows)
    ensures Ids(BuildForest(rows)) == RootIds(MapKeys(rows), MapNodes(rows))
    ensures forall x :: x in PreOrder(BuildForest(rows)) ==>
      && x.id in MapNodes(rows)
      && x == MapNodes(rows)[x.id].(children := x.children)
      && x.children.Children? && Ids(x.children.list) == ChildIds(MapKeys(rows), MapNodes(rows), x.id)
      && (x.parentId.None? || x.parentId.value in MapNodes(rows))
  {
    var ks, nodes := MapKeys(rows), MapNodes(rows);
    MapDomain(rows);
    MapNodesLoaded(rows);
    RootIdsMembers(ks, nodes);
    var kids := ChildMap(ks, nodes);
    forall id, c | id in kids && c in kids[id]
      ensures Truthy(nodes[c].parentId) && nodes[c].parentId.value == id
    {
      ChildIdsMembers(ks, nodes, id);
    }
    ReadShape(nodes, kids, RootIds(ks, nodes), []);
  }

  /** Distinct rows: no id occurs twice. */
  predicate DistinctIds(rows: seq<Row>) {
    forall i, j :: 0 <= i < j < |rows| ==> rows[i].id != rows[j].id
  }

  /** The position of the last row with id `id`: the row the map ends up holding for it. */
  function LastIndex(rows: seq<Row>, id: string): (i: nat)
    requires id in RowIds(rows)
    ensures i < |rows| && rows[i].id == id
    ensures forall j :: i < j < |rows| ==> rows[j].id != id
  {
    var n := |rows| - 1;
    if rows[n].id == id then n
    else
      assert RowIds(rows) == RowIds(rows[..n]) + [rows[n].id];
      LastIndex(rows[..n], id)
  }

  /** When ids repeat, the map holds the task of the last row with that id. */
  lemma {:induction false} MapNodesLastWins(rows: seq<Row>, id: string)
    requires id in RowIds(rows)
    ensures id in MapNodes(rows) && MapNodes(rows)[id] == ToTask(rows[LastIndex(rows, id)])
  {
    var n := |rows| - 1;
    if rows[n].id != id {
      assert RowIds(rows) == RowIds(rows[..n]) + [rows[n].id];
      MapNodesLastWins(rows[..n], id);
    }
  }

  /** With distinct ids, the map's order is the rows' order. */
  lemma {:induction false} MapKeysOfDistinct(rows: seq<Row>)
    requires DistinctIds(rows)
    ensures MapKeys(rows) == RowIds(rows)
  {
    if rows != [] {
      var n := |rows| - 1;
      var init := rows[..n];
      MapKeysOfDistinct(init);
      assert RowIds(rows) == RowIds(init) + [rows[n].id];
    }
  }

  /** The ids of the rows whose non-empty parent id is `id`, in row order. */
  function ChildRows(rows: seq<Row>, id: string): seq<string> {
    if rows == [] then []
    else (if Truthy(rows[0].parentId) && rows[0].parentId.value == id then [rows[0].id] else []) + ChildRows(rows[1..], id)
  }

  /** The ids of the rows whose parent id is null or empty, in row order. */
  function RootRows(rows: seq<Row>): seq<string> {
    if rows == [] then []
    else (if !Truthy(rows[0].parentId) then [rows[0].id] else []) + RootRows(rows[1..])
  }

  /** Filtering the keys by their loaded tasks is filtering the rows by their parent ids. */
  lemma {:induction false} FiltersOfRows(rows: seq<Row>, nodes: map<string, Task>, id: string)
    requires forall i :: 0 <= i < |rows| ==> rows[i].id in nodes && nodes[rows[i].id] == ToTask(rows[i])
    ensures ChildIds(RowIds(rows), nodes, id) == ChildRows(rows, id)
    ensures RootIds(RowIds(rows), nodes) == RootRows(rows)
  {
    if rows != [] {
      assert RowIds(rows)[1..] == RowIds(rows[1..]);
      FiltersOfRows(rows[1..], nodes, id);
    }
  }

  /** With distinct ids, the map holds each row's own task under its id. */
  lemma RowsAgree(rows: seq<Row>)
    requires DistinctIds(rows)
    ensures forall i :: 0 <= i < |rows| ==> rows[i].id in MapNodes(rows) && MapNodes(rows)[rows[i].id] == ToTask(rows[i])
  {
    forall i | 0 <= i < |rows|
      ensures rows[i].id in MapNodes(rows) && MapNodes(rows)[rows[i].id] == ToTask(rows[i])
    {
      IdAtRow(rows, i);
      MapNodesLastWins(rows, rows[i].id);
    }
  }

  /** Building from rows with distinct ids: the roots are the rows without a parent id, in row order. */
  lemma BuildRoots(rows: seq<Row>)
    requires DistinctIds(rows)
    ensures Ids(BuildForest(rows)) == RootRows(rows)
  {
    BuildShape(rows);
    MapKeysOfDistinct(rows);
    RowsAgree(rows);
    FiltersOfRows(rows, MapNodes(rows), "");
  }

  /**
   * Building from rows with distinct ids: every node of the forest is the
   * task of a row, carrying as children the rows that name it as parent,
   * in row order.
   */
  lemma BuildNodes(rows: seq<Row>)
    requires DistinctIds(rows)
    ensures forall x :: x in PreOrder(BuildForest(rows)) ==>
      && x.children.Children? && Ids(x.children.list) == ChildRows(rows, x.id)
      && exists i :: 0 <= i < |rows| && x == ToTask(rows[i]).(children := x.children)
  {
    var nodes := MapNodes(rows);
    BuildShape(rows);
    forall x | x in PreOrder(BuildForest(rows))
      ensures x.children.Children? && Ids(x.children.list) == ChildRows(rows, x.id)
      ensures exists i :: 0 <= i < |rows| && x == ToTask(rows[i]).(children := x.children)
    {
      assert x.id in RowIds(rows) by {
        MapDomain(rows);
      }
      MapNodesLastWins(rows, x.id);
      var i := LastIndex(rows, x.id);
      assert x == ToTask(rows[i]).(children := x.children);
      assert ChildIds(MapKeys(rows), nodes, x.id) == ChildRows(rows, x.id) by {
        MapKeysOfDistinct(rows);
        RowsAgree(rows);
        FiltersOfRows(rows, nodes, x.id);
      }
    }
  }

  /** A row whose non-empty parent id names no row is nowhere in the built forest. */
  lemma OrphanDropped(rows: seq<Row>, i: nat)
    requires DistinctIds(rows) && i < |rows|
    requires Truthy(rows[i].parentId) && rows[i].parentId.value !in RowIds(rows)
    ensures rows[i].id !in Ids(PreOrder(BuildForest(rows)))
  {
    var forest := BuildForest(rows);
    BuildShape(rows);
    RowsAgree(rows);
    assert rows[i].parentId.value !in MapNodes(rows) by {
      MapDomain(rows);
    }
    var orphan := rows[i];
    forall x | x in PreOrder(forest)
      ensures x.id != orphan.id
    {
      assert x.id == orphan.id ==> x.parentId == ToTask(orphan).parentId;
    }
    AbsentId(PreOrder(forest), orphan.id);
  }

  lemma AbsentId(ts: seq<Task>, id: string)
    requires forall x :: x in ts ==> x.id != id
    ensures id !in Ids(ts)
  {
    forall k | 0 <= k < |ts|
      ensures Ids(ts)[k] != id
    {
      assert ts[k] in ts;
    }
  }

  lemma IdAtRow(rows: seq<Row>, i: nat)
    requires i < |rows|
    ensures rows[i].id in RowIds(rows)
  {
    assert RowIds(rows)[i] == rows[i].id;
  }

  // ---------------------------------------------------------------------
  // Saving a reordered tree
  // ---------------------------------------------------------------------

  /**
   * The row `updateTasksOrder` writes for task `t`, the `index`-th child
   * of `parentId` (or the `index`-th root when it is absent): the row saving
   * the task with that parent and that position would write.
   */
  function OrderRow(t: Task, parentId: Option<string>, index: int, userId: string): (r: Row)
    ensures r == SaveRow(t.(parentId := parentId, position := Some(index)), userId)
  {
    Row(
      id := t.id,
      userId := userId,
      title := t.title,
      startDate := t.startDate,
      endDate := t.endDate,
      progress := t.progress,
      taskType := t.kind,
      parentId := NonEmpty(parentId),
      position := Some(index),
      isExpanded := Some(t.isExpanded.GetOr(true)),
      dependencies := Some(t.dependencies))
  }

  /**
   * The rows written for the siblings `ts` under `parentId`, numbered from
   * `index`: each task's row followed by the rows of its children array,
   * which are numbered from 0 under the task's own id.
   */
  function FlattenFrom(ts: seq<Task>, parentId: Option<string>, userId: string, index: int): seq<Row> {
    if ts == [] then []
    else
      var t := ts[0];
      [OrderRow(t, parentId, index, userId)]
        + (if t.children.Children? then FlattenFrom(t.children.list, Some(t.id), userId, 0) else [])
        + FlattenFrom(ts[1..], parentId, userId, index + 1)
  }

  /** The rows `updateTasksOrder` writes for a reordered root list. */
  function FlattenRows(ts: seq<Task>, userId: string): seq<Row> {
    FlattenFrom(ts, None, userId, 0)
  }

  /** One row per node, in pre-order, carrying the node's id, the owner and a defined flag. */
  lemma FlattenRowsNodes(ts: seq<Task>, userId: string)
    ensures |FlattenRows(ts, userId)| == |PreOrder(ts)|
    ensures forall i :: 0 <= i < |PreOrder(ts)| ==>
      FlattenRows(ts, userId)[i].id == PreOrder(ts)[i].id && FlattenRows(ts, userId)[i].userId == userId
      && FlattenRows(ts, userId)[i].isExpanded.Some?
  {
    var p := PreOrder(Reloaded(ts, None, userId, 0));
    var r := FlattenRows(ts, userId);
    FlattenIsSaveAll(ts, None, userId, 0);
    ReloadedIds(ts, None, userId, 0);
    assert |p| == |PreOrder(ts)| by {
      assert |Ids(p)| == |Ids(PreOrder(ts))|;
    }
    forall i | 0 <= i < |PreOrder(ts)|
      ensures r[i].id == PreOrder(ts)[i].id && r[i].userId == userId && r[i].isExpanded.Some?
    {
      assert r[i] == SaveRow(p[i], userId);
      assert Ids(p)[i] == Ids(PreOrder(ts))[i];
    }
  }

  /**
   * The forest as the rows written for it read back: parent ids taken from
   * the tree, positions renumbered among siblings, the expanded flag and
   * the owner filled in, a children array on every node.
   */
  function Reloaded(ts: seq<Task>, parentId: Option<string>, userId: string, index: int): seq<Task> {
    if ts == [] then []
    else
      var t := ts[0];
      var below := if t.children.Children? then Reloaded(t.children.list, Some(t.id), userId, 0) else [];
      [t.(parentId := NonEmpty(parentId), position := Some(index), isExpanded := Some(t.isExpanded.GetOr(true)),
          userId := Some(userId), children := Children(below))]
        + Reloaded(ts[1..], parentId, userId, index + 1)
  }

  /** The rows saving each task of a list would write, in order. */
  function SaveAll(ts: seq<Task>, userId: string): (r: seq<Row>)
    ensures |r| == |ts| && forall i :: 0 <= i < |ts| ==> r[i] == SaveRow(ts[i], userId)
  {
    seq(|ts|, i requires 0 <= i < |ts| => SaveRow(ts[i], userId))
  }

  /**
   * Flattening writes, in pre-order, exactly the rows that saving each task
   * of the reloaded forest one by one would write.
   */
  lemma {:induction false} FlattenIsSaveAll(ts: seq<Task>, parentId: Option<string>, userId: string, index: int)
    ensures FlattenFrom(ts, parentId, userId, index) == SaveAll(PreOrder(Reloaded(ts, parentId, userId, index)), userId)
  {
    if ts != [] {
      var t := ts[0];
      var below := if t.children.Children? then Reloaded(t.children.list, Some(t.id), userId, 0) else [];
      var rest := Reloaded(ts[1..], parentId, userId, index + 1);
      var r := Reloaded(ts, parentId, userId, index);
      var head := r[0];
      assert r == [head] + rest;
      assert PreOrder(r) == [head] + PreOrder(below) + PreOrder(rest) by {
        assert r[1..] == rest;
      }
      var flatBelow := if t.children.Children? then FlattenFrom(t.children.list, Some(t.id), userId, 0) else [];
      var flatRest := FlattenFrom(ts[1..], parentId, userId, index + 1);
      assert FlattenFrom(ts, parentId, userId, index) == [OrderRow(t, parentId, index, userId)] + flatBelow + flatRest;
      assert flatBelow == SaveAll(PreOrder(below), userId) by {
        if t.children.Children? {
          FlattenIsSaveAll(t.children.list, Some(t.id), userId, 0);
        }
      }
      assert flatRest == SaveAll(PreOrder(rest), userId) by {
        FlattenIsSaveAll(ts[1..], parentId, userId, index + 1);
      }
      assert SaveAll([head], userId) == [OrderRow(t, parentId, index, userId)];
      SaveAllAppend([head] + PreOrder(below), PreOrder(rest), userId);
      SaveAllAppend([head], PreOrder(below), userId);
    }
  }

  lemma SaveAllAppend(a: seq<Task>, b: seq<Task>, userId: string)
    ensures SaveAll(a + b, userId) == SaveAll(a, userId) + SaveAll(b, userId)
  {
  }

  // ---------------------------------------------------------------------
  // Reading the written rows back
  // ---------------------------------------------------------------------

  /** A node as a reload returns it for user `userId`. */
  predicate Stored(x: Task, userId: string) {
    x.userId == Some(userId) && x.isExpanded.Some? && NormalParent(x.parentId) && x.children.Children?
  }

  /**
   * Every node of `ts` names `parentId` as its parent and has a children
   * array whose nodes name it in turn.
   */
  predicate Linked(ts: seq<Task>, parentId: Option<string>) {
    ts == [] ||
    (ts[0].parentId == parentId && ts[0].children.Children? &&
     Linked(ts[0].children.list, Some(ts[0].id)) && Linked(ts[1..], parentId))
  }

  /** The pre-order listing of a forest split at its first root. */
  lemma PreOrderParts(ts: seq<Task>)
    requires ts != []
    ensures PreOrder(ts) == [ts[0]] + PreOrder(Kids(ts[0])) + PreOrder(ts[1..])
    ensures Ids(PreOrder(ts)) == [ts[0].id] + Ids(PreOrder(Kids(ts[0]))) + Ids(PreOrder(ts[1..]))
  {
    IdsAppend([ts[0]] + PreOrder(Kids(ts[0])), PreOrder(ts[1..]));
    IdsAppend([ts[0]], PreOrder(Kids(ts[0])));
  }

  /** Reloading keeps every node and its id, in the same order. */
  lemma {:induction false} ReloadedIds(ts: seq<Task>, parentId: Option<string>, userId: string, index: int)
    ensures Ids(PreOrder(Reloaded(ts, parentId, userId, index))) == Ids(PreOrder(ts))
  {
    if ts != [] {
      var t := ts[0];
      var r := Reloaded(ts, parentId, userId, index);
      assert r[1..] == Reloaded(ts[1..], parentId, userId, index + 1);
      PreOrderParts(ts);
      PreOrderParts(r);
      if t.children.Children? {
        ReloadedIds(t.children.list, Some(t.id), userId, 0);
      }
      ReloadedIds(ts[1..], parentId, userId, index + 1);
    }
  }

  /** Every reloaded node has its owner, its expanded flag, a normal parent id and a children array. */
  lemma {:induction false} ReloadedStored(ts: seq<Task>, parentId: Option<string>, userId: string, index: int)
    ensures forall x :: x in PreOrder(Reloaded(ts, parentId, userId, index)) ==> Stored(x, userId)
  {
    if ts != [] {
      var t := ts[0];
      var r := Reloaded(ts, parentId, userId, index);
      assert r[1..] == Reloaded(ts[1..], parentId, userId, index + 1);
      PreOrderParts(r);
      if t.children.Children? {
        ReloadedStored(t.children.list, Some(t.id), userId, 0);
      }
      ReloadedStored(ts[1..], parentId, userId, index + 1);
    }
  }

  /** With non-empty ids, the reloaded forest is linked by parent ids the way it is nested. */
  lemma {:induction false} ReloadedLinked(ts: seq<Task>, parentId: Option<string>, userId: string, index: int)
    requires NormalParent(parentId)
    requires forall x :: x in PreOrder(ts) ==> x.id != ""
    ensures Linked(Reloaded(ts, parentId, userId, index), parentId)
  {
    if ts != [] {
      var t := ts[0];
      var r := Reloaded(ts, parentId, userId, index);
      assert r[1..] == Reloaded(ts[1..], parentId, userId, index + 1);
      PreOrderParts(ts);
      if t.children.Children? {
        ReloadedLinked(t.children.list, Some(t.id), userId, 0);
      }
      ReloadedLinked(ts[1..], parentId, userId, index + 1);
    }
  }

  /** The nodes of a list naming `parentId` as parent, in order. */
  function WithParent(ts: seq<Task>, parentId: Option<string>): seq<Task> {
    if ts == [] then []
    else (if ts[0].parentId == parentId then [ts[0]] else []) + WithParent(ts[1..], parentId)
  }

  lemma {:induction false} WithParentAppend(a: seq<Task>, b: seq<Task>, parentId: Option<string>)
    ensures WithParent(a + b, parentId) == WithParent(a, parentId) + WithParent(b, parentId)
  {
    if a == [] {
      assert a + b == b;
    } else {
      var s := a + b;
      var head := if a[0].parentId == parentId then [a[0]] else [];
      assert s[0] == a[0] && s[1..] == a[1..] + b;
      WithParentAppend(a[1..], b, parentId);
      assert WithParent(s, parentId) == head + WithParent(s[1..], parentId);
      assert WithParent(a, parentId) == head + WithParent(a[1..], parentId);
    }
  }

  /** `parentId` is absent, or names no node of the listing `ids`. */
  predicate Outside(parentId: Option<string>, ids: seq<string>) {
    parentId.None? || parentId.value !in ids
  }

  lemma FilterParts(ts: seq<Task>, parentId: Option<string>)
    requires ts != []
    ensures WithParent(PreOrder(ts), parentId) ==
      WithParent([ts[0]], parentId) + WithParent(PreOrder(Kids(ts[0])), parentId) + WithParent(PreOrder(ts[1..]), parentId)
  {
    PreOrderParts(ts);
    WithParentAppend([ts[0]] + PreOrder(Kids(ts[0])), PreOrder(ts[1..]), parentId);
    WithParentAppend([ts[0]], PreOrder(Kids(ts[0])), parentId);
  }

  /**
   * In a forest linked under `other`, no node names `parentId` when that is
   * neither `other` nor the id of one of its nodes.
   */
  lemma {:induction false} FilterNone(ts: seq<Task>, other: Option<string>, parentId: Option<string>)
    requires Linked(ts, other) && other != parentId
    requires Outside(parentId, Ids(PreOrder(ts)))
    ensures WithParent(PreOrder(ts), parentId) == []
  {
    if ts != [] {
      PreOrderParts(ts);
      FilterParts(ts, parentId);
      FilterNone(ts[0].children.list, Some(ts[0].id), parentId);
      FilterNone(ts[1..], other, parentId);
    }
  }

  /**
   * In a forest linked under `parentId`, the nodes naming `parentId` are
   * exactly its roots, when `parentId` is not the id of one of its nodes.
   */
  lemma {:induction false} FilterRoots(ts: seq<Task>, parentId: Option<string>)
    requires Linked(ts, parentId)
    requires Outside(parentId, Ids(PreOrder(ts)))
    ensures WithParent(PreOrder(ts), parentId) == ts
  {
    if ts != [] {
      PreOrderParts(ts);
      FilterParts(ts, parentId);
      FilterNone(ts[0].children.list, Some(ts[0].id), parentId);
      FilterRoots(ts[1..], parentId);
      assert ts == [ts[0]] + ts[1..];
    }
  }

  /**
   * In a linked forest with unique ids, the nodes naming node `x` as their
   * parent are exactly `x`'s children, in order.
   */
  lemma {:induction false} FilterChildren(ts: seq<Task>, parentId: Option<string>, x: Task)
    requires Linked(ts, parentId) && UniqueIds(ts)
    requires x in PreOrder(ts) && parentId != Some(x.id)
    ensures WithParent(PreOrder(ts), Some(x.id)) == Kids(x)
  {
    var t := ts[0];
    var below, rest := t.children.list, ts[1..];
    PreOrderParts(ts);
    FilterParts(ts, Some(x.id));
    assert WithParent([t], Some(x.id)) == [];
    if x == t {
      assert Outside(Some(x.id), Ids(PreOrder(below))) && Outside(Some(x.id), Ids(PreOrder(rest))) by {
        UniqueParts(ts);
      }
      FilterRoots(below, Some(x.id));
      FilterNone(rest, parentId, Some(x.id));
    } else if x in PreOrder(below) {
      assert Some(t.id) != Some(x.id) && Outside(Some(x.id), Ids(PreOrder(rest))) && UniqueIds(below) by {
        IdOfMember(PreOrder(below), x);
        UniqueParts(ts);
      }
      FilterChildren(below, Some(t.id), x);
      FilterNone(rest, parentId, Some(x.id));
    } else {
      assert x in PreOrder(rest);
      assert Some(t.id) != Some(x.id) && Outside(Some(x.id), Ids(PreOrder(below))) && UniqueIds(rest) by {
        IdOfMember(PreOrder(rest), x);
        UniqueParts(ts);
      }
      FilterNone(below, Some(t.id), Some(x.id));
      FilterChildren(rest, parentId, x);
    }
  }

  lemma IdOfMember(ts: seq<Task>, x: Task)
    requires x in ts
    ensures x.id in Ids(ts)
  {
    var i :| 0 <= i < |ts| && ts[i] == x;
    IdAt(ts, i);
  }

  /** The map entry and the children array the build keeps for node `x` of a forest being read back. */
  predicate Holds(nodes: map<string, Task>, kids: map<string, seq<string>>, x: Task) {
    && x.id in nodes && x.id in kids && x.children.Children?
    && nodes[x.id] == x.(children := Children([]))
    && kids[x.id] == Ids(x.children.list)
  }

  lemma {:induction false} RootsArePreOrder(ts: seq<Task>)
    ensures forall x :: x in ts ==> x in PreOrder(ts)
  {
    if ts != [] {
      PreOrderParts(ts);
      RootsArePreOrder(ts[1..]);
    }
  }

  /**
   * When the map and the children arrays hold a forest with unique ids, off
   * every path that avoids its ids, reading its roots' keys gives the
   * forest back.
   */
  lemma {:induction false} ReadBack(nodes: map<string, Task>, kids: map<string, seq<string>>, ts: seq<Task>, path: seq<string>)
    requires Graph(nodes, kids) && UniqueIds(ts)
    requires forall x :: x in PreOrder(ts) ==> Holds(nodes, kids, x) && x.id !in path
    ensures forall c :: c in Ids(ts) ==> c in nodes
    ensures ReadList(nodes, kids, Ids(ts), path) == ts
  {
    assert forall c :: c in Ids(ts) ==> c in nodes by {
      RootsArePreOrder(ts);
      forall c | c in Ids(ts)
        ensures c in nodes
      {
        var i :| 0 <= i < |ts| && Ids(ts)[i] == c;
        assert ts[i] in ts;
      }
    }
    if ts != [] {
      var t, rest := ts[0], ts[1..];
      assert t in PreOrder(ts) by {
        PreOrderParts(ts);
      }
      var below := t.children.list;
      assert Kids(t) == below;
      UniqueSubforests(ts);
      assert ReadList(nodes, kids, Ids(below), path + [t.id]) == below by {
        forall x | x in PreOrder(below)
          ensures Holds(nodes, kids, x) && x.id !in path + [t.id]
        {
          PreOrderParts(ts);
          IdOfMember(PreOrder(below), x);
          UniqueInKids(ts, x.id);
        }
        ReadBack(nodes, kids, below, path + [t.id]);
      }
      assert ReadList(nodes, kids, Ids(rest), path) == rest by {
        forall x | x in PreOrder(rest)
          ensures Holds(nodes, kids, x) && x.id !in path
        {
          PreOrderParts(ts);
        }
        ReadBack(nodes, kids, rest, path);
      }
      ReadCons(nodes, kids, ts, path);
    }
  }

  /** Reading the first root's key, then the others', once its children and the other roots read back. */
  lemma ReadCons(nodes: map<string, Task>, kids: map<string, seq<string>>, ts: seq<Task>, path: seq<string>)
    requires Graph(nodes, kids) && ts != [] && Holds(nodes, kids, ts[0]) && ts[0].id !in path
    requires forall c :: c in Ids(ts) ==> c in nodes
    requires forall c :: c in Ids(ts[1..]) ==> c in nodes
    requires forall c :: c in Ids(ts[0].children.list) ==> c in nodes
    requires ReadList(nodes, kids, Ids(ts[0].children.list), path + [ts[0].id]) == ts[0].children.list
    requires ReadList(nodes, kids, Ids(ts[1..]), path) == ts[1..]
    ensures ReadList(nodes, kids, Ids(ts), path) == ts
  {
    var t := ts[0];
    assert Ids(ts)[0] == t.id && Ids(ts)[1..] == Ids(ts[1..]);
    assert ReadNode(nodes, kids, t.id, path) == t;
    assert ts == [t] + ts[1..];
  }

  /**
   * Reordering and reloading: building the tree from the rows written for a
   * reordered forest gives back the forest as `Reloaded` describes it, when
   * ids are unique and non-empty. The rows are taken back in the order they
   * were written.
   */
  lemma ReorderThenFetch(ts: seq<Task>, userId: string)
    requires UniqueIds(ts) && forall x :: x in PreOrder(ts) ==> x.id != ""
    ensures BuildForest(FlattenRows(ts, userId)) == Reloaded(ts, None, userId, 0)
  {
    var forest := Reloaded(ts, None, userId, 0);
    var listing := PreOrder(forest);
    var rows := SaveAll(listing, userId);
    assert FlattenRows(ts, userId) == rows by {
      FlattenIsSaveAll(ts, None, userId, 0);
    }
    assert UniqueIds(forest) by {
      ReloadedIds(ts, None, userId, 0);
    }
    assert Linked(forest, None) by {
      ReloadedLinked(ts, None, userId, 0);
    }
    assert forall x :: x in listing ==> Stored(x, userId) by {
      ReloadedStored(ts, None, userId, 0);
    }
    var nodes := MapNodes(rows);
    SavedNodes(listing, userId);
    var kids := ChildMap(Ids(listing), nodes);
    forall x | x in listing
      ensures Holds(nodes, kids, x)
    {
      SavedKids(forest, userId, x);
    }
    SavedRoots(forest, userId);
    ReadBack(nodes, kids, forest, []);
  }

  /** Saved rows of a listing with distinct ids have distinct ids, the listing's. */
  lemma SavedDistinct(listing: seq<Task>, userId: string)
    requires Distinct(Ids(listing))
    ensures RowIds(SaveAll(listing, userId)) == Ids(listing) && DistinctIds(SaveAll(listing, userId))
  {
    DistinctPairwise(Ids(listing));
  }

  /** Loading the saved rows of stored nodes with distinct ids gives each node back, without its subtree. */
  lemma SavedNodes(listing: seq<Task>, userId: string)
    requires Distinct(Ids(listing)) && forall x :: x in listing ==> Stored(x, userId)
    ensures MapKeys(SaveAll(listing, userId)) == Ids(listing)
    ensures forall x :: x in listing ==>
      x.id in MapNodes(SaveAll(listing, userId)) && MapNodes(SaveAll(listing, userId))[x.id] == x.(children := Children([]))
  {
    var rows := SaveAll(listing, userId);
    SavedDistinct(listing, userId);
    MapKeysOfDistinct(rows);
    forall x | x in listing
      ensures x.id in MapNodes(rows) && MapNodes(rows)[x.id] == x.(children := Children([]))
    {
      var i :| 0 <= i < |listing| && listing[i] == x;
      RowsAgree(rows);
      SaveThenLoad(x, userId);
    }
  }

  /** The children array the build gives a saved node of a linked forest lists that node's children. */
  lemma SavedKids(forest: seq<Task>, userId: string, x: Task)
    requires UniqueIds(forest) && Linked(forest, None)
    requires forall y :: y in PreOrder(forest) ==> Stored(y, userId)
    requires x in PreOrder(forest)
    ensures var rows := SaveAll(PreOrder(forest), userId);
      forall k :: k in Ids(PreOrder(forest)) ==> k in MapNodes(rows)
    ensures var rows := SaveAll(PreOrder(forest), userId);
      ChildIds(Ids(PreOrder(forest)), MapNodes(rows), x.id) == Ids(Kids(x))
  {
    var listing := PreOrder(forest);
    var rows := SaveAll(listing, userId);
    SavedDistinct(listing, userId);
    RowsAgree(rows);
    MapDomain(rows);
    FiltersOfRows(rows, MapNodes(rows), x.id);
    ChildRowsOfSaved(listing, userId, x.id);
    FilterChildren(forest, None, x);
  }

  /** The roots the build finds among the saved rows of a linked forest are its roots. */
  lemma SavedRoots(forest: seq<Task>, userId: string)
    requires UniqueIds(forest) && Linked(forest, None)
    requires forall y :: y in PreOrder(forest) ==> Stored(y, userId)
    ensures var rows := SaveAll(PreOrder(forest), userId);
      forall k :: k in Ids(PreOrder(forest)) ==> k in MapNodes(rows)
    ensures var rows := SaveAll(PreOrder(forest), userId);
      RootIds(Ids(PreOrder(forest)), MapNodes(rows)) == Ids(forest)
  {
    var listing := PreOrder(forest);
    var rows := SaveAll(listing, userId);
    SavedDistinct(listing, userId);
    RowsAgree(rows);
    MapDomain(rows);
    FiltersOfRows(rows, MapNodes(rows), "");
    RootRowsOfSaved(listing, userId);
    FilterRoots(forest, None);
  }

  /** The rows saved for a listing of stored nodes name a parent exactly as the nodes do. */
  lemma {:induction false} ChildRowsOfSaved(ts: seq<Task>, userId: string, id: string)
    requires forall x :: x in ts ==> NormalParent(x.parentId)
    ensures ChildRows(SaveAll(ts, userId), id) == Ids(WithParent(ts, Some(id)))
  {
    if ts != [] {
      assert SaveAll(ts, userId)[1..] == SaveAll(ts[1..], userId);
      ChildRowsOfSaved(ts[1..], userId, id);
    }
  }

  lemma {:induction false} RootRowsOfSaved(ts: seq<Task>, userId: string)
    requires forall x :: x in ts ==> NormalParent(x.parentId)
    ensures RootRows(SaveAll(ts, userId)) == Ids(WithParent(ts, None))
  {
    if ts != [] {
      assert SaveAll(ts, userId)[1..] == SaveAll(ts[1..], userId);
      RootRowsOfSaved(ts[1..], userId);
    }
  }

  /** Reloading a reloaded forest changes nothing. */
  lemma {:induction false} ReloadedIdempotent(ts: seq<Task>, parentId: Option<string>, userId: string, index: int)
    ensures Reloaded(Reloaded(ts, parentId, userId, index), parentId, userId, index) == Reloaded(ts, parentId, userId, index)
  {
    if ts != [] {
      var t := ts[0];
      var r := Reloaded(ts, parentId, userId, index);
      assert r[1..] == Reloaded(ts[1..], parentId, userId, index + 1);
      if t.children.Children? {
        ReloadedIdempotent(t.children.list, Some(t.id), userId, 0);
      }
      ReloadedIdempotent(ts[1..], parentId, userId, index + 1);
    }
  }

  /**
   * Saving the order of a forest just fetched after a reorder writes the
   * same rows again: the stored rows are a fixed point of reorder and fetch.
   */
  lemma ReorderIsStable(ts: seq<Task>, userId: string)
    requires UniqueIds(ts) && forall x :: x in PreOrder(ts) ==> x.id != ""
    ensures FlattenRows(BuildForest(FlattenRows(ts, userId)), userId) == FlattenRows(ts, userId)
  {
    ReorderThenFetch(ts, userId);
    FlattenIsSaveAll(ts, None, userId, 0);
    FlattenIsSaveAll(Reloaded(ts, None, userId, 0), None, userId, 0);
    ReloadedIdempotent(ts, None, userId, 0);
  }
}
