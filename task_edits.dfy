/**
 * The page-level edits of the task tree: replacing the edited task,
 * deleting a task with its subtree, and appending a new task.
 */
module TaskEdits {
  import opened TaskModel

  // ---------------------------------------------------------------------
  // Node contents without the subtree
  // ---------------------------------------------------------------------

  /** Child ids with `drop` left out; `None` leaves them all. */
  function Without(ids: seq<string>, drop: Option<string>): (r: seq<string>)
    ensures drop.Some? ==> drop.value !in r
    ensures drop.None? || drop.value !in ids ==> r == ids
  {
    if ids == [] then [] else (if Some(ids[0]) == drop then [] else [ids[0]]) + Without(ids[1..], drop)
  }

  /**
   * A node of a listing without its subtree: its fields with the children
   * array emptied (kept present if it was present), and the ids of its
   * children, in order, `drop` left out. A listing of entries in pre-order
   * fixes the nesting of the forest, not just its nodes.
   */
  datatype Entry = Entry(node: Task, kidIds: seq<string>)

  function Head(t: Task, drop: Option<string>): Entry {
    Entry(t.(children := if t.children.Children? then Children([]) else NoChildren), Without(Ids(Kids(t)), drop))
  }

  /** `Head` of every element. */
  function Heads(s: seq<Task>, drop: Option<string>): (r: seq<Entry>)
    ensures |r| == |s|
  {
    if s == [] then [] else [Head(s[0], drop)] + Heads(s[1..], drop)
  }

  /** Replacing the contents of a present children array by one with the same child ids keeps the head. */
  lemma HeadOfRechild(t: Task, inner: seq<Task>, drop: Option<string>)
    requires t.children.Children? && Without(Ids(inner), drop) == Without(Ids(t.children.list), drop)
    ensures Head(t.(children := Children(inner)), drop) == Head(t, drop)
  {
  }

  lemma {:induction false} HeadsAppend(a: seq<Task>, b: seq<Task>, drop: Option<string>)
    ensures Heads(a + b, drop) == Heads(a, drop) + Heads(b, drop)
    decreases |a|
  {
    if a == [] {
      assert a + b == b;
    } else {
      assert (a + b)[0] == a[0];
      assert (a + b)[1..] == a[1..] + b;
      HeadsAppend(a[1..], b, drop);
    }
  }

  /**
   * Splicing inside the first root's segment: when the new listing differs
   * from the old one only inside the first root's subtree, and there by a
   * stretch replaced with `x`, the whole listing differs by that stretch.
   */
  lemma HeadsSpliceFront(p: seq<Task>, p': seq<Task>, t: Task, t': Task, a: seq<Task>, b: seq<Task>, inner: seq<Task>,
                         x: seq<Entry>, k: nat, i: nat, n: nat, drop: Option<string>)
    requires p == [t] + a + b && p' == [t'] + inner + b && Head(t', drop) == Head(t, drop)
    requires k == i + 1 && 1 <= n && i + n <= |a|
    requires Heads(inner, drop) == Heads(a[..i], drop) + x + Heads(a[i + n..], drop)
    ensures k + n <= |p| && p[k] == a[i]
    ensures Heads(p', drop) == Heads(p[..k], drop) + x + Heads(p[k + n..], drop)
  {
    var u := a[..i];
    var v := a[i + n..];
    assert p[..k] == [t] + u && p[k + n..] == v + b by {
      SliceFront(t, a, b, k, i, n);
    }
    assert Heads(p', drop) == Heads([t], drop) + Heads(inner, drop) + Heads(b, drop) by {
      HeadsAppend([t'] + inner, b, drop);
      HeadsAppend([t'], inner, drop);
      HeadsSingle(t, drop);
      HeadsSingle(t', drop);
    }
    assert Heads(p[..k], drop) == Heads([t], drop) + Heads(u, drop) by {
      HeadsAppend([t], u, drop);
    }
    assert Heads(p[k + n..], drop) == Heads(v, drop) + Heads(b, drop) by {
      HeadsAppend(v, b, drop);
    }
    Regroup(Heads([t], drop), Heads(u, drop), x, Heads(v, drop), Heads(b, drop));
  }

  /** Splicing after a prefix `pre` that the edit leaves alone. */
  lemma HeadsSpliceBack(p: seq<Task>, p': seq<Task>, pre: seq<Task>, b: seq<Task>, rest: seq<Task>, x: seq<Entry>,
                        k: nat, j: nat, n: nat, drop: Option<string>)
    requires p == pre + b && p' == pre + rest && k == |pre| + j && 1 <= n && j + n <= |b|
    requires Heads(rest, drop) == Heads(b[..j], drop) + x + Heads(b[j + n..], drop)
    ensures k + n <= |p| && p[k] == b[j]
    ensures Heads(p', drop) == Heads(p[..k], drop) + x + Heads(p[k + n..], drop)
  {
    var u := b[..j];
    var v := b[j + n..];
    assert p[..k] == pre + u && p[k + n..] == v by {
      SliceBack(pre, b, k, j, n);
    }
    assert Heads(p', drop) == Heads(pre, drop) + Heads(rest, drop) by {
      HeadsAppend(pre, rest, drop);
    }
    assert Heads(p[..k], drop) == Heads(pre, drop) + Heads(u, drop) by {
      HeadsAppend(pre, u, drop);
    }
    Regroup4(Heads(pre, drop), Heads(u, drop), x, Heads(v, drop));
  }

  /** `HeadsSpliceFront` with nothing put in place of the stretch. */
  lemma HeadsCutFront(p: seq<Task>, p': seq<Task>, t: Task, t': Task, a: seq<Task>, b: seq<Task>, inner: seq<Task>,
                      k: nat, i: nat, n: nat, drop: Option<string>)
    requires p == [t] + a + b && p' == [t'] + inner + b && Head(t', drop) == Head(t, drop)
    requires k == i + 1 && 1 <= n && i + n <= |a|
    requires Heads(inner, drop) == Heads(a[..i], drop) + Heads(a[i + n..], drop)
    ensures k + n <= |p| && p[k] == a[i]
    ensures Heads(p', drop) == Heads(p[..k], drop) + Heads(p[k + n..], drop)
  {
    EmptyMiddle(Heads(a[..i], drop), Heads(a[i + n..], drop));
    HeadsSpliceFront(p, p', t, t', a, b, inner, [], k, i, n, drop);
    EmptyMiddle(Heads(p[..k], drop), Heads(p[k + n..], drop));
  }

  /** `HeadsSpliceBack` with nothing put in place of the stretch. */
  lemma HeadsCutBack(p: seq<Task>, p': seq<Task>, pre: seq<Task>, b: seq<Task>, rest: seq<Task>,
                     k: nat, j: nat, n: nat, drop: Option<string>)
    requires p == pre + b && p' == pre + rest && k == |pre| + j && 1 <= n && j + n <= |b|
    requires Heads(rest, drop) == Heads(b[..j], drop) + Heads(b[j + n..], drop)
    ensures k + n <= |p| && p[k] == b[j]
    ensures Heads(p', drop) == Heads(p[..k], drop) + Heads(p[k + n..], drop)
  {
    EmptyMiddle(Heads(b[..j], drop), Heads(b[j + n..], drop));
    HeadsSpliceBack(p, p', pre, b, rest, [], k, j, n, drop);
    EmptyMiddle(Heads(p[..k], drop), Heads(p[k + n..], drop));
  }

  lemma HeadsSingle(t: Task, drop: Option<string>)
    ensures Heads([t], drop) == [Head(t, drop)]
  {
  }

  /** Where the slices of `[t] + a + b` around a stretch of `a` fall. */
  lemma SliceFront<T>(t: T, a: seq<T>, b: seq<T>, k: nat, i: nat, n: nat)
    requires k == i + 1 && 1 <= n && i + n <= |a|
    ensures var p := [t] + a + b;
            k + n <= |p| && p[k] == a[i] && p[..k] == [t] + a[..i] && p[k + n..] == a[i + n..] + b
  {
  }

  /** Where the slices of `pre + b` around a stretch of `b` fall. */
  lemma SliceBack<T>(pre: seq<T>, b: seq<T>, k: nat, j: nat, n: nat)
    requires k == |pre| + j && 1 <= n && j + n <= |b|
    ensures var p := pre + b;
            k + n <= |p| && p[k] == b[j] && p[..k] == pre + b[..j] && p[k + n..] == b[j + n..]
  {
  }

  /** Re-bracketing a four-part concatenation. */
  lemma Regroup4<T>(h: seq<T>, u: seq<T>, x: seq<T>, v: seq<T>)
    ensures h + (u + x + v) == (h + u) + x + v
  {
  }

  /** An empty middle part can be dropped. */
  lemma EmptyMiddle<T>(u: seq<T>, v: seq<T>)
    ensures u + [] + v == u + v
  {
  }

  /** Re-bracketing a five-part concatenation. */
  lemma Regroup<T>(h: seq<T>, u: seq<T>, x: seq<T>, v: seq<T>, b: seq<T>)
    ensures h + (u + x + v) + b == (h + u) + x + (v + b)
  {
  }

  /** Splitting a listing at the boundary between the first root's segment and the rest. */
  lemma PreOrderCons(ts: seq<Task>)
    requires ts != []
    ensures PreOrder(ts) == PreOrder([ts[0]]) + PreOrder(ts[1..])
  {
    PreOrderAppend([ts[0]], ts[1..]);
    assert [ts[0]] + ts[1..] == ts;
  }

  lemma NotInSuffix(ts: seq<Task>, taskId: string)
    requires ts != [] && taskId !in Ids(PreOrder(ts))
    ensures taskId !in Ids(PreOrder(ts[1..])) && taskId !in Ids(PreOrder(Kids(ts[0]))) && ts[0].id != taskId
  {
    PreOrderCons(ts);
    PreOrderSingle(ts[0]);
    IdsAppend([ts[0]] + PreOrder(Kids(ts[0])), PreOrder(ts[1..]));
    IdsAppend([ts[0]], PreOrder(Kids(ts[0])));
  }

  // ---------------------------------------------------------------------
  // Update
  // ---------------------------------------------------------------------

  /**
   * `updateTaskInTree`: a node with the edited task's id is replaced by the
   * edited task, children included, and not searched further; any other
   * node with a children array has that array updated in turn.
   */
  function UpdateTaskInTree(ts: seq<Task>, updated: Task): (r: seq<Task>)
    ensures |r| == |ts|
    ensures Ids(r) == Ids(ts)
  {
    if ts == [] then []
    else
      var t := ts[0];
      var t' :=
        if t.id == updated.id then updated
        else if t.children.Children? then t.(children := Children(UpdateTaskInTree(t.children.list, updated)))
        else t;
      [t'] + UpdateTaskInTree(ts[1..], updated)
  }

  /** An edited task whose id no node carries changes nothing. */
  lemma {:induction false} UpdateAbsent(ts: seq<Task>, updated: Task)
    requires updated.id !in Ids(PreOrder(ts))
    ensures UpdateTaskInTree(ts, updated) == ts
  {
    if ts != [] {
      NotInSuffix(ts, updated.id);
      UpdateAbsent(ts[1..], updated);
      if ts[0].children.Children? {
        UpdateAbsent(ts[0].children.list, updated);
      }
      assert ts == [ts[0]] + ts[1..];
    }
  }

  /** Saving the same edit twice is the same as saving it once. */
  lemma {:induction false} UpdateIdempotent(ts: seq<Task>, updated: Task)
    ensures UpdateTaskInTree(UpdateTaskInTree(ts, updated), updated) == UpdateTaskInTree(ts, updated)
  {
    if ts != [] {
      var once := UpdateTaskInTree(ts, updated);
      var twice := UpdateTaskInTree(once, updated);
      assert once[1..] == UpdateTaskInTree(ts[1..], updated);
      assert twice[1..] == UpdateTaskInTree(once[1..], updated);
      UpdateIdempotent(ts[1..], updated);
      if ts[0].id != updated.id && ts[0].children.Children? {
        UpdateIdempotent(ts[0].children.list, updated);
      }
      assert twice[0] == once[0];
      assert twice == [twice[0]] + twice[1..];
      assert once == [once[0]] + once[1..];
    }
  }

  /**
   * With unique ids, when the node at listing index `k` carries the edited
   * task's id, the new listing is the old one with that node's segment (the
   * node and its whole subtree, `n` entries) replaced by the edited task's
   * segment; every other entry keeps all its fields except the contents of
   * its children.
   */
  lemma {:induction false} UpdateReplacesSegment(ts: seq<Task>, updated: Task, k: nat, n: nat)
    requires UniqueIds(ts)
    requires k < |PreOrder(ts)| && PreOrder(ts)[k].id == updated.id && n == |PreOrder([PreOrder(ts)[k]])|
    ensures k + n <= |PreOrder(ts)|
    ensures Heads(PreOrder(UpdateTaskInTree(ts, updated)), None)
            == Heads(PreOrder(ts)[..k], None) + Heads(PreOrder([updated]), None) + Heads(PreOrder(ts)[k + n..], None)
    decreases ts, 2
  {
    PreOrderUnfold(ts);
    if k == 0 {
      UpdateAtRoot(ts, updated, n);
    } else if k < 1 + |PreOrder(Kids(ts[0]))| {
      assert Kids(ts[0]) == ts[0].children.list;
      UpdateInKids(ts, updated, k, n);
    } else {
      UpdateInRest(ts, updated, k, n);
    }
  }

  lemma {:induction false} UpdateInKids(ts: seq<Task>, updated: Task, k: nat, n: nat)
    requires UniqueIds(ts) && ts != [] && ts[0].children.Children? && 1 <= k < 1 + |PreOrder(ts[0].children.list)|
    requires PreOrder(ts)[k].id == updated.id && n == |PreOrder([PreOrder(ts)[k]])|
    ensures k + n <= |PreOrder(ts)|
    ensures Heads(PreOrder(UpdateTaskInTree(ts, updated)), None)
            == Heads(PreOrder(ts)[..k], None) + Heads(PreOrder([updated]), None) + Heads(PreOrder(ts)[k + n..], None)
    decreases ts, 0
  {
    var t := ts[0];
    var a := PreOrder(t.children.list);
    var b := PreOrder(ts[1..]);
    var i := k - 1;
    IndexInKids(ts, k);
    var inner := UpdateTaskInTree(t.children.list, updated);
    var x := Heads(PreOrder([updated]), None);
    assert UniqueIds(t.children.list) by {
      UniqueSubforests(ts);
    }
    assert 1 <= n by {
      PreOrderNonEmpty(a[i]);
    }
    UpdateReplacesSegment(t.children.list, updated, i, n);
    assert PreOrder(UpdateTaskInTree(ts, updated)) == [t.(children := Children(inner))] + PreOrder(inner) + b by {
      UniqueSubforests(ts);
      IdAt(a, i);
      assert Kids(t) == t.children.list;
      UniqueInKids(ts, updated.id);
      UpdateAbsent(ts[1..], updated);
      UpdateShapeKids(ts, updated);
    }
    assert PreOrder(ts) == [t] + a + b by {
      PreOrderUnfold(ts);
    }
    HeadOfRechild(t, inner, None);
    HeadsSpliceFront(PreOrder(ts), PreOrder(UpdateTaskInTree(ts, updated)), t, t.(children := Children(inner)),
                     a, b, PreOrder(inner), x, k, i, n, None);
  }

  lemma {:induction false} UpdateInRest(ts: seq<Task>, updated: Task, k: nat, n: nat)
    requires UniqueIds(ts) && ts != [] && 1 + |PreOrder(Kids(ts[0]))| <= k < |PreOrder(ts)|
    requires PreOrder(ts)[k].id == updated.id && n == |PreOrder([PreOrder(ts)[k]])|
    ensures k + n <= |PreOrder(ts)|
    ensures Heads(PreOrder(UpdateTaskInTree(ts, updated)), None)
            == Heads(PreOrder(ts)[..k], None) + Heads(PreOrder([updated]), None) + Heads(PreOrder(ts)[k + n..], None)
    decreases ts, 1
  {
    var pre := [ts[0]] + PreOrder(Kids(ts[0]));
    var b := PreOrder(ts[1..]);
    var rest := PreOrder(UpdateTaskInTree(ts[1..], updated));
    var j := k - |pre|;
    UpdateRestParts(ts, updated, k, j, n);
    HeadsSpliceBack(PreOrder(ts), PreOrder(UpdateTaskInTree(ts, updated)), pre, b, rest,
                    Heads(PreOrder([updated]), None), k, j, n, None);
  }

  /** The listings before and after an edit made after the first root's segment, split at that segment. */
  lemma {:induction false} UpdateRestParts(ts: seq<Task>, updated: Task, k: nat, j: nat, n: nat)
    requires UniqueIds(ts) && ts != [] && k == 1 + |PreOrder(Kids(ts[0]))| + j && k < |PreOrder(ts)|
    requires PreOrder(ts)[k].id == updated.id && n == |PreOrder([PreOrder(ts)[k]])|
    ensures PreOrder(ts) == ([ts[0]] + PreOrder(Kids(ts[0]))) + PreOrder(ts[1..])
    ensures PreOrder(UpdateTaskInTree(ts, updated)) == ([ts[0]] + PreOrder(Kids(ts[0]))) + PreOrder(UpdateTaskInTree(ts[1..], updated))
    ensures 1 <= n && j + n <= |PreOrder(ts[1..])|
    ensures Heads(PreOrder(UpdateTaskInTree(ts[1..], updated)), None)
            == Heads(PreOrder(ts[1..])[..j], None) + Heads(PreOrder([updated]), None) + Heads(PreOrder(ts[1..])[j + n..], None)
    decreases ts, 0
  {
    var t := ts[0];
    var a := PreOrder(Kids(t));
    var b := PreOrder(ts[1..]);
    IndexInRest(ts, k);
    var rest := UpdateTaskInTree(ts[1..], updated);
    var x := Heads(PreOrder([updated]), None);
    assert Heads(PreOrder(rest), None) == Heads(b[..j], None) + x + Heads(b[j + n..], None) && j + n <= |b| && 1 <= n by {
      UniqueSubforests(ts);
      PreOrderNonEmpty(b[j]);
      UpdateReplacesSegment(ts[1..], updated, j, n);
    }
    assert PreOrder(UpdateTaskInTree(ts, updated)) == ([t] + a) + PreOrder(rest) by {
      UniqueSubforests(ts);
      IdAt(b, j);
      UniqueInRest(ts, updated.id);
      UpdateAbsent(Kids(t), updated);
      UpdateShapeRest(ts, updated);
    }
    assert PreOrder(ts) == ([t] + a) + b by {
      PreOrderUnfold(ts);
    }
  }

  lemma UpdateAtRoot(ts: seq<Task>, updated: Task, n: nat)
    requires UniqueIds(ts) && ts != [] && ts[0].id == updated.id && n == |PreOrder([ts[0]])|
    ensures n <= |PreOrder(ts)|
    ensures Heads(PreOrder(UpdateTaskInTree(ts, updated)), None)
            == Heads(PreOrder(ts)[..0], None) + Heads(PreOrder([updated]), None) + Heads(PreOrder(ts)[n..], None)
  {
    var p := PreOrder(ts);
    UniqueParts(ts);
    PreOrderCons(ts);
    var r := UpdateTaskInTree(ts, updated);
    UpdateAbsent(ts[1..], updated);
    assert r == [updated] + ts[1..];
    PreOrderCons(r);
    assert r[1..] == ts[1..];
    assert p[n..] == PreOrder(ts[1..]);
    HeadsAppend(PreOrder([updated]), PreOrder(ts[1..]), None);
  }

  /** The edit is made inside the first root's subtree. */
  lemma UpdateShapeKids(ts: seq<Task>, updated: Task)
    requires ts != [] && ts[0].id != updated.id && ts[0].children.Children?
    requires UpdateTaskInTree(ts[1..], updated) == ts[1..]
    ensures var inner := UpdateTaskInTree(ts[0].children.list, updated);
            PreOrder(UpdateTaskInTree(ts, updated)) == [ts[0].(children := Children(inner))] + PreOrder(inner) + PreOrder(ts[1..])
  {
    var r := UpdateTaskInTree(ts, updated);
    assert r[1..] == ts[1..];
    PreOrderUnfold(r);
  }

  /** The edit is made after the first root's segment. */
  lemma UpdateShapeRest(ts: seq<Task>, updated: Task)
    requires ts != [] && ts[0].id != updated.id
    requires UpdateTaskInTree(Kids(ts[0]), updated) == Kids(ts[0])
    ensures PreOrder(UpdateTaskInTree(ts, updated)) == ([ts[0]] + PreOrder(Kids(ts[0]))) + PreOrder(UpdateTaskInTree(ts[1..], updated))
  {
    var r := UpdateTaskInTree(ts, updated);
    assert r[0] == ts[0];
    assert r[1..] == UpdateTaskInTree(ts[1..], updated);
    PreOrderUnfold(r);
  }

  // ---------------------------------------------------------------------
  // Delete
  // ---------------------------------------------------------------------

  /**
   * `deleteTaskFromTree`: the siblings without the id are kept (the
   * `filter`), and each kept node with a children array has that array
   * cleaned in turn (the `map`); both steps are taken in one pass here.
   */
  function DeleteTaskFromTree(ts: seq<Task>, taskId: string): (r: seq<Task>)
    ensures |r| <= |ts|
  {
    if ts == [] then []
    else
      var rest := DeleteTaskFromTree(ts[1..], taskId);
      var t := ts[0];
      if t.id == taskId then rest
      else if t.children.Children? then [t.(children := Children(DeleteTaskFromTree(t.children.list, taskId)))] + rest
      else [t] + rest
  }

  /** The kept roots are the roots without the id, in their order. */
  lemma {:induction false} DeleteRootIds(ts: seq<Task>, taskId: string)
    ensures Ids(DeleteTaskFromTree(ts, taskId)) == Without(Ids(ts), Some(taskId))
  {
    if ts != [] {
      var t, r := ts[0], DeleteTaskFromTree(ts, taskId);
      var rest := DeleteTaskFromTree(ts[1..], taskId);
      DeleteRootIds(ts[1..], taskId);
      assert Ids(ts)[0] == t.id && Ids(ts)[1..] == Ids(ts[1..]);
      if t.id != taskId {
        assert r[0].id == t.id && r[1..] == rest;
        assert Ids(r) == [t.id] + Ids(rest);
      }
    }
  }

  /** After a delete, no node anywhere carries the deleted id. */
  lemma {:induction false} DeleteRemovesId(ts: seq<Task>, taskId: string)
    ensures taskId !in Ids(PreOrder(DeleteTaskFromTree(ts, taskId)))
  {
    if ts != [] {
      var r := DeleteTaskFromTree(ts, taskId);
      var rest := DeleteTaskFromTree(ts[1..], taskId);
      DeleteRemovesId(ts[1..], taskId);
      if ts[0].id != taskId {
        var t' := r[0];
        assert r == [t'] + rest;
        if ts[0].children.Children? {
          DeleteRemovesId(ts[0].children.list, taskId);
        }
        PreOrderCons(r);
        PreOrderSingle(t');
        assert r[1..] == rest;
        IdsAppend([t'] + PreOrder(Kids(t')), PreOrder(rest));
        IdsAppend([t'], PreOrder(Kids(t')));
      }
    }
  }

  /** Deleting an id that no node carries changes nothing. */
  lemma {:induction false} DeleteAbsent(ts: seq<Task>, taskId: string)
    requires taskId !in Ids(PreOrder(ts))
    ensures DeleteTaskFromTree(ts, taskId) == ts
  {
    if ts != [] {
      NotInSuffix(ts, taskId);
      DeleteAbsent(ts[1..], taskId);
      if ts[0].children.Children? {
        DeleteAbsent(ts[0].children.list, taskId);
      }
      assert ts == [ts[0]] + ts[1..];
    }
  }

  /** Deleting the same id twice is the same as deleting it once. */
  lemma DeleteIdempotent(ts: seq<Task>, taskId: string)
    ensures DeleteTaskFromTree(DeleteTaskFromTree(ts, taskId), taskId) == DeleteTaskFromTree(ts, taskId)
  {
    DeleteRemovesId(ts, taskId);
    DeleteAbsent(DeleteTaskFromTree(ts, taskId), taskId);
  }

  /**
   * With unique ids, deleting the id of the node at listing index `k` cuts
   * that node's segment (the node and its whole subtree, `n` entries) out of
   * the listing and keeps every other entry, in order, with all its fields
   * except the contents of its children.
   */
  lemma {:induction false} DeleteCutsSegment(ts: seq<Task>, taskId: string, k: nat, n: nat)
    requires UniqueIds(ts)
    requires k < |PreOrder(ts)| && PreOrder(ts)[k].id == taskId && n == |PreOrder([PreOrder(ts)[k]])|
    ensures k + n <= |PreOrder(ts)|
    ensures Heads(PreOrder(DeleteTaskFromTree(ts, taskId)), Some(taskId)) == Heads(PreOrder(ts)[..k], Some(taskId)) + Heads(PreOrder(ts)[k + n..], Some(taskId))
    ensures Heads(PreOrder(DeleteTaskFromTree(ts, taskId)), None) == Heads(PreOrder(ts)[..k], Some(taskId)) + Heads(PreOrder(ts)[k + n..], Some(taskId))
    decreases ts, 2
  {
    PreOrderUnfold(ts);
    if k == 0 {
      DeleteAtRoot(ts, taskId, n);
    } else if k < 1 + |PreOrder(Kids(ts[0]))| {
      assert Kids(ts[0]) == ts[0].children.list;
      DeleteInKids(ts, taskId, k, n);
    } else {
      DeleteInRest(ts, taskId, k, n);
    }
    DeleteRemovesId(ts, taskId);
    HeadsAbsent(DeleteTaskFromTree(ts, taskId), taskId);
  }

  /** Where no node carries `taskId`, leaving it out of the child ids changes no entry. */
  lemma {:induction false} HeadsAbsent(ts: seq<Task>, taskId: string)
    requires taskId !in Ids(PreOrder(ts))
    ensures Heads(PreOrder(ts), Some(taskId)) == Heads(PreOrder(ts), None)
    decreases ts
  {
    if ts != [] {
      var t := ts[0];
      NotInSuffix(ts, taskId);
      if t.children.Children? {
        HeadsAbsent(t.children.list, taskId);
      }
      HeadsAbsent(ts[1..], taskId);
      RootIdsListed(Kids(t));
      assert Head(t, Some(taskId)) == Head(t, None);
      PreOrderUnfold(ts);
      HeadsAppend([t] + PreOrder(Kids(t)), PreOrder(ts[1..]), Some(taskId));
      HeadsAppend([t], PreOrder(Kids(t)), Some(taskId));
      HeadsAppend([t] + PreOrder(Kids(t)), PreOrder(ts[1..]), None);
      HeadsAppend([t], PreOrder(Kids(t)), None);
    }
  }

  /** The roots' ids are among the listing's ids. */
  lemma {:induction false} RootIdsListed(ts: seq<Task>)
    ensures forall c :: c in Ids(ts) ==> c in Ids(PreOrder(ts))
  {
    if ts != [] {
      RootIdsListed(ts[1..]);
      PreOrderUnfold(ts);
      IdsAppend([ts[0]] + PreOrder(Kids(ts[0])), PreOrder(ts[1..]));
      IdsAppend([ts[0]], PreOrder(Kids(ts[0])));
      assert Ids(ts) == [ts[0].id] + Ids(ts[1..]);
    }
  }

  lemma {:induction false} DeleteInKids(ts: seq<Task>, taskId: string, k: nat, n: nat)
    requires UniqueIds(ts) && ts != [] && ts[0].children.Children? && 1 <= k < 1 + |PreOrder(ts[0].children.list)|
    requires PreOrder(ts)[k].id == taskId && n == |PreOrder([PreOrder(ts)[k]])|
    ensures k + n <= |PreOrder(ts)|
    ensures Heads(PreOrder(DeleteTaskFromTree(ts, taskId)), Some(taskId)) == Heads(PreOrder(ts)[..k], Some(taskId)) + Heads(PreOrder(ts)[k + n..], Some(taskId))
    decreases ts, 0
  {
    var t := ts[0];
    var a := PreOrder(t.children.list);
    var b := PreOrder(ts[1..]);
    var i := k - 1;
    IndexInKids(ts, k);
    var inner := DeleteTaskFromTree(t.children.list, taskId);
    assert UniqueIds(t.children.list) by {
      UniqueSubforests(ts);
    }
    assert 1 <= n by {
      PreOrderNonEmpty(a[i]);
    }
    DeleteCutsSegment(t.children.list, taskId, i, n);
    assert PreOrder(DeleteTaskFromTree(ts, taskId)) == [t.(children := Children(inner))] + PreOrder(inner) + b by {
      UniqueSubforests(ts);
      IdAt(a, i);
      assert Kids(t) == t.children.list;
      UniqueInKids(ts, taskId);
      DeleteAbsent(ts[1..], taskId);
      DeleteShapeKids(ts, taskId);
    }
    assert PreOrder(ts) == [t] + a + b by {
      PreOrderUnfold(ts);
    }
    assert Without(Ids(inner), Some(taskId)) == Without(Ids(t.children.list), Some(taskId)) by {
      DeleteRootIds(t.children.list, taskId);
    }
    HeadOfRechild(t, inner, Some(taskId));
    HeadsCutFront(PreOrder(ts), PreOrder(DeleteTaskFromTree(ts, taskId)), t, t.(children := Children(inner)),
                  a, b, PreOrder(inner), k, i, n, Some(taskId));
  }

  lemma {:induction false} DeleteInRest(ts: seq<Task>, taskId: string, k: nat, n: nat)
    requires UniqueIds(ts) && ts != [] && 1 + |PreOrder(Kids(ts[0]))| <= k < |PreOrder(ts)|
    requires PreOrder(ts)[k].id == taskId && n == |PreOrder([PreOrder(ts)[k]])|
    ensures k + n <= |PreOrder(ts)|
    ensures Heads(PreOrder(DeleteTaskFromTree(ts, taskId)), Some(taskId)) == Heads(PreOrder(ts)[..k], Some(taskId)) + Heads(PreOrder(ts)[k + n..], Some(taskId))
    decreases ts, 1
  {
    var pre := [ts[0]] + PreOrder(Kids(ts[0]));
    var j := k - |pre|;
    DeleteRestParts(ts, taskId, k, j, n);
    HeadsCutBack(PreOrder(ts), PreOrder(DeleteTaskFromTree(ts, taskId)), pre, PreOrder(ts[1..]),
                 PreOrder(DeleteTaskFromTree(ts[1..], taskId)), k, j, n, Some(taskId));
  }

  /** The listings before and after a removal made after the first root's segment, split at that segment. */
  lemma {:induction false} DeleteRestParts(ts: seq<Task>, taskId: string, k: nat, j: nat, n: nat)
    requires UniqueIds(ts) && ts != [] && k == 1 + |PreOrder(Kids(ts[0]))| + j && k < |PreOrder(ts)|
    requires PreOrder(ts)[k].id == taskId && n == |PreOrder([PreOrder(ts)[k]])|
    ensures PreOrder(ts) == ([ts[0]] + PreOrder(Kids(ts[0]))) + PreOrder(ts[1..])
    ensures PreOrder(DeleteTaskFromTree(ts, taskId)) == ([ts[0]] + PreOrder(Kids(ts[0]))) + PreOrder(DeleteTaskFromTree(ts[1..], taskId))
    ensures 1 <= n && j + n <= |PreOrder(ts[1..])|
    ensures Heads(PreOrder(DeleteTaskFromTree(ts[1..], taskId)), Some(taskId))
            == Heads(PreOrder(ts[1..])[..j], Some(taskId)) + Heads(PreOrder(ts[1..])[j + n..], Some(taskId))
    decreases ts, 0
  {
    var t := ts[0];
    var a := PreOrder(Kids(t));
    var b := PreOrder(ts[1..]);
    IndexInRest(ts, k);
    var rest := DeleteTaskFromTree(ts[1..], taskId);
    assert Heads(PreOrder(rest), Some(taskId)) == Heads(b[..j], Some(taskId)) + Heads(b[j + n..], Some(taskId)) && j + n <= |b| && 1 <= n by {
      UniqueSubforests(ts);
      PreOrderNonEmpty(b[j]);
      DeleteCutsSegment(ts[1..], taskId, j, n);
    }
    assert PreOrder(DeleteTaskFromTree(ts, taskId)) == ([t] + a) + PreOrder(rest) by {
      UniqueSubforests(ts);
      IdAt(b, j);
      UniqueInRest(ts, taskId);
      DeleteAbsent(Kids(t), taskId);
      DeleteShapeRest(ts, taskId);
    }
    assert PreOrder(ts) == ([t] + a) + b by {
      PreOrderUnfold(ts);
    }
  }

  lemma DeleteAtRoot(ts: seq<Task>, taskId: string, n: nat)
    requires UniqueIds(ts) && ts != [] && ts[0].id == taskId && n == |PreOrder([ts[0]])|
    ensures n <= |PreOrder(ts)|
    ensures Heads(PreOrder(DeleteTaskFromTree(ts, taskId)), Some(taskId)) == Heads(PreOrder(ts)[..0], Some(taskId)) + Heads(PreOrder(ts)[n..], Some(taskId))
  {
    var p := PreOrder(ts);
    UniqueParts(ts);
    PreOrderCons(ts);
    DeleteAbsent(ts[1..], taskId);
    assert DeleteTaskFromTree(ts, taskId) == ts[1..];
    assert p[n..] == PreOrder(ts[1..]);
  }

  /** The delete happens inside the first root's subtree. */
  lemma DeleteShapeKids(ts: seq<Task>, taskId: string)
    requires ts != [] && ts[0].id != taskId && ts[0].children.Children?
    requires DeleteTaskFromTree(ts[1..], taskId) == ts[1..]
    ensures var inner := DeleteTaskFromTree(ts[0].children.list, taskId);
            PreOrder(DeleteTaskFromTree(ts, taskId)) == [ts[0].(children := Children(inner))] + PreOrder(inner) + PreOrder(ts[1..])
  {
    var r := DeleteTaskFromTree(ts, taskId);
    assert r[1..] == ts[1..];
    PreOrderUnfold(r);
  }

  /** The delete happens after the first root's segment. */
  lemma DeleteShapeRest(ts: seq<Task>, taskId: string)
    requires ts != [] && ts[0].id != taskId
    requires DeleteTaskFromTree(Kids(ts[0]), taskId) == Kids(ts[0])
    ensures PreOrder(DeleteTaskFromTree(ts, taskId)) == ([ts[0]] + PreOrder(Kids(ts[0]))) + PreOrder(DeleteTaskFromTree(ts[1..], taskId))
  {
    var r := DeleteTaskFromTree(ts, taskId);
    assert r[0] == ts[0];
    assert r[1..] == DeleteTaskFromTree(ts[1..], taskId);
    PreOrderUnfold(r);
  }

  // ---------------------------------------------------------------------
  // Add
  // ---------------------------------------------------------------------

  /** Milliseconds in a day. */
  const MsPerDay := 24 * 60 * 60 * 1000

  /** The day number of a timestamp in milliseconds since 1970-01-01. */
  function DayOf(ms: int): int {
    ms / MsPerDay
  }

  /** The number a string of decimal digits spells, most significant digit first. */
  function DecimalValue(s: string): nat
    requires forall i :: 0 <= i < |s| ==> '0' <= s[i] <= '9'
  {
    if s == [] then 0 else 10 * DecimalValue(s[..|s| - 1]) + (s[|s| - 1] as int - '0' as int)
  }

  /**
   * The decimal digits of a natural number, as template-literal
   * interpolation prints it: no leading zero, and spelling `n`.
   */
  function NatToString(n: nat): (s: string)
    ensures |s| >= 1 && forall i :: 0 <= i < |s| ==> '0' <= s[i] <= '9'
    ensures n < 10 <==> |s| == 1
    ensures |s| > 1 ==> s[0] != '0'
    ensures DecimalValue(s) == n
  {
    var digit := ('0' as int + n % 10) as char;
    if n < 10 then [digit]
    else
      var s := NatToString(n / 10) + [digit];
      assert s[..|s| - 1] == NatToString(n / 10);
      s
  }

  /** Different clock readings print differently, so each click gets its own id. */
  lemma NatToStringInjective(a: nat, b: nat)
    requires NatToString(a) == NatToString(b)
    ensures a == b
  {
  }

  /** The task the add button creates at time `nowMs`. */
  function NewTask(nowMs: nat): Task {
    Task(
      "new-" + NatToString(nowMs), "Nueva tarea",
      DayOf(nowMs), DayOf(nowMs + 7 * MsPerDay),
      0, [], None, NoChildren, None, None, None, None)
  }

  /**
   * `handleAddTask`: the existing roots unchanged, then one new root task
   * that starts today, ends seven days later, has no progress and no
   * dependencies, and is identified by the time of the click.
   */
  function HandleAddTask(tasks: seq<Task>, nowMs: nat): (r: seq<Task>)
    ensures |r| == |tasks| + 1 && r[..|tasks|] == tasks
    ensures var t := r[|tasks|];
      t.id == "new-" + NatToString(nowMs) &&
      t.progress == 0 && t.dependencies == [] &&
      t.startDate == DayOf(nowMs) && t.endDate == t.startDate + 7 &&
      t.parentId == None && t.children == NoChildren
    ensures Size(r) == Size(tasks) + 1
  {
    AppendOneSize(tasks, NewTask(nowMs));
    WeekLater(nowMs);
    tasks + [NewTask(nowMs)]
  }

  /** Seven days' worth of milliseconds later is seven day numbers later. */
  lemma WeekLater(ms: int)
    ensures DayOf(ms + 7 * MsPerDay) == DayOf(ms) + 7
  {
    var q, r := ms / MsPerDay, ms % MsPerDay;
    assert ms + 7 * MsPerDay == (q + 7) * MsPerDay + r;
  }

  /** Appending a childless root adds exactly one node. */
  lemma AppendOneSize(tasks: seq<Task>, t: Task)
    requires t.children == NoChildren
    ensures Size(tasks + [t]) == Size(tasks) + 1
  {
    PreOrderAppend(tasks, [t]);
    PreOrderLength(tasks + [t]);
    PreOrderLength(tasks);
    PreOrderSingle(t);
  }

  /** Deleting a freshly added task, whose id was new, restores the tree. */
  lemma AddThenDelete(tasks: seq<Task>, nowMs: nat)
    requires "new-" + NatToString(nowMs) !in Ids(PreOrder(tasks))
    ensures DeleteTaskFromTree(HandleAddTask(tasks, nowMs), "new-" + NatToString(nowMs)) == tasks
  {
    var id := "new-" + NatToString(nowMs);
    DeleteAppend(tasks, [NewTask(nowMs)], id);
    DeleteAbsent(tasks, id);
    assert DeleteTaskFromTree([NewTask(nowMs)], id) == [];
    assert tasks + [NewTask(nowMs)] == HandleAddTask(tasks, nowMs);
  }

  /** One step of the delete: the first root, kept or dropped, then the rest. */
  lemma DeleteFirst(s: seq<Task>, taskId: string)
    requires s != []
    ensures DeleteTaskFromTree(s, taskId)
            == (if s[0].id == taskId then []
                else if s[0].children.Children? then [s[0].(children := Children(DeleteTaskFromTree(s[0].children.list, taskId)))]
                else [s[0]])
               + DeleteTaskFromTree(s[1..], taskId)
  {
  }

  lemma {:induction false} DeleteAppend(a: seq<Task>, b: seq<Task>, taskId: string)
    ensures DeleteTaskFromTree(a + b, taskId) == DeleteTaskFromTree(a, taskId) + DeleteTaskFromTree(b, taskId)
    decreases |a|
  {
    if a == [] {
      assert a + b == b;
    } else {
      assert (a + b)[0] == a[0] && (a + b)[1..] == a[1..] + b;
      DeleteAppend(a[1..], b, taskId);
      DeleteFirst(a + b, taskId);
      DeleteFirst(a, taskId);
    }
  }
}
