/**
 * The task record of the Gantt editor and the generic facts about task
 * forests that every other module uses: the pre-order listing of all
 * nodes, the id listing, subsequences and forest membership.
 *
 * Dates are whole day numbers (day 0 is 1970-01-01); the time of day,
 * time zones and milliseconds are not modelled.
 */
module TaskModel {

  /** An optional value: `undefined` / `null` in the source. */
  datatype Option<+T> = None | Some(value: T) {
    /** `x ?? d` and `x || d` for a value that is never falsy. */
    function GetOr(d: T): T {
      match this
      case Some(v) => v
      case None => d
    }
  }

  /** The `type` field: `'task' | 'section'`. */
  datatype TaskKind = PlainTask | Section

  /**
   * The optional `children` array. `NoChildren` is an absent field,
   * `Children([])` an empty array: JavaScript treats the second as truthy,
   * so the two behave differently in `if (task.children)`.
   */
  datatype Subtasks = NoChildren | Children(list: seq<Task>)

  /** One node of the task tree, with the optional fields the data layer assigns. */
  datatype Task = Task(
    id: string,
    title: string,
    startDate: int,
    endDate: int,
    progress: int,
    dependencies: seq<string>,
    parentId: Option<string>,
    children: Subtasks,
    isExpanded: Option<bool>,
    kind: Option<TaskKind>,
    position: Option<int>,
    userId: Option<string>)

  /** The children of a node, an absent list read as empty. */
  function Kids(t: Task): seq<Task> {
    if t.children.Children? then t.children.list else []
  }

  /** JavaScript truthiness of an optional string: present and non-empty. */
  predicate Truthy(s: Option<string>) {
    s.Some? && s.value != ""
  }

  /** JavaScript truthiness of an optional flag: `undefined` and `false` are falsy. */
  predicate IsSet(b: Option<bool>) {
    b == Some(true)
  }

  /**
   * Every node of a forest, each node immediately followed by its whole
   * subtree, regardless of the expanded flag.
   */
  function PreOrder(ts: seq<Task>): seq<Task> {
    if ts == [] then []
    else [ts[0]] + (if ts[0].children.Children? then PreOrder(ts[0].children.list) else []) + PreOrder(ts[1..])
  }

  /** The number of nodes of a forest, counted without listing them. */
  function Size(ts: seq<Task>): nat {
    if ts == [] then 0
    else 1 + (if ts[0].children.Children? then Size(ts[0].children.list) else 0) + Size(ts[1..])
  }

  /** The ids of a list of tasks, in order. */
  function Ids(ts: seq<Task>): (r: seq<string>)
    ensures |r| == |ts|
    ensures forall i {:trigger r[i]} :: 0 <= i < |ts| ==> r[i] == ts[i].id
  {
    if ts == [] then [] else [ts[0].id] + Ids(ts[1..])
  }

  /** `x` occurs somewhere in the forest: as a root or inside a root's subtree. */
  ghost predicate InForest(ts: seq<Task>, x: Task) {
    exists i :: 0 <= i < |ts| && (ts[i] == x || (ts[i].children.Children? && InForest(ts[i].children.list, x)))
  }

  /** `a` is obtained from `b` by deleting some elements. */
  predicate IsSubsequence<T(==)>(a: seq<T>, b: seq<T>) {
    if a == [] then true
    else if b == [] then false
    else if a[0] == b[0] then IsSubsequence(a[1..], b[1..])
    else IsSubsequence(a, b[1..])
  }

  /**
   * No two elements are equal, stated element by element from the front so
   * that the solver unfolds it only as far as a proof needs
   * (`DistinctPairwise` gives the pairwise reading).
   */
  predicate Distinct<T(==)>(s: seq<T>) {
    s == [] || (s[0] !in s[1..] && Distinct(s[1..]))
  }

  /** No two nodes anywhere in the forest share an id. */
  predicate UniqueIds(ts: seq<Task>) {
    Distinct(Ids(PreOrder(ts)))
  }

  lemma {:induction false} PreOrderAppend(a: seq<Task>, b: seq<Task>)
    ensures PreOrder(a + b) == PreOrder(a) + PreOrder(b)
    decreases |a|
  {
    if a == [] {
      assert a + b == b;
    } else {
      assert (a + b)[0] == a[0];
      assert (a + b)[1..] == a[1..] + b;
      PreOrderAppend(a[1..], b);
    }
  }

  lemma PreOrderSingle(t: Task)
    ensures PreOrder([t]) == [t] + PreOrder(Kids(t))
  {
    assert [t][1..] == [];
  }

  lemma IdsAppend(a: seq<Task>, b: seq<Task>)
    ensures Ids(a + b) == Ids(a) + Ids(b)
  {
  }

  /** The listing holds exactly as many entries as the forest has nodes. */
  lemma {:induction false} PreOrderLength(ts: seq<Task>)
    ensures |PreOrder(ts)| == Size(ts)
  {
    if ts != [] {
      if ts[0].children.Children? {
        PreOrderLength(ts[0].children.list);
      }
      PreOrderLength(ts[1..]);
    }
  }

  /**
   * The pre-order property at every position: the entry at index `k` is
   * immediately followed by the listing of that node's own subtree.
   */
  lemma {:induction false} SubtreeFollows(ts: seq<Task>, k: nat)
    requires k < |PreOrder(ts)|
    ensures var p := PreOrder(ts); var sub := PreOrder(Kids(p[k]));
            k + 1 + |sub| <= |p| && p[k + 1..k + 1 + |sub|] == sub
    decreases ts, 1
  {
    var a := PreOrder(Kids(ts[0]));
    assert PreOrder(ts) == [ts[0]] + a + PreOrder(ts[1..]);
    if k == 0 {
      assert PreOrder(ts)[0] == ts[0];
      MiddleOf([ts[0]], a, PreOrder(ts[1..]));
    } else if k < 1 + |a| {
      assert Kids(ts[0]) == ts[0].children.list;
      SubtreeFollowsKids(ts, k);
    } else {
      SubtreeFollowsRest(ts, k);
    }
  }

  lemma {:induction false} SubtreeFollowsKids(ts: seq<Task>, k: nat)
    requires ts != [] && ts[0].children.Children? && 1 <= k < 1 + |PreOrder(ts[0].children.list)|
    ensures k < |PreOrder(ts)|
    ensures var p := PreOrder(ts); var sub := PreOrder(Kids(p[k]));
            k + 1 + |sub| <= |p| && p[k + 1..k + 1 + |sub|] == sub
    decreases ts, 0
  {
    var list := ts[0].children.list;
    var a := PreOrder(list);
    var i := k - 1;
    SubtreeFollows(list, i);
    var sub := PreOrder(Kids(a[i]));
    var p := PreOrder(ts);
    assert p == [ts[0]] + a + PreOrder(ts[1..]) by {
      PreOrderUnfold(ts);
      assert Kids(ts[0]) == list;
    }
    FollowsInMiddle(p, [ts[0]], a, PreOrder(ts[1..]), k, i, sub);
  }

  lemma {:induction false} SubtreeFollowsRest(ts: seq<Task>, k: nat)
    requires ts != [] && 1 + |PreOrder(Kids(ts[0]))| <= k < |PreOrder(ts)|
    ensures var p := PreOrder(ts); var sub := PreOrder(Kids(p[k]));
            k + 1 + |sub| <= |p| && p[k + 1..k + 1 + |sub|] == sub
    decreases ts, 0
  {
    var x := [ts[0]] + PreOrder(Kids(ts[0]));
    var b := PreOrder(ts[1..]);
    assert PreOrder(ts) == x + b by {
      PreOrderUnfold(ts);
    }
    var j := k - |x|;
    SubtreeFollows(ts[1..], j);
    FollowsAtEnd(PreOrder(ts), x, b, k, j, PreOrder(Kids(b[j])));
  }

  /** Extending a prefix of the roots by one root extends its listing by that root's segment. */
  lemma PreOrderStep(ts: seq<Task>, i: nat)
    requires i < |ts|
    ensures PreOrder(ts[..i + 1]) == PreOrder(ts[..i]) + [ts[i]] + PreOrder(Kids(ts[i]))
  {
    assert ts[..i + 1] == ts[..i] + [ts[i]];
    PreOrderAppend(ts[..i], [ts[i]]);
    PreOrderSingle(ts[i]);
  }

  /** The listing of a non-empty forest: first root, its subtree, the other roots' subtrees. */
  lemma PreOrderUnfold(ts: seq<Task>)
    requires ts != []
    ensures PreOrder(ts) == [ts[0]] + PreOrder(Kids(ts[0])) + PreOrder(ts[1..])
  {
  }

  /** Listing positions `1 .. |a|` fall inside the first root's subtree. */
  lemma IndexInKids(ts: seq<Task>, k: nat)
    requires ts != [] && ts[0].children.Children? && 1 <= k < 1 + |PreOrder(ts[0].children.list)|
    ensures k < |PreOrder(ts)| && PreOrder(ts)[k] == PreOrder(ts[0].children.list)[k - 1]
  {
    PreOrderUnfold(ts);
  }

  /** Listing positions after the first root's segment fall in the other roots' listing. */
  lemma IndexInRest(ts: seq<Task>, k: nat)
    requires ts != [] && 1 + |PreOrder(Kids(ts[0]))| <= k < |PreOrder(ts)|
    ensures var j := k - 1 - |PreOrder(Kids(ts[0]))|;
            j < |PreOrder(ts[1..])| && PreOrder(ts)[k] == PreOrder(ts[1..])[j]
  {
    PreOrderUnfold(ts);
  }

  /** A node's own segment holds at least the node. */
  lemma PreOrderNonEmpty(t: Task)
    ensures 1 <= |PreOrder([t])|
  {
    PreOrderSingle(t);
  }

  /** Positions inside the middle part `a` of `x + a + b`. */
  lemma SliceAfter<T>(x: seq<T>, a: seq<T>, b: seq<T>, i: nat, m: nat)
    requires i + 1 + m <= |a|
    ensures (x + a + b)[|x| + i] == a[i]
    ensures (x + a + b)[|x| + i + 1..|x| + i + 1 + m] == a[i + 1..i + 1 + m]
  {
  }

  /**
   * In `v == x + a + b`, position `k` is position `i` of `a`, and a slice
   * of `a` right after it is the same slice of `v` right after `k`.
   */
  lemma FollowsInMiddle<T>(v: seq<T>, x: seq<T>, a: seq<T>, b: seq<T>, k: nat, i: nat, sub: seq<T>)
    requires v == x + a + b && k == |x| + i
    requires i + 1 + |sub| <= |a| && a[i + 1..i + 1 + |sub|] == sub
    ensures k < |v| && v[k] == a[i]
    ensures k + 1 + |sub| <= |v| && v[k + 1..k + 1 + |sub|] == sub
  {
    SliceAfter(x, a, b, i, |sub|);
  }

  /** The same for `v == x + b` and position `j` of `b`. */
  lemma FollowsAtEnd<T>(v: seq<T>, x: seq<T>, b: seq<T>, k: nat, j: nat, sub: seq<T>)
    requires v == x + b && k == |x| + j
    requires j + 1 + |sub| <= |b| && b[j + 1..j + 1 + |sub|] == sub
    ensures k < |v| && v[k] == b[j]
    ensures k + 1 + |sub| <= |v| && v[k + 1..k + 1 + |sub|] == sub
  {
    var s := v[k + 1..k + 1 + |sub|];
    forall n | 0 <= n < |sub|
      ensures s[n] == sub[n]
    {
      assert s[n] == v[k + 1 + n] == b[j + 1 + n];
    }
  }

  lemma MiddleOf<T>(x: seq<T>, a: seq<T>, b: seq<T>)
    ensures (x + a + b)[|x|..|x| + |a|] == a
  {
  }

  lemma SliceOfMiddle<T>(x: seq<T>, a: seq<T>, b: seq<T>, i: nat, j: nat)
    requires |x| <= i <= j <= |x| + |a|
    ensures (x + a + b)[i..j] == a[i - |x|..j - |x|]
  {
  }

  lemma SliceOfEnd<T>(x: seq<T>, b: seq<T>, i: nat, j: nat)
    requires |x| <= i <= j <= |x| + |b|
    ensures (x + b)[i..j] == b[i - |x|..j - |x|]
  {
  }

  /** A node occurs in the listing exactly when it occurs in the forest. */
  lemma {:induction false} PreOrderMembers(ts: seq<Task>, x: Task)
    ensures x in PreOrder(ts) <==> InForest(ts, x)
  {
    if ts == [] {
    } else {
      var a := if ts[0].children.Children? then PreOrder(ts[0].children.list) else [];
      assert PreOrder(ts) == [ts[0]] + a + PreOrder(ts[1..]);
      if ts[0].children.Children? {
        PreOrderMembers(ts[0].children.list, x);
      }
      PreOrderMembers(ts[1..], x);
      if InForest(ts[1..], x) {
        var i :| 0 <= i < |ts[1..]| && (ts[1..][i] == x || (ts[1..][i].children.Children? && InForest(ts[1..][i].children.list, x)));
        assert ts[i + 1] == ts[1..][i];
      }
      if InForest(ts, x) {
        var i :| 0 <= i < |ts| && (ts[i] == x || (ts[i].children.Children? && InForest(ts[i].children.list, x)));
        if i > 0 {
          assert ts[1..][i - 1] == ts[i];
        }
      }
    }
  }

  /** The roots come first among, and in the order of, the full listing. */
  lemma {:induction false} RootsInPreOrder(ts: seq<Task>)
    ensures IsSubsequence(ts, PreOrder(ts))
  {
    if ts != [] {
      var a := PreOrder(Kids(ts[0]));
      var rest := PreOrder(ts[1..]);
      var p := PreOrder(ts);
      RootsInPreOrder(ts[1..]);
      SubsequenceOfSuffix(ts[1..], rest, a);
      assert p != [] && p[0] == ts[0] && p[1..] == a + rest by {
        PreOrderUnfold(ts);
      }
    }
  }

  lemma {:induction false} SubsequenceOfSuffix<T>(a: seq<T>, b: seq<T>, c: seq<T>)
    requires IsSubsequence(a, b)
    ensures IsSubsequence(a, c + b)
    decreases |c|
  {
    if c == [] {
      assert c + b == b;
    } else {
      SubsequenceOfSuffix(a, b, c[1..]);
      SubsequenceSkipHead(a, c[1..] + b, c[0]);
      assert [c[0]] + (c[1..] + b) == c + b;
    }
  }

  lemma {:induction false} SubsequenceSkipHead<T>(a: seq<T>, b: seq<T>, x: T)
    requires IsSubsequence(a, b)
    ensures IsSubsequence(a, [x] + b)
    decreases |b|, 1
  {
    if a != [] {
      assert ([x] + b)[1..] == b;
      if a[0] == x {
        SubsequenceDropHead(a, b);
      }
    }
  }

  lemma {:induction false} SubsequenceDropHead<T>(a: seq<T>, b: seq<T>)
    requires a != [] && IsSubsequence(a, b)
    ensures IsSubsequence(a[1..], b)
    decreases |b|, 0
  {
    assert [b[0]] + b[1..] == b;
    if a[0] == b[0] {
      SubsequenceSkipHead(a[1..], b[1..], b[0]);
    } else {
      SubsequenceDropHead(a, b[1..]);
      SubsequenceSkipHead(a[1..], b[1..], b[0]);
    }
  }

  /** `Distinct` means that no two positions hold equal elements. */
  lemma {:induction false} DistinctPairwise<T>(s: seq<T>)
    ensures Distinct(s) <==> forall i, j :: 0 <= i < j < |s| ==> s[i] != s[j]
  {
    if s != [] {
      DistinctPairwise(s[1..]);
      if Distinct(s) {
        forall i, j | 0 <= i < j < |s| ensures s[i] != s[j] {
          if i == 0 {
            assert s[j] == s[1..][j - 1];
          } else {
            assert s[i] == s[1..][i - 1] && s[j] == s[1..][j - 1];
          }
        }
      }
      if forall i, j :: 0 <= i < j < |s| ==> s[i] != s[j] {
        forall i, j | 0 <= i < j < |s[1..]| ensures s[1..][i] != s[1..][j] {
          assert s[1..][i] == s[i + 1] && s[1..][j] == s[j + 1];
        }
      }
    }
  }

  /** A concatenation is distinct exactly when both parts are and they share nothing. */
  lemma {:induction false} DistinctAppend<T>(a: seq<T>, b: seq<T>)
    ensures Distinct(a + b) <==> Distinct(a) && Distinct(b) && forall x :: x in a ==> x !in b
    decreases |a|
  {
    if a == [] {
      assert a + b == b;
    } else {
      assert (a + b)[0] == a[0];
      assert (a + b)[1..] == a[1..] + b;
      DistinctAppend(a[1..], b);
      assert forall x :: x in a <==> x == a[0] || x in a[1..];
    }
  }

  /**
   * With unique ids, each part of the listing (the first root, its subtree,
   * the other roots' subtrees) has unique ids and no id is shared between
   * parts.
   */
  lemma UniqueParts(ts: seq<Task>)
    requires ts != [] && UniqueIds(ts)
    ensures UniqueIds(Kids(ts[0])) && UniqueIds(ts[1..])
    ensures ts[0].id !in Ids(PreOrder(Kids(ts[0]))) && ts[0].id !in Ids(PreOrder(ts[1..]))
    ensures forall x :: x in Ids(PreOrder(Kids(ts[0]))) ==> x !in Ids(PreOrder(ts[1..]))
  {
    var a := PreOrder(Kids(ts[0]));
    var b := PreOrder(ts[1..]);
    assert PreOrder(ts) == [ts[0]] + (a + b);
    IdsAppend([ts[0]], a + b);
    IdsAppend(a, b);
    var ids := Ids(PreOrder(ts));
    assert ids == [ts[0].id] + (Ids(a) + Ids(b));
    assert ids[1..] == Ids(a) + Ids(b);
    DistinctAppend(Ids(a), Ids(b));
  }

  /** The id of the entry at index `i` occurs among the ids. */
  lemma IdAt(ts: seq<Task>, i: nat)
    requires i < |ts|
    ensures ts[i].id in Ids(ts)
  {
    assert Ids(ts)[i] == ts[i].id;
  }

  /** With unique ids, both parts below the first root have unique ids. */
  lemma UniqueSubforests(ts: seq<Task>)
    requires ts != [] && UniqueIds(ts)
    ensures UniqueIds(Kids(ts[0])) && UniqueIds(ts[1..])
  {
    UniqueParts(ts);
  }

  /** With unique ids, an id inside the first root's subtree occurs nowhere else. */
  lemma UniqueInKids(ts: seq<Task>, x: string)
    requires ts != [] && UniqueIds(ts) && x in Ids(PreOrder(Kids(ts[0])))
    ensures x != ts[0].id && x !in Ids(PreOrder(ts[1..]))
  {
    UniqueParts(ts);
  }

  /** With unique ids, an id among the later roots' subtrees occurs nowhere before. */
  lemma UniqueInRest(ts: seq<Task>, x: string)
    requires ts != [] && UniqueIds(ts) && x in Ids(PreOrder(ts[1..]))
    ensures x != ts[0].id && x !in Ids(PreOrder(Kids(ts[0])))
  {
    UniqueParts(ts);
  }
}
