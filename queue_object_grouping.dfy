/**
  What CallbackGraphAnalysis.groupSourceNodesByQueueObject computes, stated on
  node indices. The Java method walks the node list with an outer index, skips
  indices already visited or whose queue object is null, and otherwise collects
  every unvisited node (in list order) whose queue object `equals` the outer
  node's, marking each one visited. GroupsFrom states the same thing over the
  list of indices not yet visited, and the lemmas below give its meaning: the
  groups partition the nodes with a non-null queue object, keep list order and
  duplicates, and are the classes of Value.equals when that is an equivalence.
*/
module QueueObjectGrouping {
  import opened Wrappers
  import opened CallbackGraph

  type Nodes<F, V> = seq<CallbackGraphNode<F, V>>

  /** Value.equals is reflexive, as the contract of Object.equals requires. */
  ghost predicate Reflexive<V(!new)>(eq: (V, V) -> bool) {
    forall v :: eq(v, v)
  }

  /** Value.equals obeys the whole contract of Object.equals. */
  ghost predicate EquivalenceRelation<V(!new)>(eq: (V, V) -> bool) {
    && Reflexive(eq)
    && (forall u, v :: eq(u, v) ==> eq(v, u))
    && (forall u, v, w :: eq(u, v) && eq(v, w) ==> eq(u, w))
  }

  /** The queue object of node k; None both for a null and for an index past the end. */
  function QueueAt<F, V>(ns: Nodes<F, V>, k: nat): Option<V> {
    if k < |ns| then ns[k].context.queueObject else None
  }

  /** comparedNodeQ != null && comparedNodeQ.equals(nodeQ), for the node at index k. */
  predicate SameQueue<F, V>(ns: Nodes<F, V>, eq: (V, V) -> bool, k: nat, q: V) {
    QueueAt(ns, k).Some? && eq(QueueAt(ns, k).value, q)
  }

  /** The queue objects of nodes k and l are both non-null and equal. */
  predicate QueueEq<F, V>(ns: Nodes<F, V>, eq: (V, V) -> bool, k: nat, l: nat) {
    QueueAt(ns, k).Some? && QueueAt(ns, l).Some? && eq(QueueAt(ns, k).value, QueueAt(ns, l).value)
  }

  predicate Increasing(xs: seq<nat>) {
    forall i, j :: 0 <= i < j < |xs| ==> xs[i] < xs[j]
  }

  lemma {:induction false} IncreasingSnoc(xs: seq<nat>, x: nat)
    requires Increasing(xs)
    requires forall k :: k in xs ==> k < x
    ensures Increasing(xs + [x])
  {
    var ys := xs + [x];
    forall i, j | 0 <= i < j < |ys| ensures ys[i] < ys[j] {
      if j == |xs| {
        assert ys[i] == xs[i] && xs[i] in xs;
      }
    }
  }

  /** The indices of `xs`, in order, for which SameQueue(k, q) equals `same`. */
  function Select<F, V>(ns: Nodes<F, V>, eq: (V, V) -> bool, q: V, xs: seq<nat>, same: bool): (r: seq<nat>)
    ensures |r| <= |xs|
    ensures forall k {:trigger k in r} :: k in r <==> k in xs && SameQueue(ns, eq, k, q) == same
    decreases |xs|
  {
    if xs == [] then []
    else
      var init, last := xs[..|xs| - 1], xs[|xs| - 1];
      assert xs == init + [last];
      var r := Select(ns, eq, q, init, same);
      if SameQueue(ns, eq, last, q) == same then r + [last] else r
  }

  /** Select keeps the order of the indices it keeps. */
  lemma {:induction false} SelectIncreasing<F, V>(ns: Nodes<F, V>, eq: (V, V) -> bool, q: V, xs: seq<nat>, same: bool)
    requires Increasing(xs)
    ensures Increasing(Select(ns, eq, q, xs, same))
    decreases |xs|
  {
    if xs != [] {
      var init, last := xs[..|xs| - 1], xs[|xs| - 1];
      assert Increasing(init);
      SelectIncreasing(ns, eq, q, init, same);
      var r := Select(ns, eq, q, init, same);
      if SameQueue(ns, eq, last, q) == same {
        forall k | k in r ensures k < last {
          var i :| 0 <= i < |init| && init[i] == k;
          assert xs[i] == k;
        }
        IncreasingSnoc(r, last);
      }
    }
  }

  /** The indices of `xs`, in order, whose queue object is non-null. */
  function NonNull<F, V>(ns: Nodes<F, V>, xs: seq<nat>): (r: seq<nat>)
    ensures forall k {:trigger k in r} :: k in r <==> k in xs && QueueAt(ns, k).Some?
    decreases |xs|
  {
    if xs == [] then []
    else
      var init, last := xs[..|xs| - 1], xs[|xs| - 1];
      assert xs == init + [last];
      NonNull(ns, init) + (if QueueAt(ns, last).Some? then [last] else [])
  }

  /** The indices below h that are not in `visited`, in increasing order. */
  function Unvisited(visited: seq<int>, h: nat): (r: seq<nat>)
    ensures forall k {:trigger k in r} :: k in r <==> 0 <= k < h && k !in visited
  {
    if h == 0 then []
    else
      var r := Unvisited(visited, h - 1);
      if h - 1 in visited then r else r + [h - 1]
  }

  /** The unvisited indices come in increasing order. */
  lemma {:induction false} UnvisitedIncreasing(visited: seq<int>, h: nat)
    ensures Increasing(Unvisited(visited, h))
  {
    if h > 0 {
      UnvisitedIncreasing(visited, h - 1);
      if h - 1 !in visited {
        IncreasingSnoc(Unvisited(visited, h - 1), h - 1);
      }
    }
  }

  /**
    The groups formed from the unvisited indices `rest`: the first of them opens
    a group when its queue object is non-null; the group holds every index of
    `rest` whose queue object equals the opener's; the others stay unvisited.
    Members of every group are indices of `rest` with a non-null queue object.
  */
  function GroupsFrom<F, V>(ns: Nodes<F, V>, eq: (V, V) -> bool, rest: seq<nat>): (r: seq<seq<nat>>)
    ensures forall a, k {:trigger k in r[a]} :: 0 <= a < |r| && k in r[a] ==> k in rest && QueueAt(ns, k).Some?
    decreases |rest|
  {
    if rest == [] then []
    else
      match QueueAt(ns, rest[0])
      case None =>
        assert forall k :: k in rest[1..] ==> k in rest;
        GroupsFrom(ns, eq, rest[1..])
      case Some(q) =>
        var later := Select(ns, eq, q, rest[1..], false);
        assert forall k :: k in later ==> k in rest;
        [Select(ns, eq, q, rest, true)] + GroupsFrom(ns, eq, later)
  }

  /**
    The groups groupSourceNodesByQueueObject returns, as lists of node indices.
    A node whose queue object is null is never placed in a group.
  */
  function IndexGroups<F, V>(ns: Nodes<F, V>, eq: (V, V) -> bool): (r: seq<seq<nat>>)
    ensures forall a, k :: 0 <= a < |r| && k in r[a] ==> k < |ns| && ns[k].context.queueObject.Some?
    ensures IndicesBelow(r, |ns|)
  {
    GroupsFromBelow(ns, eq, Unvisited([], |ns|));
    GroupsFrom(ns, eq, Unvisited([], |ns|))
  }

  lemma {:induction false} GroupsFromBelow<F, V>(ns: Nodes<F, V>, eq: (V, V) -> bool, rest: seq<nat>)
    ensures forall a, k :: 0 <= a < |GroupsFrom(ns, eq, rest)| && k in GroupsFrom(ns, eq, rest)[a] ==>
      k < |ns| && ns[k].context.queueObject.Some?
    ensures IndicesBelow(GroupsFrom(ns, eq, rest), |ns|)
  {
    var r := GroupsFrom(ns, eq, rest);
    forall a, i | 0 <= a < |r| && 0 <= i < |r[a]| ensures r[a][i] < |ns| {
      assert r[a][i] in r[a] && QueueAt(ns, r[a][i]).Some?;
    }
    forall a, k | 0 <= a < |r| && k in r[a] ensures k < |ns| && ns[k].context.queueObject.Some? {
      assert QueueAt(ns, k).Some?;
    }
  }

  /** Every index of `xs` is below n. */
  predicate Below(xs: seq<nat>, n: nat) {
    forall i :: 0 <= i < |xs| ==> xs[i] < n
  }

  /** The nodes at the given indices, in the same order. */
  function NodesAt<F, V>(ns: Nodes<F, V>, idx: seq<nat>): (r: Nodes<F, V>)
    requires Below(idx, |ns|)
    ensures |r| == |idx|
    ensures forall i :: 0 <= i < |idx| ==> r[i] == ns[idx[i]]
    decreases |idx|
  {
    if idx == [] then [] else NodesAt(ns, idx[..|idx| - 1]) + [ns[idx[|idx| - 1]]]
  }

  ghost predicate IndicesBelow(groups: seq<seq<nat>>, n: nat) {
    forall a, i :: 0 <= a < |groups| && 0 <= i < |groups[a]| ==> groups[a][i] < n
  }

  /** The node groups for the given index groups. */
  function NodeGroups<F, V>(ns: Nodes<F, V>, groups: seq<seq<nat>>): (r: seq<Nodes<F, V>>)
    requires IndicesBelow(groups, |ns|)
    ensures |r| == |groups|
    ensures forall a :: 0 <= a < |groups| ==> r[a] == NodesAt(ns, groups[a])
    decreases |groups|
  {
    if groups == [] then []
    else NodeGroups(ns, groups[..|groups| - 1]) + [NodesAt(ns, groups[|groups| - 1])]
  }

  /** The node groups groupSourceNodesByQueueObject returns for the node list `ns`. */
  function Groups<F, V>(ns: Nodes<F, V>, eq: (V, V) -> bool): seq<Nodes<F, V>> {
    NodeGroups(ns, IndexGroups(ns, eq))
  }

  /** Concatenation of a list of lists, front to back. */
  function Concat<T>(gs: seq<seq<T>>): (r: seq<T>)
    decreases |gs|
  {
    if gs == [] then [] else gs[0] + Concat(gs[1..])
  }

  /** The nodes whose queue object is non-null, in list order, duplicates included. */
  function NodesWithQueueObject<F, V>(ns: Nodes<F, V>): (r: Nodes<F, V>)
    ensures |r| <= |ns|
    ensures forall i :: 0 <= i < |r| ==> r[i].context.queueObject.Some?
    decreases |ns|
  {
    if ns == [] then []
    else
      var init, last := ns[..|ns| - 1], ns[|ns| - 1];
      assert ns == init + [last];
      NodesWithQueueObject(init) + (if last.context.queueObject.Some? then [last] else [])
  }

  // ---------------------------------------------------------------------------
  // Facts about the bookkeeping of the Java loops
  // ---------------------------------------------------------------------------

  /** Once every index below h is visited, no index below h is left. */
  lemma {:induction false} UnvisitedNone(visited: seq<int>, h: nat)
    requires forall k :: 0 <= k < h ==> k in visited
    ensures Unvisited(visited, h) == []
  {
    if h > 0 {
      UnvisitedNone(visited, h - 1);
    }
  }

  /** Unvisited depends only on which indices below h have been visited. */
  lemma {:induction false} UnvisitedSame(v1: seq<int>, v2: seq<int>, h: nat)
    requires forall k :: 0 <= k < h ==> (k in v1 <==> k in v2)
    ensures Unvisited(v1, h) == Unvisited(v2, h)
  {
    if h > 0 {
      UnvisitedSame(v1, v2, h - 1);
    }
  }

  /** When all indices below i are visited and i is not, i is the first unvisited index. */
  lemma {:induction false} UnvisitedFirst(visited: seq<int>, i: nat, h: nat)
    requires i < h
    requires forall k :: 0 <= k < i ==> k in visited
    requires i !in visited
    ensures Unvisited(visited, h) == [i] + Unvisited(visited + [i], h)
  {
    if h == i + 1 {
      UnvisitedNone(visited, i);
      UnvisitedNone(visited + [i], i);
      assert i in visited + [i];
    } else {
      UnvisitedFirst(visited, i, h - 1);
      var before := Unvisited(visited + [i], h - 1);
      if h - 1 in visited {
        assert h - 1 in visited + [i];
      } else {
        assert h - 1 !in visited + [i];
        assert [i] + before + [h - 1] == [i] + (before + [h - 1]);
      }
    }
  }

  /** Select over one more index keeps it exactly when its queue object matches. */
  lemma {:induction false} SelectSnoc<F, V>(ns: Nodes<F, V>, eq: (V, V) -> bool, q: V, xs: seq<nat>, x: nat, same: bool)
    ensures Select(ns, eq, q, xs + [x], same)
         == Select(ns, eq, q, xs, same) + (if SameQueue(ns, eq, x, q) == same then [x] else [])
  {
    var ys := xs + [x];
    assert ys[..|ys| - 1] == xs && ys[|ys| - 1] == x;
  }

  lemma {:induction false} SelectAppend<F, V>(ns: Nodes<F, V>, eq: (V, V) -> bool, q: V, a: seq<nat>, b: seq<nat>, same: bool)
    ensures Select(ns, eq, q, a + b, same) == Select(ns, eq, q, a, same) + Select(ns, eq, q, b, same)
    decreases |b|
  {
    if b == [] {
      assert a + b == a;
    } else {
      var init, last := b[..|b| - 1], b[|b| - 1];
      assert b == init + [last];
      assert a + b == (a + init) + [last];
      var tail := if SameQueue(ns, eq, last, q) == same then [last] else [];
      SelectAppend(ns, eq, q, a, init, same);
      SelectSnoc(ns, eq, q, a + init, last, same);
      SelectSnoc(ns, eq, q, init, last, same);
      var sa, si := Select(ns, eq, q, a, same), Select(ns, eq, q, init, same);
      assert (sa + si) + tail == sa + (si + tail);
    }
  }

  /** NonNull over one more index keeps it exactly when its queue object is non-null. */
  lemma {:induction false} NonNullSnoc<F, V>(ns: Nodes<F, V>, xs: seq<nat>, x: nat)
    ensures NonNull(ns, xs + [x]) == NonNull(ns, xs) + (if QueueAt(ns, x).Some? then [x] else [])
  {
    var ys := xs + [x];
    assert ys[..|ys| - 1] == xs && ys[|ys| - 1] == x;
  }

  lemma {:induction false} NonNullAppend<F, V>(ns: Nodes<F, V>, a: seq<nat>, b: seq<nat>)
    ensures NonNull(ns, a + b) == NonNull(ns, a) + NonNull(ns, b)
    decreases |b|
  {
    if b == [] {
      assert a + b == a;
    } else {
      var init, last := b[..|b| - 1], b[|b| - 1];
      assert b == init + [last];
      assert a + b == (a + init) + [last];
      var tail := if QueueAt(ns, last).Some? then [last] else [];
      NonNullAppend(ns, a, init);
      NonNullSnoc(ns, a + init, last);
      NonNullSnoc(ns, init, last);
      var na, ni := NonNull(ns, a), NonNull(ns, init);
      assert (na + ni) + tail == na + (ni + tail);
    }
  }

  /**
    The inner loop marks every index whose queue object equals q; what is then
    left unvisited is exactly what Select(..., false) keeps.
  */
  lemma {:induction false} UnvisitedAfterGroup<F, V>(ns: Nodes<F, V>, eq: (V, V) -> bool, q: V,
                                                    v0: seq<int>, v1: seq<int>, h: nat)
    requires forall k :: 0 <= k < h ==> (k in v1 <==> k in v0 || SameQueue(ns, eq, k, q))
    ensures Unvisited(v1, h) == Select(ns, eq, q, Unvisited(v0, h), false)
  {
    if h > 0 {
      var k := h - 1;
      UnvisitedAfterGroup(ns, eq, q, v0, v1, k);
      var u0, u1 := Unvisited(v0, k), Unvisited(v1, k);
      assert u1 == Select(ns, eq, q, u0, false);
      if k in v0 {
        assert k in v1;
        assert Unvisited(v0, h) == u0 && Unvisited(v1, h) == u1;
      } else {
        assert Unvisited(v0, h) == u0 + [k];
        SelectAppend(ns, eq, q, u0, [k], false);
        if SameQueue(ns, eq, k, q) {
          assert k in v1;
          assert Unvisited(v1, h) == u1;
          assert Select(ns, eq, q, [k], false) == [];
        } else {
          assert k !in v1;
          assert Unvisited(v1, h) == u1 + [k];
          assert Select(ns, eq, q, [k], false) == [k];
        }
      }
    }
  }

  // ---------------------------------------------------------------------------
  // What the groups are
  // ---------------------------------------------------------------------------
  /** No index is in two groups. */
  ghost predicate Disjoint(gs: seq<seq<nat>>) {
    forall a, b, k :: 0 <= a < |gs| && 0 <= b < |gs| && k in gs[a] && k in gs[b] ==> a == b
  }

  /** Every group is non-empty, in list order, and its members' queue objects equal its first member's. */
  ghost predicate Homogeneous<F, V>(ns: Nodes<F, V>, eq: (V, V) -> bool, gs: seq<seq<nat>>) {
    forall a :: 0 <= a < |gs| ==> OneQueueObject(ns, eq, gs[a])
  }

  /** A non-empty group, in list order, whose members all equal its first one. */
  ghost predicate OneQueueObject<F, V>(ns: Nodes<F, V>, eq: (V, V) -> bool, g: seq<nat>) {
    && |g| > 0
    && Increasing(g)
    && (forall k :: k in g ==> QueueEq(ns, eq, k, g[0]))
  }

  lemma {:induction false} HomogeneousCons<F, V>(ns: Nodes<F, V>, eq: (V, V) -> bool, g: seq<nat>, tail: seq<seq<nat>>)
    requires OneQueueObject(ns, eq, g) && Homogeneous(ns, eq, tail)
    ensures Homogeneous(ns, eq, [g] + tail)
  {
    var r := [g] + tail;
    forall a | 0 <= a < |r| ensures OneQueueObject(ns, eq, r[a]) {
      if a > 0 {
        assert r[a] == tail[a - 1];
      }
    }
  }

  /** The first member of each group is below every member of the groups after it. */
  ghost predicate OrderedByOpener(gs: seq<seq<nat>>) {
    forall a, b, k :: 0 <= a < b < |gs| && k in gs[b] ==> |gs[a]| > 0 && gs[a][0] < k
  }

  /** Two grouped indices share a group exactly when their queue objects are equal. */
  ghost predicate ClassesOf<F, V>(ns: Nodes<F, V>, eq: (V, V) -> bool, gs: seq<seq<nat>>) {
    forall a, b, k, l :: 0 <= a < |gs| && 0 <= b < |gs| && k in gs[a] && l in gs[b] ==>
      (a == b <==> QueueEq(ns, eq, k, l))
  }

  /** Whatever Value.equals does, no index is placed in two groups. */
  lemma {:induction false} GroupsFromDisjoint<F, V>(ns: Nodes<F, V>, eq: (V, V) -> bool, rest: seq<nat>)
    ensures Disjoint(GroupsFrom(ns, eq, rest))
    decreases |rest|
  {
    var r := GroupsFrom(ns, eq, rest);
    if rest != [] && QueueAt(ns, rest[0]).None? {
      assert r == GroupsFrom(ns, eq, rest[1..]);
      GroupsFromDisjoint(ns, eq, rest[1..]);
    } else if rest != [] {
      var q := QueueAt(ns, rest[0]).value;
      var later := Select(ns, eq, q, rest[1..], false);
      var tail := GroupsFrom(ns, eq, later);
      GroupsFromDisjoint(ns, eq, later);
      assert r == [Select(ns, eq, q, rest, true)] + tail;
      forall c, k | 1 <= c < |r| && k in r[c] ensures k in later && !SameQueue(ns, eq, k, q) {
        assert k in tail[c - 1];
      }
      forall a, b, k | 0 <= a < |r| && 0 <= b < |r| && k in r[a] && k in r[b] ensures a == b {
        if a > 0 && b > 0 {
          assert k in tail[a - 1] && k in tail[b - 1];
        }
      }
    }
  }

  /** With a reflexive equals, every non-null index of `rest` lands in some group. */
  lemma {:induction false} GroupsFromCover<F, V(!new)>(ns: Nodes<F, V>, eq: (V, V) -> bool, rest: seq<nat>, k: nat)
    requires Reflexive(eq)
    requires k in rest && QueueAt(ns, k).Some?
    ensures exists a :: 0 <= a < |GroupsFrom(ns, eq, rest)| && k in GroupsFrom(ns, eq, rest)[a]
    decreases |rest|
  {
    var r := GroupsFrom(ns, eq, rest);
    if QueueAt(ns, rest[0]).None? {
      assert k != rest[0] && k in rest[1..];
      assert r == GroupsFrom(ns, eq, rest[1..]);
      GroupsFromCover(ns, eq, rest[1..], k);
      var a :| 0 <= a < |r| && k in r[a];
    } else {
      var q := QueueAt(ns, rest[0]).value;
      var later := Select(ns, eq, q, rest[1..], false);
      var tail := GroupsFrom(ns, eq, later);
      assert r == [Select(ns, eq, q, rest, true)] + tail;
      if SameQueue(ns, eq, k, q) {
        assert k in r[0];
      } else {
        assert k != rest[0] by {
          assert eq(q, q);
        }
        assert k in rest[1..] && k in later;
        GroupsFromCover(ns, eq, later, k);
        var a :| 0 <= a < |tail| && k in tail[a];
        assert k in r[a + 1];
      }
    }
  }

  /**
    One step of GroupsFrom when the first unvisited index has a non-null queue
    object q: with a reflexive equals that index heads the group it opens.
  */
  lemma {:induction false} GroupsFromOpen<F, V(!new)>(ns: Nodes<F, V>, eq: (V, V) -> bool, rest: seq<nat>, q: V)
    requires Reflexive(eq)
    requires rest != [] && QueueAt(ns, rest[0]) == Some(q)
    ensures GroupsFrom(ns, eq, rest)
         == [Select(ns, eq, q, rest, true)] + GroupsFrom(ns, eq, Select(ns, eq, q, rest[1..], false))
    ensures |Select(ns, eq, q, rest, true)| > 0 && Select(ns, eq, q, rest, true)[0] == rest[0]
    ensures Select(ns, eq, q, rest, false) == Select(ns, eq, q, rest[1..], false)
  {
    assert eq(q, q);
    assert [rest[0]] + rest[1..] == rest;
    SelectAppend(ns, eq, q, [rest[0]], rest[1..], true);
    SelectAppend(ns, eq, q, [rest[0]], rest[1..], false);
  }

  /** The groups after the first one hold only indices the first one left unvisited. */
  lemma {:induction false} LaterGroupsFromLater<F, V>(ns: Nodes<F, V>, eq: (V, V) -> bool, rest: seq<nat>, q: V)
    requires rest != [] && QueueAt(ns, rest[0]) == Some(q)
    ensures forall b, k :: 1 <= b < |GroupsFrom(ns, eq, rest)| && k in GroupsFrom(ns, eq, rest)[b] ==>
      k in Select(ns, eq, q, rest[1..], false)
  {
    var r := GroupsFrom(ns, eq, rest);
    var tail := GroupsFrom(ns, eq, Select(ns, eq, q, rest[1..], false));
    assert r == [Select(ns, eq, q, rest, true)] + tail;
    forall b, k | 1 <= b < |r| && k in r[b] ensures k in Select(ns, eq, q, rest[1..], false) {
      assert k in tail[b - 1];
    }
  }

  /** With a reflexive equals, every group is non-empty, in list order and of one queue object. */
  lemma {:induction false} GroupsFromHomogeneous<F, V(!new)>(ns: Nodes<F, V>, eq: (V, V) -> bool, rest: seq<nat>)
    requires Reflexive(eq) && Increasing(rest)
    ensures Homogeneous(ns, eq, GroupsFrom(ns, eq, rest))
    decreases |rest|
  {
    var r := GroupsFrom(ns, eq, rest);
    if rest != [] {
      assert Increasing(rest[1..]);
      if QueueAt(ns, rest[0]).None? {
        assert r == GroupsFrom(ns, eq, rest[1..]);
        GroupsFromHomogeneous(ns, eq, rest[1..]);
      } else {
        var q := QueueAt(ns, rest[0]).value;
        GroupsFromOpen(ns, eq, rest, q);
        var later := Select(ns, eq, q, rest[1..], false);
        var tail := GroupsFrom(ns, eq, later);
        SelectIncreasing(ns, eq, q, rest, true);
        SelectIncreasing(ns, eq, q, rest[1..], false);
        GroupsFromHomogeneous(ns, eq, later);
        var g := Select(ns, eq, q, rest, true);
        assert OneQueueObject(ns, eq, g) by {
          assert g[0] == rest[0] && QueueAt(ns, g[0]) == Some(q);
          forall k | k in g ensures QueueEq(ns, eq, k, g[0]) {
            assert SameQueue(ns, eq, k, q);
          }
        }
        HomogeneousCons(ns, eq, g, tail);
      }
    }
  }

  /**
    With a reflexive equals, groups come in the order of the index of the node
    that opened them, and that index is below every index of a later group.
  */
  lemma {:induction false} GroupsFromOrder<F, V(!new)>(ns: Nodes<F, V>, eq: (V, V) -> bool, rest: seq<nat>)
    requires Reflexive(eq) && Increasing(rest)
    ensures OrderedByOpener(GroupsFrom(ns, eq, rest))
    decreases |rest|
  {
    var r := GroupsFrom(ns, eq, rest);
    if rest != [] {
      assert Increasing(rest[1..]);
      if QueueAt(ns, rest[0]).None? {
        assert r == GroupsFrom(ns, eq, rest[1..]);
        GroupsFromOrder(ns, eq, rest[1..]);
      } else {
        var q := QueueAt(ns, rest[0]).value;
        var later := Select(ns, eq, q, rest[1..], false);
        var tail := GroupsFrom(ns, eq, later);
        assert r == [Select(ns, eq, q, rest, true)] + tail;
        assert |r[0]| > 0 && r[0][0] == rest[0] by {
          GroupsFromOpen(ns, eq, rest, q);
        }
        SelectIncreasing(ns, eq, q, rest[1..], false);
        GroupsFromOrder(ns, eq, later);
        forall b, k | 0 <= b < |tail| && k in tail[b] ensures rest[0] < k {
          assert k in later by {
            assert r[b + 1] == tail[b];
            LaterGroupsFromLater(ns, eq, rest, q);
          }
          var i :| 0 <= i < |rest[1..]| && rest[1..][i] == k;
          assert rest[i + 1] == k;
        }
        OrderedCons(r[0], tail);
      }
    }
  }

  /** A group opened before every index of the later groups keeps them ordered by opener. */
  lemma {:induction false} OrderedCons(g: seq<nat>, tail: seq<seq<nat>>)
    requires |g| > 0 && OrderedByOpener(tail)
    requires forall b, k :: 0 <= b < |tail| && k in tail[b] ==> g[0] < k
    ensures OrderedByOpener([g] + tail)
  {
    var r := [g] + tail;
    forall a, b, k | 0 <= a < b < |r| && k in r[b] ensures |r[a]| > 0 && r[a][0] < k {
      assert k in tail[b - 1];
      if a > 0 {
        assert r[a] == tail[a - 1];
      }
    }
  }

  /**
    When equals is an equivalence relation, the groups are its classes: two
    grouped indices share a group exactly when their queue objects are equal.
  */
  lemma {:induction false} GroupsFromClasses<F, V(!new)>(ns: Nodes<F, V>, eq: (V, V) -> bool, rest: seq<nat>)
    requires EquivalenceRelation(eq)
    ensures ClassesOf(ns, eq, GroupsFrom(ns, eq, rest))
    decreases |rest|
  {
    var r := GroupsFrom(ns, eq, rest);
    if rest != [] {
      if QueueAt(ns, rest[0]).None? {
        assert r == GroupsFrom(ns, eq, rest[1..]);
        GroupsFromClasses(ns, eq, rest[1..]);
      } else {
        var q := QueueAt(ns, rest[0]).value;
        var later := Select(ns, eq, q, rest[1..], false);
        var tail := GroupsFrom(ns, eq, later);
        GroupsFromClasses(ns, eq, later);
        assert r == [Select(ns, eq, q, rest, true)] + tail;
        forall a, b, k, l | 0 <= a < |r| && 0 <= b < |r| && k in r[a] && l in r[b]
          ensures a == b <==> QueueEq(ns, eq, k, l)
        {
          var u, v := QueueAt(ns, k).value, QueueAt(ns, l).value;
          if a == 0 && b == 0 {
            assert eq(u, q) && eq(v, q);
          } else if a == 0 {
            assert l in tail[b - 1] && l in later;
            assert eq(u, q) && !eq(v, q);
          } else if b == 0 {
            assert k in tail[a - 1] && k in later;
            assert eq(v, q) && !eq(u, q);
          } else {
            assert k in tail[a - 1] && l in tail[b - 1];
          }
        }
      }
    }
  }

  /** Splitting the non-null indices of xs by whether their queue object equals q. */
  lemma {:induction false} NonNullSplit<F, V>(ns: Nodes<F, V>, eq: (V, V) -> bool, q: V, xs: seq<nat>)
    ensures multiset(NonNull(ns, xs))
         == multiset(Select(ns, eq, q, xs, true)) + multiset(NonNull(ns, Select(ns, eq, q, xs, false)))
    decreases |xs|
  {
    if xs != [] {
      var init, last := xs[..|xs| - 1], xs[|xs| - 1];
      NonNullSplit(ns, eq, q, init);
      var dropped := Select(ns, eq, q, init, false);
      if !SameQueue(ns, eq, last, q) {
        NonNullAppend(ns, dropped, [last]);
      }
    }
  }

  /**
    With a reflexive equals, the groups together hold every non-null index of
    `rest` once: their concatenation is a permutation of those indices.
  */
  lemma {:induction false} GroupsFromPermutation<F, V(!new)>(ns: Nodes<F, V>, eq: (V, V) -> bool, rest: seq<nat>)
    requires Reflexive(eq)
    ensures multiset(Concat(GroupsFrom(ns, eq, rest))) == multiset(NonNull(ns, rest))
    decreases |rest|
  {
    if rest != [] {
      assert rest == [rest[0]] + rest[1..];
      NonNullAppend(ns, [rest[0]], rest[1..]);
      match QueueAt(ns, rest[0])
      case None =>
        GroupsFromPermutation(ns, eq, rest[1..]);
      case Some(q) =>
        var later := Select(ns, eq, q, rest[1..], false);
        GroupsFromPermutation(ns, eq, later);
        assert eq(q, q);
        SelectAppend(ns, eq, q, [rest[0]], rest[1..], false);
        assert Select(ns, eq, q, rest, false) == later;
        NonNullSplit(ns, eq, q, rest);
    }
  }

  // ---------------------------------------------------------------------------
  // The groups of the whole node list
  // ---------------------------------------------------------------------------

  /** The indices of the nodes whose queue object is non-null, in list order. */
  function NonNullIndices<F, V>(ns: Nodes<F, V>): (r: seq<nat>)
    ensures forall k {:trigger k in r} :: k in r <==> 0 <= k < |ns| && ns[k].context.queueObject.Some?
  {
    NonNull(ns, Unvisited([], |ns|))
  }

  /**
    With a reflexive equals, the index groups partition the indices of the
    nodes with a non-null queue object: each such index is in exactly one
    group, and the groups together hold each of them once. Every group is
    non-empty, in list order, of one queue object, and opened by its first
    member, which is below every index of the groups after it.
  */
  lemma {:induction false} IndexGroupsPartition<F, V(!new)>(ns: Nodes<F, V>, eq: (V, V) -> bool)
    requires Reflexive(eq)
    ensures var r := IndexGroups(ns, eq);
      && Disjoint(r)
      && Homogeneous(ns, eq, r)
      && OrderedByOpener(r)
      && multiset(Concat(r)) == multiset(NonNullIndices(ns))
      && (forall k :: 0 <= k < |ns| && ns[k].context.queueObject.Some? ==> exists a :: 0 <= a < |r| && k in r[a])
  {
    var rest := Unvisited([], |ns|);
    UnvisitedIncreasing([], |ns|);
    assert IndexGroups(ns, eq) == GroupsFrom(ns, eq, rest);
    GroupsFromDisjoint(ns, eq, rest);
    GroupsFromHomogeneous(ns, eq, rest);
    GroupsFromOrder(ns, eq, rest);
    GroupsFromPermutation(ns, eq, rest);
    forall k | 0 <= k < |ns| && ns[k].context.queueObject.Some?
      ensures exists a :: 0 <= a < |IndexGroups(ns, eq)| && k in IndexGroups(ns, eq)[a]
    {
      assert k in rest && QueueAt(ns, k).Some?;
      GroupsFromCover(ns, eq, rest, k);
      var a :| 0 <= a < |GroupsFrom(ns, eq, rest)| && k in GroupsFrom(ns, eq, rest)[a];
    }
  }

  /**
    When equals is an equivalence relation, two nodes with a non-null queue
    object are in the same group exactly when their queue objects are equal.
  */
  lemma {:induction false} IndexGroupsClasses<F, V(!new)>(ns: Nodes<F, V>, eq: (V, V) -> bool)
    requires EquivalenceRelation(eq)
    ensures ClassesOf(ns, eq, IndexGroups(ns, eq))
  {
    GroupsFromClasses(ns, eq, Unvisited([], |ns|));
  }

  lemma {:induction false} NodesAtAppend<F, V>(ns: Nodes<F, V>, a: seq<nat>, b: seq<nat>)
    requires Below(a, |ns|) && Below(b, |ns|)
    ensures Below(a + b, |ns|)
    ensures NodesAt(ns, a + b) == NodesAt(ns, a) + NodesAt(ns, b)
  {
    var ab := a + b;
    forall i | 0 <= i < |ab| ensures ab[i] < |ns| {
      if i >= |a| {
        assert ab[i] == b[i - |a|];
      }
    }
  }

  /** The indices of a list of index groups are the indices of its concatenation. */
  lemma {:induction false} ConcatBelow(gs: seq<seq<nat>>, n: nat)
    requires IndicesBelow(gs, n)
    ensures Below(Concat(gs), n)
    decreases |gs|
  {
    if gs != [] {
      ConcatBelow(gs[1..], n);
      var c := Concat(gs);
      forall i | 0 <= i < |c| ensures c[i] < n {
        if i < |gs[0]| {
          assert c[i] == gs[0][i];
        } else {
          assert c[i] == Concat(gs[1..])[i - |gs[0]|];
        }
      }
    }
  }

  /** Looking up the nodes of each group and concatenating commute. */
  lemma {:induction false} NodesAtConcat<F, V>(ns: Nodes<F, V>, gs: seq<seq<nat>>)
    requires IndicesBelow(gs, |ns|)
    ensures Below(Concat(gs), |ns|)
    ensures NodesAt(ns, Concat(gs)) == Concat(NodeGroups(ns, gs))
    decreases |gs|
  {
    ConcatBelow(gs, |ns|);
    if gs != [] {
      assert IndicesBelow(gs[1..], |ns|);
      NodesAtConcat(ns, gs[1..]);
      ConcatBelow(gs[1..], |ns|);
      NodesAtAppend(ns, gs[0], Concat(gs[1..]));
      var r := NodeGroups(ns, gs);
      assert r[1..] == NodeGroups(ns, gs[1..]);
      assert r == [r[0]] + r[1..];
    }
  }

  lemma {:induction false} MultisetRemove(ys: seq<nat>, j: nat)
    requires j < |ys|
    ensures ys == ys[..j] + [ys[j]] + ys[j + 1..]
    ensures multiset(ys[..j] + ys[j + 1..]) == multiset(ys) - multiset{ys[j]}
  {
    assert ys == ys[..j] + [ys[j]] + ys[j + 1..];
  }

  lemma {:induction false} NodesAtSplit<F, V>(ns: Nodes<F, V>, ys: seq<nat>, j: nat)
    requires Below(ys, |ns|) && j < |ys|
    ensures Below(ys[..j] + ys[j + 1..], |ns|)
    ensures multiset(NodesAt(ns, ys))
         == multiset(NodesAt(ns, ys[..j] + ys[j + 1..])) + multiset{ns[ys[j]]}
  {
    var a, b := ys[..j], ys[j + 1..];
    MultisetRemove(ys, j);
    NodesAtAppend(ns, a, [ys[j]]);
    NodesAtAppend(ns, a + [ys[j]], b);
    NodesAtAppend(ns, a, b);
  }

  lemma {:induction false} PermutationBelow(xs: seq<nat>, ys: seq<nat>, n: nat)
    requires Below(xs, n) && multiset(xs) == multiset(ys)
    ensures Below(ys, n)
  {
    forall i | 0 <= i < |ys| ensures ys[i] < n {
      assert ys[i] in multiset(ys);
      var j :| 0 <= j < |xs| && xs[j] == ys[i];
    }
  }

  /** Removing the last element of xs and an equal element of ys leaves lists with the same elements. */
  lemma {:induction false} RemoveMatching(xs: seq<nat>, ys: seq<nat>) returns (j: nat)
    requires xs != [] && multiset(xs) == multiset(ys)
    ensures j < |ys| && ys[j] == xs[|xs| - 1]
    ensures multiset(xs[..|xs| - 1]) == multiset(ys[..j] + ys[j + 1..])
  {
    var n := |xs| - 1;
    assert xs[n] in multiset(ys);
    j :| 0 <= j < |ys| && ys[j] == xs[n];
    MultisetRemove(xs, n);
    MultisetRemove(ys, j);
    assert xs[..n] + xs[n + 1..] == xs[..n];
  }

  /** Removing the last index of xs and an equal index of ys keeps the node multisets in step. */
  lemma {:induction false} NodesAtRemoveLast<F, V>(ns: Nodes<F, V>, xs: seq<nat>, ys: seq<nat>, j: nat)
    requires Below(xs, |ns|) && Below(ys, |ns|) && xs != [] && j < |ys| && ys[j] == xs[|xs| - 1]
    requires Below(ys[..j] + ys[j + 1..], |ns|)
    requires multiset(NodesAt(ns, xs[..|xs| - 1])) == multiset(NodesAt(ns, ys[..j] + ys[j + 1..]))
    ensures multiset(NodesAt(ns, xs)) == multiset(NodesAt(ns, ys))
  {
    var n := |xs| - 1;
    NodesAtSplit(ns, xs, n);
    assert xs[..n] + xs[n + 1..] == xs[..n];
    NodesAtSplit(ns, ys, j);
  }

  /** Index lists with the same elements select node lists with the same elements. */
  lemma {:induction false} NodesAtPermutation<F, V>(ns: Nodes<F, V>, xs: seq<nat>, ys: seq<nat>)
    requires Below(xs, |ns|)
    requires multiset(xs) == multiset(ys)
    ensures Below(ys, |ns|)
    ensures multiset(NodesAt(ns, xs)) == multiset(NodesAt(ns, ys))
    decreases |xs|
  {
    PermutationBelow(xs, ys, |ns|);
    if xs == [] {
      assert |ys| == |multiset(ys)| == 0;
    } else {
      var n := |xs| - 1;
      var j := RemoveMatching(xs, ys);
      PermutationBelow(xs[..n], ys[..j] + ys[j + 1..], |ns|);
      NodesAtPermutation(ns, xs[..n], ys[..j] + ys[j + 1..]);
      NodesAtRemoveLast(ns, xs, ys, j);
    }
  }

  /** The nodes with a non-null queue object among the first h, one more node at a time. */
  lemma {:induction false} NodesWithQueueObjectPrefix<F, V>(ns: Nodes<F, V>, h: nat)
    requires 0 < h <= |ns|
    ensures NodesWithQueueObject(ns[..h])
         == NodesWithQueueObject(ns[..h - 1]) + (if ns[h - 1].context.queueObject.Some? then [ns[h - 1]] else [])
  {
    var p := ns[..h];
    assert p[..|p| - 1] == ns[..h - 1];
  }

  lemma {:induction false} NonNullOne<F, V>(ns: Nodes<F, V>, k: nat)
    ensures NonNull(ns, [k]) == if QueueAt(ns, k).Some? then [k] else []
  {
    assert [k][..0] == [];
  }

  lemma {:induction false} NodesAtOne<F, V>(ns: Nodes<F, V>, k: nat)
    requires k < |ns|
    ensures Below([k], |ns|) && NodesAt(ns, [k]) == [ns[k]]
  {
    var one := NodesAt(ns, [k]);
    assert |one| == 1 && one[0] == ns[k];
  }

  lemma {:induction false} NodesAtNonNull<F, V>(ns: Nodes<F, V>, h: nat)
    requires h <= |ns|
    ensures Below(NonNull(ns, Unvisited([], h)), |ns|)
    ensures NodesAt(ns, NonNull(ns, Unvisited([], h))) == NodesWithQueueObject(ns[..h])
  {
    var xs := NonNull(ns, Unvisited([], h));
    forall i | 0 <= i < |xs| ensures xs[i] < |ns| {
      assert xs[i] in xs;
    }
    if h > 0 {
      NodesAtNonNull(ns, h - 1);
      var u := Unvisited([], h - 1);
      var pre, now := NonNull(ns, u), NonNull(ns, [h - 1]);
      assert Unvisited([], h) == u + [h - 1];
      NonNullAppend(ns, u, [h - 1]);
      NonNullOne(ns, h - 1);
      NodesAtOne(ns, h - 1);
      assert xs == pre + now;
      NodesAtAppend(ns, pre, now);
      NodesWithQueueObjectPrefix(ns, h);
    }
  }

  /**
    With a reflexive equals, the node groups together hold exactly the nodes
    with a non-null queue object, each as often as it occurs in the list.
  */
  lemma {:induction false} GroupsPermutation<F, V(!new)>(ns: Nodes<F, V>, eq: (V, V) -> bool)
    requires Reflexive(eq)
    ensures multiset(Concat(Groups(ns, eq))) == multiset(NodesWithQueueObject(ns))
  {
    var r := IndexGroups(ns, eq);
    IndexGroupsPartition(ns, eq);
    NodesAtConcat(ns, r);
    NodesAtPermutation(ns, Concat(r), NonNullIndices(ns));
    NodesAtNonNull(ns, |ns|);
    assert ns[..|ns|] == ns;
  }
}
