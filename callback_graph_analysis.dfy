/**
  CallbackGraphAnalysis: the broken-promise detector. It groups the callbacks
  of a callback graph by the queue object they were registered on, and writes
  one warning paragraph for every group of two or more callbacks, both to the
  given PrintWriter and as its result.

  A Value is a type parameter V: `eq` stands for Value.equals and `lines` for
  the line numbers of getObjectSourceLocations(), in the order returned.
*/
module BrokenPromiseAnalysis {
  import opened Wrappers
  import opened CallbackGraph
  import opened QueueObjectGrouping
  import opened JavaStrings
  import opened BrokenPromiseReport

  /** java.io.PrintWriter, reduced to the lines printed on it so far. */
  class PrintWriter {
    var printed: seq<string>

    constructor ()
      ensures printed == []
    {
      printed := [];
    }

    /** println: prints `s` as one more line. */
    method Println(s: string)
      modifies this
      ensures printed == old(printed) + [s]
    {
      printed := printed + [s];
    }
  }

  // ---------------------------------------------------------------------------
  // The line numbers of a node's values
  // ---------------------------------------------------------------------------

  /** getDependentQueueObjectLineNumber: the lines of the value the callback produces. */
  function DependentQueueObjectLineNumber<F, V>(lines: V -> seq<int>, node: CallbackGraphNode<F, V>): (s: string)
    ensures ParseLineNumbers(s) == Some(lines(node.context.dependentQueueObject))
  {
    ParseLineNumbersText(lines(node.context.dependentQueueObject));
    LineNumbersText(lines(node.context.dependentQueueObject))
  }

  /**
    getQueueObjectLineNumber: the lines of the queue object the callback was
    registered on. The Java method dereferences the queue object, so callers
    must not pass a node whose queue object is null.
  */
  function QueueObjectLineNumber<F, V>(lines: V -> seq<int>, node: CallbackGraphNode<F, V>): (s: string)
    requires node.context.queueObject.Some?
    ensures ParseLineNumbers(s) == Some(lines(node.context.queueObject.value))
  {
    ParseLineNumbersText(lines(node.context.queueObject.value));
    LineNumbersText(lines(node.context.queueObject.value))
  }

  /** The dependent-object line texts of `nodes`, in order (the stream map of findBrokenPromise). */
  function DependentLineTexts<F, V>(lines: V -> seq<int>, nodes: Nodes<F, V>): (r: seq<string>)
    ensures |r| == |nodes|
    ensures forall i :: 0 <= i < |nodes| ==> r[i] == DependentQueueObjectLineNumber(lines, nodes[i])
  {
    if nodes == [] then [] else [DependentQueueObjectLineNumber(lines, nodes[0])] + DependentLineTexts(lines, nodes[1..])
  }

  // ---------------------------------------------------------------------------
  // What the report says about the groups
  // ---------------------------------------------------------------------------

  /** Every node of every group has a non-null queue object. */
  ghost predicate Queued<F, V>(gs: seq<Nodes<F, V>>) {
    forall a, i :: 0 <= a < |gs| && 0 <= i < |gs[a]| ==> gs[a][i].context.queueObject.Some?
  }

  /** The dependent-object lines of each node of `nodes`, in order. */
  function DependentLines<F, V>(lines: V -> seq<int>, nodes: Nodes<F, V>): (r: seq<seq<int>>)
    ensures |r| == |nodes|
    ensures forall i :: 0 <= i < |nodes| ==> r[i] == lines(nodes[i].context.dependentQueueObject)
  {
    if nodes == [] then [] else [lines(nodes[0].context.dependentQueueObject)] + DependentLines(lines, nodes[1..])
  }

  /**
    The warning for a group of two or more nodes: the dependent lines of all
    its members, and the queue-object lines of its last member.
  */
  function WarningOf<F, V>(lines: V -> seq<int>, g: Nodes<F, V>): (w: Warning)
    requires |g| > 1 && g[|g| - 1].context.queueObject.Some?
    ensures WellFormed(w)
  {
    Warning(DependentLines(lines, g), lines(g[|g| - 1].context.queueObject.value))
  }

  /** One warning per group of more than one node, in group order. */
  function Warnings<F, V>(lines: V -> seq<int>, gs: seq<Nodes<F, V>>): (ws: seq<Warning>)
    requires Queued(gs)
    ensures |ws| <= |gs|
    ensures forall j :: 0 <= j < |ws| ==> WellFormed(ws[j])
    decreases |gs|
  {
    if gs == [] then []
    else
      var init, last := gs[..|gs| - 1], gs[|gs| - 1];
      assert Queued(init);
      Warnings(lines, init) + (if |last| > 1 then [WarningOf(lines, last)] else [])
  }

  /** The text findBrokenPromise writes for the groups of `ns`. */
  function Report<F, V>(ns: Nodes<F, V>, eq: (V, V) -> bool, lines: V -> seq<int>): string {
    GroupsQueued(ns, eq);
    Render(Warnings(lines, Groups(ns, eq)))
  }

  /** Grouping never places a node with a null queue object in a group. */
  lemma {:induction false} GroupsQueued<F, V>(ns: Nodes<F, V>, eq: (V, V) -> bool)
    ensures Queued(Groups(ns, eq))
  {
    var ig := IndexGroups(ns, eq);
    var gs: seq<Nodes<F, V>> := Groups(ns, eq);
    forall a, i | 0 <= a < |gs| && 0 <= i < |gs[a]| ensures gs[a][i].context.queueObject.Some? {
      assert gs[a] == NodesAt(ns, ig[a]);
      assert ig[a][i] in ig[a];
    }
  }

  // ---------------------------------------------------------------------------
  // The class
  // ---------------------------------------------------------------------------

  class CallbackGraphAnalysis<F, V> {
    /** cbg.getAllCallbacks(), in the order the graph returns them. */
    const callbacks: Nodes<F, V>
    /** Value.equals. */
    const eq: (V, V) -> bool
    /** The line numbers of a value's allocation sites. */
    const lines: V -> seq<int>

    constructor (callbacks: Nodes<F, V>, eq: (V, V) -> bool, lines: V -> seq<int>)
      ensures this.callbacks == callbacks && this.eq == eq && this.lines == lines
    {
      this.callbacks := callbacks;
      this.eq := eq;
      this.lines := lines;
    }

    /**
      groupSourceNodesByQueueObject: for each unvisited node with a non-null
      queue object, in list order, the list of unvisited nodes whose queue
      object equals it, each of which is then marked visited.
    */
    method GroupSourceNodesByQueueObject() returns (allNodesWithSameQ: seq<Nodes<F, V>>)
      ensures allNodesWithSameQ == Groups(callbacks, eq)
    {
      var sourceNodes := callbacks;
      var n := |sourceNodes|;
      var visitedIndexes: seq<int> := [];
      allNodesWithSameQ := [];
      ghost var indexGroups: seq<seq<nat>> := [];
      var outerIndex := 0;
      while outerIndex < n
        invariant 0 <= outerIndex <= n
        invariant OuterScanned(sourceNodes, eq, outerIndex, visitedIndexes, indexGroups, allNodesWithSameQ)
      {
        var node := sourceNodes[outerIndex];
        var nodeQ := node.context.queueObject;
        if outerIndex !in visitedIndexes && nodeQ.Some? {
          ghost var visited0 := visitedIndexes;
          var innerIndex := 0;
          var nodesWithSameQ: Nodes<F, V> := [];
          ghost var group: seq<nat> := [];
          while innerIndex < n
            invariant 0 <= innerIndex <= n
            invariant InnerScanned(sourceNodes, eq, nodeQ.value, visited0, innerIndex, visitedIndexes, group, nodesWithSameQ)
          {
            var comparedNode := sourceNodes[innerIndex];
            var comparedNodeQ := comparedNode.context.queueObject;
            if comparedNodeQ.Some? && innerIndex !in visitedIndexes && eq(comparedNodeQ.value, nodeQ.value) {
              assert InnerScanned(sourceNodes, eq, nodeQ.value, visited0, innerIndex + 1, visitedIndexes + [innerIndex],
                                  group + [innerIndex], nodesWithSameQ + [comparedNode]) by {
                InnerJoin(sourceNodes, eq, nodeQ.value, visited0, innerIndex, visitedIndexes, group, nodesWithSameQ);
              }
              nodesWithSameQ := nodesWithSameQ + [comparedNode];
              visitedIndexes := visitedIndexes + [innerIndex];
              group := group + [innerIndex];
            } else {
              assert InnerScanned(sourceNodes, eq, nodeQ.value, visited0, innerIndex + 1, visitedIndexes, group, nodesWithSameQ) by {
                InnerPass(sourceNodes, eq, nodeQ.value, visited0, innerIndex, visitedIndexes, group, nodesWithSameQ);
              }
            }
            innerIndex := innerIndex + 1;
          }
          assert OuterScanned(sourceNodes, eq, outerIndex + 1, visitedIndexes + [outerIndex],
                              indexGroups + [group], allNodesWithSameQ + [nodesWithSameQ]) by {
            OuterOpen(sourceNodes, eq, outerIndex, visited0, indexGroups, allNodesWithSameQ,
                      visitedIndexes, group, nodesWithSameQ);
          }
          allNodesWithSameQ := allNodesWithSameQ + [nodesWithSameQ];
          indexGroups := indexGroups + [group];
        } else {
          OuterSkip(sourceNodes, eq, outerIndex, visitedIndexes, indexGroups, allNodesWithSameQ);
        }
        visitedIndexes := visitedIndexes + [outerIndex];
        outerIndex := outerIndex + 1;
      }
      OuterDone(sourceNodes, eq, visitedIndexes, indexGroups, allNodesWithSameQ);
    }

    /**
      findBrokenPromise: one paragraph per group of more than one callback,
      printed on `out` as one println and returned.
    */
    method FindBrokenPromise(out: PrintWriter) returns (r: string)
      modifies out
      ensures r == Report(callbacks, eq, lines)
      ensures out.printed == old(out.printed) + [r]
    {
      var warnings := "";
      var groupedNodesByQ := GroupSourceNodesByQueueObject();
      GroupsQueued(callbacks, eq);
      ReportStart(lines, groupedNodesByQ);
      var i := 0;
      while i < |groupedNodesByQ|
        invariant 0 <= i <= |groupedNodesByQ|
        invariant Reported(lines, groupedNodesByQ, i, warnings)
        invariant out.printed == old(out.printed)
      {
        var groupOfNodes := groupedNodesByQ[i];
        if |groupOfNodes| > 1 {
          var lastIndex := |groupOfNodes| - 1;
          ghost var before := warnings;
          warnings := warnings + Opening;
          var formattedLinesNumbers := Join(", ", DependentLineTexts(lines, groupOfNodes[..lastIndex]));
          var lastNode := groupOfNodes[lastIndex];
          assert lastNode.context.queueObject.Some?;
          warnings := warnings + formattedLinesNumbers + " and " + DependentQueueObjectLineNumber(lines, lastNode)
            + "!\n" + ForkedFrom + QueueObjectLineNumber(lines, lastNode) + ".\n";
          assert Reported(lines, groupedNodesByQ, i + 1, warnings) by {
            ReportGroup(lines, groupedNodesByQ, i, before);
          }
        } else {
          ReportSkip(lines, groupedNodesByQ, i, warnings);
        }
        i := i + 1;
      }
      ReportDone(lines, groupedNodesByQ, warnings);
      out.Println(warnings);
      r := warnings;
    }
  }

  // ---------------------------------------------------------------------------
  // Bookkeeping of the loop of findBrokenPromise
  // ---------------------------------------------------------------------------

  /** After the first i groups, the text holds the paragraphs of their warnings. */
  ghost predicate Reported<F, V>(lines: V -> seq<int>, gs: seq<Nodes<F, V>>, i: nat, text: string) {
    i <= |gs| && Queued(gs[..i]) && text == Render(Warnings(lines, gs[..i]))
  }

  lemma {:induction false} ReportStart<F, V>(lines: V -> seq<int>, gs: seq<Nodes<F, V>>)
    ensures Reported(lines, gs, 0, "")
  {
    assert gs[..0] == [];
  }

  /** One more group's warnings: none for a group of at most one node, its paragraph otherwise. */
  lemma {:induction false} WarningsStep<F, V>(lines: V -> seq<int>, gs: seq<Nodes<F, V>>, i: nat)
    requires Queued(gs) && i < |gs|
    ensures Queued(gs[..i]) && Queued(gs[..i + 1])
    ensures Warnings(lines, gs[..i + 1])
         == Warnings(lines, gs[..i]) + (if |gs[i]| > 1 then [WarningOf(lines, gs[i])] else [])
  {
    var p := gs[..i + 1];
    assert p[..|p| - 1] == gs[..i] && p[|p| - 1] == gs[i];
  }

  lemma {:induction false} ReportSkip<F, V>(lines: V -> seq<int>, gs: seq<Nodes<F, V>>, i: nat, text: string)
    requires Queued(gs) && i < |gs| && |gs[i]| <= 1 && Reported(lines, gs, i, text)
    ensures Reported(lines, gs, i + 1, text)
  {
    WarningsStep(lines, gs, i);
    assert Warnings(lines, gs[..i]) + [] == Warnings(lines, gs[..i]);
  }

  lemma {:induction false} ReportGroup<F, V>(lines: V -> seq<int>, gs: seq<Nodes<F, V>>, i: nat, text: string)
    requires Queued(gs) && i < |gs| && |gs[i]| > 1 && Reported(lines, gs, i, text)
    ensures var g, n := gs[i], |gs[i]| - 1;
      Reported(lines, gs, i + 1,
        text + Opening + Join(", ", DependentLineTexts(lines, g[..n])) + " and "
          + DependentQueueObjectLineNumber(lines, g[n]) + "!\n" + ForkedFrom
          + QueueObjectLineNumber(lines, g[n]) + ".\n")
  {
    var g := gs[i];
    WarningsStep(lines, gs, i);
    ParagraphOfGroup(lines, g, text);
    RenderSnoc(Warnings(lines, gs[..i]), WarningOf(lines, g));
  }

  lemma {:induction false} ReportDone<F, V>(lines: V -> seq<int>, gs: seq<Nodes<F, V>>, text: string)
    requires Queued(gs) && Reported(lines, gs, |gs|, text)
    ensures text == Render(Warnings(lines, gs))
  {
    assert gs[..|gs|] == gs;
  }

  // ---------------------------------------------------------------------------
  // Bookkeeping of the two loops of groupSourceNodesByQueueObject
  // ---------------------------------------------------------------------------

  /**
    What the outer loop of groupSourceNodesByQueueObject has done after the
    indices below i: all of them are visited, the groups collected so far
    followed by GroupsFrom of what is still unvisited are the groups of the
    whole list, and each node group holds the nodes of its index group.
  */
  ghost predicate OuterScanned<F, V>(ns: Nodes<F, V>, eq: (V, V) -> bool, i: nat, visited: seq<int>,
                                     indexGroups: seq<seq<nat>>, nodeGroups: seq<Nodes<F, V>>) {
    && (forall k :: 0 <= k < i ==> k in visited)
    && IndicesBelow(indexGroups, |ns|)
    && indexGroups + GroupsFrom(ns, eq, Unvisited(visited, |ns|)) == IndexGroups(ns, eq)
    && nodeGroups == NodeGroups(ns, indexGroups)
  }

  /**
    What the inner loop has done after scanning the indices below i for the
    queue object q: the group holds, in order, the indices that were unvisited
    and whose queue object equals q, exactly those were marked visited, and the
    node list holds their nodes.
  */
  ghost predicate InnerScanned<F, V>(ns: Nodes<F, V>, eq: (V, V) -> bool, q: V, visited0: seq<int>, i: nat,
                                     visited: seq<int>, group: seq<nat>, nodes: Nodes<F, V>) {
    && visited == visited0 + group
    && group == Select(ns, eq, q, Unvisited(visited0, i), true)
    && Below(group, |ns|)
    && nodes == NodesAt(ns, group)
  }

  /** Node i is unvisited and its queue object equals q: it joins the group and is marked visited. */
  lemma {:induction false} InnerJoin<F, V>(ns: Nodes<F, V>, eq: (V, V) -> bool, q: V, visited0: seq<int>, i: nat,
                                          visited: seq<int>, group: seq<nat>, nodes: Nodes<F, V>)
    requires i < |ns| && InnerScanned(ns, eq, q, visited0, i, visited, group, nodes)
    requires ns[i].context.queueObject.Some? && i !in visited && eq(ns[i].context.queueObject.value, q)
    ensures InnerScanned(ns, eq, q, visited0, i + 1, visited + [i], group + [i], nodes + [ns[i]])
  {
    var u := Unvisited(visited0, i);
    assert Unvisited(visited0, i + 1) == u + [i];
    SelectAppend(ns, eq, q, u, [i], true);
    assert [i][..0] == [];
    NodesAtSnoc(ns, group, i);
    SeqAppendAssociative(visited0, group, [i]);
  }

  /** Otherwise node i is left as it was. */
  lemma {:induction false} InnerPass<F, V>(ns: Nodes<F, V>, eq: (V, V) -> bool, q: V, visited0: seq<int>, i: nat,
                                          visited: seq<int>, group: seq<nat>, nodes: Nodes<F, V>)
    requires i < |ns| && InnerScanned(ns, eq, q, visited0, i, visited, group, nodes)
    requires !(ns[i].context.queueObject.Some? && i !in visited && eq(ns[i].context.queueObject.value, q))
    ensures InnerScanned(ns, eq, q, visited0, i + 1, visited, group, nodes)
  {
    var u := Unvisited(visited0, i);
    assert i !in group;
    if i !in visited0 {
      assert Unvisited(visited0, i + 1) == u + [i];
      SelectAppend(ns, eq, q, u, [i], true);
      assert [i][..0] == [];
    }
  }

  /** The outer loop opens a group at index i and the inner loop has filled it. */
  lemma {:induction false} OuterOpen<F, V>(ns: Nodes<F, V>, eq: (V, V) -> bool, i: nat, visited0: seq<int>,
                                          indexGroups: seq<seq<nat>>, nodeGroups: seq<Nodes<F, V>>,
                                          visited: seq<int>, group: seq<nat>, nodes: Nodes<F, V>)
    requires i < |ns| && OuterScanned(ns, eq, i, visited0, indexGroups, nodeGroups)
    requires i !in visited0 && ns[i].context.queueObject.Some?
    requires InnerScanned(ns, eq, ns[i].context.queueObject.value, visited0, |ns|, visited, group, nodes)
    ensures OuterScanned(ns, eq, i + 1, visited + [i], indexGroups + [group], nodeGroups + [nodes])
  {
    var q := ns[i].context.queueObject.value;
    VisitedExtend(visited0, group, i);
    OpenGroups(ns, eq, q, i, visited0, indexGroups);
    NodeGroupsSnoc(ns, indexGroups, group);
  }

  lemma {:induction false} VisitedExtend(v0: seq<int>, g: seq<nat>, i: nat)
    requires forall k :: 0 <= k < i ==> k in v0
    ensures forall k :: 0 <= k < i + 1 ==> k in v0 + g + [i]
  {
  }

  lemma {:induction false} OpenGroups<F, V>(ns: Nodes<F, V>, eq: (V, V) -> bool, q: V, i: nat, v0: seq<int>,
                                           indexGroups: seq<seq<nat>>)
    requires i < |ns| && ns[i].context.queueObject == Some(q) && i !in v0
    requires forall k :: 0 <= k < i ==> k in v0
    requires indexGroups + GroupsFrom(ns, eq, Unvisited(v0, |ns|)) == IndexGroups(ns, eq)
    ensures var g := Select(ns, eq, q, Unvisited(v0, |ns|), true);
      (indexGroups + [g]) + GroupsFrom(ns, eq, Unvisited(v0 + g + [i], |ns|)) == IndexGroups(ns, eq)
  {
    var g := Select(ns, eq, q, Unvisited(v0, |ns|), true);
    OuterGroupStep(ns, eq, q, v0, i);
    SeqAppendAssociative(indexGroups, [g], GroupsFrom(ns, eq, Unvisited(v0 + g + [i], |ns|)));
  }

  /** The outer loop skips index i, already visited or with a null queue object. */
  lemma {:induction false} OuterSkip<F, V>(ns: Nodes<F, V>, eq: (V, V) -> bool, i: nat, visited: seq<int>,
                                          indexGroups: seq<seq<nat>>, nodeGroups: seq<Nodes<F, V>>)
    requires i < |ns| && OuterScanned(ns, eq, i, visited, indexGroups, nodeGroups)
    requires i in visited || ns[i].context.queueObject.None?
    ensures OuterScanned(ns, eq, i + 1, visited + [i], indexGroups, nodeGroups)
  {
    VisitedMark(visited, i);
    SkipGroups(ns, eq, i, visited, indexGroups);
  }

  lemma {:induction false} VisitedMark(visited: seq<int>, i: nat)
    requires forall k :: 0 <= k < i ==> k in visited
    ensures forall k :: 0 <= k < i + 1 ==> k in visited + [i]
  {
  }

  lemma {:induction false} SkipGroups<F, V>(ns: Nodes<F, V>, eq: (V, V) -> bool, i: nat, visited: seq<int>,
                                           indexGroups: seq<seq<nat>>)
    requires i < |ns| && forall k :: 0 <= k < i ==> k in visited
    requires i in visited || ns[i].context.queueObject.None?
    requires indexGroups + GroupsFrom(ns, eq, Unvisited(visited, |ns|)) == IndexGroups(ns, eq)
    ensures indexGroups + GroupsFrom(ns, eq, Unvisited(visited + [i], |ns|)) == IndexGroups(ns, eq)
  {
    OuterSkipStep(ns, eq, visited, i);
  }

  /** When the outer loop ends, the collected groups are the groups of the whole list. */
  lemma {:induction false} OuterDone<F, V>(ns: Nodes<F, V>, eq: (V, V) -> bool, visited: seq<int>,
                                          indexGroups: seq<seq<nat>>, nodeGroups: seq<Nodes<F, V>>)
    requires OuterScanned(ns, eq, |ns|, visited, indexGroups, nodeGroups)
    ensures nodeGroups == Groups(ns, eq)
  {
    UnvisitedNone(visited, |ns|);
    assert indexGroups + [] == indexGroups;
  }

  /**
    The outer loop opens a group at index i: once the inner loop has marked the
    group and the outer loop has marked i, what is still unvisited is what
    GroupsFrom continues with.
  */
  lemma {:induction false} OuterGroupStep<F, V>(ns: Nodes<F, V>, eq: (V, V) -> bool, q: V, v0: seq<int>, i: nat)
    requires i < |ns| && ns[i].context.queueObject == Some(q) && i !in v0
    requires forall k :: 0 <= k < i ==> k in v0
    ensures var g := Select(ns, eq, q, Unvisited(v0, |ns|), true);
      GroupsFrom(ns, eq, Unvisited(v0, |ns|)) == [g] + GroupsFrom(ns, eq, Unvisited(v0 + g + [i], |ns|))
  {
    var n := |ns|;
    var rest := Unvisited(v0, n);
    var g := Select(ns, eq, q, rest, true);
    UnvisitedFirst(v0, i, n);
    assert rest[0] == i && rest[1..] == Unvisited(v0 + [i], n);
    forall k | 0 <= k < n ensures (k in v0 + g + [i] <==> k in v0 + [i] || SameQueue(ns, eq, k, q)) {
      if k in g {
        assert k in rest;
      }
    }
    UnvisitedAfterGroup(ns, eq, q, v0 + [i], v0 + g + [i], n);
  }

  /** The outer loop skips index i, already visited or with a null queue object. */
  lemma {:induction false} OuterSkipStep<F, V>(ns: Nodes<F, V>, eq: (V, V) -> bool, v: seq<int>, i: nat)
    requires i < |ns|
    requires forall k :: 0 <= k < i ==> k in v
    requires i in v || ns[i].context.queueObject.None?
    ensures GroupsFrom(ns, eq, Unvisited(v + [i], |ns|)) == GroupsFrom(ns, eq, Unvisited(v, |ns|))
  {
    var n := |ns|;
    if i in v {
      forall k | 0 <= k < n ensures (k in v <==> k in v + [i]) {
      }
      UnvisitedSame(v, v + [i], n);
    } else {
      UnvisitedFirst(v, i, n);
      var rest := Unvisited(v, n);
      assert rest[0] == i && rest[1..] == Unvisited(v + [i], n);
    }
  }

  lemma {:induction false} SeqAppendAssociative<T>(a: seq<T>, b: seq<T>, c: seq<T>)
    ensures a + (b + c) == (a + b) + c
  {
  }

  lemma {:induction false} NodesAtSnoc<F, V>(ns: Nodes<F, V>, g: seq<nat>, k: nat)
    requires Below(g, |ns|) && k < |ns|
    ensures Below(g + [k], |ns|)
    ensures NodesAt(ns, g + [k]) == NodesAt(ns, g) + [ns[k]]
  {
    assert (g + [k])[..|g|] == g;
  }

  lemma {:induction false} NodeGroupsSnoc<F, V>(ns: Nodes<F, V>, gs: seq<seq<nat>>, g: seq<nat>)
    requires IndicesBelow(gs, |ns|) && Below(g, |ns|)
    ensures IndicesBelow(gs + [g], |ns|)
    ensures NodeGroups(ns, gs + [g]) == NodeGroups(ns, gs) + [NodesAt(ns, g)]
  {
    assert (gs + [g])[..|gs|] == gs;
  }

  // ---------------------------------------------------------------------------
  // The paragraph findBrokenPromise appends for one group
  // ---------------------------------------------------------------------------

  lemma {:induction false} DependentLineTextsAre<F, V>(lines: V -> seq<int>, nodes: Nodes<F, V>)
    ensures DependentLineTexts(lines, nodes) == LineTexts(DependentLines(lines, nodes))
  {
    var a, b := DependentLineTexts(lines, nodes), LineTexts(DependentLines(lines, nodes));
    assert |a| == |b|;
    forall i | 0 <= i < |a| ensures a[i] == b[i] {
    }
  }

  /** The appends of findBrokenPromise, one after the other, add the paragraph. */
  lemma {:induction false} AppendParagraph(p: string, x: string, y: string, z: string)
    ensures p + Opening + x + " and " + y + "!\n" + ForkedFrom + z + ".\n" == p + Paragraph(x, y, z)
  {
  }

  /** What findBrokenPromise appends for a group of more than one node is the group's warning paragraph. */
  lemma {:induction false} ParagraphOfGroup<F, V>(lines: V -> seq<int>, g: Nodes<F, V>, p: string)
    requires |g| > 1 && g[|g| - 1].context.queueObject.Some?
    ensures var n := |g| - 1;
      p + Opening + Join(", ", DependentLineTexts(lines, g[..n])) + " and "
        + DependentQueueObjectLineNumber(lines, g[n]) + "!\n" + ForkedFrom
        + QueueObjectLineNumber(lines, g[n]) + ".\n"
      == p + RenderWarning(WarningOf(lines, g))
  {
    var n := |g| - 1;
    var w := WarningOf(lines, g);
    DependentLineTextsAre(lines, g[..n]);
    assert DependentLines(lines, g[..n]) == w.dependentLines[..n];
    assert w.dependentLines[n] == lines(g[n].context.dependentQueueObject);
    AppendParagraph(p, Join(", ", DependentLineTexts(lines, g[..n])),
      DependentQueueObjectLineNumber(lines, g[n]), QueueObjectLineNumber(lines, g[n]));
  }

  // ---------------------------------------------------------------------------
  // What the report says, for all inputs
  // ---------------------------------------------------------------------------

  /** No warning is made exactly when every group has at most one node. */
  lemma {:induction false} WarningsEmpty<F, V>(lines: V -> seq<int>, gs: seq<Nodes<F, V>>)
    requires Queued(gs)
    ensures Warnings(lines, gs) == [] <==> forall a :: 0 <= a < |gs| ==> |gs[a]| <= 1
    decreases |gs|
  {
    if gs != [] {
      var init, last := gs[..|gs| - 1], gs[|gs| - 1];
      assert Queued(init);
      WarningsEmpty(lines, init);
      if forall a :: 0 <= a < |gs| ==> |gs[a]| <= 1 {
        forall a | 0 <= a < |init| ensures |init[a]| <= 1 {
          assert init[a] == gs[a];
        }
      } else {
        var a :| 0 <= a < |gs| && |gs[a]| > 1;
        if a < |init| {
          assert init[a] == gs[a];
        }
      }
    }
  }

  /** Every group of more than one node has its warning among the warnings. */
  lemma {:induction false} GroupWarned<F, V>(lines: V -> seq<int>, gs: seq<Nodes<F, V>>, a: nat)
    requires Queued(gs) && a < |gs| && |gs[a]| > 1
    ensures WarningOf(lines, gs[a]) in Warnings(lines, gs)
    decreases |gs|
  {
    var init := gs[..|gs| - 1];
    assert Queued(init);
    if a < |init| {
      assert init[a] == gs[a];
      GroupWarned(lines, init, a);
    }
  }

  /** Every warning is the warning of a group of more than one node. */
  lemma {:induction false} WarningOfSomeGroup<F, V>(lines: V -> seq<int>, gs: seq<Nodes<F, V>>, w: Warning)
    requires Queued(gs) && w in Warnings(lines, gs)
    ensures exists a :: 0 <= a < |gs| && |gs[a]| > 1 && w == WarningOf(lines, gs[a])
    decreases |gs|
  {
    var init, last := gs[..|gs| - 1], gs[|gs| - 1];
    assert Queued(init);
    if w in Warnings(lines, init) {
      WarningOfSomeGroup(lines, init, w);
      var a :| 0 <= a < |init| && |init[a]| > 1 && w == WarningOf(lines, init[a]);
      assert init[a] == gs[a];
    } else {
      assert |last| > 1 && w == WarningOf(lines, gs[|gs| - 1]);
    }
  }

  /** Each warning is that of a group of more than one node, and each such group has its warning. */
  lemma {:induction false} WarningsOfGroups<F, V>(lines: V -> seq<int>, gs: seq<Nodes<F, V>>, w: Warning)
    requires Queued(gs)
    ensures w in Warnings(lines, gs) <==> exists a :: 0 <= a < |gs| && |gs[a]| > 1 && w == WarningOf(lines, gs[a])
  {
    if w in Warnings(lines, gs) {
      WarningOfSomeGroup(lines, gs, w);
    } else if exists a :: 0 <= a < |gs| && |gs[a]| > 1 && w == WarningOf(lines, gs[a]) {
      var a :| 0 <= a < |gs| && |gs[a]| > 1 && w == WarningOf(lines, gs[a]);
      GroupWarned(lines, gs, a);
    }
  }

  /** The report is empty exactly when no group has more than one callback. */
  lemma {:induction false} ReportEmpty<F, V>(ns: Nodes<F, V>, eq: (V, V) -> bool, lines: V -> seq<int>)
    ensures Report(ns, eq, lines) == "" <==> forall a :: 0 <= a < |Groups(ns, eq)| ==> |Groups(ns, eq)[a]| <= 1
  {
    var gs: seq<Nodes<F, V>> := Groups(ns, eq);
    GroupsQueued(ns, eq);
    RenderEmpty(Warnings(lines, gs));
    WarningsEmpty(lines, gs);
  }

  /** The report reads back as the warnings of the groups of more than one callback. */
  lemma {:induction false} ReportReadsBack<F, V>(ns: Nodes<F, V>, eq: (V, V) -> bool, lines: V -> seq<int>)
    ensures Queued(Groups(ns, eq))
    ensures ParseReport(Report(ns, eq, lines)) == Some(Warnings(lines, Groups(ns, eq)))
  {
    GroupsQueued(ns, eq);
    ParseRender(Warnings(lines, Groups(ns, eq)));
  }

  /** Two callbacks on equal queue objects end up together in one group of more than one callback. */
  lemma {:induction false} PairMakesGroup<F, V(!new)>(ns: Nodes<F, V>, eq: (V, V) -> bool, k: nat, l: nat)
    requires EquivalenceRelation(eq)
    requires k < l < |ns| && QueueEq(ns, eq, l, k)
    ensures exists a :: 0 <= a < |IndexGroups(ns, eq)| && k in IndexGroups(ns, eq)[a] && l in IndexGroups(ns, eq)[a]
                     && |Groups(ns, eq)[a]| > 1
  {
    var r := IndexGroups(ns, eq);
    IndexGroupsPartition(ns, eq);
    IndexGroupsClasses(ns, eq);
    var a :| 0 <= a < |r| && k in r[a];
    var b :| 0 <= b < |r| && l in r[b];
    assert a == b;
    assert |r[a]| > 1;
    assert |Groups(ns, eq)[a]| == |r[a]|;
  }

  /** A group of more than one callback holds two callbacks on equal queue objects. */
  lemma {:induction false} GroupMakesPair<F, V(!new)>(ns: Nodes<F, V>, eq: (V, V) -> bool, a: nat)
    requires Reflexive(eq)
    requires a < |Groups(ns, eq)| && |Groups(ns, eq)[a]| > 1
    ensures exists k, l :: k in IndexGroups(ns, eq)[a] && l in IndexGroups(ns, eq)[a] && k < l < |ns| && QueueEq(ns, eq, l, k)
  {
    var r := IndexGroups(ns, eq);
    IndexGroupsPartition(ns, eq);
    assert |r[a]| > 1 && OneQueueObject(ns, eq, r[a]);
    var k, l := r[a][0], r[a][1];
    assert l in r[a];
    assert QueueEq(ns, eq, l, k) && l < |ns|;
    assert k < l;
  }

  /**
    When Value.equals is an equivalence relation, findBrokenPromise reports
    nothing exactly when no callback was registered on a non-null queue object
    equal to that of an earlier callback.
  */
  lemma {:induction false} NoBrokenPromise<F, V(!new)>(ns: Nodes<F, V>, eq: (V, V) -> bool, lines: V -> seq<int>)
    requires EquivalenceRelation(eq)
    ensures Report(ns, eq, lines) == "" <==> !exists k, l :: 0 <= k < l < |ns| && QueueEq(ns, eq, l, k)
  {
    ReportEmpty(ns, eq, lines);
    if exists k, l :: 0 <= k < l < |ns| && QueueEq(ns, eq, l, k) {
      var k, l :| 0 <= k < l < |ns| && QueueEq(ns, eq, l, k);
      PairMakesGroup(ns, eq, k, l);
    } else if exists a :: 0 <= a < |Groups(ns, eq)| && |Groups(ns, eq)[a]| > 1 {
      var a :| 0 <= a < |Groups(ns, eq)| && |Groups(ns, eq)[a]| > 1;
      GroupMakesPair(ns, eq, a);
    }
  }

  /**
    Recording the same registration twice is enough for a warning: the
    grouping keeps duplicates, so both copies land in one group.
  */
  lemma {:induction false} DuplicateReported<F, V(!new)>(ns: Nodes<F, V>, eq: (V, V) -> bool, lines: V -> seq<int>,
                                                        k: nat, l: nat)
    requires EquivalenceRelation(eq)
    requires k < l < |ns| && ns[k] == ns[l] && ns[k].context.queueObject.Some?
    ensures Report(ns, eq, lines) != ""
  {
    assert QueueEq(ns, eq, l, k);
    NoBrokenPromise(ns, eq, lines);
  }

  /** Every node of a non-empty group has a queue object equal to that of its last node. */
  ghost predicate ForkedFromLast<F, V>(eq: (V, V) -> bool, g: Nodes<F, V>) {
    && |g| > 0
    && g[|g| - 1].context.queueObject.Some?
    && forall i :: 0 <= i < |g| ==>
         g[i].context.queueObject.Some?
         && eq(g[i].context.queueObject.value, g[|g| - 1].context.queueObject.value)
  }

  /**
    When Value.equals is an equivalence relation, the queue object of the last
    node of a group, which the warning names as the one forked from, equals the
    queue object of every node of the group.
  */
  lemma {:induction false} ForkedFromEveryMember<F, V(!new)>(ns: Nodes<F, V>, eq: (V, V) -> bool)
    requires EquivalenceRelation(eq)
    ensures forall a :: 0 <= a < |Groups(ns, eq)| ==> ForkedFromLast(eq, Groups(ns, eq)[a])
  {
    var r := IndexGroups(ns, eq);
    var gs: seq<Nodes<F, V>> := Groups(ns, eq);
    IndexGroupsPartition(ns, eq);
    IndexGroupsClasses(ns, eq);
    forall a | 0 <= a < |gs| ensures ForkedFromLast(eq, gs[a]) {
      var g := gs[a];
      assert |r| == |gs| && g == NodesAt(ns, r[a]) && |r[a]| > 0;
      var n := |g| - 1;
      forall i | 0 <= i < |g|
        ensures g[i].context.queueObject.Some? && g[n].context.queueObject.Some?
        ensures eq(g[i].context.queueObject.value, g[n].context.queueObject.value)
      {
        var k, l := r[a][i], r[a][n];
        assert k in r[a] && l in r[a];
        assert QueueEq(ns, eq, k, l);
        assert g[i] == ns[k] && g[n] == ns[l];
      }
    }
  }
}
