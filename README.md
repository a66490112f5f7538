# Broken-promise detection and analysis messages, in Dafny

This project models two parts of the TAJS JavaScript analyzer and proves what they promise.

**The broken-promise detector** (`CallbackGraphAnalysis`). The callback graph records every callback
the analysis saw registered. Each record pairs a callback with the queue object it was registered on and
the dependent queue object that invoking it produces.

- `groupSourceNodesByQueueObject` groups the records by queue object. It scans the list with an outer and
  an inner index and a `visitedIndexes` list.
- `findBrokenPromise` writes a warning paragraph for every group of two or more records. It prints the
  report on a `PrintWriter` and returns it.

**The analysis message** (`Message`) provides:

- the status join used when a message is found again;
- the "keep the longer text" merge;
- the lexicographic `compareTo`;
- `equals` and `hashCode`, which ignore the status and the text;
- the `toString` format.

Modules, one per file:

- `wrappers.dfy` defines `Option`. A Java `null` is `None`.
- `java_strings.dfy` models the Java library calls the core makes: `String.valueOf(int)` with a reader for
  it, `Collectors.joining` with `split`, `String.compareTo` and `String.hashCode`.
- `callback_graph.dfy` holds the callback-graph records.
- `queue_object_grouping.dfy` holds the grouping, stated on node indices, and its properties: partition,
  order, classes and permutation.
- `broken_promise_report.dfy` holds the report text and a reader that recovers the warnings from it.
- `callback_graph_analysis.dfy` holds the analysis class. Its loops are written as in the Java and
  proved equal to the functions above. It also holds the end-to-end lemmas.
- `message.dfy` holds the message enums, the `Message` class with its in-place `join`, and `equals`,
  `hashCode`, `compareTo` and `toString`.

Abstract values are a type parameter `V`:

- `eq` stands for `Value.equals`;
- `lines` stands for the line numbers of `getObjectSourceLocations()`, in the order returned.

A flow-graph node is a type parameter `N`, compared by identity. Its source location is a type parameter
`L`. The node's `getSourceLocation()` and `getIndex()`, and the location's `compareTo`, `hashCode` and
`toString`, are function parameters.

What the code does with the recorded callbacks:

- Groups are lists, and duplicate recordings are kept. Recording the same registration twice
  therefore produces a warning (`DuplicateReported`).
- Host objects are not filtered out.
- Nothing is sorted. Groups come in the order of their first node, and members in list order.
- A value with several allocation sites is not an error. All its line numbers are written, joined with
  `" / "`.
- Each paragraph ends with ".\n". The next paragraph follows it directly.

A Dafny `char` is a Unicode scalar value. A Java `String` holds UTF-16 code units, so `JavaStrings.Utf16`
encodes a string explicitly. `String.length()`, `String.compareTo` and `String.hashCode` are taken over
those code units.

## Model

| member | source | states |
|---|---|---|
| BrokenPromiseAnalysis.CallbackGraphAnalysis.GroupSourceNodesByQueueObject | src/dk/brics/tajs/solver/CallbackGraphAnalysis.java:28-72 | The nested visited-index scan returns exactly `QueueObjectGrouping.Groups(callbacks, eq)`, the node groups of `IndexGroups`. Its loop invariants tie each step to the index-level definition `GroupsFrom`. |
| BrokenPromiseAnalysis.CallbackGraphAnalysis.FindBrokenPromise | src/dk/brics/tajs/solver/CallbackGraphAnalysis.java:118-151 | The StringBuilder loop returns `Report(callbacks, eq, lines)`. `Report` is `BrokenPromiseReport.Render` of the `Warnings` of `Groups`. Exactly that text is printed once on `out`. |
| BrokenPromiseAnalysis.CallbackGraphAnalysis.constructor | src/dk/brics/tajs/solver/CallbackGraphAnalysis.java:20-22 | The analysis keeps the graph's callbacks, the equality of values and their line numbers. |
| BrokenPromiseAnalysis.PrintWriter.Println | src/dk/brics/tajs/solver/CallbackGraphAnalysis.java:148 | `println` adds the text as one more printed line. |
| BrokenPromiseAnalysis.DependentQueueObjectLineNumber | src/dk/brics/tajs/solver/CallbackGraphAnalysis.java:83-90 | The text reads back, through `ParseLineNumbers`, as exactly the allocation-site lines of the dependent queue object, in order. |
| BrokenPromiseAnalysis.QueueObjectLineNumber | src/dk/brics/tajs/solver/CallbackGraphAnalysis.java:101-108 | The same for the queue object. The queue object must be non-null, because the Java method dereferences it. |
| BrokenPromiseAnalysis.DependentLineTexts | src/dk/brics/tajs/solver/CallbackGraphAnalysis.java:129-132 | The stream map over the group's sublist yields one line text per node, in order. |
| BrokenPromiseAnalysis.WarningOf | src/dk/brics/tajs/solver/CallbackGraphAnalysis.java:124-144 | The warning of a group of more than one node is well formed: it has at least two dependent-line lists. |
| BrokenPromiseAnalysis.Warnings | src/dk/brics/tajs/solver/CallbackGraphAnalysis.java:123-146 | There is at most one warning per group, and every warning is well formed. |
| BrokenPromiseAnalysis.GroupsQueued | src/dk/brics/tajs/solver/CallbackGraphAnalysis.java:40 | No node of any group has a null queue object. |
| BrokenPromiseAnalysis.ParagraphOfGroup | src/dk/brics/tajs/solver/CallbackGraphAnalysis.java:127-144 | The appends for one group add exactly that group's warning paragraph. The paragraph has the dependent lines of all but the last node joined with ", ", then " and ", the last node's dependent lines, "!\n", "Forked from line: ", the last node's queue-object lines and ".\n". |
| BrokenPromiseAnalysis.ReportGroup | src/dk/brics/tajs/solver/CallbackGraphAnalysis.java:124-145 | After a group of more than one node, the text is the rendering of the warnings of the groups seen so far. |
| BrokenPromiseAnalysis.ReportSkip | src/dk/brics/tajs/solver/CallbackGraphAnalysis.java:124 | A group of at most one node adds nothing. |
| BrokenPromiseAnalysis.WarningsEmpty | src/dk/brics/tajs/solver/CallbackGraphAnalysis.java:123-146 | There are no warnings if and only if every group has at most one node. |
| BrokenPromiseAnalysis.WarningsOfGroups | src/dk/brics/tajs/solver/CallbackGraphAnalysis.java:123-146 | A warning is made if and only if it is the warning of some group of more than one node. Only groups larger than one are reported. |
| BrokenPromiseAnalysis.GroupWarned | src/dk/brics/tajs/solver/CallbackGraphAnalysis.java:124 | Every group of more than one node has its warning. |
| BrokenPromiseAnalysis.WarningOfSomeGroup | src/dk/brics/tajs/solver/CallbackGraphAnalysis.java:124 | Every warning comes from a group of more than one node. |
| BrokenPromiseAnalysis.ReportEmpty | src/dk/brics/tajs/solver/CallbackGraphAnalysis.java:118-150 | The returned text is empty if and only if no group has more than one node. |
| BrokenPromiseAnalysis.ReportReadsBack | src/dk/brics/tajs/solver/CallbackGraphAnalysis.java:118-150 | The report reads back as exactly the warnings of the groups, with every line number of every paragraph. |
| BrokenPromiseAnalysis.NoBrokenPromise | src/dk/brics/tajs/solver/CallbackGraphAnalysis.java:28-150 | When `Value.equals` is an equivalence, the report is empty if and only if no callback's queue object equals that of an earlier callback. Both directions are proved. |
| BrokenPromiseAnalysis.PairMakesGroup | src/dk/brics/tajs/solver/CallbackGraphAnalysis.java:40-63 | Two callbacks on equal queue objects end up together in one group, and that group has more than one node. |
| BrokenPromiseAnalysis.GroupMakesPair | src/dk/brics/tajs/solver/CallbackGraphAnalysis.java:40-63 | With a reflexive `equals`, a group of more than one node holds two of its own members, an earlier and a later one, whose queue objects are equal. |
| BrokenPromiseAnalysis.DuplicateReported | src/dk/brics/tajs/solver/CallbackGraphAnalysis.java:45-63 | A registration recorded twice is reported, because duplicates are kept. |
| BrokenPromiseAnalysis.ForkedFromEveryMember | src/dk/brics/tajs/solver/CallbackGraphAnalysis.java:142 | When `equals` is an equivalence, the last node's queue object, which is the one named as "forked from", equals the queue object of every node of its group. The source comment claims exactly this. |
| QueueObjectGrouping.GroupsFrom | src/dk/brics/tajs/solver/CallbackGraphAnalysis.java:37-69 | Every grouped index is one still unvisited whose queue object is non-null. |
| QueueObjectGrouping.IndexGroups | src/dk/brics/tajs/solver/CallbackGraphAnalysis.java:40-50 | No group holds a node whose queue object is null, and every index is in range. |
| QueueObjectGrouping.Select | src/dk/brics/tajs/solver/CallbackGraphAnalysis.java:45-61 | The inner scan keeps an index if and only if it is among those scanned and its queue object's `equals` test gives the wanted answer. |
| QueueObjectGrouping.SelectIncreasing | src/dk/brics/tajs/solver/CallbackGraphAnalysis.java:45-61 | The inner scan keeps list order. |
| QueueObjectGrouping.Unvisited | src/dk/brics/tajs/solver/CallbackGraphAnalysis.java:40 | The indices still unvisited are exactly those below the bound that are not in `visitedIndexes`. |
| QueueObjectGrouping.UnvisitedIncreasing | src/dk/brics/tajs/solver/CallbackGraphAnalysis.java:37-40 | The unvisited indices are listed in increasing order, as the outer loop meets them. |
| QueueObjectGrouping.UnvisitedAfterGroup | src/dk/brics/tajs/solver/CallbackGraphAnalysis.java:51-57 | After the inner loop marks the matching indices, what is left unvisited is exactly what the scan rejected. |
| QueueObjectGrouping.GroupsFromDisjoint | src/dk/brics/tajs/solver/CallbackGraphAnalysis.java:51-57 | Whatever `equals` does, no index is placed in two groups. |
| QueueObjectGrouping.GroupsFromCover | src/dk/brics/tajs/solver/CallbackGraphAnalysis.java:40-63 | With a reflexive `equals`, every unvisited index with a non-null queue object is in some group. |
| QueueObjectGrouping.GroupsFromHomogeneous | src/dk/brics/tajs/solver/CallbackGraphAnalysis.java:40-57 | With a reflexive `equals`, every group is non-empty and in list order, and all its members' queue objects equal the first member's. |
| QueueObjectGrouping.GroupsFromOpen | src/dk/brics/tajs/solver/CallbackGraphAnalysis.java:40-63 | With a reflexive `equals`, the first unvisited node with a non-null queue object opens a group. The group holds it and every later unvisited node whose queue object equals its own. The rest stay unvisited for the next groups. |
| QueueObjectGrouping.GroupsFromOrder | src/dk/brics/tajs/solver/CallbackGraphAnalysis.java:37-69 | Groups come in the order of their first member, which is below every index of the later groups. |
| QueueObjectGrouping.GroupsFromClasses | src/dk/brics/tajs/solver/CallbackGraphAnalysis.java:40-63 | With an equivalence, two grouped indices share a group if and only if their queue objects are equal. |
| QueueObjectGrouping.GroupsFromPermutation | src/dk/brics/tajs/solver/CallbackGraphAnalysis.java:31-66 | The groups together hold each non-null index exactly once, as a multiset. |
| QueueObjectGrouping.IndexGroupsPartition | src/dk/brics/tajs/solver/CallbackGraphAnalysis.java:31-69 | The groups of the whole list are disjoint, homogeneous, ordered by their opener and cover every non-null node. Their concatenation is a permutation of the non-null indices. |
| QueueObjectGrouping.IndexGroupsClasses | src/dk/brics/tajs/solver/CallbackGraphAnalysis.java:40-63 | With an equivalence, the groups are exactly the equivalence classes of the non-null queue objects. |
| QueueObjectGrouping.NonNullIndices | src/dk/brics/tajs/solver/CallbackGraphAnalysis.java:40 | The indices whose queue object is non-null, characterised by membership. |
| QueueObjectGrouping.NodesAt | src/dk/brics/tajs/solver/CallbackGraphAnalysis.java:55 | The nodes added to a group are the nodes at its indices, in order. |
| QueueObjectGrouping.NodeGroups | src/dk/brics/tajs/solver/CallbackGraphAnalysis.java:63 | Each node group holds the nodes of its index group. |
| QueueObjectGrouping.NodesWithQueueObject | src/dk/brics/tajs/solver/CallbackGraphAnalysis.java:29-40 | The nodes with a non-null queue object, in list order and with duplicates, are no more than the nodes. |
| QueueObjectGrouping.NodesAtPermutation | src/dk/brics/tajs/solver/CallbackGraphAnalysis.java:55-63 | Index lists with the same elements select node lists with the same elements. |
| QueueObjectGrouping.GroupsPermutation | src/dk/brics/tajs/solver/CallbackGraphAnalysis.java:31-66 | With a reflexive `equals`, the node groups together are a permutation of the nodes with a non-null queue object. Duplicates are kept, and the sizes add up to their count. |
| BrokenPromiseReport.LineNumbersText | src/dk/brics/tajs/solver/CallbackGraphAnalysis.java:86-88 | The joined line numbers use only digits, '-', ' ' and '/', and are empty if and only if there are no allocation sites. |
| BrokenPromiseReport.ParseLineNumbersText | src/dk/brics/tajs/solver/CallbackGraphAnalysis.java:86-88 | The lines joined with " / " read back as the same list. |
| BrokenPromiseReport.IntStrings | src/dk/brics/tajs/solver/CallbackGraphAnalysis.java:87 | One `String.valueOf` per line number, in order. |
| BrokenPromiseReport.ParseIntsIntStrings | src/dk/brics/tajs/solver/CallbackGraphAnalysis.java:87 | The decimal texts of the line numbers read back as the numbers. |
| BrokenPromiseReport.LineTexts | src/dk/brics/tajs/solver/CallbackGraphAnalysis.java:129-132 | One rendered line list per dependent value, in order. |
| BrokenPromiseReport.RenderSnoc | src/dk/brics/tajs/solver/CallbackGraphAnalysis.java:123-146 | `Render` is the concatenation of the `RenderWarning` paragraphs, and `Paragraph` is the text of one paragraph. Each further warning appends its paragraph to the report. |
| BrokenPromiseReport.RenderEmpty | src/dk/brics/tajs/solver/CallbackGraphAnalysis.java:119 | The report is empty if and only if there are no warnings. |
| BrokenPromiseReport.ParseRenderWarning | src/dk/brics/tajs/solver/CallbackGraphAnalysis.java:127-143 | A paragraph reads back as its warning, whatever text follows it. |
| BrokenPromiseReport.ParseRender | src/dk/brics/tajs/solver/CallbackGraphAnalysis.java:123-150 | The whole report, `Render(ws)`, reads back as exactly the warnings `ws` it was written from. |
| JavaStrings.ParseIntToString | src/dk/brics/tajs/solver/CallbackGraphAnalysis.java:87 | `String.valueOf(int)`, modelled by `IntToString`, can be read back, for negative numbers too. |
| JavaStrings.SplitJoin | src/dk/brics/tajs/solver/CallbackGraphAnalysis.java:88 | `Collectors.joining(sep)`, modelled by `Join`, splits back into the parts when they do not contain the separator's first character. |
| JavaStrings.CodeUnits | src/dk/brics/tajs/solver/Message.java:249 | A character is one UTF-16 code unit below U+10000, and two otherwise (a surrogate pair). Every unit is below 0x10000. |
| JavaStrings.Utf16 | src/dk/brics/tajs/solver/Message.java:249 | The code units of a string: at least one per character, each below 0x10000. |
| JavaStrings.Length | src/dk/brics/tajs/solver/Message.java:249 | `String.length()` counts code units, at least one per character. |
| JavaStrings.DecodeUtf16Encoded | src/dk/brics/tajs/solver/Message.java:249 | Decoding the code units of a string gives the string back. |
| JavaStrings.Utf16Injective | src/dk/brics/tajs/solver/Message.java:270 | Different strings have different code units. |
| JavaStrings.CompareUnits | src/dk/brics/tajs/solver/Message.java:270 | The code-unit comparison is zero if and only if the unit sequences are equal. |
| JavaStrings.CompareTo | src/dk/brics/tajs/solver/Message.java:270 | `String.compareTo` compares the UTF-16 code units. It is zero if and only if the strings are equal. |
| JavaStrings.CompareToByCodeUnits | src/dk/brics/tajs/solver/Message.java:270 | U+E000 sorts after U+1F600, because U+1F600 starts with the high surrogate 0xD83D. |
| JavaStrings.CompareToAntisymmetric | src/dk/brics/tajs/solver/Message.java:270 | Swapping the strings negates `String.compareTo`. |
| JavaStrings.CompareToTransitive | src/dk/brics/tajs/solver/Message.java:270 | `String.compareTo` orders strings transitively. |
| Messages.StatusOrdinal | src/dk/brics/tajs/solver/Message.java:34-54 | The ordinal of a status lies below 4. |
| Messages.StatusOrdinalInjective | src/dk/brics/tajs/solver/Message.java:34-54 | Two statuses have the same ordinal if and only if they are the same status. |
| Messages.ParsePresentation | src/dk/brics/tajs/solver/Message.java:39-65 | `Presentation`, the status `toString`, gives "definite", "maybe", "info" and "none". These name CERTAIN, MAYBE, INFO and NONE one to one. |
| Messages.SeverityOrdinal | src/dk/brics/tajs/solver/Message.java:71-107 | The ordinal of a severity lies below 7. |
| Messages.SeverityOrdinalInjective | src/dk/brics/tajs/solver/Message.java:71-107 | The ordinal of a severity identifies it, so the declaration order is the sorting order. |
| Messages.JoinStatus | src/dk/brics/tajs/solver/Message.java:241-247 | The joined status is the least upper bound of the two in the order where INFO is at the bottom, MAYBE at the top, and CERTAIN and NONE are unrelated. |
| Messages.StatusBelowPartialOrder | src/dk/brics/tajs/solver/Message.java:241-247 | That order is reflexive, antisymmetric and transitive. |
| Messages.JoinMaybe | src/dk/brics/tajs/solver/Message.java:242-245 | Joining a MAYBE gives MAYBE, and a MAYBE receiver stays MAYBE. |
| Messages.JoinCertainNone | src/dk/brics/tajs/solver/Message.java:242-245 | CERTAIN joined with NONE, either way round, gives MAYBE. |
| Messages.JoinInfo | src/dk/brics/tajs/solver/Message.java:246-247 | An INFO receiver adopts the other status, and an INFO other leaves the status unchanged. |
| Messages.JoinSemilattice | src/dk/brics/tajs/solver/Message.java:241-247 | The status join is commutative, associative and idempotent. |
| Messages.LongerText | src/dk/brics/tajs/solver/Message.java:248-250 | The kept text is one of the two. Its `String.length()` in code units is at least that of both. On a tie it is the receiver's own. |
| Messages.LongerTextCountsCodeUnits | src/dk/brics/tajs/solver/Message.java:248-250 | Two characters outside the Basic Multilingual Plane are four code units, so they are kept over three ASCII letters. |
| Messages.Message.Join | src/dk/brics/tajs/solver/Message.java:240-251 | Updates only `status` and `msg`. The status becomes `JoinStatus` of the two old statuses and the text becomes `LongerText` of the two old texts. `node`, `key`, `severity` and `use_source_location` are unchanged, and `other` may be the receiver itself. |
| Messages.Message.constructor | src/dk/brics/tajs/solver/Message.java:157-164 | The six-argument constructor stores its arguments. |
| Messages.Message.ByNode | src/dk/brics/tajs/solver/Message.java:130-132 | The five-argument constructor compares by node identity. |
| Messages.Message.WithTextAsKey | src/dk/brics/tajs/solver/Message.java:143-145 | The text is also the key. |
| Messages.Equals | src/dk/brics/tajs/solver/Message.java:179-193 | The code as written: false for null and true for the message itself. `SameSite` is the line-188 test, which reads only the receiver's flag. |
| Messages.EqualsIgnoresStatusAndText | src/dk/brics/tajs/solver/Message.java:175-193 | `equals` ignores the status and the text of both messages. |
| Messages.Int32 | src/dk/brics/tajs/solver/Message.java:172 | Java `int` arithmetic: the result is a 32-bit value congruent to the exact one modulo 2^32. |
| Messages.MessageHashCode | src/dk/brics/tajs/solver/Message.java:170-173 | The hash is a 32-bit int. It is the site hash times 7 plus the key's `JavaStrings.HashCode` times 5, with the key hashed over its UTF-16 code units. |
| Messages.EqualsHashConsistent | src/dk/brics/tajs/solver/Message.java:170-193 | Equal messages that agree on `use_source_location` have equal hash codes. |
| Messages.EqualsNotSymmetric | src/dk/brics/tajs/solver/Message.java:188 | A concrete pair of messages on which `equals` as written is not symmetric and hashes differ. |
| Messages.EqualsConsistent | src/dk/brics/tajs/solver/Message.java:179-193 | The corrected `equals` implies the written one, and coincides with it when the flags agree. |
| Messages.EqualsConsistentEquivalence | src/dk/brics/tajs/solver/Message.java:170-193 | The corrected `equals` is reflexive, symmetric and transitive, and consistent with `hashCode`. |
| Messages.CompareMessagesZero | src/dk/brics/tajs/solver/Message.java:259-271 | `CompareMessages`, the model of `compareTo`, returns 0 if and only if status, severity, source location and key all agree. This needs `SourceLocation.compareTo` to be zero exactly on equal locations. |
| Messages.CompareMessagesAntisymmetric | src/dk/brics/tajs/solver/Message.java:259-271 | `sign(a.compareTo(b)) == -sign(b.compareTo(a))`, given the same of `SourceLocation.compareTo`. |
| Messages.CompareMessagesByStatus | src/dk/brics/tajs/solver/Message.java:261-263 | The status is the primary key: a lower status ordinal sorts first. |
| Messages.BracketText | src/dk/brics/tajs/solver/Message.java:228-233 | The bracket text never contains ']'. |
| Messages.ParseMessageToString | src/dk/brics/tajs/solver/Message.java:226-235 | `MessageToString` gives the format "<loc>: [<b>] <msg>", which reads back as the status and the message text. `b` is "unsound" for TAJS_UNSOUNDNESS and the status presentation otherwise. |

## Left out

- The callback graph itself is not part of this model. `getAllCallbacks()` is the node sequence the analysis is constructed with, and grouping copies it, so the graph is never changed.
- `Value` is a type parameter. `Value.equals` and `getObjectSourceLocations()` are function parameters. Properties that need `equals` to be reflexive or an equivalence say so in their `requires`.
- A null `dependentQueueObject` would throw a NullPointerException in `getDependentQueueObjectLineNumber`. Every producer of callback nodes sets it, so it is never null here.
- `PrintWriter` is reduced to the list of lines printed on it. Flushing, the line separator and I/O errors are not modelled.
- Messages.MessageHashCode: the node index and the location hash are inputs that are already 32-bit. `String.hashCode` is computed exactly and wrapped once at the end, which gives the same 32-bit result as Java's step-by-step wrap-around.
- `Message.emit` and the log4j logger are left out: they only write to a log.
- `getNode`, `getMessage`, `getStatus` and `getSeverity` are plain field reads, which `Message.Fields` collects.
- The `getClass()` test of `equals` is left out, because every object compared here is a Message. The `this == obj` shortcut is left out too, because the field comparison already gives true for the message itself.
- Messages.CompareMessagesZero and Messages.CompareMessagesAntisymmetric: these assume `SourceLocation.compareTo` is zero exactly on equal locations and sign-antisymmetric. The source location class is not part of this model.
- The DOM host-object classes, `IAnalysis` and `CallbackGraphAnalysisException` have no logic the detector depends on.

## Findings

| source | as written | input that shows it | evidently intended | confidence | as-written member | corrected member |
|---|---|---|---|---|---|---|
| src/dk/brics/tajs/solver/Message.java:188 | `equals` consults only the receiver's `use_source_location`. | `a` uses source locations and `b` does not. They are on different nodes at the same location, with the same key and severity. Then `a.equals(b)` holds, `b.equals(a)` does not, and the hash codes differ. | `equals` is symmetric and consistent with `hashCode`. Messages that compare by different things are unequal. | not executed | Messages.EqualsNotSymmetric | Messages.EqualsConsistentEquivalence |
