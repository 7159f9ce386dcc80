# Buildmesh core: verified models

Buildmesh runs coding agents in terminals, groups them on cards, and keeps one desktop process per user
profile. This project models the parts of it whose correctness rests on an algorithm or a protocol and proves
what they promise, over every input, every way a stream is cut, and every interleaving of steps. Code that
works by updating state is a method or a class proved against a specification function; what the source
promises is proved about that function.

`dafny verify dfyconfig.toml` checks everything.

## Components

**Log-line redaction** (`bracket_index`, `quote_units`, `log_scanner`, `prose_blanks`, `scanner_alignment`,
`log_scrubber`, `log_scrubber_theorems`, `pass_theorems`, `written_line`, `secret_scrubber`). A log line is cut
into prose and JSON spans by one pass of budgeted probes. A stack pass resolves every bracket pair, a second
scanner with its own quote rules proposes where JSON may start, and an output buffer is created only by the
first span that changes. Proved: the index answers exactly what a forward rescan would, pairs are nested or
disjoint, exactly when the second scanner agrees with it, what is written for every piece of the line and that
the lazy buffer writes it, the budget holds on both sides and all parsing is bounded, the mutual recursion of
lines and values stays within eight levels, and masking keeps the shape of a value.

**Terminal carry-over** (`session_capture`, `capture_theorems`, `carry_over_theorems`). A reader that holds back
up to 64 bytes so that a session banner or a UTF-8 character cut by a read is still seen whole.

**Node Activities** (`circuit_roots`, `node_*`, `surface_agreement`, `surface_order`). Each agent node belongs
to a card: the root of its ownership chain, merged by overlapping hand-made groups. Resolved groups are the
connected components; sidebar clusters partition a mesh's live nodes; grid, sidebar and handover picker agree.

**Global shortcuts** (`key_op_queue`, `global_shortcuts`, `shortcut_intent`). Asynchronous plugin operations
chained per key across mounts, unmounts and focus changes. The promise chain is shown to be a FIFO queue per
key; the registration protocol is then modelled over such queues, each plugin call being split into its steps,
and what it leaves registered is told from the run's actions alone.

**Profile ownership** (`instance_guard`, `ownership_standoff`, `ownership_gate`, `ownership_progress`). Any
number of processes claim one OS object, with the loser's open and close of a named object and process death as
separate steps.

**Attention auto-clear** (`attention_autoclear`). A timed accumulator, and the exact traces on which it fires.

**Grid** (`grid_traversal`). Balanced rows and arrow-key navigation.

`bytes` holds bytes, joined texts and the UTF-8 grammar of section 4 of RFC 3629, `utf8_encoding` the encoding
of its section 3; `sequences` holds sorting.

## Findings

Where a promise does not hold on all inputs, the exact condition is proved.

- The first banner of a stream, with any banners after its end, is found under every split exactly when it is at
  most 65 bytes long, one more than the held-back tail (`BannerDetection.CaptureBoundIsExact`).
- Without a banner, the carry-over is a function of the bytes so far exactly when no 65 consecutive bytes past
  the first all continue a character; no UTF-8 text has such a run
  (`CarryOverTheorems.ChunkingIrrelevantExactly`).
- The scan for a JSON start follows the bracket index's quotes exactly while every single-quoted body it jumps
  over, lexed on its own, ends outside strings (`ScannerAlignment.ScannersAgree`). On `='"'{"token":"x"}` it
  does not: the object has no end in the index, stays prose and is never masked as JSON
  (`PassTheorems.MisalignedObjectStaysProse`).
- The JSON parses that decide whether a single-quoted body is JSON (`src-tauri/src/secret_scrubber.rs:421`) are
  not charged to the probe budget. They are disjoint within a pass, so all the parsing of a pass is at most
  twice the line and the slack (`PassTheorems.ParsingBound`).
- The depth guard at `src-tauri/src/secret_scrubber.rs:300` is never taken: no call passes depth eight.
- The comment at `src/lib/nodeActivities.ts:93-101` says sidebar and grid can never disagree about membership. A
  hand-made group naming an archived node that still leads to a live root makes them disagree. They agree for
  every list of groups exactly when each such archived node leads to the one root all of its mesh's live nodes
  share (`SurfaceAgreement.AgreementIsExact`); for given groups, whenever no entry is such a node.
- The comment at `src/lib/nodeActivities.ts:103-106` says a cluster has the slot the grid gives its card.
  Without hand-made groups the grid does not sort: it can list an owned node's card first where the sidebar puts
  its owner later. The orders are the same exactly when some hand-made group resolves to a card, or no node is
  listed before every node of an activity whose root stands before its own (`SurfaceOrder.SlotsMatchExactly`).
- A lost claim is documented as "a live process already holds it" (`src-tauri/src/instance_guard.rs:346`). That
  is so on every run exactly with a file lock, or when no three processes share a claim object
  (`OwnershipStandoff.LossMeansOwnerExactly`). Any three that share a named object can end with the owner dead
  and the other two forwarding to nobody (`OwnershipStandoff.NamedObjectCanForwardToNobody`).

## Model

| member | source | states |
|---|---|---|
| Utf8.CharLen | src-tauri/src/session_capture.rs:66-73 | a character starts at a byte outside 0x80 to 0xBF and goes on with bytes inside |
| Utf8.SplitAtBoundary | src-tauri/src/session_capture.rs:194-208 | cutting valid text before a non-continuation byte leaves two valid texts |
| Utf8.ContinuationRunsAreShort | src-tauri/src/session_capture.rs:201-208 | valid text never has four continuation bytes in a row, so the advance is at most three bytes |
| Utf8Encoding.ValidExactly | src-tauri/src/session_capture.rs:97-103 | a text is valid by the grammar if and only if it is the encoding of code points other than surrogates |
| SessionCapture.FirstBoundary | src-tauri/src/session_capture.rs:206-208 | the advance stops at the first boundary: every byte it passed continues a character |
| SessionCapture.Cut | src-tauri/src/session_capture.rs:187-208 | an unmatched call keeps at most 64 bytes, all of a buffer that fits, and otherwise the buffer from its first character boundary at or after the 64-byte mark |
| SessionCapture.ChunkCapture.constructor | src-tauri/src/session_capture.rs:124-128 | a new capture holds nothing and has not latched |
| SessionCapture.ChunkCapture.MarkCaptured | src-tauri/src/session_capture.rs:135-137 | sets the latch and leaves what is held |
| SessionCapture.ChunkCapture.Feed | src-tauri/src/session_capture.rs:148-223 | one call takes the carry-over and the chunk to the state and output of the stream transducer the theorems below are about |
| SessionCapture.StepConserves | src-tauri/src/session_capture.rs:157-222 | one call: released bytes then held bytes are the old held bytes then the chunk; a 64-byte bound on the tail is kept |
| SessionCapture.Conservation | src-tauri/src/session_capture.rs:148-223 | after any chunks, of any bytes: everything released, then what is held, is everything fed, in order; at most 64 bytes are held, none after a capture |
| SessionCapture.LatchIsSticky | src-tauri/src/session_capture.rs:118-123 | once latched, every later chunk passes through unchanged, yields no id and changes nothing |
| SessionCapture.IdAtMostOnce | src-tauri/src/session_capture.rs:139-147 | an id is returned by at most one chunk of a run |
| BannerDetection.LeftmostLeads | src-tauri/src/session_capture.rs:40-51 | when banners do not overlap, the one a whole-stream search finds is first, and every other starts at or after its end |
| BannerDetection.DetectionIgnoresChunking | src-tauri/src/session_capture.rs:77-96 | for every split, the first banner (of at most 65 bytes) has its id returned by the chunk that delivers its last byte and by no other |
| BannerDetection.NoBannerNoCapture | src-tauri/src/session_capture.rs:186-222 | a stream without a banner never latches and never yields an id |
| BannerDetection.LongBannerIsLost | src-tauri/src/session_capture.rs:57-64 | a longer first banner is not found by the chunk that completes it when that chunk is its last byte, whatever follows |
| BannerDetection.CaptureBoundIsExact | src-tauri/src/session_capture.rs:57-64 | for a first banner with any banners after its end: under every split the chunk that completes it returns its id, if and only if it is at most 65 bytes long |
| CarryOverTheorems.TailIsCanonical | src-tauri/src/session_capture.rs:194-222 | before the latch, the held tail is the stream so far from its own cut, whatever the split |
| CarryOverTheorems.ChunkingIrrelevantExactly | src-tauri/src/session_capture.rs:194-222 | every two splits of every prefix leave the same state if and only if no 65 bytes past the first all continue a character |
| CarryOverTheorems.HeldTailOfText | src-tauri/src/session_capture.rs:97-103 | on text cut anywhere: the cut is a character boundary, what is released is the stream up to it, and once anything is released the tail is 61 to 64 bytes |
| CarryOverTheorems.ReleasedPiecesAreText | src-tauri/src/session_capture.rs:105-110 | on valid text every piece released before the latch is itself valid text |
| QuoteLexer.OutsideAfterClose | src-tauri/src/secret_scrubber.rs:484-503 | a balanced value ends with a closer outside strings, so the scan resumes outside strings |
| QuoteLexer.NaiveEndCloses | src-tauri/src/secret_scrubber.rs:466-470 | the forward rescan from an opener returns its balanced end, and nothing exactly when it has none |
| QuoteLexer.NestedOrDisjoint | src-tauri/src/secret_scrubber.rs:464-474 | any two balanced values are nested or disjoint, with stray closers and mixed kinds of bracket |
| QuoteUnits.UnitsAreCrossed | src-tauri/src/secret_scrubber.rs:484-505 | told from the spelling: plain bytes and double-quoted strings, in which a backslash and any byte are one character, are each crossed as a whole; the openers are exactly the brackets spelled by themselves |
| QuoteUnits.EveryLineIsSpelled | src-tauri/src/secret_scrubber.rs:484-505 | every line is spelled by such units and at most one unclosed string after them |
| QuoteUnits.RaggedStaysInside | src-tauri/src/secret_scrubber.rs:484-505 | no bracket of an unclosed string opens |
| QuoteUnits.ValueCloses | src-tauri/src/secret_scrubber.rs:464-470 | a value written with nested brackets, strings and plain bytes is closed exactly where its writing ends, whatever its strings hold |
| BracketIndexes.New | src-tauri/src/secret_scrubber.rs:477-509 | the one-pass index lists exactly the balanced values of the line, ascending by opener and each opener once; what is inside a string is told by `QuoteUnits.UnitsAreCrossed` |
| BracketIndexes.BracketIndex.ValueEnd | src-tauri/src/secret_scrubber.rs:513-518 | the binary search answers as the forward rescan does at every opener outside strings, and nothing anywhere else |
| QuoteUnits.WrittenValueIsFound | src-tauri/src/secret_scrubber.rs:511-518 | after any units, the lookup at a written value answers where its writing ends |
| LogScanner.KeyStart | src-tauri/src/secret_scrubber.rs:577-585 | the key is the longest run of identifier bytes ending there |
| LogScanner.SecretKeyForm | src-tauri/src/secret_scrubber.rs:544-587 | the test holds if and only if the prose ends with a whole secret-named key, at most one quote, blanks, a separator and blanks |
| ProseBlanks.BlankExactly | src-tauri/src/secret_scrubber.rs:554-567 | what is skipped as blank is exactly the encoding of Unicode white-space code points |
| LogScanner.MatchingSingleQuote | src-tauri/src/secret_scrubber.rs:434-443 | the first single quote from there on, and none exactly when there is none |
| LogScanner.SkipsExactly | src-tauri/src/secret_scrubber.rs:410-425 | a jump is taken if and only if a single quote opens a span and its key is secret or its body is not a JSON container, and it leads to the first single quote after |
| ProseBlanks.OpensExactly | src-tauri/src/secret_scrubber.rs:451-462 | a single quote opens a span if and only if only spaces, tabs and line breaks separate it from `=`, `:` or the start of the line |
| LogScanner.NextJsonStart | src-tauri/src/secret_scrubber.rs:393-432 | the loop with a current quote and an escape flag answers as the scan over lexer states from the same byte, and gives the JSON parser as many bytes as that scan |
| ScannerAlignment.ScanInStep | src-tauri/src/secret_scrubber.rs:393-432 | from any byte in step with the index: the scan stays in step at every byte it visits if and only if every single-quoted body it jumps over, lexed on its own, ends outside strings; then it returns an opener of the index, the next one if and only if no body hides one |
| ScannerAlignment.ScannersAgree | src-tauri/src/secret_scrubber.rs:387-432 | the same from outside strings, where a scan starts; on a line with no single quote both conditions hold |
| ScannerAlignment.TriedIsDisjoint | src-tauri/src/secret_scrubber.rs:410-425 | the bodies one scan gives to the JSON parser are disjoint and end before the next single quote after the start it returns |
| ScannerAlignment.ScannersDisagree | src-tauri/src/secret_scrubber.rs:410-425 | on every line that begins `='"'{` the scan returns a brace the index has no end for |
| LogScrubber.Probe | src-tauri/src/secret_scrubber.rs:523-542 | a candidate that is parsed fits the budget and its outcome is the parse of its balanced text; one over budget does not fit; one is unbalanced exactly when the index has no end for it |
| LogScrubberLoops.ProbeJsonValue | src-tauri/src/secret_scrubber.rs:523-542 | charges exactly the candidates that are parsed and reports each as unbalanced, rejected, accepted or over budget |
| LogScrubberLoops.EmitSpan | src-tauri/src/secret_scrubber.rs:351-363 | the buffer after a span holds the images of all spans so far, and exists exactly when one of them changed; without a buffer that is the input up to there |
| LogScrubberLoops.FindValue | src-tauri/src/secret_scrubber.rs:310-325 | the inner loop returns the first candidate of the pass that parses, with the budget left then, and none exactly when there is none |
| LogScrubberLoops.NextSpans | src-tauri/src/secret_scrubber.rs:310-343 | what the loop finds are the next prose and value span of the line |
| LogScrubberLoops.EmitTail | src-tauri/src/secret_scrubber.rs:326-342 | with no value left, the rest of the line is one prose span, also when it is unchanged |
| LogScrubberLoops.EmitValue | src-tauri/src/secret_scrubber.rs:343-364 | a value and the prose before it are emitted as their images |
| LogScrubberLoops.ScrubSpans | src-tauri/src/secret_scrubber.rs:303-366 | the nested loops return the splice of all images, or nothing when no span changed |
| LogScrubberLoops.ScrubLogLineAt | src-tauri/src/secret_scrubber.rs:299-367 | the loops compute the span-by-span specification; every call in the mutual recursion is at a depth of at most eight, so the guard at line 300 is never taken |
| LogScrubberLoops.ScrubJsonAt | src-tauri/src/secret_scrubber.rs:595-638 | scrubs a value member by member, with the change flag, entering strings only at a depth of at most eight |
| LogScrubberLoops.MaskAllLeaves | src-tauri/src/secret_scrubber.rs:649-673 | masks a value member by member, with the change flag |
| SecretScrubber.ScrubForPersistenceBorrowed | src-tauri/src/secret_scrubber.rs:225-236 | the line so written, borrowed exactly when nothing of it is replaced; without a bracket, what the text pipeline gives |
| SecretScrubber.ScrubForPersistence | src-tauri/src/secret_scrubber.rs:207-224 | the owned line so written, and the input itself when nothing is replaced |
| SecretScrubber.ScrubJsonValue | src-tauri/src/secret_scrubber.rs:239-247 | shape and keys are kept, every leaf under a secret-named key is the mask, every other string is scrubbed and every other leaf is untouched |
| LogScrubberTheorems.SpansPartition | src-tauri/src/secret_scrubber.rs:303-367 | prose and value spans, joined, are the rest of the line: nothing lost, repeated or reordered |
| LogScrubberTheorems.LazyIsEager | src-tauri/src/secret_scrubber.rs:299-385 | the result, or the input when there is none, is every span's image or own bytes in order; there is none exactly when no span has an image |
| PassTheorems.PassFollows | src-tauri/src/secret_scrubber.rs:310-325 | each probe is of the next start after the one before it, past a value that parsed and one byte on otherwise, until there is none or one is longer than what is left to spend after the texts parsed so far; a text is accepted exactly when it parses to an array or object |
| PassTheorems.ProbeBudget | src-tauri/src/secret_scrubber.rs:255-263 | parsed candidates total at most the length of the line and 4096; while failed ones total at most 4096 none is over budget |
| PassTheorems.ParsingBound | src-tauri/src/secret_scrubber.rs:255-263 | the uncharged bodies of a pass total at most the line, and all its JSON parsing at most twice the line and 4096 |
| PassTheorems.SlackSuffices | src-tauri/src/secret_scrubber.rs:255-263 | from any point of a pass, a budget of the bytes left and the failed candidates still to come is never exceeded |
| PassTheorems.LineScannersAgree | src-tauri/src/secret_scrubber.rs:299-325 | over a whole pass: in step if and only if the bodies jumped over close; then every probe is of an opener the index knows, and the probes are exactly those openers in turn if and only if no body hides one; always so with no single quote |
| PassTheorems.MisalignedObjectStaysProse | src-tauri/src/secret_scrubber.rs:275-281 | a line that begins `='"'{` with no further bracket, such as `='"'{"token":"x"}`, is one prose span: its object is never masked as JSON |
| LogScrubberTheorems.MaskLeavesIsExact | src-tauri/src/secret_scrubber.rs:640-648 | masking keeps shape and keys, makes every leaf the mask, and reports a change exactly when the value differs |
| LogScrubberTheorems.MaskChanges | src-tauri/src/secret_scrubber.rs:644-648 | masking reports a change exactly when some leaf is not the mask |
| LogScrubberTheorems.ScrubJsonSanitizes | src-tauri/src/secret_scrubber.rs:588-638 | shape and keys are kept; outside secret keys every string is scrubbed one level deeper and other leaves are untouched; under a secret key every leaf is the mask; a change is reported if and only if some such string has a scrub result or some such leaf is not the mask, and otherwise the value is as it was |
| LogScrubberTheorems.SanitizedAlike | src-tauri/src/secret_scrubber.rs:239-247 | these rules determine the result |
| WrittenLine.LineIsWritten | src-tauri/src/secret_scrubber.rs:326-366 | the written line, piece by piece: prose as the text pipeline leaves it; each accepted value kept byte for byte when there is nothing to mask in it, else printed, wholly masked when the prose before it ends with a secret-named key and sanitized otherwise; borrowed if and only if nothing is replaced |
| WrittenLine.BracketlessLine | src-tauri/src/secret_scrubber.rs:275-281 | a line without an opening bracket is scrubbed as text |
| CircuitRoots.Store.CircuitRootId | src/lib/nodeActivities.ts:43-55 | the loop terminates on every link graph and ends where the walk does |
| CircuitRoots.Store.WalkEnds | src/lib/nodeActivities.ts:46-53 | a walk ends at its start or at a node it cannot leave, in the same mesh, live once it has moved |
| CircuitRoots.Store.RootIsStable | src/lib/nodeActivities.ts:43-55 | a root is its own root, of the same mesh, live when its node is, and an unknown id is its own root; link cycles included |
| CircuitRoots.Store.RootOfChain | src/lib/nodeActivities.ts:43-55 | read off the ownership links: where the chain of known live owners of the mesh ends, there is the root; a chain that comes back leaves the node its own root |
| CircuitRoots.Store.EveryNodeHasChain | src/lib/nodeActivities.ts:43-55 | every known node has such a chain, so its root is one of the two |
| NodeGroups.Dedup | src/lib/nodeActivities.ts:35 | a set spread into a list has each id once and no other id |
| NodeGroups.DedupOrder | src/lib/nodeActivities.ts:35 | its ids stand in the order of their first occurrences |
| NodeGroups.ByMesh.Record | src/lib/nodeActivities.ts:29-31 | the id is recorded under its mesh after those before it, new meshes come last, and nothing else changes |
| NodeGroups.ResolveNodeGroups | src/lib/nodeActivities.ts:22-41 | the nested loops compute the merge of all groups' per-mesh live root lists, in order, kept when longer than one |
| NodeGroups.MergeGroup | src/lib/nodeActivities.ts:33-38 | one group's lists are merged mesh by mesh into what earlier groups gave |
| NodeGroups.MergeEdge | src/lib/nodeActivities.ts:34-37 | the lists an edge overlaps become one list at the end |
| NodeComponents.MergeTidy | src/lib/nodeActivities.ts:34-37 | merging keeps lists disjoint, non-empty and without repeats |
| NodeComponents.MergeTogether | src/lib/nodeActivities.ts:34-37 | two ids share a list after a merge exactly when they did before or the edge joins them |
| NodeComponents.MergedIsComponents | src/lib/nodeActivities.ts:22-41 | two ids share a merged list if and only if a chain of overlapping edges links them |
| NodeResolution.ResolvedAreComponents | src/lib/nodeActivities.ts:20-41 | two distinct ids share a resolved group if and only if a chain of groups links them through live circuit roots of one mesh |
| NodeResolution.ResolveGivesResolved | src/lib/nodeActivities.ts:22-41 | resolved groups are pairwise disjoint, without repeats, of two or more live roots of one mesh each |
| NodeResolution.ResolveIsIdempotent | src/lib/nodeActivities.ts:20-41 | resolving resolved groups returns them unchanged, in the same order |
| NodeResolution.MergeKeepsFirst | src/lib/nodeActivities.ts:20-37 | the first list an edge overlaps stays, in order, at the head of the merged list |
| NodeActivities.RepresentativeOfMember | src/lib/nodeActivities.ts:17 | every id of a disjoint list has that list's first id as its representative |
| NodeActivities.ActivityRootIsStable | src/lib/nodeActivities.ts:15-18 | a card's root is its own card's root, of the same mesh, live when the node is |
| NodeActivities.GroupActivityNodes | src/lib/nodeActivities.ts:58-71 | the loop with a seen set gives the grid's cards |
| NodeActivities.GridCardsAre | src/lib/nodeActivities.ts:57-76 | exactly one card for each activity with a visible node, in the canonical order when hand-made groups exist |
| NodeActivities.CardsInOrder | src/lib/nodeActivities.ts:61-67 | cards first come in the order in which their activities first appear |
| NodeClusters.IndexAgentNodes | src/lib/nodeActivities.ts:8-12 | the index of a list of nodes |
| NodeClusters.IndexOfLast | src/lib/nodeActivities.ts:8-12 | of several nodes with one id the last is the one indexed |
| NodeClusters.ActivityMemberIds | src/lib/nodeActivities.ts:142-162 | files the live nodes under their cards, with an entry for exactly the cards that have members, in whatever order the entries come |
| NodeClusters.CollectMembers | src/lib/nodeActivities.ts:146-151 | the first loop files each live node under its card, in list order |
| NodeClusters.SortMembers | src/lib/nodeActivities.ts:152-160 | the second loop puts hand-made cards in tab order and leaves the others |
| NodeClusters.CardMembersAre | src/lib/nodeActivities.ts:140-162 | a card's members are the live nodes of its activity, each once |
| NodeClusters.MembersInOrder | src/lib/nodeActivities.ts:146-153 | a card's members are filed in list order and stay so unless it was grouped by hand |
| NodeClusters.TabsByCircuit | src/lib/nodeActivities.ts:152-160 | a hand-made card's tabs stand circuit by circuit in the group's order, each circuit's root first, the rest by id |
| NodeClusters.RootTabIsFirst | src/lib/nodeActivities.ts:78-81 | the first tab of a hand-made card is its representative |
| NodeClusters.KnownRoot | src/lib/nodeActivities.ts:118-121 | every card's root is a live node of the list, so the skip is never taken |
| NodeClusters.BuildCluster | src/lib/nodeActivities.ts:118-135 | one entry becomes a cluster: root first, then exactly the other live nodes of its activity by position and id, with the two flags |
| NodeClusters.ClusterActivityNodes | src/lib/nodeActivities.ts:107-138 | clusters of distinct roots hold exactly their activities' live nodes, none is missing, and they are sorted by their roots' position and id |
| NodeClusters.ClustersPartition | src/lib/nodeActivities.ts:93-106 | each live node is in exactly one cluster, exactly once |
| NodeAgreement.Handover | src/lib/nodeActivities.ts:200-218 | the two halves are exactly the live nodes of the mesh on the source's card and on others, without the source, each sorted by position and id |
| NodeAgreement.RootRestricted | src/lib/nodeActivities.ts:97-101 | a live node's walk is the same in its mesh's live nodes as in the whole store; any other id resolves to itself there |
| NodeAgreement.MergedOnMesh | src/lib/nodeActivities.ts:33-38 | merging commutes with keeping one mesh's lists |
| NodeAgreement.ResolveOnMesh | src/lib/nodeActivities.ts:97-101 | the mesh's live nodes alone resolve the same groups of that mesh, in the same order |
| NodeAgreement.ActivityRootAgrees | src/lib/nodeActivities.ts:93-101 | a live node is on the same card from the whole store and from its mesh's live nodes |
| SurfaceAgreement.ClustersMatchCards | src/lib/nodeActivities.ts:93-96 | the sidebar's cluster roots are exactly the grid's cards for the same nodes |
| SurfaceOrder.SlotsMatchExactly | src/lib/nodeActivities.ts:103-106 | they are also in the same order if and only if some hand-made group resolves to a card, or no node is listed before every node of an activity whose root stands before its own |
| SurfaceOrder.SlotsCanDiffer | src/lib/nodeActivities.ts:103-106 | three nodes in canonical order, without groups, that the two surfaces order differently |
| SurfaceAgreement.CompanionsMatchCluster | src/lib/nodeActivities.ts:187-199 | a node's same-activity handover targets and the node itself are exactly its sidebar cluster |
| SurfaceAgreement.StrayDisagrees | src/lib/nodeActivities.ts:97-101 | an archived node leading to one live root, grouped with another live root, makes the two views disagree |
| SurfaceAgreement.AgreementIsExact | src/lib/nodeActivities.ts:93-101 | the two views agree for every list of groups if and only if every such archived node leads to the root all live nodes of the mesh share |
| GridTraversal.RowsAreBalanced | src/hooks/useGridLayout.ts:1-13 | rows hold all the nodes, one to three each, never growing, differing by at most one, in as few rows as three to a row allows |
| GridTraversal.ArrowTargetIndex | src/lib/gridTraversal.ts:27-75 | the loop and the modular arithmetic give the target of the case-by-case specification, also past the last cell |
| GridTraversal.ArrowCells | src/lib/gridTraversal.ts:34-74 | the flat index returned is the neighbouring cell's: around the ends sideways, the same or the last column above and below |
| GridTraversal.PastTheEnd | src/lib/gridTraversal.ts:36-74 | an index past the last cell is taken for the first column of a first row that starts past the last cell |
| GridTraversal.ArrowInRange | src/lib/gridTraversal.ts:27-75 | every arrow stays on the grid |
| GridTraversal.SidewaysUndo | src/lib/gridTraversal.ts:49-59 | left and right undo each other |
| GridTraversal.UpDownUndo | src/lib/gridTraversal.ts:61-74 | down undoes up off the top row; up undoes down exactly when the column exists below; both do nothing at the edge |
| GridTraversal.EveryCellReachable | src/lib/gridTraversal.ts:27-75 | arrow presses lead from every cell to every other |
| GridTraversal.TraversalTargetId | src/lib/gridTraversal.ts:88-99 | no target exactly when the active node is not shown or the press stays put, else the node of the target cell |
| AttentionAutoclear.AutoClear.constructor | src-tauri/src/attention_autoclear.rs:65 | nothing is armed at first |
| AttentionAutoclear.AutoClear.OnMarked | src-tauri/src/attention_autoclear.rs:68-78 | arms the node afresh and touches no other |
| AttentionAutoclear.AutoClear.OnSignalMarked | src-tauri/src/attention_autoclear.rs:80-98 | disarms on a question or permission request, arms otherwise |
| AttentionAutoclear.AutoClear.Disarm | src-tauri/src/attention_autoclear.rs:102-104 | forgets the node |
| AttentionAutoclear.AutoClear.TakeCrossed | src-tauri/src/attention_autoclear.rs:118-158 | one chunk updates counter and time, and disarms exactly when it reports a crossing |
| AttentionAutoclear.RecordIs | src-tauri/src/attention_autoclear.rs:54-63 | on every trace a node is armed exactly when something armed it and nothing undid that; its record is the mark, the running burst's bytes and the last byte's time |
| AttentionAutoclear.FiresExactly | src-tauri/src/attention_autoclear.rs:14-30 | a chunk clears if and only if its node is armed, it comes three seconds or more after the mark, and the chunks since then, broken by gaps of more than ten seconds in whole milliseconds, bring 512 bytes |
| AttentionAutoclear.ClearsOncePerArming | src-tauri/src/attention_autoclear.rs:115-117 | between two clears of a node it was armed again, with no disarming since |
| AttentionAutoclear.BurstIsSuffix | src-tauri/src/attention_autoclear.rs:21-30 | with a clock that never goes back, a burst is an unbroken suffix of the node's chunks |
| InstanceGuard.ClaimOrWaitForExit | src-tauri/src/instance_guard.rs:382-392 | at most five attempts; it stops at the first that is not lost and forwards only after five losses |
| InstanceGuard.Gate.constructor | src-tauri/src/instance_guard.rs:369-373 | no claim is held at first |
| InstanceGuard.Gate.WithProfileOwnership | src-tauri/src/instance_guard.rs:403-430 | a winner publishes, parks its claim, then runs startup; a loser only forwards; a failed claim does nothing |
| OwnershipProtocol.ActKeepsInv | src-tauri/src/instance_guard.rs:574-596 | every step keeps: handles are open for exactly the owners and the losers still closing, owners of one object are one process |
| OwnershipProtocol.MutualExclusion | src-tauri/src/instance_guard.rs:394-430 | on every run at most one live process per claim object is past the gate, startup runs only with the claim held, and no process makes more than five attempts |
| OwnershipProtocol.HeldUntilDeath | src-tauri/src/instance_guard.rs:422-425 | a claim once won is held until the process dies |
| OwnershipProtocol.ForwardedNeverStarts | src-tauri/src/instance_guard.rs:396-402 | a process that forwards or is refused never owns the profile or runs startup, before or after |
| OwnershipProtocol.AttemptWinsExactly | src-tauri/src/instance_guard.rs:585-594 | an attempt wins exactly when no owner and no closing loser has the object open; with a file lock, exactly when no owner lives |
| OwnershipProtocol.FileLockForwardsToOwner | src-tauri/src/instance_guard.rs:812-833 | with a file lock, a process that forwards has just met a live owner |
| OwnershipStandoff.ActKeepsBehind | src-tauri/src/instance_guard.rs:574-596 | every step keeps: a process that lost and has not closed its handle is behind another one that owns the object or is dead |
| OwnershipStandoff.LossMeansOwnerExactly | src-tauri/src/instance_guard.rs:346-349 | on every run every lost attempt has met another live owner, if and only if the claim is a file lock or no three processes share a claim object |
| OwnershipStandoff.NamedObjectCanForwardToNobody | src-tauri/src/instance_guard.rs:377-392 | with named objects, any three processes that share one have a run on which the owner dies and the other two forward, to nobody |
| OwnershipGate.PhaseIsDecision | src-tauri/src/instance_guard.rs:382-430 | in every run of all processes, one is past the gate, forwards or is refused just as the claim loop decides on the answers its own attempts got |
| OwnershipGate.ClaimInRun | src-tauri/src/instance_guard.rs:382-392 | the claim loop run on those answers returns that decision after as many attempts as the run holds |
| OwnershipProgress.UnheldClaimStarts | src-tauri/src/instance_guard.rs:403-430 | a process that finds nobody at its claim object wins it and gets to run startup with the claim held |
| OwnershipProgress.RelaunchTakesOver | src-tauri/src/instance_guard.rs:100-109 | a relaunch still trying when the owner dies takes over, if and only if no other loser has the object open |
| OwnershipProgress.FiveLossesForward | src-tauri/src/instance_guard.rs:382-402 | against an owner that stays, a process loses five times and then forwards |
| OwnershipProgress.AnswersDecide | src-tauri/src/instance_guard.rs:382-430 | a living process's phase is decided by the answers its attempts got |
| KeyOpQueue.KeyQueue.constructor | src/hooks/useGlobalShortcuts.ts:35 | the queue starts empty |
| KeyOpQueue.KeyQueue.EnqueueKeyOp | src/hooks/useGlobalShortcuts.ts:37-51 | chains the new operation behind the key's latest one and makes it the latest |
| KeyOpQueue.KeyQueue.Finally | src/hooks/useGlobalShortcuts.ts:44-49 | drops the entry only while it is still this operation's |
| KeyOpQueue.DueIsHead | src/hooks/useGlobalShortcuts.ts:32-34 | the operation chained before it has settled exactly when every earlier one on the key has, whatever clean-up removed |
| KeyOpQueue.ActKeepsInv | src/hooks/useGlobalShortcuts.ts:37-51 | every step keeps: chains follow submission order, only settled operations precede a started one, and a missing entry means all settled |
| KeyOpQueue.KeysAreSerial | src/hooks/useGlobalShortcuts.ts:32-34 | on every run an operation starts only after every earlier one on its key has settled |
| KeyOpQueue.ChainRefinesQueue | src/hooks/useGlobalShortcuts.ts:37-51 | the chain refines a FIFO queue per key: submitting appends, settling removes the head, nothing else changes a queue |
| KeyOpQueue.HeadRuns | src/hooks/useGlobalShortcuts.ts:32-42 | the head of a key's queue can always run, and once it has it leaves the queue |
| KeyOpQueue.DrainedKeyForgotten | src/hooks/useGlobalShortcuts.ts:44-49 | the map forgets a key once all of its operations have settled and cleaned up |
| GlobalShortcuts.ActKeepsInv | src/hooks/useGlobalShortcuts.ts:81-214 | every step keeps: what each key's queue will leave registered is what the mounts intend |
| GlobalShortcuts.DrainedIsIntended | src/hooks/useGlobalShortcuts.ts:81-214 | whenever a key's queue has drained, exactly the live mount's handler is registered, if it binds the key and was not last told of a focus loss, and otherwise none |
| GlobalShortcuts.AdvanceDrains | src/hooks/useGlobalShortcuts.ts:108-138 | every step of a waiting key brings its queue closer to drained |
| GlobalShortcuts.DrainsToIntended | src/hooks/useGlobalShortcuts.ts:26-34 | from every reachable state, steps of one key alone drain its queue and leave registered what the mounts intended before them |
| ShortcutIntent.DrainedIsWanted | src/hooks/useGlobalShortcuts.ts:81-214 | read off the actions alone: whenever a key's queue has drained, the handler is the standing mount's, if it was given the key and did not last hear of a focus loss, and otherwise there is none |
| ShortcutIntent.ActsWhileFocused | src/hooks/useGlobalShortcuts.ts:91-106 | the standing mount acts on exactly the presses that come while the window has focus, by its first answer and the focus events since |
| ShortcutIntent.DisposedRegistersNothing | src/hooks/useGlobalShortcuts.ts:108-123 | once a mount is disposed, a register of its that has not begun to write registers nothing |
| ShortcutIntent.DisposedListenerGoes | src/hooks/useGlobalShortcuts.ts:185-202 | from every reachable state, a disposed mount's remaining setup steps end with its focus listener gone |
| GlobalShortcuts.NoListenerLeaks | src/hooks/useGlobalShortcuts.ts:185-202 | once a disposed mount's setup has settled and its chained teardown has run, its focus listener is gone; a mount last told of a focus loss acts on no key press |

## Left out

- The redaction patterns and `serde_json`: the text pipeline, parser, printer and secret-word test are arbitrary functions, so nothing is claimed about which texts are secrets or about scrubbing twice.
- The banner expression is any predicate on byte spans with a leftmost search, an id for each span, non-empty and not starting with a continuation byte.
- Decoded text: released bytes are compared as bytes, so the replacement characters of lossy decoding are not modelled.
- LogScrubberLoops.ScrubJsonAt: returns the new value with the change flag where the source rewrites the value in place, so aliasing inside a value is not modelled.
- LogScrubberLoops.MaskAllLeaves: returns the new value in the same way.
- LogScrubberLoops.ScrubLogLineAt: slicing a line at a byte that is not a character boundary, which would abort the source, is not modelled; every cut is at a quote, a bracket or the end of one.
- OwnershipProtocol.MutualExclusion: claim targets are parameters; that distinct profiles have distinct targets is assumed, as the digest is not part of this model.
- OwnershipStandoff.NamedObjectCanForwardToNobody: the retry delay is not modelled, so how likely such a run is in real time is not either.
- Window lookup and activation, the owner's pid file, the breadcrumb log and its rotation: operating system calls.
- GlobalShortcuts.DrainedIsIntended: plugin calls succeed, a mount binds each key once, and each cleanup comes before the next mount; a failing plugin call is not modelled.
- NodeClusters.SortMembers: the order in which entries are visited is left open, since no result depends on it.
- AttentionAutoclear.AutoClear.OnSignalMarked: lifecycle and semantic kinds the module treats alike are one value; broadcasting a clear and writing its status are not modelled.
- Node positions and ids are integers; labels and statuses of cards (`activityMemberRole`, `activityStatus`) are one-branch facts.
- The cache hooks, process handling, rendering and presentation tables: no property of the modelled parts rests on them.
