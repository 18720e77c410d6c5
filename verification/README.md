# Four stateful cores of the iOS adapter layer

This project models the four parts of the adapter that hold real algorithms with state, and proves what they
are for. `dafny verify dfyconfig.toml` checks everything.

**Synthetic drag sessions** (`SessionCache.dfy`, `DragTracker.dfy`, `DragCompensation.dfy`, `DragRuntime.dfy`).
Synthetic touch events belong to drag sessions. Two bounded caches (a hash map and a deque of keys each), a table
of pointer bindings, a session generator, the active session and a coordinate compensation have to agree. Each
cache class refines one association list in first-insertion order; the runtime class refines the state machine
`Tracker`; and the theorems speak of all runs of that machine, in which a complete may work with an old reading
of the current pointer, and a match and the store of its result, or the two stores of a touch update, are separate
steps.

**HTML to styled text** (`HtmlModel.dfy`, `HtmlElements.dfy`, `HtmlMeaning.dfy`, `HtmlFixUp.dfy`, `HtmlToSpan.dfy`).
A tree walk makes text, positions and a post-order list of spans; a fix-up extends some spans over paragraph
newlines; a two-phase build inserts images and then paints styles from the last span to the first. The meaning is
inheritance: each element is a box with the span it emits, and `Render` passes styles down the boxes. The main
theorem, `ToSpanString`, says that the built string is that rendering except on newlines a span was extended over.
`HtmlElements` says which elements of a document give which text and which spans.

**Accessibility tree and flag** (`AccessibilityTree.dfy`, `AccessibilitySearch.dfy`, `AccessibilityDump.dfy`,
`AccessibilityNumbering.dfy`, `AccessibilityEnding.dfy`, `AccessibilityState.dfy`). Two queue-driven searches are
proved against level order, the flattened child list against paths through passed-through nodes, and the dump that
looks every child up again from the root against a direct pre-order walk: for every tree it is stated exactly when
the dump ends and when it is that walk. The effective flag (atomic counter, mutex, one read and one write without
the lock) is a state machine of interleaved steps of any number of threads.

**Crash backtraces** (`Numerals.dfy`, `DumpBuffer.dfy`, `ImageTable.dfy`, `FrameWalk.dfy`, `CrashReport.dfy`,
`BacktraceHandler.dfy`). Fixed-size buffers, number formatting, a walk over memory that may fault on any read, a
flush per frame and a `write` that may make partial progress, be interrupted or fail. The output is compared with
a report that knows no buffers, writes or faults.

`Prelude.dfy` holds an option type and regroupings of concatenated sequences.

## Where the code does less than its documentation or its purpose suggests

- The public header calls a dump from a zero frame pointer a no-op (`osal/backtrace_handler.h:49`); the code prints
  a title, a reason and a footer (`ManualDumpOfZero`). The model follows the code.
- The comment on per-frame flushing says that everything walked survives a re-fault
  (`osal/backtrace_handler.cpp:289-292`). That holds for walked frames; but if the very first dereference faults,
  the signal line and the faulting instruction are lost. `FaultLosesIff` gives the exact condition.
- The stored system state of the accessibility flag can be overwritten by a stale reading, so that a notified change
  is lost (`StateChangeCanBeLost`). None is lost exactly when, of all notified stores between a thread's reading of the
  stored state and its store of that reading, the last one stored just what was read (`LatestKeptIff`).
- The force-enable count is never negative exactly as long as the 32-bit counter does not overflow
  (`CountNonNegativeIff`).
- A drag start whose action time repeats that of an earlier event, with a later one in between, matches the old
  session (`ReusedTimeMatchesOldSession`); `StartMatchesIff` says exactly when a start matches its own session.
- Completing a pointer leaves its dispatch entries, so an event that was already dispatched is still forwarded
  afterwards (`DispatchOutlivesComplete`); `CompletedPointerResolvesIff` says exactly which events are.
- An empty paragraph can make the fix-up extend a span that lies before the paragraph
  (`EmptyParagraphTakesOutsideSpan`). `TakenIff` says of every paragraph which span it takes, and
  `TakesOnlyInsideIff` exactly when none takes one from before its start.
- The dump of the accessibility tree narrows child ids to 32 bits, drops repeated ones and looks them up from the
  root, so on a badly numbered tree it recurses without end or shows other nodes. On every tree: it ends exactly
  when its lookups never lead from a node back to that node (`DumpEndsIff`), and it is the direct walk exactly when
  every child met on the walk has an id that fits 32 bits, is neither -1 nor the root's, differs from its siblings'
  and is not that of an eligible node served earlier (`DumpIsWalkIff`, `IdLeadsHereByPlace`). Two cousins with one id
  already break it: the first is dumped twice and the second never (`CousinsAreDumped`, `CousinsAreNotWalked`).

## Model

| member | source | states |
|---|---|---|
| SessionCaches.SessionCache.RegisterLocked | entrance/interaction/interaction_impl.cpp:140-155 | map and deque change together: keys stay distinct and equal in both, at most 64 remain, an existing key is updated in place, a new one goes last and the oldest are evicted |
| SessionCaches.SessionCache.EvictBeyondLimit | entrance/interaction/interaction_impl.cpp:150-154 | the loop keeps the youngest 64 entries, in order, however many there were |
| SessionCaches.SessionCache.FindLatest | entrance/interaction/interaction_impl.cpp:157-176 | the backward scan finds the youngest entry of the pointer, and nothing exactly when there is none |
| SessionCaches.SessionCache.Consume | entrance/interaction/interaction_impl.cpp:178-184 | one key leaves map and deque, all else keeps its order |
| SessionCaches.SessionCache.ResetPointerLocked | entrance/interaction/interaction_impl.cpp:122-138 | all keys of a pointer leave map and deque, all else keeps its order; a negative pointer changes nothing |
| SessionCaches.SessionCache.Find | entrance/interaction/interaction_impl.cpp:217-222 | a lookup in the map is a lookup in the list |
| SessionCaches.RegisterKeeps | entrance/interaction/interaction_impl.cpp:186-201 | registering keeps keys distinct and the cache within 64, and every entry is an old one or the new one |
| SessionCaches.RegisterExactly | entrance/interaction/interaction_impl.cpp:140-155 | nothing without a pointer, a time or a session; a known key is updated in place; a new one goes last and pushes out the oldest of 64 |
| SessionCaches.PutFresh | entrance/interaction/interaction_impl.cpp:146-149 | a new key is appended behind all others |
| SessionCaches.PutPresent | entrance/interaction/interaction_impl.cpp:146-149 | an existing key keeps its place and only its session changes |
| SessionCaches.WithoutKeyContents | entrance/interaction/interaction_impl.cpp:178-184 | consuming removes exactly the entries of that key |
| SessionCaches.WithoutPointerContents | entrance/interaction/interaction_impl.cpp:122-138 | resetting removes exactly the entries of that pointer |
| SessionCaches.LatestAfterTrim | entrance/interaction/interaction_impl.cpp:150-154 | eviction takes the oldest first: a pointer keeps its latest entry or loses all |
| SessionCaches.LatestAfterPut | entrance/interaction/interaction_impl.cpp:140-155 | registering makes an entry its pointer's latest exactly if its key is new or was the latest, and never changes another pointer's latest |
| DragRuntime.SyntheticDragRuntimeState.PrepareContext | entrance/interaction/interaction_impl.cpp:552-572 | the whole new state of a Prepare, on map, deque, bindings and generator |
| DragRuntime.SyntheticDragRuntimeState.UpdateTouchState | entrance/interaction/interaction_impl.cpp:502-514 | the whole new state of a touch update; an end for another pointer changes nothing |
| DragRuntime.SyntheticDragRuntimeState.CompleteTouchState | entrance/interaction/interaction_impl.cpp:521-545 | the whole new state of a Complete; an active one, or one for another than the current pointer, changes nothing |
| DragRuntime.SyntheticDragRuntimeState.MatchAndConsume | entrance/interaction/interaction_impl.cpp:270-288 | the latest pending session is consumed, else the bound one is returned and nothing changes |
| DragRuntime.SyntheticDragRuntimeState.StartDrag | entrance/interaction/interaction_impl.cpp:658-680 | the whole new state and status of a start, and what the surface listener is given |
| DragRuntime.SyntheticDragRuntimeState.StopDrag | entrance/interaction/interaction_impl.cpp:722-737 | only the active session changes, to none |
| DragRuntime.SyntheticDragRuntimeState.ResolveSession | entrance/interaction/interaction_impl.cpp:210-232 | an event resolves to its own dispatch entry, else to its pointer's binding, else to its pointer's latest pending entry |
| DragRuntime.SyntheticDragRuntimeState.UpdatePointAction | entrance/interaction/interaction_impl.cpp:861-882 | an event is forwarded exactly if it has a session and no other one is active, unchanged or as a compensated copy |
| DragRuntime.SyntheticDragRuntimeState.StartDragWindow | entrance/interaction/interaction_impl.cpp:474-498 | the compensation belongs to the drag's session and pointer, and the start position went through it |
| DragRuntime.TouchIsSteps | entrance/interaction/interaction_impl.cpp:502-514 | a touch update is its one or two separate atomic stores, so runs of steps cover every interleaving of them |
| DragRuntime.StartDragIsTwoSteps | entrance/interaction/interaction_impl.cpp:658-672 | a start is a match followed by the store of the matched session, so runs of steps cover it |
| DragTracker.StepKeepsInv | entrance/interaction/interaction_impl.cpp:502-572 | every step keeps: ids below the generator, each filed under its owner only, both caches bounded with distinct keys |
| DragTracker.TouchDecides | entrance/interaction/interaction_impl.cpp:502-514 | after a start the touches of its pointer are synthetic; an end for that pointer or for none stops them, any other end changes nothing |
| DragTracker.PrepareEffects | entrance/interaction/interaction_impl.cpp:552-572 | who gets a new session, and that event and pointer are filed under the binding in both caches, an end event in the dispatch cache only |
| DragTracker.EndOfUnbound | entrance/interaction/interaction_impl.cpp:568-571 | the end event of an unbound pointer is dispatched under its youngest pending session, if it has one |
| DragTracker.MatchEffects | entrance/interaction/interaction_impl.cpp:270-288 | a match takes the youngest pending entry of its pointer and no other; without one it yields the binding and changes nothing |
| DragTracker.StartDragEffects | entrance/interaction/interaction_impl.cpp:658-680 | the active session becomes the matched one for synthetic touches and is cleared for others; without a window nothing changes |
| DragTracker.ResolveOrder | entrance/interaction/interaction_impl.cpp:210-232 | an event resolves by its dispatch entry if there is one, else by the binding, else by the youngest pending entry, else to nothing |
| DragTracker.CompleteEffects | entrance/interaction/interaction_impl.cpp:521-545 | a complete while active, or for another than the current pointer, changes nothing; any other clears active session, compensation, bindings and pending entries of the current and the named pointer, and leaves all other pointers theirs |
| DragTracker.RunKeepsInv | entrance/interaction/interaction_impl.cpp:502-572 | the same over whole runs |
| DragTracker.SessionsBelongToOnePointer | entrance/interaction/interaction_impl.cpp:552-572 | after any run an id belongs to one pointer across bindings, pending and dispatch, and is below the generator |
| DragTracker.GeneratedIsFresh | entrance/interaction/interaction_impl.cpp:563-566 | a generated id is filed nowhere and is not active |
| DragTracker.ForwardsOnlyOwner | entrance/interaction/interaction_impl.cpp:861-882 | while a session is active only events of its owner are forwarded, whatever steps fall between resolving the event and reading the active session |
| DragTracker.StartMatchesIff | entrance/interaction/interaction_impl.cpp:270-288 | right after a start the pointer matches the new session exactly if the start was filed as its latest entry |
| DragTracker.StepKeepsHolds | entrance/interaction/interaction_impl.cpp:502-572 | no step but a start or a match of the pointer, or a complete that names it or finds it current and does not name another than the current one, changes what the pointer will match |
| DragTracker.MatchYieldsStart | entrance/interaction/interaction_impl.cpp:270-288 | eviction never revives an old session: after a start filed last and any steps that spare the pointer, the next match yields the session of that start |
| DragTracker.CompleteClears | entrance/interaction/interaction_impl.cpp:527-545 | an effective complete, with or without a pointer id, leaves no binding and no pending entry of the current pointer and of the named one, no active session and no compensation |
| DragTracker.RunKeepsGone | entrance/interaction/interaction_impl.cpp:552-572 | until its next active Prepare a completed pointer stays unbound and without pending or new dispatch entries; an inactive Prepare does not revive it |
| DragTracker.CompletedPointerResolvesIff | entrance/interaction/interaction_impl.cpp:521-545 | until then an event of a completed pointer resolves exactly if its own dispatch entry from before the complete is still cached |
| DragTracker.ReusedTimeMatchesOldSession | entrance/interaction/interaction_impl.cpp:146-149 | for any pointer and any two action times: a start that reuses the earlier time after an event with the later one matches the old session |
| DragTracker.DispatchOutlivesComplete | entrance/interaction/interaction_impl.cpp:521-545 | from any reachable state, an event dispatched with a start is still forwarded right after the pointer is completed |
| DragCompensation.CompensatePointWithHotspot | entrance/interaction/interaction_impl.cpp:328-360 | the four rotation cases are quarter turns of the display followed by a shift |
| DragCompensation.CompensatePoint | entrance/interaction/interaction_impl.cpp:362-383 | without a valid compensation for the pointer, or without hotspot, the point is unchanged |
| DragCompensation.MotionIsRigid | entrance/interaction/interaction_impl.cpp:328-360 | for every rotation displacements are turned by that many quarter turns, distances are kept and no two points coincide |
| DragCompensation.DisplacementIsTurned | entrance/interaction/interaction_impl.cpp:328-360 | coordinate by coordinate: how each rotation turns a displacement |
| DragCompensation.LandsOnWindow | entrance/interaction/interaction_impl.cpp:328-360 | which point goes to which corner of the window at a quarter turn, that the shadow goes to its mirror image in the window at a half turn, and that nothing moves without a turn |
| DragCompensation.StaysWithoutHotspot | entrance/interaction/interaction_impl.cpp:362-383 | which compensations leave a point where it is |
| DragCompensation.HalfTurnIsInvolution | entrance/interaction/interaction_impl.cpp:345-350 | the half-turn case is its own inverse |
| DragCompensation.MakeCompensation | entrance/interaction/interaction_impl.cpp:290-321 | which sizes and which hotspot the compensation takes, and that without a shadow it does not apply |
| DragCompensation.CreateCompensatedEvent | entrance/interaction/interaction_impl.cpp:385-424 | an event is returned untouched or rebuilt with the same header and items in order, only the primary item moved |
| DragCompensation.CopyKeepsOffsets | entrance/interaction/interaction_impl.cpp:410-420 | every item of the copy keeps its window-minus-display offset and its other fields |
| DragCompensation.CopyMovesOnlyPrimary | entrance/interaction/interaction_impl.cpp:410-420 | only the item of the event's own pointer is moved, to the compensated point |
| HtmlConverter.HtmlToSpan.ToSpan | entrance/html/html_to_span.cpp:1059-1095 | the recursive walk appends exactly a node's text and its post-order spans, and advances the position by its flattened length |
| HtmlConverter.HtmlToSpan.ParseHtmlToSpanInfo | entrance/html/html_to_span.cpp:1097-1106 | the same for a list of siblings, in which other node kinds contribute nothing |
| HtmlConverter.HtmlToSpan.CloseElement | entrance/html/html_to_span.cpp:1073-1093 | what each kind of element adds after its children, and the span it emits over all of it |
| HtmlConverter.AddStyleSpan | entrance/html/html_to_span.cpp:953-973 | the style value a tag implies, if any |
| HtmlConverter.HtmlToSpan.ToParagraphSpan | entrance/html/html_to_span.cpp:884-904 | the paragraph's interval, with a default style exactly if it has no attributes |
| HtmlConverter.HtmlToSpan.ToAnchorSpan | entrance/html/html_to_span.cpp:998-1023 | the link target and the style values, in attribute order |
| HtmlConverter.HtmlToSpan.ToTextSpan | entrance/html/html_to_span.cpp:975-996 | a span exactly if attributes or tag give some value, the tag's values last |
| HtmlConverter.HtmlToSpan.ToImage | entrance/html/html_to_span.cpp:1033-1057 | an image span with the image's attributes |
| HtmlConverter.HtmlToSpan.AfterProcSpanInfos | entrance/html/html_to_span.cpp:1116-1133 | the nested loops give each paragraph its turn, in list order, to extend one span |
| HtmlConverter.HtmlToSpan.ExtendOne | entrance/html/html_to_span.cpp:1125-1132 | the inner loop extends the first span that ends one position before the paragraph, and no other |
| HtmlConverter.HtmlToSpan.GenerateSpans | entrance/html/html_to_span.cpp:1239-1261 | images are inserted in list order, then styles are painted from the last span to the first |
| HtmlConverter.HtmlToSpan.AddSpans | entrance/html/html_to_span.cpp:1213-1225 | overwriting with the values one by one gives the covered positions the last value per kind |
| HtmlConverter.HtmlToSpan.AddImageSpans | entrance/html/html_to_span.cpp:1227-1237 | image values are inserted at the span's start, others skipped |
| HtmlConverter.BuildIsInBounds | entrance/html/html_to_span.cpp:1227-1251 | after the fix-up no insertion and no span is out of range at its point of the build, and the image phase yields the flattening |
| HtmlConverter.InsertedDocument | entrance/html/html_to_span.cpp:1227-1251 | inserting the images into the image-free text, in list order at their recorded starts, is in range and gives the single-pass flattening |
| HtmlConverter.ToSpanString | entrance/html/html_to_span.cpp:1263-1287 | the finished string has at every position the glyph and the inherited styles of the tree, save for styles of newlines over which a span was extended |
| HtmlModel.AdvanceCounts | entrance/html/html_to_span.cpp:1063-1094 | position advance is characters appended plus images met |
| HtmlModel.SpansAreLaminar | entrance/html/html_to_span.cpp:1059-1106 | of any two spans the earlier ends at or before the start of the later or lies inside it, and all lie within the total length |
| HtmlModel.ParagraphsEndInNewlines | entrance/html/html_to_span.cpp:1074-1081 | a paragraph's last position is its newline |
| HtmlModel.BoxesAreWellShaped | entrance/html/html_to_span.cpp:1073-1093 | every document gives paragraphs a newline and images their placeholder |
| HtmlElements.FlatIsGlyphs | entrance/html/html_to_span.cpp:1059-1106 | the text of a document with its images: an unspanned paragraph and a line break end in a newline, an image in its placeholder |
| HtmlElements.NewlinesAdded | entrance/html/html_to_span.cpp:1074-1091 | the newlines added to the text are one per p element whose parent is no span element and one per br |
| HtmlElements.SpansAreElements | entrance/html/html_to_span.cpp:1073-1093 | for each of the four types: the spans of the list are, in order, those of the elements that emit one, each from where its element starts to after all it contributes |
| HtmlElements.ParagraphCount | entrance/html/html_to_span.cpp:1074-1081 | there are as many paragraph spans as p elements whose parent is no span element |
| HtmlElements.FixUpParagraphs | entrance/html/html_to_span.cpp:1118-1123 | the paragraphs the fix-up works through are exactly those, in order |
| HtmlElements.EmitsIff | entrance/html/html_to_span.cpp:975-996 | the type of span an element emits, if any, by tag, parent, and whether tag or attributes give a style |
| HtmlElements.TagsImply | entrance/html/html_to_span.cpp:953-973 | which style value each tag implies |
| HtmlElements.StylesInOrder | entrance/html/html_to_span.cpp:998-1023 | values are taken attribute by attribute; a link takes its target and its style attribute only |
| HtmlElements.SpanValues | entrance/html/html_to_span.cpp:884-1057 | the values each type of span carries |
| HtmlElements.LastValueCounts | entrance/html/html_to_span.cpp:1213-1225 | of several values of one kind in a span the last one counts |
| HtmlMeaning.PaintIsRender | entrance/html/html_to_span.cpp:1059-1106 | painting the span list as the walk made it, last span first, is top-down inheritance on the whole tree |
| HtmlMeaning.StylesAreInherited | entrance/html/html_to_span.cpp:1252-1259 | the styles a position is painted with are those inherited from its enclosing elements, the deepest one that gives a kind deciding |
| HtmlMeaning.InsertIsFlat | entrance/html/html_to_span.cpp:1227-1251 | the image phase of any part of a document, between any texts, is in range and yields its flattening |
| HtmlFixUp.ExtendFirstIsOneStep | entrance/html/html_to_span.cpp:1125-1132 | a paragraph extends the first span that ends one position before it, by one position, and none exactly if none ends there |
| HtmlFixUp.ExtendAllExtends | entrance/html/html_to_span.cpp:1116-1133 | the fix-up keeps the list, all starts, all paragraph and image spans, and newly covers only paragraph ends |
| HtmlFixUp.FixUpInBounds | entrance/html/html_to_span.cpp:1116-1133 | no end passes the total length |
| HtmlFixUp.TakenIff | entrance/html/html_to_span.cpp:1116-1133 | the span a paragraph takes is the first text or anchor span, in the list as the walk made it, that ends in the unbroken run of paragraph ends up to the paragraph |
| HtmlFixUp.TakesOnlyInsideIff | entrance/html/html_to_span.cpp:1116-1133 | no paragraph takes a span from before its start exactly if, for each empty paragraph, the first span ending in that run starts where the paragraph does |
| HtmlFixUp.ExtendedSpanStaysInside | entrance/html/html_to_span.cpp:1116-1133 | if every paragraph spans at least two positions, an extended span lies inside the paragraph whose newline it took |
| HtmlFixUp.EmptyParagraphTakesOutsideSpan | entrance/html/html_to_span.cpp:1116-1133 | bold text followed by an empty paragraph is extended over that paragraph's newline, whatever the text |
| HtmlFixUp.FinalMeaning | entrance/html/html_to_span.cpp:1239-1261 | glyphs are the tree's everywhere; styles are inherited, or come from a span extended over the position; no inherited kind is lost |
| HtmlFixUp.FinalStyle | entrance/html/html_to_span.cpp:1239-1261 | exactly: a position has a style kind if some span covers it after the fix-up and gives the kind, and the first such span in list order gives the value |
| HtmlFixUp.CoversIff | entrance/html/html_to_span.cpp:1116-1133 | after the fix-up a span covers a position exactly if it did before or was taken by the paragraph that ends right after it |
| HtmlFixUp.RestyledIsNewline | entrance/html/html_to_span.cpp:1116-1133 | positions over which a span is extended are newlines that end a paragraph |
| AccessibilityState.StepKeepsInv | osal/accessibility_manager_impl.cpp:39-51 | every interleaved step keeps mutual exclusion, and that a finished refresh is right or another is still to come |
| AccessibilityState.StepEffects | osal/accessibility_manager_impl.cpp:39-51 | which steps change the counter, the stored state and the flag, and to what |
| AccessibilityState.QuiescentFlag | osal/accessibility_manager_impl.cpp:39-51 | after any interleaving, when no thread is mid-operation the flag is the stored system state or count > 0 |
| AccessibilityState.AddAlone | osal/accessibility_manager_impl.cpp:1163-1167 | undisturbed: the count goes up by one in 32 bits and the flag is system state or count > 0 |
| AccessibilityState.RemoveAlone | osal/accessibility_manager_impl.cpp:1169-1178 | undisturbed: the count goes down by one unless it is not positive, and the flag is system state or count > 0 |
| AccessibilityState.NotifyDips | osal/accessibility_manager_impl.cpp:1019-1037 | after any run with requests pending a notified false takes the flag down at once, before its refresh puts it up again |
| AccessibilityState.MutualExclusion | osal/accessibility_manager_impl.cpp:39-45 | no two threads are in the locked part at once |
| AccessibilityState.CountNonNegativeIff | osal/accessibility_manager_impl.cpp:1163-1178 | the count stays non-negative throughout a run exactly if the 32-bit counter does not overflow |
| AccessibilityState.CountIsBalance | osal/accessibility_manager_impl.cpp:1163-1178 | the compare-exchange loop loses no update: the count is requests added minus requests taken back |
| AccessibilityState.LatestKeptIff | osal/accessibility_manager_impl.cpp:47-51 | after any schedule: the stored system state was the last notified one throughout exactly if no reading of it is overtaken, on the way to its store, by a notified store of another value |
| AccessibilityState.ReadingHasOrigin | osal/accessibility_manager_impl.cpp:47-51 | whatever is stored without a notification was read by the same thread at an earlier step |
| AccessibilityState.StateChangeCanBeLost | osal/accessibility_manager_impl.cpp:1019-1037 | a run at whose end all threads are idle and a notified change has been overwritten |
| AccessibilitySearch.GetFramenodeByAccessibilityId | osal/accessibility_manager_impl.cpp:1836-1866 | the search that looks at nodes as it enqueues them ends with the root, or the first eligible match in serving order, or nothing |
| AccessibilitySearch.FindFrameNodeByAccessibilityId | osal/accessibility_manager_impl.cpp:320-335 | the first match among the children, or all of them enqueued |
| AccessibilitySearch.GetInspectorById | osal/accessibility_manager_impl.cpp:147-168 | the search that looks at nodes as it dequeues them ends with the first match in serving order |
| AccessibilitySearch.ServedSplit | osal/accessibility_manager_impl.cpp:348-363 | a queue serves whole levels, one after the other |
| AccessibilitySearch.ServedMember | osal/accessibility_manager_impl.cpp:348-363 | what is served is exactly what lies at some depth |
| AccessibilitySearch.NextLevelInOrder | osal/accessibility_manager_impl.cpp:1846-1863 | each node of a level puts its children behind those of the nodes before it: its virtual node alone, or its live children, or the plain ones |
| AccessibilitySearch.AtDepthIff | osal/accessibility_manager_impl.cpp:1846-1863 | a node is at a depth exactly if a path of that many steps, each to such a child, leads to it |
| AccessibilitySearch.FindsNothingIff | osal/accessibility_manager_impl.cpp:337-367 | nothing is found exactly if neither the root nor any frame below it that is not level-No has the id; the root is found even if it is level-No |
| AccessibilitySearch.FindsShallowestFirst | osal/accessibility_manager_impl.cpp:337-367 | the node found is the leftmost match of the shallowest level that has one |
| AccessibilitySearch.InspectsNothingIff | osal/accessibility_manager_impl.cpp:147-168 | nothing is found exactly if no frame at any depth has the id |
| AccessibilitySearch.InspectsShallowestFirst | osal/accessibility_manager_impl.cpp:147-168 | the node found is the leftmost frame node with the id on the shallowest level that has one |
| AccessibilitySearch.SearchesAgree | osal/accessibility_manager_impl.cpp:147-168 | without virtual nodes and level-No frames, and with both enumerations alike, the two searches return the same node |
| AccessibilityTree.ListedIffReached | osal/accessibility_manager_impl.cpp:170-202 | a node is listed exactly if it is an active or first-virtual frame, no stage or page, not internal or first-virtual, and a path leads to it through stages, pages of this id, internal frames and nodes that are no frames |
| AccessibilityTree.FlattenDrops | osal/accessibility_manager_impl.cpp:174-181 | a frame neither active nor first-virtual, and a page of another id, contribute nothing |
| AccessibilityTree.FlattenLists | osal/accessibility_manager_impl.cpp:182-184 | any other frame that is no stage or page and is not internal, or is first-virtual, is listed itself and hides what is below it |
| AccessibilityTree.FlattenPassesOn | osal/accessibility_manager_impl.cpp:187-201 | everything else contributes what its virtual frame node does, if it has one, and otherwise what its live children do |
| AccessibilityTree.FlattenAppend | osal/accessibility_manager_impl.cpp:199-201 | siblings contribute one after the other |
| AccessibilityTree.FlattenAllEmbeds | osal/accessibility_manager_impl.cpp:170-202 | the subtrees of the listed nodes are disjoint parts of the tree in document order |
| AccessibilityTree.FlattenIsAntichain | osal/accessibility_manager_impl.cpp:170-202 | no listed node lies below another one |
| AccessibilityDump.GetFrameNodeChildren | osal/accessibility_manager_impl.cpp:170-202 | the recursive collection appends the narrowed ids of exactly the flattened list |
| AccessibilityDump.NodeInfo.AddChild | osal/mock/accessibility_element_info.cpp:28-37 | an id that is listed already is not added again |
| AccessibilityDump.WithoutRepeatsIff | osal/mock/accessibility_element_info.cpp:28-37 | adding ids one by one keeps the members, each once, and keeps the list exactly if it had no repetition |
| AccessibilityDump.FirstPlaceCounts | osal/mock/accessibility_element_info.cpp:28-37 | of an id that repeats the first place counts |
| AccessibilityDump.CollectChildren | osal/accessibility_manager_impl.cpp:984-997 | the ids of the plain enumeration, or of the virtual node alone if there is one |
| AccessibilityDump.UpdateChildren | osal/accessibility_manager_impl.cpp:981-1002 | these ids are added to the element info, repetitions dropped |
| AccessibilityDump.MakeInfo | osal/accessibility_manager_impl.cpp:1868-1880 | a group other than the root lists no children, any other node its narrowed child ids without repetitions |
| AccessibilityDump.GroupsAreCut | osal/accessibility_manager_impl.cpp:1876-1878 | a group that is not the root lists no children |
| AccessibilityDump.KidsAreFlattened | osal/accessibility_manager_impl.cpp:981-1001 | any other node lists what flattening makes of its virtual frame node, if it has one, and otherwise of its live children |
| AccessibilityNumbering.FindKid | osal/accessibility_manager_impl.cpp:1759-1797 | on a well-numbered tree every child of a dumped node meets the condition on its id |
| AccessibilityNumbering.FindById | osal/accessibility_manager_impl.cpp:1836-1866 | with unique ids a node is found under its id exactly if it is not level-No |
| AccessibilityNumbering.LeadsBackIff | osal/accessibility_manager_impl.cpp:1836-1866 | a lookup leads back to a child exactly if the child itself is the first eligible node served with its id, and to nothing for a level-No child exactly if no eligible node has it |
| AccessibilityNumbering.IdLeadsHereByPlace | osal/accessibility_manager_impl.cpp:1836-1866 | by place: where no node is served twice, an eligible node is the one its id leads to exactly if no place served before its own holds an eligible node with the id |
| AccessibilityDump.SearchElementInfo | osal/accessibility_manager_impl.cpp:1759-1797 | on every tree on which the recursion ends it appends exactly what the lookups lead to, in call order |
| AccessibilityDump.DumpEmbeds | osal/accessibility_manager_impl.cpp:1759-1797 | the nodes of the walk are nodes of the tree in pre-order |
| AccessibilityDump.WalkListsDumpNodes | osal/accessibility_manager_impl.cpp:1759-1797 | the list a direct walk leaves is the pre-order of the filtered tree |
| AccessibilityNumbering.DumpIsWalkIff | osal/accessibility_manager_impl.cpp:1759-1797 | on every tree: the dump ends with the direct walk exactly if each child met on it has a distinct id among its siblings that fits 32 bits, is neither -1 nor the root's, and is not that of an eligible node served earlier, or of any eligible node if the child is level-No |
| AccessibilityNumbering.SharedIdIsNotWalk | osal/accessibility_manager_impl.cpp:1793-1796 | if two different nodes met on the walk as eligible children share an id, no depth gives the walk |
| AccessibilityNumbering.CousinsAreDumped | osal/accessibility_manager_impl.cpp:1845-1863 | an input: a root over two columns, each over a leaf numbered 5; the first leaf is dumped twice and the second never |
| AccessibilityNumbering.CousinsAreNotWalked | osal/accessibility_manager_impl.cpp:1793-1796 | if the two leaves are different nodes, no depth gives the walk |
| AccessibilityNumbering.DumpListsEachOnce | osal/accessibility_manager_impl.cpp:1759-1797 | on a tree with unique ids that fit 32 bits and are not -1 the dump ends with the pre-order of the filtered tree, each element once |
| AccessibilityNumbering.DepthSuffices | osal/accessibility_manager_impl.cpp:1793-1796 | there the recursion needs no more depth than the found subtree has nodes |
| AccessibilityEnding.DumpEndsIff | osal/accessibility_manager_impl.cpp:1793-1796 | on every tree: the dump of a found node ends exactly if no way of lookups from it comes to the same node twice, and then one more than the number of nodes is depth enough |
| AccessibilityEnding.NeverEnds | osal/accessibility_manager_impl.cpp:1793-1796 | if lookups lead from a node on the dump's way back to it, no depth suffices |
| AccessibilityEnding.RepeatedIdNeverEnds | osal/accessibility_manager_impl.cpp:1767-1770 | a node on any way from the root that lists -1 or the root's id makes the dump of the root endless |
| AccessibilityEnding.WideIdIsLost | osal/accessibility_manager_impl.cpp:985-988 | on no way of lookups is a node reached whose id does not fit 32 bits, unless it is the root |
| AccessibilityNumbering.PairDumpIff | osal/accessibility_manager_impl.cpp:1759-1797 | for a root with one leaf, whatever their ids, the condition is that the leaf's id fits 32 bits and is neither the root's nor -1 |
| Numerals.NumeralRoundTrip | osal/backtrace_handler.cpp:135-174 | reading back a printed number gives it, for every value and both bases, and there is no leading zero |
| Numerals.DigitsInOrder | osal/backtrace_handler.cpp:135-174 | digits are printed as 0 to 9 and a to f |
| Numerals.NumeralUnique | osal/backtrace_handler.cpp:135-174 | every numeral without leading zero is what its value prints as |
| Numerals.SignedRoundTrip | osal/backtrace_handler.cpp:179-190 | reading back the signed decimal gives any value, the 32-bit minimum included |
| Numerals.NumeralLength | osal/backtrace_handler.cpp:138-149 | a value below a power of the base needs no more digits than the exponent, so the scratch arrays suffice |
| DumpBuffers.CollectDigits | osal/backtrace_handler.cpp:144-147 | the digit loop never leaves its scratch array and collects the numeral backwards |
| DumpBuffers.DumpBuffer.AppendCh | osal/backtrace_handler.cpp:111-116 | the buffer is the capped prefix of all that was appended |
| DumpBuffers.CappedKeeps | osal/backtrace_handler.cpp:111-116 | the cap keeps the first 8191 characters |
| DumpBuffers.DumpBuffer.AppendLit | osal/backtrace_handler.cpp:118-123 | the same for a text |
| DumpBuffers.DumpBuffer.AppendStrN | osal/backtrace_handler.cpp:125-133 | a name field is appended up to its first NUL |
| DumpBuffers.DumpBuffer.AppendHex | osal/backtrace_handler.cpp:135-151 | any 64-bit value is appended as its hexadecimal numeral |
| DumpBuffers.DumpBuffer.AppendDec | osal/backtrace_handler.cpp:159-174 | any unsigned 32-bit value is appended as its decimal numeral |
| DumpBuffers.DumpBuffer.AppendDecSigned | osal/backtrace_handler.cpp:179-190 | any signed 32-bit value is appended, with no step outside 32 bits |
| DumpBuffers.DumpBuffer.FlushDump | osal/backtrace_handler.cpp:195-210 | the write loop outputs what the coming write results let through, and empties the buffer whatever they are |
| DumpBuffers.DrainIsPrefix | osal/backtrace_handler.cpp:195-210 | whatever the writes do, what comes out is a prefix of what was buffered |
| DumpBuffers.DrainReliable | osal/backtrace_handler.cpp:199-208 | partial progress and finitely many interruptions lose nothing |
| DumpBuffers.DrainsAllIff | osal/backtrace_handler.cpp:199-208 | a flush lets everything through exactly if no write fails or accepts nothing before the accepted counts add up to the buffer |
| ImageTables.ImageTable.LoadImages | osal/backtrace_handler.cpp:63-86 | the table holds the first 1024 images that have a name and a header, in loader order |
| ImageTables.RecordOf | osal/backtrace_handler.cpp:75-84 | a record has the header address, the slide and the first 127 characters of the name |
| ImageTables.RecordsStep | osal/backtrace_handler.cpp:68-85 | an image is recorded exactly if it has a name and a header, behind all before it |
| ImageTables.LoadedAre | osal/backtrace_handler.cpp:63-86 | the table holds the first 1024 records |
| ImageTables.ImageTable.FindImage | osal/backtrace_handler.cpp:91-100 | the scan finds the closest image at or below the address |
| ImageTables.Containing | osal/backtrace_handler.cpp:88-100 | an image is found exactly if one starts at or below the address, and none starts closer |
| ImageTables.ContainingIsFirst | osal/backtrace_handler.cpp:94-98 | among equally close images it is the first in the table |
| ImageTables.PrintedName | osal/backtrace_handler.cpp:79-83 | a name prints as itself, cut to 127 characters |
| FrameWalks.WalkRises | osal/backtrace_handler.cpp:273-302 | on any memory only nonzero, 16-byte-aligned, strictly rising frame pointers are followed |
| FrameWalks.WalkIsBounded | osal/backtrace_handler.cpp:273-302 | at most 64 frames are visited and printed |
| FrameWalks.WalkStopsAt | osal/backtrace_handler.cpp:273-302 | a walk ends at 64 frames, a fault, a zero or misaligned frame pointer, a frame without a caller, or after one whose saved frame pointer is not higher |
| FrameWalks.CallSitesFollowMemory | osal/backtrace_handler.cpp:282-284 | four more than a printed call site, modulo 2^64, is the nonzero return address that memory holds eight bytes above its frame pointer |
| FrameWalks.LinksFollowMemory | osal/backtrace_handler.cpp:283 | every followed frame pointer is the one saved in the frame before |
| FrameWalks.WalkReadsSlots | osal/backtrace_handler.cpp:282-283 | nothing but the two words of followed frames is read, in order |
| FrameWalks.SlotsAre | osal/backtrace_handler.cpp:281-283 | the two words of a frame are the one eight bytes above its frame pointer, then the one at it |
| FrameWalks.WalkFaultsAtEnd | osal/backtrace_handler.cpp:282-283 | a walk faults exactly if its last read does |
| FrameWalks.WalkOfChain | osal/backtrace_handler.cpp:258-303 | on a well-formed chain in memory four more than each call site is the return address of its frame, in order, up to 64 frames |
| CrashReports.Unslid | osal/backtrace_handler.cpp:228 | the printed address plus the slide is the program counter, in 64-bit arithmetic |
| CrashReports.FrameLineReads | osal/backtrace_handler.cpp:216-230 | a line reads back as its number, its address, and the name of the closest image at or below it with an address to which adding the slide gives it |
| CrashReports.SignalLineReads | osal/backtrace_handler.cpp:235-256 | the signal line reads back as the unsigned signal number, the signed code, and the fault address exactly if it is not 0 |
| CrashReports.SignalNames | osal/backtrace_handler.cpp:241-248 | which signal numbers are named, and how |
| CrashReports.WalkLinesAre | osal/backtrace_handler.cpp:262-288 | walked lines are those of the call sites in order, numbered from 1 if the faulting instruction is known and has line 0, and from 0 otherwise |
| CrashReports.FlushesFit | osal/backtrace_handler.cpp:235-303 | for every signal, table and chain no text between two flushes reaches the buffer's cap |
| CrashReports.DrainAllReliable | osal/backtrace_handler.cpp:195-210 | a series of flushes below the cap with reliable writes outputs everything |
| CrashReports.DumpOutput | osal/backtrace_handler.cpp:258-303 | with reliable writes: the whole report without a fault, the report up to the fault if a frame was walked, else nothing |
| CrashReports.FaultLosesIff | osal/backtrace_handler.cpp:289-293 | with a fault, nothing reported before it is lost exactly if the first frame's two words are readable |
| CrashReports.CrashOutput | osal/backtrace_handler.cpp:344-372 | the output of a crash, for every signal, image table, memory and context |
| CrashReports.ManualDumpOfZero | osal/backtrace_handler.cpp:428-439 | with reliable writes a dump on request from zero outputs title, reason and footer, and reads nothing |
| BacktraceHandlers.PrintFrame | osal/backtrace_handler.cpp:216-230 | one line: number, address, and image with static address if one contains it |
| BacktraceHandlers.DumpSignalHeader | osal/backtrace_handler.cpp:235-256 | the banner and the signal line, with the fault address exactly if there is one |
| BacktraceHandlers.WalkStep | osal/backtrace_handler.cpp:273-302 | one turn of the walk: two reads, a line, a flush; the buffer is empty at the next read |
| BacktraceHandlers.WalkFrames | osal/backtrace_handler.cpp:273-302 | the loop reads, prints and flushes exactly as the walk specifies, whatever memory and writes do |
| BacktraceHandlers.DumpBacktrace | osal/backtrace_handler.cpp:258-309 | reads, output, pending text and remaining writes after the dump |
| BacktraceHandlers.BacktraceHandler.CrashHandler | osal/backtrace_handler.cpp:344-372 | the whole output of a crash; nothing if a dump is under way; the guard stays set exactly after a fault |
| BacktraceHandlers.BacktraceHandler.DumpBacktraceFromFp | osal/backtrace_handler.cpp:428-439 | the whole output of a dump on request; from zero, with reliable writes, it is nothing exactly if a dump is already under way |

## Left out

- DragTracker.StepKeepsInv: session ids are unbounded naturals; the wrap-around of the 64-bit generator is not modelled.
- DragRuntime.SyntheticDragRuntimeState.UpdateTouchState: runs without interruption here; interleavings of its two stores are runs of DragTracker.
- DragCompensation.CompensatePointWithHotspot: coordinates are unbounded integers; float arithmetic is exact below 2^24, so rounding and 32-bit overflow are not modelled.
- DragRuntime.SyntheticDragRuntimeState.StartDrag: windows, listeners, callbacks and the drag framework reduce to whether there is a window and to the event handed on.
- SessionCaches.SessionCache.ResetPointerLocked: the erase loop over the hash map goes through its keys in some order; iterators are not modelled.
- The drag style, summary, shadow and preview calls of the interaction class: thin calls into the framework.
- HtmlConverter.HtmlToSpan.ToSpan: one position per character; the code counts wide characters for positions and UTF-16 units for the text.
- HtmlConverter.ToSpanString: images have no children, as the HTML parser makes them; parsing and its failure results are not modelled.
- HtmlConverter.MutableSpanString.AddSpan: overwrites one style kind over a range; how the span library merges values of one kind is not modelled.
- CSS parsing: an attribute carries the list of style values its text parses to, as opaque values; image options are the image's attributes.
- AccessibilityDump.SearchElementInfo: is stated for dumps that end; one that does not end has no result to state.
- AccessibilityDump.MakeInfo: the properties copied from a node, such as text and bounds, are the node with its handle; parent ids, UI extension components and nodes without an accessibility property are left out.
- AccessibilityDump.UpdateChildren: UI extension components, which list no children of their own, are left out; the rule that makes a node a group by its place is a flag of the node, not a write to its property during the dump.
- AccessibilityTree: trees are values, whose nodes are told apart by a handle that stands for all they carry; they do not change during a search; the work queue is a sequence.
- The text dump of the tree, actions, events, focus handling and card ids of the accessibility manager: straight-line code over unseen libraries.
- AccessibilityState.StepKeepsInv: loads, stores and compare-exchanges are sequentially consistent; posting to the UI thread is not modelled.
- BacktraceHandlers.BacktraceHandler.CrashHandler: forwarding to previous handlers, signal installation, the alternate stack and other architectures are left out; a faulting read ends the dump.
- BacktraceHandlers.WalkFrames: the body of the loop is split into a read, a step and a flush; the 4-bit mask and shift of the hexadecimal printer are remainder and quotient by 16.
- ImageTables.ImageTable.LoadImages: the loader's image list does not change while it is read.
