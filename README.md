# Three C exercises as verified Dafny models

This project models the logic of three small C games and proves properties about it.

**Detective Quest** (`algoritmos_avancados.c`). The player walks through a mansion: a fixed binary tree of rooms.
- Each room holds at most one clue, which is collected the first time the player enters.
- Collected clues go into a binary search tree ordered by `strcmp`.
- A hash table with seven buckets (`TAMANHO_HASH`) links each clue to a suspect. Collisions are chained, and the newest entry goes first.
- At the end the player accuses a suspect. The accusation holds ("CULPADO") when at least two collected clues (`PISTAS_MINIMAS`) point to that suspect.

**Tetris Stack** (`tetris.c`). The game keeps two piece stores:
- a circular queue of the next five pieces (`Fila`, `MAX_FILA`);
- a reserve stack of three (`Pilha`, `MAX_PILHA`).

Five player actions move pieces between them: play, reserve, use a reserved piece, swap the current piece, and the three-piece block swap.

**Free Fire** (`FreeFire.c`). A backpack holds up to ten components (`MAX_COMPONENTES`). It offers:
- add and discard;
- a bubble sort by name, an insertion sort by type and a selection sort by priority, each reporting its comparison counter;
- a binary search by name that works only after the bubble sort.

## How each part is modelled

The modules follow the programs:
- `StringOrder`: the sign of `strcmp`, and the order it induces.
- `SuspectLedger`: the suspect hash table.
- `ClueTrees`: the clue tree as a value.
- `ClueLedger`: the clue tree as heap nodes.
- `Mansion`: the rooms and the map.
- `Investigation`: the exploration, collection and verdict.
- `Tetris`: the queue, the stack, the piece counter and the actions.
- `Inventory`: the backpack.

Code that updates memory in place stays imperative:
- the hash buckets, the queue and stack slots and the backpack slots are arrays;
- rooms, clue nodes, the queue, the stack, the backpack and the game session are classes;
- every loop of the modelled operations is a `while` loop with its invariants, except the bucket initialisation of `inicializarHash`, which is an array initializer that sets every bucket empty.

The stateful structures are proved against functional specifications:
- `Insert` and `InOrder` for the clue tree;
- `FirstMatch` over the history of registrations for the hash table;
- `Window` (the logical queue `vetor[(inicio+i)%5]`) for the queue;
- `Walk` and `Gathered` for the exploration;
- `KindOrder` (insertion from the right) and `WithoutFirst` for the backpack.

The bubble and selection sorts, the binary search, `Add`, the stack's `Push` and `Pop` and the swaps state their properties directly: sorted, the same multiset and the comparison count; -1 exactly when the name is absent; the contents before and after.

The properties the programs rely on are then proved about those functions.

## Model

| member | source | states |
|---|---|---|
| StringOrder.Compare | free-fire/free-fire-T-A-Fernandes/FreeFire.c:85 | the sign of `strcmp`: always -1, 0 or 1, and 0 against the empty string only for the empty string |
| StringOrder.CompareZeroIffEqual | detective-quest/detective-quest-T-A-Fernandes/algoritmos_avancados.c:139 | `strcmp` is 0 exactly when the strings are equal, so the lookup's match test is string equality |
| StringOrder.CompareFlips | detective-quest/detective-quest-T-A-Fernandes/algoritmos_avancados.c:193 | swapping the arguments of `strcmp` negates its sign |
| StringOrder.LessTransitive | detective-quest/detective-quest-T-A-Fernandes/algoritmos_avancados.c:193-200 | a negative `strcmp` chains: a<b and b<c give a<c |
| StringOrder.LessIsStrictTotalOrder | detective-quest/detective-quest-T-A-Fernandes/algoritmos_avancados.c:193-200 | `strcmp(a,b) < 0` is irreflexive, asymmetric, transitive and total on distinct strings |
| StringOrder.Trichotomy | detective-quest/detective-quest-T-A-Fernandes/algoritmos_avancados.c:193-200 | exactly one of a<b, a==b, b<a holds |
| StringOrder.LessEqTransitive | free-fire/free-fire-T-A-Fernandes/FreeFire.c:85 | `strcmp(a,b) <= 0` chains |
| StringOrder.NotLessIsLessEq | free-fire/free-fire-T-A-Fernandes/FreeFire.c:104 | `strcmp(b,a) < 0` fails exactly when `strcmp(a,b) <= 0`; used where the insertion scan stops on `strcmp(v[j],key) > 0` |
| StringOrder.LessEqLess | free-fire/free-fire-T-A-Fernandes/FreeFire.c:149-157 | a<=b and b<c give a<c |
| StringOrder.LessLessEq | free-fire/free-fire-T-A-Fernandes/FreeFire.c:149-157 | a<b and b<=c give a<c |
| SuspectLedger.ComputeHash | detective-quest/detective-quest-T-A-Fernandes/algoritmos_avancados.c:90-96 | the loop returns the sum of the character codes modulo 7, always a bucket index in 0..6 |
| SuspectLedger.CodeSumAppend | detective-quest/detective-quest-T-A-Fernandes/algoritmos_avancados.c:90-96 | the code sum of a concatenation is the sum of the parts' code sums |
| SuspectLedger.BucketIgnoresOrder | detective-quest/detective-quest-T-A-Fernandes/algoritmos_avancados.c:90-96 | the hash ignores order: swapping two halves of a key keeps its bucket |
| SuspectLedger.SuspectTable.constructor | detective-quest/detective-quest-T-A-Fernandes/algoritmos_avancados.c:78-82 | all seven buckets start empty and nothing is registered |
| SuspectLedger.SuspectTable.Register | detective-quest/detective-quest-T-A-Fernandes/algoritmos_avancados.c:105-124 | the pair is prepended to the chain of its own bucket; every other bucket is unchanged; the history gains the pair at its head |
| SuspectLedger.SuspectTable.FindSuspect | detective-quest/detective-quest-T-A-Fernandes/algoritmos_avancados.c:133-146 | the chain scan returns the suspect of the newest registration of the clue, or "DESCONHECIDO"; the table is not modified |
| SuspectLedger.FirstMatch | detective-quest/detective-quest-T-A-Fernandes/algoritmos_avancados.c:133-146 | the suspect of the first entry for the clue, or DESCONHECIDO; any other answer comes from an entry registered for that clue |
| SuspectLedger.RoutingIsTransparent | detective-quest/detective-quest-T-A-Fernandes/algoritmos_avancados.c:133-146 | looking only in the clue's bucket gives the same answer as scanning every registration |
| SuspectLedger.NewestRegistrationWins | detective-quest/detective-quest-T-A-Fernandes/algoritmos_avancados.c:119-121 | the newest registration of a clue shadows the older ones |
| SuspectLedger.UnregisteredIsUnknown | detective-quest/detective-quest-T-A-Fernandes/algoritmos_avancados.c:145 | a clue never registered resolves to "DESCONHECIDO" |
| SuspectLedger.ResolveAfterRegister | detective-quest/detective-quest-T-A-Fernandes/algoritmos_avancados.c:105-146 | after registering (c, s), c resolves to s, and every other clue resolves as before |
| ClueTrees.Insert | detective-quest/detective-quest-T-A-Fernandes/algoritmos_avancados.c:188-203 | the stored clues become the old ones plus the new clue |
| ClueTrees.InsertKeepsOrder | detective-quest/detective-quest-T-A-Fernandes/algoritmos_avancados.c:188-203 | insertion keeps left < node < right by `strcmp` |
| ClueTrees.InsertPresentIsNoOp | detective-quest/detective-quest-T-A-Fernandes/algoritmos_avancados.c:193-202 | inserting a clue already stored returns the same tree |
| ClueTrees.InOrderIsSortedListing | detective-quest/detective-quest-T-A-Fernandes/algoritmos_avancados.c:208-214 | the in-order listing of a search tree is strictly ascending, one entry per node, and lists exactly the stored clues |
| ClueTrees.SeparatedByRoot | detective-quest/detective-quest-T-A-Fernandes/algoritmos_avancados.c:188-203 | in a search tree the root is in neither subtree, and the two subtrees share no clue |
| ClueTrees.SearchTreeHasNoDuplicates | detective-quest/detective-quest-T-A-Fernandes/algoritmos_avancados.c:188-203 | a search tree holds as many distinct clues as it has nodes |
| ClueTrees.SupportCount | detective-quest/detective-quest-T-A-Fernandes/algoritmos_avancados.c:301-319 | the number of nodes whose clue resolves to the accused: 0 for an empty tree and never more than the node count |
| ClueTrees.SupportingPartition | detective-quest/detective-quest-T-A-Fernandes/algoritmos_avancados.c:301-319 | below a search-tree node, the supporting clues of the subtrees and of the node add up without overlap |
| ClueTrees.SupportCountIsDistinctClues | detective-quest/detective-quest-T-A-Fernandes/algoritmos_avancados.c:301-319 | on a search tree the tally equals the number of distinct collected clues pointing to the accused |
| ClueLedger.ClueNode.constructor | detective-quest/detective-quest-T-A-Fernandes/algoritmos_avancados.c:170-181 | a new node holds the clue and has no children |
| ClueLedger.InsertClue | detective-quest/detective-quest-T-A-Fernandes/algoritmos_avancados.c:188-203 | the pointer-based insertion yields the tree `Insert` describes, keeps the existing root and only adds fresh nodes |
| ClueLedger.InsertLeft | detective-quest/detective-quest-T-A-Fernandes/algoritmos_avancados.c:195-196 | the branch for a clue below the node by `strcmp` inserts into the left subtree as `Insert` says |
| ClueLedger.InsertRight | detective-quest/detective-quest-T-A-Fernandes/algoritmos_avancados.c:197-198 | the branch for a clue above the node by `strcmp` inserts into the right subtree as `Insert` says |
| ClueLedger.ListClues | detective-quest/detective-quest-T-A-Fernandes/algoritmos_avancados.c:208-214 | the recursive walk visits the clues in in-order sequence, strictly ascending on a search tree |
| ClueTrees.InOrder | detective-quest/detective-quest-T-A-Fernandes/algoritmos_avancados.c:208-214 | the order `exibirPistas` prints in: left subtree, node, right subtree, one entry per node |
| ClueLedger.CountSupport | detective-quest/detective-quest-T-A-Fernandes/algoritmos_avancados.c:301-319 | the recursive count over the nodes equals `SupportCount` of the tree with the table's buckets |
| Mansion.Room.constructor | detective-quest/detective-quest-T-A-Fernandes/algoritmos_avancados.c:239-254 | a new room has its name and clue, no exits, and its collected flag at 0 |
| Mansion.LinkedAsPlanned | detective-quest/detective-quest-T-A-Fernandes/algoritmos_avancados.c:262-277 | the seven rooms linked as the map prescribes form a closed map laid out as planned, none collected |
| Mansion.BuildMansion | detective-quest/detective-quest-T-A-Fernandes/algoritmos_avancados.c:262-277 | returns the hall of a closed set of exactly seven freshly allocated rooms laid out as the map prescribes, with no clue collected |
| Investigation.ToLower | detective-quest/detective-quest-T-A-Fernandes/algoritmos_avancados.c:429 | upper-case ASCII letters map to lower case; every other character is unchanged |
| Investigation.VerdictCountsDistinctClues | detective-quest/detective-quest-T-A-Fernandes/algoritmos_avancados.c:348-360 | the verdict is CULPADO exactly when at least two distinct collected clues point to the accused |
| Investigation.CluesOfListsClues | detective-quest/detective-quest-T-A-Fernandes/algoritmos_avancados.c:384-390 | the clues of a list of rooms are exactly the clues those rooms hold |
| Investigation.Session.constructor | detective-quest/detective-quest-T-A-Fernandes/algoritmos_avancados.c:372-373 | the walk starts in the entry room with an empty clue tree and nothing collected |
| Investigation.Session.CollectHere | detective-quest/detective-quest-T-A-Fernandes/algoritmos_avancados.c:384-401 | an uncollected, non-empty clue is inserted into the tree and the flag set; the suspect is reported unless unknown; otherwise nothing changes, so each room contributes at most once |
| Investigation.Session.Record | detective-quest/detective-quest-T-A-Fernandes/algoritmos_avancados.c:387-390 | the clue enters the tree and the room is flagged and recorded as harvested |
| Investigation.Session.AddClue | detective-quest/detective-quest-T-A-Fernandes/algoritmos_avancados.c:387 | the session's clue tree becomes `Insert` of the old one |
| Investigation.Session.Hint | detective-quest/detective-quest-T-A-Fernandes/algoritmos_avancados.c:395-398 | reports the registered suspect of the clue, or nothing when the table answers "DESCONHECIDO" |
| Investigation.Session.Harvest | detective-quest/detective-quest-T-A-Fernandes/algoritmos_avancados.c:390 | sets the room's flag and appends it to the harvest |
| Investigation.Session.Step | detective-quest/detective-quest-T-A-Fernandes/algoritmos_avancados.c:429-447 | after `tolower`, 'e'/'d' follow an existing exit and stay put when there is none; 's' ends the walk; any other option changes nothing |
| Investigation.Session.Turn | detective-quest/detective-quest-T-A-Fernandes/algoritmos_avancados.c:380-448 | one round: a room whose clue is present and not yet collected is collected (flag set, harvest grows by that room, the clue enters the tree, its suspect reported unless unknown), otherwise nothing changes; then the cursor goes where the option leads, and 's' ends the walk |
| Investigation.Session.Explore | detective-quest/detective-quest-T-A-Fernandes/algoritmos_avancados.c:372-450 | the walk ends with the cursor null and the session valid; the harvest grows by exactly the rooms the walk reaches that hold a clue not collected before, in order of first arrival; every room reached that holds a clue ends up collected; flags are only set, never cleared |
| Investigation.Session.Rounds | detective-quest/detective-quest-T-A-Fernandes/algoritmos_avancados.c:379-449 | the loop runs until the walk leaves the mansion; the exits are unchanged and the harvest is what `Gathered` gives along `Walk` |
| Investigation.Session.Round | detective-quest/detective-quest-T-A-Fernandes/algoritmos_avancados.c:380-448 | with `i` options read, one round leaves unchanged what remains to be gathered along the rest of the walk; only 's' or running out of options leaves the mansion |
| Investigation.Walk | detective-quest/detective-quest-T-A-Fernandes/algoritmos_avancados.c:379-449 | the rooms the walk stands in, one per round: it starts in the given room, goes where each option leads, and stops at 's' or when the options run out; empty exactly when there is no room to start in or it is not on the map |
| Investigation.Gathered | detective-quest/detective-quest-T-A-Fernandes/algoritmos_avancados.c:384-390 | the harvest after arriving in the given rooms in order: it extends the harvest so far, adding each room that holds a clue the first time it is reached |
| Investigation.GatheredCovers | detective-quest/detective-quest-T-A-Fernandes/algoritmos_avancados.c:384-390 | every room reached that holds a clue is in the harvest, and the harvest holds only rooms harvested before or reached |
| Investigation.GatheredAppend | detective-quest/detective-quest-T-A-Fernandes/algoritmos_avancados.c:379-449 | gathering along a walk split in two is gathering along the first part and then along the second |
| Investigation.Session.Accuse | detective-quest/detective-quest-T-A-Fernandes/algoritmos_avancados.c:348-360 | the support is the number of distinct collected clues pointing to the accused; the ruling is `Verdict(support)`, CULPADO exactly when the support reaches 2 |
| Investigation.Session.CollectedClues | detective-quest/detective-quest-T-A-Fernandes/algoritmos_avancados.c:334 | the listing is strictly ascending and holds exactly the clues of the harvested rooms |
| Tetris.Window | tetris/tetris-T-A-Fernandes/tetris.c:220-221 | the logical queue has `count` pieces, the i-th being `vetor[(inicio+i)%5]` |
| Tetris.WindowAppend | tetris/tetris-T-A-Fernandes/tetris.c:175-177 | writing the slot after the last piece appends that piece to the logical queue |
| Tetris.WindowAdvance | tetris/tetris-T-A-Fernandes/tetris.c:197-199 | advancing the front slot drops the first piece of the logical queue |
| Tetris.WindowUpdate | tetris/tetris-T-A-Fernandes/tetris.c:357-366 | writing the slot of the i-th piece replaces that piece only |
| Tetris.AdvanceKeepsRear | tetris/tetris-T-A-Fernandes/tetris.c:197-199 | advancing the front while decrementing the count keeps `fim == (inicio + qtd) % 5` |
| Tetris.SlotsDistinct | tetris/tetris-T-A-Fernandes/tetris.c:357 | two different positions within one lap of the ring use different slots |
| Tetris.PieceQueue.constructor | tetris/tetris-T-A-Fernandes/tetris.c:139-143 | an empty queue with `inicio = fim = 0` |
| Tetris.PieceQueue.IsEmpty | tetris/tetris-T-A-Fernandes/tetris.c:148-150 | true exactly when the logical queue is empty |
| Tetris.PieceQueue.IsFull | tetris/tetris-T-A-Fernandes/tetris.c:155-157 | true exactly when the logical queue holds five pieces |
| Tetris.PieceQueue.Enqueue | tetris/tetris-T-A-Fernandes/tetris.c:167-183 | a full queue refuses and is unchanged; otherwise the piece is appended at the back; the ring invariant is kept |
| Tetris.PieceQueue.Dequeue | tetris/tetris-T-A-Fernandes/tetris.c:192-202 | an empty queue yields nothing and is unchanged; otherwise the front piece is returned and removed (FIFO) |
| Tetris.ReserveStack.Contents | tetris/tetris-T-A-Fernandes/tetris.c:107-129 | the pieces from bottom to top number `topo + 1` |
| Tetris.ReserveStack.constructor | tetris/tetris-T-A-Fernandes/tetris.c:83-85 | an empty stack, `topo = -1` |
| Tetris.ReserveStack.IsEmpty | tetris/tetris-T-A-Fernandes/tetris.c:90-92 | true exactly when `topo == -1`, i.e. no pieces |
| Tetris.ReserveStack.IsFull | tetris/tetris-T-A-Fernandes/tetris.c:97-99 | true exactly when `topo == 2`, i.e. three pieces |
| Tetris.ReserveStack.Push | tetris/tetris-T-A-Fernandes/tetris.c:107-114 | a full stack refuses and is unchanged; otherwise the piece becomes the new top and the slots below are kept; -1 <= topo <= 2 is preserved |
| Tetris.ReserveStack.Pop | tetris/tetris-T-A-Fernandes/tetris.c:122-129 | an empty stack yields nothing; otherwise the top piece is returned and `topo` decremented |
| Tetris.PushThenPop | tetris/tetris-T-A-Fernandes/tetris.c:107-129 | a push followed by a pop returns the pushed piece and restores the stack |
| Tetris.PieceFactory.constructor | tetris/tetris-T-A-Fernandes/tetris.c:47 | the piece counter starts at 0 |
| Tetris.PieceFactory.Generate | tetris/tetris-T-A-Fernandes/tetris.c:59-73 | the piece has the given kind and the next number; the counter increases by one |
| Tetris.PlayPiece | tetris/tetris-T-A-Fernandes/tetris.c:253-265 | the front piece is played and a fresh piece joins the back; on an empty queue nothing changes |
| Tetris.ReservePiece | tetris/tetris-T-A-Fernandes/tetris.c:272-291 | with a full stack or an empty queue nothing changes; otherwise the front piece goes on the stack and a fresh piece is enqueued, so the queue length is kept |
| Tetris.UseReserved | tetris/tetris-T-A-Fernandes/tetris.c:298-311 | the top of the stack is played and a fresh piece joins the queue when there is room; on an empty stack nothing changes |
| Tetris.SwapCurrent | tetris/tetris-T-A-Fernandes/tetris.c:318-339 | nothing changes unless both are non-empty; then the queue front and the stack top trade places, with counts and other pieces kept |
| Tetris.ExchangeSlots | tetris/tetris-T-A-Fernandes/tetris.c:357-366 | the i-th piece from the queue front and the i-th from the stack top trade places; nothing else moves |
| Tetris.BlockSwap | tetris/tetris-T-A-Fernandes/tetris.c:355-367 | the first three queued pieces and the three reserved ones trade places, i-th from the front with i-th from the top; the rest of the queue stays |
| Tetris.BlockSwapKeepsPieces | tetris/tetris-T-A-Fernandes/tetris.c:346-373 | the block swap preserves the multiset of all pieces |
| Tetris.SwapThree | tetris/tetris-T-A-Fernandes/tetris.c:346-373 | nothing changes unless the queue has at least three pieces and the stack is full; then the three in-place swaps yield `BlockSwap`, counts kept |
| Inventory.Backpack.constructor | free-fire/free-fire-T-A-Fernandes/FreeFire.c:32-34 | an empty backpack of ten slots, not sorted by name |
| Inventory.Backpack.Add | free-fire/free-fire-T-A-Fernandes/FreeFire.c:172-193 | refused, with nothing changed, when ten components are held; otherwise the component is appended, earlier ones kept, and the sorted flag cleared |
| Inventory.Backpack.Discard | free-fire/free-fire-T-A-Fernandes/FreeFire.c:196-217 | removes the first component with the name, later ones shifting left in order; reports whether one was found; otherwise nothing changes; the flag is kept |
| Inventory.WithoutFirst | free-fire/free-fire-T-A-Fernandes/FreeFire.c:196-217 | the listing after discarding the first component with the name; one shorter exactly when the scan finds the name |
| Inventory.Backpack.CloseGap | free-fire/free-fire-T-A-Fernandes/FreeFire.c:209-211 | the shift loop removes slot i and moves every later slot one place left |
| Inventory.WithoutFirstAt | free-fire/free-fire-T-A-Fernandes/FreeFire.c:207-213 | removing the first match at index i is the listing without slot i |
| Inventory.WithoutFirstAbsent | free-fire/free-fire-T-A-Fernandes/FreeFire.c:216 | with no matching name the listing is unchanged |
| Inventory.WithoutFirstKeepsNameOrder | free-fire/free-fire-T-A-Fernandes/FreeFire.c:196-217 | discarding keeps a name-sorted listing sorted, so keeping the flag is sound |
| Inventory.IndexOfName | free-fire/free-fire-T-A-Fernandes/FreeFire.c:207-208 | the first slot holding the name, or the length when there is none |
| Inventory.Backpack.FindByName | free-fire/free-fire-T-A-Fernandes/FreeFire.c:137-165 | -1 when not sorted by name; when sorted, a slot holding the name, or -1 exactly when no component has it |
| Inventory.Backpack.BubbleSortByName | free-fire/free-fire-T-A-Fernandes/FreeFire.c:78-93 | the components are permuted into ascending name order, the flag is set, and the counter is n(n-1)/2 |
| Inventory.Backpack.BubblePass | free-fire/free-fire-T-A-Fernandes/FreeFire.c:83-90 | one pass over the unsettled prefix permutes it and settles its largest name at the end; it makes bound-1 comparisons |
| Inventory.Backpack.BubbleStep | free-fire/free-fire-T-A-Fernandes/FreeFire.c:84-89 | one compare-and-swap carries the largest name seen so far into slot j+1 |
| Inventory.Settle | free-fire/free-fire-T-A-Fernandes/FreeFire.c:82-90 | a pass that permutes the prefix and leaves its largest name last extends the settled suffix by one slot |
| Inventory.SettledIsAscending | free-fire/free-fire-T-A-Fernandes/FreeFire.c:82-90 | a listing settled from slot 1 is in ascending name order |
| Inventory.EveryPairVisited | free-fire/free-fire-T-A-Fernandes/FreeFire.c:82-84 | the n-1 passes of n-1, n-2, ..., 1 comparisons add up to n(n-1)/2 |
| Inventory.PairsVisitedClosedForm | free-fire/free-fire-T-A-Fernandes/FreeFire.c:120-123 | after p passes the counter is p(2n-1-p)/2 |
| Inventory.Backpack.InsertionSortByKind | free-fire/free-fire-T-A-Fernandes/FreeFire.c:96-112 | the backpack becomes `KindOrder` of its old contents, the counter is the number of shifts, and the flag is cleared |
| Inventory.KindOrder | free-fire/free-fire-T-A-Fernandes/FreeFire.c:96-112 | the insertion sort's result, each element in turn inserted into the sorted prefix; as long as its input (sorted, a permutation and stable by the lemmas below) |
| Inventory.Backpack.InsertNext | free-fire/free-fire-T-A-Fernandes/FreeFire.c:101-109 | one round inserts slot i into the prefix as `InsertByKind` does, counting its shifts |
| Inventory.Backpack.MoveRight | free-fire/free-fire-T-A-Fernandes/FreeFire.c:106 | copying slot j to j+1 advances the round's layout one place |
| Inventory.InsertByKind | free-fire/free-fire-T-A-Fernandes/FreeFire.c:102-109 | inserting one component adds exactly one element |
| Inventory.ShiftsToInsert | free-fire/free-fire-T-A-Fernandes/FreeFire.c:103-107 | the moves one round makes: the elements at the end of the prefix whose kind compares greater, never more than the prefix holds |
| Inventory.InsertByKindAt | free-fire/free-fire-T-A-Fernandes/FreeFire.c:104-109 | the component lands just after the last element whose type is not greater, with everything before and after kept in order |
| Inventory.ShiftsToInsertAt | free-fire/free-fire-T-A-Fernandes/FreeFire.c:104-107 | the round's counter is the number of elements it walks past |
| Inventory.InsertByKindKeepsPieces | free-fire/free-fire-T-A-Fernandes/FreeFire.c:101-109 | inserting adds the component and loses nothing |
| Inventory.InsertByKindKeepsOrder | free-fire/free-fire-T-A-Fernandes/FreeFire.c:101-109 | inserting into a type-sorted prefix keeps it sorted |
| Inventory.KindOrderKeepsPieces | free-fire/free-fire-T-A-Fernandes/FreeFire.c:96-112 | the insertion sort result is a permutation of its input |
| Inventory.KindOrderIsSorted | free-fire/free-fire-T-A-Fernandes/FreeFire.c:96-112 | the insertion sort result is in ascending type order |
| Inventory.InsertByKindIsStable | free-fire/free-fire-T-A-Fernandes/FreeFire.c:104 | the inserted component goes after every component of its own type |
| Inventory.KindOrderIsStable | free-fire/free-fire-T-A-Fernandes/FreeFire.c:104 | components of equal type keep their relative order (the shift test is the strict `> 0`) |
| Inventory.CountAboveIgnoresOrder | free-fire/free-fire-T-A-Fernandes/FreeFire.c:104-106 | how many components have a greater type depends only on which components there are |
| Inventory.ShiftsAreCountAbove | free-fire/free-fire-T-A-Fernandes/FreeFire.c:104-106 | on a sorted prefix, one round shifts exactly the elements of greater type |
| Inventory.ShiftsAreInversions | free-fire/free-fire-T-A-Fernandes/FreeFire.c:104-106 | the counter counts shifts, not comparisons: it ends at the number of out-of-order pairs by type |
| Inventory.Backpack.SelectionSortByPriority | free-fire/free-fire-T-A-Fernandes/FreeFire.c:115-132 | the components are permuted into ascending priority order, the flag is cleared, and the counter is n(n-1)/2 |
| Inventory.Backpack.SelectPass | free-fire/free-fire-T-A-Fernandes/FreeFire.c:120-130 | one pass places the smallest remaining priority at slot i, scanning n-1-i slots |
| Inventory.Backpack.SmallestFrom | free-fire/free-fire-T-A-Fernandes/FreeFire.c:121-126 | the scan finds the first slot from i on holding the smallest priority |
| Inventory.Backpack.Exchange | free-fire/free-fire-T-A-Fernandes/FreeFire.c:127-129 | the two slots trade their components |
| Inventory.SelectStep | free-fire/free-fire-T-A-Fernandes/FreeFire.c:120-130 | exchanging the minimum into slot i places one more slot in final order and keeps the same components |
| Inventory.PlacedIsAscending | free-fire/free-fire-T-A-Fernandes/FreeFire.c:120-130 | once every slot but the last is placed, the listing is in ascending priority order |

## Left out

- Terminal I/O is not modelled: `printf`, `scanf`, `fgets`, `getchar`, `lerString`, `lerInt`, the menus, `main`, `exibirMenu`, `exibirEstadoAtual`, `mostrarComponentes` and the prompts. Player options, accused names, new components and piece kinds are parameters.
- The game script in each `main` (the seven registrations, building the map, filling the queue) is not modelled. It is only calls to the modelled operations.
- `rand`, `srand` and `time` are not modelled: `gerarPeca` takes the piece kind as a parameter drawn from the seven kinds.
- Memory management and process exit are not modelled: `malloc` failure, `exit`, `free`, `liberarHash`, `liberarPistas` and `liberarMapa`. Objects come from `new` and are never freed.
- C string details are not modelled:
  - `strncpy` truncation at `MAX_NOME`/`MAX_PISTA`;
  - the missing terminator;
  - the `TAM_NOME`/`TAM_TIPO` limits.

  Strings are `seq<char>` of any length.
- Strings are assumed to be ASCII, as every constant of the three programs is. `calcularHash` adds the bytes of the C string, and a non-ASCII byte is a negative `char`; the model adds one non-negative code per character, so for non-ASCII text its sum and bucket differ from the C's.
- C `int` overflow is not modelled: counters, priorities and the hash sum are unbounded integers.
- The piece number printed at tetris.c:336 comes from an already-advanced index. It is display only and not part of the state.
- The exploration loop's end of input is not modelled as the C behaves. Once `scanf(" %c")` (algoritmos_avancados.c:425) fails at end of input, the `getchar` loop at line 426 never sees a newline, so the program never reaches `opcao = 's'` and never ends. The model instead ends the walk when the option list runs out, as if 's' had been read; this is a modelling choice, not the program's behaviour.
- A failed `scanf` of the accused name is not modelled: the name is a parameter.
- Hash chains are not modelled as linked nodes. Each bucket's chain is a sequence held in the bucket array, newest entry first; the order is the same, only the pointers are missing.
- The slots of `fila_pecas` and `pilha_reserva`, locals of tetris.c's `main` (tetris.c:398-399), are uninitialised C memory until a piece is stored; the model allocates them without an initializer, so their contents are arbitrary, and no operation reads a slot before writing it. The backpack `mochila` is a global (FreeFire.c:32), so its spare slots start zeroed; the model fills them with the empty component `Component("", "", 0, 0)`.
- The binary search's local comparison counter is not modelled: it is only printed.
- The inner loops of the three sorts and of the discard shift run in helper methods (`BubblePass`, `InsertNext`, `SelectPass`, `CloseGap`). The comparison and shift counts are the same as in the C loops.
- The loop of `explorarSalas` is also split into helper methods: `Rounds` runs it and `Round` is one pass of its body.
- On 's' the C loop breaks and leaves its local `atual` on the last room. The model clears the cursor instead; nothing reads `atual` after the loop.
