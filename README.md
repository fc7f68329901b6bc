# Detective Quest in Dafny

A model of the three chapters of the Detective Quest console game:

- **Novato.c**: a fixed binary tree of rooms, explored by recursion.
- **Aventureiro.c**: rooms carry clues, which are collected into a binary search tree while exploring.
- **Mestre.c**: the clue tree, a chained hash table from clue to suspect, case-folded commands, a per-round report on each clue, and the final judgment. The judgment counts the collected clues that point to the accused and succeeds from two on.

Modules, one concept each:

- `CStrings`: `char[50]` truncation (`strncpy` + terminator), `strcmp` as a byte-wise order (`Compare`, `Less`), C-locale `tolower`, and `Option` for a pointer that may be NULL. A Dafny `char` stands for one byte of a C string.
- `Mansion`: rooms as immutable values, since `main` wires the map once and play never changes it. It also holds the navigation rule the three chapters share.
- `ClueTree`: the clue store's abstract value (a search tree under `strcmp` order) with insert-or-ignore and the in-order listing.
- `ClueStore`: the heap nodes `inserirPista` rewrites in place. Class `ClueNode` carries a ghost `Tree`/`Repr`, and each method is proved against `ClueTree`.
- `SuspectIndex`: `hash` with its 32-bit wrap-around, and the chained table as pure functions (`Put`, `Lookup`, the `Contents` map). Class `SuspectTable` is the bucket array that `inserirNaHash` mutates.
- `Exploration`: the clue-collecting loop of Aventureiro.c and Mestre.c as a function `Run` over a finite command sequence. Each round collects the room's clue, then reads one command. Mestre.c lowercases the command first.
- `Mestre`, `Aventureiro`, `Novato`: each chapter's `criarSala`, its exploration (the loop or the recursion, proved against the specification function), and chapter-specific facts.
- `Judgment`: `verificarSuspeitoFinal` and its nested `contarPistas`.

Console input becomes a sequence of command characters. Console output becomes returned values: the rooms visited, the per-round report and the judgment record.

## Model

| member | source | states |
|---|---|---|
| CStrings.Truncate | Mestre.c:54-57 | the stored string is the longest prefix of the input that fits 49 characters; short inputs are kept whole |
| CStrings.Compare | Mestre.c:84 | `strcmp`'s sign is -1, 0 or 1 and is 0 exactly for equal strings |
| CStrings.CompareFlip | Mestre.c:84-90 | swapping the operands of `strcmp` negates the result |
| CStrings.LessTransitive | Mestre.c:84-90 | `strcmp` order is transitive |
| CStrings.Trichotomy | Mestre.c:84-90 | of a<b, a=b, b<a exactly one holds, and no string is below itself |
| CStrings.ToLower | Mestre.c:214 | only 'A'..'Z' change, each to its lower-case letter |
| Mansion.Navigate | Mestre.c:216-233 | 's' stops; 'e'/'d' move to the left/right exit exactly when it exists; anything else stays put |
| ClueTree.Insert | Mestre.c:70-94 | defines the insert: descend by `strcmp`, ignore an equal clue, hang a truncated leaf at the empty place; its meaning is stated by the `Insert*` lemmas below |
| ClueTree.InOrder | Mestre.c:239-245 | defines the listing as left subtree, node, right subtree; `InOrderSorted` states its order and contents |
| ClueTree.InsertKeys | Mestre.c:70-94 | after the insert the key set is the old one plus the new clue |
| ClueTree.InsertPreservesBST | Mestre.c:84-90 | the insert keeps left keys below and right keys above every node |
| ClueTree.InsertExisting | Mestre.c:91 | inserting a clue already present leaves the tree unchanged |
| ClueTree.InsertChangesIffNew | Mestre.c:84-93 | the tree changes if and only if the clue is new |
| ClueTree.InsertIdempotent | Mestre.c:84-93 | inserting the same clue twice equals inserting it once |
| ClueTree.InsertKeepsRoot | Mestre.c:93 | inserting into a non-empty tree keeps its root key |
| ClueTree.InOrderSorted | Mestre.c:239-245 | the in-order listing is strictly ascending, lists exactly the stored clues, and has one entry per node |
| ClueTree.SortedUnique | Mestre.c:239-245 | two strictly ascending listings with the same elements are equal |
| ClueTree.InsertAllKeys | Mestre.c:70-94 | inserting a run of clues keeps the search-tree order and adds exactly those clues |
| ClueTree.ListingIgnoresInsertionOrder | Mestre.c:239-245 | the same clues collected in any order give the same listing |
| ClueStore.ClueNode.constructor | Mestre.c:72-81 | a new node holds the clue with both children NULL |
| ClueStore.ClueNode.Insert | Mestre.c:70-94 | the heap insert follows `ClueTree.Insert`, and a non-NULL root is returned unchanged |
| ClueStore.ClueNode.AttachLeft | Mestre.c:87 | rewriting the left pointer keeps the node valid, with the new subtree as its left value |
| ClueStore.ClueNode.AttachRight | Mestre.c:89 | rewriting the right pointer keeps the node valid, with the new subtree as its right value |
| ClueStore.ClueNode.Contains | Mestre.c:84-90 | the `strcmp` descent finds a clue if and only if the tree holds it |
| ClueStore.ClueNode.List | Mestre.c:239-245 | the printed clues are the in-order listing of the tree |
| SuspectIndex.Accumulate | Mestre.c:98-101 | the accumulator stays within 32 bits |
| SuspectIndex.AccumulateIsPolynomial | Mestre.c:98-101 | wrapping each step to 32 bits yields the polynomial hash modulo 2^32 |
| SuspectIndex.Hash | Mestre.c:97-103 | `hash` is the 31-polynomial modulo 2^32 and then modulo 10, so it is always below 10 |
| SuspectIndex.Bucket | Mestre.c:97-103 | defines the bucket of a clue as the 32-bit accumulator modulo 10; `Hash` is proved equal to it |
| SuspectIndex.FindIndex | Mestre.c:131-141 | the chain scan stops at the first item holding the clue, or at the end when there is none |
| SuspectIndex.ChainFind | Mestre.c:159-166 | defines the chain scan of `encontrarSuspeito`: the suspect of the first item holding the clue, else NULL |
| SuspectIndex.ChainPut | Mestre.c:128-145 | defines the chain update of `inserirNaHash`: overwrite the first match's suspect, else prepend a new item |
| SuspectIndex.Lookup | Mestre.c:156-167 | defines `encontrarSuspeito` on the bucket chains; `LookupIsContents` and `LookupAfterPut` state its meaning |
| SuspectIndex.Put | Mestre.c:112-148 | the table keeps its 10 buckets |
| SuspectIndex.EmptyTable | Mestre.c:342-344 | the initial table has 10 empty buckets |
| SuspectIndex.LookupAfterPut | Mestre.c:112-167 | after inserting (k, v) the lookup of k gives v as stored, and every other lookup is unchanged |
| SuspectIndex.LookupIsContents | Mestre.c:156-167 | a lookup succeeds exactly for the keys of the table's map and returns that map's value |
| SuspectIndex.PutIsMapUpdate | Mestre.c:112-148 | an insert updates the table's abstract map at exactly one key |
| SuspectIndex.StoredCluesAreFound | Mestre.c:156-167 | in a well-formed table every stored clue can be looked up |
| SuspectIndex.EmptyTableFindsNothing | Mestre.c:166 | a lookup in the empty table returns NULL, and its map is empty |
| SuspectIndex.PutPreservesWellFormed | Mestre.c:112-148 | an insert keeps each item in its own bucket with no duplicate clue in a chain |
| SuspectIndex.SingleAssociation | Mestre.c:156-167 | a single association is found, and any other spelling, even by letter case, is not |
| SuspectIndex.SuspectTable.constructor | Mestre.c:342-344 | the table starts with every bucket NULL |
| SuspectIndex.SuspectTable.Insert | Mestre.c:112-148 | the buckets become `Put` of the old ones. An existing clue is updated in place with chain length and order kept; a new clue is prepended to bucket `hash(k)`; other buckets are untouched |
| SuspectIndex.SuspectTable.Find | Mestre.c:156-167 | the result is `Lookup` of the table, and in a valid table it is found exactly for keys of the map |
| Exploration.Collect | Mestre.c:185-190 | defines a round's collection: insert the room's clue when it is non-empty; `CollectKeys` states its effect |
| Exploration.Run | Mestre.c:181-235 | defines the clue-collecting loop over a command sequence; the `Run*` lemmas state what it does |
| Exploration.CollectKeys | Mestre.c:185-190 | a round keeps the store a search tree and adds just the room's non-empty clue |
| Exploration.CollectIdempotent | Aventureiro.c:83-85 | collecting in the same room twice equals collecting once |
| Exploration.RunKeepsBST | Mestre.c:181-235 | the store stays a search tree through the whole exploration |
| Exploration.RunCollectsVisitedClues | Aventureiro.c:77-108 | at the end the store holds its old clues plus exactly the non-empty clues of the rooms visited |
| Exploration.RunWalksDown | Aventureiro.c:97-106 | the visited rooms form one downward path from the start, ending at the final cursor, with at most one round per command plus one; from NULL nothing happens |
| Exploration.RunReportsNewClues | Mestre.c:185-198 | intended: the clues of rounds marked new are exactly the clues the store gained |
| Exploration.RunReportsEachNewClueOnce | Mestre.c:185-198 | intended: no clue is marked new in two rounds |
| Exploration.InvalidCommandIsNoOp | Aventureiro.c:104-106 | an invalid command or missing exit leaves the final cursor, store and ending as if it had not been typed |
| Mestre.CreateRoom | Mestre.c:48-62 | name and clue are truncated to 49 characters, and both exits are NULL |
| Mestre.ReportFromPointers | Mestre.c:185-201 | defines the message chosen from the clue, the NULL test on the old root and the root comparison |
| Mestre.ReportAsWritten | Mestre.c:189-198 | as written, "registered" is never printed, and "already collected" is printed for any clue differing from the room name whenever the store was non-empty |
| Mestre.ReportOf | Mestre.c:192-198 | intended: "registered" exactly for a new non-empty clue, "already collected" only for a held clue, "clean" exactly for no clue |
| Mestre.RegisteredIffStoreGrows | Mestre.c:192-194 | the intended "registered" holds exactly when the store grows, and matches the round's new-clue mark |
| Mestre.KitchenClueMisreported | Mestre.c:189-198 | with "Estrela Azul" held, the kitchen's new clue " Fogao sujo" is reported as already collected as written, and as registered as intended |
| Mestre.CollectAsWritten | Mestre.c:185-198 | the pointer-comparing round inserts the clue and yields `ReportAsWritten` |
| Mestre.CollectClue | Mestre.c:185-198 | the corrected round inserts the clue and reports from a lookup made before the insert |
| Mestre.Reports | Mestre.c:181-201 | the reports of a run of rounds as written, one per round; the old root is NULL exactly while the store started empty and no earlier round had a clue |
| Mestre.StillNullIsNoClues | Mestre.c:189-192 | the root is still NULL before a round exactly when the store started empty and no earlier room had a clue |
| Mestre.ReportsAt | Mestre.c:185-201 | the report of round i is the pointer-test report of its room, with a NULL old root exactly when the store started empty and no earlier room had a clue |
| Mestre.NeverRegistered | Mestre.c:192-194 | as written, no round of an exploration reports "registered" |
| Mestre.NonEmptyStoreSaysCollected | Mestre.c:195-197 | as written, once the store is non-empty every round with a clue differing from the room name reports "already collected" |
| Mestre.FirstClueSilent | Mestre.c:192-198 | as written, the first clue found from an empty store draws no message at all |
| Mestre.ExploreRooms | Mestre.c:178-236 | the loop's ending, cursor, store and rounds equal `Run` with lowercased commands, and the report it gives in each round is `Reports` of those rounds, the root-pointer tests as written |
| Aventureiro.CreateRoom | Aventureiro.c:28-38 | the name and clue are copied, a NULL clue becomes "", and both exits are NULL |
| Aventureiro.AddClue | Aventureiro.c:45-61 | defines the guarded insert that skips an empty clue; `AddClueKeys` states its effect |
| Aventureiro.AddClueKeys | Aventureiro.c:45-61 | the guarded insert keeps the order, adds exactly a non-empty clue, ignores "", and ignores a held clue |
| Aventureiro.CollectIsAddClue | Aventureiro.c:83-85 | a round's collection is the guarded insert of the room's clue |
| Aventureiro.InsertClue | Aventureiro.c:45-61 | the heap insert follows the guarded insert, and "" returns the root untouched |
| Aventureiro.ExploreWithClues | Aventureiro.c:77-108 | the loop's ending, cursor and store equal `Run` with case-sensitive commands |
| Aventureiro.OnlyKeepsSorted | Aventureiro.c:64-70 | filtering an ascending list keeps it ascending |
| Aventureiro.MansionCluesSorted | Aventureiro.c:115-119 | the four mansion clues in listing order are strictly ascending under `strcmp` |
| Aventureiro.MansionListing | Aventureiro.c:64-70 | any collected subset of the mansion's clues, in any order, lists as that subset in alphabetical order |
| Aventureiro.CaseSensitive | Aventureiro.c:97-106 | 'E', 'D' and 'S' are invalid and change nothing |
| Novato.CreateRoom | Novato.c:18-33 | the name is truncated to 49 characters, there is no clue, and both exits are NULL |
| Novato.Explore | Novato.c:40-77 | defines the recursive exploration: show the room, stop at a dead end, otherwise prompt |
| Novato.Prompt | Novato.c:56-76 | defines the prompt loop: 's' quits, an existing exit recurses into it, anything else re-prompts |
| Novato.ExploreDescends | Novato.c:40-77 | NULL shows nothing; otherwise the rooms shown form one downward path from the start, the walk ends by itself exactly at a room with no exits, and it shows at most one room per command plus one |
| Novato.PromptDescends | Novato.c:56-76 | the prompt loop's walk is one downward path, ending by itself exactly at a dead end |
| Novato.Reprompts | Novato.c:64-75 | 'E', 'D', 'S' and a direction with no exit re-prompt at the same room |
| Novato.ExploreRooms | Novato.c:40-77 | the recursive exploration with its re-prompt loop equals `Explore` |
| Judgment.Tally | Mestre.c:274-287 | defines the count: clues of the tree whose looked-up suspect is the accused; `TallyCountsIncriminatingClues` states it as a set size |
| Judgment.Succeeds | Mestre.c:294-300 | defines the verdict: success from two clues on |
| Judgment.TallyCountsIncriminatingClues | Mestre.c:274-289 | the count is the number of distinct collected clues whose suspect is the accused |
| Judgment.TallyAtMostSize | Mestre.c:274-289 | the count never exceeds the number of collected clues |
| Judgment.EmptyStoreFails | Mestre.c:259-300 | with no clues the count is 0 and the accusation fails |
| Judgment.TwoOfThree | Mestre.c:294-300 | two clues for one suspect and one for another: the first accusation succeeds with 2, the second fails with 1 |
| Judgment.TallyIs | Mestre.c:274-289 | the count is the size of any set holding exactly the incriminating clues |
| Judgment.CountClues | Mestre.c:274-287 | the in-order recursive count with table lookups equals the tally |
| Judgment.Judge | Mestre.c:253-300 | no-evidence notice exactly for an empty store; the listing is in order; the count is the tally; success exactly from 2 |

## Left out

- Console I/O is replaced by a command sequence and returned values. This covers `printf`, `scanf`, the `getchar` flushing and the prompt texts. The accused name is a parameter of `Judge`.
- Mestre.ExploreRooms: a failing `scanf` re-runs the round without a command (Mestre.c:205-209). That round re-collects the same clue, so it is a no-op like an invalid command and is not modelled separately. When input ends, the C loop spins forever; the model stops with `ended` false instead.
- Mestre.ExploreRooms: each input line is one command: the first character of its first word. The rest of the line is flushed (Mestre.c:212). A word longer than the 10-byte `acao` buffer is undefined behaviour in C.
- Mestre.ExploreRooms: the intended new-clue mark of each round (`Visit.newClue`) is ghost, since the C loop never computes it; the reports it returns are the ones the C code prints.
- Mestre.ExploreRooms: the hash-table parameter of `explorarSalas` is never used, so it is not a parameter.
- Aventureiro.ExploreWithClues, Novato.ExploreRooms: running out of input is modelled as the loop stopping (`ended` false, `OutOfInput`). The C code at end of file re-reads a stale character instead.
- Aventureiro.ExploreWithClues: requires a non-NULL start room, since the C loop dereferences it before any test.
- Aventureiro.CreateRoom: requires names and clues shorter than 50 bytes, since `strcpy` into `char[50]` overflows otherwise.
- Aventureiro.InsertClue: requires a clue shorter than 50 bytes, for the same `strcpy`.
- SuspectIndex.SuspectTable.Insert: requires a clue shorter than 50 bytes. A longer one is stored truncated but compared untruncated (Mestre.c:121-122 against 132), so it would be duplicated on every insert.
- SuspectIndex.LookupAfterPut, SuspectIndex.PutIsMapUpdate and SuspectIndex.PutPreservesWellFormed carry the same short-clue requirement.
- SuspectIndex.CharValue: a plain `char` is read as a signed byte, as gcc does on x86. Characters above 255 do not occur, because each Dafny `char` stands for one byte.
- Hash chains are sequences of items rather than linked `HashItem` nodes. Aliasing between items is not modelled; the C code never shares them.
- Memory management: `malloc` failure with `exit`, the `free` of the unused item (Mestre.c:136), and the `liberar*` teardown functions.
- `contarPistas` is a GCC nested function that increments a captured counter. Here it is a top-level method returning its count.
- The map and suspect fixtures in each `main` are not modelled, apart from the adventurer's four clues used in `Aventureiro.MansionListing`.
- Rooms are values, not heap nodes. `main` wires them once and play never rewrites them.

## Findings

| source | as written | input that shows it | evidently intended | confidence | as-written member | corrected member |
|---|---|---|---|---|---|---|
| Mestre.c:189-198 | "new clue?" is judged by comparing the root pointer before and after `inserirPista`, which returns the same non-NULL root whether or not it inserted; so "registered" is never printed and, once the store is non-empty, every clue differing from the room name draws "already collected" | store holding "Estrela Azul", then the room "Cozinha" with the new clue " Fogao sujo": prints "already collected" | "registered" for a clue new to the store, "already collected" only for one it holds | not executed | Mestre.ReportAsWritten, Mestre.KitchenClueMisreported, Mestre.NonEmptyStoreSaysCollected | Mestre.ReportOf, Mestre.CollectClue |
