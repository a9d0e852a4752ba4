# Verified model of munch

munch compiles lexers and decides facts about the tokenizations they produce. This
project models its decision procedures in Dafny and proves what each of them answers,
for all automata, merge tables, graphs, windows and inputs. Every module is named
after the part of the program it models.

Two specifications carry the whole project. `Machine` and `Munch` define a partial
automaton over bytes and the one maximal-munch segmentation of an input.
`MergeTable` and `MergePasses` define the encoding of a text by a ranked merge table.
Everything else is a fast procedure, written with the loops, worklists and tables of
the original, tied to a statement over all inputs of one of the two.

- **Where a token must start.** `SplitWindow` steps a cloud of hypotheses over a window
  and certifies an origin; `ShortestWindow` and `ThreeStatus` search two different
  quotients of that cloud for a least certified window and are proved to agree;
  `MandatoryCore` and `CoreDerivation` derive and prove a word every certified window
  holds; `SplitPoints` (over `Partition` and `DfaRows`) decides single bytes, also with
  ignored tokens; `AnchorStretch`, `AnchorWalk`, `AnchorGraph`, `TopologicalOrder` and
  `AnchorFreeSpan` compute the exact supremum of the run of positions nothing anchors.
- **Guessed boundaries.** `GuessedMarking` shows that the guesses which survive are the
  greedy ones. On it rest the exact, shortest searches of `BoundarySearch`,
  `SegmentationDifference` and `Rescue` (all through `WordSearch`), the verifiers of
  `ArmedRun`, `TrieChain` and `TrieExploration` (explored by `Explorations`, trimmed by
  `Verifiers`), and the repairs of `Repairs`, `Recovery`, `JumpForest` and
  `RepairProfile`.
- **Scanning in copies.** `StateClasses` groups a verifier's states exactly by what they
  accept; `CopyReading`, `CopyAnchors`, `ChunkWorkers`, `CopyStitch` and `KCopyScan` run
  chunk copies on the classes and stitch them; `VerifierScans` shows that the verifiers
  built here meet what that scan asks of its verifier.
- **Byte-pair encoding.** `MergeEncoder` (rewriting and passes), `TokenAutomaton` (lazy
  copies), `ClaimedPasses` and `MergeTower` (a cascade with early flushing) are four forms
  of one encoding, proved equal; `TokenRuns`, `Miscovering` and `EncoderDivergence` decide
  window certificates and differences of encoders.
- **Outputs and expressions.** `FreeGroup` and `OutputEquality` decide the equality of two
  outputs over all paths of a graph; `Patterns`, `Elimination` and `Avoiding` turn the
  avoidance of a terminator into an expression; `PieceSet` finds the cuts no piece straddles.
- **The compiler.** `Regexes`, `Nfas`, `NfaBuilding`, `RegexLowering`, `Determinize`,
  `Outcomes`, `Minimize` and `Compiler` go from patterns to a minimal automaton and keep
  what every word is awarded, by priority and id.

`Options`, `Counting`, `Search`, `Suffixes` and `ByteClasses` hold what several parts share.
`dafny verify dfyconfig.toml` checks the project.

## Model

| member | source | states |
|---|---|---|
| `Machine.Compile` | libs/dfa/src/simulator.cpp:148-206 | the compiled automaton matches every nonempty word exactly as the given one does and with the same token, its start state never accepts, its live states are exactly those reachable that can still accept, and the token of the empty word is kept aside |
| `Machine.UnrollKeepsNonempty` | libs/dfa/src/unroll_start.cpp:7-32 | copying the start changes no run of a nonempty word: same end state, same match, same token |
| `Machine.UnrollStartShape` | libs/dfa/src/unroll_start.cpp:7-32 | the unrolled start never accepts, and where a copy was made no step comes back to it |
| `Machine.ReachableStates` | libs/dfa/src/simulator.cpp:347-373 | the worklist closure holds exactly the states some word leads to |
| `Munch.RunAll` | paper/figures/window_search.cpp:657-705 | the scan takes the longest match each time, its boundaries are the input's segmentation where it gets to the end, and where it gets stuck the input has none |
| `Munch.SegmentationUnique` | paper/figures/window_search.cpp:657-705 | an input has at most one maximal-munch segmentation, from any position |
| `SplitWindow.IsSplitWindow` | libs/dfa/src/split_window.cpp:298-398 | answers o exactly when there is a scan that could have read the window and every one that could began its last token at offset o inside it; such a scan starts in any live state, steps between live states, and begins tokens only where it stands in an accepting state or in a start nothing re-enters |
| `SplitWindow.CloudIsPossible` | libs/dfa/src/split_window.cpp:320-372 | the cloud after a window holds a state and an origin exactly when such a scan ends in the state with its last token begun there |
| `SplitWindow.CertifiesIsPins` | libs/dfa/src/split_window.cpp:374-394 | the hypotheses left agree on an origin exactly when all those scans do |
| `SplitWindow.TrueHypothesisSurvives` | libs/dfa/src/split_window.cpp:298-398 | after each byte of an occurrence in a tokenizable input the cloud holds the hypothesis that is true there: the state of the covering token, renamed at the start where that applies, with its own origin |
| `SplitWindow.CertificateSound` | libs/dfa/src/split_window.cpp:298-398 | at every occurrence p of a window certified at o, in every completely tokenizable input, the token over the window's last byte starts at p + o |
| `ShortestWindow.OriginUnique` | libs/dfa/src/split_window.cpp:212-294 | no two hypotheses of a cloud share an origin inside the window, which is what lets one chosen origin and a set of others stand for the whole cloud |
| `ShortestWindow.AnyCertificateIsWalk` | libs/dfa/src/split_window.cpp:400-526 | every certified window, spelled with any bytes, is a walk of its own length over one byte per class in the chosen-origin graph, from the start to a certified node |
| `ShortestWindow.CertifiedNodeCertifies` | libs/dfa/src/split_window.cpp:212-294 | a node with an origin chosen and nothing else alive is reached by certified windows only |
| `ShortestWindow.ShortestSplitWindow` | libs/dfa/src/split_window.cpp:400-526 | a window found has only scans that began their last token at its origin, and no shorter window has such an origin; nothing found means no window of any length has; the budget answer is given only where more distinct nodes than the budget stand for windows, and never where the budget covers all nodes there can be |
| `ByteClasses.Representatives` | libs/dfa/src/simulator.cpp:216-251 | one byte for every class of equal table rows, ascending, no class twice |
| `ThreeStatus.StepKey` | paper/figures/window_search.cpp:711-794 | counting the arrivals at each state computes the stepped key |
| `ThreeStatus.KeyAbstracts` | paper/figures/window_search.cpp:711-794 | the abstraction commutes with reading: the single and the blocked states of the cloud after w + [b] are the key of the cloud after w stepped on b |
| `ThreeStatus.CertifiedKey` | paper/figures/window_search.cpp:796-856 | a window is certified at some origin exactly when its key has nothing blocked and one single state |
| `ThreeStatus.ThreeStatusSearch` | paper/figures/window_search.cpp:796-856 | breadth first over keys: the length found is the least of a window whose possible scans agree on an origin inside it, and an exhausted search proves there is none |
| `ThreeStatus.SearchesAgree` | paper/figures/window_search.cpp:1267-1302 | whatever the chosen-origin search finds, the three-status search finds the same least length, and finds nothing where the other finds nothing |
| `MandatoryCore.CoreMatcher` | libs/dfa/src/simulator.cpp:806-849 | each entry is the longest prefix of the core that the prefix read so far and the byte end with; the failure table falls back through proper borders only |
| `MandatoryCore.ProvesCore` | libs/dfa/src/simulator.cpp:755-804 | the product search accepts exactly where every word free of the core leaves the state alive whatever byte comes next |
| `MandatoryCore.CertifiedHoldsCore` | libs/dfa/src/simulator.cpp:573-623 | where a core is proved for a live state that may stand before a window, every certified window holds the core with at least one byte after it |
| `CoreDerivation.DeathDepths` | libs/dfa/src/simulator.cpp:625-680 | the states found are exactly the live ones some word kills, each with the least length of such a word |
| `CoreDerivation.SpellCore` | libs/dfa/src/simulator.cpp:694-753 | the core spelled from a state is one byte short of its least killing word and takes the lowest byte onward at each step |
| `CoreDerivation.CoreIsSpelled` | libs/dfa/src/simulator.cpp:694-753 | the bytes chained one nearer to death at a time are exactly the least of the shortest killing words, its last byte dropped |
| `CoreDerivation.DeriveMandatoryCore` | libs/dfa/src/simulator.cpp:573-623 | the core derived is the longest over all live states that may stand before a window, lowest state first, of the words that with one more byte are least to kill the state (shortest, then lowest bytes), are not empty, and without which no word kills it; every certified window holds it; none is derived exactly where no such state has one |
| `Partition.CoarsestClasses` | libs/dfa/src/simulator.cpp:488-571 | two states, the dead one included, get the same class exactly when their colours agree along every word |
| `SplitPoints.DeriveSplitPoints` | libs/dfa/src/simulator.cpp:416-486 | marks exactly the bytes that begin some token and such that, wherever a token could go on over the byte, what is read before it is an ignored token, all that could come of it is ignored, and it goes on exactly as a token begun at the byte |
| `SplitPoints.SafeIsMayCut` | libs/dfa/src/simulator.cpp:455-483 | the test by states, shades and classes is that statement about words, for any set of ignored tokens |
| `SplitPoints.SafeByteExact` | libs/dfa/src/simulator.cpp:416-486 | with nothing ignored a byte is marked exactly when it starts some token and starts a token wherever it occurs in any completely tokenizable input |
| `SplitPoints.SafeByteIsWindow` | libs/dfa/src/simulator.cpp:416-486 | with nothing ignored a byte is marked exactly when the window of that byte alone is certified at origin 0 |
| `SplitPoints.CutKeepsStream` | libs/dfa/src/simulator.cpp:416-571 | with ignored tokens, cutting any completely tokenizable input before any occurrence of a marked byte leaves two completely tokenizable parts whose kept (token, length) streams join to the whole's |
| `SplitPoints.IgnoringKeepsSafe` | libs/dfa/src/simulator.cpp:416-486 | ignoring tokens unmarks no byte |
| `GuessedMarking.AdvanceIsGreedy` | libs/dfa/src/boundary_search.cpp:225-260 | a byte is survived exactly where no earlier segment could have run on to a longer match and the open one is still matching |
| `GuessedMarking.CloseIsGreedy` | libs/dfa/src/boundary_search.cpp:268-280 | closing is possible exactly where the segment is a token, and the closed runs still describe all segments that could run longer |
| `GuessedMarking.SurvivorIsSegmentation` | libs/dfa/src/boundary_search.cpp:225-330 | a marked input that ends on a close survives exactly when its marks are its maximal-munch segmentation |
| `GuessedMarking.SegmentationIsMarking` | libs/dfa/src/boundary_search.cpp:311-355 | every segmentation of a nonempty input is such a marking and survives |
| `WordSearch.RunSearch` | libs/dfa/src/boundary_search.cpp:394-471 | for any expansion: a word found ends the search and no shorter word does; an exhausted search without one proves there is none; giving up means more distinct keys than the cap are reached |
| `WordSearch.UniverseSuffices` | libs/dfa/src/boundary_search.cpp:430-471 | a cap covering any set of keys that is closed under the expansion is never exceeded |
| `BoundarySearch.OriginSearch` | libs/dfa/src/boundary_search.cpp:500-623 | a shortest tokenizable input in which some occurrence of the window fails the claim about its origin, or the proof that no input has one |
| `BoundarySearch.WindowCounterexample` | libs/dfa/src/boundary_search.cpp:810-819 | a shortest input with an occurrence whose last byte is not covered from the origin; none and exhaustive means there is none; the search is exhaustive wherever the cap covers the finitely many keys |
| `BoundarySearch.BoundaryCounterexample` | libs/dfa/src/boundary_search.cpp:821-830 | the same for a token crossing the gap at some occurrence |
| `BoundarySearch.CrossingCounterexample` | libs/dfa/src/boundary_search.cpp:832-841 | the same for a boundary at the gap of some occurrence |
| `BoundarySearch.CertificateIsGaps` | libs/dfa/src/boundary_search.cpp:810-841 | a window has no counterexample at an origin exactly when no token ever crosses the origin and no boundary ever falls after it inside the window |
| `BoundarySearch.CertifiedNeverRefuted` | libs/dfa/src/boundary_search.cpp:810-819 | the conservative certificate of the cloud walk has no counterexample at all |
| `SegmentationDifference.FindDifference` | libs/dfa/src/boundary_search.cpp:886-944 | a shortest input the two automata segment differently, told apart by whether both tokenize it; none and exhaustive proves that they segment every input alike |
| `Rescue.FindRescue` | libs/dfa/src/boundary_search.cpp:664-708 | a shortest completely tokenizable input in which the scan runs on beyond a token before falling back to its end, or the proof that there is none |
| `Repairs.MaximalRun` | libs/dfa/src/recovery.cpp:104-141 | the last position at which the run from a state accepts, and none exactly where it accepts nowhere |
| `Recovery.BuildJumpTable` | libs/dfa/src/recovery.cpp:147-172 | filled right to left: the end of the token at each position of the tail, and whether the suffix from there tokenizes completely |
| `Recovery.CrossingEntries` | libs/dfa/src/recovery.cpp:178-222 | a shortest nonempty word to every state a nonempty word leads to, and to no other |
| `Recovery.NextAnchoredStart` | libs/dfa/src/recovery.cpp:368-421 | the least position at or after the given one that starts a token under every repair that makes repair and tail tokenize completely, over infinitely many repairs; none only where there is no such position |
| `Recovery.MinimalRepair` | libs/dfa/src/recovery.cpp:433-456 | a shortest word that, put before the tail, makes it tokenize completely; none exactly where no word does |
| `Repairs.RepairEnters` | paper/panic-mode/checks/repair_profile.py:80-106 | every repair whose scan gets into the tail does so through a word no longer than itself, with the same boundaries inside |
| `JumpForest.FindMeeting` | paper/panic-mode/checks/repair_profile.py:178-210 | the first position all the jump paths from the entries share |
| `JumpForest.FindBasis` | paper/panic-mode/checks/repair_profile.py:178-210 | at most two of the entries already share nothing before that position |
| `RepairProfile.Recurrence` | paper/panic-mode/checks/repair_profile.py:111-159 | the right-to-left recurrence gives, for every position and state, the last acceptance, and so the tail's jumps |
| `RepairProfile.ScenariosDecide` | paper/panic-mode/checks/repair_profile.py:160-232 | the finitely many scenarios reach an endpoint, and agree on a start, exactly as the infinitely many repairs do |
| `RepairProfile.ProfileOf` | paper/panic-mode/checks/repair_profile.py:178-227 | the four numbers and the counted set of the profile decide the common starts at every endpoint, and so do at most three scenarios |
| `RepairProfile.Analyze` | paper/panic-mode/checks/repair_profile.py:108-244 | at every endpoint past 0 the profile's starts, and those common to at most three repairs, are exactly the starts of every repair that gets there; and it says where no repair does |
| `RepairProfile.ShortestRefuting` | paper/panic-mode/checks/repair_profile.py:229-236 | a shortest repair that reaches the endpoint without the start (or at all), or none exactly where there is no such repair |
| `MergeTable.TableOf` | libs/verifier/src/rule_ceilings.cpp:182-233 | resolves exactly the tables whose parts are bytes or earlier products and whose products are new, or names the first rank that fails and which way |
| `MergePasses.Adjacency` | libs/verifier/src/token_automaton.cpp:680-707 | a token sequence is the encoding of its own text exactly when each token and each adjacent pair is |
| `MergePasses.Projection` | libs/verifier/src/token_automaton.cpp:680-707 | both halves of an encoding are encodings of their own texts |
| `MergePasses.EncodedIsCanonical` | libs/verifier/src/ripple_radius.cpp:472-503 | what the passes leave of a text is a fixed point of spelling and encoding again |
| `MergeEncoder.StepKeepsPasses` | libs/verifier/src/rule_ceilings.cpp:360-400 | one rewriting of the lowest-ranked pair at its leftmost place changes nothing that the passes still to come make of the sequence, and ranks never go down |
| `MergeEncoder.Encoder.Encode` | libs/verifier/src/rule_ceilings.cpp:360-400 | rewriting until nothing below the cutoff applies leaves exactly what one pass per rank leaves |
| `MergeEncoder.EncodeByPasses` | libs/verifier/src/ripple_radius.cpp:472-503 | one pass per listed rank is the encoding itself, where every rank left out is of a merge no text ever uses |
| `MergeEncoder.AppliesOnItsParts` | libs/verifier/src/rule_ceilings.cpp:433-472 | a merge applies in some text exactly when the lower ranks encode its two parts' spellings as those two tokens |
| `MergeEncoder.StagesOf` | libs/verifier/src/rule_ceilings.cpp:433-472 | each flag tells whether the merge ever applies, and the self-pair is the first merge of equal parts that does |
| `MergeEncoder.UsefulPasses` | libs/verifier/src/ripple_radius.cpp:512-552 | the ranks listed are exactly those of the merges that ever apply, up to the first one with equal parts, tested with the shortened passes alone |
| `TokenAutomaton.Automaton.constructor` | libs/verifier/src/token_automaton.cpp:525-600 | merge by merge, the copies made lazily keep every target and every readable pair that of the whole table |
| `TokenAutomaton.Automaton.MayFollow` | libs/verifier/src/token_automaton.cpp:680-707 | the state a token enters reads the next exactly when the two of them are the encoding of their text |
| `TokenAutomaton.Automaton.TokenOf` | libs/verifier/src/token_automaton.cpp:661-673 | finds the token a word spells, and none exactly where no token spells it |
| `Miscovering.ExhaustedCertifies` | libs/verifier/src/token_automaton.cpp:269-362 | when no single token holds the window wrongly and the search is closed, no encoding of any text miscovers the window at any place |
| `Miscovering.FindMiscovering` | libs/verifier/src/token_automaton.cpp:255-436 | a miscovering found is a text with its own token boundaries in which the window's last byte is not covered from the origin; none proves the certificate for every text |
| `EncoderDivergence.FindDivergence` | libs/verifier/src/token_automaton.cpp:444-516 | a text the two encoders segment differently, or the proof that they segment every text alike |
| `ClaimedPasses.EncodesIsEncoding` | libs/verifier/src/merge_tower.cpp:494-543 | passes over bytes that carry boundary claims accept exactly the claims that mark the encoding's tokens |
| `MergeTower.DeliveredTakes` | libs/verifier/src/merge_tower.cpp:494-543 | handing a claimed symbol to a stage leaves a configuration that stands for the same remaining passes |
| `MergeTower.EarlyFlush` | libs/verifier/src/merge_tower.cpp:617-675 | emptying a stage whose merge no possible arrival can complete changes nothing that can still be accepted |
| `MergeTower.Normalize` | libs/verifier/src/merge_tower.cpp:617-660 | flushing early, lowest stage first, until nothing can be flushed keeps the meaning of the configuration, leaves nothing to flush, and refuses only what accepts nothing |
| `MergeTower.BuildTower` | libs/verifier/src/merge_tower.cpp:427-675 | the explored and trimmed cascade accepts a marking of bytes exactly when the marks are the interior boundaries of the encoding; it is trim |
| `MergeTower.OneMarking` | libs/verifier/src/merge_tower.cpp:427-675 | every text has one accepted marking and no other |
| `Verifiers.CoaccessibleStates` | libs/verifier/src/verifier.cpp:141-180 | the backward search holds exactly the states from which something is accepted |
| `Verifiers.Trim` | libs/verifier/src/verifier.cpp:571-673 | trimming keeps the accepted language and the recorded kinds, leaves no transition into the start, numbers the states without gaps, and every state but the start lies on an accepting run |
| `ArmedRun.BuildArmedRun` | libs/verifier/src/verifier.cpp:318-448 | accepts a marked input exactly when it tokenizes completely and its marks are the interior boundaries of that segmentation, with the tokens as the kinds recorded; refuses exactly an automaton that accepts the empty word; the table is trim |
| `TrieChain.ReadIsGreedy` | libs/verifier/src/trie_chain.cpp:556-631 | the armed runs beside the open one survive exactly the markings that are greedy in both modes so far |
| `TrieChain.StateRecovers` | libs/verifier/src/trie_chain.cpp:434-459 | the oldest armed tail and a depth lose nothing: the runs read back from the state of a reachable configuration are that configuration |
| `TrieChain.OneSegmentation` | libs/verifier/src/trie_chain.cpp:633-640 | a text has at most one two-mode longest-match segmentation |
| `TrieExploration.BuildTrieChain` | libs/verifier/src/trie_chain.cpp:410-631 | the compressed states accept exactly the markings of two-mode greedy segmentation; refused exactly where a token is empty; the table is trim |
| `VerifierScans.ArmedFunctional` | libs/verifier/src/k_copy_scan.cpp:1179-1230 | the armed-run verifier accepts at most one marking of an input, as the scan in copies asks |
| `VerifierScans.TrieFunctional` | libs/verifier/src/k_copy_scan.cpp:1179-1230 | so does the trie-chain verifier |
| `VerifierScans.TowerFunctional` | libs/verifier/src/k_copy_scan.cpp:1179-1230 | so does the merge tower, its claims read as marks |
| `VerifierScans.TowerTrim` | libs/verifier/src/k_copy_scan.cpp:1179-1230 | reading claims as marks keeps the tower trim |
| `StateClasses.ClassesOf` | libs/verifier/src/k_copy_scan.cpp:239-299 | two states of a trim verifier get the same class exactly when they accept the same marked continuations |
| `StateClasses.ProjectedRun` | libs/verifier/src/k_copy_scan.cpp:306-352 | runs of the projection are the classes of the runs it projects, dead exactly where they are |
| `StateClasses.ClassesApart` | libs/verifier/src/k_copy_scan.cpp:239-352 | no two classes of the projection accept the same continuations |
| `CopyAnchors.AnchorsOf` | libs/verifier/src/k_copy_scan.cpp:660-715 | the anchors are exactly the inner positions of the inventory's occurrences, each with the configurations all of them allow |
| `CopyAnchors.AnchorSound` | libs/verifier/src/k_copy_scan.cpp:684-715 | an accepted marking that a cut can carry carries one of the anchor's configurations there |
| `CopyAnchors.CutsOf` | libs/verifier/src/k_copy_scan.cpp:722-755 | the i-th cut is the least anchor past the one before that reaches i parts in n of the input, rounded down; no more chunks than asked for or than bytes, and fewer only where no such anchor is left |
| `CopyAnchors.TargetIsShare` | libs/verifier/src/k_copy_scan.cpp:732 | the target computed by quotient and remainder is the index-th of the equal parts, rounded down |
| `CopyAnchors.TargetsEven` | libs/verifier/src/k_copy_scan.cpp:732 | the targets run from 0 to the input's size in steps of one length or one byte more |
| `ChunkWorkers.ReadableExits` | libs/verifier/src/k_copy_scan.cpp:809-834 | walking the lookahead backward keeps exactly the exit states from which it can be read on |
| `ChunkWorkers.ChunkExits` | libs/verifier/src/k_copy_scan.cpp:762-800 | a copy may exit exactly in an accepting state at the input's end, and at a cut in a state the anchor allows from which the lookahead can be read, to acceptance where it takes in all that is left |
| `CopyReading.CopyExits` | libs/verifier/src/k_copy_scan.cpp:841-907 | the exits listed are exactly the markings of the chunk that lead from the entry to an allowed state, each once |
| `CopyReading.LayersNeverRepeat` | libs/verifier/src/k_copy_scan.cpp:841-907 | in the copies of a functional verifier no layer holds a state twice |
| `KCopyScan.NoClassTwice` | libs/verifier/src/k_copy_scan.cpp:841-907 | in the copies run on the classes no layer holds a class twice |
| `KCopyScan.ResolvesIsAgreed` | libs/verifier/src/k_copy_scan.cpp:1204-1226 | the first level whose chains share one past the chunk is the first whose chains mark the input alike up to its end |
| `CopyStitch.Stitch` | libs/verifier/src/k_copy_scan.cpp:959-992 | at every cut the chains kept are exactly the ways to join copies up to it, each once, and every accepted marking is followed by one; stitching fails only where nothing is accepted |
| `CopyStitch.CommonLevels` | libs/verifier/src/k_copy_scan.cpp:1026-1053 | for every cut, the furthest earlier cut before which all chains kept are one |
| `CopyStitch.ShareIsAgreeing` | libs/verifier/src/k_copy_scan.cpp:1026-1053 | two chains share their ancestor at a cut exactly when they mark the input alike up to it |
| `KCopyScan.ScanInCopies` | libs/verifier/src/k_copy_scan.cpp:1179-1230 | for any trim functional verifier, sound inventory, chunk count and lookahead: a scan's boundaries are the one accepted marking; a refusal means none is accepted; the anchors are the inner cuts of the inventory's occurrences with the classes all of them allow, the chunks lie between the cuts nearest the equal parts, each with one copy per class, and each is resolved at the first cut where all chains kept mark the input alike up to its end; malformed exactly where an origin is not inside its window |
| `FreeGroup.ExtendedDelay` | paper/figures/modulo.hpp:1201-1226 | extending a reduced delay by an edge's outputs is the reduced delay of the longer outputs |
| `FreeGroup.DelayDecides` | paper/figures/modulo.hpp:1201-1226 | the reduced delay of two words is empty exactly when they are equal |
| `OutputEquality.AcceptingSuffixes` | paper/figures/modulo.hpp:1254-1299 | the vertices marked are exactly those some path leads from to an accepting one, each with an edge one nearer to it |
| `OutputEquality.PathDecides` | paper/figures/modulo.hpp:1201-1226 | a path's delay is empty exactly when its two outputs are equal |
| `OutputEquality.UnequalPath` | paper/figures/modulo.hpp:1382-1476 | a path returned is accepting with different outputs; none returned proves the outputs equal on all accepting paths, however many |
| `TopologicalOrder.ForwardOrder` | libs/dfa/src/anchor_free_span.cpp:42-83 | an order in which every edge leads forward, each vertex once; none only where there are walks of every length |
| `TopologicalOrder.LongestWalk` | libs/dfa/src/anchor_free_span.cpp:797-835 | relaxing in that order gives the length of a longest walk |
| `AnchorStretch.StretchStep` | libs/dfa/src/anchor_free_span.cpp:668-747 | the phase and two capped distances step exactly: a byte is survived where no window's completion anchors inside the guessed stretch, however long that is |
| `AnchorWalk.RunTokenizes` | libs/dfa/src/anchor_free_span.cpp:566-660 | a finished run of the walk is a tokenizable input with a stretch of positions no window anchors |
| `AnchorWalk.StretchRuns` | libs/dfa/src/anchor_free_span.cpp:566-660 | every such stretch of every such input is a finished run |
| `AnchorGraph.Explore` | libs/dfa/src/anchor_free_span.cpp:480-535 | the graph holds exactly the reachable nodes and, for one byte of each class, exactly their steps |
| `AnchorFreeSpan.Finishing` | libs/dfa/src/anchor_free_span.cpp:749-795 | the nodes marked are exactly those some ending of the input can be accepted from |
| `AnchorFreeSpan.LongestStretch` | libs/dfa/src/anchor_free_span.cpp:797-835 | the longest stretch of any tokenizable input, or that there are stretches of every length |
| `AnchorFreeSpan.TokenStretch` | libs/dfa/src/anchor_free_span.cpp:412-471 | no certified origin lies inside a token, so every token is a stretch |
| `AnchorFreeSpan.SpanIsSupremum` | libs/dfa/src/anchor_free_span.cpp:868-875 | what the walk counts back from the ends of windows is the supremum over the runs clear of the occurrences' origins |
| `AnchorFreeSpan.AnchorFree` | libs/dfa/src/anchor_free_span.cpp:412-471 | the exact supremum, over all completely tokenizable inputs, of the run of positions at which no occurrence of a window has its origin, and none exactly where that is unbounded; refused exactly where a pair's possible scans do not all begin at its origin |
| `AnchorFreeSpan.ByteFree` | libs/dfa/src/anchor_free_span.cpp:839-866 | the exact supremum, over all completely tokenizable inputs, of the run of positions at which no certified byte stands |
| `Elimination.EliminationPreserves` | tools/audit/src/antlr_rule.cpp:262-308 | eliminating a state keeps the words between any two states left |
| `Avoiding.LongestOverlapSuffices` | tools/audit/src/antlr_rule.cpp:220-260 | if a matched prefix overlaps the terminator so does every longer match it is a suffix of, so testing the longest one is enough |
| `Avoiding.AutomatonExact` | tools/audit/src/antlr_rule.cpp:190-260 | from any state the words leading to the end are exactly those that finish a body there |
| `Avoiding.Avoid` | tools/audit/src/antlr_rule.cpp:173-310 | the expression spells exactly the words over the alphabet after which the terminator's first occurrence is at the very end |
| `NfaBuilding.AppendMatches` | libs/nfa/src/builder.cpp:196-214 | an appended automaton matches exactly the words that split into one of each |
| `NfaBuilding.MergeAwards` | libs/nfa/src/builder.cpp:216-259 | a merged automaton awards exactly the tokens either one awards |
| `NfaBuilding.PrependReads` | libs/nfa/src/builder.cpp:182-194 | a new start reads exactly what the old one reads |
| `NfaBuilding.StarMatches` | libs/regex/src/repeat.cpp:52-73 | looping back into a start nothing enters matches exactly the joins of matched words |
| `Nfas.ShiftedReads` | libs/nfa/src/builder.cpp:135-180 | renumbering keeps every reading |
| `RegexLowering.LowerRepeat` | libs/regex/src/repeat.cpp:203-211 | each of the six repetitions is lowered to an automaton of exactly its words; refused exactly where a range is backward |
| `RegexLowering.LowerConcat` | libs/regex/src/concat.cpp:8-30 | lowers a sequence of expressions to exactly the joins of their words |
| `RegexLowering.LowerChoice` | libs/regex/src/choice.cpp:10-30 | lowers a choice to exactly the words of its members |
| `RegexLowering.ToNfa` | libs/regex/src/repeat.cpp:18-211 | every expression that can be lowered is, and the automaton recognises exactly the words it denotes |
| `Determinize.ClosureOf` | libs/core/src/determinize.cpp:388-457 | the memoized closure holds exactly the states read on the empty word |
| `Determinize.UniteTargets` | libs/core/src/determinize.cpp:527-538 | the closure of a set of targets is exactly what they read on the empty word |
| `Determinize.Determinized` | libs/core/src/determinize.cpp:270-355 | a word is given the identifier of a token it may be accepted with, none of the others having a lower priority value, or the same and a lower identifier; no identifier where there is no token; every state is reached; the subsets walked are exactly those words lead to |
| `Minimize.RefinedGroups` | libs/dfa/src/minimize.cpp:56-160 | two states share a group exactly when every word has the same outcome from both |
| `Minimize.Minimized` | libs/dfa/src/minimize.cpp:162-217 | the same outcome for every word, and no two states alike |
| `Minimize.Fewest` | libs/dfa/src/minimize.cpp:162-217 | no equivalent automaton has fewer states |
| `Compiler.MergedNfa` | libs/core/src/builder.cpp:160-184 | each pattern alone, compiled to a minimal automaton and put back together, awards every word exactly the tokens of the patterns it matches |
| `Compiler.Compile` | libs/core/src/builder.cpp:135-184 | the compiled automaton matches exactly the words some pattern matches, and gives each the identifier of a matching pattern of least priority value, and of least identifier among those; it is reached throughout and the smallest such automaton; refused exactly where a pattern cannot be lowered |
| `Compiler.Diagnose` | libs/core/src/builder.cpp:80-133 | dead tokens are exactly the registered ones that are least in priority value and then identifier for no word; ties are exactly the pairs some word offers at its least priority value |
| `PieceSet.BuildPieceSet` | libs/verifier/src/piece_set.cpp:147-231 | refuses exactly an empty or repeated piece; otherwise the trie, the links and the neighbour pairs are those of the pieces |
| `PieceSet.LinkFailures` | libs/verifier/src/piece_set.cpp:206-231 | every link names the longest proper suffix that is a node, and every ending the longest piece that ends there |
| `PieceSet.Next` | libs/verifier/src/piece_set.cpp:233-258 | the node reached names the longest suffix of the bytes so far that is in the trie |
| `PieceSet.StraddleFreeIsCut` | libs/verifier/src/piece_set.cpp:270-309 | in every segmentation into pieces and single bytes, a position without a straddling piece is a boundary |
| `PieceSet.FindStraddleFree` | libs/verifier/src/piece_set.cpp:270-309 | lists exactly the interior positions no occurrence of a piece straddles, ascending |
| `PieceSet.PieceCut` | libs/verifier/src/piece_set.cpp:316-353 | nothing exactly where no piece straddles the offset in any text that holds the window; otherwise a text with the straddling piece, cut into characters beside it |
| `PieceSet.CertifiedIsCut` | libs/verifier/src/piece_set.cpp:316-353 | so a certified offset is a boundary at every occurrence, in every segmentation of every text |

## Left out

Where the code and its documentation say different things, the model follows the code.

- Alphabets other than the 256 bytes: the character alphabets of the byte-pair code, its pending bytes and its symbol tables, and the expansion of code points in `libs/regex/src/utf8.cpp`.
- Packed tables: row offsets, bit sets, sorted vectors used as sets, sentinels and stamps are maps, sets, sequences and options here. The memo tables (moves of the anchor walk, closures apart) and reused buffers are not modelled, as they change no answer.
- Integer widths: counts and state numbers are unbounded, so the refusals of tables too large to index, the state limit of the compiler and the exhaustion of memory are not modelled.
- Exceptions: a misuse the code throws on is a precondition or a case of the result.
- Threads: the workers of the scan in copies write separate entries, so they are one loop over the chunks.
- Verifiers.Trim: which number a state gets is not stated, only that the numbers have no gaps.
- Minimize.Minimized: the numbers of the merged states are likewise not stated.
- Munch.RunAll: the cursor, streaming and payloads of the scanner are not part of this model.
- KCopyScan.ScanInCopies: the inventory's soundness, which the code takes on trust from its fanout tables, is a precondition here; `fanout`, `shortest_fanout_windows` and `relative_fanout` are left out.
- ThreeStatus.ThreeStatusSearch: the window's bytes and the number of keys held, which the figure prints, are not returned.
- OutputEquality.UnequalPath: that stems and suffixes are shortest is used for termination but not promised of the path returned.
- RepairProfile.Analyze: endpoints start at 1, as they do in the checks that use the profile; at 0 it answers with no starts, whatever the repairs share.
- TrieExploration.BuildTrieChain: trie nodes are the words they spell instead of numbers; so are those of the piece set.
- TokenAutomaton.Automaton.constructor: the second constructor, from listed tokens and pairs, and `allowed_tokens` are left out, being enumerations of what is proved.
- Avoiding.Avoid: the expression is a syntax tree; its spelling as rule text, and the rest of the audit tool, are left out.
- `boundary_difference`, `window_occurrence`, `boundary_profile` and `verdict`: the first two are further instances of the generic search, the others tabulate two searches proved here.
- `lag`: the longest path of the region after an accepted state would repeat the longest-walk argument of the anchor-free span.
- `history`, the rule ceilings and the ripple radius beyond encoding and useful merges: they rest on theorems stated outside the code.
- Window planning, chunk planning, window density, the mode builder, the pattern parser, the grammar readers and the corpora and printing of the figures.
