# xtrain core in Dafny

xtrain computes Bestvina–Handel train-track representatives of automorphisms of
free groups. A map is a graph self-map: every edge has a start and an end vertex
and an image, a word in oriented edges. It may also carry a fixed word (for maps
that come from surfaces) and marked loops. This project models the discrete core
of the program and proves what each part promises:

- **Letters and words** (`letters.dfy`, `numerals.dfy`, `paths.dfy`, `words.dfy`,
  `boundary.dfy`).
  - An oriented edge is a 16-bit char: the low 15 bits hold the edge index and the
    high bit says that the edge is traversed backwards.
  - A word is a sequence of letters.
  - Operations: free and cyclic reduction, reversal, the per-edge rewrites,
    boundary words, their duals and relations, and cyclic conjugacy.
  - Label text: a..z, z0, z1, ... for the edges, capital letters for their
    inverses.
- **Graph maps** (`graph.dfy`, `graphmap.dfy`, `readgraph.dfy`, `tokens.dfy`,
  `trees.dfy`, `reach.dfy`, `tietze.dfy`, `nielsen.dfy`).
  - `graph.dfy` states each surgery operation of GraphMap as a function on the
    map's state, with lemmas about it.
  - `graphmap.dfy` is the GraphMap class. Its arrays `im`, `start` and `end` are
    updated in place, and every method is proved to produce the state the
    function gives.
  - Also modelled: parsing, evaluation of spanning trees, Tietze transformations,
    and the inversion of a rose by Nielsen reduction.
  - `reach.dfy` says which vertices flagged edges join within d edges. It is used
    to prove that evaluateTree accepts a tree exactly when its edges connect the
    graph.
- **The train-track engine** (`growing.dfy`, `homotopy.dfy`, `turns.dfy`,
  `bookkeeping.dfy`, `invariant.dfy`, `forest.dfy`, `reduction.dfy`, `gates.dfy`).
  - The growable buffers, the transition matrix, valences and homotopies.
  - Illegal turns, invariant subgraphs and the forest test.
  - The bookkeeping of split-and-fold, trainTrackMap, and the gate structure with
    the pseudo-Anosov test.
- **Integer linear algebra** (`intmatrix.dfy`, `intvector.dfy`): products, sums,
  entry counts, the irreducibility test, and polynomial text.
- **Input builders** (`dehn.dfy`, `fixedtwist.dfy`, `stdgen.dfy`, `lorenz.dfy`,
  `lorenzdata.dfy`, `kksequence.dfy`, `torus.dfy`, `threecomplex.dfy`).
  - Dehn twists with respect to a boundary word or a fixed word, and the standard
    generators of surface mapping class groups.
  - Lorenz knots and the lines of their table.
  - The KK sequence of maps.
  - The layers of a mapping torus.
  - The gluing table of a 3-complex.

How Java constructs are modelled:

- An exception becomes an error value carrying the exception's message:
  `Result`, `Outcome` and `Option` in `wrappers.dfy`.
- Objects whose fields the source updates in place are classes whose methods are
  proved against functions on their state.
- Pure logic is functions and lemmas.

## Model

| member | source | states |
|---|---|---|
| Letters.Inv | pbj/math/graph/Word.java:49-51 | The same edge traversed the other way. |
| Letters.Decode | pbj/math/graph/Word.java:31-42 | The letter a char stands for. |
| Letters.IndexToCharInRange | pbj/math/graph/Word.java:59-61 | Within range, indexToChar is inverted by charToIndex and isInverse. |
| Letters.EncodeDecode | pbj/math/graph/Word.java:59-61 | Every char is the encoding of exactly one letter. |
| Letters.InverseFlips | pbj/math/graph/Word.java:49-51 | Flipping the high bit inverts the letter; doing it twice restores the char. |
| Letters.IndexToLabel | pbj/math/graph/Word.java:70-84 | indexToLabel: a..z for the first 26 edges, then z0, z1, ...; upper case when backwards. |
| Letters.LabelRoundTrip | pbj/math/graph/Word.java:123-134 | Reading the label of a letter gives the letter back. |
| Letters.LabelsDistinct | pbj/math/graph/Word.java:70-84 | Distinct letters have distinct labels. |
| Letters.LabelEnd | pbj/math/graph/Word.java:123-134 | The end of the label that starts at i: the first later character above '9'. |
| Letters.PathStringRoundTrip | pbj/math/graph/Word.java:180-193 | Printing a path and reading the text back gives the path. |
| Numerals.NatToString | pbj/math/graph/Word.java:200-202 | Integer.toString of a non-negative value: its shortest decimal numeral. |
| Numerals.IntToString | pbj/math/graph/Word.java:200-202 | Integer.toString: a minus sign before the numeral of a negative value. |
| Numerals.ParseInt | pbj/math/graph/Word.java:218-220 | Integer.parseInt: an optional sign, then at least one digit, with a value that fits in 32 bits; None where Java throws NumberFormatException. |
| Numerals.ParseIntToString | pbj/math/graph/Word.java:218-220 | Writing a 32-bit value and parsing it back gives the value. |
| Numerals.ParseIntRejectsLetters | pbj/math/graph/Word.java:218-220 | A parsed numeral never starts with a character above '9'. |
| Words.TightenWord | pbj/math/graph/Word.java:227-237 | tightenWord: delete cancelling pairs, stepping back after each deletion. |
| Words.CancelStep | pbj/math/graph/Word.java:227-237 | Deleting a cancelling pair at j and stepping back keeps the tightened word. |
| Words.AdvanceStep | pbj/math/graph/Word.java:227-237 | Moving past a non-cancelling pair keeps the tightened word. |
| Words.TightenCycl | pbj/math/graph/Word.java:244-254 | tightenCycl: tighten, then strip cancelling end letters; never empties a word. |
| Words.InverseOfEncoded | pbj/math/graph/Word.java:49-51 | Comparing chars with inverse() is comparing letters with Inv. |
| Words.ReverseWord | pbj/math/graph/Word.java:261-269 | reverseWord: append the inverses of the letters from last to first. |
| Words.ReverseChar | pbj/math/graph/Word.java:277-284 | reverseChar: flip each letter of edge e in place. |
| Words.RemoveEdge | pbj/math/graph/Word.java:292-301 | removeEdge: delete each letter of edge e, staying in place after a deletion. |
| Words.SplitChar | pbj/math/graph/Word.java:310-321 | splitChar: insert the new edge n after e (before a backward e) and skip it. |
| Words.ReplaceChar | pbj/math/graph/Word.java:331-346 | replaceChar: substitute s for c and its inverse for c's inverse, then tighten. |
| Words.PathToString | pbj/math/graph/Word.java:150-158 | pathToString: append the label of each letter. |
| Words.StringToPath | pbj/math/graph/Word.java:180-193 | stringToPath: cut the text at each character above '9' and read the labels. |
| Words.IsCyclicallyConjugate | pbj/math/graph/Word.java:434-455 | isCyclicallyConjugate: compare the cyclic reductions at every rotation. |
| Paths.TightenReduced | pbj/math/graph/Word.java:227-237 | Tightening gives a reduced word. |
| Paths.ReduceOfReduced | pbj/math/graph/Word.java:227-237 | Reducing an already reduced word changes nothing. |
| Paths.TightenOfReduced | pbj/math/graph/Word.java:227-237 | A reduced word is its own tightening (tightenWord is idempotent). |
| Paths.ReduceLength | pbj/math/graph/Word.java:227-237 | Each cancellation removes two letters: length never grows and keeps its parity. |
| Paths.ReduceAppend | pbj/math/graph/Word.java:227-237 | Reduction consumes its input left to right. |
| Paths.TightenPrefix | pbj/math/graph/Word.java:227-237 | Tightening a prefix first does not change the tightened word. |
| Paths.PushCancel | pbj/math/graph/Word.java:227-237 | On a reduced stack a letter followed by its inverse cancels out. |
| Paths.ReduceSnoc | pbj/math/graph/Word.java:227-237 | Reducing one more letter is one more push. |
| Paths.ReduceTighten | pbj/math/graph/Word.java:227-237 | Reducing the freely reduced form of y onto a reduced stack is reducing y itself. |
| Paths.ReducePush | pbj/math/graph/Word.java:227-237 | Reducing a word that has taken one more push is pushing after the reduction. |
| Paths.TightenSuffix | pbj/math/graph/Word.java:227-237 | Tightening a suffix first does not change the tightened word. |
| Paths.ReduceInverseCancels | pbj/math/graph/Word.java:227-237 | A word followed by its inverse cancels completely from a reduced stack. |
| Paths.ReducedPrefix | pbj/math/graph/Word.java:227-237 | Every prefix of a reduced word is reduced. |
| Paths.PushReverse | pbj/math/graph/Word.java:227-237 | Pushing a letter onto a reduced word, seen from the other end. |
| Paths.TightenReverse | pbj/math/graph/Word.java:227-237 | Tightening commutes with inversion. |
| Paths.ReduceLetters | pbj/math/graph/Word.java:227-237 | Tightening only deletes letters. |
| Paths.Reverse | pbj/math/graph/Word.java:261-269 | reverseWord: the path run backwards. |
| Paths.ReverseReverse | pbj/math/graph/Word.java:261-269 | Running a path backwards twice gives the path. |
| Paths.ReverseReduced | pbj/math/graph/Word.java:261-269 | The inverse of a reduced word is reduced. |
| Paths.CyclicCoreShape | pbj/math/graph/Word.java:244-254 | A reduced word is u + core + inverse(u) with a cyclically reduced core of the same parity, which is empty only when the word is. |
| Paths.StripEnds | pbj/math/graph/Word.java:244-254 | Stripping a cancelling pair of end letters leaves a non-empty reduced word. |
| Paths.TightenCyclShape | pbj/math/graph/Word.java:244-254 | tightenCycl gives a cyclically reduced word of the parity of the input. |
| Paths.TightenCyclOfCyclicallyReduced | pbj/math/graph/Word.java:244-254 | A cyclically reduced word is left alone by tightenCycl. |
| Paths.ReverseChar | pbj/math/graph/Word.java:277-284 | reverseChar: every occurrence of edge e runs the other way. |
| Paths.ReverseCharReduced | pbj/math/graph/Word.java:277-284 | Reversing an edge keeps a reduced word reduced. |
| Paths.RemoveAbsentEdge | pbj/math/graph/Word.java:292-301 | Removing an edge that does not occur changes nothing. |
| Paths.SplitCharReverse | pbj/math/graph/Word.java:310-321 | Splitting commutes with running the path backwards. |
| Paths.SplitThenRemove | pbj/math/graph/Word.java:310-321 | Deleting the new edge n undoes the split of e (when n is new and differs from e). |
| Paths.Rename | pbj/math/graph/GraphMap.java:1095-1132 | String.replace(from, to) on a path: one letter exchanged for another everywhere. |
| Paths.SubstituteIdentity | pbj/math/graph/Word.java:331-346 | Replacing c by itself only tightens. |
| Paths.ConjugateReflexiveSymmetric | pbj/math/graph/Word.java:434-455 | Conjugacy of cyclic words is reflexive and symmetric. |
| Paths.RotationConjugate | pbj/math/graph/Word.java:434-455 | Rotating a cyclically reduced word gives a conjugate word. |
| Graphs.Init | pbj/math/graph/GraphMap.java:53-74 | init(n): an empty map with room for n edges; more than MAXINDEX is refused. |
| Graphs.Padded | pbj/math/graph/GraphMap.java:497-531 | Buffer s cut to its first k slots and padded with blank to length n. |
| Graphs.GrowKeeps | pbj/math/graph/GraphMap.java:497-531 | Growing keeps the map and strictly enlarges a non-empty buffer. |
| Graphs.AddEdgeShape | pbj/math/graph/GraphMap.java:539-549 | addEdge appends exactly one edge and keeps the well-formedness of a map. |
| Graphs.AddEdgeKeeps | pbj/math/graph/GraphMap.java:539-549 | The new edge goes last, the edges before it are kept, and the vertices cover its ends. |
| Graphs.AddEdgeWellFormed | pbj/math/graph/GraphMap.java:539-549 | An edge between existing vertices whose image uses existing edges keeps a map well-formed. |
| Graphs.Mapd | pbj/math/graph/GraphMap.java:1265-1280 | mapd, the derivative map: the first letter of the image of a forward letter, the inverse of the last letter for a backward one; letters of unused edges are fixed, and an empty image has no derivative. |
| Graphs.EndOfGood | pbj/math/graph/GraphMap.java:418-430 | A non-empty path that runs from a to b is a good path from a to b. |
| Graphs.EndOfAppend | pbj/math/graph/GraphMap.java:418-430 | Running p then q from a: where p ends, q starts. |
| Graphs.EndOfPush | pbj/math/graph/GraphMap.java:418-430 | A letter and its inverse cancel: the walk is back where it was. |
| Graphs.TightenEndOf | pbj/math/graph/GraphMap.java:418-430 | Tightening a path from a to b leaves a path from a to b. |
| Graphs.ReverseEndOf | pbj/math/graph/GraphMap.java:418-430 | The reverse of a path from a to b runs from b to a. |
| Graphs.MapWord | pbj/math/graph/GraphMap.java:735-747 | mapWord: the tightened image of w; None where a letter lies outside the buffers. |
| Graphs.UnfoldReverse | pbj/math/graph/GraphMap.java:735-747 | The image of an inverse word is the inverse of the image (before tightening). |
| Graphs.TightenUnfoldSnoc | pbj/math/graph/GraphMap.java:735-747 | Tightened image of a word extended by one letter. |
| Graphs.UnfoldCancel | pbj/math/graph/GraphMap.java:735-747 | A letter mapped after its inverse cancels from the tightened image. |
| Graphs.UnfoldTightenStep | pbj/math/graph/GraphMap.java:735-747 | The inductive step of UnfoldTighten: one more letter. |
| Graphs.UnfoldPush | pbj/math/graph/GraphMap.java:735-747 | Mapping a word with one more letter pushed on: the letter's image reduced onto the tightened image. |
| Graphs.UnfoldTighten | pbj/math/graph/GraphMap.java:735-747 | The map acts on reduced words: tightening a word before mapping it does not change the tightened image (cancelling pairs map to cancelling words). |
| Graphs.UnfoldProduct | pbj/math/graph/GraphMap.java:735-747 | Mapping a product: the tightened image of a + b from the tightened images of a and b. |
| Graphs.SameMapReflexive | pbj/math/graph/GraphMap.java:700-709 | sameGraph and equals are reflexive (the fixed word is conjugate to itself). |
| Graphs.SameMapSymmetric | pbj/math/graph/GraphMap.java:700-709 | sameGraph and equals are symmetric. |
| Graphs.Compose | pbj/math/graph/GraphMap.java:753-764 | compose(g1): the images of g1 mapped through this map, on the same graph. |
| Graphs.ComposeWellFormed | pbj/math/graph/GraphMap.java:753-764 | Composing two maps of one well-formed graph gives a well-formed map of that graph. |
| Graphs.ComposeLetter | pbj/math/graph/GraphMap.java:753-764 | Under the composed map a letter goes to the tightened image under g of its image under g1. |
| Graphs.ComposeUnfold | pbj/math/graph/GraphMap.java:753-764 | Unfolding a word through the composed map is unfolding its unfolding through g1 through g, up to tightening. |
| Graphs.ComposeMapWord | pbj/math/graph/GraphMap.java:753-764 | compose is the composition of the two maps: the image of a word of edges in use under the composed map is its image under g1 mapped through g. |
| Graphs.UnfoldLetters | pbj/math/graph/GraphMap.java:735-747 | The image of a word of edges in use consists of edges in use. |
| Graphs.FirstBadPath | pbj/math/graph/GraphMap.java:455-494 | The position of the first path of ps that is not a good path, if any. |
| Graphs.IsGoodMapMeans | pbj/math/graph/GraphMap.java:455-494 | isGoodMap passes exactly on continuous maps with a preserved fixed word. |
| Graphs.ApplyFirst | pbj/math/graph/GraphMap.java:1466-1482 | The first k paths of ps rewritten, the rest kept. |
| Graphs.RewriteAll | pbj/math/graph/GraphMap.java:1466-1482 | The rewrite applied to the images of the edges in use, the fixed word and (when marked) the marking. |
| Graphs.ApplyLetters | pbj/math/graph/GraphMap.java:1466-1482 | Each rewrite keeps letters within the bound it promises. |
| Graphs.RewriteAllLetters | pbj/math/graph/GraphMap.java:1466-1482 | A rewrite within bound b takes a map whose letters are below a to letters below b. |
| Graphs.RelabelFirst | pbj/math/graph/GraphMap.java:901-918 | The first k vertex numbers of s relabelled, the rest kept. |
| Graphs.RelabelAll | pbj/math/graph/GraphMap.java:901-918 | Both endpoints of every edge in use relabelled. |
| Graphs.AdjustVertices | pbj/math/graph/GraphMap.java:901-918 | adjustVertices(v1, v2): the larger of two distinct vertices is merged into the smaller one and the vertices above it move down by one. |
| Graphs.AdjustVerticesEndpoints | pbj/math/graph/GraphMap.java:901-918 | Merging two distinct vertices keeps every endpoint a vertex. |
| Graphs.IdentifyVertices | pbj/math/graph/GraphMap.java:1139-1171 | identifyVertices: two vertices become one and the last vertex takes the freed number. |
| Graphs.MergeIsQuotient | pbj/math/graph/GraphMap.java:1139-1171 | Both relabellings are quotient maps of the n vertices onto n - 1 vertices that merge v1 with v2 and nothing else. |
| Graphs.IdentifyVerticesEndpoints | pbj/math/graph/GraphMap.java:1139-1171 | Identifying two vertices keeps endpoints in range and loses one vertex. |
| Graphs.SwapVertices | pbj/math/graph/GraphMap.java:1305-1325 | swapVertices as written: the two vertex numbers exchanged, refused only above the vertex count (so the number `vertices` itself is accepted). |
| Graphs.SwapVerticesChecked | pbj/math/graph/GraphMap.java:1305-1325 | swapVertices with the range check of identifyVertices. |
| Graphs.SwapVerticesAcceptsMissingVertex | pbj/math/graph/GraphMap.java:1305-1325 | As written, swapVertices(0, 1) on a one-vertex map succeeds and moves an edge to the nonexistent vertex 1. |
| Graphs.SwapVerticesCheckedSpec | pbj/math/graph/GraphMap.java:1305-1325 | The checked swap keeps a map well-formed and exchanges the two vertex numbers. |
| Graphs.SwapVerticesTwice | pbj/math/graph/GraphMap.java:1305-1325 | Swapping twice restores the map. |
| Graphs.Reversed | pbj/math/graph/GraphMap.java:873-899 | reverseEdge on an edge in use: its image and endpoints turned round, every occurrence flipped. |
| Graphs.ReverseEdge | pbj/math/graph/GraphMap.java:873-899 | reverseEdge: refused for an edge not in use. |
| Graphs.ReverseEdgeTwice | pbj/math/graph/GraphMap.java:873-899 | Reversing an edge twice restores the map. |
| Graphs.ReverseCharReverse | pbj/math/graph/GraphMap.java:873-899 | Flipping an edge commutes with running a path backwards. |
| Graphs.ReversedWellFormed | pbj/math/graph/GraphMap.java:873-899 | Reversing an edge keeps a map well-formed. |
| Graphs.Cut | pbj/math/graph/GraphMap.java:772-803 | The graph part of splitEdge: the new vertex, the new last edge, and the two halves of the image. |
| Graphs.CutWellFormed | pbj/math/graph/GraphMap.java:772-803 | Cutting an edge of a well-formed map leaves letters below the old edge count and endpoints in range. |
| Graphs.SplitEdgeSpec | pbj/math/graph/GraphMap.java:772-803 | splitEdge fails exactly on a bad argument or a full map at MAXINDEX; otherwise there is one more edge and one more vertex, the new edge n runs from the new vertex to the old end of ed, ed ends at the new vertex, and the image of the path ed n is the old image of ed with ed split. |
| Graphs.SplitEdgeAt | pbj/math/graph/GraphMap.java:772-803 | An edge other than the split one keeps its endpoints and has ed split in its image. |
| Graphs.SplitEdgeMarks | pbj/math/graph/GraphMap.java:772-803 | splitEdge replaces ed by ed followed by the new edge in every marked loop too. |
| Graphs.SplitEdgeGrows | pbj/math/graph/GraphMap.java:772-803 | A split adds one edge to a map that stays valid. |
| Graphs.RoomyKeeps | pbj/math/graph/GraphMap.java:772-803 | Making room for one more edge keeps every edge in use and everything else. |
| Graphs.RoomyWellFormed | pbj/math/graph/GraphMap.java:772-803 | Making room keeps a map well-formed. |
| Graphs.SplitEdgeWellFormed | pbj/math/graph/GraphMap.java:772-803 | Splitting an edge keeps a map well-formed. |
| Graphs.RemoveEntry | pbj/math/graph/GraphMap.java:920-952 | removeEntry(ed): the last edge moves into slot ed; in every image, the fixed word and the marking the letters of ed are deleted and the last edge renamed ed. |
| Graphs.MoveLast | pbj/math/graph/GraphMap.java:920-952 | The last edge in use copied into slot ed, and the edge count lowered. |
| Graphs.RemoveEntryWellFormed | pbj/math/graph/GraphMap.java:920-952 | Removing an entry keeps endpoints in range and letters among the remaining edges. |
| Graphs.RemoveEntryImage | pbj/math/graph/GraphMap.java:920-952 | The image of one edge in use after removeEntry(ed): the one of its slot, or of the last edge for slot ed, rewritten. |
| Graphs.RemoveEntryWords | pbj/math/graph/GraphMap.java:920-952 | The fixed word and the marked loops after removeEntry(ed), rewritten. |
| Graphs.RemoveEdge | pbj/math/graph/GraphMap.java:958-981 | removeEdge(ed): the edge is deleted; its endpoints are merged first when one of them has fewer than three edges. |
| Graphs.Collapsed | pbj/math/graph/GraphMap.java:988-1002 | collapseEdge on an edge in use: its endpoints merged, then the entry removed. |
| Graphs.CollapseEdge | pbj/math/graph/GraphMap.java:988-1002 | collapseEdge: refused for an edge not in use. |
| Graphs.CollapseEdgeSpec | pbj/math/graph/GraphMap.java:988-1002 | Collapsing removes exactly one edge, loses a vertex exactly when the endpoints differ, keeps a map well-formed, and puts the last edge (with its endpoints relabelled) into slot ed. |
| Graphs.CollapseEdgeRenames | pbj/math/graph/GraphMap.java:988-1002 | What collapseEdge does to the rest of the map: every edge in use, the last one now in slot ed, keeps its image with the letters of ed deleted and the last edge renamed ed, and its endpoints with the two ends of ed merged; the fixed word and every marked loop are rewritten the same way. |
| Graphs.CollapseDeletes | pbj/math/graph/GraphMap.java:988-1002 | A collapsed edge's letters disappear: an image without them only has the last edge renamed. |
| Graphs.RemoveShortens | pbj/math/graph/GraphMap.java:988-1002 | Every rewrite by removal only shortens a word. |
| Graphs.Tightened | pbj/math/graph/GraphMap.java:1178-1207 | tighten: images freely reduced, the fixed word and the marked loops cyclically reduced. |
| Graphs.TightenedReduced | pbj/math/graph/GraphMap.java:1178-1207 | After tighten every image is freely reduced and the fixed word and marked loops are cyclically reduced. |
| Graphs.TightenFlagMeans | pbj/math/graph/GraphMap.java:1178-1207 | tighten reports a change exactly when some image of an edge in use was not freely reduced. |
| Graphs.TightenedIdempotent | pbj/math/graph/GraphMap.java:1178-1207 | Tightening twice is tightening once, and the second time reports no change. |
| Graphs.TightenedWellFormed | pbj/math/graph/GraphMap.java:1178-1207 | Tightening keeps a map well-formed. |
| Graphs.ElementaryFold | pbj/math/graph/GraphMap.java:1095-1132 | elementaryFold(e1, e2): two edges with one start and one image become one; e2 is renamed e1 everywhere, the two ends are identified, and e2 is removed. |
| Graphs.ElementaryFoldSpec | pbj/math/graph/GraphMap.java:1095-1132 | A fold of two distinct edges keeps the map well-formed, removes one edge, and loses a vertex exactly when the two ends differ. |
| Graphs.ElementaryFoldRenames | pbj/math/graph/GraphMap.java:1095-1132 | What a fold of two distinct edges does to the words of the map: every edge in use, the last one now in slot e2, has its image with e2 renamed e1 and then the last edge renamed e2; the fixed word and every marked loop are renamed the same way. |
| Graphs.FoldWords | pbj/math/graph/GraphMap.java:1095-1132 | The fixed word and the marked loops after a fold that merges v1 and v2. |
| Graphs.FoldImageAt | pbj/math/graph/GraphMap.java:1095-1132 | The image of one edge after a fold that merges v1 and v2. |
| Graphs.ElementaryFoldEnds | pbj/math/graph/GraphMap.java:1095-1132 | What a fold of two distinct edges does to the endpoints: every edge in use, the last one now in slot e2, keeps its ends with the ends of the folded edges merged. |
| Graphs.FoldRemoved | pbj/math/graph/GraphMap.java:1095-1132 | A fold's renaming followed by the removal of e2 is two renamings. |
| Graphs.FoldLeavesNoLetter | pbj/math/graph/GraphMap.java:1095-1132 | After the renaming of a fold no letter of e2 is left, so removing e2 only renames the last edge. |
| Graphs.ReversedIf | pbj/math/graph/GraphMap.java:1057-1087 | Reverse edge e when the condition holds. |
| Graphs.Oriented | pbj/math/graph/GraphMap.java:1057-1087 | The orientations joinEdges tries before giving up: e1 ending where e2 starts. |
| Graphs.OrientedWellFormed | pbj/math/graph/GraphMap.java:1057-1087 | Turning edges keeps a map well-formed. |
| Graphs.JoinEdges | pbj/math/graph/GraphMap.java:1057-1087 | joinEdges(e1, e2), a valence-two homotopy: e1 and e2 are turned so that e1 ends where e2 starts, e1 takes the image of the path e1 e2, and e2 is collapsed. A failure after the turning leaves the turned map behind. |
| Graphs.JoinEdgesWellFormed | pbj/math/graph/GraphMap.java:1057-1087 | A successful join of two distinct edges keeps a map well-formed and removes one edge. |
| Graphs.ContractEdge | pbj/math/graph/GraphMap.java:1009-1037 | contractEdge(ed): an edge with distinct ends shrinks to a point; every edge at its end takes the image of ed before (or its inverse after), ed gets the empty image and is collapsed, and the map is tightened. |
| Graphs.Attach | pbj/math/graph/GraphMap.java:1009-1037 | All images after the attaching step of contractEdge. |
| Graphs.ContractEdgeSpec | pbj/math/graph/GraphMap.java:1009-1037 | Contracting an edge with distinct ends keeps a map well-formed and loses one edge and one vertex. |
| Graphs.SizeZero | pbj/math/graph/GraphMap.java:1733-1740 | A map has size zero exactly when every image is empty. |
| Graphs.SumLengthsMono | pbj/math/graph/GraphMap.java:1733-1740 | Paths that are no longer, one by one, have no larger total. |
| Graphs.SumLengthsUpdate | pbj/math/graph/GraphMap.java:1733-1740 | Replacing one path changes the total by the difference of lengths. |
| Graphs.RemoveEntrySize | pbj/math/graph/GraphMap.java:920-952 | Removing an entry takes the length of its image off the size, and the rewriting removes no more than that. |
| Graphs.CollapsedSize | pbj/math/graph/GraphMap.java:1733-1740 | Collapsing an edge with an empty image does not make the map larger. |
| Graphs.Darts | pbj/math/graph/GraphMap.java:1210-1257 | The darts (oriented ends of edges) at v among the first k edges, in the order tightenVertex visits them: the start of an edge as the forward letter, its end as the backward letter. |
| Graphs.DartsComplete | pbj/math/graph/GraphMap.java:1210-1257 | Every end of an edge at v is a dart at v. |
| Graphs.ConstantOnPrefix | pbj/math/graph/GraphMap.java:1210-1257 | A failure on some darts is a failure on every longer list of darts. |
| Graphs.DartsPrefix | pbj/math/graph/GraphMap.java:1210-1257 | The darts found among the first j edges come first among the darts of the first k. |
| Graphs.ConstantChopOK | pbj/math/graph/GraphMap.java:1210-1257 | A constant derivative at v leaves room to chop: a loop at v has an image of two letters or more. |
| Graphs.Chopped | pbj/math/graph/GraphMap.java:1210-1257 | The chopping step at v: every image loses its letters at its ends at v. |
| Graphs.SumLengthsLoss | pbj/math/graph/GraphMap.java:1210-1257 | Images that lose Ends letters each lose \|Darts\| letters in all. |
| Graphs.ChoppedSize | pbj/math/graph/GraphMap.java:1210-1257 | Chopping at v removes exactly one letter per dart at v. |
| Graphs.VertexPass | pbj/math/graph/GraphMap.java:1210-1257 | The vertex pass of tightenVertex over the vertices from v on, each seeing the images chopped at the vertices before it, and whether it chopped anywhere. With strict, a vertex without darts is passed over (the corrected behaviour); without, it counts as a chop, as the source does. |
| Graphs.CollapseEmpty | pbj/math/graph/GraphMap.java:1210-1257 | The closing loop of tightenVertex: every edge from i on with an empty image is collapsed. |
| Graphs.TightenVertex | pbj/math/graph/GraphMap.java:1210-1257 | tightenVertex (strict = false) and its corrected form (strict = true): the new map and the flag. |
| Graphs.CollapseEmptySize | pbj/math/graph/GraphMap.java:1210-1257 | No collapse of an empty image makes the map larger. |
| Graphs.VertexPassSize | pbj/math/graph/GraphMap.java:1210-1257 | In the corrected pass every reported chop removes at least one letter. |
| Graphs.TightenVertexShrinks | pbj/math/graph/GraphMap.java:1210-1257 | The corrected tightenVertex never makes a map larger and makes it strictly smaller whenever it reports a change, so repeating it while it reports a change ends. |
| Graphs.TightenVertexIsolatedVertex | pbj/math/graph/GraphMap.java:1210-1257 | As written, tightenVertex reports a change at a vertex without edges while changing nothing, so tightenPlus, which repeats tightenVertex while it reports a change, never ends on such a map; the corrected form reports no change. |
| Graphs.IsolatedVertexReportsChange | pbj/math/graph/GraphMap.java:1210-1257 | As written, any map with a vertex without darts makes tightenVertex report a change. |
| Graphs.DartsSameEnds | pbj/math/graph/GraphMap.java:1210-1257 | Darts depend only on the endpoints. |
| Graphs.Identity | pbj/math/graph/GraphMap.java:1365-1370 | identity(): every edge in use mapped to itself. |
| Graphs.IdentityUnfold | pbj/math/graph/GraphMap.java:1365-1370 | Under the identity a word on the edges in use unfolds to itself. |
| Graphs.IdentityMapWord | pbj/math/graph/GraphMap.java:1365-1370 | The identity maps every word on the edges in use to its tightened form. |
| Graphs.Rose | pbj/math/graph/GraphMap.java:1350-1360 | k petal edges, each from v to v and mapped to itself, in buffers of capacity cap (blank slots after them), with fixed word fix; the vertex count is the one addEdge(v, v, ...) leaves behind. |
| Graphs.RoseAdd | pbj/math/graph/GraphMap.java:1350-1360 | init(cap) is the rose without petals, and addEdge(v, v, the new edge) adds one petal. |
| Graphs.RoseIdentity | pbj/math/graph/GraphMap.java:1350-1360 | The rose at vertex 0 is a well-formed map and the identity: a word maps to its tightened form. |
| Graphs.IdentityRose | pbj/math/graph/GraphMap.java:1350-1360 | identity(n): the rose with n petals at vertex 0 and no fixed word; init(2n) refuses more than MAXINDEX. |
| Graphs.SetFirst | pbj/math/graph/GraphMap.java:1372-1377 | setFirstVertex(c, v): the endpoint where c starts becomes v. |
| Graphs.SetFirstOnly | pbj/math/graph/GraphMap.java:1372-1377 | setFirstVertex(c, v) changes where c starts and nothing else: every other letter keeps its first vertex. |
| Graphs.Unset | pbj/math/graph/GraphMap.java:1384-1417 | The number of the first k letters of w whose first vertex is still unassigned (negative). |
| Graphs.UnsetDrops | pbj/math/graph/GraphMap.java:1384-1417 | Assigning a vertex to an unassigned letter w[i] lowers the count of every prefix containing i. |
| Graphs.UnsetCounts | pbj/math/graph/GraphMap.java:1384-1417 | An unassigned letter among the first k is counted. |
| Tietze.ScanFrom | pbj/math/graph/GraphMap.java:1489-1517 | The scan of relation i from letter j on: a letter whose edge occurs once in the relation is a hit, its replacement is made in the map and in all relations, and its edge joins the ones to remove; the scan goes on in the rewritten relation. |
| Tietze.ScanAll | pbj/math/graph/GraphMap.java:1489-1517 | The relations from i on, each scanned in turn. |
| Tietze.RemoveAll | pbj/math/graph/GraphMap.java:1489-1517 | The edges of gone from k on removed one after the other, by their numbers at that time. |
| Tietze.Trafos | pbj/math/graph/GraphMap.java:1489-1517 | tietzeTrafos(rel): every relation scanned, then the edges of the hits removed. |
| Tietze.EdgeCountOnce | pbj/math/graph/GraphMap.java:1489-1517 | Counting up to k finds every occurrence of e below k. |
| Tietze.HitVanishes | pbj/math/graph/GraphMap.java:1489-1517 | A hit empties its own relation: with w = a x b and the edge of x nowhere in a or b, the inverse of x becomes b a, so x becomes A B, and a A B b tightens to nothing. |
| Tietze.HitEliminates | pbj/math/graph/GraphMap.java:1489-1517 | After a hit in relation w at letter j, the edge of the letter occurs neither in the images of the edges in use, nor in the fixed word, the marked loops or any relation: it is a generator the map no longer needs. |
| Nielsen.CompareTo | pbj/math/graph/GraphMap.java:1748-1795 | String.compareTo on the chars of two words: the difference of the first chars that differ, or else the difference of the lengths. |
| Nielsen.CompareAntisymmetric | pbj/math/graph/GraphMap.java:1748-1795 | Exchanging the words negates the comparison. |
| Nielsen.CompareTransitive | pbj/math/graph/GraphMap.java:1748-1795 | The comparison is transitive. |
| Nielsen.LeftHalf | pbj/math/graph/GraphMap.java:1748-1795 | leftHalf: the first half of a word, with the middle letter when the length is odd. |
| Nielsen.MinMax | pbj/math/graph/GraphMap.java:1748-1795 | The smaller and the larger of the left halves of a word and of its inverse. |
| Nielsen.LessThan | pbj/math/graph/GraphMap.java:1748-1795 | lessThan: shorter words come first; among words of one length, the smaller left half (of the word or its inverse) decides, then the larger one. |
| Nielsen.MinMaxInverse | pbj/math/graph/GraphMap.java:1748-1795 | A word and its inverse have the same pair of halves. |
| Nielsen.LessThanInverse | pbj/math/graph/GraphMap.java:1748-1795 | The order does not tell a word from its inverse. |
| Nielsen.LessThanAsymmetric | pbj/math/graph/GraphMap.java:1748-1795 | The order is strict: never both ways, so never reflexive. |
| Nielsen.LessThanTransitive | pbj/math/graph/GraphMap.java:1748-1795 | The order is transitive. |
| Nielsen.LessThanTies | pbj/math/graph/GraphMap.java:1748-1795 | Two words are tied exactly when they have one length and one pair of halves. |
| Nielsen.Combine | pbj/math/graph/GraphMap.java:1801-1908 | The tightened word a move makes of x and y. |
| Nielsen.MapReverse | pbj/math/graph/GraphMap.java:1801-1908 | The tightened image of an inverse word. |
| Nielsen.CombineMaps | pbj/math/graph/GraphMap.java:1801-1908 | A move commutes with the map: combining the tightened images of u and v gives the tightened image of the combination of u and v. This is what keeps the images of the rose and the images of its candidate inverse in step. |
| Nielsen.CombineTightened | pbj/math/graph/GraphMap.java:1801-1908 | A move sees only the tightened forms of its words. |
| Nielsen.NumCompare | pbj/math/graph/GraphMap.java:1748-1795 | Among words of one length, compareTo and the numbers agree. |
| Nielsen.CompareAppend | pbj/math/graph/GraphMap.java:1748-1795 | Comparing two words after equally long first parts. |
| Nielsen.RankBand | pbj/math/graph/GraphMap.java:1748-1795 | The ranks of the words of one length fill the band from Base(\|a\|) up to Base(\|a\| + 1). |
| Nielsen.BaseStep | pbj/math/graph/GraphMap.java:1748-1795 | The band of length n + 1 starts Pow(2 ((n + 1) / 2)) above the band of length n. |
| Nielsen.HalvesBound | pbj/math/graph/GraphMap.java:1748-1795 | The number of the two halves is below K to the power of their length. |
| Nielsen.MinMaxLength | pbj/math/graph/GraphMap.java:1748-1795 | Both halves compared by lessThan have the length of the left half of the word. |
| Nielsen.LessThanRank | pbj/math/graph/GraphMap.java:1748-1795 | lessThan strictly lowers the rank, so it admits no infinite descent. |
| Nielsen.CancelPair | pbj/math/graph/GraphMap.java:1801-1908 | A letter followed by its inverse tightens away. |
| Nielsen.StuckLetters | pbj/math/graph/GraphMap.java:1801-1908 | Two one-letter words no move can shorten lie on different edges. |
| Nielsen.CombineLetters | pbj/math/graph/GraphMap.java:1801-1908 | A move keeps words on the first n edges on the first n edges. |
| Nielsen.SumUpdate | pbj/math/graph/GraphMap.java:1801-1908 | Lowering one of the first n numbers lowers their sum. |
| Nielsen.Ranks | pbj/math/graph/GraphMap.java:1801-1908 | The rank of each word. |
| Nielsen.RankSumUpdate | pbj/math/graph/GraphMap.java:1801-1908 | Replacing one of the first n words by a word of lower rank lowers the sum of their ranks. |
| Nielsen.MoveDecreases | pbj/math/graph/GraphMap.java:1801-1908 | A move that makes image i smaller keeps the maps related and lowers the sum of the ranks. |
| Nielsen.MoveRelated | pbj/math/graph/GraphMap.java:1801-1908 | A move made on both the images and the candidate inverse keeps them related. |
| Nielsen.SwapRelated | pbj/math/graph/GraphMap.java:1801-1908 | Exchanging two entries of both keeps them related. |
| Nielsen.ReverseRelated | pbj/math/graph/GraphMap.java:1801-1908 | Inverting an entry of both keeps them related. |
| Nielsen.StartRelated | pbj/math/graph/GraphMap.java:1801-1908 | At the start the images are related to the identity on the rose. |
| Nielsen.NoMovesDistinct | pbj/math/graph/GraphMap.java:1801-1908 | When no move applies, images of single letters lie on distinct edges. |
| Nielsen.FinishRelated | pbj/math/graph/GraphMap.java:1801-1908 | Images that are the edges themselves make the candidate an inverse of phi. |
| Nielsen.SwapPlaced | pbj/math/graph/GraphMap.java:1801-1908 | Exchanging entry i with the later entry j on edge i places one more. |
| Nielsen.LastPlaced | pbj/math/graph/GraphMap.java:1801-1908 | When the first n - 1 of n distinct letters on the first n edges are placed, all are. |
| Boundary.Next | pbj/math/graph/Word.java:352-367 | The next position of a cyclic word of length n (j + 1 mod n). |
| Boundary.IsBoundaryScan | pbj/math/graph/Word.java:352-367 | isBoundary: for each letter, scan cyclically for its inverse; fail on returning to it. |
| Boundary.NotFound | pbj/math/graph/Word.java:352-367 | A scan that came back to i saw every other position. |
| Boundary.Gap | pbj/math/graph/Word.java:374-394 | How many steps it takes from i forward to p in a cyclic word of length n. |
| Boundary.SeekFrom | pbj/math/graph/Word.java:374-394 | The first position holding x, scanning cyclically from i; i when x does not occur. |
| Boundary.SeekFinds | pbj/math/graph/Word.java:374-394 | The scan finds x when x occurs, and nothing earlier holds x. |
| Boundary.DualStep | pbj/math/graph/Word.java:374-394 | One step of the walk of dualize and relations. |
| Boundary.Orbit | pbj/math/graph/Word.java:374-394 | The position reached after k steps from 0. |
| Boundary.DualLetters | pbj/math/graph/Word.java:374-394 | The letters at the first k positions of the walk: the dual word built so far. |
| Boundary.Seek | pbj/math/graph/Word.java:374-394 | The inner scan of dualize: from i (holding x's inverse) on to the next x. |
| Boundary.Dualize | pbj/math/graph/Word.java:374-394 | dualize as the source writes it. The source's do-while has no bound; after \|w\| rounds without returning to 0 the walk never returns, and the model stops with the error the source eventually runs into. |
| Boundary.Walk | pbj/math/graph/Word.java:374-394 | The do-while loop of dualize, stopped after \|w\| rounds. |
| Boundary.Pigeonhole | pbj/math/graph/Word.java:374-394 | n + 1 or more values below n repeat. |
| Boundary.OrbitShift | pbj/math/graph/Word.java:374-394 | Two equal positions of the walk stay equal afterwards. |
| Boundary.OrbitRepeats | pbj/math/graph/Word.java:374-394 | Two of the first \|w\| + 1 positions of the walk coincide. |
| Boundary.OrbitPeriodic | pbj/math/graph/Word.java:374-394 | After a repetition at a < b, every later position recurs within (a, b]. |
| Boundary.WalkNeverReturns | pbj/math/graph/Word.java:374-394 | A walk that has not returned to 0 within \|w\| steps never returns. |
| Boundary.DualStepInjective | pbj/math/graph/Word.java:374-394 | On a strict boundary word a step of the walk is one-to-one. |
| Boundary.OrbitBack | pbj/math/graph/Word.java:374-394 | When steps are one-to-one, equal later positions have equal earlier ones. |
| Boundary.StrictBoundaryReturns | pbj/math/graph/Word.java:374-394 | The walk on a non-empty strict boundary word comes back to its start. |
| Boundary.DualizeChecked | pbj/math/graph/Word.java:374-394 | dualize with the boundary check the surface code relies on: it rejects exactly the words that are not strict boundary words (and the empty word), and on every other word the walk closes up, so it returns the dual word. |
| Boundary.IsStrictBoundaryScan | pbj/math/graph/Word.java:374-394 | The strict check: isBoundary, then no letter twice. |
| Boundary.DistinctScan | pbj/math/graph/Word.java:374-394 | Compare every pair of positions. |
| Boundary.LooseWordNeverCloses | pbj/math/graph/Word.java:374-394 | isBoundary accepts LooseWord, yet the walk of dualize goes 0, 5, 2, 5, 2, ... and never comes back to 0: the source's loop never ends. |
| Boundary.ReducedBoundary | pbj/math/graph/Word.java:374-394 | A cyclically reduced word of even length in which every inverse occurs is a boundary word. |
| Boundary.TwoCycle | pbj/math/graph/Word.java:374-394 | A walk that steps p to q and q back to p alternates between them from step 1 on. |
| Boundary.VisitPicked | pbj/math/graph/Word.java:401-428 | Visiting a new position adds its letter... |
| Boundary.VisitUnvisited | pbj/math/graph/Word.java:401-428 | ...and leaves one unvisited position fewer. |
| Boundary.TraceFrom | pbj/math/graph/Word.java:401-428 | The walk of relations as a function: from position i, each unvisited position is visited and its letter taken, and the walk moves on by DualStep; it stops at the first visited position. The result is the relation and the new visited marks. |
| Boundary.RelationsFrom | pbj/math/graph/Word.java:401-428 | The relations started at the unvisited positions from j on, in order, and the final marks. |
| Boundary.TraceKeeps | pbj/math/graph/Word.java:401-428 | A walk marks its starting position and keeps every earlier mark. |
| Boundary.TraceTakes | pbj/math/graph/Word.java:401-428 | A walk from an unvisited position is non-empty and adds to the marks exactly its letters. |
| Boundary.RelationsKeep | pbj/math/graph/Word.java:401-428 | The walks from j on visit every position from j on and keep every earlier mark. |
| Boundary.RelationsTake | pbj/math/graph/Word.java:401-428 | The relations from j on are non-empty and add to the marks exactly their letters. |
| Boundary.RelationsCover | pbj/math/graph/Word.java:401-428 | relations uses every position of the boundary word exactly once: the relations are non-empty and together hold the letters of bd, each as often as bd does. |
| Boundary.RelationsAtMost | pbj/math/graph/Word.java:401-428 | At most one relation starts at each position from j on. |
| Boundary.RelationsCount | pbj/math/graph/Word.java:401-428 | relations finds at most one relation per letter of the boundary word and, for a non-empty word, at least one: the first is the walk from position 0, which starts with the first letter of bd and goes on at DualStep(bd, 0). |
| Boundary.Relations | pbj/math/graph/Word.java:401-428 | relations: each walk of the boundary word from an unvisited position until it meets a visited one is a relation. The source needs every inverse to occur (its inner scan runs forever otherwise). |
| Boundary.RelationAt | pbj/math/graph/Word.java:401-428 | One round of the outer loop of relations: start a relation at j unless j was visited. |
| Boundary.RelationsOn | pbj/math/graph/Word.java:401-428 | One step of RelationsFrom: position j starts a relation unless it was visited. |
| Boundary.Trace | pbj/math/graph/Word.java:401-428 | One relation: walk from the unvisited position j until a visited position is met. |
| Boundary.TraceOn | pbj/math/graph/Word.java:401-428 | One step of TraceFrom: the letter at i joins the relation, and the walk goes on. |
| Trees.Cleared | pbj/math/graph/GraphMap.java:1526-1582 | The first n flags cleared, the rest kept. |
| Trees.Marks | pbj/math/graph/GraphMap.java:1526-1582 | Flagging the letters of tr one after the other: the final flags and how many flags went from unset to set on the way. |
| Trees.MarksCount | pbj/math/graph/GraphMap.java:1526-1582 | Marking sets exactly the named flags, and counts the named edges not flagged before. |
| Trees.NewCount | pbj/math/graph/GraphMap.java:1526-1582 | Naming k once more adds one new edge exactly when k was not flagged. |
| Trees.TreeCount | pbj/math/graph/GraphMap.java:1526-1582 | When every named edge is in use (below n), the count after clearing the first n flags is the number of distinct edges tr names, and the flags below n mark exactly them. |
| Trees.TightenLettersIn | pbj/math/graph/GraphMap.java:1526-1582 | Tightening and reversing keep a path inside the flagged edges. |
| Tokens.WordAt | pbj/io/EnhancedTokenizer.java:44-61 | Where nextString stops looking: the first word or dummy at or after pos, or the end. |
| Tokens.NumberAt | pbj/io/EnhancedTokenizer.java:63-78 | Where nextInt stops looking: the first number at or after pos, or the end. |
| Tokens.NextWord | pbj/io/EnhancedTokenizer.java:44-61 | nextString from pos: the next word ("" for the dummy) and the position after it; None at the end. |
| Tokens.NextNumber | pbj/io/EnhancedTokenizer.java:63-78 | nextInt from pos: the next number and the position after it; -1 at the end. |
| Tokens.WordAtSkips | pbj/io/EnhancedTokenizer.java:44-61 | nextString passes over tokens that are neither words nor the dummy. |
| Tokens.NumberAtSkips | pbj/io/EnhancedTokenizer.java:63-78 | nextInt passes over tokens that are not numbers. |
| Tokens.WordAtEnd | pbj/io/EnhancedTokenizer.java:44-61 | Past the last word nextString finds nothing. |
| Tokens.Tokenizer.constructor | pbj/io/EnhancedTokenizer.java:17-25 | A tokenizer at the start of the text. |
| Tokens.Tokenizer.NextString | pbj/io/EnhancedTokenizer.java:44-61 | nextString: skip everything but words and the dummy; null (None) at the end. |
| Tokens.Tokenizer.NextInt | pbj/io/EnhancedTokenizer.java:63-78 | nextInt: skip everything but numbers; -1 at the end. |
| Reading.LabelToVertex | pbj/math/graph/Word.java:218-220 | labelToVertex: Integer.parseInt of the text after the first character. |
| Reading.ReadPath | pbj/math/graph/Word.java:180-193 | stringToPath, with its exception as an error. |
| Reading.Expect | pbj/math/graph/GraphMap.java:80-167 | nextString where the input may not end: the word and the position after it. |
| Reading.ReadEdge | pbj/math/graph/GraphMap.java:80-167 | The four words of edge i: its label (which must be the label of i), its start and its end (which must be vertices) and its image. |
| Reading.ReadEdgeRest | pbj/math/graph/GraphMap.java:80-167 | The start, the end and the image of an edge, after its label. |
| Reading.ReadEdges | pbj/math/graph/GraphMap.java:80-167 | Edges i, ..., n - 1 after the edges acc, and the position after them. |
| Reading.ReadMarks | pbj/math/graph/GraphMap.java:80-167 | Marked loops i, ..., n - 1: a label and a loop each. |
| Reading.ReadSection | pbj/math/graph/GraphMap.java:80-167 | One section, started by the word s: a label, a marking, or a word that is skipped. |
| Reading.ReadSections | pbj/math/graph/GraphMap.java:80-167 | The sections from the word s on, up to the end of the input. |
| Reading.ReadExtras | pbj/math/graph/GraphMap.java:80-167 | The sections from the word w (with the position after it) on; none when w is missing. |
| Reading.ReadGraph | pbj/math/graph/GraphMap.java:80-167 | The map readGraph reads from toks, or the message of the exception it throws. |
| Reading.ReadMap | pbj/math/graph/GraphMap.java:80-167 | readGraph before the strict check: the two counts, then the body, in init(4 edges). |
| Reading.ReadBody | pbj/math/graph/GraphMap.java:80-167 | What follows the two counts: the edges, the fixed word and the sections. |
| Reading.ReadFix | pbj/math/graph/GraphMap.java:80-167 | A first word after the edges that is no section tag is the fixed word; then the next word. |
| Reading.Built | pbj/math/graph/GraphMap.java:80-167 | The map init(4 ed) leaves after reading the edges es, the fixed word and the sections. |
| Reading.ExpectWord | pbj/math/graph/GraphMap.java:80-167 | nextString where the input may not end, on the tokenizer. |
| Reading.NextEdgeRest | pbj/math/graph/GraphMap.java:80-167 | The start, the end and the image of an edge after its label, as ReadEdgeRest reads them. |
| Reading.NextEdge | pbj/math/graph/GraphMap.java:80-167 | The four words of edge i, as ReadEdge reads them. |
| Reading.ReadEdgeLines | pbj/math/graph/GraphMap.java:80-167 | The loop over the edges of readGraph: edge i's start, end and image go to start[i], end[i] and im[i]; the slots from n on are left alone. |
| Reading.StoreEdge | pbj/math/graph/GraphMap.java:80-167 | Edge i read: its endpoints and image stored at i, nothing else written. |
| Reading.ReadMarkLoop | pbj/math/graph/GraphMap.java:80-167 | The loop over the marked loops: a label, then a loop, n times. |
| Reading.ReadSectionLoop | pbj/math/graph/GraphMap.java:80-167 | The sections loop of readGraph, from the word s (the position after it in st) on. |
| Reading.ReadBodyLoop | pbj/math/graph/GraphMap.java:80-167 | Everything readGraph reads after the two counts: the edges go to the buffers, the fixed word and the sections are returned. |
| Reading.BuiltFrom | pbj/math/graph/GraphMap.java:80-167 | Buffers holding the edges es and then blank slots, with the rest of a map, make up Built. |
| Reading.LineTokens | pbj/math/graph/GraphMap.java:80-167 | The tokens of a line "lab: (a, b) --> img". |
| Reading.EdgeLine | pbj/math/graph/GraphMap.java:80-167 | The tokens of toString's line for edge i, "a: (v0, v1) --> image". |
| Reading.Lines | pbj/math/graph/GraphMap.java:80-167 | The lines of edges i, ..., edges - 1. |
| Reading.MarkLines | pbj/math/graph/GraphMap.java:80-167 | The lines "label: loop" of the marked loops i, ... (showMarking). |
| Reading.WordHere | pbj/math/graph/GraphMap.java:80-167 | A word token at pos is what nextString reads. |
| Reading.VertexLabel | pbj/math/graph/Word.java:218-220 | The vertex label v<n> reads back as n. |
| Reading.ImageBack | pbj/math/graph/Word.java:180-193 | The image token reads back as the image. |
| Reading.ExpectAt | pbj/math/graph/GraphMap.java:80-167 | nextString from pos reads the word-like token at k when nothing before it is one. |
| Reading.LineAt | pbj/math/graph/GraphMap.java:80-167 | The tokens of a line, one by one. |
| Reading.LineWords | pbj/math/graph/GraphMap.java:80-167 | nextString on a line finds its label, its two vertex words and its image token. |
| Reading.ReadEdgeLine | pbj/math/graph/GraphMap.java:80-167 | An edge line reads back as the edge. |
| Reading.ReadRestLine | pbj/math/graph/GraphMap.java:80-167 | After the label, an edge line reads back as the start, the end and the image. |
| Reading.ReadEdgesStep | pbj/math/graph/GraphMap.java:80-167 | One step of ReadEdges when edge i reads as e. |
| Reading.ReadEdgesLine | pbj/math/graph/GraphMap.java:80-167 | Edge line i read in front of the later edges: ReadEdges moves on by one edge and eleven tokens. |
| Reading.ReadLines | pbj/math/graph/GraphMap.java:80-167 | The edge lines from edge i on read back as the edges. |
| Reading.ReadMarksStep | pbj/math/graph/GraphMap.java:80-167 | One step of ReadMarks over a line whose label reads as l and whose loop reads as p. |
| Reading.MarkLineWords | pbj/math/graph/GraphMap.java:80-167 | nextString on a line "label: loop" finds the label and the loop. |
| Reading.MarkLineRead | pbj/math/graph/GraphMap.java:80-167 | The line "label: loop" of marked loop i stands at pos. |
| Reading.ReadMarksNext | pbj/math/graph/GraphMap.java:80-167 | ReadMarksStep with the loops read so far taken as prefixes of the final ones. |
| Reading.ReadMarkLines | pbj/math/graph/GraphMap.java:80-167 | The marked loops from i on read back. |
| Reading.AtWhole | pbj/math/graph/GraphMap.java:80-167 | A token sequence is at its own start. |
| Reading.MarkingRead | pbj/math/graph/GraphMap.java:80-167 | The marking, last in the text, reads back as the loops and their labels. |
| Reading.LabelRead | pbj/math/graph/GraphMap.java:80-167 | The label line and the marking after it read back. |
| Reading.SectionsRead | pbj/math/graph/GraphMap.java:80-167 | The label line and the marking read back as the label and the marking. |
| Reading.SectionsFirst | pbj/math/graph/GraphMap.java:80-167 | The first word of the label line and the marking is a section tag, or there is none. |
| Reading.TrailerRead | pbj/math/graph/GraphMap.java:80-167 | Everything after the edges reads back as the fixed word, the label and the marking. |
| Reading.FixedRead | pbj/math/graph/GraphMap.java:80-167 | A fixed word line reads back as the fixed word. |
| Reading.BuiltAgree | pbj/math/graph/GraphMap.java:80-167 | The map built from g's own edges, fixed word, label and marking agrees with g. |
| Reading.ReadGraphParts | pbj/math/graph/GraphMap.java:80-167 | readGraph without the strict check, given what each of its parts reads. |
| Reading.ReadWritten | pbj/math/graph/GraphMap.java:80-167 | The round trip of toString and readGraph: the text written for a map that can be written reads back, without the strict check, as a map that agrees with it. |
| Reading.HeadRead | pbj/math/graph/GraphMap.java:80-167 | The two counts and the edge lines of the written text read back; the trailer follows them. |
| GraphMaps.GraphMap.constructor | pbj/math/graph/GraphMap.java:45-47 | The empty map of the default constructor: no buffers yet, strict checking on. |
| GraphMaps.GraphMap.Copy | pbj/math/graph/GraphMap.java:184-211 | The copy constructor GraphMap(g2). |
| GraphMaps.GraphMap.Resized | pbj/math/graph/GraphMap.java:497-531 | Fresh buffers of capacity n holding the first k slots of im, start and end, with blank slots (empty image, vertex 0) after them. |
| GraphMaps.GraphMap.Blank | pbj/math/graph/GraphMap.java:53-74 | Fresh buffers of capacity n, every slot blank (empty image, vertex 0). |
| GraphMaps.GraphMap.Init | pbj/math/graph/GraphMap.java:53-74 | init(n): fresh buffers of capacity n with blank slots; more than MAXINDEX is refused. |
| GraphMaps.GraphMap.Reset | pbj/math/graph/GraphMap.java:53-74 | The empty map of capacity n. |
| GraphMaps.GraphMap.CopyGraph | pbj/math/graph/GraphMap.java:184-211 | copyGraph(g2): this becomes a copy of g2 in fresh buffers of the same capacity. |
| GraphMaps.GraphMap.IncreaseCapacity | pbj/math/graph/GraphMap.java:497-531 | increaseCapacity: the buffers replaced by fresh ones of the new capacity. |
| GraphMaps.GraphMap.AddEdge | pbj/math/graph/GraphMap.java:539-549 | addEdge(v1, v2, image): a new last edge, after growing a full map. |
| GraphMaps.GraphMap.Append | pbj/math/graph/GraphMap.java:539-549 | The second half of addEdge: the new edge written into the first free slot. |
| GraphMaps.GraphMap.IsGoodPath | pbj/math/graph/GraphMap.java:418-430 | isGoodPath: every two consecutive letters meet; a letter outside the buffers makes it false. |
| GraphMaps.GraphMap.IsGoodLoop | pbj/math/graph/GraphMap.java:437-448 | isGoodLoop: empty, or a good path that ends where it starts. |
| GraphMaps.GraphMap.MapWord | pbj/math/graph/GraphMap.java:735-747 | mapWord: the images of the letters concatenated and tightened; None for a letter outside the buffers. |
| GraphMaps.GraphMap.Size | pbj/math/graph/GraphMap.java:1733-1740 | size: the total length of the images of the edges in use. |
| GraphMaps.GraphMap.SameGraph | pbj/math/graph/GraphMap.java:700-709 | sameGraph: equal counts and equal endpoints of every edge in use. |
| GraphMaps.GraphMap.Equals | pbj/math/graph/GraphMap.java:716-727 | equals: the same graph, the same images, and cyclically conjugate fixed words. |
| GraphMaps.GraphMap.FirstBadImage | pbj/math/graph/GraphMap.java:455-494 | The first image of an edge in use that is not a good path. |
| GraphMaps.GraphMap.FirstBadMark | pbj/math/graph/GraphMap.java:455-494 | The first marked loop that is not a good path. |
| GraphMaps.GraphMap.IsGoodMap | pbj/math/graph/GraphMap.java:455-494 | isGoodMap with its message: Pass, or Fail with the message the source leaves in msg. |
| GraphMaps.GraphMap.ReadGraph | pbj/math/graph/GraphMap.java:80-167 | readGraph: the map read from the tokens of a text, checked with isGoodMap when strict; on failure the message of the exception (the object is then left part-read). |
| GraphMaps.GraphMap.ReadMap | pbj/math/graph/GraphMap.java:80-167 | readGraph up to the strict check. |
| GraphMaps.GraphMap.ReadBody | pbj/math/graph/GraphMap.java:80-167 | The edges, the fixed word and the sections, read into a map just made by init(4 edges). |
| GraphMaps.GraphMap.AdjustVertices | pbj/math/graph/GraphMap.java:901-918 | adjustVertices(v1, v2): the larger vertex merged into the smaller, later vertices moved down. |
| GraphMaps.GraphMap.RemoveEntry | pbj/math/graph/GraphMap.java:920-952 | removeEntry(ed): the last edge moved into slot ed and the letters rewritten, without vertex bookkeeping. |
| GraphMaps.GraphMap.MoveLast | pbj/math/graph/GraphMap.java:920-952 | The first half of removeEntry: one edge fewer, the last edge copied into slot ed. |
| GraphMaps.GraphMap.CollapseEdge | pbj/math/graph/GraphMap.java:988-1002 | collapseEdge(ed): the endpoints merged, then the entry removed. |
| GraphMaps.GraphMap.RemoveEdge | pbj/math/graph/GraphMap.java:958-981 | removeEdge(ed): the edge deleted, its endpoints merged first when one of them has fewer than three edges. |
| GraphMaps.GraphMap.CountAt | pbj/math/graph/GraphMap.java:958-981 | The counting loop of removeEdge: how many edges in use touch a and how many touch b. |
| GraphMaps.GraphMap.ReverseEdge | pbj/math/graph/GraphMap.java:873-899 | reverseEdge(ed): the image and the endpoints of ed turned round, every occurrence flipped. |
| GraphMaps.GraphMap.SplitEdge | pbj/math/graph/GraphMap.java:772-803 | splitEdge(ed, at): a new vertex cuts ed; the new last edge takes the image from position at on. |
| GraphMaps.GraphMap.Cut | pbj/math/graph/GraphMap.java:772-803 | The graph part of splitEdge. |
| GraphMaps.GraphMap.Tighten | pbj/math/graph/GraphMap.java:1178-1207 | tighten: images freely reduced, the fixed word and the marked loops cyclically reduced; true when an image changed. |
| GraphMaps.GraphMap.TightenMarks | pbj/math/graph/GraphMap.java:1178-1207 | The marked loops each freely and then cyclically reduced. |
| GraphMaps.GraphMap.SetLabel | pbj/math/graph/GraphMap.java:572-574 | setLabel(s): the map's label becomes s. |
| GraphMaps.GraphMap.SetImage | pbj/math/graph/GraphMap.java:556-558 | setImage(ed, s): slot ed of the image buffer becomes s, in use or not; outside the buffer it throws. |
| GraphMaps.GraphMap.SetMarking | pbj/math/graph/GraphMap.java:234-245 | setMarking(nm, ml, ma): the map becomes marked, with loops ma labelled ml. |
| GraphMaps.GraphMap.IdentifyVertices | pbj/math/graph/GraphMap.java:1139-1171 | identifyVertices(v1, v2): the two vertices become one and the last vertex takes the freed number. |
| GraphMaps.GraphMap.SwapVertices | pbj/math/graph/GraphMap.java:1305-1325 | swapVertices(v1, v2) as the source has it: refused only above the vertex count. |
| GraphMaps.GraphMap.ElementaryFold | pbj/math/graph/GraphMap.java:1095-1132 | elementaryFold(e1, e2): e2 renamed e1 everywhere, the ends identified, e2 removed. |
| GraphMaps.GraphMap.JoinEdges | pbj/math/graph/GraphMap.java:1057-1087 | joinEdges(e1, e2): the edges turned so that e1 ends where e2 starts, e1 takes the path e1 e2, e2 is collapsed. |
| GraphMaps.GraphMap.Orient | pbj/math/graph/GraphMap.java:1057-1087 | The turning step of joinEdges: e1 turned unless its end has valence two, then e1 and e2 turned until they meet. |
| GraphMaps.GraphMap.Valence | pbj/math/graph/GraphMap.java:1057-1087 | The number of ends of edges in use at vertex v, a loop counting twice. |
| GraphMaps.GraphMap.TurnIf | pbj/math/graph/GraphMap.java:1057-1087 | reverseEdge(ed) when the condition holds. |
| GraphMaps.GraphMap.ContractEdge | pbj/math/graph/GraphMap.java:1009-1037 | contractEdge(ed): every edge at the end of ed absorbs the image of ed, ed is collapsed, the map tightened. |
| GraphMaps.GraphMap.Attach | pbj/math/graph/GraphMap.java:1009-1037 | The first step of contractEdge: the image of ed put in front of (its inverse behind) each image at its end. |
| GraphMaps.GraphMap.Overwrite | pbj/math/graph/GraphMap.java:753-764 | The images of the edges in use replaced, the rest of the buffer kept. |
| GraphMaps.GraphMap.MapImages | pbj/math/graph/GraphMap.java:753-764 | The images of the edges of g1 mapped by this map, or None when one has a letter past the buffer. |
| GraphMaps.GraphMap.Compose | pbj/math/graph/GraphMap.java:753-764 | compose(g1): this becomes the map whose images are the images of g1 mapped by this. |
| GraphMaps.GraphMap.ConstantAt | pbj/math/graph/GraphMap.java:1210-1257 | The scan of tightenVertex at vertex v: whether every image at v is non-empty and D is constant there. |
| GraphMaps.GraphMap.ScanEdge | pbj/math/graph/GraphMap.java:1210-1257 | The darts of edge j at v in the scan, its start before its end. |
| GraphMaps.GraphMap.ScanDart | pbj/math/graph/GraphMap.java:1210-1257 | One dart c of that scan after the darts ds: the flag drops when the image of c is empty or its D differs from the first value seen. |
| GraphMaps.GraphMap.ChopAt | pbj/math/graph/GraphMap.java:1210-1257 | The chopping step of tightenVertex at v: each image loses its letters at its ends at v. |
| GraphMaps.GraphMap.TightenVertex | pbj/math/graph/GraphMap.java:1210-1257 | tightenVertex: at each vertex where D is constant the common letter is chopped off, then edges with empty images are collapsed. As the source has it (strict off), a vertex without any edge counts as a chop; the corrected form (strict on) passes over such a vertex. |
| GraphMaps.GraphMap.VertexLoop | pbj/math/graph/GraphMap.java:1210-1257 | The pass of tightenVertex over the vertices, before the collapses. |
| GraphMaps.GraphMap.VertexStep | pbj/math/graph/GraphMap.java:1210-1257 | One vertex of the pass of tightenVertex: chop at v if D is constant there. |
| GraphMaps.GraphMap.ChopsAt | pbj/math/graph/GraphMap.java:1210-1257 | Whether the pass of tightenVertex chops at v. |
| GraphMaps.GraphMap.HasDart | pbj/math/graph/GraphMap.java:1210-1257 | Whether some end of an edge in use lies at v. |
| GraphMaps.GraphMap.CollapseEmpty | pbj/math/graph/GraphMap.java:1210-1257 | The closing loop of tightenVertex: every edge with an empty image is collapsed. |
| GraphMaps.GraphMap.Identity | pbj/math/graph/GraphMap.java:1365-1370 | identity(): every edge in use becomes its own image. |
| GraphMaps.GraphMap.FirstVertexOf | pbj/math/graph/GraphMap.java:1297-1299 | firstVertex(c): the endpoint where the letter c starts; past the buffers it throws. |
| GraphMaps.GraphMap.LastVertexOf | pbj/math/graph/GraphMap.java:1286-1291 | lastVertex(c): the endpoint where the letter c ends; past the buffers it throws. |
| GraphMaps.GraphMap.SetFirstVertex | pbj/math/graph/GraphMap.java:1372-1377 | setFirstVertex(c, v): the endpoint where c starts becomes v. |
| GraphMaps.GraphMap.ReplaceEdge | pbj/math/graph/GraphMap.java:1466-1482 | replaceEdge(c, s, rel): every occurrence of c in the images, the fixed word, the marked loops and the relations rel becomes s (and its inverse the inverse of s), tightened; the edge c stays. |
| GraphMaps.GraphMap.ReplaceInAll | pbj/math/graph/GraphMap.java:1466-1482 | The loop of replaceEdge over the relations: replaceChar on each of them. |
| GraphMaps.GraphMap.TietzeTrafos | pbj/math/graph/GraphMap.java:1489-1517 | tietzeTrafos(rel): every relation is scanned for a letter whose edge occurs only once in it; the inverse of that letter is replaced everywhere (replaceEdge) by the rest of the relation and its edge is noted; the noted edges are removed at the end. |
| GraphMaps.GraphMap.ScanRelations | pbj/math/graph/GraphMap.java:1489-1517 | The scanning loop of tietzeTrafos: the relations in turn, the noted edges in gone[..cntrep]. |
| GraphMaps.GraphMap.RemoveNoted | pbj/math/graph/GraphMap.java:1489-1517 | The removing loop of tietzeTrafos: removeEdge on each noted edge, stopping at the first refusal. |
| GraphMaps.GraphMap.ScanRelation | pbj/math/graph/GraphMap.java:1489-1517 | The scan of relation i by tietzeTrafos, with cntrep edges noted in gone so far. |
| GraphMaps.GraphMap.CountEdge | pbj/math/graph/GraphMap.java:1489-1517 | The counting loop of tietzeTrafos: the letters of w along edge e. |
| GraphMaps.GraphMap.EvaluateTree | pbj/math/graph/GraphMap.java:1526-1582 | evaluateTree(spt, path, tr): spt gets the edges tr names (the flags of the edges in use cleared first), tr must name vertices - 1 edges that were not flagged, and when path is given and the count is right it passes exactly when the flagged edges in use connect every two vertices (`Reach.Connected`); it then leaves in path, for every two vertices i and j, a reduced path from i to j made of the flagged edges, path[j, i] being path[i, j] run backwards. |
| GraphMaps.SpannedConnected | pbj/math/graph/GraphMap.java:1571-1580 | What evaluateTree leaves in path when it passes shows the flagged edges in use connect every two vertices. |
| Reach.NearUp | pbj/math/graph/GraphMap.java:1558-1568 | What flagged edges join within d edges they join within d + 1. |
| Reach.NearMono | pbj/math/graph/GraphMap.java:1558-1568 | What flagged edges join within d edges they join within any larger bound. |
| Reach.NearPrepend | pbj/math/graph/GraphMap.java:1563-1567 | A flagged edge from x' to x in front of a walk from x to y is a walk from x' to y one edge longer. |
| Reach.NearSym | pbj/math/graph/GraphMap.java:1565-1567 | A walk from x to y run backwards goes from y to x within the same number of edges, as the closure fills path[j, i] with path[i, j]. |
| Reach.WalkNear | pbj/math/graph/GraphMap.java:1563-1567 | A path from x to y along flagged edges in use is a walk of as many edges as it has letters. |
| Reach.StillForever | pbj/math/graph/GraphMap.java:1558 | Once one more edge reaches no new vertex, no number of edges does. |
| Reach.Range | pbj/math/graph/GraphMap.java:1558 | The numbers from 0 below n: n of them, exactly those. |
| Reach.SubsetCard | pbj/math/graph/GraphMap.java:1558 | A subset has at most as many elements as the set. |
| Reach.BallGrows | pbj/math/graph/GraphMap.java:1558 | Within d edges a vertex reaches more than d vertices, or its reach has stopped growing by then. |
| Reach.NearSaturates | pbj/math/graph/GraphMap.java:1558 | Whatever a vertex reaches along flagged edges, it reaches within vertices - 1 edges, the rounds the closure is given. |
| Reach.WalkConnects | pbj/math/graph/GraphMap.java:1571-1580 | Any path along flagged edges in use joins its ends within vertices - 1 edges. |
| Reach.Between | pbj/math/graph/GraphMap.java:1561-1567 | A missing pair joined within d edges, when every pair within d - 1 is there, has a vertex k with both entries i..k and k..j there. |
| GraphMaps.GraphMap.MarkTree | pbj/math/graph/GraphMap.java:1526-1582 | The first two loops of evaluateTree: clear the first n flags, then flag every letter of tr, counting the flags that were not set yet; a letter past the flags fails. |
| GraphMaps.GraphMap.PlaceTreeEdges | pbj/math/graph/GraphMap.java:1550-1556 | Each flagged edge in use is the path from its start to its end, and its inverse the way back, so every two vertices one flagged edge apart have their entry. |
| GraphMaps.GraphMap.CloseRound | pbj/math/graph/GraphMap.java:1559-1568 | One round of the closure: if every two distinct vertices joined within d - 1 flagged edges have their entry, then after the round every two joined within d have one. |
| GraphMaps.GraphMap.CloseThrough | pbj/math/graph/GraphMap.java:1562-1568 | For every k with paths i..k and k..j, path[i, j] and path[j, i] go through k: an entry once there stays, and path[i, j] is there after the loop whenever some k had both entries before it. |
| GraphMaps.GraphMap.PutPair | pbj/math/graph/GraphMap.java:1564-1567 | path[i, j] := p, then path[j, i] := q, for non-empty p from i to j and q from j to i along flagged edges; no other entry changes and no entry becomes empty. |
| GraphMaps.GraphMap.FinishPaths | pbj/math/graph/GraphMap.java:1571-1580 | The last loop of evaluateTree: for i < j a missing path is an error, otherwise path[i, j] is tightened and path[j, i] becomes its reverse; it passes whenever every entry above the diagonal was there. |
| GraphMaps.GraphMap.FinishRow | pbj/math/graph/GraphMap.java:1572-1580 | Row i of the last loop: every pair i < j is settled, or a missing path stops it; it stops only at a missing entry of row i, and leaves the later rows above the diagonal as they were. |
| GraphMaps.GraphMap.BuildRose | pbj/math/graph/GraphMap.java:53-74 | init(cap) followed by k calls addEdge(v, v, the edge itself): the rose with k petals at v. |
| GraphMaps.GraphMap.IdentityRose | pbj/math/graph/GraphMap.java:1350-1360 | identity(n): the rose with n petals at vertex 0, each mapped to itself, and no fixed word. |
| GraphMaps.GraphMap.IdentityFromBoundary | pbj/math/graph/GraphMap.java:1333-1343 | identity(bd): the rose with \|bd\|/2 petals at vertex 0 whose fixed word is dualize(bd). |
| GraphMaps.GraphMap.IdentityFromFixed | pbj/math/graph/GraphMap.java:1384-1417 | identityFromFixed(fw): \|fw\|/2 edges mapped to themselves, with unassigned ends, then vertices assigned by walking fw: each unassigned letter starts a new vertex, which the walk gives to every letter it meets until it meets an assigned one. |
| GraphMaps.GraphMap.AssignVertices | pbj/math/graph/GraphMap.java:1384-1417 | The vertex-assigning walk of identityFromFixed; cnt counts the vertices. |
| GraphMaps.GraphMap.AssignAt | pbj/math/graph/GraphMap.java:1384-1417 | One position of the outer walk: an assigned letter is passed over, an unassigned one starts the inner walk of a new vertex. |
| GraphMaps.GraphMap.NewVertexAt | pbj/math/graph/GraphMap.java:1384-1417 | An unassigned letter of the outer walk: the inner walk gives a new vertex. |
| GraphMaps.GraphMap.WalkVertex | pbj/math/graph/GraphMap.java:1384-1417 | The inner loops of identityFromFixed from position i, whose letter is unassigned: the new vertex cnt goes to each letter met, and the walk goes on from just after the inverse of that letter, until it meets an assigned letter. |
| GraphMaps.GraphMap.WalkStep | pbj/math/graph/GraphMap.java:1384-1417 | One letter of that walk: it gets the vertex cnt, the walk moves past its inverse, and fv is the first vertex of the letter it reaches. |
| GraphMaps.GraphMap.Moved | pbj/math/graph/GraphMap.java:1801-1908 | The word a Nielsen move makes of x and y, computed as the source does. |
| GraphMaps.GraphMap.TryMove | pbj/math/graph/GraphMap.java:1801-1908 | One move of invertRose on images i and j: taken when it makes image i smaller in the order lessThan, and then made on the candidate inverse h as well. |
| GraphMaps.GraphMap.Store | pbj/math/graph/GraphMap.java:1801-1908 | Image i becomes c here and d in h. |
| GraphMaps.GraphMap.TryMoves | pbj/math/graph/GraphMap.java:1801-1908 | The four moves tried in the order of the source; the first that applies is made. |
| GraphMaps.GraphMap.SweepRow | pbj/math/graph/GraphMap.java:1801-1908 | The moves on image i with every other image in turn. |
| GraphMaps.GraphMap.Sweep | pbj/math/graph/GraphMap.java:1801-1908 | One pass of the do-while loop of invertRose over all pairs of images. |
| GraphMaps.GraphMap.InvertRose | pbj/math/graph/GraphMap.java:1801-1908 | invertRose: Nielsen reduction. The images are shortened by the four moves while one applies, the same moves building the candidate inverse from the identity; when the images end up as the edges themselves, permuted and turned, the candidate becomes the map and the result is true. |
| GraphMaps.GraphMap.Reduce | pbj/math/graph/GraphMap.java:1801-1908 | The do-while loop of invertRose: sweeps until one makes no move. |
| GraphMaps.GraphMap.SingleLetters | pbj/math/graph/GraphMap.java:1801-1908 | Whether every image of an edge in use is a single letter. |
| GraphMaps.GraphMap.Permute | pbj/math/graph/GraphMap.java:1801-1908 | The middle step of invertRose: images of single letters moved so that image i lies on edge i. |
| GraphMaps.GraphMap.TurnImages | pbj/math/graph/GraphMap.java:1801-1908 | The last step of invertRose: images that are inverse letters are turned, on both maps. |
| GraphMaps.BoundaryRoseIdentity | pbj/math/graph/GraphMap.java:1333-1343 | identity(bd) succeeds on every non-empty strict boundary word that fits, and on letters of the petals it is a well-formed identity map. |
| GraphMaps.FixedRoseOfOk | pbj/math/graph/GraphMap.java:1384-1417 | The numbering always succeeds when every letter of fw names one of its 2\|fw\| slots. |
| GraphMaps.FixedRoseOfShape | pbj/math/graph/GraphMap.java:1384-1417 | What identityFromFixed builds is a rose on the fixed word fw, as FixedRose describes. |
| GraphMaps.RoseAssigning | pbj/math/graph/GraphMap.java:1384-1417 | The rose with unassigned ends is where the walk starts. |
| GraphMaps.AssignStep | pbj/math/graph/GraphMap.java:1384-1417 | Giving vertex cnt to an unassigned letter keeps the walk's state. |
| GraphMaps.WalkFrom | pbj/math/graph/GraphMap.java:1384-1417 | The inner walk of identityFromFixed from position i, whose letter has no vertex yet: the letter gets vertex cnt, the walk moves on to just after the next occurrence of its inverse, and goes on until it meets a letter with a vertex. The map and the position where the walk stopped. |
| GraphMaps.AssignFrom | pbj/math/graph/GraphMap.java:1384-1417 | The outer loop of identityFromFixed from position i: a letter without a vertex starts the walk of a new vertex cnt, and the loop goes on after where the walk stopped. The map and the number of vertices. |
| GraphMaps.AssignFromSkip | pbj/math/graph/GraphMap.java:1384-1417 | An assigned letter is passed over by the outer walk. |
| GraphMaps.AssignFromWalkFails | pbj/math/graph/GraphMap.java:1384-1417 | An inner walk that fails makes the whole walk fail. |
| GraphMaps.AssignFromWalk | pbj/math/graph/GraphMap.java:1384-1417 | An unassigned letter starts an inner walk; the outer walk resumes just past its end. |
| GraphMaps.JoinWalks | pbj/math/graph/GraphMap.java:1526-1582 | Joining the paths i..k and k..j gives a path i..j along flagged edges, and back. |
| GraphMaps.SettledNext | pbj/math/graph/GraphMap.java:1526-1582 | A finished row i moves the last loop to row i + 1. |
| GraphMaps.SettledDone | pbj/math/graph/GraphMap.java:1526-1582 | Past the last row every pair is settled. |
| IntMatrices.Zero | pbj/math/numerical/IntMatrix.java:99-107 | The zero matrix of dimension n. |
| IntMatrices.Identity | pbj/math/numerical/IntMatrix.java:180-193 | The identity matrix of dimension n. |
| IntMatrices.Product | pbj/math/numerical/IntMatrix.java:129-143 | The matrix product. |
| IntMatrices.Plus | pbj/math/numerical/IntMatrix.java:150-162 | The entrywise sum. |
| IntMatrices.RowCount | pbj/math/numerical/IntMatrix.java:167-175 | The number of nonzero entries among the first k of a row. |
| IntMatrices.Count | pbj/math/numerical/IntMatrix.java:167-175 | The number of nonzero entries in the first k rows. |
| IntMatrices.RowCountFull | pbj/math/numerical/IntMatrix.java:167-175 | A row's count reaches its length exactly when no entry is zero. |
| IntMatrices.CountFull | pbj/math/numerical/IntMatrix.java:167-175 | n*n nonzero entries means every entry is nonzero. |
| IntMatrices.RowsTimes | pbj/math/numerical/IntMatrix.java:167-175 | k rows of n are k - 1 rows of n and one more. |
| IntMatrices.RowCountMono | pbj/math/numerical/IntMatrix.java:167-175 | Adding a row with nonnegative entries to one never clears an entry. |
| IntMatrices.CountMono | pbj/math/numerical/IntMatrix.java:167-175 | Adding a nonnegative matrix to a nonnegative one never lowers the count of nonzero entries. |
| IntMatrices.ProductPlusNonneg | pbj/math/numerical/IntMatrix.java:129-143 | Products and sums of nonnegative matrices are nonnegative. |
| IntMatrices.ProductIdentity | pbj/math/numerical/IntMatrix.java:129-143 | The identity is a right unit of the product. |
| IntMatrices.PlusLaws | pbj/math/numerical/IntMatrix.java:150-162 | The sum is commutative and has the zero matrix as its unit. |
| IntMatrices.Settle | pbj/math/numerical/IntMatrix.java:180-193 | The loop of isIrreducible from the powers iter and the partial sum accu, prev being the count of nonzero entries before the last step: the partial sum at which the count stops growing. It terminates because the count is monotone and at most n*n. |
| IntMatrices.Scaled | pbj/math/numerical/IntMatrix.java:180-193 | A scalar multiple of the identity. |
| IntMatrices.IdentityIrreducible | pbj/math/numerical/IntMatrix.java:180-193 | The identity matrix passes the test only in dimension 0 and 1. |
| IntMatrices.XCountAppend | pbj/math/numerical/IntMatrix.java:281-305 | The x's of two texts add up. |
| IntMatrices.XCountNone | pbj/math/numerical/IntMatrix.java:281-305 | A text without an x counts none. |
| IntMatrices.BodyShape | pbj/math/numerical/IntMatrix.java:281-305 | A term's body has an x exactly when its degree is positive, and is never empty. |
| IntMatrices.TermShape | pbj/math/numerical/IntMatrix.java:281-305 | A nonzero coefficient writes something, with one 'x' exactly when its degree is positive. |
| IntMatrices.PolyPrefixShape | pbj/math/numerical/IntMatrix.java:281-305 | polyString skips zero coefficients: it is empty exactly for an all-zero array, and it writes one x for every nonzero coefficient of positive degree. |
| IntMatrices.TermXs | pbj/math/numerical/IntMatrix.java:281-305 | A term adds an x exactly when its coefficient is nonzero and its degree positive. |
| IntMatrices.PolyExample | pbj/math/numerical/IntMatrix.java:281-305 | A worked example: signs between terms, no coefficient 1 before x, zero terms skipped. |
| IntMatrices.IntMatrix.Entries | pbj/math/numerical/IntMatrix.java:15-18 | The entries of the window in use. |
| IntMatrices.IntMatrix.Rows | pbj/math/numerical/IntMatrix.java:15-18 | The first k rows of the window. |
| IntMatrices.IntMatrix.RowsAt | pbj/math/numerical/IntMatrix.java:15-18 | The entries are those of the array. |
| IntMatrices.IntMatrix.Cells | pbj/math/numerical/IntMatrix.java:15-18 | The first k entries of row i. |
| IntMatrices.IntMatrix.constructor | pbj/math/numerical/IntMatrix.java:99-107 | IntMatrix(sz): the zero matrix of dimension sz. |
| IntMatrices.IntMatrix.Copy | pbj/math/numerical/IntMatrix.java:113-122 | IntMatrix(b): a copy of the window of b in a fresh array. |
| IntMatrices.IntMatrix.CountMatrixEntries | pbj/math/numerical/IntMatrix.java:167-175 | countMatrixEntries: the number of nonzero entries in the window, between 0 and n*n. |
| IntMatrices.IntMatrix.IsIrreducible | pbj/math/numerical/IntMatrix.java:180-193 | isIrreducible: M + M^2 + ... is summed until its number of nonzero entries stops growing; the answer is whether every entry is then nonzero. |
| IntMatrices.SettlesStep | pbj/math/numerical/IntMatrix.java:180-193 | One round on values keeps the loop state. |
| IntMatrices.Start | pbj/math/numerical/IntMatrix.java:180-193 | The start of isIrreducible: the first power and the first partial sum are copies of m. |
| IntMatrices.Round | pbj/math/numerical/IntMatrix.java:180-193 | One round of the loop of isIrreducible. |
| IntMatrices.SettleStep | pbj/math/numerical/IntMatrix.java:180-193 | One round of the loop of isIrreducible on values: nonnegativity, the count and the result are kept. |
| IntMatrices.Step | pbj/math/numerical/IntMatrix.java:180-193 | One round of isIrreducible: the next power and the partial sum with it added, in fresh matrices. |
| IntMatrices.DotOf | pbj/math/numerical/IntMatrix.java:129-143 | The first k terms of the scalar product of row i of x and column j of y, read from the arrays. |
| IntMatrices.Mult | pbj/math/numerical/IntMatrix.java:129-143 | mult(x, y): "different dimensions" unless x.n == y.n, otherwise the product in a fresh matrix. |
| IntMatrices.ProductRow | pbj/math/numerical/IntMatrix.java:129-143 | Row i of the product of x and y, written into row i of c. |
| IntMatrices.Add | pbj/math/numerical/IntMatrix.java:150-162 | add(x, y): "different dimensions" unless x.n == y.n, otherwise the entrywise sum in a fresh matrix. |
| IntMatrices.AddRow | pbj/math/numerical/IntMatrix.java:150-162 | One row of add: row i of c becomes row i of the sum, the other rows are kept. |
| IntMatrices.AppendTerm | pbj/math/numerical/IntMatrix.java:281-305 | One pass of the loop of polyString: the text of coefficient a of degree d appended to s. |
| IntMatrices.TermBody | pbj/math/numerical/IntMatrix.java:281-305 | The rest of a term after its separator: coefficient, x and power, or the bare constant. |
| IntMatrices.PolyString | pbj/math/numerical/IntMatrix.java:281-305 | polyString(p): the polynomial with coefficients p, highest degree first. |
| IntVectors.Apply | pbj/math/numerical/IntVector.java:103-117 | m times x, for a square m of dimension \|x\|. |
| IntVectors.VPlus | pbj/math/numerical/IntVector.java:124-137 | The entrywise sum of two vectors of one length. |
| IntVectors.RowDotUnit | pbj/math/numerical/IntVector.java:103-117 | The scalar product with a unit vector picks one entry. |
| IntVectors.ApplyIdentity | pbj/math/numerical/IntVector.java:103-117 | The identity matrix fixes every vector. |
| IntVectors.RowDotPlus | pbj/math/numerical/IntVector.java:103-117 | The scalar product is additive in its second factor. |
| IntVectors.ApplyPlus | pbj/math/numerical/IntVector.java:103-117 | The product with a matrix is linear: m(x + y) == mx + my. |
| IntVectors.TotalPlus | pbj/math/numerical/IntVector.java:124-137 | The sum of the entries is additive. |
| IntVectors.RowCountZero | pbj/math/numerical/IntVector.java:142-149 | No entry is counted exactly when every entry is zero. |
| IntVectors.IntVector.Contents | pbj/math/numerical/IntVector.java:20-27 | The entries. |
| IntVectors.IntVector.constructor | pbj/math/numerical/IntVector.java:20-27 | IntVector(sz): the zero vector with sz entries. |
| IntVectors.IntVector.Copy | pbj/math/numerical/IntVector.java:33-41 | IntVector(b): a copy of b in a fresh array. |
| IntVectors.IntVector.CountVectorEntries | pbj/math/numerical/IntVector.java:142-149 | countVectorEntries: the number of nonzero entries. |
| IntVectors.IntVector.SumOfEntries | pbj/math/numerical/IntVector.java:154-161 | sumOfEntries: the sum of the entries. |
| IntVectors.ProductEntry | pbj/math/numerical/IntVector.java:103-117 | Entry i of the product m x, accumulated into c[i] from zero as the source does. |
| IntVectors.Product | pbj/math/numerical/IntVector.java:103-117 | product(m, x): "different dimensions" unless m.n == x.n, otherwise m x in a fresh vector. |
| IntVectors.Sum | pbj/math/numerical/IntVector.java:124-137 | sum(a, b): "different dimensions" unless a.n == b.n, otherwise the entrywise sum in a fresh vector. |
| Growing.Put | pbj/math/graph/train/TrainTrack.java:122-139 | The contents after writing c at position i: the gap up to i filled with blank. |
| Growing.PutPut | pbj/math/graph/train/TrainTrack.java:122-139 | Writing twice at one position keeps the second value. |
| Growing.PutCommutes | pbj/math/graph/train/TrainTrack.java:122-139 | Writes at two different positions commute. |
| Growing.BoolAtPut | pbj/math/graph/train/TrainTrack.java:122-139 | Seen through getValue, a GrowingBoolArray is a total map: a write changes one position only. |
| Growing.GrowingCharArray.Contents | pbj/math/graph/train/TrainTrack.java:61-72 | The entries in use. |
| Growing.GrowingCharArray.constructor | pbj/math/graph/train/TrainTrack.java:61-72 | GrowingCharArray(n) for n >= 1: n slots, none in use. |
| Growing.GrowingCharArray.SetValue | pbj/math/graph/train/TrainTrack.java:74-89 | setValue(i, c): the array doubled to 2i when i lies past it, the count raised to i + 1 when below. |
| Growing.GrowingCharArray.Double | pbj/math/graph/train/TrainTrack.java:74-89 | The growing step of setValue: the entries copied into a fresh array of 2i slots. |
| Growing.GrowingCharArray.GetValue | pbj/math/graph/train/TrainTrack.java:91-97 | getValue(i): the entry at i, an error at or past the count. |
| Growing.GrowingCharArray.Size | pbj/math/graph/train/TrainTrack.java:99-101 | size(): the number of entries in use. |
| Growing.NewCharArray | pbj/math/graph/train/TrainTrack.java:65-72 | The GrowingCharArray constructor: a capacity below one is refused. |
| Growing.GrowingBoolArray.Contents | pbj/math/graph/train/TrainTrack.java:107-120 | The entries in use. |
| Growing.GrowingBoolArray.constructor | pbj/math/graph/train/TrainTrack.java:107-120 | GrowingBoolArray(n) for n >= 1: n slots cleared, none in use. |
| Growing.GrowingBoolArray.SetValue | pbj/math/graph/train/TrainTrack.java:122-139 | setValue(i, c): the array doubled to 2i when i lies past it, the count raised to i + 1 when below. |
| Growing.GrowingBoolArray.Double | pbj/math/graph/train/TrainTrack.java:122-139 | The growing step of setValue: a fresh array of 2i slots cleared, then the entries copied. |
| Growing.GrowingBoolArray.GetValue | pbj/math/graph/train/TrainTrack.java:141-146 | getValue(i): the entry at i, false at or past the count. |
| Growing.GrowingBoolArray.Size | pbj/math/graph/train/TrainTrack.java:148-150 | size(): the number of entries in use. |
| Growing.NewBoolArray | pbj/math/graph/train/TrainTrack.java:111-120 | The GrowingBoolArray constructor: a capacity below one is refused. |
| Homotopies.Occurrences | pbj/math/graph/train/TrainTrack.java:162-178 | The number of letters of edge k, in either orientation, among the first n letters of w. |
| Homotopies.Transition | pbj/math/graph/train/TrainTrack.java:162-178 | The transition matrix: entry [k][j] counts the letters of edge k in the image of edge j. |
| Homotopies.IndicatorSum | pbj/math/graph/train/TrainTrack.java:162-178 | The indicator of a letter of edge x, summed over the edges below K. |
| Homotopies.CountsBelowAll | pbj/math/graph/train/TrainTrack.java:162-178 | Counting the letters of every edge below K counts every letter, when all letters are below K. |
| Homotopies.ColumnSumCounts | pbj/math/graph/train/TrainTrack.java:162-178 | Column j of the transition matrix counts the letters of the image of j. |
| Homotopies.TransitionColumns | pbj/math/graph/train/TrainTrack.java:162-178 | Every column of the transition matrix sums to the length of the image of its edge. |
| Homotopies.CountColumn | pbj/math/graph/train/TrainTrack.java:162-178 | updateTransitionMatrix for column j: every letter of the image of j adds one to its row. |
| Homotopies.TransitionMatrix | pbj/math/graph/train/TrainTrack.java:162-178 | transitionMatrix (updateTransitionMatrix and a copy): a fresh matrix whose entry [k][j] counts the letters of edge k in the image of edge j. |
| Homotopies.IsIrreducible | pbj/math/graph/train/TrainTrack.java:191-194 | isIrreducible of a train track: the irreducibility of its transition matrix. |
| Homotopies.Valences | pbj/math/graph/train/TrainTrack.java:204-215 | The valence of every vertex: the number of edge ends at it, a loop counting twice. |
| Homotopies.ValenceSumStep | pbj/math/graph/train/TrainTrack.java:204-215 | Adding edge k - 1 adds its two ends to the valence sum. |
| Homotopies.HandshakeUpTo | pbj/math/graph/train/TrainTrack.java:204-215 | The handshake count over the first k edges: every edge has two ends at vertices. |
| Homotopies.Handshake | pbj/math/graph/train/TrainTrack.java:204-215 | The valences of a map whose edges end at vertices add up to twice the number of edges. |
| Homotopies.CountValences | pbj/math/graph/train/TrainTrack.java:204-215 | countValences: one pass over the edges, adding one at each end. |
| Homotopies.V1Edge | pbj/math/graph/train/TrainTrack.java:221-233 | The first edge from i on with an end at a vertex of valence one. |
| Homotopies.ValenceWitness | pbj/math/graph/train/TrainTrack.java:221-233 | A vertex with some valence is an end of some edge. |
| Homotopies.NoValenceOne | pbj/math/graph/train/TrainTrack.java:221-233 | With no edge at a vertex of valence one, no vertex has valence one. |
| Homotopies.V1HomotopySpec | pbj/math/graph/train/TrainTrack.java:221-233 | v1Homotopy reports a change exactly when some vertex has valence one, and then removes one edge and keeps the map well-formed. |
| Homotopies.ValenceOneAt | pbj/math/graph/train/TrainTrack.java:221-233 | An edge at a vertex of valence one names a vertex of valence one. |
| Homotopies.V1HomotopyStep | pbj/math/graph/train/TrainTrack.java:221-233 | v1Homotopy on a train track. |
| Homotopies.V2Edge | pbj/math/graph/train/TrainTrack.java:249-278 | The first edge from i on that is not a loop and has an end at a vertex of valence two. |
| Homotopies.NextAt | pbj/math/graph/train/TrainTrack.java:249-278 | The first edge from j on with an end at v. |
| Homotopies.OneEnd | pbj/math/graph/train/TrainTrack.java:249-278 | The valence among the first k edges counts the ends of each of them. |
| Homotopies.TwoEnds | pbj/math/graph/train/TrainTrack.java:249-278 | ... and of any two of them together. |
| Homotopies.OtherEnd | pbj/math/graph/train/TrainTrack.java:249-278 | A valence above the ends of edge e comes from another edge at v. |
| Homotopies.V2PartnerAfter | pbj/math/graph/train/TrainTrack.java:249-278 | The partner search of v2Homotopy ends: for the first edge i that is not a loop and ends at a vertex vt of valence two, another edge with an end at vt comes after i (one before it would be a loop at vt, giving vt a valence of three). |
| Homotopies.V2Pair | pbj/math/graph/train/TrainTrack.java:249-278 | The two edges v2Homotopy joins: the first edge at a valence-two vertex and its partner. |
| Homotopies.V2HomotopySpec | pbj/math/graph/train/TrainTrack.java:249-278 | v2Homotopy changes a map exactly when some edge that is not a loop ends at a vertex of valence two; the join it then makes never fails, removes one edge and keeps the map well-formed. |
| Homotopies.FindV2 | pbj/math/graph/train/TrainTrack.java:249-278 | The search of v2Homotopy for its first edge, on the counted valences. |
| Homotopies.PartnerOf | pbj/math/graph/train/TrainTrack.java:249-278 | The partner search of v2Homotopy: the next edge after i with an end at vt. |
| Homotopies.V2HomotopyStep | pbj/math/graph/train/TrainTrack.java:249-278 | v2Homotopy on a train track, with the eigenvector comparison as an oracle. |
| Homotopies.VertexLoop | pbj/math/graph/train/TrainTrack.java:411-418 | The vertex pass of tightenPlus, repeated while it reports a change, with the corrected tightenVertex: the map after the last pass, and whether any pass reported a change. |
| Homotopies.VertexLoopAsWritten | pbj/math/graph/train/TrainTrack.java:411-418 | The vertex pass of tightenPlus as written, repeated while it reports a change, with at most fuel passes: the map after the last pass, or None when fuel runs out first. |
| Homotopies.TightenPlusAsWrittenSpins | pbj/math/graph/train/TrainTrack.java:411-418 | As written, tightenPlus never returns on a map with one vertex and no edges: the vertex pass reports a change there without changing anything, so no number of passes ends the loop. The corrected loop returns at once. |
| Homotopies.TightenPlus | pbj/math/graph/train/TrainTrack.java:411-418 | tightenPlus: the vertex passes repeated while they report a change, then (only when none did) tighten; true when something changed. |
| Homotopies.VertexLoopShrinks | pbj/math/graph/train/TrainTrack.java:411-418 | The edges of a map never increase through the vertex passes. |
| Homotopies.TightenPlusSpec | pbj/math/graph/train/TrainTrack.java:411-418 | tightenPlus never makes a map larger or adds an edge; when it reports no change every image is freely reduced. |
| Homotopies.TightenPlusStep | pbj/math/graph/train/TrainTrack.java:411-418 | tightenPlus on a train track. |
| Turns.CoordInjective | pbj/math/graph/train/TrainTrack.java:404-409 | On letters of edges in use, charToCoord is a bijection onto 0..2E-1. |
| Turns.Shrinks | pbj/math/graph/train/TrainTrack.java:420-442 | Marking a pair of the table that was not marked leaves fewer unmarked pairs. |
| Turns.IllegalRecMeans | pbj/math/graph/train/TrainTrack.java:420-442 | A nonzero result is the first depth at which the iterates coincide: the iterates of a and b agree after d - depth steps and differ (or fail) before. |
| Turns.IllegalRecBound | pbj/math/graph/train/TrainTrack.java:420-442 | A nonzero result never exceeds the starting depth plus the number of unmarked pairs. |
| Turns.BlockSplit | pbj/math/graph/train/TrainTrack.java:450-459 | A block is the block one row shorter and its last row, the two disjoint. |
| Turns.PairsCard | pbj/math/graph/train/TrainTrack.java:450-459 | The table of isIllegal has (2E)^2 entries. |
| Turns.IllegalBound | pbj/math/graph/train/TrainTrack.java:468-485 | isIllegal returns 1 for a turn of one letter twice, and otherwise either 0 or a depth of at most 4E^2 + 1, which lies below the threshold 8E^2 of findIllegalTurn. |
| Turns.IsIllegalRec | pbj/math/graph/train/TrainTrack.java:420-442 | isIllegalRec on the table the source marks. |
| Turns.Mark | pbj/math/graph/train/TrainTrack.java:420-442 | The marking step of isIllegalRec: the turn recorded in both orders. |
| Turns.IsIllegal | pbj/math/graph/train/TrainTrack.java:450-459 | isIllegal: a fresh table of (2E)^2 unmarked entries, then the walk from depth 1. |
| Turns.ScanTurn | pbj/math/graph/train/TrainTrack.java:468-485 | One turn of the scan: kept when its depth is positive and below the best so far. |
| Turns.ScanImage | pbj/math/graph/train/TrainTrack.java:468-485 | The scan of the turns inside the image of edge i, from the state after the earlier images. |
| Turns.FindIllegalTurn | pbj/math/graph/train/TrainTrack.java:468-485 | findIllegalTurn: the best turn (least depth below the threshold, then earliest), or None when no turn counts. The source reports it in res[0] and res[1]. |
| Turns.IsTrainTrack | pbj/math/graph/train/TrainTrack.java:490-498 | isTrainTrack: no turn counts. |
| Turns.CountsMeans | pbj/math/graph/train/TrainTrack.java:468-485 | Below 16384 edges the threshold is 8E^2 itself, and then a turn counts exactly when isIllegal gives it a positive depth: findIllegalTurn misses no illegal turn. |
| Turns.SmallThreshold | pbj/math/graph/train/TrainTrack.java:468-485 | Below 16384 the product 8e^2 fits in an int. |
| Bookkeeping.UpdatedInv | pbj/math/graph/train/TrainTrack.java:500-509 | All the pointers after updateInv. |
| Bookkeeping.UpdatedInvFollowsSplit | pbj/math/graph/train/TrainTrack.java:500-509 | After edge o is split into o followed by the new edge nw, every pointer names the first letter of what its letter became: a backward o now begins with the backward new edge, every other letter begins with itself. |
| Bookkeeping.UpdateInv | pbj/math/graph/train/TrainTrack.java:500-509 | updateInv(al, o, nw): the loop over the pointers in use. |
| Bookkeeping.UpdatedAll | pbj/math/graph/train/TrainTrack.java:511-519 | All the pointers after updateAll. |
| Bookkeeping.UpdatedAllRenames | pbj/math/graph/train/TrainTrack.java:511-519 | For indices in range, updateAll is the renaming of edge o to nw that a fold makes in the images. |
| Bookkeeping.UpdatedAllBack | pbj/math/graph/train/TrainTrack.java:511-519 | Moving the pointers of o to a free index nw and back restores them. |
| Bookkeeping.UpdateAll | pbj/math/graph/train/TrainTrack.java:511-519 | updateAll(al, o, nw): the loop over the pointers in use. |
| Bookkeeping.ReverseList | pbj/math/graph/train/TrainTrack.java:521-528 | reverseList(al, ed): every pointer to ed flipped, which is reverseChar on the pointers (so doing it twice restores them, Paths.ReverseCharTwice). |
| Bookkeeping.SplitCharLonger | pbj/math/graph/train/TrainTrack.java:552-563 | Splitting never shortens a word: the letters of e only gain a letter. |
| Bookkeeping.SplitListFromSpec | pbj/math/graph/train/TrainTrack.java:552-563 | splitList keeps a map well-formed, adds as many vertices as edges (so the Euler characteristic is unchanged), never lowers len, and keeps the number of pointers. |
| Bookkeeping.SplitListIdle | pbj/math/graph/train/TrainTrack.java:552-563 | splitList leaves everything as it was exactly when no edge from i on is both flagged and longer than len; otherwise it splits at least one edge (or fails). |
| Bookkeeping.SplitListStep | pbj/math/graph/train/TrainTrack.java:552-563 | The pass of splitList that splits edge i. |
| Bookkeeping.SplitFacts | pbj/math/graph/train/TrainTrack.java:552-563 | Splitting edge i after len letters: one more edge and vertex, still well-formed, and edge i keeps at least len letters. |
| Bookkeeping.SplitListRun | pbj/math/graph/train/TrainTrack.java:552-563 | splitList(fld, len, al) on a train track: Ok with the final len, the map and the pointers as `SplitList` says; the error of the split that failed. |
| Bookkeeping.SplitListMeans | pbj/math/graph/train/TrainTrack.java:552-563 | splitList from edge i is exactly the splits of its log made in order; the log names only flagged edges from i on, in increasing order; an edge the loop reaches is split exactly when it is flagged and its image is then longer than the running len; each split adds one edge and one vertex; an edge it does not split keeps its ends, and its image, like the fixed word, changes only by the splitting of the split edges' letters. |
| Bookkeeping.SplitListReplays | pbj/math/graph/train/TrainTrack.java:556-560 | The result of splitList is the splits of its log replayed in order: each edge split after the running len, len becoming that edge's new length, its backward pointers moved to the new edge. |
| Bookkeeping.Replay | pbj/math/graph/train/TrainTrack.java:558-560 | Replaying the splits of a log keeps a map valid and adds one edge and one vertex per split. |
| Bookkeeping.SplitLog | pbj/math/graph/train/TrainTrack.java:556-557 | The log of the edges splitList splits holds only edges from i on that are flagged, each at most once, in increasing order. |
| Bookkeeping.SplitLogTurns | pbj/math/graph/train/TrainTrack.java:556-557 | An edge k from i on that the loop reaches is split exactly when it is flagged and its image at that moment is longer than the len of that moment. |
| Bookkeeping.TurnHere | pbj/math/graph/train/TrainTrack.java:556-557 | At an edge reached before any split, it is split exactly when it is flagged and longer than len. |
| Bookkeeping.TurnShift | pbj/math/graph/train/TrainTrack.java:556-560 | The rule at a later edge carries over from the map after a split to the map before it. |
| Bookkeeping.ReplayCons | pbj/math/graph/train/TrainTrack.java:558-560 | Replaying a log that begins with e is splitting e after len and replaying the rest from e's new length. |
| Bookkeeping.ReplayFrame | pbj/math/graph/train/TrainTrack.java:558-559 | After the splits of a log the fixed word and every edge the log does not name keep their letters except that the split edges' letters are split; such an edge keeps its ends. |
| Bookkeeping.ReplayKeeps | pbj/math/graph/train/TrainTrack.java:558-559 | An edge the log does not name keeps its ends and its letters, split. |
| Bookkeeping.ReplayFix | pbj/math/graph/train/TrainTrack.java:558-559 | The fixed word after the splits of a log has the letters of the split edges split. |
| Bookkeeping.Visit | pbj/math/graph/train/TrainTrack.java:552-563 | Edge i in the loop of splitList: split when flagged and longer than len. |
| Bookkeeping.SplitAt | pbj/math/graph/train/TrainTrack.java:552-563 | One split of splitList: the backward pointers of ed moved to the new edge, ed split after len letters. |
| InvariantSubgraphs.Closure | pbj/math/graph/train/TrainTrack.java:280-290 | The smallest invariant subgraph containing ed, as flags: the edges lying in every one. |
| InvariantSubgraphs.Iterate | pbj/math/graph/train/TrainTrack.java:280-290 | iterate(subgr, ed): when ed is unmarked, mark it and walk the edges of its image. Marks are only added; every edge it marks has its whole image marked; and every edge it marks lies in any invariant subgraph containing ed. |
| InvariantSubgraphs.GenInvSub | pbj/math/graph/train/TrainTrack.java:292-299 | genInvSub(subgr, ed): the marks cleared, then the walk from ed. The marked edges form the smallest invariant subgraph containing ed. |
| Forests.Explored | pbj/math/graph/train/TrainTrack.java:301-312 | explore(val, ad, subvt, vt): nothing when val[vt] is set; otherwise each vertex i of subvt adjacent to vt, in order, adds its entry of ad to val[vt] and is explored in turn. The walk only sets entries that were zero, so it ends. |
| Forests.ExploredFrom | pbj/math/graph/train/TrainTrack.java:301-312 | The loop of explore over the vertices from i on. |
| Forests.ExploredFromNext | pbj/math/graph/train/TrainTrack.java:301-312 | The loop of explore past a neighbour: its count added to vt, then the walk from it. |
| Forests.ValenceAtLeast | pbj/math/graph/train/TrainTrack.java:301-312 | A valence is at least the count of one neighbour. |
| Forests.ValenceWitness | pbj/math/graph/train/TrainTrack.java:301-312 | A positive valence has a neighbour behind it. |
| Forests.SettledTrans | pbj/math/graph/train/TrainTrack.java:301-312 | Settled vertices stay settled through a later walk that keeps the set entries. |
| Forests.ExploreSpec | pbj/math/graph/train/TrainTrack.java:301-312 | explore from a vertex of subvt with a neighbour sets it, and every vertex it sets lies on subvt, holds its valence and has all its neighbours set: the walk marks a whole connected component and computes its valences. |
| Forests.ExploreFromSpec | pbj/math/graph/train/TrainTrack.java:301-312 | The loop of explore: vt ends with its valence and all its neighbours set. |
| Forests.Cleared | pbj/math/graph/train/TrainTrack.java:330-366 | The vertices of subvt left after those the walk set are removed. |
| Forests.RoundStep | pbj/math/graph/train/TrainTrack.java:330-366 | One round removes its first vertex and keeps the vertices left ready for the next. |
| Forests.RoundsNext | pbj/math/graph/train/TrainTrack.java:330-366 | Rounds, one round unfolded: a failing test ends it, a passing one leaves the rest. |
| Forests.RoundTotals | pbj/math/graph/train/TrainTrack.java:330-366 | What a walk adds to the two totals of isForest: the sum grows by the valences of the vertices it set, the count of nonzero entries by their number. |
| Forests.CorrectedByComponent | pbj/math/graph/train/TrainTrack.java:330-366 | The corrected rounds, started from the totals of the vector, test each component on its own. |
| Forests.CorrectedPassesAsWritten | pbj/math/graph/train/TrainTrack.java:330-366 | Whatever the corrected rounds accept, the rounds as written accept too: the totals of the components passed so far stay below twice their counts, so the running test is the weaker one. |
| Forests.SubVertices | pbj/math/graph/train/TrainTrack.java:330-366 | subvt of isForest: the vertices touched by a marked edge. |
| Forests.AdjacencyOf | pbj/math/graph/train/TrainTrack.java:330-366 | adj of isForest: the adjacency matrix of the marked edges, a loop counted twice. |
| Forests.ForestStart | pbj/math/graph/train/TrainTrack.java:330-366 | The input of the loop of isForest: a symmetric adjacency matrix, every touched vertex has a neighbour, and the valence vector is zero. |
| Forests.ForestMeans | pbj/math/graph/train/TrainTrack.java:330-366 | What the corrected test means: the marked edges pass exactly when every connected component they form has fewer edges than vertices; and whatever passes it passes the test as written. |
| Forests.CumulativeTestAcceptsLoop | pbj/math/graph/train/TrainTrack.java:330-366 | isForest as written accepts the edge and the loop of TreeAndLoop: the tree component gives totals 2 and 2, the loop then raises them to 4 and 3, and 4 < 6. The corrected test sees the loop's own totals 2 and 1 and rejects it. |
| Forests.Explore | pbj/math/graph/train/TrainTrack.java:301-312 | explore(val, ad, subvt, vt) on the vector and the matrix of the source. |
| Forests.Walk | pbj/math/graph/train/TrainTrack.java:301-312 | explore itself, on the matrix m and the marks sub. |
| Forests.Visit | pbj/math/graph/train/TrainTrack.java:301-312 | One pass of the loop of explore: a neighbour i of vt on subvt adds its count to val[vt] and is explored. |
| Forests.Descend | pbj/math/graph/train/TrainTrack.java:301-312 | The neighbour case of Visit: the count added to val[vt], then the walk from i. |
| Forests.FindConnectedComp | pbj/math/graph/train/TrainTrack.java:314-321 | findConnectedComp: explore from the first vertex left, which the caller makes sure exists. |
| Forests.NotEmpty | pbj/math/graph/train/TrainTrack.java:323-328 | notEmpty(v): whether some entry is marked. |
| Forests.IsForest | pbj/math/graph/train/TrainTrack.java:330-366 | isForest(s): the touched vertices and the adjacency matrix of the marked edges, then the rounds; as written, or with each component tested on its own. |
| Forests.Prepare | pbj/math/graph/train/TrainTrack.java:330-366 | The set-up of isForest: the adjacency matrix, the touched vertices and a zero vector. |
| Forests.Components | pbj/math/graph/train/TrainTrack.java:330-366 | The loop of isForest: a round per connected component until no vertex is left or one fails. |
| Forests.Round | pbj/math/graph/train/TrainTrack.java:330-366 | One round of isForest: the component of the first vertex left explored, its vertices taken off subvt, and the sum and the count of nonzero entries of the vector. |
| Forests.Touch | pbj/math/graph/train/TrainTrack.java:330-366 | subvt of isForest: the endpoints of the marked edges. |
| Forests.Clear | pbj/math/graph/train/TrainTrack.java:330-366 | The marks of isForest taken off the vertices the walk set. |
| Forests.Fill | pbj/math/graph/train/TrainTrack.java:330-366 | The adjacency matrix of isForest: each marked edge counted at (start, end) and at (end, start). |
| GateStructures.CopyTrack | pbj/math/graph/train/Gates.java:23-41 | A copy keeps a train track a train track. |
| GateStructures.MapdWithin | pbj/math/graph/GraphMap.java:1265-1280 | mapd takes a letter of an edge in use to a letter of an edge in use. |
| GateStructures.DartsBound | pbj/math/graph/train/Gates.java:43-60 | An edge has two ends, so a vertex has at most two darts per edge. |
| GateStructures.DartsAgree | pbj/math/graph/train/Gates.java:43-60 | Darts depend only on the ends of the edges counted. |
| GateStructures.Relabel | pbj/math/graph/train/Gates.java:125-142 | Gate g1 called g2 and g2 called g1. |
| GateStructures.Swapped | pbj/math/graph/train/Gates.java:125-142 | The gates of the first n darts renamed. |
| GateStructures.Exchanged | pbj/math/graph/train/Gates.java:125-142 | The table of infinitesimal edges with gates g1 and g2 exchanged among the first n. |
| GateStructures.ColumnsSwapped | pbj/math/graph/train/Gates.java:125-142 | The column half of exchange: in the first n rows, columns g1 and g2 trade places. |
| GateStructures.RowsSwapped | pbj/math/graph/train/Gates.java:125-142 | The row half of exchange: in the first n columns, rows g1 and g2 trade places. |
| GateStructures.HalvesExchange | pbj/math/graph/train/Gates.java:125-142 | The two halves of exchange, one after the other, rename both coordinates among the first n gates. |
| GateStructures.SwappedTwice | pbj/math/graph/train/Gates.java:125-142 | Renaming twice restores the gates. |
| GateStructures.ExchangedTwice | pbj/math/graph/train/Gates.java:125-142 | Exchanging twice restores the table. |
| GateStructures.ExchangedSymmetric | pbj/math/graph/train/Gates.java:125-142 | Exchanging keeps the infinitesimal edges undirected. |
| GateStructures.Degree | pbj/math/graph/train/Gates.java:148-176 | The number of flags among the first k. |
| GateStructures.EndsMono | pbj/math/graph/train/Gates.java:148-176 | Counting more gates never lowers the number with one infinitesimal edge. |
| GateStructures.ChainExtend | pbj/math/graph/train/Gates.java:148-176 | A path on the first j gates grows by gate j when gate j - 1 is joined to it. |
| GateStructures.ExchangedChain | pbj/math/graph/train/Gates.java:148-176 | Exchanging two gates at or after j keeps a path on the first j gates, and moves gate g2 to place g1. |
| GateStructures.Gates.Table | pbj/math/graph/train/Gates.java:118-123 | The infinitesimal edges at vertex v. |
| GateStructures.Gates.constructor | pbj/math/graph/train/Gates.java:23-41 | The constructor's allocation: a copy of the train track and cleared tables. |
| GateStructures.Gates.FindAdj | pbj/math/graph/train/Gates.java:43-60 | findAdj: for every vertex the forward letters of the edges starting there and the backward letters of those ending there, in edge order. |
| GateStructures.Gates.ListAt | pbj/math/graph/train/Gates.java:43-60 | The row of findAdj at vertex i. |
| GateStructures.Gates.AddDarts | pbj/math/graph/train/Gates.java:43-60 | One edge of the loop of findAdj: its start and then its end, when they are vertex i. |
| GateStructures.Gates.FindGates | pbj/math/graph/train/Gates.java:62-84 | findGates: each dart at a vertex in a gate; a later dart joins the gate of an earlier one while their turn is illegal. |
| GateStructures.Gates.GatesAt | pbj/math/graph/train/Gates.java:62-84 | The gates at vertex i. |
| GateStructures.Gates.Find | pbj/math/graph/train/Gates.java:62-84 | The position of dart a in the list at vt, searched along the whole row as the source does. |
| GateStructures.Gates.TurnVertex | pbj/math/graph/train/Gates.java:86-100 | The common vertex of a turn whose second letter is an edge in use. |
| GateStructures.Gates.InfEdgesRec | pbj/math/graph/train/Gates.java:86-100 | infedgesrec(flags, a, b): unless the turn (a, b) was seen, it is marked in both orders, the gates of a and b at their common vertex are joined by an infinitesimal edge, and the walk goes on with the turn's image under mapd. A letter missing from the list, or a mapd that fails, throws. |
| GateStructures.Gates.Step | pbj/math/graph/train/Gates.java:86-100 | One step of the walk: the gates of a and b joined at the vertex of the turn, then the turn's image under mapd. |
| GateStructures.Gates.MarkTurn | pbj/math/graph/train/Gates.java:86-100 | The turn (a, b) looked up in the table of visited turns and, when it is new, marked in both orders, which leaves fewer unvisited turns. |
| GateStructures.Gates.WalkableKept | pbj/math/graph/train/Gates.java:86-100 | Changes to the tables of turns and of infinitesimal edges leave the train track and its gates alone. |
| GateStructures.Gates.Images | pbj/math/graph/train/Gates.java:86-100 | The images of the darts a and b under mapd, or mapd's failure. |
| GateStructures.Gates.Connect | pbj/math/graph/train/Gates.java:86-100 | The gates of darts a and b at vt joined; a dart missing from the list throws. |
| GateStructures.Gates.Join | pbj/math/graph/train/Gates.java:86-100 | An infinitesimal edge between gates x and y at vt, in both directions. |
| GateStructures.Gates.FindInfEdges | pbj/math/graph/train/Gates.java:102-116 | findInfEdges: the walk from every turn taken by the image of an edge. |
| GateStructures.Gates.InfinitesimalEdges | pbj/math/graph/train/Gates.java:118-123 | infinitesimalEdges: the adjacency lists, the gates, then the infinitesimal edges. |
| GateStructures.Gates.SwapColumns | pbj/math/graph/train/Gates.java:125-142 | The column swap of exchange: for the first nogates[vt] rows, columns g1 and g2 exchanged. |
| GateStructures.Gates.SwapRows | pbj/math/graph/train/Gates.java:125-142 | The row swap of exchange: for the first nogates[vt] columns, rows g1 and g2 exchanged. |
| GateStructures.Gates.RenameGates | pbj/math/graph/train/Gates.java:125-142 | The gate renaming of exchange, over the darts at vt. |
| GateStructures.Gates.Exchange | pbj/math/graph/train/Gates.java:125-142 | exchange(vt, g1, g2): gates g1 and g2 at vt trade names, in the gate of every dart and in both coordinates of the table of infinitesimal edges. Other vertices are untouched, and exchanging twice restores everything (SwappedTwice, ExchangedTwice). |
| GateStructures.Gates.Degrees | pbj/math/graph/train/Gates.java:148-176 | The first loop of isPseudoAnosov at vertex i: every gate has one or two infinitesimal edges and at most two gates have one. When the test passes, pos is the last gate with one edge, or gate 0 when there is none. |
| GateStructures.Gates.Walk | pbj/math/graph/train/Gates.java:148-176 | The second loop of isPseudoAnosov at vertex i: starting from gate pos, each gate in turn is exchanged into place j, and the walk moves on to the first later gate joined to it. It succeeds when every gate is placed, so that the renumbered gates form the path 0, 1, ..., n - 1; otherwise the walk is stuck. |
| GateStructures.Gates.Advance | pbj/math/graph/train/Gates.java:148-176 | One round of the walk, seen from the path: it grows by gate j, and q is the next candidate. |
| GateStructures.Gates.Place | pbj/math/graph/train/Gates.java:148-176 | One round of the walk: gate p exchanged into place j, then the first later gate joined to gate j, or n when there is none. |
| GateStructures.Gates.NextJoined | pbj/math/graph/train/Gates.java:148-176 | The first gate after j joined to gate j at vertex i, or nogates[i] when there is none. |
| GateStructures.Gates.IsPseudoAnosov | pbj/math/graph/train/Gates.java:148-176 | isPseudoAnosov: at every vertex the gates pass the degree test and the walk renumbers them into a single path of infinitesimal edges, and the transition matrix is irreducible. With vertices but no edges the tables are empty and the first lookup is out of range. |
| GateStructures.Gates.CheckVertex | pbj/math/graph/train/Gates.java:148-176 | The two loops of isPseudoAnosov at vertex i: the degree test, then the walk. |
| GateStructures.Gates.TableSymmetric | pbj/math/graph/train/Gates.java:118-123 | Undirected infinitesimal edges make every vertex's table symmetric. |
| GateStructures.Gates.SymmetricUndirected | pbj/math/graph/train/Gates.java:118-123 | Symmetric tables at every vertex make the infinitesimal edges undirected. |
| GateStructures.Build | pbj/math/graph/train/Gates.java:23-41 | The gates of a train track: Java's constructor, which throws when the walk for infinitesimal edges does. |
| Reduction.CollapsedTrack | pbj/math/graph/train/TrainTrack.java:411-418 | Collapsing an edge keeps a map a track, with at least one vertex left. |
| Reduction.ChoppedTrack | pbj/math/graph/train/TrainTrack.java:411-418 | Chopping letters off the images keeps every letter an edge in use. |
| Reduction.VertexPassTrack | pbj/math/graph/train/TrainTrack.java:411-418 | The vertex passes of tightenVertex keep a map a track. |
| Reduction.VertexChopTrack | pbj/math/graph/train/TrainTrack.java:411-418 | The rest of the vertex passes after a chop at v. |
| Reduction.CollapseEmptyTrack | pbj/math/graph/train/TrainTrack.java:411-418 | The collapses of empty images keep a map a track. |
| Reduction.VertexLoopTrack | pbj/math/graph/train/TrainTrack.java:411-418 | The repeated corrected tightenVertex keeps a map a track. |
| Reduction.TightenPlusTrack | pbj/math/graph/train/TrainTrack.java:411-418 | tightenPlus keeps a map a track and adds no edge. |
| Reduction.V1Track | pbj/math/graph/train/TrainTrack.java:221-233 | v1Homotopy keeps a map a track. |
| Reduction.V2Track | pbj/math/graph/train/TrainTrack.java:249-278 | v2Homotopy keeps a map a track. |
| Reduction.JoinTrack | pbj/math/graph/train/TrainTrack.java:249-278 | A successful join of two distinct edges leaves at least one vertex. |
| Reduction.FirstForest | pbj/math/graph/train/TrainTrack.java:368-402 | The first edge from i on whose invariant subgraph passes the forest test. |
| Reduction.CollapseMarkedSpec | pbj/math/graph/train/TrainTrack.java:368-402 | Collapsing the marked edges removes one edge per mark and keeps the map a track. |
| Reduction.FirstForestMeans | pbj/math/graph/train/TrainTrack.java:368-402 | The search finds the first edge whose invariant subgraph is a forest. |
| Reduction.CollapseInvForestSpec | pbj/math/graph/train/TrainTrack.java:368-402 | collapseInvForest fails exactly on a map without edges. When it reports a forest, it has collapsed an invariant subgraph in which every component is a tree, so the map is a track with fewer edges; when it reports none, the map is unchanged and no invariant subgraph generated by one edge is a forest. |
| Reduction.TrackImagesWithin | pbj/math/graph/train/TrainTrack.java:368-402 | An edge in use has its letters below the edge count: the closure walk stays inside the map. |
| Reduction.CollapseInvForestRun | pbj/math/graph/train/TrainTrack.java:368-402 | collapseInvForest on a train track. |
| Reduction.Search | pbj/math/graph/train/TrainTrack.java:368-402 | The do-while loop of collapseInvForest: the subgraphs generated by edge 0, 1, ... until one is a forest. |
| Reduction.Collapse | pbj/math/graph/train/TrainTrack.java:368-402 | The loop of collapseInvForest that collapses the marked edges, from the last one down. |
| Reduction.V1LoopSpec | pbj/math/graph/train/TrainTrack.java:700-706 | After the valence-one loop no edge ends at a vertex of valence one, and no edge was added. |
| Reduction.ForestLoopSpec | pbj/math/graph/train/TrainTrack.java:368-402 | The forest loop fails only on running out of edges; otherwise it leaves a track without an invariant forest. |
| Reduction.CleanRoundsSpec | pbj/math/graph/train/TrainTrack.java:700-706 | What cleanItUp promises: it fails only when a map runs out of edges, and otherwise leaves a train track with no more edges than before, in which no edge that is not a loop ends at a vertex of valence two and no invariant subgraph generated by one edge is a forest. |
| Reduction.CleanItUpSpec | pbj/math/graph/train/TrainTrack.java:700-706 | cleanItUp on a track: see CleanRoundsSpec. |
| Reduction.V1Run | pbj/math/graph/train/TrainTrack.java:221-233 | v1Homotopy repeated while it succeeds, on a train track. |
| Reduction.ForestRun | pbj/math/graph/train/TrainTrack.java:368-402 | collapseInvForest repeated while it succeeds, each success followed by tightenPlus, on a train track. |
| Reduction.CleanItUpRun | pbj/math/graph/train/TrainTrack.java:700-706 | cleanItUp on a train track, isBigger choosing the direction of each join. |
| Reduction.SplitTrack | pbj/math/graph/train/TrainTrack.java:713-778 | Splitting an edge of a track gives a track. |
| Reduction.SwapTrack | pbj/math/graph/train/TrainTrack.java:713-778 | Exchanging two vertices of a track gives a track. |
| Reduction.Improve | pbj/math/graph/train/TrainTrack.java:713-778 | One round of the loop of trainTrackMap at the illegal turn (a, b): edge a split after position b, turned round, its new start renumbered 0, then split and folded by the oracle and cleaned up. false when one of them throws. |
| Reduction.TurnRound | pbj/math/graph/train/TrainTrack.java:713-778 | The first half of a round: edge a split after position b, turned round, and its new start renumbered 0; false when the split throws. The map stays a train track. |
| Reduction.TrainTrackMap | pbj/math/graph/train/TrainTrack.java:713-778 | trainTrackMap: clean up, then while there is an illegal turn and the transition matrix is irreducible, improve the map at the turn. An exception in the loop is caught and answered false (caught tells the proof so); at the end a map that fails isGoodMap is answered false, and otherwise the answer says whether no illegal turn is left. fuel bounds the number of rounds. |
| Reduction.Rounds | pbj/math/graph/train/TrainTrack.java:713-778 | The loop of trainTrackMap: while an illegal turn is left and the transition matrix is irreducible, improve the map at the turn. flag says whether an illegal turn is left; early is the answer when the loop ends otherwise (out of fuel, or improve raised an exception, which caught records). |
| DehnTwists.NormalChar | pbj/math/graph/DehnTwist.java:559-561 | The character normalize writes for c: brackets for parentheses, '~' for '-'. |
| DehnTwists.Normalize | pbj/math/graph/DehnTwist.java:559-561 | normalize: '(' becomes '[', ')' becomes ']', '-' becomes '~'; nothing else changes. |
| DehnTwists.NormalizeIdempotent | pbj/math/graph/DehnTwist.java:559-561 | Normalizing twice is normalizing once. |
| DehnTwists.Xor | pbj/math/graph/DehnTwist.java:63-67 | xor of two booleans. |
| DehnTwists.SeenNext | pbj/math/graph/DehnTwist.java:71-100 | One more turn seen. |
| DehnTwists.CellsNameTurns | pbj/math/graph/DehnTwist.java:71-100 | On letters of the n edges, a cell names its turn: two turns share a cell exactly when they are equal. |
| DehnTwists.CellsFit | pbj/math/graph/DehnTwist.java:71-100 | Cells of letters of the n edges lie in the table. |
| DehnTwists.CheckFromMeans | pbj/math/graph/DehnTwist.java:71-100 | The verdict passes exactly on admissible twists, and a failure names an offending turn. |
| DehnTwists.CheckAdmissible | pbj/math/graph/DehnTwist.java:71-100 | checkTwist passes exactly on admissible twists, and otherwise names a turn past the table or a repeated turn. |
| DehnTwists.CheckTwist | pbj/math/graph/DehnTwist.java:71-100 | checkTwist(n, tw): every cyclic turn of tw is marked, in both orders, in a 2n x 2n table; a turn found marked already throws with its labels, and a letter past the table throws an index error. |
| DehnTwists.Mark | pbj/math/graph/DehnTwist.java:71-100 | A turn marked in both orders. |
| DehnTwists.First | pbj/math/graph/DehnTwist.java:27-61 | The first place of c in bd. |
| DehnTwists.Fwd | pbj/math/graph/DehnTwist.java:27-61 | The forward cyclic distance from place i to place j among n places. |
| DehnTwists.Step | pbj/math/graph/DehnTwist.java:27-61 | The place after i in direction d among n places. |
| DehnTwists.StepCloser | pbj/math/graph/DehnTwist.java:27-61 | A step towards j, from a place other than j, brings the walk one place closer. |
| DehnTwists.ModOnce | pbj/math/graph/DehnTwist.java:27-61 | Java's remainders on the non-negative sums the walk uses: up to 2n, x % n takes off n at most twice. |
| DehnTwists.JavaArithmetic | pbj/math/graph/DehnTwist.java:27-61 | (j - i + n) % n is the forward distance, and (i + d + n) % n the next place. |
| DehnTwists.ArcFrom | pbj/math/graph/DehnTwist.java:27-61 | The letters of bd met walking from place i in direction d up to (not including) place j. |
| DehnTwists.ForwardArc | pbj/math/graph/DehnTwist.java:27-61 | Walking forwards, the arc is the cyclic segment of bd from i. |
| DehnTwists.SpanOf | pbj/math/graph/DehnTwist.java:27-61 | The shorter way round the boundary from the dart of start to the dart of end: forwards when the forward distance is no longer than the backward one; an arc starts one place on from a forward start letter (going forwards) or one place back from an inverse one (going backwards), and likewise for the end. |
| DehnTwists.Ends | pbj/math/graph/DehnTwist.java:27-61 | The ends of the arc, its length and its direction, for darts at places i and j. |
| DehnTwists.SpanShorter | pbj/math/graph/DehnTwist.java:27-61 | An arc never goes all the way round: it crosses fewer letters than the boundary has. |
| DehnTwists.Locate | pbj/math/graph/DehnTwist.java:27-61 | The first place of c in bd, scanning from the start; the scan throws when c does not occur. |
| DehnTwists.FindIntersections | pbj/math/graph/DehnTwist.java:27-61 | findintersections(bd, start, end, res): the span of the turn, throwing when a letter is not on the boundary. |
| DehnTwists.Orient | pbj/math/graph/DehnTwist.java:27-61 | The choice of direction in findintersections, with Java's remainders. |
| DehnTwists.Walk | pbj/math/graph/DehnTwist.java:27-61 | The letters of bd met stepping cyclically by d from i until j is reached. |
| DehnTwists.Rotation | pbj/math/graph/DehnTwist.java:103-158 | The cyclic conjugate of tw starting at letter i. |
| DehnTwists.RotationOf | pbj/math/graph/DehnTwist.java:103-158 | The rotation of the twist word starting at position i. |
| DehnTwists.Prev | pbj/math/graph/DehnTwist.java:103-158 | The place before i on a cyclic word of length n. |
| DehnTwists.RotationTurn | pbj/math/graph/DehnTwist.java:103-158 | The inverse of the conjugate at i starts with the inverse of the letter before i: the arc of conjugate i belongs to the turn before it. |
| DehnTwists.CrossingOf | pbj/math/graph/DehnTwist.java:103-158 | The crossing of conjugate i, or None when a letter of its turn is not on the boundary. |
| DehnTwists.Crossings | pbj/math/graph/DehnTwist.java:103-158 | The crossings of all conjugates, in the order of tw. |
| DehnTwists.FindCrossings | pbj/math/graph/DehnTwist.java:103-158 | The first loop of twist: the conjugates, their inverses and their arcs, throwing when a letter is not on the boundary. |
| DehnTwists.Lengths | pbj/math/graph/DehnTwist.java:103-158 | The arc lengths l[] of the crossings. |
| DehnTwists.SwapIf | pbj/math/graph/DehnTwist.java:103-158 | The entries ind[i] and ind[j] exchanged when l puts them out of order. |
| DehnTwists.Sweep | pbj/math/graph/DehnTwist.java:103-158 | The inner loop from j on: ind[i] compared with ind[j], ind[j + 1], ... |
| DehnTwists.Sweeps | pbj/math/graph/DehnTwist.java:103-158 | The outer loop from i on. |
| DehnTwists.Range | pbj/math/graph/DehnTwist.java:103-158 | The places 0, 1, ..., n - 1. |
| DehnTwists.ExchangeSort | pbj/math/graph/DehnTwist.java:103-158 | The order in which twist adds the crossings: ind[] after the exchange sort. |
| DehnTwists.SwapIfKeeps | pbj/math/graph/DehnTwist.java:103-158 | One comparison of the inner loop keeps the entries. |
| DehnTwists.SwapIfStep | pbj/math/graph/DehnTwist.java:103-158 | One comparison of the inner loop keeps the settled prefix and the minimum found so far. |
| DehnTwists.SweepKeeps | pbj/math/graph/DehnTwist.java:103-158 | A sweep keeps the entries. |
| DehnTwists.SweepMin | pbj/math/graph/DehnTwist.java:103-158 | A sweep keeps the settled prefix, and leaves at i an entry no greater than any after it. |
| DehnTwists.SweepMinStep | pbj/math/graph/DehnTwist.java:103-158 | After one comparison, the rest of the sweep. |
| DehnTwists.MinSettles | pbj/math/graph/DehnTwist.java:103-158 | A settled prefix followed by a minimum of the rest is one entry longer. |
| DehnTwists.SettledSorted | pbj/math/graph/DehnTwist.java:103-158 | A prefix settled up to the last entry is the whole sequence sorted. |
| DehnTwists.SweepsSort | pbj/math/graph/DehnTwist.java:103-158 | The outer loop from a settled prefix sorts the whole of ind. |
| DehnTwists.SweepsSortStep | pbj/math/graph/DehnTwist.java:103-158 | One pass of the outer loop settles one more entry; the rest of the loop sorts what remains. |
| DehnTwists.SweepsKeep | pbj/math/graph/DehnTwist.java:103-158 | The outer loop keeps the entries. |
| DehnTwists.ExchangeSortSorts | pbj/math/graph/DehnTwist.java:103-158 | ind[] after the sort lists every crossing once, in order of arc length. |
| DehnTwists.SortByLength | pbj/math/graph/DehnTwist.java:103-158 | The nested loops of the sort on ind[], which starts as 0, 1, ..., tlen - 1. |
| DehnTwists.SweepArray | pbj/math/graph/DehnTwist.java:103-158 | The inner pass of the selection sort: every later index whose key is smaller is exchanged into place i. |
| DehnTwists.SwapStep | pbj/math/graph/DehnTwist.java:103-158 | One comparison of the inner loop: a[i] and a[j] exchanged when l puts them out of order. |
| DehnTwists.Bend | pbj/math/graph/DehnTwist.java:103-158 | The image of an edge after the twist crosses it at letter c of an arc: an inverse letter gets a loop appended, a forward one a loop prepended; the loop is the conjugate or its inverse according to the direction of the arc and the sign. |
| DehnTwists.BendFrom | pbj/math/graph/DehnTwist.java:103-158 | The images after the letters of the arc of x from j on; getIm throws on a letter past the edges in use. |
| DehnTwists.BendAll | pbj/math/graph/DehnTwist.java:103-158 | The images after the crossings xs from i on, in order. |
| DehnTwists.Ordered | pbj/math/graph/DehnTwist.java:103-158 | The crossings in the order of ind. |
| DehnTwists.BendFromOk | pbj/math/graph/DehnTwist.java:103-158 | One arc: it succeeds exactly when its letters are edges in use. |
| DehnTwists.BendOne | pbj/math/graph/DehnTwist.java:103-158 | The images after the letter at j of the arc of x, when it is an edge in use. |
| DehnTwists.BendFromGrows | pbj/math/graph/DehnTwist.java:103-158 | The lengths after a successful pass over the arc of x: a loop more per crossing. |
| DehnTwists.BendAllOk | pbj/math/graph/DehnTwist.java:103-158 | The whole twist before tightening succeeds exactly when every arc crosses only edges in use. |
| DehnTwists.BendAllGrows | pbj/math/graph/DehnTwist.java:103-158 | After the whole twist before tightening, the image of each edge has grown by one loop of length m for every crossing of that edge (so an edge no arc crosses keeps its length). |
| DehnTwists.BendAllKeeps | pbj/math/graph/DehnTwist.java:103-158 | An edge no arc crosses keeps its image. |
| DehnTwists.BendFromKeeps | pbj/math/graph/DehnTwist.java:103-158 | An edge the arc does not cross keeps its image. |
| DehnTwists.BendArc | pbj/math/graph/DehnTwist.java:103-158 | The inner loop of the image computation: the letters of one arc. |
| DehnTwists.BendImages | pbj/math/graph/DehnTwist.java:103-158 | The outer loop of the image computation: the arcs in the order of ind. |
| DehnTwists.CrossingLoops | pbj/math/graph/DehnTwist.java:103-158 | The crossings of tw all carry loops of the length of tw. |
| DehnTwists.CrossedOrdered | pbj/math/graph/DehnTwist.java:103-158 | Reordering the crossings does not change how often an edge is crossed. |
| DehnTwists.CrossedInOrder | pbj/math/graph/DehnTwist.java:103-158 | The count of crossings from i on is the sum over the positions from i on. |
| DehnTwists.CrossedPermutation | pbj/math/graph/DehnTwist.java:103-158 | The count of crossings from i on, summed through the positions that ind lists. |
| DehnTwists.TwistOk | pbj/math/graph/DehnTwist.java:103-158 | twist succeeds exactly when the twist is admissible, every turn is on the boundary and the arcs cross edges in use. (TwistGrows and TwistKeeps say what it then does.) |
| DehnTwists.TwistBent | pbj/math/graph/DehnTwist.java:103-158 | A successful twist is the tightening of the bent images. |
| DehnTwists.TwistGrows | pbj/math/graph/DehnTwist.java:103-158 | Bending in the arcs makes the image of e grow by the length of tw for each arc that crosses e. |
| DehnTwists.TwistKeeps | pbj/math/graph/DehnTwist.java:103-158 | An edge that no arc crosses only gets tightened. |
| DehnTwists.OrderedArcs | pbj/math/graph/DehnTwist.java:103-158 | Reordering the crossings by a permutation keeps the question whether all arcs cross edges in use. |
| DehnTwists.Twist | pbj/math/graph/DehnTwist.java:103-158 | twist(g, bd, tw, inv): checkTwist, the arcs of the conjugates, the exchange sort by arc length, the loops added to the images in that order, and tighten. A throw leaves the images partly changed; the callers then discard the map. |
| DehnTwists.ApplyCrossings | pbj/math/graph/DehnTwist.java:103-158 | The sort, the images and tighten: the second half of twist. |
| DehnTwists.SignEnd | pbj/math/graph/DehnTwist.java:180-360 | The first place from i on that is not the sign '~', or the end. |
| DehnTwists.KetFrom | pbj/math/graph/DehnTwist.java:180-360 | The first ']' from i on, or the end. |
| DehnTwists.ItemAt | pbj/math/graph/DehnTwist.java:180-360 | The twist starting at place i: signs '~' (an odd number of them inverts it), then either a bracketed loop or a single label character. Running off the end, before the loop or before its ']', is an index error. |
| DehnTwists.Signs | pbj/math/graph/DehnTwist.java:180-360 | n signs '~'. |
| DehnTwists.ItemOfBracketed | pbj/math/graph/DehnTwist.java:180-360 | A written twist reads back: n signs and a bracketed loop without ']' give the loop, inverted when n is odd. |
| DehnTwists.ItemOfLetter | pbj/math/graph/DehnTwist.java:180-360 | A written single-letter twist reads back: n signs and a character other than '~' and '['. |
| DehnTwists.SignEndIs | pbj/math/graph/DehnTwist.java:180-360 | SignEnd stops at the first place that is not a sign. |
| DehnTwists.KetFromIs | pbj/math/graph/DehnTwist.java:180-360 | KetFrom stops at the first ']'. |
| DehnTwists.ReadItem | pbj/math/graph/DehnTwist.java:180-360 | The scan of one twist: each leading inverse sign flips the direction, then the bracketed loop up to ']' or the single character. |
| DehnTwists.ReadSigns | pbj/math/graph/DehnTwist.java:180-360 | The leading inverse signs of a twist: their number's parity gives the direction. |
| DehnTwists.ReadToKet | pbj/math/graph/DehnTwist.java:180-360 | The scan to the closing bracket of a twist. |
| DehnTwists.Marked | pbj/math/graph/DehnTwist.java:180-360 | A loop not in the marking yet is added, labelled C followed by its number. |
| DehnTwists.LoopOf | pbj/math/graph/DehnTwist.java:180-360 | The loop of a twist's text: read, then freely and cyclically reduced. |
| DehnTwists.ApplyTwist | pbj/math/graph/DehnTwist.java:180-360 | One twist applied to g: the loop must be a loop of g's graph; the twist of the rose along it must pass checkTwist and isGoodMap; then g is composed with it. |
| DehnTwists.TwistCompose | pbj/math/graph/DehnTwist.java:180-360 | The rose twisted along tw, checked with isGoodMap, composed after g. |
| DehnTwists.TwistsFrom | pbj/math/graph/DehnTwist.java:180-360 | The twists of t from place i on applied to g in turn, collecting the marking. |
| DehnTwists.BoundaryTwists | pbj/math/graph/DehnTwist.java:180-360 | twist(bd, twists, lab): the rose of the boundary word bd, labelled lab, composed with the twist along each loop of the normalized sequence twists, marked with the distinct loops, and checked with isGoodMap. |
| DehnTwists.Eliminate | pbj/math/graph/DehnTwist.java:164-178 | eliminateGenerators(g, bd): the relations of the boundary word other than the first (the one that reads the fixed word) drive the Tietze transformations of g; with a single relation g is left as it is. |
| DehnTwists.EliminateGenerators | pbj/math/graph/DehnTwist.java:164-178 | eliminateGenerators: the relations of bd, all but the first handed to tietzeTrafos. |
| DehnTwists.RoseInverses | pbj/math/graph/DehnTwist.java:180-360 | A boundary word the rose accepts has the inverse of each of its letters. |
| DehnTwists.BoundaryTwist | pbj/math/graph/DehnTwist.java:180-372 | twist(bd, twists, lab, false): the public twist with respect to a boundary word. |
| DehnTwists.TwistAt | pbj/math/graph/DehnTwist.java:180-360 | One pass of twist's loop: read the loop at place i, compose g with its twist and mark it. |
| DehnTwists.InMarking | pbj/math/graph/DehnTwist.java:180-360 | Whether the twisted word equals one of the loops of the marking. |
| DehnTwists.ApplyOne | pbj/math/graph/DehnTwist.java:180-360 | One twist of the loop: a fresh rose, twisted along tw, checked, and composed after g. |
| FixedTwists.Dot | pbj/math/graph/DehnTwist.java:180-360 | indexOf(DOT): the first place of a dot, or \|s\| when there is none. |
| FixedTwists.NoDot | pbj/math/graph/DehnTwist.java:180-360 | No label of a letter holds a dot. |
| FixedTwists.SplitFixedText | pbj/math/graph/DehnTwist.java:180-360 | Printing a fixed word and a tree with a dot between them and splitting the text gives them back. |
| FixedTwists.SetupOf | pbj/math/graph/DehnTwist.java:180-360 | Reading fx, identityFromFixed of the fixed word, and the tree: the one after the dot, or auto, the tree spanningTree finds, when there is none. evaluateTree reads the ends of the tree edges; a rose with an edge end the numbering never reached fails here. |
| FixedTwists.Blank | pbj/math/graph/DehnTwist.java:180-360 | The flags of a fresh boolean array. |
| FixedTwists.TreeCheckCounts | pbj/math/graph/DehnTwist.java:180-360 | A tree that passes names vertices - 1 distinct edges, and exactly those are flagged. |
| FixedTwists.TableOf | pbj/math/graph/DehnTwist.java:180-360 | The contents of an array of paths, row by row. |
| FixedTwists.SpannedTable | pbj/math/graph/DehnTwist.java:180-360 | What evaluateTree leaves in its array makes a table of tree paths. |
| FixedTwists.Off | pbj/math/graph/DehnTwist.java:180-360 | w with every letter of an edge flagged below n deleted. |
| FixedTwists.OffNext | pbj/math/graph/DehnTwist.java:180-360 | Removing flagged edge n from w with the flagged edges below n deleted deletes those up to n. |
| FixedTwists.PrunedOff | pbj/math/graph/DehnTwist.java:180-360 | The removeEdge loop deletes exactly the letters of the flagged edges. |
| FixedTwists.OffOfTree | pbj/math/graph/DehnTwist.java:180-360 | A word of the tree loses every letter. |
| FixedTwists.PrunedOffTree | pbj/math/graph/DehnTwist.java:180-360 | A pruned word keeps the letters off the tree, in their order, and no tree letter. |
| FixedTwists.Entry | pbj/math/graph/DehnTwist.java:180-360 | path[a][b], or the throw of an index outside the table. |
| FixedTwists.Filled | pbj/math/graph/DehnTwist.java:180-360 | The images of the edges from k on: tree edges keep theirs, the others are filled in. |
| FixedTwists.FilledMap | pbj/math/graph/DehnTwist.java:180-360 | The map with its images filled in, then tightened. |
| FixedTwists.FillFromStarts | pbj/math/graph/DehnTwist.java:180-360 | A successful fill starts with a vertex of the table. |
| FixedTwists.FillFromRuns | pbj/math/graph/DehnTwist.java:180-360 | Filling in is what makes an image continuous: the filled word runs from a to e in the graph. |
| FixedTwists.FillFromOff | pbj/math/graph/DehnTwist.java:180-360 | Filling in adds tree letters only: deleting them gives back the letters of im off the tree. |
| FixedTwists.FillImageRuns | pbj/math/graph/DehnTwist.java:180-360 | A filled image runs from the start of its edge to its end, and keeps its letters off the tree. |
| FixedTwists.FilledAt | pbj/math/graph/DehnTwist.java:180-360 | Slot j of the filled images from k on: the old image on the tree, the filled one off it. |
| FixedTwists.EndOfSameEnds | pbj/math/graph/DehnTwist.java:180-360 | A path runs the same in two graphs with the same ends and capacity. |
| FixedTwists.TreePathsSameEnds | pbj/math/graph/DehnTwist.java:180-360 | Tree paths of one graph are tree paths of any graph with the same ends. |
| FixedTwists.FilledMapContinuous | pbj/math/graph/DehnTwist.java:180-360 | The point of the filling: in the filled and tightened map every image of an edge off the tree runs from the start of the edge to its end. |
| FixedTwists.FixedTwisted | pbj/math/graph/DehnTwist.java:180-360 | The map of one twist along tw: the rose twisted along tw with the tree edges deleted, with respect to the reduced boundary word, filled in and tightened, and checked with isGoodMap. |
| FixedTwists.FixedCompose | pbj/math/graph/DehnTwist.java:180-360 | One twist along tw composed after g. |
| FixedTwists.TwistedTreePaths | pbj/math/graph/DehnTwist.java:180-360 | The twisted rose has the graph of the rose, so the tree paths still run along it. |
| FixedTwists.FixedTwistContinuous | pbj/math/graph/DehnTwist.java:180-360 | Every image of an edge off the tree in the twisted, filled map that one twist composes after g runs from the start of its edge to its end. |
| FixedTwists.ApplyFixed | pbj/math/graph/DehnTwist.java:180-360 | One twist applied to g: the loop must be a loop of g's graph. |
| FixedTwists.TwistsFixedFrom | pbj/math/graph/DehnTwist.java:180-360 | The twists of t from place i on applied to g in turn, collecting the marking. |
| FixedTwists.FixedTwistsWith | pbj/math/graph/DehnTwist.java:180-360 | After the tree: the fixed word with the tree edges deleted, dualized; the rose labelled lab composed with the twist along each loop of the normalized twists; the marking; and the final isGoodMap. |
| FixedTwists.MarkedTwists | pbj/math/graph/DehnTwist.java:180-360 | The rose labelled lab composed with the twist along each loop of the normalized twists, then the marking and the final isGoodMap. |
| FixedTwists.PruneWord | pbj/math/graph/DehnTwist.java:180-360 | The loop of removeEdge calls over the flagged edges. |
| FixedTwists.Lookup | pbj/math/graph/DehnTwist.java:180-360 | path[a][b], or the throw of an index outside the array. |
| FixedTwists.FillImageOf | pbj/math/graph/DehnTwist.java:180-360 | The new image of edge k of gg, whose ends and image of k are those of s: the tree path from the start of k, then each letter followed by the tree path to the start of the next, and the tree path to the end of k. |
| FixedTwists.FillFromStep | pbj/math/graph/DehnTwist.java:180-360 | One letter of a fill: the tree path to where im[l] starts, the letter, and the fill of the rest. |
| FixedTwists.FillRest | pbj/math/graph/DehnTwist.java:180-360 | The loop over the letters of im after the first, acc holding the fill so far. |
| FixedTwists.FillTree | pbj/math/graph/DehnTwist.java:180-360 | The loop over the edges of gg: every edge off the tree gets its filled image (setImage). |
| FixedTwists.FillEdge | pbj/math/graph/DehnTwist.java:180-360 | One pass of the loop of FillTree: edge k keeps its image on the tree and is filled in off it. |
| FixedTwists.FilledStep | pbj/math/graph/DehnTwist.java:180-360 | One edge of the fill: its image kept or filled, then the rest. |
| FixedTwists.FixedApplyOne | pbj/math/graph/DehnTwist.java:180-360 | One twist of the loop: a fresh rose of the fixed word, twisted along tw with the tree edges deleted, filled in, tightened and checked, then composed after g. |
| FixedTwists.TwistFilled | pbj/math/graph/DehnTwist.java:180-360 | The map of one twist: a fresh rose, twisted, filled in, tightened and checked with isGoodMap. |
| FixedTwists.FixedTwistAt | pbj/math/graph/DehnTwist.java:180-360 | One pass of twist's loop: read the loop at place i, compose g with its twist and mark it. |
| FixedTwists.EndsAssigned | pbj/math/graph/DehnTwist.java:180-360 | Every edge end of g names a vertex, so evaluateTree can index its path table with it. |
| FixedTwists.Prepare | pbj/math/graph/DehnTwist.java:180-360 | The start of twist(fx, twists, lab, true): the fixed word and the tree read, and the rose of the fixed word. |
| FixedTwists.TwistWithFixedWord | pbj/math/graph/DehnTwist.java:382-384 | twistWithFixedWord(fx, twists, lab): twist(fx, twists, lab, true), with auto the tree spanningTree finds. A tree of the right size is evaluated exactly when its edges connect the rose; otherwise the result is the bad-spanning-tree failure. |
| FixedTwists.PlantTree | pbj/math/graph/DehnTwist.java:180-360 | The spanning tree of twist: fresh flags and a fresh table of paths, filled in by evaluateTree on the rose of the fixed word. When the tree passes both counts, it passes exactly when its edges connect the rose. |
| FixedTwists.RunTwists | pbj/math/graph/DehnTwist.java:180-360 | The loop of twist over the twists, the marking and the final isGoodMap, on the rose g. |
| StandardGenerators.StdBoundary | pbj/math/graph/DehnTwist.java:394-479 | The boundary word of the first n handles. |
| StandardGenerators.DigitsEnd | pbj/math/graph/DehnTwist.java:394-479 | The end of the run of characters up to '9' that starts at i. |
| StandardGenerators.CurveAt | pbj/math/graph/DehnTwist.java:394-479 | The curve named at the head of s, and the length of its name: the family from the low five bits of the first character less one, backwards when it is below 'a', then the handle from the characters up to '9' after it. |
| StandardGenerators.CurvesOf | pbj/math/graph/DehnTwist.java:394-479 | All the curves the twist text names, or the first complaint. |
| StandardGenerators.MarkLoops | pbj/math/graph/DehnTwist.java:394-479 | The loops of the marking. |
| StandardGenerators.StandardTwists | pbj/math/graph/DehnTwist.java:394-479 | stdGenerators(genus, twists, lab): a negative genus fails with the negative array size of the tables tw and flag (lines 396-397), genus 0 with "genus too small"; otherwise a valid map that is marked, with one label per marked loop. |
| StandardGenerators.StdGenerators | pbj/math/graph/DehnTwist.java:394-479 | The map built in place is the state StandardTwists computes, and it fails exactly when StandardTwists does, with the same message (the negative array size first, then "genus too small"). |
| StandardGenerators.ReadTwists | pbj/math/graph/DehnTwist.java:394-479 | The loop over the twist text: the twist sequence of the curves it names and the loops and labels of the marking, or the first complaint. |
| StandardGenerators.TakeCurve | pbj/math/graph/DehnTwist.java:394-479 | The twist sequence of the curve read at i appended, and the curve marked. |
| StandardGenerators.MarkCurve | pbj/math/graph/DehnTwist.java:394-479 | The flag of the curve checked and set, and the curve added to the marking when it is new. |
| StandardGenerators.CurvePiece | pbj/math/graph/DehnTwist.java:394-479 | The twist sequence of one curve: tt += (INV) BRA, pathToString(tw[j][k]), KET. |
| StandardGenerators.UsesSnoc | pbj/math/graph/DehnTwist.java:394-479 | Uses after one more curve: the pair appended when it is new. |
| StandardGenerators.StdLoops | pbj/math/graph/DehnTwist.java:394-479 | The loops tw[j][i] of every family and handle, and the boundary word. |
| StandardGenerators.FillHandle | pbj/math/graph/DehnTwist.java:394-479 | The loops of the four families at handle i. |
| StandardGenerators.ReadCurve | pbj/math/graph/DehnTwist.java:394-479 | One step of the loop over the twist text: the curve named at position i and the position after its name. |
| StandardGenerators.DigitsFrom | pbj/math/graph/DehnTwist.java:394-479 | The end of the run of characters no greater than '9' that starts at i. |
| StandardGenerators.DigitsEndShift | pbj/math/graph/DehnTwist.java:394-479 | The scan on a suffix ends where the scan on the whole text does. |
| StandardGenerators.HandleLoops | pbj/math/graph/DehnTwist.java:394-479 | tw[0][i] .. tw[3][i], built letter by letter. |
| StandardGenerators.FamilyB | pbj/math/graph/DehnTwist.java:394-479 | tw[1][i]: b_i, then a_j B_j A_j b_j for every later handle j. |
| StandardGenerators.LetterInRange | pbj/math/graph/DehnTwist.java:394-479 | Within 15 bits, indexToChar gives the plain letter. |
| StandardGenerators.StdBoundaryDistinct | pbj/math/graph/DehnTwist.java:394-479 | The boundary word of n handles uses the edges below 2n, each letter once. |
| StandardGenerators.StdBoundaryInverses | pbj/math/graph/DehnTwist.java:394-479 | Every letter of the boundary word has its inverse in it. |
| StandardGenerators.StdBoundaryReduced | pbj/math/graph/DehnTwist.java:394-479 | The boundary word is freely reduced and runs from a0 to B_(n-1). |
| StandardGenerators.HandleInRange | pbj/math/graph/DehnTwist.java:394-479 | The letters of handle h, within 15 bits. |
| StandardGenerators.StdBoundaryStrict | pbj/math/graph/DehnTwist.java:394-479 | Up to genus 4095 the boundary word is a strict boundary word, the rose of the identity accepts it, and its printed form reads back as the word itself. |
| StandardGenerators.DigitsEndAt | pbj/math/graph/DehnTwist.java:394-479 | The scan stops at the first character above '9' after a run of digits. |
| StandardGenerators.CurvesRoundTrip | pbj/math/graph/DehnTwist.java:394-479 | Reading the names of curves in range gives the curves back. |
| StandardGenerators.NameRead | pbj/math/graph/DehnTwist.java:394-479 | A curve's name followed by the next name (or nothing) reads as that curve. |
| StandardGenerators.UsesDistinct | pbj/math/graph/DehnTwist.java:394-479 | The pairs of the marking are distinct, and they are exactly the (family, handle) pairs of the curves named. |
| StandardGenerators.CurveLabelInjective | pbj/math/graph/DehnTwist.java:394-479 | Distinct (family, handle) pairs get distinct labels, so the marking labels are distinct. |
| LorenzKnots.Check | pbj/math/graph/LorenzKnot.java:11-29 | The constructor's checks, in its order. |
| LorenzKnots.IndicesIncrease | pbj/math/graph/LorenzKnot.java:11-29 | The indices of an admissible vector increase strictly and are positive. |
| LorenzKnots.ExponentsPositive | pbj/math/graph/LorenzKnot.java:11-29 | The exponents of an admissible vector are positive. |
| LorenzKnots.Weight | pbj/math/graph/LorenzKnot.java:31-46 | The exponents, from entry m on, of the entries whose index is at least t. |
| LorenzKnots.EdgeRows | pbj/math/graph/LorenzKnot.java:31-46 | All rows, the bottom one first. |
| LorenzKnots.WeightSkips | pbj/math/graph/LorenzKnot.java:31-46 | Entries from m to j have index below t: they add nothing to the weight. |
| LorenzKnots.WeightAll | pbj/math/graph/LorenzKnot.java:31-46 | Entries from m on all have index at least t: the weight is their whole exponent. |
| LorenzKnots.WeightMonotone | pbj/math/graph/LorenzKnot.java:31-46 | A larger threshold gives a smaller weight. |
| LorenzKnots.RowsShrinkUpwards | pbj/math/graph/LorenzKnot.java:31-46 | Lower rows are never shorter than higher ones, and every row holds a cell. |
| LorenzKnots.WeightLast | pbj/math/graph/LorenzKnot.java:31-46 | The weight at the last index counts at least the last exponent. |
| LorenzKnots.BelowStep | pbj/math/graph/LorenzKnot.java:31-46 | The cells of a row and of the rows above it together are those above the row below. |
| LorenzKnots.BelowMonotone | pbj/math/graph/LorenzKnot.java:31-46 | Counting the cells above a row never grows as the row rises. |
| LorenzKnots.CellNumbers | pbj/math/graph/LorenzKnot.java:31-46 | The numbering of the cells: every cell carries a number from 1 to EdgeCount, a cell of a lower row a larger number than one of a higher row, and within a row the numbers increase from left to right; so no two cells share a number. |
| LorenzKnots.Locate | pbj/math/graph/LorenzKnot.java:31-46 | Every number from 1 to the cells above row i is the number of a cell above it. |
| LorenzKnots.WalkFrom | pbj/math/graph/LorenzKnot.java:48-72 | initBoundary from cursor c with the cells acc read so far into a loop of cap entries, within fuel steps: the loop once the walk is home and every entry is written; a shorter loop means the boundary has several components, and a longer one overflows the array. |
| LorenzKnots.WalkSigned | pbj/math/graph/LorenzKnot.java:48-72 | The walk reads cells, upwards as themselves and downwards as their inverses. |
| LorenzKnots.NoRowsNoClose | pbj/math/graph/LorenzKnot.java:48-72 | With no rows every step lands outside the rows: below them the walk turns up, elsewhere it turns down, so it is never at row 0 going up and never comes home. |
| LorenzKnots.Build | pbj/math/graph/LorenzKnot.java:48-72 | What the constructor builds: the rows and the boundary loop, or the exception. |
| LorenzKnots.BuildWalk | pbj/math/graph/LorenzKnot.java:48-72 | For an acceptable vector, the constructor's outcome is that of its walk. |
| LorenzKnots.BuildLoop | pbj/math/graph/LorenzKnot.java:48-72 | A knot the constructor accepts has a boundary loop of signed cell numbers, two per cell. |
| LorenzKnots.SingleUnitIndexNeverCloses | pbj/math/graph/LorenzKnot.java:48-72 | r = [1] passes the constructor's checks but has no rows: the walk of initBoundary never returns home, whatever number of steps it is given. |
| LorenzKnots.Label | pbj/math/graph/LorenzKnot.java:95-97 | getLabel: a positive number is the edge before it, a negative one that edge inverted. |
| LorenzKnots.LabelReads | pbj/math/graph/LorenzKnot.java:95-97 | The label of a nonzero cell number reads back as its letter. |
| LorenzKnots.LoopPath | pbj/math/graph/LorenzKnot.java:74-80 | The path of a signed loop. |
| LorenzKnots.FixedWordText | pbj/math/graph/LorenzKnot.java:74-80 | The fixed word is the text of the loop's path. |
| LorenzKnots.FixedWordReads | pbj/math/graph/LorenzKnot.java:74-80 | So the fixed word reads back as the loop's path. |
| LorenzKnots.FixedWordOfKnot | pbj/math/graph/LorenzKnot.java:74-80 | The fixed word of a knot with few enough cells reads as a loop of two letters per cell, all among its edges. |
| LorenzKnots.MonodromyTree | pbj/math/graph/LorenzKnot.java:99-101 | The fixed word of a knot holds no dot, so getMonodromy always twists with the tree spanningTree finds. |
| LorenzKnots.PairLoop | pbj/math/graph/LorenzKnot.java:82-93 | The loop text of the twist about cells j and j + 1 of a row: the first, then the second backwards. |
| LorenzKnots.RowLoops | pbj/math/graph/LorenzKnot.java:82-93 | The twist loops of a row from position m on, the rightmost pair first. |
| LorenzKnots.Loops | pbj/math/graph/LorenzKnot.java:82-93 | The twist loops of the rows up to i, the bottom row first. |
| LorenzKnots.BracketedSnoc | pbj/math/graph/LorenzKnot.java:82-93 | One more loop goes at the end. |
| LorenzKnots.Plain | pbj/math/graph/LorenzKnot.java:82-93 | Loops read as twists, none inverted. |
| LorenzKnots.ItemOfPlaced | pbj/math/graph/LorenzKnot.java:82-93 | A bracketed loop at place p reads as that loop, not inverted, ending at its ']'. |
| LorenzKnots.BracketedReads | pbj/math/graph/LorenzKnot.java:82-93 | The bracketed loops, filling t from place p to its end, read back in order and none inverted. |
| LorenzKnots.TwistsRead | pbj/math/graph/LorenzKnot.java:82-93 | The twist text of rows reads back as their twist loops, in order and none inverted. |
| LorenzKnots.PairLoopReads | pbj/math/graph/LorenzKnot.java:82-93 | Each twist loop is the first cell of a pair followed by the second one backwards. |
| LorenzKnots.LoopsCount | pbj/math/graph/LorenzKnot.java:82-93 | One twist for each pair of neighbouring cells in a row. |
| LorenzKnots.TwistCount | pbj/math/graph/LorenzKnot.java:82-93 | getTwists yields as many twists as there are cells, less one per row. |
| LorenzKnots.LorenzKnot.Init | pbj/math/graph/LorenzKnot.java:11-29 | The fields before initEdges runs. |
| LorenzKnots.LorenzKnot.Create | pbj/math/graph/LorenzKnot.java:11-29 | The LorenzKnot constructor on (r, s): the checks of the vector, then initEdges and initBoundary, the walk given fuel steps. The knot, or no knot and the exception's message. |
| LorenzKnots.LorenzKnot.CheckArgs | pbj/math/graph/LorenzKnot.java:11-29 | The constructor's loop over the entries, with prev the index before. |
| LorenzKnots.LorenzKnot.InitEdges | pbj/math/graph/LorenzKnot.java:31-46 | initEdges: the rows from the top down, each numbered on from the rows above. |
| LorenzKnots.LorenzKnot.NumberRow | pbj/math/graph/LorenzKnot.java:31-46 | The inner loop of initEdges: n cells numbered on from edgeCount. |
| LorenzKnots.LorenzKnot.InitBoundary | pbj/math/graph/LorenzKnot.java:48-72 | initBoundary: the walk around the rows, at most fuel steps long. |
| LorenzKnots.LorenzKnot.Walk | pbj/math/graph/LorenzKnot.java:48-72 | The do-while loop of initBoundary, writing the cells it reads into loop. |
| LorenzKnots.LorenzKnot.GetFixedWord | pbj/math/graph/LorenzKnot.java:74-80 | getFixedWord: the labels of the boundary loop. |
| LorenzKnots.LorenzKnot.GetTwists | pbj/math/graph/LorenzKnot.java:82-93 | getTwists: for each row, bottom first, the twists about its neighbouring cells from the right. |
| LorenzKnots.LorenzKnot.RowTwists | pbj/math/graph/LorenzKnot.java:82-93 | The inner loop of getTwists: the pairs of one row appended, the rightmost first. |
| LorenzKnots.LorenzKnot.GetMonodromy | pbj/math/graph/LorenzKnot.java:99-101 | getMonodromy: twistWithFixedWord of the fixed word, the twists and the name of the knot; auto stands for the tree spanningTree finds. |
| LorenzKnots.LorenzKnot.ToString | pbj/math/graph/LorenzKnot.java:103-114 | toString: "LorenzKnot_", then each factor r^s, with a dot after all but the last. |
| LorenzKnots.FactorsStep | pbj/math/graph/LorenzKnot.java:103-114 | One more factor, with its separator unless it is the last, extends the text of the factors. |
| LorenzKnots.RowLenIs | pbj/math/graph/LorenzKnot.java:31-46 | Where the pointer j has passed the entries of index i + 2 and above, row i counts their exponents. |
| LorenzTable.SkipDelims | pbj/experiments/LorenzData.java:28-44 | The end of the run of delimiters from place i. |
| LorenzTable.TokenEnd | pbj/experiments/LorenzData.java:28-44 | The end of the token starting at place i. |
| LorenzTable.SkipDelimsIs | pbj/experiments/LorenzData.java:28-44 | SkipDelims stops at the first place that is not a delimiter. |
| LorenzTable.TokenEndIs | pbj/experiments/LorenzData.java:28-44 | TokenEnd stops at the first delimiter. |
| LorenzTable.FirstToken | pbj/experiments/LorenzData.java:28-44 | A token w standing at place i, followed by a delimiter or the end, is the next token read. |
| LorenzTable.SkipOne | pbj/experiments/LorenzData.java:28-44 | A delimiter at place e is skipped. |
| LorenzTable.TokensOfJoin | pbj/experiments/LorenzData.java:28-44 | Joining tokens with a delimiter and splitting the text again gives the tokens: here for the text that stands in t from place i to its end. |
| LorenzTable.TokensAt | pbj/experiments/LorenzData.java:28-44 | A token w standing at place i, followed by a delimiter or the end, is read first. |
| LorenzTable.ReadFactors | pbj/experiments/LorenzData.java:28-44 | The factors in order, the first failure winning. |
| LorenzTable.ParseLine | pbj/experiments/LorenzData.java:28-44 | readKnot: the first four tokens are the name, the vector, the braid index and the census entry, in that order of reading; then the '.'-separated factors of the vector. |
| LorenzTable.BareFactor | pbj/experiments/LorenzData.java:28-44 | A factor without '^' has exponent 1. |
| LorenzTable.NumeralToken | pbj/experiments/LorenzData.java:28-44 | A numeral holds no delimiter of these tables. |
| LorenzTable.FactorReads | pbj/experiments/LorenzData.java:28-44 | A written factor reads back. |
| LorenzTable.FactorList | pbj/experiments/LorenzData.java:28-44 | The factors of a vector as a list. |
| LorenzTable.FactorListSnoc | pbj/experiments/LorenzData.java:28-44 | The list of one factor more. |
| LorenzTable.FactorsJoined | pbj/experiments/LorenzData.java:28-44 | The text of the factors is the list joined by the separator. |
| LorenzTable.FactorListReads | pbj/experiments/LorenzData.java:28-44 | Reading a list of written factors gives the vector back. |
| LorenzTable.ReadFactorsSnoc | pbj/experiments/LorenzData.java:28-44 | Reading one more factor. |
| LorenzTable.ReadPrefixStep | pbj/experiments/LorenzData.java:28-44 | Reading one factor more of a list. |
| LorenzTable.VectorReads | pbj/experiments/LorenzData.java:28-44 | A vector written with a separator that no numeral holds reads back through that separator. |
| LorenzTable.FactorToken | pbj/experiments/LorenzData.java:71-102 | A factor holds no delimiter other than a digit, '-' or '^'. |
| LorenzTable.LineReads | pbj/experiments/LorenzData.java:28-44 | A line written from a knot's fields reads back as those fields: the name and the census entry single tokens, the vector not empty, the numbers 32-bit. |
| LorenzTable.VectorToken | pbj/experiments/LorenzData.java:71-102 | A written vector is a single field. |
| LorenzTable.FieldSeparators | pbj/experiments/LorenzData.java:71-102 | The field delimiters are neither digits, signs, carets nor dots. |
| LorenzTable.AllFactorTokens | pbj/experiments/LorenzData.java:71-102 | Every factor is a token. |
| LorenzTable.JoinToken | pbj/experiments/LorenzData.java:71-102 | Tokens joined by a character that is not a delimiter make one token. |
| LorenzTable.ReadFactorsFail | pbj/experiments/LorenzData.java:28-44 | A failing factor ends the reading of the vector with its message. |
| LorenzTable.DescriptionVector | pbj/experiments/LorenzData.java:71-102 | The vector in a description reads back: behind the head, up to the braid index, stand the factors, and splitting them at '_' gives r and s again. |
| LorenzTable.LorenzData.Init | pbj/experiments/LorenzData.java:28-30 | A new entry: nothing analysed yet. |
| LorenzTable.LorenzData.ReadKnot | pbj/experiments/LorenzData.java:28-44 | readKnot: the fields of a line, then the factors of the vector one by one into the two arrays; or the message of the first exception. |
| LorenzTable.LorenzData.ReadVector | pbj/experiments/LorenzData.java:28-44 | The loop of readKnot over the factors of the vector. |
| LorenzTable.LorenzData.StoreFactor | pbj/experiments/LorenzData.java:28-44 | Factor i stored: its index in ra, its exponent in sa. |
| LorenzTable.LorenzData.ReadOne | pbj/experiments/LorenzData.java:28-44 | One factor of the vector: its index, and its exponent or 1. |
| LorenzTable.LorenzData.ReadFile | pbj/experiments/LorenzData.java:46-54 | readFile, over the lines of the file: an entry per line, or the first exception. |
| LorenzTable.LorenzData.ReadLine | pbj/experiments/LorenzData.java:46-54 | One pass of readFile's loop: line i read, or the exception that ends the reading. |
| LorenzTable.LorenzData.ToString | pbj/experiments/LorenzData.java:71-102 | toString, with the growth rate and the volume as their formatted text. |
| LorenzTable.ParseLines | pbj/experiments/LorenzData.java:46-54 | readFile: one entry per line, the first exception ending the reading. |
| LorenzTable.ParseLinesEach | pbj/experiments/LorenzData.java:46-54 | Each entry read is the reading of its own line. |
| LorenzTable.ParseLinesStep | pbj/experiments/LorenzData.java:46-54 | Reading one line more. |
| LorenzTable.ParseLinesFail | pbj/experiments/LorenzData.java:46-54 | A line that fails ends the reading of the file with its message. |
| LorenzTable.Table | pbj/experiments/LorenzData.java:46-54 | The lines of a table of entries. |
| LorenzTable.ParseLinesSnoc | pbj/experiments/LorenzData.java:46-54 | Reading a line appended to a file. |
| LorenzTable.TableReads | pbj/experiments/LorenzData.java:46-54 | A table written from entries reads back as those entries. |
| MappingTori.CyclInverse | pbj/math/graph/train/MappingTorus.java:43-49 | On [0, n) the two steps stay in range and undo each other. |
| MappingTori.ModSmall | pbj/math/graph/train/MappingTorus.java:43-45 | x mod n for 0 <= x < 2n. |
| MappingTori.CyclLeqRotates | pbj/math/graph/train/MappingTorus.java:51-57 | On [0, n), cyclLeq compares the number of steps from i0: the cycle is read starting at i0, so i0 comes first and any two positions are comparable. |
| MappingTori.InverseName | pbj/math/graph/train/MappingTorus.java:34-36 | inverse(String): flip the letter, keep the marks. |
| MappingTori.InverseInvolution | pbj/math/graph/train/MappingTorus.java:34-36 | Inverting a name twice gives it back. |
| MappingTori.Mark | pbj/math/graph/train/MappingTorus.java:38-40 | The mark subdivision number k appends: "." and the number. |
| MappingTori.ToLabelInjective | pbj/math/graph/train/MappingTorus.java:38-40 | Different names have different labels, as long as their marks start with a dot. |
| MappingTori.LabelCut | pbj/math/graph/train/MappingTorus.java:38-40 | A shorter label followed by dot marks cannot spell a longer label's digits. |
| MappingTori.LabelOfName | pbj/math/graph/train/MappingTorus.java:38-40 | A letter's label gives every name a label with the dot-free reading of its letter. |
| MappingTori.Across | pbj/math/graph/train/MappingTorus.java:119-145 | The edge whose initial vertex is glued to the initial vertex of the edge after edge j's inverse: the position after indexOf(inverse(edges[j])), cyclically. |
| MappingTori.Gluing | pbj/math/graph/train/MappingTorus.java:119-145 | Where each step of stdLabels goes from each edge: Across for every position. |
| MappingTori.Copy | pbj/math/graph/train/MappingTorus.java:119-145 | Copy k of a glued vertex: its label, "-" and k. |
| MappingTori.LabelCycle | pbj/math/graph/train/MappingTorus.java:119-145 | The do/while of stdLabels from position j back to i: each step follows next and labels the vertex it reaches; None when the fuel runs out first. |
| MappingTori.LabelCycleKeeps | pbj/math/graph/train/MappingTorus.java:119-145 | A cycle keeps every label already given and labels the vertex it closes at. |
| MappingTori.LabelFromComplete | pbj/math/graph/train/MappingTorus.java:119-145 | Every labelling stdLabels completes gives each vertex a label. |
| MappingTori.LabelFromCycle | pbj/math/graph/train/MappingTorus.java:119-145 | The step of LabelFromComplete at a vertex without a label: its cycle labels it. |
| MappingTori.LabellingComplete | pbj/math/graph/train/MappingTorus.java:119-145 | stdLabels leaves no vertex with the dummy label. |
| MappingTori.SizeAppend | pbj/math/graph/train/MappingTorus.java:346-354 | The size of a concatenation is the sum of the sizes. |
| MappingTori.FirstFold | pbj/math/graph/train/MappingTorus.java:148-161 | The first position from i on whose image cancels with the next one, or -1. |
| MappingTori.BaseEdges | pbj/math/graph/train/MappingTorus.java:85-114 | The edges of the base layer: one per letter of the fixed word, without marks. |
| MappingTori.BaseConsistent | pbj/math/graph/train/MappingTorus.java:85-114 | The base layer's images agree on inverse edges. |
| MappingTori.BaseImages | pbj/math/graph/train/MappingTorus.java:85-114 | The images of the base layer: each letter's image, in the order of the fixed word. |
| MappingTori.SpotsAt | pbj/math/graph/train/MappingTorus.java:164-329 | The spots of the fold at it. |
| MappingTori.FoldEdges | pbj/math/graph/train/MappingTorus.java:164-329 | The edges of the fold layer: every edge but f0 and the one after it, read cyclically from two past f0, with the inverse of f0 renamed to the edge after it and f0 itself to that edge's inverse. |
| MappingTori.FoldImages | pbj/math/graph/train/MappingTorus.java:164-329 | The images of the fold layer: those of the surviving edges, in the same order. |
| MappingTori.FoldIsRotation | pbj/math/graph/train/MappingTorus.java:164-329 | The fold layer's images are the old ones read from f0, without the first two. |
| MappingTori.RotateKeeps | pbj/math/graph/train/MappingTorus.java:164-329 | Reading a sequence from another position keeps its elements and its size. |
| MappingTori.SizePair | pbj/math/graph/train/MappingTorus.java:164-329 | The size of two images and then more. |
| MappingTori.FoldDropsPair | pbj/math/graph/train/MappingTorus.java:164-329 | Folding drops exactly the images of f0 and the edge after it: the fold layer's images with those two are the old images, and its size is the old size less their lengths. |
| MappingTori.CutFromFails | pbj/math/graph/train/MappingTorus.java:164-329 | Subdivision can only fail inside substring. |
| MappingTori.NoNextLayerExactly | pbj/math/graph/train/MappingTorus.java:164-329 | nextLayer throws "no next layer" exactly when a layer that is no subdivision has no fold. |
| MappingTori.FoldLayerSize | pbj/math/graph/train/MappingTorus.java:164-329 | A fold layer has two edges fewer than the layer it comes from, and an image per edge. |
| MappingTori.CutFromShape | pbj/math/graph/train/MappingTorus.java:164-329 | The subdivision loop keeps one image per edge and leaves f0 on an edge once it has passed edge it. |
| MappingTori.SuccessorShape | pbj/math/graph/train/MappingTorus.java:164-329 | The next layer's lists have one image per edge, and a subdivision layer's f0 is one of its edges. |
| MappingTori.SizeKeepSplit | pbj/math/graph/train/MappingTorus.java:164-329 | Adding images one or two at a time adds their lengths to the size. |
| MappingTori.SplitSize | pbj/math/graph/train/MappingTorus.java:164-329 | Cutting a word in two and adding both pieces adds its length. |
| MappingTori.SpotsFit | pbj/math/graph/train/MappingTorus.java:164-329 | In a consistent layer the inverse of an edge carries an image as long as the edge's. |
| MappingTori.CutOneSize | pbj/math/graph/train/MappingTorus.java:164-329 | A step that keeps or cuts a word adds its length to the size. |
| MappingTori.CutFromSize | pbj/math/graph/train/MappingTorus.java:164-329 | From edge i on, the subdivision loop adds the size of the remaining images. |
| MappingTori.SubdivisionKeepsSize | pbj/math/graph/train/MappingTorus.java:164-329 | Subdivision only cuts images into pieces: where the images of inverse edges agree, as they do in the base layer, the size stays the same. |
| MappingTori.SuccessorFails | pbj/math/graph/train/MappingTorus.java:164-329 | Subdivision fails only inside substring, and nextLayer throws nothing else. |
| MappingTori.FoldCursor | pbj/math/graph/train/MappingTorus.java:164-329 | The fold loop's cursor: it starts two past f0, and reaches f0 again exactly after visiting every edge but the folded pair. |
| MappingTori.Layer.Empty | pbj/math/graph/train/MappingTorus.java:75-82 | Layer(int): an empty layer with number nn. |
| MappingTori.Layer.FromTrack | pbj/math/graph/train/MappingTorus.java:85-114 | Layer(TrainTrack): an edge for each letter of the fixed word, carrying the image of the letter's edge, reversed for a backward letter; then the standard vertex labels. Throws on an empty fixed word, and getIm throws on a letter past the edges in use. |
| MappingTori.Layer.StdLabels | pbj/math/graph/train/MappingTorus.java:119-145 | stdLabels: label the vertices cycle by cycle, as "v.n.m-k". |
| MappingTori.Layer.GlueCycle | pbj/math/graph/train/MappingTorus.java:119-145 | The do/while of stdLabels: follow the gluing from i until it comes back, labelling as it goes. |
| MappingTori.Layer.FindFold | pbj/math/graph/train/MappingTorus.java:148-161 | findFold: the first edge whose image cancels against the next one, or -1. |
| MappingTori.Layer.Size | pbj/math/graph/train/MappingTorus.java:346-354 | size(): the total length of the images. |
| MappingTori.Layer.NextLayer | pbj/math/graph/train/MappingTorus.java:164-329 | nextLayer: build layer n + 1 by subdividing or folding (see Successor), then label its vertices. |
| MappingTori.Layer.Build | pbj/math/graph/train/MappingTorus.java:164-329 | nextLayer before the vertex labels: the new layer's edges and images, or the exception. |
| MappingTori.Layer.BuildAt | pbj/math/graph/train/MappingTorus.java:164-329 | nextLayer past the search, for the fold it found at it: subdivide, or fold when the two images cancel. |
| MappingTori.Layer.SubdivideAt | pbj/math/graph/train/MappingTorus.java:164-329 | The subdivision branch of nextLayer, filling this empty layer. |
| MappingTori.Layer.SubdivideFrom | pbj/math/graph/train/MappingTorus.java:164-329 | The subdivision loop of nextLayer, filling this empty layer. |
| MappingTori.Layer.CutStep | pbj/math/graph/train/MappingTorus.java:164-329 | One pass of the subdivision loop: edge i copied, or cut in two when it is one of the spots. |
| MappingTori.Layer.CutInverse | pbj/math/graph/train/MappingTorus.java:164-329 | The subdivision loop at an edge i that is neither it nor the edge after it: the inverses are cut too. |
| MappingTori.Layer.FoldFrom | pbj/math/graph/train/MappingTorus.java:164-329 | The fold branch of nextLayer: every edge from two past f0 round to f0, the folded pair renamed. |
| MappingTori.ChainSnoc | pbj/math/graph/train/MappingTorus.java:374-377 | A chain of layer values, each what nextLayer makes of the one before, grows by the successor of its last value. |
| MappingTori.MappingTorus.Create | pbj/math/graph/train/MappingTorus.java:361-380 | The constructor: the base layer of t, then next layers as long as the last one has a fold (at most steps of them); throws when that leaves a single layer. The layers are numbered from 0 and traced: each one after the base layer is what nextLayer makes of the one before it, every layer but the last keeps the f0 its step left, and the split count is the last step's. |
| MappingTori.MappingTorus.Start | pbj/math/graph/train/MappingTorus.java:361-371 | The start of the constructor: the base layer of t as the only layer, its label t's, the split count 0; fails as the base layer does. |
| MappingTori.MappingTorus.Build | pbj/math/graph/train/MappingTorus.java:373-380 | The loop of the constructor and the check after it: the layers stay traced, end with one that has no fold, and the "need at least two layers" exception comes exactly when the base layer has no fold. |
| MappingTori.MappingTorus.Grow | pbj/math/graph/train/MappingTorus.java:373-377 | The loop: add next layers while the last one has a fold, at most steps of them; the base layer stays first, the layers stay traced, and no layer is added exactly when the base layer has no fold. |
| MappingTori.MappingTorus.Extend | pbj/math/graph/train/MappingTorus.java:375-376 | One pass of the loop: the layer nextLayer makes of the last one is appended, and the layers stay traced, the new value being the successor of the last one. |
| MappingTori.MappingTorus.Step | pbj/math/graph/train/MappingTorus.java:375 | The next layer after last is the value Successor gives for last's fields, f0 and the split count before the call; last's f0 and the split count become the ones that value records; or the exception nextLayer throws. |
| ThreeComplexes.OrderFacts | pbj/math/manifold/ThreeComplex.java:62-83 | Every fact about the order of three labels that the norm needs. |
| ThreeComplexes.NormSorts | pbj/math/manifold/ThreeComplex.java:62-83 | Three distinct labels: the norm is their concatenation in increasing order. |
| ThreeComplexes.NormEmpty | pbj/math/manifold/ThreeComplex.java:62-83 | The norm is empty exactly when two labels coincide. |
| ThreeComplexes.NormSymmetric | pbj/math/manifold/ThreeComplex.java:62-83 | Exchanging two labels keeps the norm, so every order of the labels has one norm. |
| ThreeComplexes.EqualsIgnoresOrder | pbj/math/manifold/ThreeComplex.java:62-83 | The same labels in any of the six orders make an equal triangle. |
| ThreeComplexes.HashBits | pbj/math/manifold/ThreeComplex.java:84-86 | The 32-bit unsigned value of s.hashCode(): s[0]*31^(n-1) + ... + s[n-1], wrapped. |
| ThreeComplexes.HashCode | pbj/math/manifold/ThreeComplex.java:84-86 | Triangle.hashCode: String.hashCode of the norm, as a signed int. |
| ThreeComplexes.HashAgreesWithEquals | pbj/math/manifold/ThreeComplex.java:88-93 | hashCode agrees with equals. |
| ThreeComplexes.MakeTetrahedron | pbj/math/manifold/ThreeComplex.java:139-150 | The Tetrahedron constructor on four vertices: face i leaves out vertex i. |
| ThreeComplexes.OmitMultiset | pbj/math/manifold/ThreeComplex.java:139-150 | The labels without position i and the label at i make up all the labels. |
| ThreeComplexes.AddFaceRecords | pbj/math/manifold/ThreeComplex.java:202-221 | One more holder of key: the entry records it as the first or as the latest. |
| ThreeComplexes.AddFaceKeeps | pbj/math/manifold/ThreeComplex.java:202-221 | Registering a face leaves the triangles of every entry alone and adds only its key. |
| ThreeComplexes.RegisterStep | pbj/math/manifold/ThreeComplex.java:227-236 | The step of the face loop of addTetrahedron keeps the table recording the holders so far. |
| ThreeComplexes.RegisterKeepsTriangles | pbj/math/manifold/ThreeComplex.java:227-236 | Registering the first k faces keeps the triangles of every entry and adds only face keys. |
| ThreeComplexes.RegisterLoop | pbj/math/manifold/ThreeComplex.java:227-236 | After the first k faces of t the table records the holders among the old tetrahedra and those faces. |
| ThreeComplexes.RegisterConsistent | pbj/math/manifold/ThreeComplex.java:227-236 | addTetrahedron keeps the table consistent with the holders of every face. |
| ThreeComplexes.GlueRecords | pbj/math/manifold/ThreeComplex.java:239-259 | One side of addGluing: only the triangles of the entry change, or a new entry holds no face. |
| ThreeComplexes.GlueBothConsistent | pbj/math/manifold/ThreeComplex.java:239-259 | addGluing keeps the tetrahedron fields of every entry and names both sides. |
| ThreeComplexes.GlueBothNames | pbj/math/manifold/ThreeComplex.java:239-259 | The table after addGluing: each side's entry names it and the other side, t2's entry last. |
| ThreeComplexes.GlueBothSymmetric | pbj/math/manifold/ThreeComplex.java:239-259 | Gluing two different triangles is symmetric: addGluing(t1, t2) and addGluing(t2, t1) leave one table. |
| ThreeComplexes.Strings | pbj/math/manifold/ThreeComplex.java:279-298 | The next k strings from pos; None when the input ends first. |
| ThreeComplexes.Interpret | pbj/math/manifold/ThreeComplex.java:279-298 | The state after the records of toks from pos, and the outcome of readTriangulation. |
| ThreeComplexes.InterpretConsistent | pbj/math/manifold/ThreeComplex.java:279-298 | Reading keeps the table consistent, however the input ends. |
| ThreeComplexes.WrongKeyWord | pbj/math/manifold/ThreeComplex.java:279-298 | A first word other than T and G stops reading at once with "wrong key word". |
| ThreeComplexes.InterpretFails | pbj/math/manifold/ThreeComplex.java:279-298 | Reading ends with Pass exactly when every record is complete and starts with T or G. |
| ThreeComplexes.Find | pbj/math/manifold/ThreeComplex.java:305-362 | The first position of x in v, or \|v\| when x is not there. |
| ThreeComplexes.HoldersBounded | pbj/math/manifold/ThreeComplex.java:227-236 | Every holder of key is a face of one of the tetrahedra whose norm is key. |
| ThreeComplexes.HolderOfOwnFace | pbj/math/manifold/ThreeComplex.java:227-236 | Face f of tetrahedron i holds its own norm. |
| ThreeComplexes.ThreeComplex.constructor | pbj/math/manifold/ThreeComplex.java:163-167 | An empty complex named "no_name". |
| ThreeComplexes.ThreeComplex.SetLabel | pbj/math/manifold/ThreeComplex.java:173-175 | setLabel |
| ThreeComplexes.ThreeComplex.AddTriangle | pbj/math/manifold/ThreeComplex.java:202-221 | addTriangle: record face `face` of tetrahedron number i0. |
| ThreeComplexes.ThreeComplex.AddTetrahedron | pbj/math/manifold/ThreeComplex.java:227-236 | addTetrahedron: append the tetrahedron and register its four faces. |
| ThreeComplexes.ThreeComplex.AddGluing | pbj/math/manifold/ThreeComplex.java:239-259 | addGluing(t1, t2): the entry of each triangle names it and the other one. |
| ThreeComplexes.ThreeComplex.AddGluingLabels | pbj/math/manifold/ThreeComplex.java:267-273 | addGluing(a1, a2, a3, b1, b2, b3): a1 is glued to b1, a2 to b2, a3 to b3. |
| ThreeComplexes.ThreeComplex.ReadTriangulation | pbj/math/manifold/ThreeComplex.java:279-298 | readTriangulation over a token stream: records until the end of the input. A record cut short fails before it changes anything; the records before it stay. |
| ThreeComplexes.ThreeComplex.ReadStrings | pbj/math/manifold/ThreeComplex.java:279-298 | k calls of nextString; None when one of them meets the end. |
| ThreeComplexes.ThreeComplex.FindNeighbor | pbj/math/manifold/ThreeComplex.java:305-362 | findNeighbor: the tetrahedron glued to face `face` of tetrahedron `tet`, with perm[face] set to the matching face of the neighbour and the other entries of perm to the positions of the matching labels; -1 when the face has no entry; when the entry knows only the glued triangle, "has no neighbor" if there is none, and otherwise the first holder of the other triangle with perm following the labels of the two triangles (`FromRecord`), or the index error the JVM raises when that holder or a label is missing. |
| ThreeComplexes.ThreeComplex.NeighborFromRecord | pbj/math/manifold/ThreeComplex.java:341-361 | The second branch of findNeighbor: the first holder of the glued triangle's entry with perm following the labels (`FromRecord`); an index error when that holder is -1 or a label is not found. |
| ThreeComplexes.ThreeComplex.SetAndFollow | pbj/math/manifold/ThreeComplex.java:353-358 | perm[face] := nf, then the label loop: it succeeds exactly when every label of both triangles is found, and perm then maps the position of each label of the first triangle to the position of its partner, other entries unchanged. |
| ThreeComplexes.FirstHolder | pbj/math/manifold/ThreeComplex.java:227-236 | The first holder an entry records, when there is one, is a face of one of the tetrahedra. |
| ThreeComplexes.ThreeComplex.SnapPeaFace | pbj/math/manifold/ThreeComplex.java:377-411 | The neighbour check of toSnapPea for face j of tetrahedron i: the neighbour and perm after findNeighbor. |
| ThreeComplexes.ThreeComplex.SnapPeaRow | pbj/math/manifold/ThreeComplex.java:377-411 | The neighbour check of toSnapPea for tetrahedron i: the four neighbours and perm after each face. |
| ThreeComplexes.ThreeComplex.SnapPeaTable | pbj/math/manifold/ThreeComplex.java:377-411 | The neighbour check of toSnapPea: the table of every tetrahedron, or the first face without a neighbour. One perm array serves every face, so an entry that findNeighbor does not set keeps the value of an earlier face. |
| ThreeComplexes.ThreeComplex.MatchLabels | pbj/math/manifold/ThreeComplex.java:305-362 | The label loop of findNeighbor when both holders are known: for every r other than face, perm[r] is the last s other than nf whose label matches. |
| ThreeComplexes.ThreeComplex.FollowLabels | pbj/math/manifold/ThreeComplex.java:305-362 | The label loop of findNeighbor from the glued triangles: label i of tr1 sits at position r of v1, label i of tr2 at position s of v2, and perm[r] becomes s; false when a label is missing (the search runs past the four labels). |
| ThreeComplexes.ThreeComplex.FollowLabel | pbj/math/manifold/ThreeComplex.java:305-362 | One label of the glued triangles: perm at its position in v1 becomes its partner's position in v2. |
| ThreeComplexes.PairedGlued | pbj/math/manifold/ThreeComplex.java:305-362 | A face held twice has an entry that records both holders. |
| ThreeComplexes.StringsStep | pbj/math/manifold/ThreeComplex.java:279-298 | One more nextString: its word joins the words read, or the record is cut short. |
| KKSequences.SymInRange | pbj/experiments/KKSequence.java:23-43 | Within range, IndexToSym is the letter itself. |
| KKSequences.FixLength | pbj/experiments/KKSequence.java:23-43 | The fixed word has 4n - 4 letters: two for every one of its 2n - 2 edges. |
| KKSequences.FixAt | pbj/experiments/KKSequence.java:23-43 | Letter p of the fixed word is edge EdgeAt(n, p), backwards exactly when BackAt(n, p). |
| KKSequences.FixAtPairs | pbj/experiments/KKSequence.java:23-43 | The pairs X_{n+i} X_{i+1} stand at positions 1 .. 2n - 4. |
| KKSequences.FixAtLows | pbj/experiments/KKSequence.java:23-43 | The letters x_{n+i} stand at positions 2n - 3 .. 3n - 7. |
| KKSequences.FixAtMiddle | pbj/experiments/KKSequence.java:23-43 | X_{n-1} stands at position 3n - 5. |
| KKSequences.FixAtUps | pbj/experiments/KKSequence.java:23-43 | x_0 .. x_{n-1} stand at positions 3n - 4 .. 4n - 5. |
| KKSequences.PosOfFinds | pbj/experiments/KKSequence.java:23-43 | Every edge below 2n - 2 occurs in both directions, at PosOf. |
| KKSequences.PositionsDiffer | pbj/experiments/KKSequence.java:23-43 | Two positions hold different letters. |
| KKSequences.NeighboursDoNotCancel | pbj/experiments/KKSequence.java:23-43 | Two neighbouring positions never hold an edge and its inverse. |
| KKSequences.FixIsBoundary | pbj/experiments/KKSequence.java:23-43 | For n >= 2 the fixed word is the boundary of a surface: the letters x_0 .. x_{2n-3} each occur once in each direction and nothing cancels, even cyclically. |
| KKSequences.SmallNoBoundary | pbj/experiments/KKSequence.java:23-43 | Below n = 2 the word is no boundary: three letters for n = 1, two that cancel below that. |
| KKSequences.Fix | pbj/experiments/KKSequence.java:23-43 | The three loops that build the fixed word of getMap(n), one character at a time. |
| KKSequences.AddPairs | pbj/experiments/KKSequence.java:23-43 | The first loop: X_{n+i} X_{i+1} appended for i < n - 2. |
| KKSequences.AddLows | pbj/experiments/KKSequence.java:23-43 | The second loop: x_{n+i} appended for i < n - 2. |
| KKSequences.AddUps | pbj/experiments/KKSequence.java:23-43 | The last loop: x_0 .. x_{n-1} appended. |
| KKSequences.GetMap | pbj/experiments/KKSequence.java:23-43 | getMap(n): the rose identityFromFixed builds from the fixed word, every image set to the next edge and then the two special images; a map that fails isGoodMap is reported as "bad map!". |
| KKSequences.SetImages | pbj/experiments/KKSequence.java:23-43 | The setImage calls and the final isGoodMap test of getMap, on the rose of the fixed word. |
| KKSequences.ShiftImages | pbj/experiments/KKSequence.java:23-43 | The first setImage loop of getMap: edge i is sent to edge i + 1, for i below 2n - 2. |

## Left out

- Hyperbolic geometry, drawing, numerical solvers, the GUI, the Observer notifications, `run`/`stop`, text emitters (LaTeX, Maple, Mathematica, MATLAB), file I/O and Java serialisation are outside this model. Eigenvalues, `growthRate` and `reducedCharPoly` are outside it too. They are floating point, output or threads.
- TrainTrack extends GraphMap in the source. Here its operations are module-level methods that take a `GraphMaps.GraphMap`, because the model has no inheritance.
- Matrix entries: the source keeps them in `double`. The model uses unbounded integers. This is exact only while entries stay within 2^53 in absolute value, and rounding beyond that is not modelled.
- Homotopies.V2HomotopySpec: the choice of which edge `v2Homotopy` keeps depends on `isBigger`, an eigenvector comparison in floating point. It is a parameter `isBigger` of the model, so the properties hold for every choice.
- Reduction.TrainTrackMap: `splitAndFoldRecursively` and the folding it drives are a parameter `fold`. The model only requires that `fold` keeps a map a train track (`FoldKeepsTrack`). So the model does not say which fold the source makes.
- Reduction.TrainTrackMap: the loop of trainTrackMap ends by the Bestvina–Handel theorem, which is not proved here. The model bounds it by `fuel` and answers `OutOfFuel` when the bound is reached.
- LorenzKnots.Build: the boundary walk of `initBoundary` is bounded by `fuel`. The source's do-while has no bound and does not always end, as `LorenzKnots.SingleUnitIndexNeverCloses` shows for r = [1]. There is no corrected form to set against it, so this is not a finding.
- MappingTori.MappingTorus.Create: the vertex cycles of `stdLabels` and the loop over layers are bounded by `fuel` and `steps`. When a bound runs out, the model fails with the message `"out of fuel"`, which the source does not have.
- Reduction.FirstForest: the forest test at TrainTrack.java:389 is the corrected, per-component isForest (`Forests.Forest` with the flag true), not the cumulative test the source calls; see the isForest row under Findings. As written, the search can stop at a subgraph with a cycle in a later component.
- Reduction.FirstForestMeans: "a forest" here means every component of the invariant subgraph is a tree, the corrected test; the as-written search may accept an earlier edge.
- Reduction.Search: the do-while loop runs the corrected isForest, so it can go on past an edge the as-written test would accept.
- Reduction.CollapseInvForestSpec: the subgraph it collapses passes the corrected forest test. As written, collapseInvForest may collapse a subgraph with a cycle, which the model does not follow.
- Reduction.CollapseInvForestRun: runs collapseInvForest with the corrected isForest, as Reduction.CollapseInvForestSpec states.
- Reduction.ForestLoopSpec: "no invariant forest left" is with respect to the corrected isForest.
- Reduction.ForestRun: each collapseInvForest it repeats uses the corrected isForest.
- Reduction.CleanRoundsSpec: the forest rounds of cleanItUp use the corrected isForest, so the promised end state has no invariant forest in the corrected sense.
- Reduction.CleanItUpSpec: as Reduction.CleanRoundsSpec, with the corrected isForest.
- Reduction.CleanItUpRun: cleanItUp with the corrected isForest in its forest rounds.
- Reduction.TrainTrackMap: its clean-up uses the corrected isForest, as Reduction.CleanItUpRun does.
- IntVectors.IntVector.SumOfEntries: the source adds the entries in a 32-bit `int`, which wraps on overflow. The model adds unbounded integers, so it agrees with the source only while the running sum stays within the `int` range.
- IntVectors.Product: each entry of m v is accumulated in a 32-bit `int` in the source, the `double` product of each step cast back to `int`. The model uses unbounded integers and models neither the cast nor the wrap-around.
- IntVectors.Sum: the entries of the sum are 32-bit `int`s in the source. The model does not model their wrap-around.
- Homotopies.VertexLoopAsWritten: this is the as-written loop of tightenPlus, bounded by `fuel`. The source's loop does not end on some maps; see Findings.
- Homotopies.TightenPlus: this and everything built on it (cleanItUp, trainTrackMap) use the corrected `tightenVertex`, which reports no change at a vertex without edge ends. As written, tightenPlus never returns on such a map, and `Homotopies.TightenPlusAsWrittenSpins` proves that.
- FixedTwists.TwistWithFixedWord: when no tree is given, `spanningTree` picks a spanning tree using double distances. The model takes that tree as the parameter `auto`, the edge labels of the tree, so it does not say which tree is chosen.
- FixedTwists.EndsAssigned: the model's evaluateTree indexes its table with every edge end. So the model first checks that every end of the rose names a vertex, and fails with the index error when one does not. The source reaches the same error only later, while filling the images.
- GraphMaps.GraphMap.IdentityFromFixed: the contract ties the vertex numbering to the dual walk (`FixedRoseOf`). It does not prove that every letter of the fixed word gets a vertex. That is false for boundary words with repeated letters, and for strict boundary words it needs an orbit argument that is not made here.
- Boundary.Relations: requires every inverse to occur in the word (`InversesOccur`). Otherwise the source's inner scan never ends. Callers pass boundary words, which meet this.
- Boundary.Dualize: the source's walk has no bound. The model cuts it off after |w| rounds and answers with the `"out of memory"` error that the growing StringBuilder would end in.
- The operations on a train track require a well-formed map: every endpoint is a vertex and every letter an edge in use. On a map that is not, the source throws at points that depend on the data, and those are not modelled.
- The messages of exceptions thrown by the Java runtime (index out of bounds, NumberFormatException and similar) are modelled as fixed strings, not as the text the JVM would produce.
- Reading.ReadGraph and ThreeComplexes.ThreeComplex.ReadTriangulation read an abstract sequence of tokens (`Tokens`), not characters. The tokenizer's splitting of text into words and numbers is not modelled, and the dummy token `_` stands for the empty word.
- LorenzTable.LorenzData.ToString: the growth rate and the volume are `double`s in the source. The model takes their printed text as parameters, and their sign decides which parts are printed.
- ThreeComplexes.ThreeComplex.SnapPeaTable: `toSnapPea` is modelled only as far as the neighbour check of every face. The text it writes to a stream is left out.
- `GraphMap.nielsenPaths`, `splitAtFixedPoints` and `MappingTorus.triangulate` are not part of this model. The first two are experimental, and the third only emits output.

## Findings

| source | as written | input that shows it | evidently intended | confidence | as-written member | corrected member |
|---|---|---|---|---|---|---|
| pbj/math/graph/GraphMap.java:1210-1257 | tightenVertex reports a change at a vertex with no edge ends, although it changes nothing | the map with one vertex and no edges: tightenVertex answers true and leaves it as it was, so tightenPlus (TrainTrack.java:411-418) loops forever | report a change only when an edge was collapsed or an image shortened | high, not executed | Graphs.TightenVertexIsolatedVertex | Graphs.TightenVertexShrinks |
| pbj/math/graph/train/TrainTrack.java:411-418 | tightenPlus repeats tightenVertex while it reports a change | the same one-vertex map: no number of passes ends the loop | tightenPlus ends, because each reported change makes the map smaller | high, not executed | Homotopies.TightenPlusAsWrittenSpins | Homotopies.TightenPlusSpec |
| pbj/math/graph/train/TrainTrack.java:330-366 | isForest never clears the valence vector between components, so from the second component on it tests running totals; collapseInvForest (TrainTrack.java:389) relies on it and can then collapse a subgraph with a cycle | a tree component (one edge, two vertices) followed by a self-loop: the totals pass, so the marked edges are taken for a forest | each component tested on its own, which passes exactly when every component is a tree | high, not executed | Forests.CumulativeTestAcceptsLoop | Forests.ForestMeans |
| pbj/math/graph/Word.java:374-394 | dualize walks the word until it returns to position 0, guarded only by isBoundary, which accepts repeated letters | the word a b a c A B C C (`Boundary.LooseWord`): isBoundary accepts it, and the walk goes 0, 5, 2, 5, 2, ... forever | reject words whose letters are not distinct; on the rest the walk returns to 0 | medium, not executed | Boundary.LooseWordNeverCloses | Boundary.DualizeChecked |
| pbj/math/graph/GraphMap.java:1305-1325 | swapVertices refuses a vertex only when it is above the vertex count | swapVertices(0, 1) on a map with one vertex succeeds and moves an edge end to the vertex 1, which does not exist | refuse vertices at or above the vertex count, as identifyVertices does | high, not executed | Graphs.SwapVerticesAcceptsMissingVertex | Graphs.SwapVerticesCheckedSpec |
