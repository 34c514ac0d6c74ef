# pdfmage layout core in Dafny

pdfmage extracts the text of a PDF page in reading order. It takes the words
of a page with their boxes, pads each box, groups nearby words into
*clusters* with a density clustering, merges clusters whose boxes intersect,
drops duplicate words, groups clusters into *columns* ordered by `y0`, and
gives each cluster a content type from the kinds of its words. This project
models that layout logic as it appears in the `mage` package
(`mage/PDFMage.py`, `mage/functions.py`). It also models the two earlier
scripts (`main.py`, `main2.py`), whose merge is a different single-pass
first-fit algorithm. Finally it models the test-document generator
`docgen/docgen.py`: a circular word feed, a section tree that serialises to
dictionaries and back, and the pre-order flattening of that tree into styled
paragraphs.

Modules:

- `Geometry`: boxes, the intersection test, hulls, scaling, corners, weighted squared distances, and the 16-pair corner minimum.
- `Sorting`: the stable sort by key that Python's `sorted` performs.
- `Text`: ASCII word classes, `' '.join` and `split`.
- `Collections`: `Option`, distinctness and `list.remove`.
- `Labelling`: the density clustering's result, given as an input (one label per point, -1 for noise, plus the order in which `set(labels)` is visited).
- `Words`: `WordInfo`, word equality, duplicate-aware appending, the content signature and its labels.
- `Clusters`: the `WordsCluster` class, whose fields are updated in place; `WordsColumn`; `collect_text`.
- `ClusterStates`: the package's merge on cluster states (box, words, type), the reference the object merge is proved to compute.
- `PdfMage`: the steps of `PDFMage.extract_text`.
- `MageFunctions`: the metrics of `mage/functions.py`.
- `MainScript` and `Main2Script`: the two scripts. Their dictionary clusters are values.
- `Variants`: the scripts and the package compared.
- `DocGen`: `TextFile`, `Section` and `add_section_to_elements`.

Distances are squared throughout. Every metric is a square root of a
non-negative quantity, so comparing squares orders pairs as the source's
distances do.

Where the code and its own comments or descriptions differ, the model
follows the code:

- A cluster whose words are all mixed alphanumeric, such as "ab12", sets no bit. Its type is 0 and its label is "Unknown" (`Words.Ab12Unknown`).
- In the package merge, the x-overlap test applied before absorbing a cluster always holds. The intersection test already implies it, and the receiving box only grows (`Geometry.IntersectsGrow`).
- A merge result is not a fixed point: two emitted boxes can still intersect (`Variants.FirstFitNotFixedPoint` for the scripts, `ClusterStates.WorklistMergeNotFixedPoint` for the package).
- The comment in `main2.py` `extend_coordinates` speaks of 15%. The code grows boxes by a factor of 1.18 about the centre (`Main2Script.PadWord`).
- The comment in `main.py` `extend_coordinates` speaks of 15%. Its defaults `x = y = 1.0` leave boxes unchanged (`PdfMage.ExtendWordGeometry`).

## Model

| member | source | states |
|---|---|---|
| Geometry.IntersectsSymmetric | mage/PDFMage.py:198-199 | the closed-interval intersection test does not depend on argument order |
| Geometry.IntersectsGrow | mage/PDFMage.py:198-202 | if a box intersects another and then grows, the grown box still intersects it and overlaps it on x, so the x-overlap test at line 202 never fails |
| Geometry.ContainsTransitive | mage/PDFMage.py:204-207 | box containment is transitive, so containment survives repeated growing |
| Geometry.Join | mage/PDFMage.py:204-207 | the componentwise min/max box contains both boxes and lies inside every box that contains both (least upper bound) |
| Geometry.Hull | mage/PDFMage.py:137-142 | the min/max box of a non-empty list encloses every box and attains each of its four sides on some member |
| Geometry.HullUnique | mage/PDFMage.py:137-142 | a list has at most one enclosing-and-attaining box |
| Geometry.HullSameMembers | mage/PDFMage.py:228-231 | lists with the same members have the same hull, so the order in which a column's clusters are listed does not matter |
| Geometry.Scale | mage/PDFMage.py:124-134 | scaling multiplies width by x and height by y, keeps the centre, and is the identity for x = y = 1 |
| Geometry.Corners | mage/functions.py:13-20 | exactly four corners, in the order (x0,y0), (x1,y0), (x0,y1), (x1,y1) |
| Geometry.WeightedDistSq | mage/functions.py:9-10 | the weighted squared distance is non-negative for non-negative weights and zero for equal points |
| Geometry.WeightedDistSqSymmetric | mage/functions.py:9-10 | the weighted squared distance is symmetric in its two points |
| Geometry.MinCornerDistanceSq | mage/functions.py:23-35 | the running-minimum loop returns a value that is at most each of the 16 corner-pair distances and equal to one of them |
| Geometry.MinCornerDistanceSymmetric | mage/functions.py:23-35 | swapping the two boxes gives the same minimum |
| Geometry.MinCornerDistanceUnique | mage/functions.py:23-35 | the minimum is determined by the boxes and weights |
| Sorting.Insert | mage/PDFMage.py:232 | inserting one keyed item lengthens the list by one |
| Sorting.InsertPermutation | mage/PDFMage.py:232 | insertion adds exactly the new item to the multiset |
| Sorting.InsertSorted | mage/PDFMage.py:232 | insertion into a key-sorted list keeps it key-sorted |
| Sorting.InsertStable | mage/PDFMage.py:232 | insertion places the new item before the existing items with the same key, so a sort that inserts each head into the sorted tail keeps equal keys in input order |
| Sorting.WithKeyAppend | mage/PDFMage.py:232 | the items with a given key in a concatenation are those of each part, in order |
| Sorting.SortByKey | mage/PDFMage.py:232 | sorting keeps the length |
| Sorting.SortPermutation | mage/PDFMage.py:232 | sorting is a permutation of its input |
| Sorting.SortSorted | mage/PDFMage.py:232 | the sorted list is non-decreasing by key |
| Sorting.SortStable | mage/PDFMage.py:232 | items with equal keys keep their input order, as with Python's stable `sorted` |
| Sorting.SortByKeyCorrect | mage/PDFMage.py:232 | sorted, a permutation, and stable for every key |
| Sorting.Items | mage/PDFMage.py:232 | dropping the keys keeps each item at its position |
| Sorting.InsertItems | mage/PDFMage.py:232 | insertion adds exactly the new item to the key-free multiset |
| Sorting.SortItems | mage/PDFMage.py:232 | the sorted items are a permutation of the input items |
| Sorting.ItemsSplit | mage/PDFMage.py:232 | dropping keys distributes over concatenation |
| Text.Join | mage/PDFMage.py:100 | `' '.join` of one piece is that piece |
| Text.Split | mage/PDFMage.py:100 | splitting at a separator yields at least one piece |
| Text.SplitFree | mage/PDFMage.py:100 | a piece without the separator splits to itself |
| Text.SplitAfterFree | mage/PDFMage.py:100 | a separator-free piece followed by the separator splits off as the first piece |
| Text.SplitJoin | mage/PDFMage.py:100 | splitting a join of separator-free pieces gives the pieces back |
| Text.JoinLength | mage/PDFMage.py:100 | a join is as long as its pieces plus one separator between each pair |
| Collections.FirstIndex | mage/PDFMage.py:203 | the position of the first occurrence of a present value: it holds the value and nothing before it does |
| Collections.Remove | mage/PDFMage.py:203 | `list.remove` of a present value shortens the list by one and drops only that value; for an absent value, where Python raises `ValueError`, the model returns the list unchanged |
| Collections.RemoveFirst | mage/PDFMage.py:203 | `list.remove` cuts out exactly the first occurrence and keeps the order of everything else |
| Collections.Without | mage/PDFMage.py:200-203 | the elements of a list not in a second list, in order: exactly the members of the first that are not members of the second |
| Collections.WithoutNone | mage/PDFMage.py:200-203 | leaving out nothing leaves the list as it was |
| Collections.RemoveWithout | mage/PDFMage.py:200-203 | on a list without duplicates, removing one more value after leaving out some is leaving out all of them, so the removals of the inner loop leave the pending list without the absorbed clusters |
| Collections.WithoutAbsent | mage/PDFMage.py:200-203 | leaving out one more value that the list does not hold changes nothing |
| Collections.PrefixTransitive | mage/PDFMage.py:54 | a prefix of a prefix is a prefix |
| Labelling.Visited | mage/PDFMage.py:180-182 | the visited labels are exactly the non-noise labels of the order, without repeats when the order has none |
| Labelling.Select | mage/PDFMage.py:227 | the items with one label are no more than all items |
| Labelling.SelectMember | mage/PDFMage.py:227 | an item is selected for a label exactly when some position holds that item with that label |
| Labelling.SelectNonEmpty | mage/PDFMage.py:227 | a label that occurs selects at least one item |
| Labelling.SelectAnyAdd | mage/PDFMage.py:227 | selecting one more label adds exactly that label's items |
| Labelling.GroupsDisjoint | mage/PDFMage.py:224-233 | the groups of distinct labels together are the items carrying any of these labels |
| Labelling.EmptySelectAny | mage/PDFMage.py:224-233 | no labels select nothing |
| Labelling.SelectAnySame | mage/PDFMage.py:224-233 | label sets that agree on the labels present select the same items |
| Labelling.Partition | mage/PDFMage.py:224-233 | one group per visited label together are exactly the non-noise items, each once |
| Words.AddNew | mage/PDFMage.py:47-54 | appending the incoming words that are new keeps the existing words as an unchanged prefix and adds at most one word per incoming word |
| Words.AddNewCovers | mage/PDFMage.py:47-54 | afterwards every incoming word has an equal (text and four coordinates) in the list |
| Words.AddNewAppends | mage/PDFMage.py:47-54 | every appended word is incoming and has no equal before it |
| Words.AddNewNoDuplicates | mage/PDFMage.py:47-54 | a duplicate-free list stays duplicate-free, even when the incoming list repeats a word |
| Words.DedupOccurs | mage/PDFMage.py:75-84 | removing duplicates keeps exactly the words that had an equal in the list |
| Words.DedupFirstOccurrences | mage/PDFMage.py:75-84 | the result is the first occurrence of each word, in original order |
| Words.DedupSound | mage/PDFMage.py:75-84 | the result is duplicate-free and every original word has an equal in it |
| Words.DedupFixed | mage/PDFMage.py:75-84 | a duplicate-free list is left as it is |
| Words.DedupIdempotent | mage/PDFMage.py:75-84 | removing duplicates twice is removing them once |
| Words.Kind | mage/PDFMage.py:39-44 | one word contributes bit 1, 2 or 4, or nothing |
| Words.Code | mage/PDFMage.py:36-45 | the code lies in 0..7, and each of its three bits says exactly one of numeric, alphabetic and special |
| Words.TextsCover | mage/PDFMage.py:36-45 | the signature depends only on the texts that occur |
| Words.DedupSignature | mage/PDFMage.py:75-84 | removing duplicates leaves the signature unchanged |
| Words.Label | mage/PDFMage.py:57-73 | the label is "Unknown" exactly when the type is not in 1..7 |
| Words.LabelInjective | mage/PDFMage.py:57-71 | the seven types 1..7 have seven different labels |
| Words.MixedWordsUnknown | mage/PDFMage.py:39-45 | a list of mixed alphanumeric words has type 0 and label "Unknown" |
| Words.Ab12Unknown | mage/PDFMage.py:39-45 | the word "ab12" alone gives type 0 and label "Unknown" |
| Words.AllKinds | mage/PDFMage.py:36-73 | a numeric, an alphabetic and a special word together give type 7 and its label |
| Clusters.WordsCluster.constructor | mage/PDFMage.py:27-34 | a new cluster holds the given words and box, with the type computed from those words |
| Clusters.WordsCluster.AnalyzeWords | mage/PDFMage.py:36-45 | the accumulated bits are the signature: bit 1 exactly when some word is numeric, bit 2 exactly when some non-numeric word is alphabetic, bit 4 exactly when some word is none of the three |
| Clusters.WordsCluster.AddWords | mage/PDFMage.py:47-55 | the words become the duplicate-aware append of the incoming ones, the box is unchanged, and the type is recomputed |
| Clusters.WordsCluster.GetType | mage/PDFMage.py:57-73 | "Unknown" exactly when the stored type is outside 1..7, which for a consistent cluster means that no word set a bit |
| Clusters.WordsCluster.RemoveDuplicateWords | mage/PDFMage.py:75-84 | the words become their first occurrences; the box and type stay, and the type remains right |
| Clusters.HasBitSnoc | mage/PDFMage.py:38-44 | one more word adds exactly its own bit |
| Clusters.TextsOf | mage/PDFMage.py:97-98 | the texts of the words, position by position |
| Clusters.CollectText | mage/PDFMage.py:94-100 | the result joins with blanks each cluster's word texts, each cluster followed by a newline piece |
| Clusters.CollectedTextSplits | mage/PDFMage.py:94-100 | splitting the collected text at blanks recovers the pieces when no word text holds a blank |
| Clusters.TokensFree | mage/PDFMage.py:94-100 | the pieces of a non-empty column contain no blank |
| PdfMage.ExtendWord | mage/PDFMage.py:121-134 | padding keeps the text and size and scales the box about its centre |
| PdfMage.ExtendWordsCoordinates | mage/PDFMage.py:121-135 | every word of the array is padded in place, and the same array is returned |
| PdfMage.ExtendWordGeometry | mage/PDFMage.py:121-134 | the new width is the old width times x and the new height the old height times y; the centre is fixed; x = y = 1 leaves the word unchanged |
| PdfMage.Boxes | mage/PDFMage.py:138-141 | the clusters' boxes, in order |
| PdfMage.ClustersBoundingBox | mage/PDFMage.py:137-142 | no box for an empty list (where `min` raises); otherwise a box that encloses every cluster and attains each side |
| PdfMage.WordBoxes | mage/PDFMage.py:184-185 | the words' boxes, in order |
| PdfMage.LabelBox | mage/PDFMage.py:183-185 | the box of a label is the hull of the boxes of its words |
| PdfMage.Within | mage/PDFMage.py:186-187 | a word is kept exactly when its box lies inside the cluster box |
| PdfMage.LabelWordsWithin | mage/PDFMage.py:183-187 | every word carrying a label is among the words of that label's cluster |
| PdfMage.BuildCluster | mage/PDFMage.py:183-188 | a new cluster whose box is the label's hull and whose words are the words inside it |
| PdfMage.AppendCluster | mage/PDFMage.py:189 | appending the next label's cluster, not yet in the list, keeps the per-label correspondence and the clusters distinct |
| PdfMage.VisitedStep | mage/PDFMage.py:180-182 | each label visited is a label of the labelling, and noise is skipped |
| PdfMage.ClusterWords | mage/PDFMage.py:173-190 | one distinct cluster per visited non-noise label, in visiting order, each built as its label's hull with the words inside it |
| ClusterStates.CoversSelf | mage/PDFMage.py:208 | every word of a list has an equal in that list |
| ClusterStates.CoversExtend | mage/PDFMage.py:208 | extending a list keeps every covered word covered |
| ClusterStates.AbsorbState | mage/PDFMage.py:204-208 | one absorption on states: the new box encloses both boxes, the old words stay a prefix, every absorbed word has an equal in the result, and the type is recomputed from the words |
| ClusterStates.AbsorbAllGrows | mage/PDFMage.py:200-208 | absorbing a list of states one after another gives a box enclosing the start box and each absorbed box, keeps the start words as a prefix, and covers every absorbed word |
| ClusterStates.Hits | mage/PDFMage.py:198-199 | the states whose box intersects the given box: exactly those, in order |
| ClusterStates.Misses | mage/PDFMage.py:198-203 | the states whose box does not intersect the given box, which the round leaves pending: exactly those, in order |
| ClusterStates.HitsMisses | mage/PDFMage.py:198-203 | every remaining state is either hit or missed, with none lost or repeated (as multisets) |
| ClusterStates.WorklistMerge | mage/PDFMage.py:193-211 | the merge on states; the output is no longer than the input and is empty only for an empty input |
| ClusterStates.WorklistMergeCovers | mage/PDFMage.py:193-211 | every input state's box lies inside some output box, whose words cover the input's words |
| ClusterStates.OverlappingMerge | mage/PDFMage.py:193-211 | the boxes (0,0,50,20) and (10,15,60,40) intersect and merge into one cluster with box (0,0,60,40) |
| ClusterStates.SeparateStay | mage/PDFMage.py:193-211 | two boxes far apart come out as two clusters, unchanged and in order |
| ClusterStates.WorklistMergeNotFixedPoint | mage/PDFMage.py:196-209 | for (0,0,1,1), (1,0,3,1), (3,0,4,1) the first box absorbs only the second, because the intersecting list is taken before it grows; the output boxes (0,0,3,1) and (3,0,4,1) still intersect |
| ClusterStates.WorklistStep | mage/PDFMage.py:196-209 | one round moves the absorbed head from the merge of the pending states to the emitted states, leaving the missed states pending |
| PdfMage.States | mage/PDFMage.py:193-211 | the clusters' states (words, box, type), in order |
| PdfMage.StartStates | mage/PDFMage.py:193-211 | the clusters' recorded start states, in order |
| PdfMage.StartStatesAppend | mage/PDFMage.py:198-203 | the start states of a concatenation are the concatenation of the start states |
| PdfMage.StartStatesTail | mage/PDFMage.py:197 | the start states of the list after `pop(0)` are the start states after the first |
| PdfMage.StartMap | mage/PDFMage.py:193 | every input cluster is mapped to its state at entry, and listing them gives the input's states |
| PdfMage.HitsBridge | mage/PDFMage.py:198-199 | while the pending clusters have their start boxes, the clusters collected by the intersection test have exactly the start states selected by `Hits` |
| PdfMage.MissesBridge | mage/PDFMage.py:198-203 | leaving out the collected clusters leaves exactly the start states selected by `Misses` |
| PdfMage.RoundStates | mage/PDFMage.py:197-203 | at the start of a round the collected clusters are distinct, pending and intersect the head, and the `Hits` and `Misses` correspondences hold |
| PdfMage.PopHead | mage/PDFMage.py:197-199 | popping and emitting the head keeps the ownership and containment invariants, the head still has its start state, and the collected clusters are described by `Hits` and `Misses` |
| PdfMage.StatesSnoc | mage/PDFMage.py:209 | appending the emitted cluster appends its state to the states of those emitted before |
| PdfMage.IntersectingWith | mage/PDFMage.py:198-199 | the pending clusters that intersect the popped one: exactly those, each once |
| PdfMage.Absorb | mage/PDFMage.py:203-208 | the receiving cluster's box becomes the join of both boxes and its words the duplicate-aware append of the absorbed words |
| PdfMage.BookkeepingStart | mage/PDFMage.py:194-196 | at the start every cluster is pending and none is emitted |
| PdfMage.BookkeepingPop | mage/PDFMage.py:197-209 | popping the head and emitting it keeps every cluster either pending or owned by exactly one emitted cluster |
| PdfMage.BookkeepingAbsorb | mage/PDFMage.py:203 | removing an absorbed cluster from the pending list makes the last emitted cluster its owner |
| PdfMage.AbsorbStep | mage/PDFMage.py:200-208 | after absorbing the k-th collected cluster, the pending list lacks exactly the first k + 1 collected clusters and the state is the start state with their start states absorbed in order |
| PdfMage.AbsorbIntersecting | mage/PDFMage.py:200-208 | the receiving cluster's state becomes the start state with the collected clusters' states absorbed in order, the pending list loses exactly the collected clusters, and the ownership and containment invariants are kept |
| PdfMage.AbsorbPending | mage/PDFMage.py:203-208 | one absorption: the cluster leaves the pending list, the receiver's state becomes `AbsorbState` of its state and the absorbed cluster's start state, and it owns the absorbed cluster; the ownership and containment invariants still hold |
| PdfMage.TrackedEmit | mage/PDFMage.py:209 | emitting the grown cluster keeps the containment invariant |
| PdfMage.MergeDone | mage/PDFMage.py:193-211 | with nothing pending, the invariants give the merge's results below |
| PdfMage.MergeRound | mage/PDFMage.py:197-209 | one round emits the head; its state becomes its start state with the start states of the pending clusters it intersects (`Hits`) absorbed in order; the pending list becomes the old one without those clusters, whose start states are the `Misses`; the states emitted before are unchanged; the ownership and containment invariants are kept |
| PdfMage.MergeRounds | mage/PDFMage.py:196-210 | the loop runs until nothing is pending, and the emitted clusters' states are `WorklistMerge` of the start states |
| PdfMage.MergeIntersectingClusters | mage/PDFMage.py:193-211 | the loop ends with nothing pending; the output is no longer than the input, starts with the first input cluster, and consists of distinct input clusters; every input cluster is owned by exactly one emitted cluster whose final box contains its original box and whose words cover its original words; absorbed clusters are unchanged; emitted boxes only grow; and the emitted clusters' states are exactly `WorklistMerge` of the input states |
| PdfMage.Keyed | mage/PDFMage.py:232 | each cluster keyed by its `y0` |
| PdfMage.SelectMembers | mage/PDFMage.py:227 | a column's clusters are input clusters |
| PdfMage.AppendColumn | mage/PDFMage.py:233 | appending the next label's column keeps the per-label correspondence |
| PdfMage.ClusterColumns | mage/PDFMage.py:214-234 | one column per visited non-noise label, each built from that label's clusters |
| PdfMage.KeyedItems | mage/PDFMage.py:232 | dropping the keys gives the clusters back |
| PdfMage.ColumnSorted | mage/PDFMage.py:232 | a column's clusters are in non-decreasing `y0` order |
| PdfMage.ColumnPermutation | mage/PDFMage.py:227-232 | a column's clusters are a permutation of its label's clusters |
| PdfMage.ColumnStable | mage/PDFMage.py:232 | clusters with equal `y0` keep their input order |
| PdfMage.ColumnBox | mage/PDFMage.py:228-231 | the column box is the hull of its label's clusters and equals the bounding box of the column's own clusters |
| PdfMage.ColumnsGroups | mage/PDFMage.py:224-233 | the columns together hold exactly the labels' groups |
| PdfMage.ColumnsPartition | mage/PDFMage.py:214-234 | every non-noise cluster lands in exactly one column, and no other cluster lands in any |
| MageFunctions.CustomMetricSq | mage/functions.py:4-6 | the squared point distance is non-negative and zero for equal points |
| MageFunctions.CustomMetricSymmetric | mage/functions.py:4-6 | symmetric in its two points |
| MageFunctions.EuclideanDistanceSq | mage/functions.py:9-10 | non-negative for non-negative weights, and zero for equal points |
| MageFunctions.EuclideanDistanceSymmetric | mage/functions.py:9-10 | symmetric for any weights |
| MageFunctions.EuclideanDistanceDefaults | mage/functions.py:9 | the default weights are wcoef = 40, hcoef = 1 |
| MageFunctions.MinBboxDistanceSq | mage/functions.py:23-35 | the minimum over the 16 corner pairs under wcoef = 1, hcoef = 30 |
| MageFunctions.MinBboxDistanceSymmetric | mage/functions.py:31 | under those weights the minimum is symmetric in the boxes and non-negative |
| MageFunctions.WeightedMetricSq | mage/functions.py:38-41 | dx^2 + 3 dy^2 is non-negative and zero for equal points |
| MageFunctions.WeightedMetricSymmetric | mage/functions.py:38-41 | symmetric in its two points |
| MageFunctions.BboxDistanceSq | mage/functions.py:44-55 | the centre distance is non-negative and zero for identical boxes |
| MageFunctions.BboxDistanceCentroids | mage/functions.py:44-55 | the box distance is the point distance between the two centroids, and symmetric |
| MainScript.EuclideanDistanceSq | main.py:14-15 | with its defaults wcoef = hcoef = 1 it is non-negative for non-negative weights and zero for equal points |
| MainScript.EuclideanDistanceUnitWeights | main.py:14-15 | with unit weights it is the plain point distance, and symmetric |
| MainScript.MinBboxDistanceSq | main.py:28-40 | the minimum over the 16 corner pairs under unit weights |
| MainScript.MinBboxDistanceExample | main.py:28-40 | for the boxes (0,0,10,10) and (12,0,22,10) the squared minimum is 4, that is a distance of 2 |
| MainScript.WithinSplit | main.py:82-86 | filtering by the box distributes over concatenation |
| MainScript.WordsInside | main.py:82-86 | the inner loop collects exactly the words inside the box, in order |
| MainScript.WithinOne | main.py:83-86 | a single word is kept exactly when its box lies inside the cluster box |
| MainScript.AppendClusterFor | main.py:87 | appending the next label's cluster keeps the per-label correspondence |
| MainScript.ClusterWords | main.py:62-88 | one cluster per visited non-noise label, in visiting order, with the label's hull as box and the words inside it |
| MainScript.ClusterForHoldsLabel | main.py:77-86 | every word carrying a label is among that label's cluster's words |
| MainScript.ClusterBoxes | main.py:91-94 | the clusters' boxes, in order |
| MainScript.GetClustersBoundingBox | main.py:90-95 | no box for an empty list; otherwise the box that encloses every cluster and attains each side |
| MainScript.ExtendCoordinates | main.py:141-170 | every word is padded in place about its centre by the factors x and y, and the words are returned in their order |
| MainScript.FirstIntersecting | main.py:192-198 | the first emitted cluster that intersects, or none when none does |
| MainScript.Absorb | main.py:201-206 | the receiving box contains both its previous box and the absorbed box, and the words are concatenated |
| MainScript.MergeIntersectingClusters | main.py:187-210 | the nested loop computes the first-fit merge |
| MainScript.PlaceGrows | main.py:190-208 | one step adds at most one cluster, only grows boxes, leaves the new box inside some cluster, and keeps the first cluster's words as a prefix |
| MainScript.FirstFitShape | main.py:187-210 | the output is no longer than the input and, for a non-empty input, is non-empty and starts with the first input cluster grown |
| MainScript.FirstFitCovers | main.py:187-210 | every input box lies inside some output box |
| MainScript.AllWordsAppend | main.py:206 | the words of a concatenation of clusters are the words of each part |
| MainScript.AllWordsUpdate | main.py:206 | absorbing a cluster adds exactly its words |
| MainScript.FirstFitWords | main.py:206 | the merge neither drops nor adds a word: same multiset, same total count |
| MainScript.KeyedWords | main.py:228 | each word keyed by (y0, x0) |
| MainScript.SortWordsOrdered | main.py:228 | the sorted words are ordered lexicographically by (y0, x0) |
| MainScript.SortWordsPermutation | main.py:228 | the sorted words are a permutation of the words |
| MainScript.SortWordsInClusters | main.py:226-229 | each cluster's words are sorted in place, and the same list is returned |
| MainScript.KeyedClusters | main.py:250 | each cluster keyed by its `y0` |
| MainScript.AppendColumnFor | main.py:252 | appending the next label's column keeps the per-label correspondence |
| MainScript.ClusterColumns | main.py:231-253 | one column per visited non-noise label, in visiting order |
| MainScript.ColumnForCorrect | main.py:243-250 | a column's clusters are in `y0` order, are a permutation of its label's clusters, and its box is their hull |
| MainScript.SortedKeysAreY0 | main.py:249 | after sorting, every entry is still keyed by its own cluster's `y0` |
| MainScript.OrderedByY0 | main.py:249 | entries sorted by their `y0` keys have clusters in non-decreasing `y0` order |
| MainScript.SortedByY0 | main.py:249 | sorting a group by `y0` leaves it in non-decreasing `y0` order and a permutation of the group |
| MainScript.ColumnsGroups | main.py:240-252 | the columns together hold exactly the labels' groups |
| MainScript.ColumnsPartition | main.py:231-253 | the columns partition the non-noise clusters |
| Main2Script.PadWord | main2.py:59-80 | text and size are kept and the box is scaled by 1.18 about its centre |
| Main2Script.PadWordSides | main2.py:61-72 | each side moves outward by 0.09 of the original width or height, and the centre stays put |
| Main2Script.ExtendCoordinates | main2.py:57-83 | every word is padded in place, and the words are returned in their order |
| Main2Script.WeightedMetricSq | main2.py:85-88 | 2 dx^2 + 4 dy^2 is non-negative and zero for equal points |
| Main2Script.WeightedMetricSymmetric | main2.py:85-88 | symmetric in its two points |
| Main2Script.AppendHull | main2.py:109 | appending the next label's box keeps every box the hull of its label's word boxes |
| Main2Script.ClusterWords | main2.py:101-110 | one box per visited non-noise label, equal to the hull of that label's word boxes |
| Main2Script.FirstIntersecting | main2.py:117-123 | the first emitted box that intersects, or none when none does |
| Main2Script.MergeIntersectingClusters | main2.py:112-133 | the nested loop computes the first-fit merge on boxes |
| Main2Script.PlaceGrows | main2.py:125-131 | one step adds at most one box, only grows boxes, and leaves the new box inside some box |
| Main2Script.FirstFitCovers | main2.py:112-133 | the output is no longer than the input, and every input box lies inside some output box |
| Variants.FirstIntersectingAgree | main.py:192-198 | both scripts choose the same receiving cluster |
| Variants.PlaceAgree | main.py:200-208 | one step of the two scripts agrees on boxes |
| Variants.MergesAgreeOnBoxes | main2.py:112-133 | on boxes the two scripts' merges are the same computation |
| Variants.PadWordIsExtendWord | main2.py:57-83 | `main2.py`'s fixed padding is the package padding with x = y = 1.18 |
| Variants.FirstFitNotFixedPoint | main2.py:112-133 | for input boxes (0,0,1,1), (3,0,4,1), (1,0,3,1) the output is (0,0,3,1), (3,0,4,1), and these two still intersect |
| DocGen.Step | docgen/docgen.py:20-22 | the advanced pointer stays in [0, len) and wraps to 0 exactly after the last word |
| DocGen.Pos | docgen/docgen.py:18-22 | the pointer after any number of steps stays in [0, len) |
| DocGen.Window | docgen/docgen.py:18-19 | n reads give n words, and none for n <= 0 |
| DocGen.PosSnoc | docgen/docgen.py:18-22 | n + 1 steps are n steps and one more |
| DocGen.WindowSnoc | docgen/docgen.py:18-19 | n + 1 reads are n reads and the word at the pointer after them |
| DocGen.WindowAt | docgen/docgen.py:18-22 | word i of the result is the buffer entry i steps after the start pointer, which is entry (p + i) mod len |
| DocGen.MulAtLeast | docgen/docgen.py:20-22 | a positive multiple of the buffer length is at least the length, which is what makes the remainder unique |
| DocGen.ModUnique | docgen/docgen.py:20-22 | the remainder is the unique r with a = q * len + r and 0 <= r < len |
| DocGen.ModStep | docgen/docgen.py:20-22 | adding one adds one to the remainder and wraps it to 0 at len, as the pointer step does |
| DocGen.PosMod | docgen/docgen.py:18-22 | the pointer after n steps from p is (p + n) mod len |
| DocGen.PosNoWrap | docgen/docgen.py:20-22 | before the end of the buffer the pointer just counts up |
| DocGen.PosCompose | docgen/docgen.py:18-22 | a + b steps are a steps followed by b steps |
| DocGen.PosFullTurn | docgen/docgen.py:18-22 | len(buffer) steps bring the pointer back to where it was |
| DocGen.WindowConcat | docgen/docgen.py:16-23 | reading a + b words gives the a words and then the b words from where they stopped |
| DocGen.TextFile.constructor | docgen/docgen.py:11-14 | the feed starts at word 0 of the given buffer |
| DocGen.TextFile.GetWords | docgen/docgen.py:16-23 | n <= 0 gives "" and keeps the pointer; n > 0 on an empty buffer fails; otherwise the n words from the pointer, wrapping, joined by single spaces, and the pointer ends n steps further on, at (p + n) mod len |
| DocGen.GetWordsSplits | docgen/docgen.py:23 | splitting the returned text at blanks gives the words read back |
| DocGen.Find | docgen/docgen.py:42-43 | a dictionary lookup finds the key's position, or none exactly when the key is absent |
| DocGen.FromList | docgen/docgen.py:42 | converting the subsection list keeps its length |
| DocGen.FromListAll | docgen/docgen.py:42 | if every item converts, the list converts to exactly those sections |
| DocGen.RoundTrip | docgen/docgen.py:32-43 | `from_dict(s.to_dict())` equals s: id, number and text are kept, and so are the subsections, recursively, in number and order |
| DocGen.FindAt | docgen/docgen.py:34-37 | a lookup returns the first position of a key |
| DocGen.ParagraphFor | docgen/docgen.py:95-105 | a numbered section's text is `<b>num</b> text`, an unnumbered one's is the raw text; BodyText exactly when there is no number and no subsections; Title exactly when there is no number but there are subsections; otherwise Heading with level min(5, depth + 1), which lies in 1..5 for depth >= 0 |
| DocGen.PreOrder | docgen/docgen.py:93-107 | the flattening of a section starts with the section at its own depth |
| DocGen.Paragraphs | docgen/docgen.py:93-107 | one paragraph per flattened entry |
| DocGen.ParagraphsAt | docgen/docgen.py:95-105 | paragraph k is the styled paragraph of entry k |
| DocGen.ParagraphsAppend | docgen/docgen.py:93-107 | paragraphs distribute over concatenation |
| DocGen.PreOrderListSnoc | docgen/docgen.py:106-107 | the subsections flatten one after another |
| DocGen.PreOrderCount | docgen/docgen.py:93-107 | the flattening has exactly one entry per section of the tree |
| DocGen.PreOrderListCount | docgen/docgen.py:106-107 | the subsections' flattening has one entry per section under them |
| DocGen.PreOrderDepths | docgen/docgen.py:106-107 | no section is flattened at a depth below the starting depth |
| DocGen.PreOrderListDepths | docgen/docgen.py:106-107 | the subsections' entries are at or below the given depth |
| DocGen.HeadingLevels | docgen/docgen.py:104 | every heading of a flattened tree has a level in 1..5 |
| DocGen.Elements.constructor | docgen/docgen.py:50 | the element list starts empty |
| DocGen.AddSectionToElements | docgen/docgen.py:93-107 | the element list grows by exactly the styled paragraphs of the section tree in pre-order |
| DocGen.FlattenStep | docgen/docgen.py:106-107 | handling one more subsection appends its flattening |
| DocGen.Regroup | docgen/docgen.py:106-107 | appending two runs of paragraphs one after the other is appending their concatenation |
| DocGen.FlattenDone | docgen/docgen.py:95-107 | the section's own paragraph followed by its subsections' flattening one level deeper is the section's flattening |

## Left out

- Density clustering (`sklearn.cluster.DBSCAN`): it is a foreign library. Its result is an input, one label per point plus the order in which `set(labels)` is visited. Nothing is claimed about its behaviour on an empty array, or about which points share a label.
- PDF extraction and rendering: `pdfplumber`, `pdf2image`, PIL and PyMuPDF are I/O. This covers `__extract_words`, `extract_words_with_coordinates`, `__create_image_from_page` and both scripts' `create_image_from_page`.
- `extract_text` (mage/PDFMage.py:236-264): the file and page loop is I/O and is not modelled. The page filter is left out with it. Its steps are modelled one by one, and `Words.DedupSignature` covers the duplicate removal after the merge.
- `__debug` and the timing calls: these are logging only.
- Script bodies that run on import: these are I/O. This covers main.py:255-278, main2.py:134-148 and the tail of `docgen/docgen.py`.
- `check_word_image_overlap` in both scripts: it only prints.
- `fitz_extract_image_bounding_boxes`: it uses an undefined name.
- reportlab: `create_pdf`, `create_pdf_with_columns` and `NumberedCanvas` are layout and rendering inside a library. The element list is modelled; the styles are an abstract `Style`.
- `generate_section`, `generate_paragraph` and the generators under `gen/`: they depend on `random`.
- The file read in `TextFile.__init__`: the buffer of words is given instead.
- `mage/config.py`: it holds default constants only. The default padding factors are parameters.
- Floating point: coordinates are reals. `sqrt` is avoided by comparing squared distances. The initial `float('inf')` of the corner minimum is a `Dist.Infinity` value. Rounding is not modelled.
- Unicode: `str.isnumeric`, `isalpha` and `isalnum` are restricted to ASCII digits and letters; an empty text is none of them.
- PdfMage.MergeIntersectingClusters: Python empties the caller's list in place, with `pop(0)` (mage/PDFMage.py:197) and `remove` (line 203). The model takes the list as a value, so the argument stays intact. `extract_text` rebinds `clusters` to the result (line 251), so no caller sees the difference.
- Collections.Remove: where Python's `list.remove` raises `ValueError` on an absent value, the model returns the list unchanged. The merge never reaches that case: `PdfMage.AbsorbPending` requires the removed cluster to be pending.
- Dictionary aliasing in the scripts: their clusters and words are dictionaries mutated through shared references. Here they are values, and each method states the new list.
- Sorting algorithm: Python's `sorted` and `list.sort` are Timsort. Both are modelled by a stable insertion sort, which has the same result; Timsort's steps are not modelled.
- `Section.from_dict`: a missing key, a `KeyError` or a `TypeError` gives `None`. The model also checks the kind of each field, which Python does not.
- `Section.section_number`: it is modelled as a string, as declared. The random generator stores integers there.
- `TextFile.get_words` on an empty buffer with n > 0: Python raises `IndexError`; the model returns `None`.
- PdfMage.ClusterWords: it does not state that the returned clusters are newly allocated objects. `PdfMage.BuildCluster` states this for each cluster; the loop uses it only to keep the clusters distinct.
- Geometry.WeightedDistSq: the converse, that a zero distance means equal points, is not proved.
- MageFunctions.CustomMetricSq: the converse, that a zero distance means equal points, is not proved.
- MageFunctions.WeightedMetricSq: the converse, that a zero distance means equal points, is not proved.
- MageFunctions.BboxDistanceSq: the converse, that a zero distance means equal centres, is not proved.
- Main2Script.WeightedMetricSq: the converse, that a zero distance means equal points, is not proved.
- The package merge (`__merge_intersecting_clusters`): the emitted boxes are not pairwise disjoint (`ClusterStates.WorklistMergeNotFixedPoint`), so no disjointness is claimed. `ClusterStates.WorklistMerge` is a ghost reference, because the content type it recomputes is a ghost function of the words.
- `main.py`'s `weighted_metric`, `bbox_distance` and `bbox_corners` are the same text as in the package. They are modelled once, in `MageFunctions` and `Geometry`.
