# Decision-tree learner: a verified model

This project models the in-memory core of `decisionTree.py`, a learner for
binary decision trees over data whose attribute values and class labels are
all "0" or "1". It covers these parts:

- **Tree.** The dictionary-based tree: internal nodes with their deciding
  attribute, training class counts and the children under each label key;
  leaves with their class; and the empty `{}` placeholder that
  `createInternalNode` puts under every key.
- **Data preparation.** `partitionDataSet` splits the rows on an attribute
  and drops its column; `getClassDivision` counts the labels.
- **Attribute selection.** The variance-impurity heuristic
  (`getDataVarianceImpurity`, `getVarianceImpurityOfAttribute`,
  `getVIGainOnAttribute`) in exact real arithmetic, and the argmax rule the
  two selectors share.
- **Training.** The recursive builder `trainDecisionTree`.
- **Evaluation.** `testDecisionTree`, which walks each row to a leaf and
  reports the percentage of rows classified correctly.
- **Pruning.** `getInternalNodeCount`; `pruneTree`, which walks the tree
  breadth first with a queue and collapses the P-th internal node into a
  leaf of its most common class; and `postPruneDecisionTree`, which tries
  randomly pruned copies and keeps one only when it is strictly more accurate
  on the validation rows.

The loops of `getClassDivision`, `partitionDataSet`, `getDataVarianceImpurity`,
`getVarianceImpurityOfAttribute`, `testDecisionTree`, `pruneTree` and
`postPruneDecisionTree` are methods, each proved equal to a specification
function. The remaining loops are written as functions and not as methods:

- the placeholder loop of `createInternalNode` (`Tree.CreateInternalNode`);
- the gain-list loops of the two selectors (`Impurity.Gains`);
- the label-counting loop and purity test of `trainDecisionTree`
  (`Dataset.ClassDivision`, `Training.Pure`);
- its loop over the two child buckets (`Training.Grow`).

These loops run over the two labels, or build one value from the rows without
updating anything else. The properties the program relies on are proved about
the specification functions.

Modules:

- `Common`: rows, headers, the label domain, errors, and `list.index` and `del`.
- `Tree`: the node datatype, paths into a tree, and the in-place collapse.
- `Dataset`: selection, counting and partition.
- `Impurity`: the variance impurity, the gain, and attribute selection.
- `Training`: the builder.
- `Evaluation`: classification and accuracy.
- `Pruning`: the breadth-first count, the pruner, and post-pruning.

When the rows of mixed labels all fall on one side of the chosen attribute,
and more than the label column remains after the split, the program makes a
leaf of that side's key. That key is a value of the attribute, not a label of
the rows. The model keeps this as written (`Training.TrainSingleBranch`): for
binary data the two come from the same domain. When only the label column
remains, the program returns the node with its two `{}` placeholders instead
(`Training.TrainLastAttribute`).

The program changes a node in place through a reference its parent also
holds. The model names the node by the path of label keys that leads to it
from the root. The in-place change becomes the replacement of the subtree at
that path (`Tree.ReplaceAt`), and the pruner's queue holds each node together
with its path.

## Model

| member | source | states |
|---|---|---|
| Common.IndexOf | decisionTree.py:145 | `headers.index(attr)`: the position of the first occurrence |
| Common.Delete | decisionTree.py:151 | `del s[pos]`: one element shorter; the elements before `pos` are kept, and the ones after it shift down by one |
| Common.DeleteDistinct | decisionTree.py:153-154 | deleting one entry from a header without repeats removes exactly that name and keeps every other name |
| Tree.CreateInternalNode | decisionTree.py:29-36 | an internal node testing `attr`, with empty class counts and a placeholder under every key; it is not well-formed |
| Tree.CreateLeafNode | decisionTree.py:38-42 | a well-formed leaf of class `c` with no internal nodes |
| Tree.InternalCount | decisionTree.py:233-236 | the count of internal nodes; a well-formed tree has `2n + 1` nodes in all, and `n` is 0 exactly for a leaf |
| Tree.MostCommon | decisionTree.py:250-254 | a key of the counter with the largest count; "1" only when it strictly outnumbers "0" |
| Tree.ReplaceAt | decisionTree.py:253-258 | after the in-place change, the path still leads to a node, and that node is the new one |
| Tree.ReplaceAtCount | decisionTree.py:233-236 | replacing a subtree changes the internal count by the new subtree's count minus the old one's |
| Tree.ReplaceAtElsewhere | decisionTree.py:253-258 | a node neither above nor below the changed one is unchanged |
| Tree.ReplaceAtAncestor | decisionTree.py:253-258 | a node above the changed one keeps its attribute and its class counts |
| Tree.ReplaceAtRecorded | decisionTree.py:253-258 | writing a subtree with usable class counts keeps them usable in the whole tree |
| Tree.AtWellFormed | decisionTree.py:233-236 | the subtree at a path of a well-formed tree is well-formed, with usable counts if the tree has them |
| Tree.AtExtend | decisionTree.py:248-249 | one step down a path reaches the child under that key |
| Tree.Collapse | decisionTree.py:250-258 | definition: the subtree at the path is replaced by the leaf of its node's most common training class |
| Tree.CollapseEffect | decisionTree.py:250-258 | the collapsed tree is well-formed, has fewer internal nodes by exactly the count of the collapsed subtree (at least one), and holds the leaf of the majority class at the collapsed position |
| Dataset.Filter | decisionTree.py:114-117 | the rows whose field at `col` equals `v`, no more of them than there were rows |
| Dataset.FilterMembers | decisionTree.py:114-117 | every selected row is a row of the data |
| Dataset.CountPositive | decisionTree.py:159-162 | a label has a positive count exactly when some row carries it |
| Dataset.CountAll | decisionTree.py:181-183 | a label's count equals the number of rows exactly when every row carries it |
| Dataset.CountsSum | decisionTree.py:159-162 | on binary labels, the two label counts add up to the number of rows |
| Dataset.ClassDivision | decisionTree.py:157-163 | definition: the counter built by adding one under each row's value at the column, taking the rows in order |
| Dataset.ClassDivisionCounts | decisionTree.py:157-163 | the counter holds each label's count and has a key only for labels that occur |
| Dataset.ClassDivisionOk | decisionTree.py:157-163 | the counter of non-empty binary rows is non-empty and keyed only by labels of the domain |
| Dataset.ClassDivisionNext | decisionTree.py:159-162 | counting one more row adds one under its label and keeps the other counts |
| Dataset.GetClassDivision | decisionTree.py:157-163 | the counting loop yields the label counter, or an empty counter when there are no rows or no header |
| Dataset.Project | decisionTree.py:150-151 | each row with the field at the position deleted, in order |
| Dataset.PartitionRows | decisionTree.py:149-152 | definition: the rows taken in order, each appended without the attribute's column to the bucket of its value; the first value other than "0" or "1" fails with that value |
| Dataset.Partition | decisionTree.py:144-155 | definition: an absent attribute fails; otherwise the two buckets of `PartitionRows` at the attribute's first position, with the header minus that position |
| Dataset.PartitionRowsErr | decisionTree.py:152 | a failing prefix makes the whole partition fail with the same error |
| Dataset.PartitionDataSet | decisionTree.py:144-155 | the bucketing loop equals the partition specification, including its failures |
| Dataset.PartitionRowsSpec | decisionTree.py:149-152 | the loop succeeds exactly when every value at the attribute's position is a label key; each bucket is the selected rows, in input order, with that column deleted |
| Dataset.PartitionRowsOk | decisionTree.py:149-152 | the bucketing loop succeeds exactly when every value at the attribute's position is a label key |
| Dataset.PartitionRowsBuckets | decisionTree.py:149-152 | after a successful loop each bucket holds the rows with its key, in input order, with that column deleted |
| Dataset.PartitionRowsFirstBad | decisionTree.py:149-152 | the partition fails with the first value at the attribute's position that is not a label key |
| Dataset.PartitionSpec | decisionTree.py:144-155 | an absent attribute fails; otherwise the partition succeeds exactly when all values are keys, and fails with the first value that is not one; on success each bucket holds the rows with that value in order with the column dropped, the bucket sizes sum to the row count, and the new header lacks exactly that position |
| Dataset.PartitionBinary | decisionTree.py:144-155 | the buckets of binary rows are binary |
| Dataset.ProjectCount | decisionTree.py:150-151 | dropping an earlier column keeps the label counts |
| Dataset.FilterSplitCount | decisionTree.py:114-117 | a label's count in the two value-selected subsets adds up to its count in all rows |
| Impurity.DataVarianceImpurity | decisionTree.py:97-107 | definition: the fraction of label "0" times the fraction of label "1" among the rows; 0 for no rows |
| Impurity.SubsetVarianceImpurity | decisionTree.py:109-125 | definition: over the rows whose `attr` field is `value`, the product of the two label fractions, or 0 when one label is absent, paired with the number of those rows |
| Impurity.Weighted | decisionTree.py:132 | definition: a per-value impurity times the share of the rows its subset makes up |
| Impurity.VarianceGain | decisionTree.py:127-134 | definition: the whole-set impurity minus the two weighted per-value impurities; 0 when the header lacks `attr` |
| Impurity.GetDataVarianceImpurity | decisionTree.py:97-107 | the counting loop and the product over the domain equal the whole-set impurity |
| Impurity.CounterProduct | decisionTree.py:103-105 | the product over the label counter is the product of the two label fractions |
| Impurity.CountSelected | decisionTree.py:113-117 | the loop's counter and size are the label counter and the number of the rows holding `value` |
| Impurity.CountSelectedStep | decisionTree.py:113-117 | a row holding `value` adds one under its label and to the size; any other row changes neither |
| Impurity.CountSelectedNext | decisionTree.py:113-117 | the counter and size after one more row are those of the longer prefix |
| Impurity.FractionProductStep | decisionTree.py:103-105 | one more factor of the loop extends the product over the labels by that label's fraction |
| Impurity.GetVarianceImpurityOfAttribute | decisionTree.py:109-125 | the loop, the early return and the product equal the per-value impurity and subset size |
| Impurity.SubsetFromCounter | decisionTree.py:118-124 | the per-value impurity is 0 when a label is absent from the subset, otherwise the product of its two label fractions |
| Impurity.FractionProductBounds | decisionTree.py:103-106 | two fractions summing to one have a product in [0, 1/4]: 0 exactly when one is 0, and 1/4 exactly when they are equal |
| Impurity.DataVarianceImpurityRange | decisionTree.py:97-107 | the impurity is 0 on no rows and lies in [0, 1/4]; it is 0 exactly on rows of one label and 1/4 exactly on an even split |
| Impurity.SubsetVarianceImpurityIsImpurityOfSubset | decisionTree.py:118-124 | the early return changes nothing: the per-value impurity is the whole-set impurity of the selected rows |
| Impurity.SplitImpurityBound | decisionTree.py:132 | the weighted impurities of the two sides of a split sum to at most the whole-set impurity |
| Impurity.VarianceGainRange | decisionTree.py:127-134 | the gain lies between 0 and the whole-set impurity |
| Impurity.SplitGainRange | decisionTree.py:127-134 | for an attribute the header names, the gain lies between 0 and the whole-set impurity |
| Impurity.GainTerms | decisionTree.py:127-134 | `a0`, `a1` are the label counts of the rows with `attr` = "0" and `b0`, `b1` those of the rows with `attr` = "1"; together they make up the whole set's label counts, and the gain is the whole-set impurity minus the side impurities of these counts |
| Impurity.SplitSides | decisionTree.py:114-124 | the label counts of the two sides of the split add up to the whole set's, and each weighted per-value impurity is the side impurity of its side's counts |
| Impurity.DecidedSubset | decisionTree.py:118-124 | an attribute that agrees with the label on every row selects subsets of one label, whose impurity is 0 |
| Impurity.PerfectGain | decisionTree.py:127-134 | an attribute that agrees with the label on every row has the whole-set impurity as its gain |
| Impurity.Gains | decisionTree.py:138-140 | one gain per non-label attribute, in header order; as many as there are non-label columns |
| Impurity.ArgMax | decisionTree.py:91 | `l.index(max(l))`: a position of the largest value, with every earlier value strictly smaller |
| Impurity.BestAttributeIndex | decisionTree.py:86-92 | the first non-label attribute of largest gain; position 0 when there are no rows or only the label column |
| Impurity.SelectBest | decisionTree.py:136-142 | the selected attribute is a header name |
| Impurity.VarianceSelect | decisionTree.py:136-142 | definition: the argmax selection of `SelectBest` with the variance gain |
| Training.Pure | decisionTree.py:175-183 | definition: there are rows, and the first row's label accounts for all of them |
| Training.Train | decisionTree.py:165-197 | definition: the leaf of the common label on pure rows, otherwise `Grow` |
| Training.Grow | decisionTree.py:184-197 | definition: select the attribute, record the label counter, partition on it; train each bucket that is non-empty with more than the label column left; two such buckets give the node over both subtrees, one gives the leaf of its key, none gives the node with its two placeholders |
| Training.PureIffCounter | decisionTree.py:175-183 | the counter test holds exactly when there are rows and all share one label, and the key it finds is that label |
| Training.TrainStep | decisionTree.py:184-197 | on impure rows the root tests the best attribute and partitions on it; each bucket is recursed on only when non-empty with more than the label column left; one such bucket gives the leaf of its key, none gives the node with placeholders |
| Training.TrainPure | decisionTree.py:175-183 | rows that all share label `c` train into the single leaf `c` |
| Training.TrainCounts | decisionTree.py:184-186 | an internal root tests the selected attribute and records the label counts of its rows, and every internal node of a tree trained on rows records usable counts |
| Training.TrainTested | decisionTree.py:184-194 | with distinct header names, every attribute the trained tree tests is a non-label column of the header |
| Training.TrainNoRetest | decisionTree.py:187-194 | with distinct header names, no attribute is tested twice on a root-to-leaf path |
| Training.TrainShape | decisionTree.py:184-197 | on impure rows the root tests the selected attribute, a non-label one, and records the rows' label counts; the children are trained on the two buckets of the partition on it, under the header without that attribute; a single non-empty recursable bucket gives its key's leaf |
| Training.TrainWhenPure | decisionTree.py:175-183 | rows all sharing a label train into the leaf of the first row's label |
| Training.TrainHeight | decisionTree.py:187-194 | the tree is no taller than the number of attribute columns |
| Training.TrainLeaves | decisionTree.py:183-196 | every leaf predicts a label of the domain |
| Training.TrainLastAttribute | decisionTree.py:188-197 | with one attribute column left and mixed labels, the node keeps both placeholders and the tree is not well-formed |
| Training.PerfectFirstSelected | decisionTree.py:136-142 | the first attribute, if it predicts the label on every row, is the one selected |
| Training.BothLabels | decisionTree.py:181-183 | binary rows that do not all share a label hold a row of each label |
| Training.TrainPerfectFirst | decisionTree.py:165-197 | a first attribute that predicts the label, with both labels present, gives a single test over two leaves |
| Training.TrainSingleBranch | decisionTree.py:190-196 | if the selected attribute takes one value `v` on every row and the labels are mixed, the tree is the leaf `v`, a value of the attribute |
| Evaluation.Route | decisionTree.py:202-206 | the keys a row follows from the root form a path of the tree |
| Evaluation.Classify | decisionTree.py:202-206 | the walk ends at the leaf reached along the row's route; it fails only at a placeholder, which a well-formed tree lacks, at a missing attribute, or at a value without a branch |
| Evaluation.ClassifyErrors | decisionTree.py:202-206 | a missing attribute is one the tree tests and the header lacks; a value without a branch is a field of the row outside the label keys; a well-formed tree whose attributes the header names classifies every row of label keys, into the label domain when its leaves are |
| Evaluation.Hit | decisionTree.py:207-210 | a row counts as correct exactly when its leaf predicts its last field |
| Evaluation.Correct | decisionTree.py:200-210 | the count of correct rows is at most the row count |
| Evaluation.CorrectOk | decisionTree.py:200-210 | the count is defined exactly when every row can be classified |
| Evaluation.Accuracy | decisionTree.py:211 | a failing row's error is passed on; no rows divide by zero; otherwise the value lies in [0, 100] |
| Evaluation.Percent | decisionTree.py:211 | definition: the count of correct rows times 100 over the row count, in exact arithmetic |
| Evaluation.PercentBounds | decisionTree.py:211 | a share of the rows gives a percentage in [0, 100]: 100 exactly for all rows and 0 exactly for none |
| Evaluation.CorrectFirstError | decisionTree.py:200-210 | the failure reported is the first failing row's, and every earlier row was classified |
| Evaluation.CorrectPrefixError | decisionTree.py:200-210 | once some rows fail, the whole test fails the same way |
| Evaluation.CorrectAll | decisionTree.py:207-210 | the count equals the number of rows exactly when every row is classified correctly |
| Evaluation.CorrectNone | decisionTree.py:207-210 | the count is zero exactly when every row is classified, and none correctly |
| Evaluation.AccuracyExtremes | decisionTree.py:199-211 | the accuracy is 100 exactly when every row is right, and 0 exactly when every row is classified but none right |
| Evaluation.CorrectStep | decisionTree.py:201-210 | one more row adds its outcome to the count of the earlier rows |
| Evaluation.CorrectUpToPrefix | decisionTree.py:200-210 | the count the loop keeps over the first `n` rows is the count of that prefix |
| Evaluation.CorrectUpToError | decisionTree.py:200-210 | a failure among the first rows is the failure of the whole loop |
| Evaluation.Walk | decisionTree.py:202-206 | the inner loop returns the class of the leaf the row reaches, or the failure that stops it |
| Evaluation.TestDecisionTree | decisionTree.py:199-211 | the nested loops return the accuracy, or the first row's failure |
| Pruning.LevelOrder | decisionTree.py:241-249 | definition: the paths of the internal entries of the queue in order, then what the queue of their children yields |
| Pruning.BfsOrder | decisionTree.py:238-249 | definition: what the queue holding the root alone yields |
| Pruning.ChildrenSmaller | decisionTree.py:248-249 | the children appended are smaller than the entries popped |
| Pruning.Rotate | decisionTree.py:243-249 | popping the head of the queue and appending its children keeps the order in which the internal nodes are met |
| Pruning.ChildrenConsistent | decisionTree.py:248-249 | the appended children are the nodes their paths reach |
| Pruning.LevelOrderValid | decisionTree.py:241-249 | every path the queue yields leads to an internal node |
| Pruning.LevelOrderCount | decisionTree.py:233-249 | the queue yields as many paths as its trees have internal nodes |
| Pruning.ChildrenOfSum | decisionTree.py:233-236 | the children of a well-formed node are well-formed and hold all its internal nodes but itself |
| Pruning.LevelOrderDepth | decisionTree.py:241-249 | the internal nodes are met shortest path first |
| Pruning.BfsOrderSpec | decisionTree.py:238-249 | the counting order lists each internal node exactly once, as many as `getInternalNodeCount` gives for a well-formed tree; the root comes first, shorter paths before longer ones, and within a level "0" before "1" in lexicographic order |
| Pruning.RankRange | decisionTree.py:248-249 | the nodes at depth `n` carry the breadth-first numbers from `2^n` to `2^(n+1) - 1` |
| Pruning.RankInjective | decisionTree.py:248-249 | two paths of one length with the same breadth-first number are the same path |
| Pruning.RankLex | decisionTree.py:248-249 | within one length, a smaller breadth-first number means exactly lexicographic order with "0" before "1" |
| Pruning.RankOrder | decisionTree.py:241-249 | a smaller breadth-first number means exactly a shorter path, or one of the same length that is lexicographically earlier |
| Pruning.InternalsIncreasing | decisionTree.py:244-247 | counting the internal nodes of a queue ordered by breadth-first number keeps that order |
| Pruning.ChildrenIncreasing | decisionTree.py:248-249 | appending the "0" child and then the "1" child of each entry, in queue order, yields the next level in order |
| Pruning.LevelOrderIncreasing | decisionTree.py:241-249 | a queue holding one level in order yields the internal nodes in strictly increasing breadth-first number |
| Pruning.Pop | decisionTree.py:243-249 | one turn of the queue loop keeps the entries consistent and the count order; popping a leaf shrinks the queue |
| Pruning.PopConsistent | decisionTree.py:243-249 | the popped entry and the queue after the turn are the nodes their paths reach |
| Pruning.PopOrder | decisionTree.py:243-249 | a popped internal node is the next in breadth-first order, and the new queue yields the rest |
| Pruning.PopFront | decisionTree.py:243-249 | after the head is popped and its children appended, the counted paths and what the new queue yields still make up the whole order |
| Pruning.PopSmaller | decisionTree.py:243-249 | popping a leaf or a placeholder shrinks the queue |
| Pruning.PruneTree | decisionTree.py:238-259 | the loop stops at the `nodeToPrune`-th internal node in breadth-first order, and that node becomes the leaf of its most common class |
| Pruning.ClassifyReplace | decisionTree.py:202-206 | a subtree replacement changes the class of exactly the rows whose route passes through it |
| Pruning.CollapseClassify | decisionTree.py:250-258 | a collapse gives the majority class to exactly the rows reaching the node, keeps the class of every other row, and keeps every classifiable row classifiable |
| Pruning.PruneAt | decisionTree.py:238-259 | pruning keeps the tree well-formed with usable counts, and lowers its internal count |
| Pruning.PruneRoot | decisionTree.py:238-259 | pruning node 1 collapses the whole tree into the leaf of the root's majority class |
| Pruning.PruneAtClassify | decisionTree.py:238-259 | pruning keeps every validation row classifiable |
| Pruning.Candidate | decisionTree.py:265-271 | a round's pruned copy is well-formed with no more internal nodes; a step with one internal node or fewer changes nothing |
| Pruning.CandidateClassify | decisionTree.py:272 | a round's candidate can be evaluated on the validation rows whenever the input tree can |
| Pruning.Best | decisionTree.py:262-276 | the kept tree's accuracy is the one recorded, at least the input's; when it is no better, the kept tree is the input |
| Pruning.BestIsMax | decisionTree.py:273-275 | no round's candidate is more accurate than the kept tree |
| Pruning.BestAtLeast | decisionTree.py:272-275 | the candidate of any one round can be evaluated and is no more accurate than the tree kept after the last round |
| Pruning.BestLast | decisionTree.py:272-275 | the last round never lowers the kept accuracy, and the kept accuracy is at least that round's candidate's |
| Pruning.BestIsTried | decisionTree.py:262-276 | the kept tree is the input or one of the candidates |
| Pruning.BestStep | decisionTree.py:273-275 | a candidate replaces the kept tree only when strictly more accurate |
| Pruning.PruneRound | decisionTree.py:267-271 | the inner loop produces the round's candidate |
| Pruning.PostPruneDecisionTree | decisionTree.py:261-276 | the loops return the kept tree, or the failure of the first test of the input tree |

## Left out

- The entropy heuristic (`getDataEntropy`, `getEntropyOfAttribute`, `getEGainOnAttribute`) is left out, because it needs `math.log` on floats. Both selectors share the argmax rule, which takes the gain as a parameter (`Impurity.Gain`). The variance gain is the one modelled.
- Floating point: the impurities, the gains and the accuracy are exact reals, so rounding is not modelled.
- File and CSV input (`extractData`, `train`, `test`), the command line, and `printTree` are left out. The core receives rows and headers as values, and the validation rows of post-pruning are a parameter.
- `dataClasses` is fixed to the labels "0" and "1" (`Common.DataClasses`). The program collects it from the labels of every file it reads: `extractData` appends each new label, and `test` reads its file through `extractData` too, so a later `train` also sees the labels of the files tested before it.
- Training.Train requires every field of every row to be "0" or "1" (`Common.Binary`). The program raises only when the selected attribute's column holds another value; that error is modelled by `Dataset.Partition`, but training does not reach it. The model therefore does not train on rows with other values in columns that are never selected, nor on pure rows with such values, both of which the program trains without error.
- `random.randint` is replaced by the `draws` parameter of `Pruning.PostPruneDecisionTree`. Round `i` draws M = `|draws[i]|` in [1, K], and its `j`-th prune picks node `1 + draws[i][j] % N`. When K = 0 and L > 0, `random.randint(1, K)` raises; no `draws` meets the bound then, so that failure is not modelled.
- Training.Train requires at least two header columns. The program's `len(headers) == 1` branch indexes `keys()` by a count and falls through without returning, so it is not modelled.
- Impurity.SubsetVarianceImpurity requires the attribute to be a header name. The program returns a bare `0` there instead of a pair, which the gain never reaches.
- Impurity.CountSelected keeps the subset's size separately from the label counter. The program stores it in the same counter under the key 'size'.
- Tree.MostCommon breaks a tie between the two labels in favour of "0". `Counter.most_common` leaves the order of equal counts unspecified.
- Pruning.PruneTree requires `1 <= nodeToPrune <=` the number of internal nodes, which is the range its only caller draws from. Outside that range the program collapses the root or empties the queue and raises.
- Pruning.PostPruneDecisionTree and Tree.InternalCount require a well-formed tree. On a tree with a placeholder the program's count raises.
- Pruning.PruneTree, Pruning.PruneAt, Pruning.Candidate and Pruning.PostPruneDecisionTree require `CountsRecorded`: every internal node holds a non-empty label counter. On an empty counter `most_common(1)[0]` raises. Every trained tree has this property (`Training.TrainCounts`).
- `copy.deepcopy` and the sharing of nodes between trees are not modelled: trees are values, so a copy can never alias the original.
- Evaluation.Classify reports each way the walk can raise as an `Error` value: a placeholder, an attribute missing from the header, or a value without a branch. It does not model Python's exception types.
