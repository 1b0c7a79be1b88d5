# Tree-edit-distance entailment scorer: the logic around the distance engine

This project models, in Dafny, the part of the Recognizing-Textual-Entailment
scorer (`part2.py`) that surrounds the tree-edit-distance call:

- the forest builder `make_tree`, which turns a dependency-parsed sentence (a
  flat list of nodes with optional parent ids) into an ordered forest, labelling
  word nodes with their lemma and artificial nodes (ids starting with `E`) with
  their id;
- the assembly of all text (hypothesis) sentence roots under a synthetic `"T"`
  (`"H"`) anchor, and the two calls into the engine, including the baseline
  cost of building the hypothesis from a single empty-labelled node;
- the cost policies `unit_costs_ent` and `unit_costs_idf`;
- the inverse-frequency table `calculate_idf`;
- the decision rule: directional distance over baseline, compared strictly
  against the threshold 0.50 (a larger ratio means YES; the polarity is kept as
  the code has it).

The edit-distance engine (`distance`, `Node`, `unit_costs` from
`tree_edit_dist`) is not part of this model. It enters as a parameter
`distance: (Tree, Tree, CostModel) -> real`, and every statement about distances
is made relative to that parameter.

Modules, one per component: `Wrappers` (Option/Result), `Sentences` (input
records), `Trees` (the immutable `Tree` value and node counts), `TreeBuilder`
(the builder and its structural characterisation `Shaped`), `BuilderSize` (node
count preservation), `BuilderExamples` (worked sentences), `Assembly` (the per-pair
build loops as `BuildSentences`, anchors and engine calls), `Costs`, `Idf`,
`Entailment` (decision rule and scorer).

The builder is modelled as the source's two passes over an arena: `Attached`
is the child list that pass two accumulates for an id (and, for the key `""`,
the root list), and `Subtree` reads the resulting object graph off as a tree.
`Subtree` skips a child already on the path from the root, so it terminates on
any input; `SubtreeShaped` proves that, for sentences with distinct ids, below a root no
such child exists, so nothing is ever skipped. For sentences with distinct ids,
nodes on a parent cycle are unreachable from every root and do not appear in
the forest, exactly as in the source's object graph.

Where the model departs from the code:

- `calculate_idf` (part2.py:126-144) iterates over a `Sentence` object rather
  than its `nodes` (part2.py:132, 137), calls `defaultdict` (part2.py:128)
  although part2.py imports no `defaultdict` by name, and binds a local `IDF`
  that shadows the module-level table, which therefore stays empty. The model computes what the code evidently
  intends: counts over every word node's lemma, inverted.
- `unit_costs_idf` reads `node1.word` (part2.py:122), but `make_tree` builds
  each `Node` from a label alone (part2.py:84, 86); the model looks the first
  node's label up. The table is passed explicitly instead of being read from a global.
- The IDF table's contents come from the intended `calculate_idf`, but its
  behaviour on a missing key is that of the plain `dict()` at part2.py:7, which
  `unit_costs_idf` reads: the lookup fails. As written, that global stays
  empty, so every label change under the IDF policy would fail; and had
  `calculate_idf`'s own `defaultdict(int)` (part2.py:128, 144) reached the
  lookup instead, a missing key would cost 0 rather than fail.
- The baseline is the distance from `Node("")`, a single node with an empty
  label (part2.py:76).
- A word node is labelled with its lemma (part2.py:84); the code applies no
  test to the lemma, so an empty lemma gives an empty label.
- The ratio `d / cost_by_inserting` (part2.py:165) raises a division error when
  the baseline is zero; the model returns an explicit `ZeroBaseline` failure.
- Under the IDF policy, relabelling the `"T"` anchor (part2.py:57) into the
  `"H"` anchor (part2.py:61), or an artificial node labelled by its id, looks a
  label up in the table (part2.py:122) that is not a lemma. With the
  plain-dict behaviour on a missing key, `IdfAnchorsMissTable` states that
  this lookup fails when `"T"` is not a corpus lemma.

## Model

| member | source | states |
|---|---|---|
| TreeBuilder.Attached | part2.py:88-92 | the child list pass two builds for an id (the root list for `""`): exactly the nodes naming that parent, each once, in sentence order, including nodes listed before their parent |
| TreeBuilder.FirstDangling | part2.py:88-90 | finds the first node, in sentence order, whose non-empty parent id matches no node, or reports that none exists |
| TreeBuilder.MakeTree | part2.py:78-94 | the build fails exactly when some non-empty parent id names no node of the sentence, and then with the error of the first such node |
| TreeBuilder.ShapedUnique | part2.py:82-90 | the description "label from the node, children one for one from the nodes naming it as parent" determines a tree completely |
| TreeBuilder.ChildOffPath | part2.py:88-90 | a node naming the last node of a root path as parent is never on that path, so parent links from a root never loop back |
| TreeBuilder.ExtendPath | part2.py:88-90 | appending such a child to a root path yields a root path |
| TreeBuilder.SubtreeShaped | part2.py:82-90 | the tree built for a node reached from a root has the node's label (lemma for a word, id for an artificial node) and exactly the trees of the nodes naming it as parent, in sentence order |
| TreeBuilder.MakeTreeShape | part2.py:78-94 | a successful build returns one tree per parentless node, in sentence order, each with the labels and children above |
| BuilderSize.SizePreserved | part2.py:82-94 | when parent links resolve and are acyclic, the build succeeds and its forest has exactly one tree node per sentence node |
| BuilderSize.ShapedSize | part2.py:82-90 | a node's tree has as many nodes as there are sentence nodes at or below it |
| BuilderSize.DescSplit | part2.py:88-90 | the nodes below a node are the node itself plus, disjointly, the nodes below its children, each child one level deeper |
| BuilderSize.SiblingSizes | part2.py:88-90 | sibling subtrees share no node, so their sizes add up |
| BuilderSize.RootsCoverAll | part2.py:88-92 | with acyclic links every sentence node lies below some root |
| BuilderSize.DepthResolves | part2.py:89-90 | with a depth labelling no parent id dangles |
| BuilderExamples.ChildBeforeParent | part2.py:78-94 | a node listed before its parent, and an artificial node, both end up as that parent's children, in sentence order, labelled by lemma and by id |
| BuilderExamples.UnknownParentFails | part2.py:88-90 | a parent id `Z99` that names no node makes the build fail with that id |
| BuilderExamples.CycleIsUnreachable | part2.py:88-94 | two nodes naming each other as parent appear nowhere in the forest |
| Assembly.BuildSentencesOutcome | part2.py:49-55 | building the sentences' root lists fails exactly when some sentence fails, and then with the first failing sentence's error |
| Assembly.BuildSentencesAppend | part2.py:49-55 | building two sentence lists one after the other concatenates their forests |
| Assembly.BuildOneSentence | part2.py:50-51 | a single sentence contributes exactly its own root list |
| Assembly.Anchor | part2.py:57-63 | the anchor builds exactly when every sentence builds, then carries the given label and the concatenated roots as its children; otherwise it fails with the sentence list's build error |
| Assembly.BuildSentencesSize | part2.py:49-55 | with resolving acyclic links the concatenated forest has one node per sentence node |
| Assembly.AnchorSize | part2.py:61-63 | the `"H"` anchor has one node more than the hypothesis has sentence nodes |
| Assembly.TreeEditDist | part2.py:48-65 | succeeds exactly when both sides build, fails with the text's error first and with the hypothesis's error when only that side fails, and on success is the engine applied to the `"T"` and `"H"` anchors |
| Assembly.HypothesisBaseline | part2.py:67-76 | succeeds exactly when the hypothesis builds and otherwise fails with its build error; on success it is the engine's entailment-policy cost from a single empty-labelled node to the `"H"` anchor |
| Costs.EntCost | part2.py:96-109 | costs 0 exactly when the first node is present and either the second is absent or has the same label; otherwise 1 |
| Costs.IdfCost | part2.py:111-124 | insertion 1, deletion and equal labels 0, a label change the first label's table entry, failing exactly when that entry is missing, as a lookup in the plain dict at part2.py:7 does |
| Costs.CostsSeeOnlyLabels | part2.py:106-124 | both policies depend only on which side is absent and on the two labels, never on children |
| Costs.IdfOfOnesIsEnt | part2.py:96-124 | with every table entry 1, the IDF policy coincides with the entailment policy |
| Costs.IdfWithinEnt | part2.py:111-124 | with entries in (0, 1] an IDF cost lies between 0 and the entailment cost and is zero exactly where that cost is |
| Costs.IdfAnchorsMissTable | part2.py:57-61 | relabelling the `"T"` anchor to `"H"` fails under the IDF policy when `"T"` has no entry in a plain-dict table |
| Idf.WordLemmasMembers | part2.py:132-134 | a lemma is collected exactly when some word node carries it; artificial nodes are skipped |
| Idf.CountLemmas | part2.py:128-139 | each lemma seen is counted once per occurrence, and only lemmas seen get an entry |
| Idf.InvertCounts | part2.py:141-142 | every counted lemma keeps its key and gets the reciprocal of its count, a value in (0, 1] |
| Idf.CalculateIdf | part2.py:126-144 | the table's keys are exactly the word lemmas of all pairs' texts and hypotheses, and each entry is one over the lemma's occurrence count, so lies in (0, 1] |
| Idf.InverseOfCount | part2.py:141-142 | one over a positive count lies in (0, 1] |
| Idf.IdfCostOnCorpusWord | part2.py:111-144 | against such a table, relabelling a tree node labelled by a corpus lemma never fails and costs at most the entailment cost |
| Entailment.Decide | part2.py:165-176 | fails exactly on a zero baseline; with a positive baseline the verdict is YES exactly when the distance exceeds half the baseline |
| Entailment.HalfIsNo | part2.py:6 | a ratio of exactly 0.5 gives NO: the threshold is strict |
| Entailment.DecideMonotone | part2.py:171-174 | with a positive baseline, raising the directional distance never turns YES into NO |
| Entailment.Score | part2.py:163-176 | build errors surface first (text before hypothesis); otherwise a zero baseline is reported, any other baseline yields exactly the decision rule's verdict, and with a positive baseline the verdict is YES exactly when the directional distance exceeds half the baseline and NO exactly when it does not |

## Left out

- The edit-distance engine, its `Node` class and its `unit_costs` policy (part2.py:4): that library is not part of this model; the engine is a parameter and no identity, symmetry or node-count property of it is claimed.
- XML reading (`Pair`, `Sentence`, `SentenceNode` constructors, `parse_preprocessed_xml`, part2.py:9-46): input deserialisation; only the fields the core reads are kept (id, lemma, optional parent; word-ness from the id's first letter).
- The driver loop (part2.py:149-183): printing, the unit-cost distance computed only to be printed, and the accuracy counters.
- Floating point: costs, the table's reciprocals and the ratio are exact reals, so rounding of `1/count` and `d/baseline` is not modelled.
- TreeBuilder.MakeTreeShape: the shape and size results assume non-empty, pairwise distinct ids; with a repeated id the source's lookup table keeps only the last node of that id and aliases it, which is not modelled.
- Costs.IdfCost: a missing table entry is returned as a failure, as a lookup in the plain dict at part2.py:7 would raise; the zero that `calculate_idf`'s own `defaultdict(int)` would return instead is not modelled, nor is how the engine would propagate the exception.
