# Aho-Corasick multi-pattern matcher, modelled in Dafny

This project models the `AhoCorasick` automaton of `AhoCorasick/AhoCorasick/AhoCorasick.cs` and proves it correct. The automaton is built from a dictionary that maps each pattern to a value, and it reports every occurrence of every pattern in a text in a single left-to-right scan.

The model has three parts, as the source does:

- **Trie builder.** Each (pattern, value) pair is inserted one character at a time. A missing child edge is created and an existing one is reused. The pair is then appended to the `Outputs` of the node where the pattern ends.
- **Breadth-first link pass.** The children of the root fail to the root. Every deeper child walks its parent's failure chain until it finds a node with an edge on the child's own character. It links to that edge's target, or to the root once the chain runs out. It then appends the target's `Outputs` to its own.
- **Scanner.** One cursor node is kept. For each character the scanner follows failure links while it is not at the root and there is no edge. It then takes the edge, or falls back to the root. Every entry of the cursor's `Outputs` is reported with start index `i - |pattern| + 1`.

The two C# classes, the generic `AhoCorasick<TValue>` and the `int`-valued `AhoCorasick`, run the same algorithm. It is modelled once, as the class `AhoCorasick.Automaton<V>`. The constructor of the generic class is the non-generic class's `BuildTrie` followed by `BuildFailureAndDictionaryLinks`, so the model's constructor calls those two methods.

The nodes live in an arena indexed by `nat`, with node 0 as the root:

- `children[n]` is the node's `Children` dictionary;
- `outputs[n]` is its `Outputs` list;
- `failure[n]` is its `Failure` field, where `-1` stands for `null`.

The methods update these fields in place, one node at a time, just as the C# code mutates its `Node` objects. Ghost fields record what the proofs need: the word each node stands for (`labels`), its parent, the node of each word (`index`) and the patterns.

The specification is stated independently of any automaton, in module `MatchSpec`:

- `SuffixOutputs(M, w)` lists the patterns that are suffixes of `w`, longest first.
- `Matches(M, t)` is, for each text position in turn, the matches of the patterns ending there.

`Search` is proved to return exactly `Matches(patterns, text)`. That sequence is proved sound, complete and strictly ordered: by end position, and longest pattern first at the same end. `Search` only reads the automaton; it has no `modifies` clause. The proofs go through several chained results:

- each failure link targets the longest proper suffix of the node's label that is itself a label (`Suffixes`);
- the breadth-first queue visits nodes level by level, so every target is finished before it is copied (`BreadthFirst`);
- each node's outputs are exactly its suffix patterns.

Module `Scenarios` replays the test fixture's pattern set end to end, over four of the texts its tests scan.

## Model

| member | source | states |
|---|---|---|
| AhoCorasick.Automaton.constructor | AhoCorasick/AhoCorasick/AhoCorasick.cs:50-95 | Building from non-empty patterns gives a valid automaton: a trie holding every pattern, every non-root node linked to the node of the longest proper suffix of its label that is a label, every node's outputs the patterns ending its label, and the nodes exactly the root plus the pattern prefixes |
| AhoCorasick.Automaton.BuildTrie | AhoCorasick/AhoCorasick/AhoCorasick.cs:160-179 | After inserting every pattern in any order, the arena is a trie whose labels are exactly the prefixes of the patterns; each node outputs just the pattern its label is, if any; no failure link is set yet |
| AhoCorasick.Automaton.Insert | AhoCorasick/AhoCorasick/AhoCorasick.cs:162-177 | Inserting a new pattern extends a trie of the earlier patterns to a trie of all of them, with the pair appended to the pattern's node |
| AhoCorasick.Automaton.AddPath | AhoCorasick/AhoCorasick/AhoCorasick.cs:164-175 | The walk down the pattern ends at the node labelled by the pattern; the labels gained are exactly the pattern's prefixes |
| AhoCorasick.Automaton.Descend | AhoCorasick/AhoCorasick/AhoCorasick.cs:168-174 | The child on `c` is reused if present and created (without links or outputs) if missing; its label is the parent's label plus `c`; at most that one label is new |
| AhoCorasick.Automaton.FailureTarget | AhoCorasick/AhoCorasick/AhoCorasick.cs:197-204 | The chain walk from the parent's failure link ends at the node of the longest suffix of `(label + c)[1..]` that is a label, or at the root; it is no deeper than the parent |
| AhoCorasick.Automaton.LinkToRoot | AhoCorasick/AhoCorasick/AhoCorasick.cs:185-189 | A child of the root gets the root as its failure link and keeps its own outputs; that node is then linked and nothing else changes |
| AhoCorasick.Automaton.LinkChild | AhoCorasick/AhoCorasick/AhoCorasick.cs:204-205 | Setting the failure link and appending the target's outputs makes the child's outputs exactly the patterns ending its label; only that node changes |
| AhoCorasick.Automaton.LinkRootChildren | AhoCorasick/AhoCorasick/AhoCorasick.cs:183-189 | Every child of the root is linked, and the queue returned holds exactly the root's children, each once |
| AhoCorasick.Automaton.LinkChildren | AhoCorasick/AhoCorasick/AhoCorasick.cs:193-206 | Processing a dequeued node links exactly its children and returns them, each once, in the order they join the queue |
| AhoCorasick.Automaton.BuildFailureAndDictionaryLinks | AhoCorasick/AhoCorasick/AhoCorasick.cs:181-208 | The breadth-first pass terminates with every non-root node linked: its failure link is non-null and correct, and its outputs are the patterns ending its label |
| AhoCorasick.Automaton.Step | AhoCorasick/AhoCorasick/AhoCorasick.cs:216-223 | From the node of the longest suffix of `u` that is a label, one step on `c` reaches the node of the longest suffix of `u + [c]` that is a label |
| AhoCorasick.Automaton.Report | AhoCorasick/AhoCorasick/AhoCorasick.cs:225-228 | The matches reported at position `i` are, one per entry, the patterns ending the text read so far, with start `i - |pattern| + 1` |
| AhoCorasick.EmitAll | AhoCorasick/AhoCorasick/AhoCorasick.cs:225-228 | The loop over a node's outputs reports one match per entry, in entry order |
| AhoCorasick.Automaton.Search | AhoCorasick/AhoCorasick/AhoCorasick.cs:107-127 | The scan returns exactly `Matches(patterns, text)`: for each position in turn, the patterns ending there, longest first |
| AhoCorasick.Automaton.SearchAll | AhoCorasick/AhoCorasick/AhoCorasick.cs:129-132 | The list is the scan's full result; every element is an occurrence of its pattern with the pattern's value, every occurrence is in it, and the elements are strictly in scan order |
| AhoCorasick.Automaton.FailureLinkFacts | AhoCorasick/AhoCorasick/AhoCorasick.cs:84-91 | In a built automaton every non-root node's failure link is non-null and targets a strictly shorter suffix of its label, and no longer proper suffix is a label |
| AhoCorasick.Automaton.DepthOneFailsToRoot | AhoCorasick/AhoCorasick/AhoCorasick.cs:72-76 | The children of the root fail to the root |
| AhoCorasick.Automaton.OutputsAreSuffixPatterns | AhoCorasick/AhoCorasick/AhoCorasick.cs:67-92 | Each node's outputs are the patterns that are suffixes of its label, each with its value; every such pattern is included; lengths strictly decrease, so there are no repeats |
| AhoCorasick.Automaton.PatternReachable | AhoCorasick/AhoCorasick/AhoCorasick.cs:52-67 | Following children from the root along a pattern reaches the node labelled by it, and that node's first output is the pattern with its value |
| AhoCorasick.Automaton.NodesCorrespondToPrefixes | AhoCorasick/AhoCorasick/AhoCorasick.cs:56-65 | A word can be walked from the root exactly when it is empty or a prefix of a pattern, the walk ends at the node labelled by it, and no two nodes share a label |
| AhoCorasick.Positions | AhoCorasick/AhoCorasick/AhoCorasick.cs:154-155 | For distinct words, each word maps to its position in the sequence and every key is one of the words |
| AhoCorasick.FromSequence | AhoCorasick/AhoCorasick/AhoCorasick.cs:152-158 | The sequence constructor builds the same valid automaton as the dictionary constructor, for the map from each pattern to its position |
| Trie.WalkReachesLabel | AhoCorasick/AhoCorasick/AhoCorasick.cs:56-65 | Walking child edges from a node along `s` reaches the node of `label + s`, and fails exactly when that word is no label |
| Trie.AddChild | AhoCorasick/AhoCorasick/AhoCorasick.cs:58-62 | Creating a missing edge to a new node at the end of the arena keeps the arena a trie; the new word was no label before |
| Trie.PrefixesSnoc | AhoCorasick/AhoCorasick/AhoCorasick.cs:56-65 | Going down one more character adds exactly one new prefix |
| Trie.PatternPrefixesAdd | AhoCorasick/AhoCorasick/AhoCorasick.cs:52-68 | Inserting a pattern adds exactly its prefixes to the prefixes of the patterns |
| Trie.EdgeComplete | AhoCorasick/AhoCorasick/AhoCorasick.cs:86 | A node has an edge on `c` exactly when its label plus `c` is a label |
| Trie.LabelsPrefixClosed | AhoCorasick/AhoCorasick/AhoCorasick.cs:56-65 | Every prefix of a label is a label |
| Suffixes.LongestSuffix | AhoCorasick/AhoCorasick/AhoCorasick.cs:84-91 | The word returned is a suffix of `s`, lies in `K` (or is empty), and is at least as long as every suffix of `s` in `K` |
| Suffixes.LongestSuffixUnique | AhoCorasick/AhoCorasick/AhoCorasick.cs:84-91 | A suffix in `K` that no longer suffix in `K` beats is the longest suffix |
| Suffixes.FollowFailure | AhoCorasick/AhoCorasick/AhoCorasick.cs:86-89 | One step down the failure chain skips no suffix that could be extended by `c`, and stays a suffix of the word |
| Suffixes.WalkFound | AhoCorasick/AhoCorasick/AhoCorasick.cs:91 | A chain walk that stops at a node with an edge on `c` has found the longest suffix extendable by `c` |
| Suffixes.WalkExhausted | AhoCorasick/AhoCorasick/AhoCorasick.cs:91 | A chain walk that runs off the root leaves the empty word as the only suffix that is a label, so the root is the target |
| BreadthFirst.FrontierStep | AhoCorasick/AhoCorasick/AhoCorasick.cs:78-83 | Dequeuing the head and enqueuing its children keeps the queue's invariant: each waiting node once, at most two consecutive levels, shallower first, and every node below a dequeued one waiting or dequeued |
| BreadthFirst.FrontierDone | AhoCorasick/AhoCorasick/AhoCorasick.cs:78 | Once the queue is empty, every node has been dequeued |
| BreadthFirst.BfsHead | AhoCorasick/AhoCorasick/AhoCorasick.cs:80-84 | When a node is dequeued, every node no deeper is already linked and none of its children is |
| BreadthFirst.BfsStep | AhoCorasick/AhoCorasick/AhoCorasick.cs:80-93 | One round sets exactly the links of the head's children and keeps the queue invariant |
| BreadthFirst.LinkedAll | AhoCorasick/AhoCorasick/AhoCorasick.cs:78-94 | After the pass every non-root node has a failure link |
| BreadthFirst.KidsStep | AhoCorasick/AhoCorasick/AhoCorasick.cs:81 | Iterating over a node's `Children` takes each child exactly once |
| BreadthFirst.KidsDone | AhoCorasick/AhoCorasick/AhoCorasick.cs:81 | After the iteration, exactly the node's children have been taken, each once |
| MatchSpec.SuffixOutputsSpec | AhoCorasick/AhoCorasick/AhoCorasick.cs:67-92 | The merged outputs of a word are exactly the patterns ending it, each with its value, longest first |
| MatchSpec.SuffixOutputsOfLongest | AhoCorasick/AhoCorasick/AhoCorasick.cs:120-122 | The patterns ending a text are those ending its longest suffix that is a label, so the cursor node's outputs suffice |
| MatchSpec.MatchesSound | AhoCorasick/AhoCorasick/AhoCorasick.cs:122-124 | Every reported match lies inside the text, spells its pattern there and carries the pattern's value |
| MatchSpec.MatchesComplete | AhoCorasick/AhoCorasick/AhoCorasick.cs:111-126 | Every occurrence of every non-empty pattern is reported |
| MatchSpec.MatchesOrdered | AhoCorasick/AhoCorasick/AhoCorasick.cs:111-126 | Matches come by increasing end position, and longest first at the same end |
| MatchSpec.MatchesExactlyOnce | AhoCorasick/AhoCorasick/AhoCorasick.cs:111-126 | Each occurrence is reported at exactly one position of the result |
| MatchSpec.NoPatternsNoMatches | AhoCorasick/AhoCorasick/AhoCorasick.cs:111-126 | An automaton of no patterns reports nothing, whatever the text |
| Scenarios.MatchesSeparated | AhoCorasick/AhoCorasick.Tests/Tests.cs:32-46 | A property of the specification `Matches` used to compute the examples: a text split after a character no pattern contains has the matches of its first part followed by those of the rest, with their start indices moved on by the first part's length |
| Scenarios.Quiet | AhoCorasick/AhoCorasick.Tests/Tests.cs:49-67 | A property of the specification `Matches` used to compute the examples: reading characters that end no pattern adds no matches |
| Scenarios.SearchHishers | AhoCorasick/AhoCorasick.Tests/Tests.cs:49-67 | With the test patterns, "hishers" gives "his" at 0, "she" at 2, "he" at 3 and "hers" at 3, with their categories, in that order |
| Scenarios.SearchHeRuns | AhoCorasick/AhoCorasick.Tests/Tests.cs:32-46 | "he runs" gives two matches, the first "he" at 0 as a noun, the second "run" at 3 |
| Scenarios.SearchEmpty | AhoCorasick/AhoCorasick.Tests/Tests.cs:69-76 | The empty text gives no matches |
| Scenarios.SearchHisRunWasQuick | AhoCorasick/AhoCorasick.Tests/Tests.cs:87-124 | "his run was quick" gives "his" at 0 and "run" at 4, and nothing else |
| Scenarios.HishersMatches | AhoCorasick/AhoCorasick.Tests/Tests.cs:49-67 | The specification's matches for "hishers" |
| Scenarios.HeRunsMatches | AhoCorasick/AhoCorasick.Tests/Tests.cs:32-46 | The specification's matches for "he runs" |
| Scenarios.HisRunWasQuickMatches | AhoCorasick/AhoCorasick.Tests/Tests.cs:87-124 | The specification's matches for "his run was quick" |

## Left out

- Characters: the alphabet is Dafny's `char`, a Unicode scalar value, and every length and index counts those characters. C# counts UTF-16 code units (`foreach (char c in pattern)`, `text[i]`, `text.Length`, `pattern.Length`). So on a text or pattern holding a character outside the Basic Multilingual Plane, which C# stores as a surrogate pair, the reported `Index` differs: for the pattern "he" in "😀he", C# reports 2 and the model reports 1. Lone surrogate code units cannot be written as a Dafny `char` at all.
- The interface adapters `IAhoCorasick` and `IAhoCorasickMatch`, and the `object`-typed `Value` properties: they only box values and add no behaviour.
- The `struct, Enum` constraint on `TValue`: values are of an arbitrary type `V`.
- The laziness of `Search` (`yield return`): `Search` returns the whole finite sequence, in the same order.
- The non-generic class as a separate class: it is the same algorithm with `int` values, and is modelled by `Automaton<int>`, `FromSequence` and `Positions`.
- The exception `ToDictionary` throws on repeated words: `FromSequence` requires distinct patterns instead.
- Empty patterns: the code accepts `""` and would put it in the root's outputs. The model requires every pattern to be non-empty.
- The order of C#'s `Dictionary` enumeration: the builder takes patterns, and the link pass takes children, in an unspecified order (a choice by `:|`). Every property holds for every order.
- LinkChildren: in the source, each child is enqueued as soon as it is reached. The method instead returns the children in the order they were taken, and the caller appends them all to the queue. The resulting queue is the same.
- The thread-safety test: concurrency is not modelled. The model states only what makes concurrent scans safe, namely that `Search` modifies nothing. Of that test's texts, only "his run was quick" is replayed.
- `NUnit` assertions: the expected results are stated as postconditions, and nothing here is executed.
