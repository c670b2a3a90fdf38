# ndexindraloader evidence pipeline, in Dafny

This project models the evidence pipeline of `ndexindraloader/indra.py`.
The pipeline takes a payload of INDRA statements and turns it into one
summarised edge per node pair of an NDEx network.

- **Records.** Each payload record names two entities and carries a
  `stmts` dictionary of statements.
- **Filters.** The record first passes through a chain of statement
  filters: self loops, badly curated statements, statements from a
  single reading system, sparser-only complexes, medscan-only statements.
- **Pooling.** The record's two entities are looked up among the
  network's nodes. A node is found by its name or by a member of its
  family node. The surviving statements are tagged with the two node ids.
  They are then pooled under a canonical key, `"<low id>_<high id>"`, so
  both directions of a pair end up on one edge.
- **One edge per pool.** Each pool's statements are:
  - deduplicated by hash;
  - stripped of their final period;
  - merged by English text, with their evidence counts added up;
  - ordered by a two-level sort.

  They are then written onto a new edge, together with the edge's
  `Relationships` HTML, `__edge_source`, `__directed` and
  `__reverse_directed` attributes.
- **Existing edges.** Edges without an `__edge_source` receive the
  caller's value.

Modules, one file each:

| file | module | what it holds |
|---|---|---|
| `wrappers.dfy` | `Wrappers` | `Option` |
| `seqs.dfy` | `Seqs` | two sequence facts used throughout |
| `text.dfy` | `Text` | the Python string operations the pipeline uses: `str.split()`, `str.split('_')`, `re.sub('\.$', '', s)`, `re.sub(' .*', '', s)`, `sep.join`, `html.escape`, `str(int)`, `int(str)` |
| `evidence.dfy` | `Evidence` | statements, source counts, `stmts` dictionaries (as key/statement sequences with distinct keys, keeping insertion order), evidence records, curations |
| `filters.dfy` | `Filters` | the five filters, their code, the rule each applies, and the filter chain |
| `lookup.dfy` | `Lookup` | family members, the name-to-node-id lookup, the INDRA query names |
| `ordering.dfy` | `Ordering` | a stable descending sort and `_sort_evidence_tuple_list` |
| `summary.dfy` | `Summary` | dedup, period removal, merging, direction counts, evidence links, and the summary of one pool |
| `pooling.dfy` | `Pooling` | the pair key and the pooling loop of `annotate_network` |
| `network.dfy` | `Network` | the network as a class (edges, edge attributes, creation order, next edge id): `create_edge`, `set_edge_attribute`, `_single_edge_adder`, `_add_source_to_existing_edges`, `annotate_network` |

The evidence records are values, so each filter's deep copy is implicit:
the caller's record can never change. Python dictionaries whose order
matters keep that order in one of two ways:

- `stmts` is a sequence of key/statement entries with distinct keys.
- `protein_dict` is a sequence of groups, each a leading token with its
  lines.
- `stmt_hash` (`Pooling.Pools`) and the merge dictionary
  (`Summary.GroupByText`) are a sequence of keys plus a map.

Three details of the code that are easy to misread:

- **Leading token for ordering.** The leading token used to group lines
  is the text before the first space character, and each space removes
  only the rest of its line (`re.sub(' .*', '', s)`). A tab or a newline
  does not end the token.
- **Period removal.** It follows Python's `$`, which also matches just
  before a final newline. So a period followed by a final `'\n'` is the
  one removed.
- **Self-loop with fewer than two names.** The self-loop filter removes
  all statements when the record's names hold fewer than two distinct
  values. Its report counts the statements it removed, and it is empty
  when there were none.

## Model

| member | source | states |
|---|---|---|
| `Text.Words` | ndexindraloader/indra.py:522 | `str.split()` returns non-empty words without separators |
| `Text.WordsOfSpaced` | ndexindraloader/indra.py:522 | splitting words joined by single spaces gives back exactly those words |
| `Text.WordsAppend` | ndexindraloader/indra.py:522 | splitting `s + " " + w` gives the words of `s` followed by `w` |
| `Text.StripPeriodRemovesOnePeriod` | ndexindraloader/indra.py:969-971 | a final period is removed; otherwise at most one period goes and nothing else changes |
| `Text.GroupKey` | ndexindraloader/indra.py:1096 | the group key holds no space and is no longer than the line |
| `Text.GroupKeyIsFirstWord` | ndexindraloader/indra.py:1096 | on a single line, the group key is the text before the first space |
| `Text.HtmlEscape` | ndexindraloader/indra.py:1145-1146 | no `<`, `>`, `"` or `'` survives escaping |
| `Text.HtmlEscapePlain` | ndexindraloader/indra.py:1145-1146 | text without markup characters is unchanged by escaping |
| `Text.NatToString` | ndexindraloader/indra.py:1207-1209 | `str(n)` is a non-empty digit string without a leading zero |
| `Text.IntRoundTrip` | ndexindraloader/indra.py:827-829 | `int(str(n)) == n` for every integer |
| `Text.SplitOnPair` | ndexindraloader/indra.py:827 | `split('_')` of two separator-free pieces joined by `_` gives back exactly those pieces |
| `Text.IndexOf` | ndexindraloader/indra.py:1096 | the position returned is that of the first occurrence, or the length when there is none |
| `Filters.Description` | ndexindraloader/indra.py:172-181 | each filter's description begins with its class name and a colon, as the five `get_description` methods return (the others are at lines 235-244, 298-307, 418-426 and 482-491) |
| `Filters.SelfLoopDescription` | tests/test_selfloopstatementfilter.py:26-31 | the self-loop filter's description is the exact text its test expects |
| `Filters.IsAtLeastOneCurationCorrect` | ndexindraloader/indra.py:428-441 | true exactly when some curation's tag is correct, hypothesis or act_vs_amt; the empty list gives false |
| `Filters.NewIncorrectFilter` | ndexindraloader/indra.py:402-416 | the index holds exactly the hashes that have curations; each maps to that hash's curations in list order; no list gives an empty index |
| `Filters.CurationsForExactly` | ndexindraloader/indra.py:410-416 | the list indexed under a hash holds exactly the curations about that hash |
| `Filters.DecideDrop` | ndexindraloader/indra.py:193-208 | the loop body of each filter decides exactly as that filter's rule |
| `Filters.DeleteKeys` | ndexindraloader/indra.py:210-211 | deleting a set of keys leaves exactly the entries with other keys, in order |
| `Filters.ApplyFilter` | ndexindraloader/indra.py:183-216 | a filter returns the record with exactly the rejected statements deleted, and the report `Removed <n> <reason>` with the number deleted |
| `Filters.EntityNames` | ndexindraloader/indra.py:512-517 | the distinct entity names of a record |
| `Filters.CollectDropped` | ndexindraloader/indra.py:190-208 | the collected keys are exactly those of the rejected statements |
| `Filters.WithoutDroppedIsKept` | ndexindraloader/indra.py:210-211 | deleting the collected keys leaves exactly the statements the rule keeps |
| `Filters.DroppedKeysCount` | ndexindraloader/indra.py:212-215 | the number of collected keys is the number of statements removed |
| `Filters.KeptExactly` | ndexindraloader/indra.py:190-216 | a filter keeps exactly the input statements its rule does not reject, unchanged |
| `Filters.KeptDistinct` | ndexindraloader/indra.py:190-216 | the survivors still have distinct keys, all of them keys of the input |
| `Filters.FilterIdempotent` | ndexindraloader/indra.py:190-216 | running a filter on its own output changes nothing and reports nothing |
| `Filters.AcceptsApplied` | ndexindraloader/indra.py:758-763 | a record one filter can run on is still one after any filter has run |
| `Filters.ReportCountsRemovals` | ndexindraloader/indra.py:212-216 | the report is empty exactly when the rule rejects no statement; otherwise it reads `Removed <n> <reason>` with `n` positive |
| `Filters.RemovedNoneIff` | ndexindraloader/indra.py:190-216 | nothing is removed exactly when the rule rejects no statement |
| `Filters.KeptIsPrefixWhenFull` | ndexindraloader/indra.py:190-216 | when nothing is removed, the statements come back as they were |
| `Filters.SingleReadingRemoves` | ndexindraloader/indra.py:319-331 | removed exactly when the sole source is one of the seven reading systems with count at most one |
| `Filters.SparserComplexRemoves` | ndexindraloader/indra.py:193-208 | removed exactly when the statement is a Complex whose sole source is sparser, whatever the count |
| `Filters.MedscanRemoves` | ndexindraloader/indra.py:256-268 | removed exactly when the sole source is medscan, whatever the type or count |
| `Filters.IncorrectRemoves` | ndexindraloader/indra.py:443-467 | removed exactly when the statement's hash has curations and none is tagged correct; uncurated statements are kept |
| `Filters.SelfLoopRemoves` | ndexindraloader/indra.py:493-532 | with fewer than two distinct names everything goes; otherwise a statement goes exactly when words 0 and 2 of its period-stripped text are equal |
| `Filters.FilterStatements` | ndexindraloader/indra.py:758-763 | the filters run left to right, each on the previous one's output |
| `Filters.ChainKeeps` | ndexindraloader/indra.py:758-763 | the chain keeps exactly the statements no filter in it rejects, in their original order |
| `Filters.KeptByAllMeans` | ndexindraloader/indra.py:758-763 | a statement survives every filter of a chain exactly when no member of the chain rejects it |
| `Filters.ChainOrderIndependent` | ndexindraloader/indra.py:758-763 | two chains made of the same filters return the same record, on records both chains can run on without raising |
| `Lookup.StripHgnc` | ndexindraloader/indra.py:41-46 | a prefixed entry loses exactly its `hgnc.symbol:` prefix; any other entry is unchanged |
| `Lookup.StripHgncPrefixed` | ndexindraloader/indra.py:41-46 | stripping a prefixed name gives back the name |
| `Lookup.MembersOfFamilyNode` | ndexindraloader/indra.py:29-47 | one stripped name per list entry, in order; no names when the attribute is missing or not a list |
| `Lookup.NodeNameToId` | ndexindraloader/indra.py:58-66 | the loop builds the lookup of members, then node name, node after node |
| `Lookup.NameIndexKeys` | ndexindraloader/indra.py:58-66 | a name is in the lookup exactly when some node has it as name or member |
| `Lookup.NameIndexLastWins` | ndexindraloader/indra.py:58-66 | a name maps to the id of the last node that mentions it |
| `Lookup.QueryNames` | ndexindraloader/indra.py:904-919 | each node's name followed by its members, node after node |
| `Lookup.QueryNamesAreLookupKeys` | ndexindraloader/indra.py:904-919 | the names sent to INDRA are exactly the names the lookup can resolve |
| `Ordering.InsertDescPermutes` | ndexindraloader/indra.py:1106 | inserting adds exactly the new element |
| `Ordering.InsertDescSorted` | ndexindraloader/indra.py:1106 | inserting into a descending list keeps it descending |
| `Ordering.SortDescSortedPermutation` | ndexindraloader/indra.py:1106 | `sort(reverse=True)` returns a descending permutation of its input |
| `Ordering.SortDescStable` | ndexindraloader/indra.py:1106 | the sort is stable: elements with equal keys keep their input order |
| `Ordering.FindGroup` | ndexindraloader/indra.py:1096-1100 | the position found is the first group with that key, or the end |
| `Ordering.GroupedIsGroupsOf` | ndexindraloader/indra.py:1094-1100 | the grouping loop yields one non-empty group per leading token, in first-seen order, each holding exactly the tuples with that token in input order |
| `Ordering.SortEvidenceTupleList` | ndexindraloader/indra.py:1078-1131 | the loops compute the two-level evidence order |
| `Ordering.SortGroups` | ndexindraloader/indra.py:1104-1117 | each group's tuples sorted by count, highest first |
| `Ordering.FlattenTexts` | ndexindraloader/indra.py:1122-1130 | the groups' texts, group after group |
| `Ordering.EvidenceOrderShape` | ndexindraloader/indra.py:1094-1131 | the output permutes the input lines; lines sharing a leading token are contiguous and sorted by count; blocks are ordered by their maximum |
| `Ordering.EvidenceOrderTies` | ndexindraloader/indra.py:1104-1120 | ties keep first-seen order, both inside a block and between blocks |
| `Summary.UniqueStatements` | ndexindraloader/indra.py:921-938 | the loop keeps the statements whose hash was not seen before them, in order |
| `Summary.UniqueByHashProperties` | ndexindraloader/indra.py:931-938 | dedup keeps every hash, each once, and only input statements |
| `Summary.UniqueKeepsFirst` | ndexindraloader/indra.py:931-938 | the first statement with a given hash is kept |
| `Summary.UniqueIsFirstOfHash` | ndexindraloader/indra.py:931-938 | the statement kept for a hash is the first one with that hash |
| `Summary.RemovePeriods` | ndexindraloader/indra.py:969-971 | each statement's English text loses its final period, in place |
| `Summary.StripPeriodsKeepsCounts` | ndexindraloader/indra.py:969-971 | removing periods changes neither the hashes nor the evidence counts |
| `Summary.GroupByText` | ndexindraloader/indra.py:951-955 | the dictionary holds, in first-seen order, each text with exactly the statements carrying it |
| `Summary.SumGroup` | ndexindraloader/indra.py:958-963 | the total of a group's evidence counts |
| `Summary.MergeMatching` | ndexindraloader/indra.py:940-967 | one statement per distinct text, the first with that text, carrying the text's summed count |
| `Summary.MergedShape` | ndexindraloader/indra.py:951-967 | the merged texts are the distinct texts in first-seen order, so the length is their number; each merged statement is the first with its text and carries the summed count |
| `Summary.MergedTotal` | ndexindraloader/indra.py:951-967 | merging loses no evidence: the total count is unchanged |
| `Summary.ForwardCountPositive` | ndexindraloader/indra.py:1018-1024 | the forward count is positive exactly when some directional statement is not reversed |
| `Summary.ReverseCountPositive` | ndexindraloader/indra.py:1018-1024 | the reverse count is positive exactly when some directional statement is reversed |
| `Summary.EvidenceLinkHref` | ndexindraloader/indra.py:1133-1151 | an evidence link's `href` is exactly the statement URL for subject, object and type |
| `Summary.AllEvidenceLinkHref` | ndexindraloader/indra.py:1153-1169 | the all-evidence link's `href` is exactly the agents URL for the pair |
| `Summary.EdgeCounts` | ndexindraloader/indra.py:1014-1040 | the loop builds one line per merged statement, the forward and reverse counts and the evidence total |
| `Summary.SingleEdgeSummary` | ndexindraloader/indra.py:1008-1075 | dedup, period removal, merge, counts, ordering and the `Relationships` text, composed as `_single_edge_adder` does |
| `Summary.PreparedNonEmpty` | ndexindraloader/indra.py:1042-1044 | a non-empty pool leaves at least one merged statement, so the last one exists |
| `Summary.SummaryDirections` | ndexindraloader/indra.py:1062-1075 | directed exactly when some merged directional statement is not reversed; reverse directed exactly when one is |
| `Summary.SummaryTotal` | ndexindraloader/indra.py:1034-1035 | the edge's evidence total is the pool's evidence with each hash counted once |
| `Pooling.PairKey` | ndexindraloader/indra.py:1193-1209 | the reversed flag is set exactly when the target id is lower; the key contains `_` |
| `Pooling.KeyRoundTrip` | ndexindraloader/indra.py:827-829 | parsing a pair key gives back the two ids, lower first |
| `Pooling.SameKeySamePair` | ndexindraloader/indra.py:1207-1209 | two directed pairs share a key exactly when they join the same two nodes |
| `Pooling.PoolStatements` | ndexindraloader/indra.py:790-819 | the loop builds the pools of all records |
| `Pooling.AppendTagged` | ndexindraloader/indra.py:804-819 | one record's statements, tagged with its two nodes, appended under its pair's key |
| `Pooling.TagEntriesTagged` | ndexindraloader/indra.py:804-816 | every tagged statement carries the lookup's ids for its names and the record's pair key |
| `Pooling.PooledWellFormed` | ndexindraloader/indra.py:790-819 | every key is listed once with a non-empty list, and every pooled statement carries the key of its own two node ids |
| `Pooling.PooledComplete` | ndexindraloader/indra.py:790-819 | every surviving statement of a record whose entities are nodes lands in its pair's pool |
| `Pooling.PoolKeyOrientation` | ndexindraloader/indra.py:821-829 | a pool key parses to the ids of its statements, lower first; a statement is reversed exactly when its subject is the higher id |
| `Network.WithSourceMeans` | ndexindraloader/indra.py:655-660 | afterwards every edge has a source; an existing source is kept; other attributes are unchanged; a second run changes nothing |
| `Network.NewEdgesMeans` | ndexindraloader/indra.py:821-833 | the i-th new edge is numbered after the previous ones and joins the ids of the i-th key, lower first |
| `Network.NewEdgesKeepOld` | ndexindraloader/indra.py:821-833 | edges that existed before are untouched |
| `Network.NewAttrsMeans` | ndexindraloader/indra.py:1049-1075 | the i-th new edge carries the attributes of the i-th pool's summary |
| `Network.NewAttrsKeepOld` | ndexindraloader/indra.py:1049-1075 | the attributes of edges that existed before are untouched by adding edges |
| `Network.Network.RemoveEdge` | ndexindraloader/indra.py:106-122 | the edge and all its attributes are gone, and it is no longer listed; nothing else changes |
| `Network.Network.RemoveOriginalEdges` | ndexindraloader/indra.py:662-683 | when asked to, every edge and attribute is gone and nothing is listed; otherwise nothing changes |
| `Network.Network.CreateEdge` | ndexindraloader/indra.py:1004-1006 | a new edge with a fresh id, listed last, without attributes |
| `Network.Network.SetEdgeAttribute` | ndexindraloader/indra.py:1049-1075 | one attribute of one edge is set; nothing else changes |
| `Network.Network.AddSummaryEdge` | ndexindraloader/indra.py:973-1076 | one new edge from the first id to the second, `interacts with`, carrying exactly the pool's summary attributes |
| `Network.Network.SetSummaryAttributes` | ndexindraloader/indra.py:1049-1075 | the four attribute writes of `_single_edge_adder` |
| `Network.Network.AddSourceToExistingEdges` | ndexindraloader/indra.py:647-660 | sets the source on exactly the edges lacking one; no value given changes nothing |
| `Network.Network.AddPoolEdges` | ndexindraloader/indra.py:821-833 | one new edge per pool, in key order, numbered consecutively, with its summary |
| `Network.Network.AddPoolEdge` | ndexindraloader/indra.py:827-833 | one pass of that loop extends the edges and attributes by the next key's edge |
| `Network.Network.Annotate` | ndexindraloader/indra.py:765-862 | removes the original edges when `remove_orig_edges` is set, pools the records, adds one summarised edge per pool in key order, then fills in missing sources |
| `Network.PreparedOriented` | ndexindraloader/indra.py:804-833 | every merged statement of a pool runs along the key's pair, forward unless reversed |
| `Network.EdgeDirection` | ndexindraloader/indra.py:1018-1024 | a new edge runs from the lower id to the higher; it is directed exactly when a merged directional statement runs that way, reverse directed exactly when one runs the other way between distinct nodes |

## Left out

- `query_indra` and `_get_indra_result` are left out. They are HTTP calls, wall-clock timing and JSON parsing. The payload is a parameter of `Annotate`.
- The `__relationship_score` attribute is left out. It is `math.log` on a float, and a zero evidence total makes it raise.
- The network metadata writes at the end of `annotate_network` are left out: query time, description, parameters and name. They are calls into the network library that need no reasoning.
- `is_family_node` and `get_node_id_to_name_dict` are left out. Nothing in `indra.py` or `ndexloadindra.py` calls them.
- `_create_interaction_list` is left out. Nothing calls it.
- Logging is left out.
- `ndexindraloader/ndexloadindra.py` is left out, apart from the filter chain it builds, which is `Filters.ProductionChain`. The rest is command-line parsing, credentials, file and server I/O, caching, progress bars and layout. `exceptions.py` and `setup.py` are not part of this model.
- Nodes and edges from the network library are abstracted:
  - a node is its id, its name and its `member` attribute;
  - `create_edge` hands out consecutive ids from a counter, and lists edges in creation order.
- Statement fields the pipeline only carries along are not modelled: belief, `db_url_hash`, namespaces and identifiers.
- Aliasing between the payload's statement dictionaries is not modelled. The model treats statements as values, so the in-place tagging of pooled statements, and the `evidence_count` overwrite inside `_merge_matching_statements`, produce new values.
- Text.ParseInt: `int()` is modelled on an optional sign followed by ASCII digits. Python also accepts surrounding whitespace, underscores between digits and non-ASCII digits. Statement keys are hashes printed by `str`, so they never use those forms.
- Summary.EdgeCounts: evidence counts are natural numbers. The code calls `int()` on a count before its `try`, so a non-numeric count would raise, and that path is not modelled.
- A statement's `sourceCounts` is a sequence, so it could name a source twice, which a Python dictionary cannot. The filters compare its length with 1 where the code compares the number of keys. The two agree on every statement that names each source once, which is every statement a payload dictionary can hold.
- Filters.ApplyFilter: it requires what the code needs in order not to raise. A statement it inspects must have a source. The self-loop filter needs at least three words of text when the record names two entities. The incorrect-statement filter needs keys that `int()` accepts. The model states these as requirements instead of modelling the exceptions.
- Network.Network.Annotate: it requires that each record names at least two entities (the code indexes `edge[0]` and `edge[1]`). It also requires that every filter of the chain accepts the record that reaches it.
- Ordering.SortDesc: Python's `list.sort(reverse=True)` is modelled by a stable insertion sort. Only its result is modelled: a stable descending permutation.
