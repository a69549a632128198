# JSON path search and ORCID table projection, in Dafny

This project models the JSON-search core of a small Python toolkit. The toolkit
reads publication records (ORCID works) and turns them into tables. The core has
four functions, each present in `json_lib.py` and again in `import_requests.py`:

- `find_all_paths_of_value`: the paths at which a value occurs in a nested
  document. The `import_requests.py` copy compares with plain `==`. The
  `json_lib.py` copy lower-cases strings on both sides first.
- `find_all_paths_of_key`: the paths that end in a given key.
- `extract_parent_object`: walks a path from the root and returns the node at a
  given level, or at the first occurrence of a given key. It reports misuse with
  fixed error strings.
- `search_key_in_all_levels`: for every prefix of every anchor path, from the
  root down, reports the first matching key of each object not searched before.
  Arrays at a prefix are fanned out over their objects.

The model also covers the row projectors built on these functions:

- `construct_table_with_keys` in `import_requests.py` and `example2.py`;
- `extract_data` in `example1.py` and `example3.py`.

For each path to the searched value, a projector looks up every key with that
path as the only anchor. It keeps the row `[orcid, value, v1, …, vn]` when every
key was found, and drops rows it has already kept.

Documents are immutable trees. Every operation is a pure function. Something the
Python code raises becomes an explicit error value (`Option.None`, a
`Result.Failure` or the `TypeError` outcome), never a precondition.

## Files

| file | module | contents |
|---|---|---|
| `wrappers.dfy` | `Wrappers` | `Option`, `Result` |
| `json_tree.dfy` | `JsonTree` | documents (`Node`), paths (`Step`, `Path`), strict resolution `Resolve`, Python `==` on documents (`PyEq`), ASCII lower-casing |
| `path_finder.dfy` | `PathFinder` | the pruned pre-order search, the three finders, and their exact characterisation |
| `finder_examples.dfy` | `FinderExamples` | the finders' docstring examples, worked out |
| `parent_extractor.dfy` | `ParentExtractor` | `extract_parent_object`: argument checks, the walk, the properties of the whole call |
| `extractor_examples.dfy` | `ExtractorExamples` | the extractor's docstring examples, worked out |
| `level_resolver.dfy` | `LevelResolver` | `search_key_in_all_levels`, its soundness, its order, and the first result as a declarative `FirstHit` |
| `row_projector.dfy` | `RowProjector` | the shared path and key loops, the de-duplication, and the rows described without the loops |
| `projectors.dfy` | `ValueTables`, `ImportRequests`, `Example1`, `Example2`, `Example3` | the four projector functions |
| `projector_examples.dfy` | `ProjectorExamples` | the `construct_table_with_keys` docstring document, worked out |

## How the Python is represented

- **Documents.** A document is a `Node`. Objects keep their keys in stored order
  as a sequence of pairs.
  - `WellFormed` says that no object repeats a key. This holds for every dict.
  - `WellFormed` appears only in the `requires` of lemmas. No operation requires it.
- **Paths.** A path is a sequence of `Field(key)` and `Index(i)` steps.
  - `Resolve` is strict indexing.
  - The resolver's own walk is `LevelResolver.Walk`. It raises on a missing key or
    index, and skips the remaining steps once it reaches a scalar. This follows
    the `continue` at json_lib.py:229-230.
- **Object identity.** An object is identified by its position in the document.
  For a parsed document, the position tells objects apart exactly as Python's
  `id` does, because parsing never shares one dict between two positions. The
  set `searched_objects` becomes a set of positions.
- **Extractor arguments.** The extractor's arguments are dynamically typed, so
  they become `Arg = Absent | AInt | AStr | AOther`.
  - A Python `bool` is an `AInt`.
  - `AOther` stands for any other value. It keeps only what the code inspects:
    the value's `str()` text and whether it compares equal to 0.
- **Raising.**
  - `search_key_in_all_levels` returns `None` when the call raises.
  - A projector fails with one of three errors:
    - `LookupError`: the resolver raised;
    - `UnhashableRow`: a kept row holds a dict or list, so `tuple(row) in set` raises;
    - `NothingToConcatenate`: `pd.concat([])` is called.

## Where the docstrings and the code disagree (the model follows the code)

- **`extract_parent_object` with `level=7`** (json_lib.py:87-89).
  - The docstring says the result is `"Extraction failed."`.
  - The loop instead returns the institution object when it reaches index 6
    (json_lib.py:133-136). `ExtractorExamples.LevelSeven` proves this.
  - `ParentExtractor.Extract` proves that `"Extraction failed."` is never returned.
- **The `construct_table_with_keys` docstring example** (import_requests.py:266-305).
  - It promises the row `Mittens, Mittens, cat`.
  - The code answers every key from the root-most object that has it. So `name`
    comes from the document root (`John`) and `type` from the first pet (`dog`).
  - `ProjectorExamples.MittensTable` proves the code's row: `orcid, Mittens, John, dog`.
  - The same docstring also calls the function without its `orcid` argument.
- **The `search_key_in_all_levels` docstring examples** (json_lib.py:200-203).
  - Each anchor is wrapped in one list too many.
  - On those arguments the walk indexes a dict with a list, which raises `TypeError`.
  - The model takes anchors to be paths, as the callers pass them.
- **The key finder stops at a matching key.** It does not search inside it.
  - So `{"a": {"a": 1}}` gives only `["a"]`.
  - "Every path whose last step is the key" is therefore not what it returns.
  - `PathFinder.KeyPathsExact` states what it does return, and
    `FinderExamples.KeyPruned` shows the example.

## Model

| member | source | states |
|---|---|---|
| PathFinder.FindAllPathsOfValue | import_requests.py:12-56 | each yielded path is non-empty and leads to a node equal to the value, and the paths come in document pre-order |
| PathFinder.FindAllPathsOfValueFolded | json_lib.py:9-61 | as above, with strings compared after lower-casing both sides |
| PathFinder.FindAllPathsOfKey | json_lib.py:149-180 | each yielded path resolves and ends in the key; the paths come in document pre-order |
| PathFinder.ValuePathsExact | json_lib.py:40-61 | a path is yielded iff it is an outermost match: it leads to an equal node and no shorter non-empty prefix does, because the search does not descend into a match |
| PathFinder.KeyPathsExact | json_lib.py:167-180 | a path is yielded iff it resolves, ends in the key, and no earlier step is that key |
| PathFinder.RootYields | json_lib.py:40-61 | every yield from the root is a hit, and the yields come in strict pre-order |
| PathFinder.SearchOrdered | json_lib.py:41-61 | the yields below any node are in pre-order of their child positions |
| PathFinder.FoldedTargetsAgree | json_lib.py:43-58 | two targets with the same lower-case form yield the identical path sequence on every document |
| PathFinder.UpperAndLowerTargetsAgree | json_lib.py:43-58 | "ABC" and "abc" yield the same paths under the case-folding finder |
| PathFinder.ExactFinderIsCaseSensitive | import_requests.py:40-56 | the exact finder does not find "abc" when asked for "ABC"; the case-folding finder does |
| FinderExamples.ExactNested | import_requests.py:28-30 | the nested docstring example gives `[['key1'], ['key2', 'nested_key']]` |
| FinderExamples.ExactInList | import_requests.py:32-34 | the list-of-objects example gives `[['key1'], ['key2', 0, 'nested_key']]` |
| FinderExamples.ExactTopList | import_requests.py:36-38 | the top-level list example gives `[[0, 'key1'], [1, 'key2', 'nested_key']]` |
| FinderExamples.FoldedInList | json_lib.py:29-31 | the case-folding finder gives the same answer for the upper-cased target |
| FinderExamples.KeyNested | json_lib.py:162-163 | `find_all_paths_of_key('nested_key', …)` gives `[['key2', 'nested_key']]` |
| FinderExamples.KeyInList | json_lib.py:164-165 | `find_all_paths_of_key('key', [...])` gives `[[0, 'key'], [1, 'key']]` |
| FinderExamples.KeyPruned | json_lib.py:171-174 | on `{"a": {"a": 1}}` the key finder yields only `["a"]` |
| ParentExtractor.Validate | json_lib.py:97-130 | on success the path is a list of ints and strings and the stop index lies inside it; "exceeds" means the level is past the path's end; "Key not found" means the key is not in the path; every failure is one of the ten validation messages |
| ParentExtractor.ValidateMessages | json_lib.py:97-130 | each of the ten messages is returned exactly when every earlier check passes and its own check fails, in the order third argument, document type, level-or-key, non-empty list, element types, leading zeros, positive level, level past the end, key type, key in path; validation never returns a walk message |
| ParentExtractor.ValidateCharacterised | json_lib.py:97-130 | validation passes iff the call is valid (stated without the order of checks), and then yields level − 1 or the key's first index |
| ParentExtractor.Extract | json_lib.py:64-145 | the final "Extraction failed." is unreachable |
| ParentExtractor.ExtractValue | json_lib.py:133-143 | a node is returned iff the call is valid and the elements before the stop index resolve; the node is the one they lead to |
| ParentExtractor.LevelOneIsDocument | json_lib.py:133-136 | `level=1` returns the document itself whatever the path holds |
| ParentExtractor.WalkErrorMessages | json_lib.py:138-141 | before the stop index, a missing key gives "Invalid key in path." and a bad index gives "Invalid index in path." |
| ParentExtractor.LevelIgnoresLaterSteps | json_lib.py:116-136 | with a level, the elements from the stop index on do not affect the outcome |
| ParentExtractor.IntegerLevelHasNoLeadingZero | json_lib.py:117-118 | the decimal text of a positive integer never starts with '0' |
| ParentExtractor.IntegerLevelNotRefusedForZeros | json_lib.py:117-118 | an integer level is never refused for leading zeros |
| ExtractorExamples.LevelSix | json_lib.py:79-81 | `level=6` returns the institutions list; with neither level nor key the call is refused |
| ExtractorExamples.KeyInstitutions | json_lib.py:83-85 | `key='institutions'` returns the authorship object that holds that key |
| ExtractorExamples.LevelSeven | json_lib.py:87-89 | `level=7` returns the institution object |
| ExtractorExamples.KeyMissing | json_lib.py:91-93 | `key='invalid_key'` gives "Key not found in path." |
| ExtractorExamples.StringLevels | json_lib.py:117-120 | the string level "05" trips the leading-zero guard; "5" is refused as not a positive integer |
| LevelResolver.SearchKeyInAllLevels | json_lib.py:186-247 | the call returns iff every prefix of every anchor can be walked without a lookup error |
| LevelResolver.Reports | json_lib.py:212-247 | the call returns iff every prefix walks; no two results come from the same object |
| LevelResolver.WalkExtendsResolve | json_lib.py:223-230 | where strict resolution succeeds, the walk agrees with it; a walk that ends on a container consumed every step |
| LevelResolver.ResolvingAnchorsDoNotRaise | json_lib.py:221-230 | if every anchor resolves, the call does not raise |
| LevelResolver.ObjectHitIsFirstMatch | json_lib.py:241-245 | an object contributes the value of its first key in stored order that matches (lower-cased when requested); the empty-string key is never reported |
| LevelResolver.ResultsSound | json_lib.py:218-245 | each result comes from its own object, reached under a prefix of an anchor, and is that object's first matching value with the path prefix + key |
| LevelResolver.ResultsComplete | json_lib.py:218-245 | every object reached under a prefix of an anchor (the node there, or an element of the array there) that has a non-empty first matching key has a result of its own, carrying that key's value |
| LevelResolver.AnchorBlockOrdered | json_lib.py:218-240 | for every anchor, the results it appends after the earlier anchors' results come root level first; within an array level they come in element order |
| LevelResolver.SingleAnchorOrdered | json_lib.py:219-240 | with one anchor, results come root level first, then deeper; within an array level they come in element order |
| LevelResolver.ResultsByAnchor | json_lib.py:218-220 | the results for anchors `A` are a prefix of the results for `A + B` |
| LevelResolver.FirstResultIsFirstHit | json_lib.py:219-245 | with one anchor, there is a result iff some level offers one, and the first result is what the root-most such level offers |
| RowProjector.FirstValue | import_requests.py:323-326 | fails (with a lookup error) iff the anchor cannot be walked |
| RowProjector.FillRow | import_requests.py:322-329 | a complete row has one value per key; a failure is a lookup error |
| RowProjector.CollectFrom | import_requests.py:317-334 | kept rows only grow; it never fails for lack of tables |
| RowProjector.BuildTable | import_requests.py:317-341 | the columns are 'orcid', 'values', then the keys |
| RowProjector.Dedup | import_requests.py:331-334 | keeps exactly the elements of the input, each once |
| RowProjector.DedupKeepsOrder | import_requests.py:331-334 | kept rows appear in the order of their first occurrences |
| RowProjector.FillRowIsFirstHits | import_requests.py:322-329 | a row is complete iff every key has a first result for the path, and its values are those results' values in key order |
| RowProjector.FillRowOnResolvingPath | import_requests.py:322-323 | on a path that resolves, the key loop never raises |
| RowProjector.TableIsDedup | import_requests.py:314-334 | the rows are the candidate rows with repeats removed; they are distinct, at most one per path, each `[orcid, value]` plus one value per key, each some path's row |
| RowProjector.TableKeepsPathOrder | import_requests.py:317-334 | rows appear in the order in which paths first produced them |
| RowProjector.BuildOnResolvingPaths | import_requests.py:317-334 | on resolving paths there is no lookup error, and the build succeeds iff every candidate row is hashable |
| RowProjector.NoKeysAtMostOneRow | import_requests.py:317-334 | with no keys the table is empty or the single row `[orcid, value]` |
| RowProjector.MissingKeyNoRows | import_requests.py:322-332 | a key that has no result on any path empties the table |
| RowProjector.CandidateIsExpected | import_requests.py:317-329 | whenever the key loop does not raise, a path's row is the one read off the resolver's first results |
| RowProjector.TableRowsAreExpected | import_requests.py:317-334 | a row is in the table iff some path's expected row is that row |
| RowProjector.ExpectedRowsHashable | import_requests.py:331-334 | on resolving paths the build fails iff some expected row holds a dict or list |
| ValueTables.PathsAreOutermostMatches | import_requests.py:308 | the paths the projector loops over are exactly the outermost matches, and each resolves |
| ValueTables.RowsOfMatches | import_requests.py:308-334 | every row comes from an outermost match, and every outermost match's row is present |
| ValueTables.HashableMatches | import_requests.py:308-334 | the table fails iff an outermost match's row holds a dict or list |
| ValueTables.ValueTableRows | import_requests.py:308-341 | on a parsed document there is no lookup error; success iff all match rows are hashable; then the rows are distinct and are exactly the match rows |
| ImportRequests.ConstructTableWithKeys | import_requests.py:249-341 | columns are 'orcid', 'values', keys; a failure is never "nothing to concatenate" |
| ImportRequests.TableRows | import_requests.py:308-341 | the rows are exactly the rows of the outermost exact matches, without repeats; no lookup error on a parsed document |
| Example1.ExtractData | example1.py:26-61 | columns are 'orcid', 'values', keys |
| Example1.TableRows | example1.py:43-61 | the rows are exactly the rows of the outermost case-insensitive matches, without repeats |
| Example2.ConstructTableWithKeys | example2.py:23-82 | columns are 'orcid', 'values', keys |
| Example2.SameAsExample1 | example2.py:49-78 | the same table as example1.py's `extract_data` with the same arguments |
| Example3.Blocks | example3.py:46-66 | a failure is never "nothing to concatenate" |
| Example3.ExtractData | example3.py:27-70 | fails with "nothing to concatenate" iff there are no targets; columns are 'orcid', 'values', keys |
| Example3.SingleTarget | example3.py:46-69 | one target gives example1.py's table |
| Example3.ConcatTargets | example3.py:46-69 | splitting the targets splits the table: the first part's error first, otherwise its rows then the second part's |
| Example3.RepeatedTarget | example3.py:47-49 | a target listed twice gives its rows twice, because de-duplication is per target |
| Example3.RowsByTarget | example3.py:46-69 | success iff there is a target and every target's table succeeds; then a row is present iff it is in some target's table |
| Example3.TargetsNeverShareRows | example3.py:52 | two different targets never share a row, since each row carries its target |
| Example3.NoLookupError | example3.py:46-69 | on a parsed document no lookup error is raised |
| ProjectorExamples.MittensFound | import_requests.py:308 | on the docstring document the exact finder yields the one path `['pets', 1, 'name']` |
| ProjectorExamples.MittensRow | import_requests.py:322-329 | that path's row is `[orcid, Mittens, John, dog]` |
| ProjectorExamples.MittensTable | import_requests.py:266-341 | the table for the docstring call is the single row `orcid, Mittens, John, dog` |

## Left out

- HTTP requests, file and console I/O are not modelled. This covers `get_works_from_orcid`, `fetch_publications` and the script code at the bottom of each file. They do no searching of their own.
- import_requests.py:424 calls `construct_table_with_keys` without its `orcid` argument, so the script raises `TypeError` there. Script code is not modelled.
- example4.py and example5.py are not modelled. They import fuzzy and substring finders that json_lib.py does not define, and fuzzy matching scores similarity with floating point.
- The snake-case conversion of the ORCID id (import_requests.py:396) is not modelled. It only names output files.
- pandas is not modelled. A data frame is its column names and a sequence of rows.
- Generator laziness is not modelled. A finder returns the whole sequence it would yield, in order.
- Python numbers other than integers are not modelled: there are no floats in `Node`, so `1 == 1.0` does not arise. `True == 1` and row-set membership of `True` and `1` are not modelled either, because documents keep `Bool` and `Int` apart.
- Lower-casing is ASCII only. Python's `str.lower` on other letters is not modelled.
- Two behaviours of the resolver's walk are not modelled:
  - `arr[int(p)]` with a numeric string key such as `"3"` works in Python, but is an error in the model;
  - a negative index, which Python wraps around.
  Paths produced by the finders never contain either.
- ParentExtractor.Validate: a non-int, non-string `level` is represented only by its `str()` text and its equality with 0. Those are the only facts the validation reads.
- The nested, unreachable `def search_key_in_all_levels` inside import_requests.py:185-210 is not modelled. It is never called; the outer body (import_requests.py:211-246) is the same as json_lib.py:212-247 and is the one modelled.
- Example3.ExtractData: with no targets `pd.concat` raises. The model returns `Failure(NothingToConcatenate)` instead of requiring a target.
- RowProjector.CollectFrom: a kept row holding a dict or list makes Python raise. The model returns `Failure(UnhashableRow)` instead of excluding such documents.
- LevelResolver.SearchKeyInAllLevels: a document built by hand in Python can place one dict object at two positions. Python's `id` test searches that dict once, but the model searches it once per position and can report it twice. Parsed JSON never shares a dict between positions, so this case does not arise from parsing.
