# apteryx-schema core in Dafny

A model of the in-memory schema store of `schema.c`: the forest of schema
trees keyed by root name, the merge that grafts a newly parsed tree into an
existing root of the same name, the load loop that folds parse results into the
forest, path lookup with '-'/'_' folding and '*' wildcard children, and
translation between enum values and their symbolic names.

C pointers and ownership become immutable values: a `Node` owns a `seq<Node>`
of children, the forest is a `map<string, Node>`, and the model records are a
`seq<Model>`. A NULL `char *` is `None`.

| file | module | models |
|---|---|---|
| `options.dfy` | `Options` | optional values (NULL pointers) |
| `schema_node.dfy` | `SchemaNode` | `struct apteryx_schema_node`, flags, name-paths of a tree |
| `name_match.dfy` | `NameMatch` | `match_name` |
| `tree_merge.dfy` | `TreeMerge` | `merge_nodes` |
| `schema_load.dfy` | `SchemaLoad` | the parse-result loop of `apteryx_schema_load`, `first_model`/`next_model` |
| `path_lookup.dfy` | `PathLookup` | `lookup_node`, `apteryx_schema_lookup` |
| `enum_translate.dfy` | `EnumTranslate` | `apteryx_schema_translate_to`/`_from` |

Notes on the model:

- Flags are a `set<Flag>`; the C test `(flags & F) == F` is `F in flags`.
  `IsLeaf`, `IsReadable` and `IsWritable` are that test and nothing more.
- Merge matches children by exact string equality, with no '-'/'_' folding,
  and searches only the existing node's children as they were on entry (each
  possibly already merged into by an earlier incoming sibling); stolen children
  are appended after the search. `MergeNodes` also returns what remains of the
  incoming node, which the caller destroys.
- The load fold takes each file's parse result `(root?, name?, organization?,
  version?)` in file order. The loop prepends model records and reverses the
  list at the end, as the C code does; `Load` proves that this yields the
  records in file order.
- In lookup, a wildcard child is any child whose name starts with '*'
  (`n->name[0] == '*'`), not only one named exactly `*`. The model skips
  the first character of the path whatever it is, as the C code skips its
  first byte (`path + 1`); it is not checked to be '/'. An empty path, on which the C code would read past the terminator,
  yields nothing.
- Names and paths are sequences of characters, where the C code works on
  bytes. Every string step but one only compares for equality or tests an
  ASCII character ('/', '-', '_', '*'), so it behaves the same either way; the
  exception is the skipped first character of a lookup path (see "Left out").
- `match_name` is modelled as its character loop, reading a terminator past the
  end of each string; the characterisation by length and position holds for
  strings with no embedded NUL, which is all a C string can be.
- A model is identified by its index in the record sequence instead of by
  pointer.

## Model

| member | source | states |
|---|---|---|
| NameMatch.MatchNameIff | schema.c:327-345 | for C strings, two names match exactly when they have the same length and agree at every position once each '-' is read as '_' |
| NameMatch.MatchNameSymmetric | schema.c:327-345 | name matching does not depend on the order of its arguments |
| NameMatch.MatchNameReflexive | schema.c:327-345 | every name matches itself |
| TreeMerge.FindExact | schema.c:127-135 | the search for a merge partner returns the first existing child whose name is exactly the incoming name, and none only when no existing child has that name |
| TreeMerge.MergeChildrenKids | schema.c:122-146 | the existing children keep their number, order, names and attributes, and those no incoming child names are left exactly as they were |
| TreeMerge.MergeChildrenShadowed | schema.c:128-135 | an existing child that is not the first of its name is never merged into and is left exactly as it was, since the search stops at the first exact match |
| TreeMerge.MergeChildrenStolen | schema.c:122-152 | exactly the incoming children whose name no existing child has are stolen, in their original order; the others stay behind in the incoming node |
| TreeMerge.MergeNodesShape | schema.c:113-156 | after a merge the existing children form a prefix in their order, the unmatched incoming children follow in their original order and are removed from the incoming node, the existing node's own flags, value, default, pattern and description are unchanged, and an existing child is left exactly as it was when no incoming child names it or when it is not the first of its name |
| TreeMerge.MergeExtends | schema.c:113-156 | a merge only adds below the existing node: at every depth each existing node keeps its place among its siblings and its flags, value, default, pattern and description (first seen wins) |
| TreeMerge.MergeChildOne | schema.c:128-139 | an existing child that is the first of its name, and that exactly one incoming child names, becomes the merge of those two; so the other merge properties, the incoming side included, apply again one level down and so at every depth |
| TreeMerge.MergePaths | schema.c:113-156 | the set of name-paths below the merged node is the union of those below the existing and the incoming node: no branch lost, none invented |
| TreeMerge.MergeChildrenPaths | schema.c:122-153 | merging sibling lists unites the name-paths below them |
| TreeMerge.GraftDisjoint | schema.c:128-153 | when no incoming child's name is exactly that of an existing child, every incoming child is appended in order, same-named duplicates both included; names are compared exactly, so `a-b` is grafted beside `a_b` rather than merged into it |
| SchemaLoad.AddRoot | schema.c:198-213 | a root whose name is a key is merged into the existing root and the key set is kept; a new name is inserted as the root itself; other roots are unchanged |
| SchemaLoad.AddRootStep | schema.c:196-222 | one pass of the loop keeps the forest invariant for merged, inserted and failed parses alike |
| SchemaLoad.RootsBuilt | schema.c:175-223 | the forest folded from the parse results has one root per parsed root name, keyed by its own name; each root extends, at every depth, the first root parsed under that name and holds every name-path any root of that name contributed |
| SchemaLoad.LoadOrderPaths | schema.c:196-213 | the same parse results in any other order give the same root names and, under each root, the same set of name-paths: no branch of the forest depends on file order |
| SchemaLoad.Load | schema.c:158-229 | the loop's roots are exactly the fold of the parse results (merge into an existing name, insert a new one, skip a failed parse), and so satisfy the forest invariant above; the model records are those of files with a name and a parsed root, in file order, although the loop prepends them and reverses at the end |
| SchemaLoad.FirstModel | schema.c:295-299 | the first model is the record at index 0, and there is none exactly when no record was loaded |
| SchemaLoad.NextModel | schema.c:301-307 | the model after index `i` is the record at `i + 1`; past the last record, or for an index that is not a record (the list search missing), there is none |
| SchemaLoad.IterateModels | schema.c:295-307 | stepping from the first model with the next-model step visits every record exactly once, in load order |
| PathLookup.FirstMatch | schema.c:376-393 | a segment selects the first child in order whose name starts with '*' or matches the segment, and none only when no child does |
| PathLookup.LookupNodeWalk | schema.c:347-397 | resolution below a node follows the '/'-separated segments of the path one by one, each taking the first accepting child, failing at the first miss without trying later children |
| PathLookup.LookupIsResolve | schema.c:399-435 | lookup takes the path after its first character, uses its first segment as an exact root key and walks the remaining segments down from that root |
| PathLookup.LookupRoot | schema.c:407-426 | a path that is '/' and a root name yields that root |
| PathLookup.LookupUnknownRoot | schema.c:407-420 | a root name that is not a key yields nothing, with or without further segments |
| PathLookup.LookupSegments | schema.c:399-435 | '/' followed by a root name and '/'-free segments joined by '/' resolves by walking those segments from the root |
| EnumTranslate.FirstByValue | schema.c:466-477 | the value search finds the first ENUM child storing the value, and none only when no ENUM child does |
| EnumTranslate.FirstByName | schema.c:486-497 | the name search finds the first ENUM child with the name, and none only when no ENUM child has it; an absent input names no child |
| EnumTranslate.TranslateTo | schema.c:455-479 | after an absent input is replaced by the default, the result is the name of the first ENUM child storing that value, or the substituted input when none does |
| EnumTranslate.TranslateFrom | schema.c:481-499 | the result is the stored value of the first ENUM child with the input as name, or the input unchanged when none has it; an absent input stays absent |
| EnumTranslate.ToThenFrom | schema.c:455-499 | with distinct ENUM names, translating a stored value to its name and back returns the value |
| EnumTranslate.FromThenTo | schema.c:455-499 | with distinct ENUM values all present, translating an ENUM name to its value and back returns the name |
| EnumTranslate.DefaultSubstitution | schema.c:460-464 | translating an absent value gives what translating the node's default gives |

## Left out

- `list_schema_files` (schema.c:68-111): directory reading, extension filtering and case-insensitive sorting are file-system I/O and libc behaviour; the load fold takes the files' parse results in the order given.
- `xml_schema_load` and `yang_schema_load`: the format parsers are not part of this model; their results are the inputs of `Load`, and the dispatch by file extension goes with them.
- `_node_dump`, `_schema_dump`, `apteryx_schema_dump` (schema.c:239-293): text formatting for diagnostics, over a hash table whose iteration order is unspecified.
- `node_create`, `node_destroy`, `model_create`, `model_destroy`, `apteryx_schema_free`: allocation and release have no counterpart for immutable values; the 256-byte name truncation in `node_create` is not modelled.
- The allocation failure of the instance in `apteryx_schema_load` (returning NULL) is not modelled.
- `DEBUG`/`ERROR` logging and the global `apteryx_schema_debug` flag.
- `apteryx_schema_name` and the model accessors `apteryx_schema_model_name`/`_organization`/`_version` are field reads of the datatypes.
- `IsLeaf`, `IsReadable`, `IsWritable` carry no contract: each is the single flag test of `apteryx_schema_is_leaf`/`_is_readable`/`_is_writable` (schema.c:437-453), with nothing further to state.
- The numeric values of the `NODE_FLAGS_*` bits: their header is not part of this model; flags are a set.
- PathLookup.Lookup: skips the first character of the path where the C code skips its first byte (`path + 1`). The two differ when the path starts with a non-ASCII character. For example, with UTF-8 `"ér"` the C code looks up the root key `"\xA9r"` and finds nothing, while the model looks up `"r"`. Paths that start with '/', as callers write them, behave the same.
- SchemaLoad.LoadOrderPaths: states order independence for the name-paths only. Which flags, values, defaults, patterns and descriptions survive, and the order of children, depend on file order, because the first file seen under a name wins (`RootsBuilt` states which tree is kept).
- NameMatch.MatchNameIff: stated for strings without an embedded NUL, since a C string cannot hold one.
- EnumTranslate.ToThenFrom: stated for nodes whose ENUM children have distinct names, since with duplicates the first-match rule may pick a different child on the way back.
- EnumTranslate.FromThenTo: stated for nodes whose ENUM children have distinct, present values, for the same reason.
