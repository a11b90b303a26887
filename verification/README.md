# File tree and directory-tree checker, modelled in Dafny

This project models two C modules of a hierarchical file-system exercise.

- `3FT/ft.c` is the file tree (FT). It is a single abstract object. Three static variables hold its state: the initialization flag, the root node and the node count. The tree holds directories and files. Every node has an absolute path made of components. Children are kept in sorted order by path. A file cannot be the root, and a file has no children.
- `2DT/checkerDT.c` is the invariant checker of the directory tree (DT). It walks a tree through the node getters and reports whether the tree is sound.

The model is purely functional.

- The FT's statics become a `FT.State` value. Every public `FT_*` operation becomes a function from a state to its new state and status.
- A node is an immutable `Nodes.Node` (path, kind, contents, size, children).
- What a tree holds is stated once, as a map from paths to entries (`Nodes.Abs`, `FT.Contents`). Every operation is proved against that map:
  - lookup finds exactly the held paths;
  - insertion adds exactly the missing levels;
  - removal drops exactly the paths that begin with the removed one;
  - contents replacement changes exactly one entry.
- Each of these keeps the representation invariant `FT.Valid`:
  - the root exists only while the tree is initialized;
  - the root is a directory and has depth 1;
  - every child is one level below its parent and begins with the parent's path;
  - siblings are strictly sorted;
  - files are leaves;
  - the count equals the number of nodes.

The path module is not part of this model. Paths are sequences of non-empty components without `/` (`Paths.Path`). Components are compared character by character, as `strcmp` does, and paths are compared through their rendered strings. Path strings are parsed by `Paths.Parse`. The model takes a path string to be a non-empty sequence of non-empty components separated by single `/`, with no leading `/` (see "## Left out").

The checker is modelled on what the getters show (`CheckerDT.DNode`):
- a node's path;
- its parent's path;
- the child count that `Node_getNumChildren` reports;
- the children that `Node_getChild` can return.

So a corrupted tree whose child links still form a finite tree can be represented. The checker is modelled as written in `CheckerDT`. The checker its comments describe is stated separately in `CheckerIntended`, which also proves the two apart.

Allocation failure is modelled where the insertion's rollback depends on it: the node creation in the insertion loop. The `failAt` parameter names the level whose `Node_new` fails. That drives the rollback.

The model follows the code in these places:
- `FT_init` on an initialized tree returns `INITIALIZATION_ERROR`.
- `FT_getFileContents` and `FT_replaceFileContents` do not check that the path is a file.
- `FT_findNode` does not check initialization, although its comment lists `INITIALIZATION_ERROR`. The public wrappers make that check.
- The checker never compares the count with the tree.

## Model

| member | source | states |
|---|---|---|
| Paths.Parse | 3FT/ft.c:135-140 | a path string is rejected (BAD_PATH) exactly when it is not well formed; an accepted string renders back to itself |
| Paths.ParseRender | 3FT/ft.c:135-140 | parsing the rendering of any path gives the path back |
| Paths.Compare | 2DT/checkerDT.c:76 | path comparison gives 0 exactly for equal paths |
| Paths.SharedPrefixDepth | 2DT/checkerDT.c:34-35 | the shared depth is at most either depth, both paths agree up to it, and they differ at the next component |
| Nodes.FindChild | 3FT/ft.c:90-101 | the child lookup returns an index whose child has the path asked for, or fails only when no child has it |
| Nodes.InsertChildSorted | 3FT/ft.c:267-274 | placing a new node among its parent's children keeps them strictly sorted |
| Nodes.RemoveChildSorted | 3FT/ft.c:334 | unlinking a child keeps the siblings strictly sorted |
| FTWalk.DescendDeepest | 3FT/ft.c:80-113 | the node the walk reaches is held with its own entry, and no longer prefix of the path is held |
| FTWalk.DescendFinds | 3FT/ft.c:150-162 | a path is held exactly when the walk towards it reaches it |
| FTWalk.ChainSpec | 3FT/ft.c:246-293 | the levels the insertion loop creates form a well-formed chain of one node per level, directories except the final node, which gets the requested kind and contents |
| FTWalk.GraftAbs | 3FT/ft.c:267-274 | linking a new subtree below the deepest ancestor adds exactly its paths, all new, and changes no existing entry |
| FTWalk.GraftShape | 3FT/ft.c:267-274 | linking a new subtree at its parent keeps the tree's path shape and sibling order |
| FTWalk.GraftThenDetach | 3FT/ft.c:277-284 | freeing the first new node after a failure restores the tree exactly as it was |
| FTWalk.DetachAbs | 3FT/ft.c:334 | unlinking a node drops exactly the paths that begin with its path and changes no other entry |
| FTWalk.DetachSize | 3FT/ft.c:334 | unlinking a node removes exactly its subtree's size from the tree, the number Node_free reports |
| FTWalk.SetContentsAbs | 3FT/ft.c:446-453 | setting the contents at a held path changes that entry's contents and size and nothing else |
| FT.TraversePath | 3FT/ft.c:44-114 | its own contract: the walk fails only with CONFLICTING_PATH, and a node it reaches has a prefix of the path; FTSpec.TraverseDeepest carries the full property |
| FTSpec.TraverseDeepest | 3FT/ft.c:44-114 | on a valid tree with no root the walk gives SUCCESS and no node; when there is a root, it gives CONFLICTING_PATH exactly when no prefix of the path is held, and otherwise the deepest held prefix with its entry |
| FT.FindNode | 3FT/ft.c:126-167 | its own contract: SUCCESS exactly when a node is returned, and that node has the parsed path; FTSpec.FindRefines carries every status |
| FTSpec.FindRefines | 3FT/ft.c:126-167 | on a valid tree the lookup gives BAD_PATH, CONFLICTING_PATH, NO_SUCH_PATH or SUCCESS exactly as the contents dictate, with the held entry on success |
| FT.InsertNode | 3FT/ft.c:183-302 | its own contract: an error leaves the flag and count unchanged, and success leaves the flag and a root; FTSpec.InsertRefines and FTSpec.InsertGrows carry the statuses and the contents added |
| FTSpec.AttachLevels | 3FT/ft.c:246-301 | linking the missing levels below the deepest existing directory keeps the tree well formed, adds exactly those levels with their entries, and grows the tree by one node per level |
| FTSpec.InsertRefines | 3FT/ft.c:183-302 | on a valid tree the insertion gives the status the contents dictate; a failed allocation gives MEMORY_ERROR; every error leaves the state untouched |
| FTSpec.Rollback | 3FT/ft.c:277-284 | a node creation failing after earlier levels were linked leaves exactly the original state |
| FTSpec.InsertGrows | 3FT/ft.c:246-301 | a successful insertion keeps the tree valid, adds exactly the missing prefixes with their entries, keeps every old entry, and raises the count by the number of new levels |
| FT.RemoveNode | 3FT/ft.c:318-339 | its own contract: the flag never changes, and an error leaves the state unchanged; FTSpec.RemoveRefines and FTSpec.RemoveShrinks carry the statuses and the contents dropped |
| FTSpec.RemoveRefines | 3FT/ft.c:318-339 | on a valid tree the removal gives the status the contents and kind dictate, and every error leaves the state unchanged |
| FTSpec.RemoveShrinks | 3FT/ft.c:318-339 | a successful removal keeps the tree valid, drops exactly the removed subtree's paths, lowers the count by its size, and clears the root exactly when the count reaches 0 |
| FT.InsertDir | 3FT/ft.c:341-349 | its own contract: before FT_init, INITIALIZATION_ERROR and no change; FTSpec.InsertDirSpec carries the full property |
| FTSpec.InsertDirSpec | 3FT/ft.c:341-349 | INITIALIZATION_ERROR before init, BAD_PATH for a malformed path, otherwise the status the contents dictate; on success a valid tree with exactly the missing levels added as directories |
| FT.InsertFile | 3FT/ft.c:378-387 | its own contract: before FT_init, INITIALIZATION_ERROR and no change; FTSpec.InsertFileSpec carries the full property |
| FTSpec.InsertFileSpec | 3FT/ft.c:378-387 | as for directories, with the final level a file holding the contents and length given |
| FT.RmDir | 3FT/ft.c:368-376 | its own contract: before FT_init, INITIALIZATION_ERROR and no change; FTSpec.RmDirSpec carries the full property |
| FTSpec.RmDirSpec | 3FT/ft.c:368-376 | INITIALIZATION_ERROR before init, BAD_PATH for a malformed path, otherwise the status the contents and kind dictate; on success a valid tree without the removed subtree, and on error no change |
| FT.RmFile | 3FT/ft.c:408-416 | its own contract: before FT_init, INITIALIZATION_ERROR and no change; FTSpec.RmFileSpec carries the full property |
| FTSpec.RmFileSpec | 3FT/ft.c:408-416 | the same for a path that must be a file |
| FT.ContainsDir | 3FT/ft.c:351-366 | its own contract: TRUE only on an initialized tree with a root; FTSpec.ContainsSpec carries the full property |
| FT.ContainsFile | 3FT/ft.c:391-406 | its own contract: TRUE only on an initialized tree with a root; FTSpec.ContainsSpec carries the full property |
| FTSpec.ContainsSpec | 3FT/ft.c:351-406 | the tree contains a directory (file) exactly when it is initialized and holds the path as a directory (file) |
| FT.GetFileContents | 3FT/ft.c:418-433 | its own contract: NULL before FT_init; FTSpec.GetFileContentsSpec carries the full property |
| FTSpec.GetFileContentsSpec | 3FT/ft.c:418-433 | the contents recorded at a held path, NULL when uninitialized or the path is not held |
| FT.ReplaceFileContents | 3FT/ft.c:435-454 | its own contract: before FT_init, NULL and no change, and the flag and count never change; FTSpec.ReplaceSpec carries the full property |
| FTSpec.ReplaceSpec | 3FT/ft.c:435-454 | at a held path the previous contents are returned and only that entry's contents and size change; otherwise nothing changes and NULL is returned |
| FT.Stat | 3FT/ft.c:456-478 | the file flag is written exactly on success and the size exactly for a file |
| FTSpec.StatSpec | 3FT/ft.c:456-478 | the lookup's status; on success whether the path is a file, and for a file its size |
| FT.Init | 3FT/ft.c:480-490 | a second init gives INITIALIZATION_ERROR; a first gives a valid, empty, initialized tree |
| FT.Destroy | 3FT/ft.c:492-505 | an uninitialized tree gives INITIALIZATION_ERROR; otherwise the tree is emptied and the flag cleared |
| FTText.ToString | 3FT/ft.c:585-614 | its own contract: NULL exactly when the tree is not initialized; FTText.BuildString shows the C procedure computes it, and FTText.ListingCount and FTText.PreOrderCovers say what the listing holds |
| FTText.PreOrderTraversal | 3FT/ft.c:518-553 | the array is filled with the node, then its file children, then each directory child's listing |
| FTText.AppendFiles | 3FT/ft.c:528-540 | the first loop adds exactly the file children, in stored order |
| FTText.AppendDirs | 3FT/ft.c:541-550 | the second loop adds each directory child's listing, in stored order |
| FTText.FileChildrenSorted | 3FT/ft.c:528-540 | the nodes the first loop adds are exactly the file children, and they stay in sorted order |
| FTText.PreOrderCovers | 3FT/ft.c:518-553 | the listing of a subtree holds each of its nodes exactly once |
| FTText.ListingCount | 3FT/ft.c:594-595 | on a valid tree the listing has exactly count nodes, so the array sized by the count is filled exactly |
| FTText.MeasureAll | 3FT/ft.c:560-566 | the accumulated length is 1 plus each path's length plus one |
| FTText.ConcatAll | 3FT/ft.c:573-582 | the text is each path followed by a newline, in listing order |
| FTText.TextLength | 3FT/ft.c:597-600 | the accumulated length is exactly the text's length, so the buffer holds the text and its terminator |
| FTText.BuildString | 3FT/ft.c:585-614 | NULL when uninitialized, otherwise the listing's text in a buffer one longer than the text |
| CheckerDT.NodeIsValid | 2DT/checkerDT.c:16-43 | its own contract: a NULL node is invalid; CheckerDT.NodeIsValidMeaning states exactly which non-NULL nodes pass |
| CheckerDT.NodeIsValidMeaning | 2DT/checkerDT.c:29-40 | the parent check passes exactly when the parent agrees with the node on all but its last component and not also on that one |
| CheckerDT.ParentAccepted | 2DT/checkerDT.c:29-40 | every true parent, one level up and a prefix, passes |
| CheckerDT.HasValidChildren | 2DT/checkerDT.c:50-82 | the pairwise loop fails exactly when some gettable pair below the count has its first child comparing less than the second |
| CheckerDT.TreeCheck | 2DT/checkerDT.c:94-154 | true exactly when the tree is NULL or every reached node passes the node check, the children check and the getter below the count |
| CheckerDT.CheckSubtree | 2DT/checkerDT.c:121-151 | a non-NULL subtree passes exactly when every node reached from it is sound |
| CheckerDT.IsValid | 2DT/checkerDT.c:157-170 | rejects an uninitialized tree with a non-zero count, and otherwise answers as the tree check does |
| CheckerDT.EveryUnfold | 2DT/checkerDT.c:132-151 | a property holds at every reached node exactly when it holds at the node and throughout each visited child's subtree |
| CheckerIntended.IntendedExact | 2DT/checkerDT.c:27-28 | the checks the comments describe hold on a file tree's view exactly when the tree has its path shape and sorted siblings |
| CheckerIntended.ValidAccepted | 2DT/checkerDT.c:157-170 | the intended checker, with the count compared, accepts every valid tree |
| CheckerIntended.OrderReversed | 2DT/checkerDT.c:73-78 | as written, every well-shaped tree in which some reached node has two or more children is rejected, while the intended check accepts it |
| CheckerIntended.DuplicatesAccepted | 2DT/checkerDT.c:47-49 | two children with the same path pass the check as written, against the comment |
| CheckerIntended.NonPrefixParent | 2DT/checkerDT.c:27-35 | a node a/b whose parent is a/c passes the parent check as written |
| CheckerIntended.CountIgnored | 2DT/checkerDT.c:168-169 | a one-node tree passes with any count as written; the intended checker requires a count of 1 |
| FTSpec.InsertOverFile | 3FT/ft.c:216-221 | inserting a path already held as a file reports NOT_A_DIRECTORY and changes nothing |
| FTSpec.InsertIntendedSpec | 3FT/ft.c:180 | the corrected insertion reports ALREADY_IN_TREE exactly when the path is held, and otherwise behaves as written |

## Left out

- Diagnostics written with `printf` and `fprintf`, and the checker's first listing loop (`2DT/checkerDT.c:97-119`), have no effect on results and are not modelled.
- Allocation failures other than `Node_new` in the insertion loop are not modelled.
  - When `Path_new` or `Path_prefix` runs out of memory, the operation returns an error and the tree is unchanged.
  - When the `malloc` of the text buffer in `FT_toString` fails, it returns NULL.
  - `FT_toString` does not check the result of `DynArray_new` (`3FT/ft.c:594`). `FT_preOrderTraversal` asserts that the array exists and that every getter succeeds (`3FT/ft.c:522`, `534`, `547`). So those failures stop the C program, and the model has no counterpart.
- The path module (`path.h`) is not part of this model. Its behaviour is given by `Paths.Parse`, `Paths.Compare` and `Paths.SharedPrefixDepth`.
- Paths.Parse accepts a non-empty sequence of non-empty components separated by single `/`, with no leading or trailing `/`. The path module is not part of this model, so this syntax is a choice. A string that begins with `/`, such as `/a/b`, is BAD_PATH here, and so inserting `/a/b/c` into an empty tree gives BAD_PATH.
- FTText.MeasureAll and FTText.BuildString count the characters of a Dafny string. `Path_getStrLength` and `malloc(totalStrlen)` (`3FT/ft.c:565`, `600`) count bytes, so for names with non-ASCII characters the model's buffer size differs from the C program's.
- The node module is not part of this model. `Node_hasChild` is modelled as a search for the first child with the path asked for, not as a binary search. On sorted siblings the two agree.
- `ulCount` is a `size_t`; the model uses an unbounded integer. On a valid tree the count never goes below zero, so no wrap-around can occur.
- File contents are an opaque `Blob`. The model has no pointer identity, so the old contents returned by `FT_replaceFileContents` are compared by value.
- CheckerDT.DNode is a finite tree, so it cannot represent cyclic child links, where `Node_getChild` leads back to the node itself or to an ancestor. On such a graph `CheckerDT_treeCheck` recurses without end (`2DT/checkerDT.c:132-151`): it keeps no set of visited nodes, and the checks at lines 123-128 pass again on each repeated node. The model does not cover that non-termination.
- In the checker, a child pointer that `Node_getChild` returns as NULL is not modelled. The getter either fails or returns a node.
- FT.InsertDir and FT.InsertFile call `FT.InsertNode` as written, not the corrected `FTSpec.InsertNodeIntended`, so that they model the code. The finding below is stated beside them.
- FTSpec.InsertRefines, FTSpec.RemoveRefines, FTSpec.InsertGrows and the other FTSpec lemmas assume `FT.Valid`. The operations are defined on every state, but nothing is proved about states that break the invariant.

## Findings

| source | as written | input that shows it | evidently intended | confidence | as-written member | corrected member |
|---|---|---|---|---|---|---|
| 2DT/checkerDT.c:76 | fails when the first child compares less than the second, so properly ordered children are rejected and duplicate paths pass | a node with children a/b and a/c, in that order; or two children both a/b | fail when the first child does not compare strictly less than the second | medium, not executed | CheckerDT.HasValidChildren, CheckerIntended.OrderReversed, CheckerIntended.DuplicatesAccepted | CheckerIntended.IntendedExact |
| 2DT/checkerDT.c:34-35 | accepts any parent sharing exactly depth-1 leading components with the node | a node a/b whose parent has path a/c | the parent's path is the node's path without its last component | medium, not executed | CheckerDT.NodeIsValid, CheckerIntended.NonPrefixParent | CheckerIntended.IntendedExact |
| 2DT/checkerDT.c:168-169 | never compares the count with the number of nodes in the tree | an initialized tree with a single root node and count 5 | the count equals the number of reachable nodes | medium, not executed | CheckerDT.IsValid, CheckerIntended.CountIgnored | CheckerIntended.ValidAccepted |
| 3FT/ft.c:216-221 | inserting a path already held as a file stops the walk at that file and fails the directory test first | insert a/b when a/b is a file | ALREADY_IN_TREE for any held path, as the comment at line 180 says | high, not executed | FTSpec.InsertOverFile | FTSpec.InsertIntendedSpec |
