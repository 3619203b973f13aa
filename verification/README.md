# tarman's path tree and archive containers, in Dafny

tarman is a console browser for tar and zip archives. The browser does not
navigate an archive directly. Instead, it folds the archive's flat list of
member names into a tree of path segments. Listing a directory, entering
it, or asking for a node's absolute path are all lookups in that tree.
Extracting a selection maps the selected nodes back to member names.

This project models that core as pure functions over immutable values and
proves what they do.

- `outcomes.dfy` (`Outcomes`): `Option` and `Result`. The error kinds are
  `NotFound` (a path could not be stat'ed) and `OutOfRange` (a path lies
  outside the tree's root).
- `paths.dfy` (`Paths`): the POSIX path functions the tree relies on.
  - `os.path.split`, `basename` and `join`, and `os.sep.join`.
  - The segment splitter `FileNode._get_array_by_path` (`ArrayByPath`). It
    is proved equal to an independent description: the non-empty fields of
    `str.split('/')`, or nothing when the path is empty or ends with `/`.
- `tree.dfy` (`Tree`): the ordered tree `Node`.
  - Appending a child; finding the first child with a payload.
  - Unlinking a node from its parent.
  - The root-to-node payload chain (`get_data_array`).
  - Depth-first iteration over the leaves.
  - Walks by name path and by index path.
- `filetree.dfy` (`FileTree`): `FileNode`.
  - `add_subdir`, including how it absorbs `AlreadyExists`.
  - `get_children_data`.
  - The insertion walk that `DirectoryTree.add` performs below the root.
- `dirtree.dfy` (`DirTree`): `DirectoryTree` and its four path-keyed
  operations: `add`, `in`, `[]` and `del`.
  - Each operation first checks that the root's segments prefix the
    path's (`Within`).
  - `get_path` and the iteration are also here.
- `containers.dfy` (`Containers`):
  - `Tar` and `Zip` construction from a member-name list, and their
    `listdir`, `isenterable` and `abspath`.
  - Member selection for `extract`.
  - The `Dummy` container and `Container.samefile`.
  - `get_archive_class` and `container` over the ordered registry
    `[Tar, Zip]`.

Things the model takes as inputs:

- Whether `os.stat(path)` succeeds is a parameter: `stat: string -> bool`.
- The member list is a parameter. It is what `getnames()` or `namelist()`
  would return.
- Each format's `isarchive` answer is a parameter: `ArchiveKind -> bool`.

The Python code mutates a tree of linked nodes. The model instead returns
the updated tree.

- When `add` raises `NotFound` part way down, the levels created before the
  failure stay in the tree. The model keeps them too: `Insertion` carries
  both the tree and the outcome.
- A node is identified by its name path below the root, or by its index
  path. `del_self` and `get_data_array` follow parent links in the source.
  Here `del_self` is a function of the root and the node's name path
  (`Tree.DeleteAt`), and `get_data_array` one of the root and the node's
  index path (`Tree.DataArray`).

Modelling decisions:

- `Tar.__init__` and `Zip.__init__` call `DirectoryTree(self.path, self)`
  with two arguments (`src/tarman/containers.py:122`,
  `src/tarman/containers.py:165`). The constructor
  (`src/tarman/tree.py:149`) takes one. The model builds the tree as
  evidently intended: `DirectoryTree(self.path)`.
- `FileNode` stats every path it creates (`src/tarman/tree.py:79`). Inside
  an archive those paths do not exist on disk. The oracle lets either
  reading be stated: an oracle that accepts every path gives the evident
  intent, and an arbitrary oracle gives the code as written.
- The source dereferences `None` in some places:
  - `__delitem__`, `listdir`, `isenterable` and `abspath` on a missing
    path;
  - `extract` on the root node, whose chain without the root is empty;
  - `Zip.__init__` on an empty member name.

  These calls are excluded by preconditions (`Navigable`, `SelectionOk`,
  `NoEmptyName`), not modelled as crashes. Paths outside the root still
  give `OutOfRange`.
- `add` of a tar member whose name ends with `/` joins to a path that
  splits into no segments. That path is out of range unless the archive
  path itself has no segments. The model keeps this behaviour: tar
  construction then stops with `OutOfRange`.

## Model

| member | source | states |
|---|---|---|
| Paths.Split | src/tarman/tree.py:125-128 | `os.path.split`: the name part has no separator and is a suffix of the path, and head and name together are no longer than the path |
| Paths.SplitHeadTail | src/tarman/tree.py:125-128 | `os.path.split` without its algorithm: the tail is the longest separator-free suffix; the head is the rest when that is all separators, and otherwise the rest cut back to its last non-separator character |
| Paths.Basename | src/tarman/tree.py:84 | `os.path.basename` is a separator-free suffix of the path |
| Paths.BasenameIsSplitTail | src/tarman/containers.py:43-50 | `basename` is the tail that `split` returns |
| Paths.JoinEnds | src/tarman/containers.py:46-47 | `join(a, b)` ends with `b`, and starts with `a` unless `b` is absolute |
| Paths.JoinAll | src/tarman/tree.py:106 | `join(a, *bs)` ends with the last name joined on |
| Paths.SepJoin | src/tarman/containers.py:154 | `os.sep.join(ss)` starts with the first name and ends with the last |
| Paths.ArrayByPathLast | src/tarman/tree.py:122-129 | the splitter yields nothing exactly for an empty path or one ending in `/`, and otherwise its last component is the basename |
| Paths.ArrayByPathIsSegments | src/tarman/tree.py:122-129 | the splitter yields exactly the non-empty `/`-separated components of the path, and nothing for an empty path or one ending in `/` |
| Paths.ArrayByPathSegmentsAreProper | src/tarman/tree.py:122-129 | every component the splitter yields is non-empty and free of separators |
| Paths.BasenameOfJoin | src/tarman/tree.py:84 | the basename of `join(base, seg)` is `seg`, so the new node is named after the segment being added |
| Paths.SegmentsOfJoin | src/tarman/tree.py:173 | joining a segment onto an anchored path adds exactly that segment to its components |
| Paths.SegmentsOfJoinAll | src/tarman/tree.py:104-108 | `join(base, *segs)` splits into the base's components followed by `segs` |
| Paths.SepJoinRoundTrip | src/tarman/containers.py:154 | `os.sep.join` of proper segments splits back into the same segments |
| Tree.ChildIndex | src/tarman/tree.py:54-58 | the search returns the position of the first child carrying the payload, and none exactly when no child carries it |
| Tree.GetChild | src/tarman/tree.py:54-58 | a child is found iff some child carries the payload; the child found carries it and no earlier child does |
| Tree.AddChild | src/tarman/tree.py:19-25 | `add_child` keeps the payload and the old children in their places and appends exactly one childless node carrying the new payload |
| Tree.AddChildThenGetChild | src/tarman/tree.py:19-25 | after appending a child with a fresh payload, looking that payload up finds the new leaf, and every other lookup is unchanged |
| Tree.ChildIndexAppend | src/tarman/tree.py:114-117 | appending a child keeps the first match of every payload where it was |
| Tree.RemoveChild | src/tarman/tree.py:60-66 | the parent drops exactly the first child carrying the payload and keeps the other children in order; with no such child, nothing changes |
| Tree.RemoveChildUnique | src/tarman/tree.py:60-66 | removing a child keeps sibling payloads unique |
| Tree.RemoveChildRemoves | src/tarman/tree.py:60-66 | under unique sibling payloads, no child carries the removed payload any more |
| Tree.DeleteAt | src/tarman/tree.py:60-66 | unlinking a node below `n` leaves `n`'s own payload; `Tree.DeleteAtPaths` says which paths go |
| Tree.DeleteAtPaths | src/tarman/tree.py:60-66 | after unlinking the node at `s`, a path is present iff it was present before and does not pass through `s` |
| Tree.DataArray | src/tarman/tree.py:43-49 | the payload chain starts with the root's payload and has one entry per level |
| Tree.IndexPathLocates | src/tarman/tree.py:43-49 | walking by names and by positions reach the same node, and its payload chain is the root's payload followed by the names walked |
| Tree.Leaves | src/tarman/tree.py:27-33 | every node the iteration yields is childless, and is yielded with a non-empty path ending in its own payload |
| Tree.LeavesAreFound | src/tarman/tree.py:27-33 | under unique sibling payloads, walking a yielded leaf's names from the start finds that leaf |
| Tree.LeavesAreComplete | src/tarman/tree.py:27-33 | every childless node below the start is yielded, with the names leading to it |
| Tree.FindUnique | src/tarman/tree.py:85-90 | every node reached in a tree with unique sibling payloads also has unique sibling payloads below it |
| FileTree.ChildNames | src/tarman/tree.py:131-132 | one name per child, and a name is listed iff a child carries it |
| FileTree.AddSubdir | src/tarman/tree.py:110-120 | `add_subdir` fails with `NotFound` iff the path cannot be stat'ed; otherwise the child named after the basename is returned, and it is appended only if no sibling had that name |
| FileTree.Insert | src/tarman/tree.py:171-181 | a successful insertion walk reaches the node the segments name; a failed one failed on `NotFound` |
| FileTree.InsertKeepsUnique | src/tarman/tree.py:85-90 | insertion never gives a node two children with the same name |
| FileTree.InsertKeepsSegmentNames | src/tarman/tree.py:84 | every name insertion attaches is a proper segment |
| FileTree.InsertPaths | src/tarman/tree.py:171-181 | a successful insertion adds exactly the prefixes of the inserted segments |
| FileTree.InsertExisting | src/tarman/tree.py:119-120 | inserting a path that is already present changes nothing and reaches the existing node |
| FileTree.InsertAppendsChildren | src/tarman/tree.py:114-117 | at every existing node, the old child names stay a prefix of the new ones, and at most one is added |
| FileTree.InsertTopNames | src/tarman/tree.py:114-117 | at the top level, the first segment is appended exactly when no child had that name |
| DirTree.NewTree | src/tarman/tree.py:149-151 | the root is a childless node carrying the root path; if the root path cannot be stat'ed, the result is `NotFound` |
| DirTree.Within | src/tarman/tree.py:157-169 | the operations accept a path iff the root's segments prefix the path's, and then walk the remaining segments; otherwise `OutOfRange` |
| DirTree.Add | src/tarman/tree.py:156-183 | `add` keeps the tree valid and never renames the root; out of range it changes nothing and fails with `OutOfRange`; for the root path it returns the root; on success `tree[path]` is the node returned; in range it can fail only with `NotFound` |
| DirTree.Contains | src/tarman/tree.py:185-205 | `path in tree` is `OutOfRange` for a path outside the root, and otherwise holds iff `tree[path]` finds a node |
| DirTree.Get | src/tarman/tree.py:207-229 | `tree[path]` is `OutOfRange` outside the root; a node it finds carries the path's last segment, or is the root |
| DirTree.FindData | src/tarman/tree.py:222-229 | a walk that succeeds ends at a node carrying the last name walked |
| DirTree.Delete | src/tarman/tree.py:231-232 | `del` is `OutOfRange` outside the root; otherwise it keeps the tree valid and keeps the root |
| DirTree.InsertOkIff | src/tarman/tree.py:95-96 | the insertion walk fails iff one of the paths it walks through cannot be stat'ed |
| DirTree.AddFailures | src/tarman/tree.py:164-169 | `add` succeeds iff the path is inside the root and every path on the way down can be stat'ed |
| DirTree.AddThenContains | src/tarman/tree.py:200-205 | after a successful `add(P)`, `P in tree` holds and `tree[P]` is the node `add` returned |
| DirTree.AddPresence | src/tarman/tree.py:171-181 | after a successful `add`, a path is present iff it was present before or leads to the added node |
| DirTree.AddIdempotent | src/tarman/tree.py:110-120 | a second `add` of the same path leaves the tree as the first left it and returns the same node |
| DirTree.AddAppends | src/tarman/tree.py:114-117 | `add` only appends: at every node that existed before, the old child names come first, in their old order |
| DirTree.DeleteThenAbsent | src/tarman/tree.py:231-232 | after `del tree[P]` below the root, `P in tree` is false, every path through `P` is gone, and every other path is as before |
| DirTree.DeleteRootIsNoop | src/tarman/tree.py:60-62 | deleting the root finds the root and changes nothing |
| DirTree.GetPathOfFound | src/tarman/tree.py:104-108 | the payload chain of the node at segments `s` is the root path followed by `s`, and its `get_path` is `join(root, *s)` |
| DirTree.GetPathRoundTrip | src/tarman/tree.py:104-108 | for an anchored root, `get_path` of the node at `s` splits into the root's segments followed by `s`, and looking it up finds the same node |
| DirTree.GetPath | src/tarman/tree.py:104-108 | `get_path` of a node ends with that node's own name |
| DirTree.IterateYieldsFoundLeaves | src/tarman/tree.py:153-154 | every node the tree's iteration yields is a leaf, and the path built from its names looks it up again |
| DirTree.IterateIsComplete | src/tarman/tree.py:153-154 | every leaf below the root is yielded |
| DirTree.Iterate | src/tarman/tree.py:153-154 | every entry the tree's iteration yields is a childless node, paired with a non-empty name path ending in its own name |
| DirTree.SegmentsAsWritten | src/tarman/tree.py:171-181 | the segments `add` as written inserts are exactly those below the root, except that it fails when the root has no segments and the path has one |
| DirTree.LoopIndexAsWritten | src/tarman/tree.py:171-181 | the loop variable read at `i + 1` indexes the path's last segment, and is unbound exactly when the root has no segments and the path has one |
| DirTree.AddAsWritten | src/tarman/tree.py:156-183 | `add` as written keeps the root path, answers `OutOfRange` outside the root and the root for the root path, and can crash only when the root has no segments |
| DirTree.AddAsWrittenDiffers | src/tarman/tree.py:177-181 | `add` as written fails exactly for a root with no segments and a one-segment path, and otherwise agrees with `Add` |
| DirTree.AddAtFileSystemRoot | src/tarman/tree.py:179 | a tree rooted at `/` cannot take `/a` as written, while the intended `add` inserts it |
| DirTree.AddBelowBareRoot | src/tarman/tree.py:171-181 | for any root without segments and any one-segment path below it whose stat succeeds, `add` as written fails while the intended `add` makes the path present |
| Containers.ZipKept | src/tarman/containers.py:167-170 | zip construction inserts exactly the member names that do not end with the separator |
| Containers.ZipKeptOne | src/tarman/containers.py:168-170 | a single name is inserted unless it ends with the separator |
| Containers.ZipKeptConcat | src/tarman/containers.py:167-170 | the names are filtered one by one: filtering a concatenation filters each part, so inserted names keep their order and their repeats |
| Containers.Kept | src/tarman/containers.py:166-170 | a name is inserted iff it is in the archive's list and, for a zip, does not end with the separator; a tar inserts every name |
| Containers.AddAll | src/tarman/containers.py:124-125 | construction keeps the tree valid and its root path, and only succeeds if every member lies inside the root |
| Containers.Open | src/tarman/containers.py:119-125 | an opened archive is of the requested format and path, with a valid tree rooted at that path |
| Containers.AppendNewSpec | src/tarman/containers.py:127-129 | the listing order keeps earlier names first and adds each new name once: no repeats, and exactly the names seen |
| Containers.AddAllOkIff | src/tarman/containers.py:124-125 | construction gets through the member list iff every member is admitted, whatever the others are |
| Containers.AddAllPresence | src/tarman/containers.py:124-125 | after construction, a path is present iff it was present before or leads to one of the members |
| Containers.AddAllTopNames | src/tarman/containers.py:124-125 | after construction, the root's names are the old ones, then each member's first segment the first time it is seen |
| Containers.OpenOkIff | src/tarman/containers.py:119-125 | opening succeeds iff the archive path can be stat'ed and every kept member is admitted |
| Containers.OpenPresence | src/tarman/containers.py:119-125 | after opening, the tree holds the root and exactly the paths that lead to a kept member |
| Containers.OpenContainsMembers | src/tarman/containers.py:123-125 | every kept member name, joined onto the archive path, is `in` the tree |
| Containers.ZipPresence | src/tarman/containers.py:166-170 | a zip archive's tree holds a directory iff some member that is not a directory marker lies beneath it |
| Containers.ListDirOfRoot | src/tarman/containers.py:127-129 | listing the archive root gives the members' first segments in first-seen order, each once |
| Containers.ListDir | src/tarman/containers.py:127-129 | `listdir` fails iff the path is outside the root, and then with `OutOfRange(path)`; otherwise it lists the children's names of the node the path names, in child order, and a name is listed iff its extension of the path is in the tree; the `Dummy` gives its canned lists |
| Containers.ListDirAfterAdd | src/tarman/containers.py:124-129 | a later `add` never hides or reorders a listing: the old listing of a directory is a prefix of the new one |
| Containers.IsEnterable | src/tarman/containers.py:131-133 | `isenterable` holds iff `listdir` of the same path is non-empty; the `Dummy` answers by the `three` suffix |
| Containers.EnterableIffListed | src/tarman/containers.py:176-178 | on an archive inside the root, `isenterable` holds iff `listdir` is non-empty, so an empty directory entry cannot be entered |
| Containers.AbsPath | src/tarman/containers.py:135-136 | `abspath` fails iff the path is outside the root, and then with `OutOfRange(path)`; the `Dummy` returns its argument |
| Containers.AbsPathRoundTrip | src/tarman/containers.py:180-181 | `abspath` of a path in the tree has the same segments as the path and looks up the same node |
| Containers.DummyIsEnterable | src/tarman/containers.py:108-111 | no contract of its own: the `Dummy` can enter a path iff it ends with `three`; `Containers.DummyNavigation` states what that means for its listings |
| Containers.DummyListDir | src/tarman/containers.py:103-106 | the `Dummy` always lists five distinct proper names |
| Containers.DummyNavigation | src/tarman/containers.py:101-111 | in the `Dummy`'s top listing only `three` is enterable, and none of `three`'s entries is |
| Containers.ExtractMembers | src/tarman/containers.py:147-157 | with no selection everything is extracted; with a selection, a list of member names |
| Containers.SelectedNames | src/tarman/containers.py:148-154 | one member name per selected node, unless some node's chain starts with `..` |
| Containers.SelectedNamesMembers | src/tarman/containers.py:150-154 | the member names are exactly the joined chains of the selected nodes whose chain does not start with `..` |
| Containers.SelectedNamesConcat | src/tarman/containers.py:195-199 | selected nodes are handled one at a time, in selection order |
| Containers.ExtractNameLocates | src/tarman/containers.py:151-154 | a member name made for a selected node splits back into the node's chain, and joined onto the archive path it looks up that node |
| Containers.ExtractOne | src/tarman/containers.py:192-202 | selecting only the node at names `s` asks for the one member `sep.join(s)`, or for none if `s` starts with `..` |
| Containers.SameFile | src/tarman/containers.py:52-53 | two paths are the same file iff they have equal length and agree character by character after lower-casing |
| Containers.SameFileIsEquivalence | src/tarman/containers.py:52-53 | `samefile` is reflexive, symmetric and transitive, and a path matches its lower-cased spelling |
| Containers.FirstMatch | src/tarman/containers.py:13-21 | the registry scan returns the first format whose predicate holds, and none iff none holds |
| Containers.GetArchiveClass | src/tarman/containers.py:11-21 | the result is `Tar` iff the tar predicate holds, `Zip` iff only the zip predicate holds, and none otherwise |
| Containers.OpenContainer | src/tarman/containers.py:24-26 | `container` is `None` iff neither format's test holds; otherwise it either fails or gives an archive at the given path, with a valid tree rooted there, that is a tar iff the tar test holds |
| Containers.OpenContainerOkIff | src/tarman/containers.py:24-26 | `container` fails iff some format's test holds and the archive path or one of the names that format keeps cannot be stat'ed or lies outside the root |
| Containers.MarkerExampleRoot | src/tarman/containers.py:162-174 | a zip with members `d/`, `d/f` and `t` opens, and its root lists `d` then `t` |
| Containers.MarkerExampleDir | src/tarman/containers.py:166-170 | in that archive, `d` lists only `f`; the marker `d/` adds no node of its own |
| Containers.MarkerExtract | src/tarman/containers.py:192-202 | in that archive, extracting a selection of just `d/f` asks for exactly the member `d/f` |

## Left out

- `FileSystem` (`src/tarman/containers.py:74-98`) only forwards to `os` and
  `os.path`. No logic of its own.
- The file mode from `os.stat` and `FileNode.is_dir` are not modelled. The
  `sub` flag's recursive expansion through `os.listdir`
  (`src/tarman/tree.py:92-94`) is also left out. That expansion reads the
  real directory tree, and archive trees are always built with
  `sub=False`. So the property about missing segments being created with
  `sub=False` and only the last one with the caller's flag is not stated:
  with no expansion, the flag has no effect in the model.
- `FileNode.__eq__` (`src/tarman/tree.py:134-144`) is not modelled. It
  depends on `os.path.samefile`, and its `node == self` guard calls itself.
  The model compares payloads and walks by position where the source
  compares node objects.
- The `tarfile` and `zipfile` calls (`is_tarfile`, `is_zipfile`, `open`,
  `getmember`, `getinfo`, `extractall`) are not modelled. `extract` is
  modelled up to the member names it would pass on.
- `os.path.abspath` of the archive path in the constructors is not
  modelled. It normalises the path against the current directory, so
  `Open` takes the path as already absolute.
- Containers.SameFile: lower-cases ASCII letters only. Python's `str.lower`
  follows the Unicode tables.
- `get_archive_class`'s introspection with `inspect` over the module's
  classes is not modelled. `Archive`, `Tar` and `Zip` define `isarchive`,
  but the loop skips `Archive` by name (`src/tarman/containers.py:14-15`).
  Of the classes it consults, only `Tar` and `Zip` are left, in sorted
  name order, so the lookup becomes the ordered registry `[Tar, Zip]`.
- The shared mutable default `children=[]` (`src/tarman/tree.py:14`) is not
  modelled. Under value semantics every node has its own child list.
- The crash paths listed above (dereferencing `None`, an empty chain, an
  empty member name) are excluded by preconditions, not modelled.
- The `__main__` demo (`src/tarman/tree.py:235-257`), the `sys.path` line
  (`src/tarman/tree.py:1-2`) and `setup.py` are not modelled.
- Tree.Leaves: the depth-first, left-to-right order is given by the
  definition. The lemmas state which nodes are yielded, not their order.

## Findings

| source | as written | input that shows it | evidently intended | confidence | as-written member | corrected member |
|---|---|---|---|---|---|---|
| src/tarman/tree.py:171-181 | the final segment is read as `path_array[i + 1]`, where `i` is the variable left over from the earlier loops | root `/` (no segments) and path `/a` (one segment): neither loop runs, so `i` is unbound when `add` reads it | add the final segment `path_array[len_path - 1]` | high (not executed) | DirTree.AddAsWrittenDiffers | DirTree.Add |
