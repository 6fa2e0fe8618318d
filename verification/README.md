# Verification model of umsftpd's core

umsftpd is a user-mode SFTP server. This project models, in Dafny, the three parts of it whose
behaviour is hardest to see from the code, and proves what they keep:

1. **Virtual paths.** Normalising a request against the working directory (`strings.c`), registering
   directories as inodes, looking paths up, mapping them to real paths, deciding whether a node may be
   opened, changing directory and listing (`vfs.c`, `stringlist.c`).
2. **Base 32 decoding** after sections 6 and 7 of RFC 4648 (`rfc4648.c`).
3. **One-time passwords** after RFC 6238 and section 5.3 of RFC 4226, and the window in which a
   password entry accepts them (`rfc6238.c`, `passdb.c`).

`dafny verify dfyconfig.toml` verifies everything.

## How it is organised

| file | contents |
|---|---|
| `Options.dfy`, `Sequences.dfy`, `Folds.dfy` | optional results, facts about sequences, left folds |
| `CStrings.dfy` | NUL-terminated strings in buffers, `strncmp`, `strcmp` as a total order |
| `Sorting.dfy` | what `qsort` leaves behind; with distinct keys every sort leaves the same array |
| `Paths.dfy` | components, the stack machine that gives a path its meaning, normalisation |
| `PathChecks.dfy` | trailing slashes, `pathcmp`, hidden components |
| `PathSplitting.dfy` | the splitter that cuts a path with temporary NULs, the symlink check |
| `StringLists.dfy` | the list with a lazily maintained order |
| `VfsTree.dfy` | inodes, the map they stand for (`View`), the tree invariant |
| `VfsView.dfy` | registration and lookup on the map |
| `VfsCore.dfy` | `struct vfs_t` as a class: registering, freezing, looking up |
| `VfsSlashes.dfy` | registration of paths that end in any number of slashes |
| `VfsAccess.dfy` | mapping, opening a node, changing directory |
| `VfsListing.dfy` | directory handles, draining one, what reading does to the tree |
| `VfsInterleaving.dfy` | several handles on one directory |
| `VfsSessions.dfy` | opening directories; setting up, moving around, listing and opening in sequence |
| `Numerals.dfy`, `Bits.dfy` | positional numerals; shifts and bitwise operations as arithmetic |
| `Base32.dfy` | the decoder, the encoding it inverts |
| `Totp.dfy`, `PassDb.dfy` | codes, password entries, the window |

Code that changes a buffer or an object in place is a method over an array or a class; its contract ties
the result to a function, and the lemmas are about that function. The host (`lstat`, `stat`, directory
streams), HMAC and the key derivation functions are parameters about which nothing is assumed beyond
the length of a digest.

A `View` maps the component list of each registered directory to its flags and target. `Vfs.Valid()` says
that the inode array, in whatever order, represents such a map: one inode for each directory, `parent`
pointing to the directory above, child lists naming exactly the directories below.

A *canonical* path is `/` or `/c1/.../cn` where no component is empty, `.` or `..`; registration and
lookup also take it with one trailing slash.

## What came out

- Whatever is requested after whatever directory changes and listings, a mapped path consists of the
  deepest mount's target and the normalised components below that mount (`VfsSessions.Session`).
- Two steps of normalisation equal one for every second step, if and only if the first step is not the
  empty string or the working directory is the root (`Paths.ComposesExactly`).
- A new directory registered with k slashes behind its path is found with its flags and target if and
  only if k is at most 1 (or they are blank anyway); two slashes leave one blank inode, more of them
  k - 1 inodes with the same path. With two slashes or more even a registered directory is accepted once
  more (`VfsSlashes.AddWithSlashes`), and each slash beyond the second makes the directory its own child
  (`VfsSlashes.VisitBehind`).
- Registration order is invisible to lookups whenever every registration is accepted, which is the case
  exactly when none lies at or above an earlier one (`VfsView.AcceptedExactly`).
- Handles just opened on one directory can be read in any interleaving if and only if the child list is
  in `strcmp` order already (`VfsInterleaving.InterleavingExactly`). Otherwise the sort that a membership
  test triggers can make a complete listing omit one registered subdirectory and return another one
  twice (`VfsInterleaving.UnorderedListLosesName`).
- Opening a directory and reading it to the end may sort its child list, and yet leaves the tree sound and
  returns a complete listing without repetitions (`VfsSessions.ListDirectory`).
- The search of the one-time password window covers exactly the time steps in the window if and only if
  at most the last slice of the window reaches below the epoch; otherwise it takes in time steps close to
  2^64 (`PassDb.WindowExactIff`).
- A code minted within the attached window is accepted; but a window so large that adding the slice wraps
  around 32 bits collapses to the present slice (`PassDb.AttachAndValidate`).
- Decoding base 32 yields the number spelled by the characters, divided by 2^(5n mod 8), and re-encoding
  gives back exactly the canonical texts (`Base32.EncodeDecodePadded`).

## Model

| member | source | states |
|---|---|---|
| CStrings.StrncmpDecidesPrefix | strings.c:79 | on C strings, `strncmp` over at most `strlen(a)` characters is zero iff the other string has the same prefix |
| CStrings.StrCmpAntisymmetric | stringlist.c:57-63 | `strcmp` is zero exactly on equal strings, and swapping the arguments swaps the sign |
| CStrings.StrCmpTransitive | stringlist.c:57-63 | `strcmp` is transitive; with antisymmetry, a total order |
| CStrings.StrCmpLexicographic | stringlist.c:57-63 | `strcmp(a, b)` is negative iff `a` is a proper prefix of `b` or has the smaller character where they first differ |
| CStrings.Terminate | strings.c:146 | writing a NUL makes the characters before it the text of the buffer and touches nothing else |
| Paths.SplitJoin | strings.c:115-144 | joining two paths with a slash concatenates their pieces |
| Paths.ComponentsOfRender | strings.c:134-140 | rendering a component list loses nothing: the components can be read back from the text |
| Paths.ResolveIsCanonical | strings.c:98-148 | for every path, the components it resolves to are never empty, `.` or `..` and hold no slash |
| Paths.ResolvePathText | strings.c:98-148 | a canonical path resolves to its own components |
| Paths.SkippedPieces | strings.c:119-120 | for any strings, `a/./b` and `a//b` resolve like `a/b`, and `a/.` and `a/` like `a` |
| Paths.NameDescends | strings.c:133-140 | a name without slashes that is not empty, `.` or `..` leads from `a` to the directory of that name below it |
| Paths.UpUndoesDown | strings.c:123-132 | for any strings `a` and `b` and any name of that kind, `a/name/../b` resolves like `a/b`, and `a/name/..` like `a` |
| Paths.UpAtRoot | strings.c:123-132 | `..` at the root stays there: `/../b` resolves like `/b` |
| Paths.Backtrack | strings.c:123-132 | backing up in the buffer turns the text of a stack into that of the stack without its last component, never cutting the initial slash |
| Paths.Append | strings.c:133-140 | appending a token turns the text of a stack into that of the stack with the component pushed |
| Paths.ApplyPiece | strings.c:119-141 | at a token boundary the buffer holds the stack machine's next stack, and its length stays within what was read |
| Paths.ScanIsRun | strings.c:113-145 | cutting tokens character by character feeds the stack machine the pieces between slashes |
| Paths.SanitizeAbsolutePath | strings.c:98-148 | NULL on a relative path, otherwise the canonical text of the components the path resolves to; every write lies within `strlen + 1` |
| Paths.SanitizePath | strings.c:150-162 | NULL exactly for a relative path under a relative, non-empty working directory; otherwise the canonical text of the request's components |
| Paths.RequestSkips | strings.c:150-162 | under any working directory, the requests `a/./b` and `a//b` denote what `a/b` denotes |
| Paths.RequestUp | strings.c:150-162 | so does `a/name/../b` for any name of that kind, and `/../b` denotes what `/b` denotes |
| Paths.ResolutionComposes | strings.c:150-162 | for a working directory that is empty or absolute, a relative `b`, and an `a` that is not empty unless the working directory is the root: resolving `a`, then `b` from there, equals resolving `a/b` |
| Paths.ComposesExactly | strings.c:150-162 | that holds for every relative `b` iff `a` is not empty or the working directory is the root |
| Paths.EmptyStepDoesNotCompose | strings.c:150-162 | an input on which the two differ: from `/x`, `""` then `y` leads to `/x/y`, but `/y` to `/y` |
| Paths.SanitizeIdempotent | strings.c:150-162 | sanitizing a sanitized path changes nothing, whatever the working directory is by then |
| PathChecks.TruncateTrailingSlash | strings.c:82-87 | in place: the text loses exactly its trailing slashes and nothing behind the old terminator changes |
| PathChecks.TruncatedCopy | vfs.c:141-156 | a truncated copy is the string without its trailing slashes |
| PathChecks.PathCmp | strings.c:66-80 | true iff the strings are equal after dropping one trailing slash from each |
| PathChecks.DropSlashMeans | strings.c:66-80 | dropping one trailing slash gives the one text that, with a slash behind it, is the path; or the path itself if it ends in none |
| PathChecks.CanonicalForms | strings.c:66-87 | the forms in which a directory is stored or written denote it, and trimming them gives the stored form |
| PathChecks.RenderInjective | vfs.c:141-172 | different component lists are stored as different strings |
| PathChecks.PathContainsHidden | strings.c:166-181 | for any string: true iff some piece between slashes starts with a dot, iff some component does, iff a dot stands at the start of the path or right behind a slash |
| PathSplitting.PathSplitMutable | strings.c:34-57 | for any string and callback: the buffer is restored, and the context is what the callback makes of the visits in order up to its first refusal |
| PathSplitting.PathSplit | strings.c:59-64 | the same on a copy |
| PathSplitting.LastVisitIsFull | strings.c:36-52 | only the last visit is marked full, and it is the path less one trailing slash (`/` stays) |
| PathSplitting.PartialVisits | strings.c:39-49 | the partial visits are exactly the prefixes, written out, before the slashes that do not end the path, `/` for a leading one |
| PathSplitting.StopsAfterFirstRefusal | strings.c:53-55 | every callback but the last one made has agreed to go on; stopping early means the last one refused |
| PathSplitting.VisitsOfCanonical | strings.c:34-57 | a canonical path, with or without trailing slash, is visited directory by directory from the root |
| PathSplitting.PathContainsSymlink | strings.c:183-211 | the result is the outcome of checking the prefixes in order: a symlink is reported iff the first prefix that is not plain is one, and likewise for a missing and for a failing prefix |
| PathSplitting.BitsMean | strings.c:183-201 | for any sequence of prefixes, each of the three bits is set iff the first prefix that is not plain is a symlink, is missing, or fails otherwise |
| PathSplitting.FirstTroubleDecides | strings.c:183-201 | at most one bit is set, and the first prefix that is missing, failing or a symlink decides which; none is set iff all are plain |
| Sorting.SortByCorrect | stringlist.c:65-70 | sorting keeps the elements and orders them by `strcmp` |
| Sorting.OrderIsUnique | vfs.c:274-290 | when equal keys mean equal elements there is only one ordered arrangement, so the sorting algorithm does not matter |
| StringLists.StringList.constructor | stringlist.c:29-36 | a new list is empty and marked sorted |
| StringLists.StringList.Insert | stringlist.c:38-55 | the string is appended and the mark cleared |
| StringLists.StringList.Sort | stringlist.c:65-70 | a non-empty list is sorted and marked; an empty one is left alone |
| StringLists.StringList.Contains | stringlist.c:72-81 | answers whether the string is in the list; as a side effect an unsorted non-empty list gets sorted |
| StringLists.Bisect | stringlist.c:79-80 | on an ordered list, bisection answers exactly membership |
| StringLists.RunKeepsContents | stringlist.c:29-81 | after any interleaving of insert, sort and contains the list holds exactly the multiset of inserted strings, and the mark implies `strcmp` order |
| StringLists.ContainsAnswersInserted | stringlist.c:72-81 | after any interleaving, a string is in the list iff it was inserted |
| StringLists.SortingSortedChangesNothing | stringlist.c:72-78 | sorting a list that is in order changes nothing |
| VfsTree.Inode.constructor | vfs.c:158-176 | a new inode carries what it was given, the lengths of its paths, and an empty child list |
| VfsTree.ViewClosed | vfs.c:124-138 | every registered directory but the root lies in a registered one |
| VfsTree.AncestorsInView | vfs.c:124-138 | hence every ancestor of an inode is an inode |
| VfsTree.VirtualPathsDistinct | vfs.c:193-219 | no two entries of the array share a virtual path |
| VfsTree.TreeOkReordered | vfs.c:282-290 | any permutation of the array keeps the tree invariant |
| VfsTree.TreeOkExtended | vfs.c:140-191 | appending a new directory below an existing one keeps the tree invariant |
| VfsTree.FindFirstExact | vfs.c:89-99 | searching for a canonical path finds the inode of exactly that directory, wherever it lies in the array, or none if it is not registered |
| VfsView.ExtendLaw | vfs.c:124-138 | a registration adds exactly the missing ancestors, blank, and the leaf, and changes nothing that was there |
| VfsView.PresentExactly | vfs.c:193-219 | after any sequence of registrations a directory is present iff something was registered at or below it |
| VfsView.FirstTouchDecides | vfs.c:193-219 | whoever first registered at or below a directory decides its flags and target, blank unless it was registered itself |
| VfsView.AcceptedExactly | vfs.c:204-207 | all registrations are accepted iff none lies at or above an earlier one |
| VfsView.AcceptedEntry | vfs.c:193-219 | when all are accepted, a directory carries its own registration, or blank if it has none |
| VfsView.OrderDoesNotMatter | vfs.c:193-219 | two orderings of the same registrations, both fully accepted, give the same map |
| VfsView.RegistrationOrderInvisible | vfs.c:193-290 | and every lookup in the two trees, in whatever array order, agrees on flags, virtual paths and target |
| VfsView.LookupRefinesView | vfs.c:221-272 | for a canonical path, the lookup's inode is the exact match, its mountpoint the longest prefix with a target, its flags the root-to-leaf fold |
| VfsView.LookupsAgree | vfs.c:221-272 | two arrays for one map, in any order, answer every lookup alike |
| VfsView.MountDepth | vfs.c:230-232 | the mountpoint is a registered prefix with a target, and no longer prefix has one |
| VfsView.MountMeans | vfs.c:230-232 | with the map written out: the mountpoint has a target and no registered directory further down has one; without a mountpoint none on the way has one |
| VfsView.DeepestDecidesBit | vfs.c:225 | flag bit by flag bit, the deepest ancestor that sets or resets it decides, reset winning inside one inode; untouched bits keep the base value |
| VfsView.FlagMeans | vfs.c:225 | with the map written out: a bit is effective iff some directory on the way sets it without resetting it and none further down touches it, or none on the way touches it and the base has it |
| VfsView.ParentChainAgrees | vfs.c:221-234 | walking the parent chain up from the deepest matched inode gives the same flags and mountpoint as the lookup |
| VfsCore.BaseName | strings.c:223-226 | the part behind the last slash |
| VfsCore.Vfs.constructor | vfs.c:292-306 | a new file system has no inodes, is not frozen, and its working directory is the root |
| VfsCore.Vfs.FindInode | vfs.c:89-99 | the first inode in array order whose virtual path matches up to a trailing slash |
| VfsCore.Vfs.SetCwd | vfs.c:101-122 | refused for a relative path, otherwise the path without trailing slashes |
| VfsCore.Vfs.AddSingleInode | vfs.c:140-191 | appends an inode with the trimmed path and the given flags and target; for a canonical path below its parent it also keeps the tree and the child lists sound |
| VfsCore.CreateInode | vfs.c:141-176 | the new inode carries trimmed paths and the given flags, and for a canonical path the extended array is sound for the extended map |
| VfsCore.EnterName | vfs.c:165-168 | the basename is inserted into the parent's list; for a canonical path every child list then names exactly its directory's children, each once |
| VfsCore.MakeInode | vfs.c:141-176 | virtual and target path are stored without trailing slashes: a stored target is a prefix of the one given, does not end in a slash, and only slashes are cut off; flags are stored as given |
| VfsCore.Vfs.AddInodeSplitter | vfs.c:124-138 | the visited prefix is found, or an inode is appended for it: blank on the way, with the leaf's flags and target at the full visit; for a canonical path this is the visited directory's inode |
| VfsCore.Vfs.AddVisits | vfs.c:209-216 | all visits are registered in order; for a canonical path they extend the map by the leaf and its missing ancestors |
| VfsCore.Vfs.AddInode | vfs.c:193-219 | accepted iff both paths are absolute and the virtual path is not found; a rejected call changes nothing, an accepted one registers the path's prefixes; for a canonical path in a sound tree it stays sound and the map grows by the directory and its missing ancestors |
| VfsSlashes.RegisteredWithSlashes | vfs.c:124-138 | with k slashes behind a directory's path, its ancestors are registered and then exactly these inodes for itself: a first one unless it has one, with the leaf's entry for k at most 1 and blank else, and k - 2 further ones for k over 2, of which the last has the leaf's entry |
| VfsSlashes.AddWithSlashes | vfs.c:193-219 | such a call is accepted iff the target is absolute and the directory is new or k is at least 2; a new directory is then found with the leaf's entry for k at most 1 and blank else, one that was there with its own; it has one inode for k at most 2 and k - 1 inodes otherwise |
| VfsSlashes.VisitBehind | vfs.c:124-168 | a visit behind the second slash appends one more inode of the same path, and enters the directory's own name into the child list of the inode visited before |
| VfsCore.Vfs.FreezeInodes | vfs.c:282-290 | the array is permuted into `strcmp` order of virtual paths, and a sound tree stays sound for the same map |
| VfsCore.FrozenOrderForced | vfs.c:274-290 | any permutation in that order is the one array, whatever sorting algorithm is used |
| VfsCore.Vfs.Lookup | vfs.c:236-272 | refused unless frozen and absolute, otherwise the fold of the splitter over the visits |
| VfsCore.Vfs.LookupSplitter | vfs.c:221-234 | one visit's contribution: flags, exact match on the full visit, mountpoint |
| VfsCore.ParentPointers | vfs.c:169 | `parent` is the inode one component up, and only the root, stored as the empty string, has none |
| VfsCore.ChildLists | vfs.c:165-168 | `virtual_subdirs` holds exactly the basenames of the inode's children, each once |
| VfsCore.Configure | vfs.c:193-290 | any sequence of adds of canonical paths with freezes in between keeps the invariant and yields exactly the registered map |
| VfsCore.MountHasStep | vfs.c:193-219 | the target of a mount has the components of the target that some addition gave for that very directory |
| VfsAccess.MapPath | vfs.c:323-374 | NULL on missing or unsuitable arguments, otherwise the target followed by what the virtual path has behind the mountpoint |
| VfsAccess.MapLookup | vfs.c:323-374 | on the lookup of a canonical path, the mapped path is the deepest mount's target followed by the part below that mount |
| VfsAccess.MappedByLookup | vfs.c:348-371 | the byte arithmetic on `vlen` gives target ++ v[vlen..] |
| VfsAccess.MappingInjective | vfs.c:323-374 | directories under one mountpoint never share a mapped path |
| VfsAccess.MappingDescends | vfs.c:323-374 | below any directory but the root, map(v/name) is map(v)/name unless v/name is itself a mount |
| VfsAccess.MappedComponents | vfs.c:323-374 | the components of a mapped path are the target's followed by those below the mountpoint |
| VfsAccess.MapAndCheck | vfs.c:432-456 | a mapped path is refused for a symlink or a failing prefix unless symlinks are allowed |
| VfsAccess.ApplyLookup | vfs.c:409-456 | filtered, hidden, unmounted, symlink: the decision follows that precedence |
| VfsAccess.OpenNode | vfs.c:376-460 | for any request: a fresh handle carrying what the declarative decision grants, or exactly the error it denies with; each error is returned iff the condition of `OpenRefusals` for it holds |
| VfsAccess.PrevailingFlags | vfs.c:221-234 | for each flag that decides access, it is effective iff the deepest ancestor that touches it sets it without resetting it, or none touches it and the base has it |
| VfsAccess.CleanCheck | vfs.c:440-455 | the symlink check lets a path pass iff any symlink or failing prefix lies behind one that does not exist |
| VfsAccess.GrantedExactly | vfs.c:376-460 | a request is granted iff it is not filtered, shows no hidden component where those are filtered, and leads to an inode or through a mount without a forbidden symlink |
| VfsAccess.Refusals | vfs.c:409-456 | permission denied iff not filtered, and a name with a leading dot is asked for where those are filtered; an internal error iff neither applies, symlinks are not allowed, and the first prefix of the real path that is not plain fails; no such file or directory iff filtered, or not hidden and there is neither mount nor inode or that first prefix is a symlink; no other error |
| VfsAccess.OpenRefusals | vfs.c:376-460 | before that: an internal error without a path, out of handles at the limit, an internal error before freezing |
| VfsAccess.MappedStaysBelowMount | vfs.c:376-460 | for any working directory and request, a mapped path's components are the deepest mount's followed by the normalised request's below it, none of the latter `.` or `..` |
| VfsSessions.OpenDir | vfs.c:513-533 | a fresh directory handle at its first entry exactly when the request is granted, even if the host cannot open the directory |
| VfsListing.DrainIsComplete | vfs.c:671-745 | draining a handle just opened on a directory, over an error-free stream of distinct names, with names of at most 255 characters on both sides, returns each registered subdirectory and each name that the real directory adds, once each and nothing else; a name is added iff the stream has it as a regular file, directory or symlink, it is not `.`, `..` or registered, and `fstatat` reports a regular file or directory |
| VfsListing.DrainInTree | vfsdebug.c:182-194 | reading a directory to the end collects exactly a drain and keeps the file system sound |
| VfsSessions.ListDirectory | vfsdebug.c:172-198 | opening a path and reading it to the end gives the error it is denied with, or the complete listing of the directory under that proviso, and keeps the file system sound |
| VfsSessions.Session | vfs.c:193-745 | after any sequence of adds and freezes and any sequence of directory changes and listings, opening any path gives the error it is denied with, or maps it below the deepest mount registered on its way; the mapped path has the components of the target that one of the adds gave for a directory on the way, followed by those of the request below that directory |
| VfsAccess.Chdir | vfs.c:475-511 | the error is the declarative one: that of opening; none for a registered directory; for any other, success iff `stat` reports a directory, and the error of each errno and of anything that is no directory; on success the working directory is the requested one, otherwise it stays |
| VfsAccess.ChdirMeans | vfs.c:462-511 | the same about the declarative error: denied permission, a missing entry, other failures and what is no directory are told apart exactly |
| VfsAccess.ChdirThenRequest | vfs.c:475-511 | after changing to `a`, a relative `b` is decided as `a/b` would have been before, unless `a` is empty away from the root |
| VfsListing.DirHandle.Readdir | vfs.c:671-745 | one call is exactly one step of the reading function, for the entry returned and for handle, stream and child list |
| VfsListing.DirHandle.ReadOn | vfs.c:689-744 | the loop over the stream returns the first listed entry, a failure, or the end |
| VfsListing.DirHandle.Consider | vfs.c:703-741 | an entry is listed iff it is not `.` or `..`, of a supported type, not shadowed, and a file or directory by `fstatat` |
| VfsListing.ContainsKeepsOrder | stringlist.c:72-81 | a membership test keeps the child list's elements and leaves its mark truthful |
| VfsListing.ReadProgress | vfs.c:671-745 | every read that returns an entry leaves less to read, so a drain ends |
| VfsListing.ListAll | vfsdebug.c:182-194 | the client's listing loop ends and collects exactly a drain |
| VfsListing.DrainReturns | vfs.c:671-745 | over an error-free stream a drain returns the virtual subdirectories in list order, then the listed real entries in stream order, and is at the end |
| VfsListing.EndIsFinal | vfs.c:671-745 | at the end, any number of further reads all report the end and change nothing |
| VfsListing.ReadInTree | vfs.c:671-745 | a read keeps the whole file system sound, whatever sorting it triggers |
| VfsListing.RealPartMembers | vfs.c:703-741 | a real name is returned iff it is listed |
| VfsListing.ListedMeans | vfs.c:703-741 | an entry whose name fits is listed iff it is a regular file, directory or symlink by its type, is not `.` or `..`, is not shadowed, and is a regular file or directory by `fstatat` |
| VfsListing.DrainedEntries | vfs.c:583-605 | each entry that a drain returns is a virtual directory with permissions 0555 or 0755, or carries what the host says about a real one, permissions included; on a read-only handle none has a write bit |
| VfsListing.DrainFails | vfs.c:689-697 | over a stream that fails, a drain returns the virtual subdirectories and the listed entries before the failure, and then fails |
| VfsListing.ListedNamesDistinct | vfs.c:671-745 | no name twice, never `.` or `..`, when the names on either side are distinct and have at most 255 characters |
| VfsListing.ChildNames | vfs.c:681-687 | in a sound file system the child list is exactly the registered subdirectories, each a proper name |
| VfsListing.FullListing | vfs.c:671-745 | a fresh handle on any inode, with names of at most 255 characters, lists each registered subdirectory and each name that the real directory adds in the above sense exactly once, nothing else, and stays at the end |
| VfsInterleaving.OrderedListInterleaves | vfs.c:671-745 | on an ordered child list every handle, in any interleaving, is where it would be alone |
| VfsInterleaving.UnorderedListDisturbs | stringlist.c:76-78 | on an unordered list of names of at most 255 characters two handles just opened can be read so that one returns different names than it would alone |
| VfsInterleaving.UnorderedListLosesName | stringlist.c:76-78 | and, the names being distinct, so that a complete listing omits a registered subdirectory and returns another one twice |
| VfsInterleaving.InterleavingExactly | vfs.c:671-745 | handles just opened on one inode never disturb each other iff the child list, of names of at most 255 characters, is in `strcmp` order |
| Base32.Byte1 | rfc4648.c:72 | the second byte of a group holds the low 2 bits, 5 bits and the high bit of three digits |
| Base32.Byte3 | rfc4648.c:76 | the fourth byte of a group holds the low bit, 5 bits and the high 2 bits of three digits |
| Base32.GroupValue | rfc4648.c:66-92 | the bytes of a group of up to eight digits are their base 32 value without the spare bits |
| Base32.MapGroup | rfc4648.c:52-64 | eight places are filled with digits up to the padding, the end or a character outside the alphabet, which fails; nothing is read past the terminator |
| Base32.EmitGroup | rfc4648.c:66-92 | the group's whole bytes are written, fewer only when the buffer is full; the decoder is finished iff the group was partial |
| Base32.DecodeGroup | rfc4648.c:51-92 | one round continues the decoding by up to eight characters, or the text cannot be decoded |
| Base32.DecodeBase32Multi | rfc4648.c:47-94 | succeeds iff all characters before the padding are in the alphabet and floor(5n/8) bytes fit; writes exactly those bytes and leaves the rest of the buffer alone |
| Base32.DecodeBase32 | rfc4648.c:100-102 | the same for the base 32 alphabet, including the untouched rest of the buffer |
| Base32.DecodeBase32Hex | rfc4648.c:96-98 | the same for the extended hex alphabet, including the untouched rest of the buffer |
| Base32.DecodedValue | rfc4648.c:47-94 | the bytes' base 256 value is the base 32 value of the n digits divided, rounding down, by 2^(5n mod 8) |
| Base32.DecodeEncode | rfc4648.c:47-102 | decoding the encoding of any bytes gives them back, padded, unpadded or followed by anything behind a padding character |
| Base32.EncodeDecode | rfc4648.c:47-102 | re-encoding what a text decodes to gives it back iff the text is canonical |
| Base32.EncodeDecodePadded | rfc4648.c:47-102 | with padding: iff the text is canonical and padded to a multiple of eight |
| Base32.AlphabetsOk | rfc4648.c:96-102 | character k of the alphabet is `A` + k, then `2` + k - 26; of the extended hex alphabet `0` + k, then `A` + k - 10; both are 32 distinct characters without the padding character |
| Totp.NewConfig | rfc6238.c:33-57 | NULL unless 1 to 8 digits are asked for; the modulus is 10 to that power |
| Totp.Present | rfc6238.c:59-62 | the buffer holds the last `digits` decimal digits of the value, zero-padded |
| Totp.PrintDecimal | rfc6238.c:61 | printing digit by digit with leading zeros |
| Totp.CodeParsesBack | rfc6238.c:59-62 | a code has exactly `digits` decimal characters and parses to the value modulo 10^digits |
| Totp.ShorterCodeIsSuffix | rfc6238.c:59-62 | a shorter code is the end of a longer one for the same value |
| Totp.TruncationCorrect | rfc6238.c:78-81 | for any digest of at least 20 bytes, truncation stays in bounds and gives the big-endian 4-byte value modulo 2^31 of section 5.3 of RFC 4226 |
| Totp.Generate | rfc6238.c:64-84 | for every 8-byte message whose big-endian value is the time step: success iff HMAC of it succeeds, and then `digits` decimal characters that parse to the 4-byte value at the dynamic offset modulo 2^31 and 10^digits |
| Totp.GenerateAt | rfc6238.c:86-89 | the code of the time step that C's truncating division assigns to the timestamp; for every timestamp from the epoch on, that statement about messages with the timestamp divided by the slice |
| PassDb.PassdbEntry.constructor | passdb.h:55-62 | a zeroed entry has no KDF and no TOTP |
| PassDb.PassdbEntry.Create | passdb.c:111-123 | on success the stored hash is what the passphrase derives to with the stored salt and parameters, given or default; failure is failure of randomness or derivation |
| PassDb.PassdbEntry.AttachTotp | passdb.c:155-159 | the window in slices is the seconds divided by the slice, rounded up: the least number of slices that cover the seconds; or 0 when the 32-bit sum wraps around |
| PassDb.PassdbEntry.ValidateTotp | passdb.c:161-174 | true iff the code is that of the timestamp shifted by the offset, or there is no TOTP |
| PassDb.OffsetFits | passdb.c:166 | within the window, neither the signed 32-bit product of offset and slice nor the shifted timestamp overflows |
| PassDb.PassdbEntry.SearchWindow | passdb.c:192-204 | true iff the code is right for some shift of at most the window either way |
| PassDb.PassdbEntry.ValidateAround | passdb.c:176-207 | true iff the part before the code matches and the code is right within the window; whatever the code, refused if that part derives to anything but the stored hash; without TOTP true iff the passphrase derives to the stored hash or there is no KDF |
| PassDb.CreateAndValidate | passdb.c:111-207 | after a successful creation without TOTP, exactly the passphrases that derive like the one given are accepted, or all without a KDF |
| PassDb.ShiftedTimecode | rfc6238.c:87 | shifting a timestamp by whole slices shifts its time step, as long as it stays at or above zero |
| PassDb.SlicesApart | passdb.c:155-159 | timestamps at most W seconds apart are at most ceil(W/slice) time steps apart |
| PassDb.MintedCodeAccepted | passdb.c:155-207 | password followed by a code minted at t0 meets the acceptance condition at every t with \|t - t0\| at most W seconds |
| PassDb.AttachAndValidate | passdb.c:155-207 | attaching W and then validating that passphrase succeeds; where the 32-bit sum wraps around, it succeeds iff the code is that of the very time step of t |
| PassDb.WindowExactIff | passdb.c:161-204 | the search covers exactly the time steps at most w away iff w is 0 or t > (w - 1) * slice |
| PassDb.AcceptedExactly | passdb.c:176-207 | then a passphrase is accepted iff it is a matching password followed by the code of a time step at most w away |
| PassDb.AcceptedSteps | passdb.c:176-207 | the same written out: the passphrase without its last `digits` characters derives to the stored hash, and these characters are the code of a time step at most w from t divided by the slice |
| PassDb.WholeWindowBehind | passdb.c:161-204 | in particular for every t at or above w * slice |
| PassDb.EarliestIsFar | rfc6238.c:87 | otherwise the earliest offset yields a time step far outside the window |
| PassDb.TimecodeBelowEpoch | rfc6238.c:87 | the exact time step of negative shifted timestamps: step 0 once more for the first partial slice, then steps near 2^64 |

## Left out

- Memory: allocation failure, `free`, error codes and error strings (`vfs_set_error`) are not modelled; `struct vfs_t`'s `cwd.length` and `alloced_size` are bookkeeping for reallocation.
- Integer widths of lengths: string lengths are unbounded, so paths over 2^31 characters, where `int` and `unsigned int` differ from `size_t`, are outside the model. The arithmetic of the one-time password window is modelled with its widths.
- VfsCore.Vfs.AddInode: a path with three leading slashes is excluded. Its prefix `//` is stored as the empty string, which has no basename (`strings.c:225` adds 1 to a null pointer).
- VfsCore.Configure: a run of adds keeps the tree sound when the absolute virtual paths are canonical, up to one trailing slash. `VfsSlashes.AddWithSlashes` shows what further slashes do.
- VfsCore.Vfs.FreezeInodes: `qsort` is written as insertion sort on a sequence; `FrozenOrderForced` shows that the order is the same for any algorithm. Freezing does not forbid later registrations in the code, nor in the model.
- StringLists.StringList.Sort: `qsort` likewise; equal strings are interchangeable. `bsearch` is a bisection.
- VfsCore.Vfs.AddVisits: the splitter's callbacks for registering and looking up mutate the file system object; the model first collects the visits, which these callbacks neither refuse nor alter, and then makes the calls in that order.
- PassDb.PassdbEntry.SearchWindow: the offset loop of `passdb_validate_around` as a method of its own; it stops at the same offset with the same answer.
- PassDb.PassdbEntry.ValidateAround: requires that no product of offset and slice overflows 32 bits and no shifted timestamp 64 bits (undefined in C), and that the slice is positive.
- VfsAccess.OpenNode: the handle limit is compared with `current_count`, which no code ever changes; the model keeps it as it is.
- VfsAccess.MapPath: a target of `/` is stored as the empty string, so the mapped path of such a mountpoint, unless it is the root, is the empty string. Nothing is claimed about mapped paths being absolute.
- VfsSessions.Session: the host file system is a function for each request, and setup steps with absolute paths have canonical ones; changes of the host between the symlink check and a later use are not modelled.
- VfsListing.FullListing: a virtual name of more than 255 characters is listed cut off, as `Fitted` says, and may then equal another one; the theorems about whole listings and interleavings are for names that fit.
- VfsListing.DirHandle.Readdir: a directory stream is a fixed sequence of entries and errors, and `fstatat` a fixed function.
- Totp.PrintDecimal: `snprintf` is written as a digit loop.
- Totp.Generate: HMAC is a function parameter that yields digests of the algorithm's length. `rfc6238_generate_now` does not divide by the slice and is not modelled.
- Key derivation: the key derivation functions, `getrandom` and the clock are parameters; the digest buffer left unwritten without a KDF is `None`.
- `vfs_open`, `vfs_stat`, `vfs_read`, `vfs_write`, `vfs_close_handle`: thin wrappers around host calls.
- `main.c`, `logging.c`, `jsonconfig.c` and the rest of `vfsdebug.c`: library callbacks, printing, a JSON wrapper and an interactive shell.
- `rfc4648_base32_size`, `is_valid_path`, `strip_crlf`, `passdb_entry_dump`: small helpers without a property beyond their bodies.
