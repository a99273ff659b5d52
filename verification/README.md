# Cyanide: a verified model of the stateful core

Cyanide is an SSH and Telnet honeypot. What it shows an attacker is made of a few stateful
components, and this project models them and proves what their callers rely on.

- **The session filesystem** (`Paths`, `Listing`, `Tree`, `Overlay`, `Refinement`, `Merging`,
  `Laying`, `Copying`, `Filesystem`). A path is looked up through four layers: tombstones, a mutable overlay,
  dynamic files, an indexed read-only backend. `Tree` is the abstract filesystem, one map from
  paths to items. `Overlay` is the layered state with every query and mutation as a function
  of it; `Refinement` proves that all queries read the one tree and that every mutation
  updates it as it should; `Merging` reads the layers as one map, attributes and contents
  included. `Copying` proves that a recursive copy on the layers is `Lay`, a copy
  of a snapshot on the tree, and `Laying` says exactly when that is what a copy is for. The class
  `FakeFilesystem` is the object itself, each method proved against those functions, and runs
  of any operations keep the invariant.
- **The profile loader** (`Profile`). A nested profile is flattened into path-keyed rows. The
  rows are the tree, and they are the well-formed backend that the filesystem assumes.
- **SCP** (`Text`, `ScpTree`, `ScpSink`, `ScpReceive`, `ScpSource`, `ScpTransfer`, `ScpProtocol`). The
  sink is a machine fed one byte at a time; its reading loops compute that machine whatever
  the size of the chunks they are given. The source prints a tree; fed to the sink, the tree
  comes back. Joined by two channels, the two sides cannot deadlock.
- **Resource protocols** (`Pool`, `Sessions`, `FsCache`, `OutputWorker`). The VM lease pool,
  session admission with rate limiting, the cache of filesystems and the batching output
  worker are step systems. Claims are about whole runs; code between two suspension points,
  or under the pool's lock, is one step. Time is an input.
- **The shell's command lines** (`ShellParse`, `ShellChain`). Quote-aware splitting at two
  levels, and the chain executor compared with section 2.9.3 (Lists) of the POSIX Shell
  Command Language.
- **SFTP handles** (`Sftp`). Random-access writes to a buffer, as in section 6.4 of
  draft-ietf-secsh-filexfer-02, published to the filesystem when the handle is closed.

Where the source updates an object in place the model is a class. Its methods are proved
equal to functions on the state, and the properties are lemmas about those functions.

## What the code does not do

Some expected properties are false of the code. Each is kept as the code has it, with the
input that shows it and, as far as the table below says, the exact condition under which the
property does hold.

- A dynamic or profile entry whose declared type is neither "file" nor "dir" is a file to
  `get_node` and not a file to `is_file`. Changing its mode or owner turns it into a plain
  file. For every other entry the queries agree and both changes are invisible.
- `mkfile`, `chmod` and `chown` of `/` put the root in the overlay; `list_dir("/")` then
  holds an empty name.
- `remove` tombstones one path. What stood below a removed directory cannot be walked to,
  and is back the moment the directory is made again.
- Copying a directory to a fresh place in its own subtree never ends, no recursion depth being
  enough, unless a generated entry stands on the way: `mkdir_p` leaves such an entry alone, so
  `cp -r /proc /proc/uptime/x` ends. Where something already stands there it can end too.
- Copying a directory where something was left standing exposes what was left, and making an
  absent target also makes the ancestors it lacks.
- A directory of the source that meets something else than a directory at its place is copied
  rightly only if that is a plain file and the first entry listed in the directory is a
  directory; otherwise its first file, or the directory itself, is missing. Success is reported
  all the same, and a move then removes the source: a directory whose subdirectories hold only
  files and all meet files is lost whole.
- Copying a file returns true even when the target's parent is no directory and nothing was
  written. A move then removes the source: the file is gone.
- Moving a file onto itself, or a file or directory into the directory it is in, reports
  success and leaves nothing of it.
- An SCP upload acknowledges a directory that meets a generated entry like any other. A file
  sent directly into it overwrites the entry; a directory sent after such a file makes it a
  directory, without that file; without such a file the entry stays.
- Reporting a failure of a leased VM starts a rebuild while the lease lives on. The VM can
  then be handed to a second session, and a later release starts a second rebuild.
- VM ids discovered with gaps make provisioning overwrite a VM that is in use.
- A ban shorter than a minute, or any ban under a limit that lets nothing through, can be
  renewed by the first attempt after it ends.
- The output worker drops a partial batch when it stops, for every batch size above one with
  a positive batch timeout, and drops an event whose emitter was between testing the flag and
  queueing it.
- `false && a && b` runs `a`; `true || a ; b` never runs `b`. The documentation of the shell
  (docs/developer-reference/vfs/shell_emulator.md:22) also lists backslash escapes; the
  parser has none, and the model has none either.
- An SFTP write beyond the end of the buffer is charged for its data and not for the gap, so
  it can exceed the upload limit.
- The documentation of the filesystem (docs/developer-reference/vfs/vfs.md:10-18) looks in the
  overlay before the tombstones, and the code does the reverse. No run can tell: no overlay
  key is ever tombstoned.

## Model

| member | source | states |
|---|---|---|
| Paths.ResolveCanonical | src/cyanide/vfs/engine.py:624-630 | A resolved path has no empty or "." component, and no ".." but those a relative text starts with, however the text was written. |
| Paths.ResolveComponent | src/cyanide/vfs/engine.py:624-630 | On absolute texts, a further name goes down to it, ".." goes to the parent and stays at the root, "." and a trailing slash do nothing. |
| Paths.ResolveUndo | src/cyanide/vfs/engine.py:624-630 | On absolute texts, going down to a name and up again by ".." resolves as if neither were there. |
| Paths.ResolveRelativeComponent | src/cyanide/vfs/engine.py:624-630 | The same on relative texts, where ".." stays after nothing or another "..". |
| Paths.ResolveRelativeUndo | src/cyanide/vfs/engine.py:624-630 | And the undoing there. |
| Paths.ResolveRender | src/cyanide/vfs/engine.py:624-630 | Resolving a normalised text gives back the path it renders: resolution is idempotent and rendering loses nothing. |
| Paths.ResolveRenderRelative | src/cyanide/vfs/engine.py:624-630 | The same identity for normalised relative texts. |
| Paths.ResolveJoin | src/cyanide/vfs/engine.py:632-670 | Joining and then resolving equals folding the second text's components over the resolved first. |
| Paths.JoinResolves | src/cyanide/vfs/scp.py:118-155 | Joining to a directory and resolving: an absolute text stands for itself, any other is read below the directory. |
| Paths.JoinName | src/cyanide/vfs/engine.py:632-670 | Joining a single valid name to a base gives the base's child of that name. |
| Listing.SortingUnique | src/cyanide/vfs/engine.py:464 | A set of names has only one sorted listing, so `list_dir` is determined by its set of names. |
| Listing.SortNames | src/cyanide/vfs/engine.py:464 | Returns that listing: every name once, in increasing order, nothing else. |
| Listing.LeExact | src/cyanide/vfs/engine.py:464 | The order of listings is the dictionary order of characters. |
| Tree.RemoveReachable | src/cyanide/vfs/engine.py:601-616 | On the abstract tree, removing one path makes exactly it and everything below it unreachable from the root. |
| Tree.MkdirsAt | src/cyanide/vfs/engine.py:539-555 | Which paths exist after `mkdir_p` and what each holds: every prefix of the path, files among them turned into directories, all else as before. |
| Tree.MkdirsSettles | src/cyanide/vfs/engine.py:539-555 | `mkdir_p` leaves no missing or file ancestor, and changes nothing exactly when there was none. |
| Overlay.AbsAt | src/cyanide/vfs/engine.py:393-494 | The abstract tree has a path exactly when the layered lookup finds it, with the kind and content the queries report; the root is always a directory. |
| Overlay.NoImplicitDirs | src/cyanide/vfs/engine.py:64-76 | With parent-closed rows, the backend's child-row fallback never invents a directory. |
| Merging.LookupIsMerged | src/cyanide/vfs/engine.py:359-494 | Every query of a non-root path is a lookup in one map: rendered rows, over them the provided dynamic files, over them the overlay, less the tombstones; kind, attributes and content are that entry's. |
| Merging.TreeIsMerged | src/cyanide/vfs/engine.py:393-494 | And the abstract tree is that map's kinds and contents. |
| Merging.MkFileMerged | src/cyanide/vfs/engine.py:508-537 | `mkfile` stores the content under the given attributes, exactly when the parent is a directory. |
| Merging.MkDirPMerged | src/cyanide/vfs/engine.py:539-555 | `mkdir_p` stores a directory under the given attributes at every path on the way that is missing or a file, and nothing else. |
| Merging.RemoveMerged | src/cyanide/vfs/engine.py:601-616 | `remove` takes one entry out. |
| Merging.ChmodMerged | src/cyanide/vfs/engine.py:557-575 | `chmod` sets the permissions and keeps owner and group, of that entry alone. |
| Merging.ChownMerged | src/cyanide/vfs/engine.py:577-599 | `chown` sets the owner and the group that are given and not empty, and keeps the rest. |
| Merging.CopyStoresDefaults | src/cyanide/vfs/engine.py:632-670 | A copy leaves every entry as it was but those it stores, which belong to root with the default permissions of their kind. |
| Refinement.QueriesAgree | src/cyanide/vfs/engine.py:359-440 | `get_node`, `exists`, `is_dir` and `is_file` agree on every non-root path; `is_file` dissents exactly on generated entries. |
| Refinement.ListDirExact | src/cyanide/vfs/engine.py:442-464 | The listing of a directory is exactly the names whose child exists; the one exception, an empty name, appears exactly for a root that is in the overlay. |
| Refinement.MkFileRefines | src/cyanide/vfs/engine.py:508-537 | `mkfile` keeps the invariant and stores the file exactly when the parent is a directory, else changes nothing. |
| Refinement.MkDirPRefines | src/cyanide/vfs/engine.py:539-555 | `mkdir_p` keeps the invariant and makes exactly the directories the abstract operation makes. |
| Refinement.RemoveRefines | src/cyanide/vfs/engine.py:601-616 | `remove` keeps the invariant and takes exactly one path out of the tree. |
| Refinement.RemoveExact | src/cyanide/vfs/engine.py:601-616 | A successful removal takes from the walkable paths exactly the path and everything below it; every other walkable path keeps its item, and its listing but for the removed name. |
| Refinement.RemadeDirectory | src/cyanide/vfs/engine.py:539-616 | Removing a directory and making it again restores the whole old tree, residue included, exactly when no ancestor was missing or a file. |
| Refinement.ChmodInvisible | src/cyanide/vfs/engine.py:557-575 | Changing permissions leaves existence, kinds, listings and contents of every path as they were exactly when the entry is not generated, and changes only that path's permissions. |
| Refinement.ChownInvisible | src/cyanide/vfs/engine.py:577-599 | The same for owner and group. |
| Refinement.RootCopyUp | src/cyanide/vfs/engine.py:557-599 | On the root, both leave the tree alone but make the root's listing hold an empty name. |
| Laying.LayExactIff | src/cyanide/vfs/engine.py:661-670 | On trees, where nothing stands below what is met: laying a source from a snapshot adds exactly its relocated walk, and the ancestors missing when a directory had to be made, if and only if every non-directory that a directory meets is a plain file and the first entry listed in that directory is a directory. |
| Laying.LayExact | src/cyanide/vfs/engine.py:661-670 | The sufficient half, for every source, destination and tree. |
| Laying.LayDiffers | src/cyanide/vfs/engine.py:661-670 | Otherwise a path of the relocated walk is missing, or is no directory where one should be. |
| Laying.LayLocal | src/cyanide/vfs/engine.py:661-670 | Laying changes nothing but what is above, at or below its destination. |
| Laying.LayGrows | src/cyanide/vfs/engine.py:661-670 | It takes nothing away. |
| Laying.CopiedWalkIff | src/cyanide/vfs/engine.py:632-670 | On trees: the walk of the target equals the relocated walk exactly when nothing stray stands in a directory of it. |
| Laying.GraftReachable | src/cyanide/vfs/engine.py:632-670 | Whatever is added below a place, the paths reachable below it are those the way to it and the walk from it reach, and nothing changes elsewhere. |
| Copying.CopyRecursiveLays | src/cyanide/vfs/engine.py:661-670 | The recursive helper, when it finishes, has laid the source, read from a snapshot taken before, on the tree, whatever stood at the destination; it finishes whenever the recursion bound exceeds the source's depth. |
| Copying.CopyIsLaying | src/cyanide/vfs/engine.py:632-659 | So has a copy. Its target is the destination, or, when that is a directory, the source's name in it; apart from the source, or on it, whatever stands there, a returned copy has laid the source at the target, or has refused, changing nothing, exactly a directory onto a plain file. |
| Copying.CopyDeclines | src/cyanide/vfs/engine.py:632-650 | A missing source, and a directory without the recursive flag, return false and change nothing. |
| Copying.CopyExact | src/cyanide/vfs/engine.py:632-659 | Where nothing stands below what is met, the copy is what it is for exactly when it did not refuse and everything met gives way; then nothing but the walk was added exactly when no ancestor was missing or no directory had to be made. |
| Copying.CopiedWalkExact | src/cyanide/vfs/engine.py:632-670 | After a returned copy the walk of the effective target equals the walk of the source (names, kinds, contents) exactly when it did not refuse, everything met gave way and nothing stray stood in a copied directory. |
| Copying.BlockedByFile | src/cyanide/vfs/engine.py:661-670 | A source directory holding only files that meets anything but a directory is copied with success and without effect. |
| Copying.CopyReturnsIff | src/cyanide/vfs/engine.py:632-670 | Some recursion depth lets a directory copy to a fresh target, its ancestors there or not, return exactly when the target is not inside the source or a generated entry stands strictly between them. |
| Copying.IntoItselfRaises | src/cyanide/vfs/engine.py:632-681 | Otherwise copy and move exceed every recursion bound. |
| Copying.WalledFinishes | src/cyanide/vfs/engine.py:661-670 | A copy to below a generated entry of anything not below it finishes and writes only below the entry. |
| Copying.StandingFileEnds | src/cyanide/vfs/engine.py:632-670 | Where something already stands, a copy into the own subtree can end: the family of trees in which a file of the right name stops the descent. |
| Copying.MoveIsLaying | src/cyanide/vfs/engine.py:672-681 | A move is a laying at the same target less the source, or a refusal that changes nothing; what is walkable after it is what was walkable after the laying, less the source and everything below it. |
| Copying.MovedWalkExact | src/cyanide/vfs/engine.py:672-681 | After a move the walk of the target is what the source's was exactly when it did not refuse, everything met gave way, nothing stray stood in a copied directory, and the target was not the source; success is reported in all but the first case. |
| Copying.MoveExact | src/cyanide/vfs/engine.py:672-681 | Where everything met gives way: the tree left, and exactly which paths of it can be walked to. |
| Copying.MoveRelocates | src/cyanide/vfs/engine.py:672-681 | At a fresh target below walkable directories that is exactly the old tree with the subtree standing there instead. |
| Copying.MoveOntoItself | src/cyanide/vfs/engine.py:672-681 | Moving a file onto itself, or anything into the directory it is in, reports success and leaves nothing of it. |
| Copying.DirectoryMoveLoses | src/cyanide/vfs/engine.py:672-681 | Moving a directory whose entries are directories of files that all meet something else at the target reports success, and only the removal has happened. |
| Copying.CopyKeepsInv | src/cyanide/vfs/engine.py:632-681 | Copy and move keep the filesystem invariant for all arguments, even when they fail or run out of recursion depth. |
| Copying.FileCopyReported | src/cyanide/vfs/engine.py:632-659 | Copying a file always reports success; its content stands at the target, in the destination when that is a directory, exactly when the target's parent is a directory, else the state is unchanged. |
| Copying.FileMoveLoses | src/cyanide/vfs/engine.py:672-681 | A moved file stands at the target exactly when the target's parent is a directory and the target is not the file itself; otherwise success is reported and only the removal has happened. |
| Filesystem.FakeFilesystem.ListDir | src/cyanide/vfs/engine.py:442-464 | The loops over the layers return the sorted names the layered listing prescribes. |
| Filesystem.FakeFilesystem.MkFile | src/cyanide/vfs/engine.py:508-537 | The in-place update is the specified one; success is reported exactly when the parent accepts a file. |
| Filesystem.FakeFilesystem.MkDirP | src/cyanide/vfs/engine.py:539-555 | The loop over the components is the recursive specification. |
| Filesystem.FakeFilesystem.Chmod | src/cyanide/vfs/engine.py:557-575 | The copy-up and update are the specified ones; success exactly when the node exists. |
| Filesystem.FakeFilesystem.Chown | src/cyanide/vfs/engine.py:577-599 | The copy-up and updates are the specified ones; success exactly when the node exists. |
| Filesystem.FakeFilesystem.Remove | src/cyanide/vfs/engine.py:601-616 | Tombstone and overlay are updated as specified; success exactly for an existing non-root path. |
| Filesystem.FakeFilesystem.CopyInto | src/cyanide/vfs/engine.py:661-670 | The recursion in place computes the specified state and says whether the bound was reached. |
| Filesystem.FakeFilesystem.CopyEach | src/cyanide/vfs/engine.py:652-670 | The loop over a listing taken once, in sorted order, is the specified fold. |
| Filesystem.FakeFilesystem.Copy | src/cyanide/vfs/engine.py:632-659 | All branches of `copy` in place: missing source, directory target, non-recursive, file in the way, recursion. |
| Filesystem.FakeFilesystem.Move | src/cyanide/vfs/engine.py:672-681 | The copy and the removal in place, with the returned flag. |
| Filesystem.RunKeepsInv | src/cyanide/vfs/engine.py:508-681 | The invariant holds after any run of any operations; the root stays out of the overlay unless an operation stores it. |
| Filesystem.EveryRunAgrees | src/cyanide/vfs/engine.py:359-464 | In every run: parents of stored paths are stored or tombstoned, no overlay key is tombstoned, listings are exactly the existing children, and the queries agree. |
| Profile.LookupIsWalk | src/cyanide/vfs/profile_loader.py:167-204 | Looking a path up in the flat manifest equals walking the nested profile along it. |
| Profile.IndexIsChildren | src/cyanide/vfs/engine.py:58-62 | The parent-indexed names of a path are exactly the names the nested profile has there. |
| Profile.WalkParent | src/cyanide/vfs/profile_loader.py:167-204 | Whatever has a node below it is stored as a directory. |
| Profile.ManifestIsWellFormed | src/cyanide/vfs/profile_loader.py:129-154 | Every row's path is canonical and its parent the root or a stored directory, so a filesystem over the manifest, with any dynamic files and start-up entries whose parents are stored, starts in its invariant. |
| Profile.SubtreesDisjoint | src/cyanide/vfs/profile_loader.py:186-204 | Subtrees under different names never contribute the same path. |
| Profile.HandleListNode | src/cyanide/vfs/profile_loader.py:167-172 | The loop adds the directory and one empty file per name, overriding earlier entries. |
| Profile.HandleDictNode | src/cyanide/vfs/profile_loader.py:175-183 | A mapping adds its file row or its directory with everything below, overriding earlier entries. |
| Profile.FlattenNodes | src/cyanide/vfs/profile_loader.py:186-204 | The filling loop computes the manifest, later entries overriding. |
| Profile.LoadNodes | src/cyanide/vfs/profile_loader.py:186-204 | What is loaded has a row for exactly the paths the profile can be walked along, each with the node's own attributes, and none for the root. |
| Profile.SpelledRow | src/cyanide/vfs/profile_loader.py:129-183 | A mapping that spells out type, content, owner, group and permissions is stored as exactly that entry. |
| Profile.DefaultRow | src/cyanide/vfs/profile_loader.py:129-195 | A mapping with only its content is the text itself; texts and directories belong to root with the default permissions. |
| Profile.ConfigExact | src/cyanide/vfs/profile_loader.py:175-183 | A mapping is a file exactly when it has a content or a provider, and a directory otherwise. |
| Text.DecimalRoundTrip | src/cyanide/vfs/scp.py:110-277 | The sink reads back the size the source printed in decimal. |
| Text.Octal4RoundTrip | src/cyanide/vfs/scp.py:276-277 | The four digits printed for a mode denote that mode. |
| Text.StripPadded | src/cyanide/vfs/scp.py:73 | Stripping removes exactly the blank ends of a text that has none of its own. |
| Text.StripExact | src/cyanide/vfs/scp.py:73 | Stripping any text takes blanks off its ends and leaves nothing or a text without blank ends. |
| ScpSource.FileLineRoundTrip | src/cyanide/vfs/scp.py:102-277 | A printed file header survives reading, stripping and matching with its mode, size and name. |
| ScpSource.DirLineRoundTrip | src/cyanide/vfs/scp.py:145-315 | A printed directory header survives with its name. |
| ScpSource.WireFormat | src/cyanide/vfs/scp.py:264-336 | The bytes of a file and of a directory holding it, spelled out. |
| ScpSink.ParseFileExact | src/cyanide/vfs/scp.py:102-115 | A header is read as a file header exactly when it is `C`, four digits, a size and a name, with single spaces; these are what is read. |
| ScpSink.ParseDirExact | src/cyanide/vfs/scp.py:145-152 | The same for `D`, four digits, the size 0 and a name. |
| ScpSink.HeaderAnswers | src/cyanide/vfs/scp.py:355-382 | What every header is answered, whether it ends the session and with which code, and what it leaves alone. |
| ScpSource.NodePlaced | src/cyanide/vfs/scp.py:264-336 | Fed the printed bytes of any tree, a sink anywhere places it, acknowledges each round, and is back in its base with its stack as before. |
| ScpSource.NodesPlaced | src/cyanide/vfs/scp.py:311-336 | The same for a sequence of siblings. |
| ScpSource.NodeFed | src/cyanide/vfs/scp.py:264-336 | In a directory that sink adds exactly the sent tree there, and the ancestors missing when a directory had to be made, when no directory of it meets a generated entry; and only then, if siblings have different names and nothing stands below what is met. |
| ScpTree.PlaceExact | src/cyanide/vfs/scp.py:102-168 | Placing a tree in a directory that accepts it adds exactly that tree and missing ancestors. |
| ScpTree.PlaceExactIff | src/cyanide/vfs/scp.py:102-168 | With distinct sibling names and nothing below what is met, exactly then. |
| ScpTree.GeneratedOutcome | src/cyanide/vfs/scp.py:102-168 | What stands at a met generated entry afterwards is the outcome of the nodes sent into it, one by one. |
| ScpSource.GeneratedMet | src/cyanide/vfs/scp.py:102-168 | A directory that meets a generated entry is acknowledged; the entry stays exactly when no file is sent directly into it, files alone leave the last one's content there, and it becomes a directory exactly when a directory is sent into it after a file. |
| ScpSource.FirstFileLost | src/cyanide/vfs/scp.py:102-168 | The first file sent into such a directory has no place below it afterwards, whatever follows. |
| ScpSink.FeedAllAppend | src/cyanide/vfs/scp.py:355-382 | Feeding in pieces is feeding the whole: state and answers do not depend on how the input is cut. |
| ScpSink.HeaderKeepsStack | src/cyanide/vfs/scp.py:145-215 | Every header keeps one stack entry more than open directories, the base being their join; of the end headers exactly an unmatched one stops the sink. |
| ScpSink.StackDiscipline | src/cyanide/vfs/scp.py:355-382 | So does any input at all, until the sink stops. |
| ScpReceive.Receiver.ReadHeader | src/cyanide/vfs/scp.py:65-73 | Reads exactly the bytes up to the line end and returns them stripped, or nothing when the input ends first. |
| ScpReceive.Receiver.ReadFileData | src/cyanide/vfs/scp.py:75-85 | Over reads of any size, takes exactly the announced number of bytes, or all there are. |
| ScpReceive.Receiver.HandleCopyCommand | src/cyanide/vfs/scp.py:102-143 | Header, content, trailing byte and the file's place, with the error path, are the byte-fed machine's. |
| ScpReceive.Receiver.HandleDirCommand | src/cyanide/vfs/scp.py:145-168 | Pushes the base, enters the directory if the header matches, answers as the machine does. |
| ScpReceive.Receiver.HandleEndDir | src/cyanide/vfs/scp.py:210-215 | Pops, acknowledges, and stops exactly when the machine does. |
| ScpReceive.Receiver.ProcessSinkProtocol | src/cyanide/vfs/scp.py:355-382 | The whole loop gives, under any chunking of reads, the tree, answers and exit code of the byte-fed machine. |
| ScpTransfer.FlattenExtract | src/cyanide/vfs/scp.py:311-336 | What the source walks and prints for a path stands for exactly the relocated walk of that path. |
| ScpTransfer.ExtractDistinct | src/cyanide/vfs/scp.py:311-336 | What is sent never names two siblings alike. |
| ScpTransfer.TransferIsCopy | src/cyanide/vfs/scp.py:217-382 | A download replayed as an upload ends the sink's session with code 0 and places what was sent; into a directory that accepts it that adds exactly what copying the path there would add, and only into such a one, if nothing stands below what is met. |
| ScpTransfer.Upload | src/cyanide/vfs/scp.py:355-382 | Receiving any printed tree through the real reading loops, whatever stands at the destination, ends with code 0, places exactly that tree, and sends exactly the acknowledgements the source waits for. |
| ScpTransfer.TruncatedStored | src/cyanide/vfs/scp.py:75-143 | A file cut off by the end of the input is stored as far as it came and acknowledged; the session ends with code 0. |
| ScpTransfer.AckedSend | src/cyanide/vfs/scp.py:264-336 | Given the answers a sink returns, what the source writes is the printed tree, and it reads exactly those answers. |
| ScpTransfer.RefusedSend | src/cyanide/vfs/scp.py:264-336 | A refused file or directory is its header line alone; a file whose header is acknowledged is sent whole, whatever is answered at its end. |
| ScpTransfer.Sender.SendFile | src/cyanide/vfs/scp.py:264-309 | Writes and reads what the specification says for every answer, for the file as it is when its turn comes. |
| ScpTransfer.Sender.SendDirectory | src/cyanide/vfs/scp.py:311-336 | Whatever happens to the filesystem during the recursion, refusals and a recursion error further down included, what is written is what the specification writes for some directory of that name; in a still filesystem, within the recursion bound, for the directory itself. |
| ScpTransfer.Sender.SendItems | src/cyanide/vfs/scp.py:323-331 | The same for the loop over a listing, each child looked up when its turn comes. |
| ScpTransfer.Sender.HandleSourceMode | src/cyanide/vfs/scp.py:217-251 | The error for a missing path, the initial acknowledgement, the two exit codes and everything written, for every path and the root. |
| ScpProtocol.NextKeepsInv | src/cyanide/vfs/scp.py:217-382 | Every step of the joined system keeps "one acknowledgement or some bytes in flight, never both" and lowers the remaining work. |
| ScpProtocol.NeverStuck | src/cyanide/vfs/scp.py:217-382 | In every invariant state either both sides have ended with code 0 or some step is possible. |
| ScpProtocol.EveryRunCompletes | src/cyanide/vfs/scp.py:217-382 | No run deadlocks, every run is bounded, and a run that cannot go on has both codes 0, empty channels and the sent tree placed, whatever stood at the destination; exactly added where it is accepted. |
| Pool.ProvisionIsNew | src/cyanide/core/libvirt_pool.py:127-137 | With ids numbered without gaps, the next id is not in use. |
| Pool.StartInvIff | src/cyanide/core/libvirt_pool.py:54-111 | The pool start-up builds satisfies the invariant exactly when the VMs found are numbered from one without gaps and are no more than allowed. |
| Pool.ReserveKeepsInv | src/cyanide/core/libvirt_pool.py:127-158 | A reservation hands out a VM that was ready or new, to that session alone, keeps the VM bound, and fails exactly when none is ready and the pool is full. |
| Pool.ReserveExact | src/cyanide/core/libvirt_pool.py:127-212 | The lease names the VM's address, the protocol's port, protocol and session; the VM is the first ready one, or a new one with the next id at the configured address; nothing else changes. |
| Pool.ReserveExclusiveIff | src/cyanide/core/libvirt_pool.py:127-158 | With arbitrary discovered ids, it keeps exclusivity exactly when it does not provision under an id in use. |
| Pool.GapShares | src/cyanide/core/libvirt_pool.py:94-158 | With only the second VM discovered, two reservations in a row leave it with two holders. |
| Pool.ReleaseKeepsInv | src/cyanide/core/libvirt_pool.py:160-171 | Releasing a live lease ends it and leaves the VM with one pending rebuild. |
| Pool.ReleaseExact | src/cyanide/core/libvirt_pool.py:160-171 | A release ends one lease and starts one rebuild of one VM, in any state. |
| Pool.RebuildDoneKeepsInv | src/cyanide/core/libvirt_pool.py:238-243 | A completed rebuild leaves the VM ready, with no lease and nothing pending. |
| Pool.RebuildDoneExact | src/cyanide/core/libvirt_pool.py:238-243 | A completed rebuild is one task fewer and one VM ready and just used; nothing else changes. |
| Pool.CheckEachKeepsInv | src/cyanide/core/libvirt_pool.py:245-289 | A health or recycling pass, whatever it finds due, keeps exclusivity. |
| Pool.CheckEachExact | src/cyanide/core/libvirt_pool.py:245-289 | A pass starts a rebuild of exactly the ready VMs that are due, one each. |
| Pool.ReportFailureKeepsInvIff | src/cyanide/core/libvirt_pool.py:173-194 | A failure report keeps exclusivity exactly when the VM it finds at the address is not leased. |
| Pool.ReportFailureExact | src/cyanide/core/libvirt_pool.py:173-194 | A report touches only the first VM at the address, and that only when leased. |
| Pool.RunsAreExclusive | src/cyanide/core/libvirt_pool.py:127-289 | Over every interleaving without such reports: a leased VM has one lease and no rebuild, a rebuilding one one rebuild and no lease, a ready one neither; ids stay contiguous and within the bound. |
| Pool.FailureSharesVm | src/cyanide/core/libvirt_pool.py:173-194 | After a report on a leased VM and its rebuild, the next reservation that picks it gives it two holders. |
| Pool.FailureThenRelease | src/cyanide/core/libvirt_pool.py:160-194 | A release after the report leaves two pending rebuilds, and the second ends under the next holder, whose VM is then ready. |
| Pool.LibvirtPool.ReserveTarget | src/cyanide/core/libvirt_pool.py:127-158 | The search, provisioning and leasing in place give the specified pool and lease. |
| Pool.LibvirtPool.ReleaseTarget | src/cyanide/core/libvirt_pool.py:160-171 | The release in place, for unknown leases and VMs too. |
| Pool.LibvirtPool.ReportHostFailure | src/cyanide/core/libvirt_pool.py:173-194 | Only the first VM at the address is looked at, and changed only when leased. |
| Pool.LibvirtPool.ProvisionVm | src/cyanide/core/libvirt_pool.py:196-212 | The entry ends up ready at the configured address. |
| Pool.LibvirtPool.FinishRebuild | src/cyanide/core/libvirt_pool.py:238-243 | The end of a rebuild in place. |
| Pool.LibvirtPool.CheckPass | src/cyanide/core/libvirt_pool.py:245-289 | The loop over the VMs starts a rebuild for exactly the ready ones that are due. |
| Pool.LibvirtPool.RecyclePass | src/cyanide/core/libvirt_pool.py:272-289 | Recycling rebuilds exactly the ready VMs unused for longer than the timeout, and none without a connection. |
| Sessions.RegisterCountedIff | src/cyanide/services/session_manager.py:69-84 | Registering keeps every counter equal to the sessions it counts exactly when the session id is fresh. |
| Sessions.UnregisterCounted | src/cyanide/services/session_manager.py:86-100 | Unregistering, unknown and repeated ids included, keeps the counters exact and never reaches its clamps. |
| Sessions.ConnectCounted | src/cyanide/core/server.py:1147-1163 | A connection adds its session exactly when accepted, under its address, and keeps the counters exact and both limits. |
| Sessions.RunsStayWithinLimits | src/cyanide/services/session_manager.py:58-100 | With fresh ids, in every run the counters are exact, none is kept at zero, and both limits hold. |
| Sessions.RateLimitHolds | src/cyanide/services/session_manager.py:41-56 | With a monotone clock, any minute of any run holds at most the configured number of attempts of one address that pass the limiter. |
| Sessions.AcceptedIff | src/cyanide/services/session_manager.py:29-67 | In every run with fresh ids and a monotone clock an attempt is accepted exactly when no ban of its address lasts past it, fewer than the limit of its passing attempts are less than a minute old, and fewer sessions than allowed are open, in all and of the address; each refusal names the first that fails. |
| Sessions.NothingAcceptedDuringBan | src/cyanide/services/session_manager.py:34-39 | Before any moment that a ban lasts until, every attempt of the address is refused without changing anything, bans by hand that keep it to that moment included. |
| Sessions.FirstAfterBanPasses | src/cyanide/services/session_manager.py:34-56 | Without manual bans, with bans of a minute or more and a positive limit, the first attempt after a ban is never rejected by the limiter. |
| Sessions.ShortBanRepeats | src/cyanide/services/session_manager.py:34-54 | With every shorter ban, negative ones included, or a limit of nothing: the run whose next attempt after the ban is banned again. |
| Sessions.BansAgainIff | src/cyanide/services/session_manager.py:34-54 | Over all runs without manual bans, the limiter can reject the first attempt after a ban exactly when bans are shorter than a minute or the limit is not positive. |
| Sessions.BanExact | src/cyanide/services/session_manager.py:116-120 | A manual ban lasts exactly its duration, replaces an earlier one of the address and touches nothing else. |
| Sessions.SessionManager.CanAcceptIp | src/cyanide/services/session_manager.py:29-67 | The verdict and the state after every branch of the check. |
| Sessions.SessionManager.RegisterSession | src/cyanide/services/session_manager.py:69-84 | The counters and the table after registering. |
| Sessions.SessionManager.UnregisterSession | src/cyanide/services/session_manager.py:86-100 | The counters and the table after unregistering, an emptied address being dropped. |
| Sessions.SessionManager.BanIp | src/cyanide/services/session_manager.py:116-120 | A manual ban ends after its duration or the configured one. |
| Sessions.SessionManager.ConnectionMade | src/cyanide/core/server.py:1147-1163 | The server's callback registers exactly the connections the check accepts. |
| FsCache.CacheIsNewest | src/cyanide/core/server.py:304-323 | After any request log the cached keys are the last at most 100 distinct keys used, in order of most recent use. |
| FsCache.CacheSize | src/cyanide/core/server.py:319-323 | There are never more than 100 entries, and with fewer keys used all are there. |
| FsCache.RecencyUnique | src/cyanide/core/server.py:304-307 | A log has only one such order: distinct keys by last use. |
| FsCache.CachedIsLatestMiss | src/cyanide/core/server.py:309-323 | Every cached filesystem is the one stored at its key's latest miss. |
| FsCache.HitReturnsStored | src/cyanide/core/server.py:304-307 | A hit returns that very filesystem. |
| FsCache.VfsCache.GetFilesystem | src/cyanide/core/server.py:296-329 | Reordering, eviction and insertion in place, and the uncached fallback when construction fails; without persistence or for an unknown address the cache is neither read nor changed. |
| OutputWorker.RunInv | src/cyanide/output/base.py:29-88 | Over every interleaving: accepted events are flushed, batch and queue in order, each flushed event is marked done once, and fewer than the batch size are held between iterations. |
| OutputWorker.NothingLost | src/cyanide/output/base.py:43-88 | With atomic emission, and a batch size of at most one or no positive timeout, nothing accepted is unflushed once the worker has left its loop. |
| OutputWorker.LossIff | src/cyanide/output/base.py:53-88 | With atomic emission and a clock that never goes back, events can be lost exactly when the batch size exceeds one and the batch timeout is positive. |
| OutputWorker.LostIff | src/cyanide/output/base.py:29-88 | In every atomic run that has left the loop an accepted event is unflushed exactly when at the first stop the worker was about to test its condition with nothing queued and an unfinished batch; what is still queued at the stop is flushed. |
| OutputWorker.TimedOutFlushes | src/cyanide/output/base.py:71-88 | Once the timeout since the last flush has passed, a decision flushes all that is held. |
| OutputWorker.DecisionExact | src/cyanide/output/base.py:71-88 | What is held is flushed exactly when it fills a batch, the timeout has passed, or the plugin has stopped with nothing queued; only then does the time of the last flush move. |
| OutputWorker.IdleFlushes | src/cyanide/output/base.py:58-88 | A running worker with nothing queued still flushes what it holds once the timeout has passed. |
| OutputWorker.OfferedOnce | src/cyanide/output/base.py:43-51 | An interrupted emitter offers its event exactly once. |
| OutputWorker.AcceptedIff | src/cyanide/output/base.py:20-51 | In every run the queue holds at most 10000 events, and an event is accepted exactly when the plugin runs and fewer are queued. |
| OutputWorker.SplitEmitLoses | src/cyanide/output/base.py:43-51 | An emitter interrupted between test and queue loses its event for every batch size and timeout. |
| OutputWorker.OutputPlugin.EmitEvent | src/cyanide/output/base.py:43-51 | An event is queued exactly when running and the queue has room. |
| OutputWorker.OutputPlugin.StopPlugin | src/cyanide/output/base.py:29-37 | Stopping lowers the flag and leaves queue and batch alone. |
| OutputWorker.OutputPlugin.WorkerTurn | src/cyanide/output/base.py:53-88 | One iteration of the loop is the three worker steps, the timeout measured from the last flush, with one mark per flushed event. |
| ShellParse.AutomataAgree | src/cyanide/core/emulator.py:235-295 | The two quote automata move as one. |
| ShellParse.QuotingExact | src/cyanide/core/emulator.py:235-295 | A single or a double quote opens a quotation that lasts to the next such quote, whatever else it holds; other text opens none. |
| ShellParse.OperatorExact | src/cyanide/core/emulator.py:227-233 | Which operator starts where: two equal characters before one, and no single bar. |
| ShellParse.ChainFaithful | src/cyanide/core/emulator.py:243-274 | For every line the untrimmed pieces and operators concatenate to it, each piece starts unquoted and holds no unquoted operator, and one ended by an operator ends unquoted. |
| ShellParse.TrimExact | src/cyanide/core/emulator.py:243-274 | The commands are the pieces that are not blank, stripped, in order, each with its operator. |
| ShellParse.PipesFaithful | src/cyanide/core/emulator.py:276-295 | For every text the untrimmed segments joined by bars are it, and none holds an unquoted bar. |
| ShellParse.QuotedIsWhole | src/cyanide/core/emulator.py:243-295 | Whatever stands in a quotation is split neither at operators nor at bars. |
| ShellParse.TrimSegmentsExact | src/cyanide/core/emulator.py:276-295 | The segments returned are the parts, stripped, blank ones too but for a last one. |
| ShellParse.ParsePrintRoundTrip | src/cyanide/core/emulator.py:227-274 | Printing any list of trimmed, quote-balanced, operator-free commands with their operators and parsing it returns the list. |
| ShellParse.ParseChainLoop | src/cyanide/core/emulator.py:243-274 | The scanning loop returns the trimmed, non-blank pieces. |
| ShellParse.SplitIgnoreQuotes | src/cyanide/core/emulator.py:276-295 | The splitting loop returns the trimmed segments, a blank last one dropped. |
| ShellChain.AgreesIff | src/cyanide/core/emulator.py:133-198 | For every chain without `&`: the emulator runs the same nodes in order with the same status, output and truncation as POSIX lists exactly when each node POSIX suppresses is the last and passed over, or is followed by one the emulator resumes on. |
| ShellChain.AgreesWithoutSuppression | src/cyanide/core/emulator.py:133-198 | In particular whenever nothing but possibly the last node is suppressed. |
| ShellChain.FailedAndRunsOn | src/cyanide/core/emulator.py:133-160 | After a failing `a` in `a && b && c` the emulator runs `b`; POSIX runs neither. |
| ShellChain.SucceededOrNeverResumes | src/cyanide/core/emulator.py:133-160 | After a succeeding `a` in `a \|\| b ; c` the emulator runs neither; POSIX runs `c`. |
| ShellChain.OutputBounded | src/cyanide/core/emulator.py:187-194 | Output never exceeds the configured size by more than the truncation notice; a truncated run has status 1. |
| ShellChain.ChainReturns | src/cyanide/core/emulator.py:149-198 | The output of a chain is the outputs of the nodes run, in order, each run in the world its predecessor left, a background node started; so are the errors; the status is the last one's. A cut chain returns the first characters of that output, the notice, the complaint and status 1. |
| ShellChain.ShellEmulator.ExecuteNodes | src/cyanide/core/emulator.py:149-198 | The loop's output, errors, status and world are those of the specified emulator. |
| ShellChain.ShellEmulator.Execute | src/cyanide/core/emulator.py:200-225 | A waiting command takes the line; else blank lines do nothing, others are recorded and expanded, and the chain is refused unrun when too long or runs as parsed. |
| Sftp.WrittenByte | src/cyanide/vfs/sftp.py:157-180 | After any writes byte i comes from the last write covering i, else the initial content, else is zero, and the length is the largest end reached. |
| Sftp.RunBuffer | src/cyanide/vfs/sftp.py:115-198 | In any run that does not close a handle its buffer is the initial one with exactly its own successful writes, whatever happens to other handles. |
| Sftp.NeverReused | src/cyanide/vfs/sftp.py:115-144 | A new handle differs from every handle ever issued and leaves the others untouched. |
| Sftp.OpenExact | src/cyanide/vfs/sftp.py:115-144 | Which permission each mode needs, which error each refusal is, and that a new handle starts with the path's content, or with nothing when new or truncated. |
| Sftp.RunIssued | src/cyanide/vfs/sftp.py:130-144 | In every run each open handle was issued under an earlier number. |
| Sftp.ReadIsSlice | src/cyanide/vfs/sftp.py:146-155 | A read returns the bytes at its offset, cut at the end of the buffer. |
| Sftp.WriteAnswers | src/cyanide/vfs/sftp.py:157-180 | A write is accepted exactly on an open handle for writing whose length with the data stays within the limit; a refused one changes nothing. |
| Sftp.LimitHolds | src/cyanide/vfs/sftp.py:166-178 | A successful write stays within the former length or the limit exactly when it ends there, and always when it leaves no gap. |
| Sftp.RunWithinLimit | src/cyanide/vfs/sftp.py:157-180 | Over any run with contiguous offsets the length stays within the larger of the initial length and the limit. |
| Sftp.GapExceedsLimit | src/cyanide/vfs/sftp.py:166-178 | A one-byte write at the limit into an empty buffer is accepted and exceeds it. |
| Sftp.ClosePublishes | src/cyanide/vfs/sftp.py:182-198 | Closing stores exactly the buffer when the parent is a directory, and nothing otherwise. |
| Sftp.ClosedAttributes | src/cyanide/vfs/sftp.py:182-198 | The stored file belongs to root and has the default permissions. |
| Sftp.ReadAndCloseAnswer | src/cyanide/vfs/sftp.py:146-198 | Reading fails exactly on a handle that is not open; closing one for reading leaves the filesystem alone. |
| Sftp.SftpHandler.OpenPath | src/cyanide/vfs/sftp.py:115-144 | All permission, existence and truncation branches of opening. |
| Sftp.SftpHandler.ReadAt | src/cyanide/vfs/sftp.py:146-155 | Reading in place, with the bad-handle error. |
| Sftp.SftpHandler.WriteBytes | src/cyanide/vfs/sftp.py:157-180 | Extending and overwriting in place, with the three error cases, which change nothing. |
| Sftp.SftpHandler.CloseHandle | src/cyanide/vfs/sftp.py:182-198 | Forgets the handle and stores the buffer of a written one. |

## Left out

- Relative paths are resolved (`Paths`) but no filesystem operation is modelled on one, nor the shell's current directory (src/cyanide/core/emulator.py:127-131).
- Filesystem start-up: generated system files, user homes and IP history (src/cyanide/vfs/engine.py:198-357). Runs start from any overlay that satisfies the invariant.
- Sizes, modification times, and read, audit and statistics callbacks of filesystem operations: they decide nothing here.
- Template rendering and dynamic providers are arbitrary functions of the stored text and of the path; their arguments and failures are not modelled.
- Copying.CopyExact: where something stands below a non-directory that a directory meets, only `CopyIsLaying` speaks; what stands there could by chance be what the copy misses.
- Copying.CopyIsLaying: for a source below the target, requires that no entry of the source is on the way down to it, for then the copy overwrites what it is still to read.
- Copying.CopyReturnsIff: is stated for a fresh target; where something stands there both outcomes occur (`StandingFileEnds`).
- Text is a sequence of characters that stand for bytes: UTF-8 and latin-1 conversion, and the non-ASCII digits that `\d` and `int` accept in an SCP header, are not modelled.
- SCP modes are a parameter below 0o1000, which is all `_perm_to_mode` (src/cyanide/vfs/scp.py:253-262) produces; the received mode is not applied by the code either.
- SCP timeouts and failing writes: the final acknowledgement's 0.1 second timeout never fires, and between the two sides of `ScpProtocol` channels deliver what was written. Failing saves, quarantine, log records and the owner of a received file are not part of this model.
- ScpTransfer.Sender.HandleSourceMode: paths are resolved; the code takes the base name of the text it was given, which a trailing slash empties. Permissions do not change while a directory is being sent.
- ScpSource.NodeFed: the condition is exact only where nothing stands below a met generated entry; what stands there could by chance be the file that is lost.
- The SCP command line (src/cyanide/vfs/scp.py:174-208).
- Names in a profile that are empty, "." or "..", or hold a slash; the folder list, generators, root filesystem scan and the two profile caches (src/cyanide/vfs/profile_loader.py:43-84, 207-399).
- Pool connection handling, hypervisor calls and guest addresses: a health check is a verdict on a VM, a rebuild a later step. Calls inside a pass that wait are covered because the lock is held and a failure report changes only leased VMs.
- Session statistics, the command and file-operation counters, and timeouts of sessions.
- Exceptions raised by a flush or a write of an output plugin: the code logs them and marks the events done, so a flush here is what was handed over. The five second wait of `stop` ends with the flag already down and changes nothing.
- ShellChain.AgreesIff: excludes `&`, for which the emulator starts nothing and has no POSIX counterpart to agree with.
- Pipelines, redirections, aliases and permissions: running one pipeline is an arbitrary function of the world and the command line, and so are variable expansion, the history and what a command waiting for input makes of a line.
- The rest of SFTP (directory operations, attributes, rename) passes straight through to the filesystem; quarantine copies are not modelled.
