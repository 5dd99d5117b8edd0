# Verified model of deploy-agent's archiver and repository provisioning

This Dafny project models two parts of tsuru/deploy-agent and proves what they promise.

**The directory archiver and its inverse** (`pkg/util/gzip.go`). `CompressGZIPFile` walks a
directory tree and writes a tar stream; `ExtractGZIPFileToDir` replays such a stream onto a file
system. The file system is a map from absolute locations to directories, files, links and devices,
with the kernel's path resolution (40 links at most) and Go's `EvalSymlinks` (255 links). Both Go
functions are methods over mutable classes: a source disk whose files other processes may rewrite at
any moment, a tar writer and a tar reader that count body bytes, a context that may be cancelled at
any poll, and a target file system changed by `MkdirAll`, `OpenFile`, `Write` and `Symlink`. They
are proved against pure functions and predicates, and the laws are lemmas about those, for every
tree, every archive and every destination:

- the archive is the unique enumeration of the tree in component-wise order; a run that is neither
  cancelled nor meets a file that shrinks succeeds exactly when the tree can be archived;
- round trip, every prefix of it, second and all later generations, second extraction, overlay on an
  existing destination, missing destination, and what a run that stopped anywhere leaves;
- framing: no header is written while bytes are outstanding, bodies have the announced size even if
  the file changes meanwhile, and the reader lands on every header by counting;
- links: flattened completely, rewritten relative to the root but replayed in their own directory,
  so links that lead inside the tree all keep their meaning, and the second generation is the first
  again, exactly when they all lie directly under the root; cycles of links and chains of more than
  40 cannot be archived.

**Check-then-create provisioning** (`pkg/repository/oci/oci.go`, `pkg/repository/fake/repository.go`).
The image-name parser, `OCI.Ensure` for one caller, any interleaving of any number of `Ensure` calls
at the list/create boundary, and the in-memory fake with its two maps.

## Layout

| file | contents |
|---|---|
| `Text.dfy`, `Options.dfy`, `Context.dfy` | string splitting and joining, optional values, cancellation |
| `Filepath.dfy`, `Order.dfy` | Clean, Join and Rel on strings; walk order and enumerations |
| `Disk.dfy` | nodes, path resolution, system calls |
| `Tar.dfy` | entries, framing, the writer and the reader |
| `Archive.dfy` | what an archive of a tree is, and what makes one replayable |
| `Source.dfy`, `WalkOrder.dfy`, `Written.dfy`, `Compress.dfy` | the compression and what it has written at every point |
| `Replay.dfy`, `Extract.dfy` | the replay as a function with its law, and the extraction loop |
| `Chains.dfy`, `Cycles.dfy` | how many links a resolution follows, and which never end |
| `RoundTrip.dfy`, `Links.dfy`, `DeepLinks.dfy`, `Generations.dfy`, `Destinations.dfy` | the laws that join both |
| `EndToEnd.dfy` | compression and extraction called one after the other |
| `ImageName.dfy`, `Ensure.dfy`, `Race.dfy`, `Schedules.dfy`, `Fake.dfy` | repository provisioning |

`dafny verify dfyconfig.toml` checks all of it.

## Findings

- A link below the top level is stored relative to the root and replayed relative to its own
  directory. `Links.LinkMeaning` gives the exact lexical condition. What links really lead to is
  kept exactly when no link lies deeper (`DeepLinks.MeaningKeptIff`): where there is a deeper link,
  some deeper link no longer leads to the copy of its destination. The same condition is exact for
  the second generation (`Generations.SecondGenerationIff`).
- The deferred `Close` writes the end marker whatever the error was, unless a body is incomplete. A
  compression that fails between two bodies therefore leaves a well-formed archive of the part
  before the failure, which extracts without any error. Of all runs that write anything, exactly
  those that meet a file that shrank leave an archive whose extraction into an empty directory fails
  (`Destinations.RunExtracts`, and `EndToEnd.Forward` for both programs one after the other).
- Extraction does not truncate: an existing longer file keeps its end (`Destinations.FilesAreOverlaid`).
- A missing destination is created only if the first entry is a directory
  (`Destinations.MissingDestination`, and `Destinations.NotADirectory` for
  every path that does not lead to a directory).
- An existing link in the destination is followed: a file entry at its place writes where the link
  leads, which may be outside the destination (`Replaying.ThroughLink`).
- A chain of 41 to 255 links resolves for `EvalSymlinks` but does not open, so the run fails
  (`Chains.LinkArchivedIff`, `Chains.ChainArchivedIff`; `Chains.LongChainFails` gives the trees).
- Two `Ensure` calls for the same missing repository can both list before either creates; one of
  them then reports an error although the repository is there (`Schedules.RaceExists`). It can
  happen exactly among calls two of which are for the same missing repository
  (`Schedules.RejectionPossibleIff`).
- A failed authentication is reported once: the client field is set before the error is looked at
  (`Ensuring.AuthFailsOnlyOnce`).
- The parser keeps the algorithm name of a digest in the repository name
  (`ImageName.DigestStaysInName`).
- The fake looks repositories up by value and creates by key, so a name recorded as `false` makes
  every call for it fail (`Fakes.EnsureFails`).

## Assumptions

- The root of a compression is an absolute path without link components, given as a location of the
  source tree. The destination of an extraction may be reached through links.
- No permission is denied. While a tree is being archived, other processes change only the bytes of
  its regular files.
- `os.ReadDir` sorts names by character, as Go compares strings.
- Listing repositories filters exactly by the requested display name. (The client double in
  `pkg/repository/oci/oci_test.go` ignores the filter.)
- Creating a repository that exists is rejected, repositories are never deleted, and a request that
  fails from outside changes nothing.

## Model

| member | source | states |
|---|---|---|
| Filepath.ReplayedName | pkg/util/gzip.go:60-83 | path algebra: the name computed under one root, with or without the directory slash, is cleaned and joined to the same place under any destination |
| Filepath.JoinRel | pkg/util/gzip.go:50 | joining the root with the relative text computed for any absolute target leads to that target |
| Filepath.RelExact | pkg/util/gzip.go:50 | the relative text has one ".." for each component of the base beyond the common part, then the rest of the target, no more and no fewer |
| Filepath.RelInside | pkg/util/gzip.go:60-67 | relative to the root a path inside it is its remaining components, and "." for the root alone |
| Filepath.CleanTwice | pkg/util/gzip.go:139 | cleaning a path is idempotent and never gives an empty one |
| Replaying.TargetsAreSeparate | pkg/util/gzip.go:139 | replay targets lie strictly below the destination and differ for different paths |
| Replaying.TargetIsLexical | pkg/util/gzip.go:139 | any name in a stream, clean or not, is replayed where its components lead from the destination; ".." stops at the destination only for names that start with a slash |
| Replaying.TargetAbove | pkg/util/gzip.go:139 | a name of k times ".." and then names is replayed k levels above the destination and down |
| Order.BeforeTotal | pkg/util/gzip.go:33 | any two different paths are ordered by the walk |
| Order.BeforeAtFork | pkg/util/gzip.go:33 | paths are ordered by the names at which they part |
| Order.NameLessMeans | pkg/util/gzip.go:33 | two names are ordered by the first character in which they differ, and a name comes before its continuations |
| Order.BeforeMeans | pkg/util/gzip.go:33 | two paths are ordered by the first name in which they differ, and a path comes before everything under it |
| Order.EnumerationUnique | pkg/util/gzip.go:33 | a set of paths has exactly one enumeration in walk order |
| Order.EnumerationExists | pkg/util/gzip.go:33 | every finite set of paths has an enumeration in walk order |
| Order.InsertName | pkg/util/gzip.go:33 | a directory listing stays in ascending order whatever order names arrive in |
| Source.SourceDisk.ReadDir | pkg/util/gzip.go:33 | the names of a directory, all of them, ascending, independent of the enumeration order |
| Archive.ArchiveUnique | pkg/util/gzip.go:33-107 | the archive is determined by the tree as a finite map |
| Archive.EntriesAscend | pkg/util/gzip.go:33 | of two entries the earlier path leads to the later one, or parts from it at a name that ends first or has the smaller character where the names first differ |
| Archive.EntryAnnounces | pkg/util/gzip.go:60-83 | an entry is named by the path relative to the root, with a slash behind a directory's, and announces the object's kind, permissions and size |
| Archive.ArchiveIsReplayable | pkg/util/gzip.go:33-107 | names in component-wise order, each parent's directory entry before its children, bodies complete, link texts non-empty |
| Archive.AncestorsCameFirst | pkg/util/gzip.go:33-91 | every proper ancestor of an entry has an earlier directory entry, and no link or file is an ancestor |
| Disk.WalkEnds | pkg/util/gzip.go:45 | resolution ends at an existing object that is no link, or at a free name in an existing directory, within its link limit |
| Disk.WalkAlong | pkg/util/gzip.go:45 | through directories a resolution goes where the components say, up for ".." and nowhere for "." |
| Disk.WalkIsLexical | pkg/util/gzip.go:45 | where no link is on the way, resolution agrees with lexical processing |
| Disk.WalkIsStopped | pkg/util/gzip.go:45 | a missing name or one that is no directory in the middle of a path stops it, with the error of each |
| Disk.ResolvedIsFixed | pkg/util/gzip.go:45 | resolution is idempotent: a resolved location resolves to itself without any link |
| Disk.WalkGrows | pkg/util/gzip.go:127-182 | what resolves keeps resolving to the same place while objects are added and file bytes change |
| Tar.TarWriter.WriteHeader | pkg/util/gzip.go:85 | a header is accepted exactly when no body byte is outstanding |
| Tar.TarWriter.Write | pkg/util/gzip.go:98 | at most the announced bytes enter the current body, the rest is refused |
| Tar.TarWriter.Close | pkg/util/gzip.go:31 | the end marker follows exactly when the last body is complete |
| Tar.OneReading | pkg/util/gzip.go:85-104 | a stream of complete entries has only one reading |
| Tar.CompleteMeans | pkg/util/gzip.go:85-98 | a directory or link needs no body whatever size it announces, a file exactly the bytes it announces |
| Tar.StreamHolds | pkg/util/gzip.go:132-154 | every header and body of an encoded archive stands at the offset found by counting |
| Tar.TarReader.Next | pkg/util/gzip.go:132-135 | skipping the rest of a body by counting lands on the next header, and at the end exactly after the last complete body |
| Tar.TarReader.CopyN | pkg/util/gzip.go:154 | a copy of the announced size is the whole body, short exactly when the stream is cut in it |
| Compress.CopyN | pkg/util/gzip.go:98 | the copied bytes were each seen at their offset after the header was made; it fails only if the file was shorter at some moment, and always if it is shorter from the start of the copy on |
| Compress.Inspect | pkg/util/gzip.go:34-83 | refuses devices and unresolvable links, skips the root, and computes the header of everything else with the size of that moment |
| Compress.WriteEntry | pkg/util/gzip.go:85-104 | exactly one entry is added; directory and link bodies are empty, file bodies were read from the file |
| Compress.Visit | pkg/util/gzip.go:33-107 | what the callback adds for one path, and why it stops |
| Compress.WalkDir | pkg/util/gzip.go:33-107 | the entries written enumerate the walked tree, or on an error exactly the paths up to the one it stopped at; the context is polled once per object and the walk stops where it is found cancelled |
| Compress.CompressGZIPFile | pkg/util/gzip.go:19-108 | the stream is the sealed encoding of the entries, absent when cancelled on entry; a body is incomplete exactly when a file shrank; otherwise a run that is not cancelled succeeds exactly when the tree can be archived, and an archivable tree is archived exactly when the context is still alive at the poll on entry, the one for the root and one for each object below it; where nobody changes files below the root no file shrinks and success has written the archive |
| Compress.CancelledWhen | pkg/util/gzip.go:20-40 | a run with no other reason to stop is cancelled exactly when the context has fewer polls left than the walk makes |
| Compress.SealedHolds | pkg/util/gzip.go:28-31 | whatever a run leaves can be read back, complete or cut short |
| Written.SuccessVisitsAll | pkg/util/gzip.go:33-107 | a run to the end shows that the tree can be archived, whatever happens to files meanwhile |
| Written.CanArchiveIff | pkg/util/gzip.go:43-96 | a tree can be archived exactly if its root is there, is no device and resolves, and below it there are no devices and every link resolves, over at most 40 links, to an object that opens |
| Written.WhyRunFails | pkg/util/gzip.go:33-107 | an error other than a cancellation or a shrunk file shows that the tree cannot be archived; no file below an undisturbed root shrinks |
| Written.QuietRun | pkg/util/gzip.go:33-107 | when nobody changes files below the root, whatever changes elsewhere, a run to the end has written the archive |
| Written.RunIsReplayable | pkg/util/gzip.go:33-107 | what a run has written under concurrent changes, complete or stopped anywhere, is a replayable archive, except that its last body may be shorter than announced |
| Written.UndisturbedEntry | pkg/util/gzip.go:69-104 | an object nobody changes is archived exactly, whatever happens to other files during the run |
| Links.LinksAreFlat | pkg/util/gzip.go:42-54 | every link entry refers to a fully resolved object that is no link, and joined to the root its text is that object's path |
| Links.RelativeLink | pkg/util/gzip.go:45-53 | a link with k times ".." and then names leads k levels above its directory and down, and is archived exactly if the object there opens |
| Links.AbsoluteLink | pkg/util/gzip.go:45-53 | a link with an absolute text leads to the object it names, wherever the link lies |
| Links.StoredText | pkg/util/gzip.go:50 | the stored text of a link, wherever it leads, is one ".." per component of the root beyond the common part and then the rest of the target |
| Chains.CyclesFail | pkg/util/gzip.go:45-48 | a walk that comes back to its position after some links, with the same or with more names to follow, fails for every limit |
| Chains.CyclicLinkFails | pkg/util/gzip.go:45-48 | a link that runs into such a cycle, at once or after other links, cannot be archived |
| Cycles.LoopsIff | pkg/util/gzip.go:45-48 | a resolution is refused for too many links under every limit if and only if it runs into a cycle of links, possibly a growing one, at once or after other links |
| Chains.SelfLinkFails | pkg/util/gzip.go:45-48 | a link whose text starts with its own name never resolves and cannot be archived |
| Chains.LinkArchivedIff | pkg/util/gzip.go:43-96 | a link is archived exactly when it resolves within 40 links to an object that opens |
| Chains.ChainWalk | pkg/util/gzip.go:45 | a chain of links to a file is followed link by link: to the file when the limit allows, otherwise to an error |
| Chains.ChainArchivedIff | pkg/util/gzip.go:43-96 | the head of a chain resolves exactly up to 255 links and can be archived exactly up to 40 |
| Chains.LongChainFails | pkg/util/gzip.go:93-96 | for every length from 41 to 255 there is a tree whose chain resolves and cannot be archived |
| Links.LinkMeaning | pkg/util/gzip.go:50-54 | an extracted link at p to root/t names dst/dirname(p)/t, which is dst/t exactly for p directly under the root |
| Links.TopLinkKeepsMeaning | pkg/util/gzip.go:170-173 | after a round trip a link directly under the root resolves to the copy of its destination |
| DeepLinks.DeepLinkStaysHome | pkg/util/gzip.go:170-173 | after a round trip a deeper link resolves, if at all, into its own directory, never to the copy of a destination elsewhere |
| DeepLinks.MeetsLink | pkg/util/gzip.go:50-54 | a deeper link that still leads to the copy of its destination does so through a link that is deeper or has the name of its topmost directory |
| DeepLinks.MeaningKeptIff | pkg/util/gzip.go:50-54 | after a round trip the links, or only the deeper ones, all lead to the copies of their destinations exactly when no link lies deeper than directly under the root |
| DeepLinks.Confined | pkg/util/gzip.go:170-173 | where links never climb, resolution never leaves |
| Replaying.StepExact | pkg/util/gzip.go:139-181 | one entry lands at its place and touches nothing else, or fails with the error of its kind and touches nothing |
| Replaying.ThroughLink | pkg/util/gzip.go:142-173 | an entry at an existing link takes effect where the link leads, inside the destination or not: a file there is overwritten, a missing one created, a directory accepted; a link entry is refused |
| Replaying.OverlayLaw | pkg/util/gzip.go:127-182 | replaying an archive succeeds exactly when every entry fits the destination, and the result is the overlaid destination |
| Replaying.FailedReplay | pkg/util/gzip.go:127-182 | a failed replay stops at the first entry that does not fit and leaves the earlier ones overlaid |
| Replaying.NothingIsSkipped | pkg/util/gzip.go:141-181 | for any stream and destination, a replay without an error has met only directories, files with complete bodies and links with a text |
| Replaying.OtherEndsReplay | pkg/util/gzip.go:179-181 | an entry of any other kind ends the replay as not supported and touches nothing |
| Extract.FileSystem.MkdirAll | pkg/util/gzip.go:143 | creates missing parents first, tolerates existing directories, refuses anything else |
| Extract.FileSystem.OpenFile | pkg/util/gzip.go:149 | opens or creates without truncating, following links as the kernel does |
| Extract.FileSystem.Symlink | pkg/util/gzip.go:171 | creates a link only at a free name in an existing directory |
| Extract.ReplayFile | pkg/util/gzip.go:147-156 | the body is written over the file's old bytes, an incomplete body is an error |
| Extract.ReplayNext | pkg/util/gzip.go:132-181 | one turn of the loop is one step of the replay |
| Extract.Turn | pkg/util/gzip.go:127-181 | the context is polled once per turn, and an error or cancellation ends the loop with the replay so far |
| Extract.ExtractGZIPFileToDir | pkg/util/gzip.go:110-185 | the file system is the replay of as many entries as the context lets through; without a single byte of input it is an error and nothing changes |
| RoundTrips.PrefixExtracted | pkg/util/gzip.go:127-182 | after any k entries an initially empty destination is the source restricted to the first k paths, and a tree |
| RoundTrips.RoundTrip | pkg/util/gzip.go:127-182 | an extracted archive has exactly the source's paths, kinds, bytes and link texts, modes up to the umask |
| EndToEnd.Transfer | pkg/build/buildkit/build.go:430-436 | compressing any archivable tree and extracting it into an empty directory, which may be named through links, copies exactly what is below the root without an error |
| EndToEnd.Forward | pkg/util/gzip.go:19-185 | under any cancellation and with files changing, extracting what a compression left gives exactly the entries written, each landed at its place, and nothing else; with an error if and only if a file shrank or nothing was written |
| EndToEnd.TransferTwice | pkg/util/gzip.go:19-185 | for links that lead inside, compressing, extracting and compressing again gives the same stream up to the umask if and only if all links lie at the top |
| EndToEnd.ArchiveExistsIff | pkg/util/gzip.go:33-107 | a directory has an archive if and only if everything below it can be archived |
| EndToEnd.DeepTreeExists | pkg/util/gzip.go:50-54 | there are archivable trees with a deeper link that leads inside |
| Generations.SecondGeneration | pkg/util/gzip.go:33-182 | with links at the top that lead inside, archiving the extracted tree gives the same entries, and no other archive of it exists |
| Generations.SecondGenerationIff | pkg/util/gzip.go:33-182 | for links that lead inside, the extracted tree has the first archive up to the umask if and only if all links lie at the top |
| Generations.LaterGenerations | pkg/util/gzip.go:33-182 | with links at the top that lead inside, every archive in a line of generations of any length is the second one |
| Generations.ExtractTwice | pkg/util/gzip.go:142-173 | over any destination without links or devices in the way, and however the first extraction ended, a second one changes nothing and succeeds exactly when the first did and the archive has no link |
| Destinations.FilesAreOverlaid | pkg/util/gzip.go:149-156 | an existing file becomes new bytes followed by what lay beyond, equal to the new bytes exactly when it was no longer; nothing outside the archive changes |
| Destinations.OverwriteKeepsTheRest | pkg/util/gzip.go:149-156 | writing without truncation keeps the end of a longer file |
| Destinations.MkdirAllFills | pkg/util/gzip.go:143 | a missing path is made with all its missing parents and nothing else, where its existing part leads, through links or not |
| Destinations.MissingDestination | pkg/util/gzip.go:65-67 | extraction to a missing destination, named through links or not, succeeds exactly for an empty archive or one that starts with a directory, and then extracts everything into the new directory |
| Destinations.NotADirectory | pkg/util/gzip.go:115-173 | extraction to any path that does not lead to a directory succeeds exactly for an empty archive, or one that starts with a directory when the path can be made; a failure changes nothing |
| Destinations.NotADirectoryError | pkg/util/gzip.go:142-173 | below what does not lead to a directory a first file or link entry reports what stops the resolution, and any first entry that the destination is no directory |
| Destinations.EntryForDestination | pkg/util/gzip.go:141-173 | an entry for the destination itself, such as "./", is accepted if it is a directory and refused otherwise; nothing changes |
| Destinations.RunExtracts | pkg/util/gzip.go:28-31 | what any run leaves, whatever its outcome, extracts to exactly the paths written, with an error if and only if a file shrank |
| Destinations.CutArchiveFails | pkg/util/gzip.go:98-100 | an archive cut in a body never extracts without an error, whatever the destination holds |
| ImageName.ParseExactly | pkg/repository/oci/oci.go:101-111 | the parser answers r exactly for registry/namespace/r, then nothing or a tag |
| ImageName.ParseInverts | pkg/repository/oci/oci.go:101-111 | parsing undoes the reference format for every repository with slashes and every tag text |
| ImageName.ParseFails | pkg/repository/oci/oci.go:101-105 | it fails exactly for fewer than two slashes |
| ImageName.SameRepository | pkg/repository/oci/oci.go:101-111 | references that differ only in registry, namespace or tag share their repository |
| ImageName.DigestStaysInName | pkg/repository/oci/oci.go:107-108 | a digest's algorithm name stays in the repository name |
| Text.JoinSplit | pkg/repository/oci/oci.go:102-106 | joining undoes splitting on every string |
| Ensuring.OCI.Auth | pkg/repository/oci/oci.go:51-62 | the client is set whatever the outcome; it fails only without a client and with a bad configuration |
| Ensuring.OCI.Exists | pkg/repository/oci/oci.go:82-99 | reports whether the parsed name is listed, or the error on the way |
| Ensuring.OCI.Create | pkg/repository/oci/oci.go:64-80 | creates the parsed name, rejecting what exists |
| Ensuring.OCI.Ensure | pkg/repository/oci/oci.go:36-49 | one call is one step of the provisioning function |
| Ensuring.EnsureMeans | pkg/repository/oci/oci.go:36-49 | a single caller succeeds exactly with a client or a good configuration, a valid reference, a working listing, and a repository that is there or can be created; each error has its exact condition and a duplicate rejection has none |
| Ensuring.EnsureLeaves | pkg/repository/oci/oci.go:36-49 | success leaves the repository there, created only if it was missing; an error changes nothing; the client is set afterwards |
| Ensuring.EnsureAllMeans | pkg/repository/oci/oci.go:36-49 | any sequence of calls ends with the initial repositories and the valid names, each missing one created once |
| Ensuring.EnsureTwice | pkg/repository/oci/oci.go:36-49 | a repeated call, or one for the same repository under another reference, creates nothing |
| Ensuring.AuthFailsOnlyOnce | pkg/repository/oci/oci.go:51-62 | after any call no later call reports an authentication failure |
| Race.StepKeepsInv | pkg/repository/oci/oci.go:36-49 | what every remote request of every call keeps |
| Race.CreatedAtMostOnce | pkg/repository/oci/oci.go:64-99 | over every run no repository is created twice, and the store is the initial one and what was created |
| Race.OneCreator | pkg/repository/oci/oci.go:36-49 | over every run at most one call per repository returns having created it, and none if it was there |
| Race.FinishedLeavesRepository | pkg/repository/oci/oci.go:36-49 | over every run a call ending in success or duplicate rejection leaves its repository there |
| Race.RejectedIffRaced | pkg/repository/oci/oci.go:64-99 | a call about to create has listed once, without finding its repository, and is rejected exactly when another call created it since |
| Race.RejectionsAreRaces | pkg/repository/oci/oci_test.go:22-32 | every rejection has its fruitless listing and, in between, a creation by another call |
| Race.AllReturned | pkg/repository/oci/oci.go:36-49 | when all calls have returned without remote errors the store is the initial one and all valid names, and each missing one was created by a call |
| Schedules.RaceExists | pkg/repository/oci/oci.go:41-47 | of any two calls for the same missing repository, an interleaving lets either one end with an error although the repository is there |
| Schedules.RejectableIff | pkg/repository/oci/oci.go:41-47 | a call can be rejected as a duplicate in some interleaving if and only if another call is for the same repository and that repository was missing |
| Schedules.RejectionPossibleIff | pkg/repository/oci/oci.go:41-47 | among given calls a duplicate rejection is possible if and only if two of them are for the same missing repository |
| Schedules.DuplicateHasCreator | pkg/repository/oci/oci.go:41-47 | over every run a call rejected as a duplicate has a rival that returned having created the repository |
| Schedules.TwoRequestsSuffice | pkg/repository/oci/oci.go:36-49 | a call has started with its first request and returned by its second, whatever the others do |
| Schedules.AllServed | pkg/repository/oci/oci.go:36-49 | once every call has made two requests and none failed, all have returned and the store is the initial one and all valid names |
| Schedules.Uninterrupted | pkg/repository/oci/oci.go:36-49 | a call that nobody interrupts gives the same repositories and answer as a single caller, for all remote failures |
| Fakes.FakeRepository.Create | pkg/repository/fake/repository.go:17-30 | refuses a recorded name by key, otherwise records it in both maps |
| Fakes.FakeRepository.Exists | pkg/repository/fake/repository.go:32-38 | looks a name up by value and leaves the created map alone |
| Fakes.FakeRepository.Ensure | pkg/repository/fake/repository.go:40-49 | one call is one step on the two maps |
| Fakes.FakeIsASet | pkg/repository/fake/repository.go:17-49 | where all recorded repositories exist no sequence fails, and the created ones are exactly the ensured names that were missing |
| Fakes.MapsAgree | pkg/repository/fake/repository.go:17-49 | from the zero value the two maps stay equal |
| Fakes.EnsureFails | pkg/repository/fake/repository.go:17-49 | a call fails exactly when its name is recorded as not existing |
| Fakes.EnsureRecords | pkg/repository/fake/repository.go:17-49 | a name that is not recorded becomes recorded and created, and nothing else in either map changes, whatever the outcome |

## Left out

- gzip compression and the byte layout of tar (blocks, padding, PAX records): the stream is a sequence of headers and bytes.
- Permission denials, ownership, timestamps, and mode bits beyond the nine permission bits.
- Compress.CompressGZIPFile: does not model a root reached through links or given as a relative path, nor objects that appear, vanish or change kind during the walk; opening a pipe never blocks in the model.
- Extract.ExtractGZIPFileToDir: requires a well-formed stream, complete or cut in its last body; on other streams the code goes on with a missing header.
- Replaying.OverlayLaw: requires that no link or device lies where a directory or file entry is replayed; ThroughLink gives the effect of a single entry on such a link, not of a whole archive.
- Generations.SecondGenerationIff: requires that links lead inside the root; what the copy of another link leads to depends on what lies around the destination.
- DeepLinks.DeepLinkStaysHome: for a single deeper link, says where it can lead. Of several deeper links MeaningKeptIff says that one has lost its meaning, not which.
- Race.Run: takes the client as set and one compartment; a request that reaches the service and whose answer is lost is not modelled.
- Ensuring.OCI.Auth: whether calls through a client built from a bad configuration fail is left to the remote errors.
- JSON decoding and provider choice in pkg/repository/repository.go, flags and servers in main.go, health checks, and the build, autodiscovery and scaling packages.
