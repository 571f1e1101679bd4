# Hildon Application Manager: a verified model

The Hildon Application Manager is a package manager front end: a graphical frontend talks
to a privileged worker process, which plans and carries out operations on top of
libapt-pkg. This project models the parts of it that decide what happens and proves what
they promise.

* **Planning** (`PackageDb`, `Planner`, `PackageCache`). The worker's own dependency
  algorithm: installing follows or-groups and removes conflicting packages softly; removing
  drags automatically installed dependencies along, softly; a fixpoint loop puts softly
  removed packages back where a broken package names them. `Planner` has the functions on
  the desired state, `PackageCache` the cache whose modes and flags are updated in place.
  `RemovalProofs`, `SoftProofs`, `BlameProofs`, `InstallProofs`, `InstallComplete`,
  `UpgradeProofs`, `RelatedProofs` and `Memo` hold the properties, `Simulations` what they
  mean for the cache after an operation has been simulated.
* **The conversation** (`WorkerClient`, `Frontend`, `Protocol`, `CallbackProofs`). Queued calls with
  re-entrant callbacks, one active call, status messages, the cancel pipe and the death of
  the worker. `Frontend` is the linked queue with its pointer to the tail, `Protocol` the
  system of frontend, pipes and worker, whose steps happen in any order, and `CallbackProofs`
  says which calls the callbacks make.
* **X-expressions and their encodings** (`Xexps`, `XexpHeap`, `XexpEdits`, `StableSorts`;
  `Wire`, `WireProofs`, `WireFormat`, `Utf8Proofs`, `WireBuffers`; `Xml`, `XmlProofs`,
  `XmlFormat`, `XmlNodes`, `XmlStreams`). Linked
  nodes with a single owner that are edited in place, the padded binary encoding, and the
  XML printer with the parser's callbacks, on values and on nodes.
* **Catalogues** (`Tokens`, `Components`, `CatalogueEquality`, `Catalogues`,
  `CatalogueFiles`, `CatalogueProofs`, `CatalogueDisk`, `Merging`). Comparison up to white
  space, the user's overlay over the catalogues of packages, its persistence, and the merge
  tool.
* **Smaller algorithms**. `Trust` chooses the domain and the sources of a package,
  `Descriptions` cleans up a description in its buffer, `Base64` decodes icons through one
  buffer.

`Wrappers`, `Characters` and `Collections` hold what several of these use.
`dafny verify dfyconfig.toml` checks the whole project.

## How to read the model

Where the program updates something in place the model does the same: a class or a set of
linked nodes with methods, each proved to do to the state what a function says
(`PackageCache.Cache`, `Frontend.PendingQueue`, `Frontend.Frontend`, `XexpHeap.Node`,
`WireBuffers.Encoder`, `WireBuffers.Decoder`, `XmlNodes.Reader`, `XmlStreams.Stream`,
`CatalogueFiles.CatalogueList`, `Trust.TrustInfo`, arrays in `Descriptions` and `Base64`).
The lemmas are about those functions.

libapt-pkg is represented by the few operations that the planner calls. Each version has a
list of or-groups; an alternative has a direct target and the versions that satisfy it, in
apt's order and ranked by priority. Deleting a package that is not installed leaves it
kept; selecting a candidate that is the current version leaves it kept; selecting clears
the auto flag. Kinds of dependency that the configuration makes important are a parameter.

Other parameters: whether each write to the worker succeeds; which writes to the image
loader fail; the contents of the catalogue files; the default distribution; the domain of
each package index; which packages are flagged as system updates; the comparison function
for sorting. A callback is a finite tree of calls.

## What came out differently

* **A truncated x-expression brings the decoder down.** When the data ends exactly before
  the tag of a child, or before a text, `decode_xexp` hands a null pointer to `xexp_cons`
  or `xexp_text_new`. `WireProofs.TruncationNoticed` says exactly when the decoder notices a
  missing end instead.
* **Giving up an automatic removal leaves the cache dirty.** The early return at
  `src/apt-worker.cc:5043-5051` keeps the deletions but not their reason: the recorded
  operation, asked for again, is answered with them, and without a record the next one is
  planned on top of them; see `Memo.AutoremoveLeavesLeftovers`.
* **An installed user package can be removed by an installation** when an older version of
  it was outside the user sections, because the section is looked up on the conflicting
  version; see `InstallProofs.UserPackageDisplaced` for exactly when the removal of what
  conflicts does that, decided beforehand, and
  `InstallProofs.MixedSectionsRemovesUserPackage`.
* **Soft removals are not undone for provided dependencies**, so a package that was only
  dragged along can be to blame; see `BlameProofs.RemovalBlamesProviders` for exactly when, and
  `BlameProofs.ProvidedLibraryIsNotPutBack`.
* **Less trusted sources can stay in use.** An upgrade whose best source is exactly of the
  current level also keeps the sources below it that were scanned first, against the
  comment at `src/apt-worker.cc:5409-5411`; see `Trust.OnlyBestAreKept`.
* **The component comparison is not symmetric** for two equally long lists of which one
  names a proper part of what the other names, which takes a component named twice; see
  `Components.WhenOrderMatters`, and `CatalogueEquality.SameIsSymmetric` for what that means
  for catalogues.
* **Equality of catalogues is not transitive** once package catalogues are among them, nor
  among catalogues of the user whose lists of components name some twice; see
  `CatalogueEquality.WhenTransitivityFails` for exactly when.
* **Of two package catalogues with the same key** the first one takes the flag of the
  second by being written and read; see `CatalogueProofs.RereadIsSame`. Entries with another
  tag than `catalogue` are read but never written.
* **A leading " ." line keeps its dot**, because the dot has been written over the blank
  that is tested; see `Descriptions.NicifyIsTidy`. The comment above the loop also promises
  to clear a "." without a blank in front of it and one at the very end, which the code
  leaves alone.
* **The frontend queues calls.** The comment at `src/apt-worker-client.h:44-48` says that a
  second request for a command is refused; the code queues it, and so does the model.
* `mark_named_package_for_install` answers true for a repeated unknown name and false for a
  new one. The reinstall flags are not among what a reset takes back.

## Model

| member | source | states |
|---|---|---|
| RemovalProofs.RemoveIsReachability | src/apt-worker.cc:2472-2511 | A removal deletes a package exactly if it was deleted before or can be reached from the requested one through hard dependencies on packages that are auto-installed, installed and not the user's |
| RemovalProofs.RemoveEffect | src/apt-worker.cc:2472-2511 | Apart from deleting them, a removal marks every package it drags along as soft and not auto, takes back their installation, and changes no other flag |
| Planner.Remove1 | src/apt-worker.cc:2472-2511 | The recursion ends because each call deletes one more package, and never undeletes one |
| Planner.FirstSoft | src/apt-worker.cc:2134-2157 | The target put back is softly deleted and that of the first unsatisfied alternative with such a target; if there is none, no unsatisfied alternative has one |
| SoftProofs.FixPassShrinks | src/apt-worker.cc:2091-2162 | Each pass of the loop that changes anything leaves strictly fewer softly deleted packages, so it ends from any state |
| SoftProofs.FixSoftSettles | src/apt-worker.cc:2091-2162 | From any state the loop only resets softly deleted packages, and ends where no broken package has an unsatisfied group with a softly deleted direct target |
| SoftProofs.SettledIsLeftAlone | src/apt-worker.cc:2091-2162 | The loop leaves a state alone exactly if no broken package has an unsatisfied group with a softly deleted direct target, whatever packages that are not broken name |
| SoftProofs.PutBackIsNamed | src/apt-worker.cc:2091-2162 | A package is put back only if at some point on the way it was softly deleted and named by a broken package |
| SoftProofs.PassInOrder | src/apt-worker.cc:2101-2160 | A pass visits the packages one after the other |
| BlameProofs.RemovalShape | src/apt-worker.cc:2513-2542 | A planned removal selects nothing new; all it deletes but the requested package is soft, auto-installed, installed, not the user's, and reachable |
| BlameProofs.RemovalNamesRoot | src/apt-worker.cc:2513-2542 | Every lost group of a package broken by a removal was satisfied by the current version of the requested package, or by a provider that was dragged along and is deleted |
| BlameProofs.RemovalBlamesProviders | src/apt-worker.cc:2513-2542 | For every database, whatever is broken already: a package that stays and is not broken now is broken by the planned removal exactly if the absence of the requested package and of the deleted providers it uses would break it, so no other dragged-along package is to blame; one that is broken already is broken by the same absence if it stays broken |
| BlameProofs.RemovalBlamesRoot | src/apt-worker.cc:2513-2542 | Provided that no provider it critically uses is dragged along, a package that stays and is not broken now is broken by the whole planned removal exactly if removing the requested one alone would break it |
| BlameProofs.StayAwayIsDeleted | src/apt-worker.cc:2091-2162 | Packages that are dragged along and named only by each other and the requested one are never put back |
| BlameProofs.RemovalBlames | src/apt-worker.cc:2513-2542 | Decided before the removal: if the providers that are dragged along stay away for good, a package that stays and is not broken now is broken exactly if removing these and the requested one would break it |
| BlameProofs.DraggedProviderIsToBlame | src/apt-worker.cc:2513-2542 | The converse: a package all of whose versions in use for a group stay away is broken, though the requested package alone does not affect that group |
| BlameProofs.NeededIsRootsFault | src/apt-worker.cc:3182-3286 | Unless a provider in use is dragged along, a package is reported as needed by others exactly if its removal alone would newly break one that stays; else it is removable; a system update among the deleted ones is reported before either |
| BlameProofs.NeededByThoseThatStay | src/apt-worker.cc:3182-3286 | The same with providers that are dragged along for good counted with the requested package |
| BlameProofs.NeededByProviders | src/apt-worker.cc:3182-3286 | For every database, whatever is broken already: it is reported as needed exactly if removing it and the deleted providers would newly break a package that stays, unless a system update goes with it |
| BlameProofs.ProvidedLibraryIsNotPutBack | src/apt-worker.cc:2134-2157 | A database in which a dragged-along provider is not put back, and is to blame: why the condition on providers is needed |
| InstallProofs.InstallNoSurprise | src/apt-worker.cc:2232-2380 | Every recursive step of an installation keeps the invariant: whatever is deleted is soft and either displaced, that is conflicted with through a non-user version and replaced by one version some package ends up with, or reached from a displaced package through hard dependencies on installed non-user packages; whatever is selected is related |
| InstallProofs.NoSurpriseInstall | src/apt-worker.cc:2382-2467 | From a reset cache installing a package or all system upgrades deletes only displaced packages and what these drag along, softly, and none that a broken package names in an unsatisfied group |
| InstallProofs.UserPackagesStay | src/apt-worker.cc:2232-2417 | An installation removes an installed user package only if that is displaced, so none if no such package is |
| InstallProofs.UserPackageDisplaced | src/apt-worker.cc:2362-2377 | Decided before the call, in every state: removing what conflicts deletes an installed user package exactly if the installing package replaces it and one of its versions outside the user sections comes up before a removal takes the installing package itself along |
| InstallProofs.UserPackageDisplacedBy | src/apt-worker.cc:2362-2377 | When the installing package is not auto-installed and conflicts with no version of its own, that is exactly if it replaces the user package and some conflicting version of that is outside the user sections |
| InstallProofs.GroupRemoves | src/apt-worker.cc:2300-2377 | In any state an unsatisfied negative group removes what conflicts with its last alternative, but only for conflicts and obsoletes and only if no alternative suits the candidates; else it changes nothing |
| InstallProofs.GroupDisplaces | src/apt-worker.cc:2300-2377 | So such a group removes an installed user package exactly if the guard does |
| InstallProofs.MixedSectionsRemovesUserPackage | src/apt-worker.cc:2360-2377 | A database in which the sections disagree and an installation removes an installed user package |
| InstallComplete.InstallSelects | src/apt-worker.cc:2232-2417 | If what the package needs, followed through what its groups choose, is no more than the recursion limit of 100, is only improved by upgrades and is in conflict with nothing installed or selectable, planning deletes nothing and selects its candidate and otherwise only what a group of it or of another selected package chooses: the package of the first alternative that the candidates satisfy, the target itself before the best ranked provider, marked as automatic exactly if the target is not installed; and all groups of selected packages that are looked at are satisfied if candidates can do that |
| InstallComplete.InstallSelectsWithin | src/apt-worker.cc:2232-2417 | The same within any set of packages that is benign and has what its members choose |
| InstallComplete.GroupInstalls | src/apt-worker.cc:2300-2355 | In any state an unsatisfied positive group that is looked at installs the package of its first alternative that the candidates satisfy, the target before the best ranked provider, and marks it as automatic unless the target is installed |
| InstallComplete.InstallHasReasons | src/apt-worker.cc:2232-2358 | Every recursive step selects only what groups choose, and changes no other auto flag |
| InstallComplete.WhatIsConsidered | src/apt-worker.cc:2291-2298 | Critical groups are looked at always, others only for a package that is not installed and if the configuration makes them important |
| InstallComplete.SelectedIsRepaired | src/apt-worker.cc:2246-2251 | Installing a selected package again repairs it if it is broken, and selects nothing otherwise |
| UpgradeProofs.UpgradeSelectsSystem | src/apt-worker.cc:2419-2438 | If the needs of the installed packages outside the user sections are no trouble, planning all upgrades deletes nothing, each of these packages ends with its candidate, and only their needs are selected, each for a reason |
| UpgradeProofs.OthersKeepTheirVersion | src/apt-worker.cc:2419-2438 | A package that none of them needs keeps its version |
| RelatedProofs.RelatedIsReachability | src/apt-worker.cc:1993-2024 | A version makes its package related and, as long as anything is not settled, exactly those installed packages besides that can be reached from it through dependencies of any kind past packages that are not related yet |
| Simulations.SimulatedRemoval | src/apt-worker.cc:2513-2542 | Whatever the cache represented before, simulating a removal deletes the package for good if it is installed, and otherwise only what it dragged along, softly; what was dragged along and is kept was named by a broken package; nothing is selected; and the status reported says whether removing the package and the deleted providers newly breaks one that stays |
| Simulations.SimulatedInstallation | src/apt-worker.cc:2443-2467 | Whatever the cache represented before, simulating an installation by name selects what the package needs, as above |
| Simulations.SimulatedUpgrade | src/apt-worker.cc:2443-2467 | The same for all system upgrades |
| Simulations.SimulatedNoSurprise | src/apt-worker.cc:2443-2467 | Whatever the dependencies are like, nothing is deleted by surprise, and an unknown name plans nothing |
| Simulations.SimulatedInstallationBreaks | src/apt-worker.cc:2048-2063 | An installation is found to break something exactly if it newly breaks a package or leaves a related one broken; if it is not, all that it selects is whole |
| Memo.ResetAllResets | src/apt-worker.cc:2031-2079 | Resetting package by package gives the reset state from every reachable state |
| Memo.StepAgrees | src/apt-worker.cc:1882-1896 | One simulated operation or reset keeps the memo and the cache in agreement |
| Memo.MemoAgrees | src/apt-worker.cc:1882-1896 | After any sequence of simulations and resets, modes and flags are those of the last operation alone on a reset cache, and the memo names it |
| Memo.AutoremoveLeavesLeftovers | src/apt-worker.cc:4985-5051 | After an automatic removal gives up, whatever was recorded, the memo still agrees exactly if the plan already removed all garbage; the recorded operation is then answered with the leftovers, another one properly, and one on a cache without a record is planned on top of them |
| PackageCache.Cache.CacheReset | src/apt-worker.cc:2065-2079 | The reset in place forgets the operation and leaves the reinstall flags |
| PackageCache.Cache.CheckCacheState | src/apt-worker.cc:1882-1896 | The cache is reset exactly if it represents another operation, and then records the new one |
| PackageCache.Cache.MarkRelated | src/apt-worker.cc:1993-2024 | The recursion in place relates what the function says, and flags for reinstallation exactly the newly related packages that must be unpacked |
| PackageCache.Cache.MarkForRemove1 | src/apt-worker.cc:2472-2511 | The recursion in place makes of modes and flags what the function says |
| PackageCache.Cache.FixSoftPackages | src/apt-worker.cc:2091-2162 | The loop in place, with its changed flag, reaches the same fixpoint |
| PackageCache.Cache.MarkForInstall1 | src/apt-worker.cc:2232-2380 | The installation in place makes of modes and flags what the function says and does not touch the memo |
| PackageCache.Cache.MarkSysUpgrades | src/apt-worker.cc:2419-2438 | The walk over all packages in place, including the undoing of soft removals |
| PackageCache.Cache.MarkNamedPackageForInstall | src/apt-worker.cc:2443-2467 | Simulating by name in place; from an agreeing memo what is left is the installation of the package, or all system upgrades, or nothing for an unknown name; and exactly when the answer is that the package was found |
| PackageCache.Cache.MarkForRemove | src/apt-worker.cc:2513-2542 | Simulating a removal in place and recording it; from an agreeing memo the package is deleted for good, and the status reported is that of the removal |
| WorkerClient.MaybeSend | src/apt-worker-client.cc:490-514 | Sending never makes more work: the weight of the calls left does not grow, so re-entrant callbacks come to an end |
| WorkerClient.MaybeSendFifo | src/apt-worker-client.cc:490-514 | Sending keeps the calls in order, leaves none waiting while a ready frontend is idle, and makes at most one call active by exactly one request |
| WorkerClient.IssueFifo | src/apt-worker-client.cc:518-561 | A call, with whatever its callback issues, keeps all calls in order and leaves none waiting |
| WorkerClient.FailureFinishesAll | src/apt-worker-client.cc:192-208 | When the worker fails every call issued so far has been called back, the open ones without a reply, and nothing more is sent |
| WorkerClient.ResponseFifo | src/apt-worker-client.cc:577-639 | For any message: the first one starts sending; a reply finishes just the active call if it names that, and is else counted and ignored; a status message finishes none |
| CallbackProofs.CallsAreAccountedFor | src/apt-worker-client.cc:441-639 | In every run the calls made, accepted or refused, are exactly those of the user and, for every finished or refused call, those of its callback with a reply or without |
| CallbackProofs.WhatIsSentWasIssued | src/apt-worker-client.cc:490-561 | In every run the active call, the pending ones and the requests in the pipe carry what was issued under their numbers |
| CallbackProofs.CallbacksIssueInOrder | src/apt-worker-client.cc:441-639 | In every run up to a failure the calls of the callback of each finished call have been issued after it, in their order |
| CallbackProofs.AnswerIssues | src/apt-worker-client.cc:616-639 | An answer issues the calls of the callback in order, the first of them with the next number; and exactly these if no call has to be cancelled meanwhile |
| Protocol.StepOk | src/apt-worker-client.cc:441-639 | Each step of frontend, pipes and worker keeps the invariant of the whole system |
| Protocol.OneRequestUnderWay | src/apt-worker-client.cc:490-514 | In every run with a live worker the requests and replies on their way and the request in hand are together exactly the active call, and no reply was ever out of sequence |
| Protocol.CallbacksExactlyOnce | src/apt-worker-client.cc:441-639 | In every run callbacks have run once each for the calls 0, 1, 2, ... in order; the rest are the active call and then the pending ones; after a failure none is left |
| Protocol.StaleCancelsHitNothing | src/apt-worker.cc:1166-1186 | In every run a cancel byte aborts only the request whose call was active when it was written |
| Protocol.CancelAborts | src/apt-worker-client.cc:369-378 | In every run a cancel while a request is being handled aborts it at the next poll; before the worker is ready, or after its failure, it has no effect |
| Protocol.ActiveCallCanFinish | src/apt-worker-client.cc:577-639 | In every run with a live worker the active call gets its reply once the worker has read and answered and the frontend has read on, so the conversation never gets stuck |
| Protocol.AnswersArriveInOrder | src/apt-worker.cc:1000-1046 | In every run up to a failure the replied calls and the replies on their way are what the worker answered, in its order |
| Protocol.StatusFinishesNothing | src/apt-worker-client.cc:616-623 | In every run a status message answers no call, and changes nothing at all once the worker is known to be ready |
| Frontend.PendingQueue.Append | src/apt-worker-client.cc:557-558 | Linking in through the pointer to the tail appends to the queue |
| Frontend.PendingQueue.GetNext | src/apt-worker-client.cc:466-478 | Unlinking takes the first call and moves the pointer to the tail back when the queue gets empty |
| Frontend.Frontend.MaybeSendOneWorkerCall | src/apt-worker-client.cc:490-514 | The loop over the linked queue, re-entered by callbacks, does what the function says |
| Frontend.Frontend.CallAptWorker | src/apt-worker-client.cc:518-561 | Queuing and sending in place; without a worker the callback runs at once |
| Frontend.Frontend.NoticeAptWorkerFailure | src/apt-worker-client.cc:192-208 | Failure in place: the active call and then all pending ones are called back |
| Frontend.Frontend.HandleOneAptWorkerResponse | src/apt-worker-client.cc:577-639 | The message handled in place does what the function says: readiness, the sequence test, the callback and the next send |
| WireProofs.IntRoundTrip | src/apt-worker-proto.cc:104-108 | Every 32-bit integer comes back from its four bytes |
| WireProofs.StringReads | src/apt-worker-proto.cc:236-256 | A string, null or UTF-8 without NUL, is read back where it lies and left as it is; if a part of it is missing the data is found corrupted |
| WireProofs.XexpReads | src/apt-worker-proto.cc:273-296 | An x-expression of any depth is read back; if a part of it is missing the decoder aborts exactly if the first missing block is the start of a child or of a text, and else finds the data corrupted |
| WireProofs.CorruptedStays | src/apt-worker-proto.cc:198-218 | Once corrupted, the decoder stays so and does not move whatever is decoded |
| WireProofs.WireRoundTrip | src/apt-worker-proto.cc:88-161 | Any sequence of fields is decoded to the same sequence, without corruption, at the end of the data |
| WireProofs.AtEndAfterLastField | src/apt-worker-proto.cc:186-190 | The end is reported exactly after the last field |
| WireProofs.FieldAligned | src/apt-worker-proto.cc:88-96 | Every field takes a multiple of four bytes |
| WireProofs.TruncationNoticed | src/apt-worker-proto.cc:198-296 | On every strict prefix the decoder ends with the data found corrupted, except exactly where the first missing block is vital |
| WireProofs.PlainTruncationNoticed | src/apt-worker-proto.cc:198-256 | Without x-expressions every strict prefix is found corrupted |
| WireProofs.TruncatedChildAborts | src/apt-worker-proto.cc:284-291 | Every list with children, cut off right before the first child, brings the decoder down |
| WireFormat.StringEncoding | src/apt-worker-proto.cc:118-134 | Strings byte by byte: length, bytes, NUL and padding, and -1 for none |
| WireFormat.XexpEncoding | src/apt-worker-proto.cc:136-161 | X-expressions byte by byte: the tag, then -1 and the text or the number of children and the children |
| WireFormat.StringReadIsUtf8 | src/apt-worker-proto.cc:236-256 | Whatever the data, a string read in place is UTF-8 and as long as what is there; unless that is UTF-8 already its bytes above 127 have become question marks, and nothing else changes |
| WireFormat.EndIsKnown | src/apt-worker-proto.cc:198-218 | Whatever the data and whatever is read from it, the end is reported exactly if everything has been read or the data found corrupted |
| Utf8Proofs.Utf8Exactly | src/apt-worker-proto.cc:248-253 | The test accepts exactly the encodings of sequences of Unicode code points |
| WireBuffers.Encoder.Grow | src/apt-worker-proto.cc:68-86 | Room for the bytes to come, with the contents kept when the buffer moves |
| WireBuffers.Encoder.EncodeMemPlusZeros | src/apt-worker-proto.cc:88-96 | Appends the bytes and their padding within the capacity |
| WireBuffers.Encoder.EncodeXexp | src/apt-worker-proto.cc:136-161 | Appends the blocks of the x-expression, in order |
| WireBuffers.Decoder.DecodeMem | src/apt-worker-proto.cc:198-218 | Moves the position and the flags as the function says and yields the bytes |
| WireBuffers.Decoder.DecodeStringInPlace | src/apt-worker-proto.cc:236-256 | Reads in place, replacing the bytes of a string that is not UTF-8 |
| WireBuffers.Decoder.DecodeXexp | src/apt-worker-proto.cc:273-296 | The children consed and then reversed are those of the function, in order |
| XmlProofs.UnescapeEscape | src/xexp.c:726-739 | Escaping and then reading a text gives it back with its line ends normalised |
| XmlProofs.XmlNormalizes | src/xexp.c:530-642 | Parsing what is printed gives back every tree with its texts normalised; indentation is stored as text and dropped when a child opens |
| XmlProofs.XmlRoundTrip | src/xexp.c:726-784 | The round trip through XML is exact if and only if no text has a carriage return |
| XmlFormat.Layout | src/xexp.c:752-784 | One element in a line, indented by its depth up to 16, with special and control characters as references |
| XmlFormat.TextBeforeChild | src/xexp.c:565-591 | A text in front of a child is refused, whatever follows |
| XmlFormat.TextAfterChild | src/xexp.c:613-634 | So is a text behind a child |
| XmlFormat.WrongClosingTag | src/xexp.c:593-611 | So is a closing tag with another name |
| XmlFormat.MoreIsNotClosed | src/xexp.c:645-694 | A whole element and one that is not closed make no x-expression |
| XmlFormat.SecondRun | src/xexp.c:613-634 | A second run of text in an element must be white, and is dropped |
| XmlStreams.Stream.Write | src/xexp.c:752-784 | Walking the nodes of an owned tree prints what the tree represents |
| XmlNodes.Reader.StartElement | src/xexp.c:565-591 | The new node becomes the first child of the still open parent, whose white space is dropped; ownership and the nesting of the stack are kept |
| XmlNodes.Reader.EndElement | src/xexp.c:593-611 | Reversing the children in place finishes the node with the value that the callback on values yields |
| XmlNodes.Reader.TextRun | src/xexp.c:613-634 | An empty node becomes a text; elsewhere only white space is accepted |
| XmlNodes.Reader.Read | src/xexp.c:645-694 | Reading yields null exactly where parsing fails, and else the root of an owned tree that represents the parsed x-expression |
| XmlNodes.FinishedRepresents | src/xexp.c:593-611 | A finished node is the root of a tree that represents its value, to any depth |
| XexpHeap.Cons | src/xexp.c:273-280 | Linking in front keeps ownership and puts the node before the children |
| XexpHeap.Append1 | src/xexp.c:282-293 | The walk to the end keeps ownership and puts the node after the children |
| XexpHeap.Reverse | src/xexp.c:311-328 | Reversing the links keeps ownership and reverses the children |
| XexpHeap.Pop | src/xexp.c:352-366 | Takes the first child off, which becomes free-standing, or yields null |
| XexpEdits.Append | src/xexp.c:295-309 | All children of one list become the last children of another, and the emptied list is the only node freed |
| XexpEdits.Del | src/xexp.c:330-350 | Exactly one child goes, with exactly the nodes below it freed; a node that is not a child changes nothing |
| XexpEdits.Adel | src/xexp.c:509-528 | All children with the tag go, with exactly the nodes below them, and the others keep their order |
| XexpEdits.Aset | src/xexp.c:476-481 | The new value is the only child with its tag and comes first; the others keep their order |
| XexpEdits.AsetBool | src/xexp.c:483-490 | A set flag is a new empty child in front, a cleared one is gone |
| XexpEdits.Aref | src/xexp.c:421-435 | The first child with the tag, or null exactly if there is none |
| XexpEdits.Sort | src/xexp.c:117-168 | The same nodes, relinked in the order of the stable sort, with ownership kept; a text is refused |
| XexpEdits.OthersConcat | src/xexp.c:509-528 | Removing a tag looks at each child on its own, so order is kept across any split |
| XexpEdits.UpdateTwice | src/xexp.c:476-481 | Updating a tag twice is updating it once with the second value, the only child with that tag |
| StableSorts.SortSorts | src/xexp.c:117-168 | The sort is ordered, a permutation, and keeps the order of equals, for every comparison function that is a total preorder on the children |
| StableSorts.SortIsUnique | src/xexp.c:139-141 | Any other stable sorting algorithm has the same result |
| Tokens.TokensEqual | src/confutils.cc:89-121 | True exactly if both strings have the same words, a missing string having none |
| Tokens.SameWordsSameForm | src/confutils.cc:84-88 | The same words means the same string after trimming and collapsing white space |
| Components.ComponentsEqual | src/confutils.cc:214-277 | True exactly if both have no components, or the longer list is included in the shorter |
| Components.WhenDifferencesAreMissed | src/confutils.cc:222-269 | The comparison misses a difference exactly if the longer list names a proper part of the shorter, which takes a duplicate |
| Components.SameComponents | src/confutils.cc:151-277 | For duplicate-free lists separated by single blanks it is equality of sets |
| Components.StripWords | src/confutils.cc:151-212 | Stripping white space at the ends does not change the words |
| Components.WhenOrderMatters | src/confutils.cc:222-269 | The answer depends on the order of the two lists exactly if they are equally long and one names a proper part of what the other names, which takes a duplicate |
| Components.WhenStepsDoNotCompose | src/confutils.cc:222-269 | Three lists are compared against transitivity exactly if the longer of the outer ones has a component that the other lacks, and the middle one is longer than the first and no shorter than the last, with nothing that either lacks, or no longer than the first and shorter than the last, with all that both have; that takes a duplicate |
| Components.DuplicatesBreakSymmetry | src/confutils.cc:222-269 | Two lists for which the answer depends on their order |
| CatalogueEquality.CatalogueEqual | src/confutils.cc:279-317 | Package catalogues are compared by file and id, any others by address without trailing slashes, actual distribution and components, all up to white space |
| CatalogueEquality.DistributionsByWords | src/confutils.cc:279-317 | A distribution counts by its words, and a missing or blank one stands for the default |
| CatalogueEquality.UserCataloguesByKey | src/confutils.cc:279-317 | Unless both come from packages, two catalogues are equal exactly if they have the same address, distribution and set of components, or the same address and distribution and a longer list of components that names a proper part of what the shorter one names, which takes a component named twice |
| CatalogueEquality.SameIsSymmetric | src/confutils.cc:279-317 | Equality is reflexive; it depends on the order exactly if the catalogues do not both come from packages, have the same address and distribution, and equally long lists of components of which one names a proper part of what the other names |
| CatalogueEquality.WhenTransitivityFails | src/confutils.cc:279-317 | Transitivity fails exactly if a catalogue of the user is like two package catalogues with different keys, or like one but not the other of two with the same key, or no two come from packages, address and distribution are the same, and the list of components in the middle misleads |
| CatalogueEquality.SameIsTransitive | src/confutils.cc:279-317 | Transitivity holds if no two of the catalogues come from packages and the last two name no component twice |
| CatalogueEquality.PackagesBreakTransitivity | src/confutils.cc:279-317 | Two different package catalogues that both equal one of the user |
| CatalogueEquality.DuplicatesBreakTransitivity | src/confutils.cc:222-269 | Three catalogues of the user for which transitivity fails |
| Catalogues.FindPackage | src/confutils.cc:413-433 | The first catalogue with the key, ignoring ASCII case; a missing file or id finds none |
| CatalogueProofs.SameKeys | src/confutils.cc:413-433 | Catalogues have the same key exactly if both have a file and an id and these agree but for the case of ASCII letters |
| CatalogueProofs.PackagesByFilter | src/confutils.cc:498-521 | From the package files exactly those entries are read that have an id and name no distribution to filter by or the actual one, each with the name of its file |
| CatalogueProofs.UsersByFilter | src/confutils.cc:524-555 | Of the entries of the user that refer to no package exactly those are read that name no distribution to filter by or the actual one |
| CatalogueProofs.Persistence | src/confutils.cc:524-602 | Reading what was written gives the package catalogues in order, each with the flag of the last entry that refers to it, then the user's valid catalogues in order |
| CatalogueProofs.RereadIsSame | src/confutils.cc:524-602 | For any package files, reading, writing and reading again is the identity, but for the place of the flag, exactly if every entry of the user has the tag written and each first catalogue with a key has the flag of the last entry written for that key |
| CatalogueProofs.DistinctAreSettled | src/confutils.cc:524-602 | With distinct keys that holds unless a package catalogue of another tag has a changed flag |
| CatalogueProofs.FileIsStable | src/confutils.cc:524-602 | For any package files, reading the file and writing it again gives the same file exactly if each written first catalogue with a key has the flag of the last entry for that key |
| CatalogueProofs.SameKeysAreMixedUp | src/confutils.cc:546-550 | With equal keys the first package catalogue takes the flag of the second |
| CatalogueProofs.PackageCataloguesAreKeyed | src/confutils.cc:498-521 | Every catalogue read from the package files is valid, can be referred to, and names the file that it comes from |
| CatalogueDisk.PersistenceOnDisk | src/confutils.cc:557-602 | The same persistence through the XML text of the file |
| CatalogueFiles.CatalogueList.AddPackageCatalogues | src/confutils.cc:498-521 | Popping one list empty and appending to the other does what the function says |
| CatalogueFiles.CatalogueList.FindPackageCatalogue | src/confutils.cc:413-433 | The search loop stops where the function says |
| CatalogueFiles.CatalogueList.AddUserCatalogues | src/confutils.cc:524-555 | Appending the user's own and setting the flags of the others in place |
| CatalogueFiles.ReadCatalogues | src/confutils.cc:557-566 | All package files in turn, then the user's file if there is one |
| CatalogueFiles.WriteUserCatalogues | src/confutils.cc:568-602 | References for package catalogues and copies of the user's own, nothing else |
| Merging.CataloguesAreEqual | src/hildon-application-manager-merge-catalogues.cc:101-110 | Equality is equality of the words of three fields, hence an equivalence |
| Merging.FindCatalogue | src/hildon-application-manager-merge-catalogues.cc:112-123 | The first entry with tag and key, or none |
| Merging.MergeCatalogues | src/hildon-application-manager-merge-catalogues.cc:146-167 | The loop in place, which empties the merged list, does what the function says |
| Merging.MergeIsOverride | src/hildon-application-manager-merge-catalogues.cc:146-167 | With distinct keys the result is what no valid entry replaces, in its old order, then the last valid entry for each key; keys stay distinct |
| Merging.MergeByFilter | src/hildon-application-manager-merge-catalogues.cc:146-167 | With distinct keys a catalogue is in the result exactly if it was there and no entry for the distribution has its key, or is the last such entry with its key |
| Merging.MergeUpdatesMap | src/hildon-application-manager-merge-catalogues.cc:146-167 | Seen as a map from keys the merge is the update by the valid entries, the last one winning |
| Trust.DomainNeverFalls | src/apt-worker.cc:5271-5330 | While sources are scanned the level of the new domain never falls |
| Trust.ScanEndsAtBest | src/apt-worker.cc:5271-5330 | It ends at the highest source level for a new package, and for an upgrade whenever that reaches the current level; else the domain stays unsigned |
| Trust.OnlyBestAreKept | src/apt-worker.cc:5402-5436 | Exactly when only the most trusted sources are kept |
| Trust.UpgradeKeepsFirst | src/apt-worker.cc:5402-5436 | Up to the current level the first source is kept, and below it all are |
| Trust.KeptFiles | src/apt-worker.cc:5402-5436 | Exactly which files are kept when the best level is above zero: all of the deciding domain, and for an upgrade to just the current level those scanned before the deciding file |
| Trust.DecidedDomain | src/apt-worker.cc:5271-5330 | The new domain is that of the first file of the best level that counts; at level zero of the first that is not unsigned |
| Trust.DomainIsDecided | src/apt-worker.cc:5271-5330 | A new domain other than the unsigned one is that of such a file |
| Trust.NotCertifiedMeansNoCertifiedSource | src/apt-worker.cc:5332-5365 | A package to be installed or upgraded is reported as not certified exactly if the file that decides about its domain is not certified, or there is none |
| Trust.OnePackage | src/apt-worker.cc:5345-5361 | About one package a missing certificate is reported before a violation, each at most once |
| Trust.ReportsInOrder | src/apt-worker.cc:5332-5365 | The packages are reported in their order |
| Trust.ViolationMeansNoSourceReaches | src/apt-worker.cc:5332-5365 | A violation is reported for an upgrade exactly if the current domain has some trust and no source reaches its level |
| Trust.TrustInfo.ResetNewDomains | src/apt-worker.cc:5245-5255 | All new domains are unsigned afterwards |
| Trust.TrustInfo.IndexTrustLevelForPackage | src/apt-worker.cc:5271-5330 | Updates the domain of one package in place and yields the level that counts |
| Trust.TrustInfo.TrustLevel | src/apt-worker.cc:5402-5436 | Scanning and collecting in place is the fold over the files |
| Trust.TrustInfo.EncodeTrustSummary | src/apt-worker.cc:5332-5365 | The reports of all packages in order, and the end mark; what is reported is said by the rows above |
| Descriptions.NicifyDescriptionInPlace | src/details.cc:248-284 | The in-place loop with its three pointers leaves the cleaned-up string, NUL-terminated, and nothing else changed beyond it |
| Descriptions.DotTest | src/details.cc:273-278 | The test that reads the overwritten buffer is true exactly for a " ." line that has been moved |
| Descriptions.NicifyByLines | src/details.cc:254-260 | Every line is dedented, and a terminated " ." line is emptied exactly if something was dropped before it |
| Descriptions.NicifyIsTidy | src/details.cc:248-284 | The clean-up equals the line-by-line specification exactly if the first line with a leading blank is not a terminated " ."; then it has just that dot too many |
| Base64.RoundTrip | src/util.cc:3110-3194 | Any bytes come back from their encoding, with any bytes in between that are neither in the alphabet nor NUL, and whatever follows a NUL |
| Base64.DecodeEncode | src/util.cc:3110-3194 | Decoding inverts the encoding of RFC 4648, section 4, from any leftover digit |
| Base64.Decode64 | src/util.cc:3141-3194 | The chunks handed over make up what is decoded up to the first NUL, all full but the last; after a failed write a prefix of that |

## Left out

* libapt-pkg itself: policy, ordering, downloads, dpkg runs and the problem resolver; the
  planner runs with the project's own algorithm, not with apt's.
* `mark_related` for a package without a candidate: the model relates nothing then.
* A kept package that must be unpacked but cannot be downloaded is kept like any other.
* Domains: how an index is assigned to one, and the marking of files as no source, which
  lasts beyond one version.
* The graphical frontend, D-Bus, configuration of the network and the install dialogs.
* Files, fifos, locks and processes: a pipe is a sequence and a write succeeds or fails.
  Sequence numbers and sizes do not wrap around.
* The data of requests and replies in the protocol; the status callback makes no calls.
* Negative lengths other than -1 in the binary encoding are taken as corruption, and a read
  behind the end of the buffer stops at the end. The machine is little-endian.
* Encoded strings must be UTF-8, as the header of the protocol asks.
* The tokenizer of GMarkup beyond what printed x-expressions need: attributes, comments,
  entities other than the predefined ones and character references in decimal.
* `CatalogueFiles.CatalogueList.AddUserCatalogues`: lists of catalogues are sequences of
  values, so that a flag is set through an index and not through a pointer into the list.
* `XexpEdits.Del`: freed nodes drop out of the owned ones; the walk of `xexp_free` over them
  is not modelled. Neither are `xexp_copy`, `xexp_list_filter` and `xexp_list_map`.
* `XexpEdits.Sort`: comparison functions that are not total preorders.
* `InstallComplete.InstallSelects`: an installation that runs into a conflict, is made worse
  by an upgrade, or may need more packages than the recursion limit can stay incomplete.
* `BlameProofs.RemovalBlames`: which of the dragged-along providers are put back, where that
  depends on the order in which broken packages are visited.
* `InstallProofs.UserPackagesStay`: whether a displaced user package does go depends on the
  order in which packages are selected; only the step that removes what conflicts is decided
  in both directions.
* `BlameProofs.RemovableStatus`: the answer for `magic:sys`, which is never planned as a
  removal, and how a version gets the system update flag.
* `Merging.MergeIsOverride`: a system list with equal keys loses only the first match.
* The output of sources.list and the backup files.
* Red-pill settings, sorting preferences, translations and icons.
