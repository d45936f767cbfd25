# Keysas in Dafny

A model of the decision-making parts of Keysas, the USB decontamination station, and of its
endpoint firewall, with proofs of what they guarantee.

- The station scans files: an ISO 9660 walker (`Iso`, `IsoImage`, `IsoNames`), a PDF sanitizer that
  edits a cyclic object graph (`PdfSanitizer`, `PdfActions`), keyword, string and entropy scanners
  (`Occurrences`, `LnkStrings`, `Entropy`), and a reputation cache (`VtCache`).
- It turns scan outcomes into verdicts, signed reports and an output directory that is read back
  for the user (`Transit`, `FileReport`, `FileReportExample`, `Pipeline`, `PipelineLaws`), and
  reports progress (`Progress`, `TransitProgress`).
- The firewall authorizes devices by a signature block on the raw disk (`Base64`, `Utf8Laws`,
  `SignedBlock`, `SignedBlockLaws`), tracks them under one mutex (`Controller`, `ControllerRuns`,
  `ControllerBlocked`, `ControllerMarks`), answers file-access events (`Fanotify`), and on Windows
  guards files in a minifilter with reader/writer locks (`Resource`, `Minifilter`,
  `MinifilterPending`, `MinifilterQuiet`, `MinifilterFailures`, `PortNotify`).

Code that changes state is a class or a loop with invariants, proved equal to a function of the
old state; the laws are lemmas about those functions. Where a law could hold only because both its
sides use the same definition, a second one tells the outcome by bytes, names, texts or events
alone (`IsoNames`, `PdfActions`, `MinifilterQuiet`, `ControllerBlocked`, `Utf8Laws`). Concurrency
is a transition system whose steps are single lock holds (the controller) or single accesses to
shared data by any number of threads (the minifilter). Signatures, hashes, JSON and X.509 are
parameters. Their ideal properties (no collision, no signature valid for two messages, no forgery)
are assumed only of the finitely many texts in play in one argument, of the two signature schemes
for one alone where that suffices, and `FileReportExample` meets all of them at once. I/O is an
outcome passed to a step. `dafny verify dfyconfig.toml` checks the project.

Where the code does not meet an expected property for all inputs, the exact condition is proved:

- progress can exceed 100 percent when one name is queued twice (`Progress.AddIsSafeExactly`);
- a cached reputation answer differs from the fresh one for unknown files under threshold zero
  (`VtCache.CachedAnswerIsRecent`);
- the reason shown for a refused file blames the digest when a scanner failed without a finding
  (`PipelineLaws.ReasonIsTrueExactly`; an antivirus that cannot be run is such a case,
  `Transit.AntivirusOutageBlamesDigest`);
- the list is unfaithful in modes that do not report failures, and for names that look hidden, like
  checksums or like reports, hold a line break, or clash with a report of another file
  (`PipelineLaws.ListIsFaithfulExactly`, with `HiddenFileIsMissing`, `KrpNamedFileIsMisreported`
  and `UnreportedFailureIsWrong` beside it);
- an image can hold files that the walker does not list, beyond 8 levels or 4096 files
  (`IsoImage.ImageIsListedExactly`; `DeepExecutableIsMissed`);
- two devices share an identity when a field holds a slash
  (`SignedBlockLaws.IdentityIsUniqueExactly`);
- a zero-length block is broken for one daemon and absent for the other
  (`SignedBlockLaws.ZeroedDiskVerdicts`);
- the minifilter lets a file through while its authorization is pending, which the code marks as a
  state that should not happen (`MinifilterPending.DecisionExactly`,
  `PendingFileIsLetThrough`);
- the two device tables share a key when a mounted node is added again
  (`ControllerMarks.SharedKeyExactly`, `AddedTwiceSharesKey`), and a removal then leaves an
  allowance behind (`ControllerRuns.RemovalDropsExactly`).

The code, not its comments, is followed where they disagree: a directory record needs 34 bytes,
not 33; only a report that can be parsed makes a copied file invalid; a failed write to the system
leaves an override in force.

## Model

| member | source | states |
|---|---|---|
| Iso.Walker.WalkDir | keysas-core/src/keysas-analyze/analyzers/iso.rs:100-176 | The recursive walk terminates on every image, stays in bounds, and leaves in the shared list exactly what the specification of the walk says. |
| IsoImage.ImageRoundTrip | keysas-core/src/keysas-analyze/analyzers/iso.rs:27-176 | For every tree of at most 4096 files nesting at most 8 directories below the root, laid out as ISO 9660 records with sector padding, the walker lists exactly its files in pre-order, and the image passes exactly when none of them has a listed executable or script extension. |
| IsoImage.ImageIsCapped | keysas-core/src/keysas-analyze/analyzers/iso.rs:27-176 | For every tree, however deep or large, the walker lists from its image the files of the tree in pre-order, passing over the directories it does not enter because of the caps. |
| IsoImage.ImageIsListedExactly | keysas-core/src/keysas-analyze/analyzers/iso.rs:100-108 | For every tree all its files are listed exactly when every directory with a file below it is entered within the caps. |
| IsoImage.DeepExecutableIsMissed | keysas-core/src/keysas-analyze/analyzers/iso.rs:100-108 | The image of a tree with an executable nine directories down passes. |
| IsoImage.WalkPlaced | keysas-core/src/keysas-analyze/analyzers/iso.rs:100-176 | One directory of a placed tree, at any depth and with any list collected so far, adds its files in pre-order, up to the two caps. |
| IsoImage.ScanLayout | keysas-core/src/keysas-analyze/analyzers/iso.rs:118-175 | Scanning a laid-out extent visits its records in order and skips the padding between sectors. |
| IsoImage.ParseEncoded | keysas-core/src/keysas-analyze/analyzers/iso.rs:131-157 | A record encoded by section 9.1 of ECMA-119 is read back with its name, location, size and kind. |
| Iso.WalkCountBound | keysas-core/src/keysas-analyze/analyzers/iso.rs:100-176 | On every buffer, from an empty list, at most 4095 + 9 * (length / 34) paths are collected, although the cap is tested only on entry. |
| Iso.ScanBound | keysas-core/src/keysas-analyze/analyzers/iso.rs:100-176 | What one directory can still add from a position on, given the list so far. |
| Iso.Analyze | keysas-core/src/keysas-analyze/analyzers/iso.rs:27-97 | An image fails exactly when some listed file has an executable or script extension; input that is not an image passes; the three finding lists hold exactly the files of their kind. |
| IsoNames.ListedPathsExactly | keysas-core/src/keysas-analyze/analyzers/iso.rs:146-171 | In the image of any tree every component of a listed path is a record name up to its first byte 0x3B with exactly the bytes 0x41 to 0x5A raised by 0x20, along a chain of records to a file, joined by slashes; within the caps every file is listed so. |
| IsoNames.ImageFailsExactly | keysas-core/src/keysas-analyze/analyzers/iso.rs:55-92 | Within the caps an image fails exactly when the path of some file ends, after a dot or as a whole, in one of eighteen words written out, in any case. |
| IsoNames.NamedExecutableFails | keysas-core/src/keysas-analyze/analyzers/iso.rs:55-158 | Any file named with a stem, a dot, one of these words in any case, a semicolon and any version makes the image fail, wherever it is in the tree. |
| IsoNames.BlockedExactly | keysas-core/src/keysas-analyze/analyzers/iso.rs:20-64 | A path counts as an executable or a script exactly when it ends in one of the words. |
| IsoNames.ImageBytes | keysas-core/src/keysas-analyze/analyzers/iso.rs:15-48 | The built image by bytes: sectors of 2048, the mark at 32769, location and size of the root at 32926 and 32934, its first record at 34816. |
| IsoNames.OnlyImagesList | keysas-core/src/keysas-analyze/analyzers/iso.rs:36-44 | Input too short or without the mark lists nothing and passes. |
| Minifilter.ProtocolIsSafe | keysas-firewall/minifilter/keysasFile.c:122-203 | After any interleaving of any number of create callbacks, volume updates and notifications, all callbacks that got a context have the attached one, at most one scan request was sent, no finished thread holds either lock, and both locks are free once all have finished. |
| Minifilter.StepKeepsInv | keysas-firewall/minifilter/keysasFile.c:399-541 | Every single step of every thread keeps the invariant that ties program counters, both locks, contexts and the scan together. |
| Minifilter.AuthorizationIsNeverForgotten | keysas-firewall/minifilter/keysasFile.c:410-486 | From any reachable state in which the authorization of the attached context is known, it is known after every further run. |
| Minifilter.DecisionIsNeverUnknown | keysas-firewall/minifilter/keysasFile.c:496-514 | In every reachable state a callback that decides does so on an authorization that is not unknown; it may be pending. |
| MinifilterPending.DecisionExactly | keysas-firewall/minifilter/keysasFile.c:399-541 | In every run, whatever was interleaved, notified or failed, a callback denies exactly when the volume as it was read blocks its files or the last word of the daemon was to block; it decides on a pending authorization exactly when the name hash, instance lookup, request or reply failed last or the last word was pending. |
| MinifilterPending.RunKeepsHistory | keysas-firewall/minifilter/keysasFile.c:426-486 | In every run the authorization of the file, the volume and what callbacks remember of it are those the history of the run tells, and work still under way has a thread that does it. |
| MinifilterPending.PendingFileIsLetThrough | keysas-firewall/minifilter/keysasFile.c:430-514 | A run of 16 events: a name hash fails, nothing is ever sent to be scanned, and the next callback is let through. |
| MinifilterQuiet.QuietRunDecides | keysas-firewall/minifilter/keysasFile.c:399-541 | In every run of create callbacks without failures, updates and notifications: a blocked volume, or one in no proper state, denies every finished callback without a scan; one that allows all denies none, without a scan, and leaves the file readable; any other has sent exactly one request, and every finished callback is denied exactly when its answer was to block. |
| MinifilterQuiet.QuietRunScans | keysas-firewall/minifilter/keysasFile.c:454-486 | In such a run nothing is ever sent for a volume that decides by itself. |
| MinifilterFailures.DeniedExactly | keysas-firewall/minifilter/keysasFile.c:496-541 | In every run a finished callback is denied exactly when it came to a decision and the authorization it saw there was to block. |
| MinifilterFailures.FailedCallbackIsLetThrough | keysas-firewall/minifilter/keysasFile.c:399-445 | From any state, a callback that meets a failed lookup, allocation, attachment, name hash or instance lookup is never denied, whatever happens afterwards; the failure itself changes no authorization and sends nothing. |
| MinifilterFailures.ScansAreCounted | keysas-firewall/minifilter/keysasFile.c:470-484 | The number of requests is that of callbacks whose sending succeeds, in every run. |
| MinifilterFailures.NotificationArrives | keysas-firewall/minifilter/keysasCommunication.c:212-244 | In every run in which the name of the file has been hashed, a notification sets its authorization and nothing else. |
| Minifilter.NoDeadlock | keysas-firewall/minifilter/keysasFile.c:399-541 | In every reachable state with an unfinished thread some thread can step, with the instance lock nested inside the file lock. |
| Minifilter.CallbacksAreBounded | keysas-firewall/minifilter/keysasFile.c:323-542 | In any run a callback takes at most 17 steps and a volume update at most 3. |
| Minifilter.OnlyOneClaim | keysas-firewall/minifilter/keysasFile.c:410-428 | The second test under the write lock lets only one callback claim the scan. |
| Minifilter.NotifiedKeeps | keysas-firewall/minifilter/keysasCommunication.c:212-244 | A notification changes at most the authorization of the attached context. |
| Resource.ReleaseUndoes | keysas-firewall/minifilter/keysasUtils.c:12-58 | Acquiring and releasing is the identity on the lock, nested or not, for both kinds of access, and releasing without access changes nothing. |
| Resource.Eresource.AcquireResourceWrite | keysas-firewall/minifilter/keysasUtils.c:12-25 | Exclusive access is taken exactly when the interrupt level and the current access allow it, and then excludes everyone else. |
| Resource.Eresource.AcquireResourceRead | keysas-firewall/minifilter/keysasUtils.c:30-41 | Shared access is taken exactly when the interrupt level allows it, and then excludes every other owner. |
| Resource.Eresource.ReleaseResource | keysas-firewall/minifilter/keysasUtils.c:47-58 | One level of access is given back, or nothing changes. |
| PortNotify.Notify | keysas-firewall/minifilter/keysasCommunication.c:205-329 | A file message sets the authorization of the first context with its identifier and of no other; any other message leaves all contexts alone; each malformed message is refused. |
| Controller.ServiceController.AuthorizeUsb | keysas-firewall/daemon/src/controller.rs:394-475 | The tables and result after authorizing a device, for all signatures and earlier entries; the pending mark never outlives the call. |
| Controller.ServiceController.OverrideBlockedUsb | keysas-firewall/daemon/src/controller.rs:489-532 | A blocked device is promoted exactly when the policy allows it and its place is known, even if the write to the system fails. |
| Controller.ServiceController.UpdateUsb | keysas-firewall/daemon/src/controller.rs:539-578 | The entry moves to the mounted table with its mount point and keeps its access; the mark follows. |
| Controller.ServiceController.RemoveUsb | keysas-firewall/daemon/src/controller.rs:615-645 | A mounted device leaves with its mark, an unmounted one leaves unless it is blocked. |
| Controller.ServiceController.UnplugUsbDevice | keysas-firewall/daemon/src/linux/usb_monitor.rs:379-410 | One lock hold removes exactly the unmounted devices below the unplugged path. |
| Controller.ServiceController.ForceRemoveUsb | keysas-firewall/daemon/src/controller.rs:604-608 | The entry leaves the unmounted table and nothing else changes. |
| Controller.ServiceController.RequestUsbUpdate | keysas-firewall/daemon/src/controller.rs:349-367 | Only the mark of a mounted device changes, and the call fails exactly when that device has no mount point or the mark call fails. |
| Controller.ServiceController.RecoverMountedDevices | keysas-firewall/daemon/src/controller.rs:977-1050 | Each present and mounted sentinel is restored with the access of the current policy, in order. |
| Controller.ServiceController.UpdateUsbAuth | keysas-firewall/daemon/src/linux/file_filter_if.rs:193-250 | A mark is added exactly for the three allowing accesses and removed otherwise; a failed call changes nothing. |
| ControllerRuns.AllowancesAreJustified | keysas-firewall/daemon/src/controller.rs:394-577 | In every interleaving of monitor, user requests and recovery: no device is pending between lock holds, no mounted device is blocked, write access and full access occur only under their policies, and each allowance was made by one event that is named: the addition of this very device with a block that admits it, a permitted override of this very device while it was tracked as blocked with a known place, or a sentinel; its entry has been there unchanged since, but for its mount. |
| ControllerRuns.StepKeepsInv | keysas-firewall/daemon/src/linux/usb_monitor.rs:333-558 | Each lock hold keeps the part about one state, including the gap between authorizing and recording the mount. |
| ControllerRuns.StepKeepsTraced | keysas-firewall/daemon/src/linux/usb_monitor.rs:333-558 | Each lock hold keeps the part about the history: a new allowance is made by that very event, an old one is unchanged or has just been mounted. |
| ControllerRuns.RemovalDropsExactly | keysas-firewall/daemon/src/controller.rs:615-645 | A removal drops an allowed unmounted entry exactly when the node is not mounted as well; a mounted entry it always drops. |
| ControllerRuns.RemovalSurvivedMeansShared | keysas-firewall/daemon/src/controller.rs:615-645 | In every run an allowance that outlives the removal of its node shared its key with a mounted device at that moment. |
| ControllerBlocked.BlockedStep | keysas-firewall/daemon/src/controller.rs:615-645 | A blocked device stays tracked, unchanged, through every event but the addition of its node, a permitted override and the unplug of a prefix of its path; the removal of its node is none of these. |
| ControllerBlocked.BlockedStays | keysas-firewall/daemon/src/controller.rs:615-645 | So in every run it stays until the first such event. |
| ControllerBlocked.BlockedDeviceCanBeOverridden | keysas-firewall/daemon/src/controller.rs:394-578 | After any run: an unsigned device is added and blocked, the kernel removes its node, the user overrides it, it is added again with any block, and ends up mounted, marked, with the access of the policy. |
| ControllerBlocked.AddDecides | keysas-firewall/daemon/src/controller.rs:394-475 | What an added device is given, by policy and block, in all cases. |
| ControllerBlocked.OverrideSucceedsExactly | keysas-firewall/daemon/src/controller.rs:489-532 | An override succeeds exactly when it is permitted, finds a blocked device with a known place, and the write works; the tables do not depend on the write. |
| ControllerBlocked.RestartRestores | keysas-firewall/daemon/src/controller.rs:977-1050 | After a restart exactly the nodes of present and mounted sentinels are mounted, with the access of the current policy. |
| ControllerMarks.MarksFollowMountedDevices | keysas-firewall/daemon/src/controller.rs:349-367 | In runs where no node is added twice without a remove, mount points are distinct and mark calls succeed, the tables share no key and the marked mount points are exactly those of mounted devices whose latest update by the user was not a block. |
| ControllerMarks.SharedKeyExactly | keysas-firewall/daemon/src/controller.rs:394-430 | Without that discipline, the tables are disjoint throughout a run exactly when the run never authorizes a node that is still mounted. |
| ControllerMarks.AddedTwiceSharesKey | keysas-firewall/daemon/src/controller.rs:394-430 | A run of three events after which both tables hold the key of a node that was added, mounted and added again. |
| ControllerMarks.NoRemovalSinceReason | keysas-firewall/daemon/src/controller.rs:615-645 | In a disciplined run no allowed unmounted entry is older than the last removal of its node. |
| ControllerMarks.MarkChanged | keysas-firewall/daemon/src/controller.rs:615-627 | Setting or clearing one mounted device leaves every other mount point marked as it was. |
| ControllerMarks.CertifiedDeviceIsMounted | keysas-firewall/daemon/src/linux/usb_monitor.rs:458-546 | A device with a valid block that is not yet tracked, or blocked, ends up mounted with the certified access, marked, and out of the unmounted table; nothing else changes. |
| ControllerMarks.OverriddenDeviceIsMounted | keysas-firewall/daemon/src/controller.rs:477-532 | An overridden device is let in when it comes back, whatever its block holds, with the certified access and its first description; a removal in between drops the override. |
| PdfSanitizer.Sanitizer.WalkAndClean | keysas-core/sh/pdf_sanitize.py:74-98 | The in-place walk terminates on every graph, cycles included, empties exactly the dangerous objects it visits, and leaves every visited object with all its followed references visited. |
| PdfSanitizer.Sanitizer.NeutralizeAction | keysas-core/sh/pdf_sanitize.py:66-71 | The action loses every key, nothing else changes, and one label is added to the report. |
| PdfSanitizer.Sanitizer.Sanitize | keysas-core/sh/pdf_sanitize.py:101-141 | The final document is the specified one, the report lists the removed keys and exactly the emptied actions, and the exit status is 1 exactly for a clean document. |
| PdfSanitizer.NothingDangerousRemains | keysas-core/sh/pdf_sanitize.py:54-98 | Afterwards no dangerous action can be reached from the listed objects through any dictionary or array. |
| PdfSanitizer.OnlyListedEntriesGo | keysas-core/sh/pdf_sanitize.py:66-133 | An entry goes exactly when it is a listed key of the catalogue or a page, or belongs to a reached dangerous action; all others stay with their values. |
| PdfSanitizer.SecondRunRemovesNothing | keysas-core/sh/pdf_sanitize.py:101-141 | A second run on the result, over any of the objects still reachable, finds nothing and changes nothing. |
| PdfSanitizer.CleanExactly | keysas-core/sh/pdf_sanitize.py:117-141 | The report is empty exactly when the document was clean. |
| PdfActions.NoActionIsLeft | keysas-core/sh/pdf_sanitize.py:54-98 | At the end of any trail of references from the listed objects through entries and items of the result there is no dictionary with one of twelve type names, written out. |
| PdfActions.EntriesAfterRun | keysas-core/sh/pdf_sanitize.py:54-133 | A listed object with one of these types is emptied; every other dictionary keeps each entry with its value but five keys of the catalogue and one of pages, written out, which it loses. |
| PdfActions.ReportNamesType | keysas-core/sh/pdf_sanitize.py:66-71 | The report names each emptied action by its type. |
| PdfActions.ReportNamesKeys | keysas-core/sh/pdf_sanitize.py:107-124 | The report lists removed keys of the catalogue under their own names, five in all, and those of pages under one name. |
| Base64.RoundTrip | keysas-admin/src-tauri/src/usb_sign.rs:98-104 | Decoding undoes encoding (section 4 of RFC 4648). |
| Base64.Canonical | keysas-io/src/main.rs:251-268 | A text that decodes is the encoding of what it decodes to, so every signature has one accepted spelling. |
| Base64.EncodedLetters | keysas-admin/src-tauri/src/usb_sign.rs:98-104 | Every character of an encoding is the letter of table 1 of RFC 4648 for its six bits, or padding where no byte reaches. |
| Utf8Laws.Utf8Exactly | keysas-io/src/main.rs:240-240 | The test for text accepts exactly the encodings of sequences of characters by section 3 of RFC 3629. |
| SignedBlock.BlockDevice.SignUsb | keysas-admin/src-tauri/src/usb_sign.rs:246-274 | The block goes to byte 512 with its big-endian length, exactly when the device is long enough. |
| SignedBlock.BlockDevice.RevokeDevice | keysas-admin/src-tauri/src/usb_sign.rs:276-295 | The same with the text of 7683 zeros. |
| SignedBlock.BlockDevice.GetSignature | keysas-io/src/main.rs:221-290 | The station reader, reading through a cursor, is the function it is specified by on every disk. |
| SignedBlock.BlockDevice.ExtractUsbInfo | keysas-firewall/daemon/src/linux/usb_monitor.rs:184-203 | The Linux reader likewise. |
| SignedBlock.BlockDevice.ReadSignature | keysas-firewall/daemon/src/windows/usb_monitor.rs:285-340 | The Windows reader likewise, with its one read into a buffer of 8192 bytes. |
| SignedBlockLaws.ParsesExactly | keysas-firewall/daemon/src/controller.rs:708-765 | A reader takes a text as a pair exactly when it is the text the signer writes for that pair, in the daemon followed by anything after a further separator. |
| SignedBlockLaws.FitsExactly | keysas-admin/src-tauri/src/usb_sign.rs:98-104 | With a 64-byte classic signature the text fits the limit of 7684 bytes exactly when the other signature has at most 5694 bytes. |
| SignedBlockLaws.WrittenBytes | keysas-admin/src-tauri/src/usb_sign.rs:246-274 | The disk after a text was written, byte by byte: its length at 512, highest byte first, the text from 516 on, everything else as before. |
| SignedBlockLaws.TextBytes | keysas-admin/src-tauri/src/usb_sign.rs:98-104 | The first 88 characters are the classic signature, then a bar and the other one; a revoked device holds 7683 zeros. |
| SignedBlockLaws.StationReadsExactlyTheWritten | keysas-io/src/main.rs:221-290 | On every disk the station reads a pair exactly when the block the signer writes for it is there. |
| SignedBlockLaws.AllReadersRecoverThePair | keysas-admin/src-tauri/src/usb_sign.rs:264-271 | After signing, all three readers recover exactly the pair, for every pair within the limits. |
| SignedBlockLaws.TooLongIsRefused | keysas-admin/src-tauri/src/usb_sign.rs:264-271 | Beyond the limit the station refuses the block and both daemons see an unsigned device. |
| SignedBlockLaws.DaemonsDifferExactlyOnZeroLength | keysas-firewall/daemon/src/windows/usb_monitor.rs:322-340 | The two daemons read the same from every disk unless the stored length is zero. |
| SignedBlockLaws.StationAgreesWithDaemon | keysas-firewall/daemon/src/linux/usb_monitor.rs:184-203 | Station and daemon accept the same pair from a disk exactly when there is no third part. |
| SignedBlockLaws.SpellingIsInjective | keysas-admin/src-tauri/src/usb_sign.rs:92-92 | A text spelled from four fields and a direction without slashes is spelled from no other fields or direction, slashes or not. |
| SignedBlockLaws.IdentityIsUniqueExactly | keysas-admin/src-tauri/src/usb_sign.rs:92-92 | A device shares its identity with no other exactly when none of its four fields holds a slash. |
| SignedBlockLaws.SlashCollides | keysas-admin/src-tauri/src/usb_sign.rs:92-92 | For every device with a slash in any field another one with the same identity. |
| SignedBlockLaws.IdentityReads | keysas-admin/src-tauri/src/usb_sign.rs:92-92 | Between its slashes an identity reads vendor, model, revision, serial number and the word out. |
| SignedBlockLaws.BlockVerifiesOnlyForItsDevice | keysas-io/src/main.rs:292-343 | If at least one of the two schemes is ideal, station and both daemons accept a block exactly from a device that presents what was signed; when the fields of the owner and the direction hold no slash, that is the owner and the outward direction, whatever the presenting device reports. |
| SignedBlockLaws.BlockBindsExactly | keysas-io/src/main.rs:292-343 | Under an ideal scheme the station accepts an outward block from no device in play but its owner exactly when the fields of the owner hold no slash. |
| SignedBlockLaws.RevokedIsBlocked | keysas-admin/src-tauri/src/usb_sign.rs:276-295 | After revocation the station refuses the device and the controller leaves every device it does not already allow blocked, under every policy. |
| SignedBlockLaws.ZeroedDiskVerdicts | keysas-firewall/daemon/src/windows/usb_monitor.rs:327-330 | A zero length is a broken block for Linux, blocked under every policy, and an unsigned device for Windows, which a policy may admit. |
| FileReport.BindAndSign | keysas_lib/src/file_report.rs:228-270 | The signed report with both signatures over digest, dash and metadata hash. |
| FileReport.ParseReport | keysas_lib/src/file_report.rs:282-404 | The checks, in the order of the code, accept exactly the reports of the specification. |
| FileReport.MessageIsInjective | keysas_lib/src/file_report.rs:249-249 | The signed text determines the file digest and the metadata, among the metadata in play. |
| FileReport.MadeReportIsAcceptedExactly | keysas_lib/src/file_report.rs:228-404 | If one of the two schemes is ideal, a report made under certified keys is accepted exactly with a file of its digest, or without a file when it names none and was bound to no digest. |
| FileReport.UnsignedReportIsRefused | keysas_lib/src/file_report.rs:253-258 | A report made without keys is never accepted. |
| FileReport.AcceptedReportWasMade | keysas_lib/src/file_report.rs:282-404 | If one of the two halves of its signature is not forged, whichever it is, an accepted report was made by the holder of the certified keys for exactly this metadata and file. |
| FileReport.SignatureCommits | keysas_lib/src/file_report.rs:282-404 | Two accepted reports in play with the same signature have the same metadata and the same file if their keys agree in one scheme and that scheme is ideal. |
| FileReport.BothHalvesVerify | keysas_lib/src/file_report.rs:347-404 | Acceptance rests on both halves of the signature: each verifies under its certified key for what the reader checks. |
| FileReport.DigestFieldsAreChecked | keysas_lib/src/file_report.rs:320-350 | Anything else in one of the two digest fields makes an accepted report refused. |
| FileReportExample.AssumptionsCanHold | keysas_lib/src/file_report.rs:228-404 | Primitives, an authority and a key that meet every assumption of these laws at once, and a report that is accepted with its file and refused with another. |
| FileReport.FileDigestUncheckedWithoutFile | keysas_lib/src/file_report.rs:320-329 | Without a file nothing checks the file digest field. |
| Transit.CheckFiles | keysas-core/src/keysas-transit/main.rs:554-785 | Each file of the batch gets the metadata its outcomes call for, and the verdict shown as progress is the conjunction without corruption. |
| Transit.ValidExactlyWhenAllGood | keysas-core/src/keysas-transit/main.rs:434-461 | From the failing defaults, a report is valid exactly when every mandatory step was run and found nothing and the configured optional ones agreed. |
| Transit.CheckedReportsMatch | keysas-core/src/keysas-transit/main.rs:628-673 | Scanner findings appear only in failed files. |
| Transit.ChecksShowOutcomes | keysas-core/src/keysas-transit/main.rs:554-785 | From the steps to the map shown with a report, key by key: each scanner's findings show under its own key, and every other check as its step came out. |
| Transit.ReportHoldsOutcomes | keysas-core/src/keysas-transit/main.rs:554-700 | The report holds the outcomes of digest, size, antivirus and Yara steps, and what the writer found. |
| Transit.ReportHoldsContents | keysas-core/src/keysas-transit/main.rs:675-760 | And those of the type check, the analyzer and the lookup. |
| Transit.UserSeesTheVerdictsExactly | keysas-core/src/keysas-transit/main.rs:434-785 | From arrival to the list, in every mode: every file is listed once, as valid exactly when all checks succeeded and it still had its digest when written, exactly when every name works. |
| Transit.UserSeesTheVerdicts | keysas-core/src/keysas-transit/main.rs:434-785 | So always for plain names in a mode that reports failures. |
| Transit.AntivirusOutageBlamesDigest | keysas-core/src/keysas-transit/main.rs:628-638 | When only the antivirus cannot be run, the refused file is shown with a wrong digest, which it does not have. |
| Pipeline.OutputDirectory.OutputFiles | keysas-core/src/keysas-out/main.rs:238-312 | The directory after a run, with the digest checked again, the report mode and the copy condition. |
| Pipeline.OutputDirectory.ListFilesOut | keysas-backend/src/main.rs:168-239 | The list built from the directory in any reading order. |
| Pipeline.ParseKrp | keysas-backend/src/main.rs:243-457 | Validity, reason and map of checks from a report; an unreadable report counts as a pass. |
| PipelineLaws.CopiedAgainstValid | keysas-core/src/keysas-out/main.rs:280-289 | A valid file is always copied; an invalid one exactly when only Yara failed and cleaning is off. |
| PipelineLaws.PassedAgainstValid | keysas-core/src/keysas-transit/main.rs:757-763 | Valid is passed and not corrupted. |
| PipelineLaws.ReasonIsTrueExactly | keysas-backend/src/main.rs:355-457 | The reason shown names a check that failed exactly when some failure is visible in the report; otherwise it blames the digest. |
| PipelineLaws.ReasonIsFirstFailure | keysas-backend/src/main.rs:355-457 | The reason is the first failure of the report in a fixed order of eight. |
| PipelineLaws.ModeNames | keysas-core/src/keysas-out/main.rs:117-124 | Three names select the other report modes, in any case; any other text means always. |
| PipelineLaws.ChecksShowFailures | keysas-backend/src/main.rs:263-353 | The map of checks has a failed entry exactly when a failure is visible, a failed lookup without text excepted. |
| PipelineLaws.OutputHoldsRun | keysas-core/src/keysas-out/main.rs:238-312 | After a run over distinct names the directory holds exactly the copied files and the due reports, each report with the metadata of its file unless a later copy has taken its place. |
| PipelineLaws.ReportIsThereExactly | keysas-core/src/keysas-out/main.rs:126-134 | In a run of plain names the hidden report of a file is there exactly when the mode is for all, for passed files and it passed, or for failed files and it failed. |
| PipelineLaws.ListIsFaithfulExactly | keysas-backend/src/main.rs:168-239 | After any run over distinct names, in every mode and for both Yara settings, the list names every processed file once, with the validity of its report, and nothing else, exactly when every name works: a valid file does not look hidden, like a checksum or like a report; an invalid one is reported, its report is not replaced and can be found; and a copy that looks like a report is one of a listed file. |
| PipelineLaws.OneFileIsFaithfulExactly | keysas-backend/src/main.rs:168-239 | For a run of one file, the condition on its name and verdict alone. |
| PipelineLaws.PlainRunIsFaithful | keysas-backend/src/main.rs:168-239 | With plain names the list is faithful in the modes for all and for failed files. |
| PipelineLaws.PlainNamesWorkExactly | keysas-backend/src/main.rs:168-239 | A plain name works exactly when its file is valid or gets a report. |
| PipelineLaws.HiddenFileIsMissing | keysas-backend/src/main.rs:168-239 | A passed file whose name starts with a dot or ends in .sha256 is not listed. |
| PipelineLaws.UnreportedFailureIsWrong | keysas-backend/src/main.rs:168-239 | In the other two modes an invalid file with a plain name is listed as a pass if it was copied, and is missing otherwise. |
| PipelineLaws.KrpNamedFileIsMisreported | keysas-backend/src/main.rs:189-236 | A passed file whose name ends in .krp is listed as a refused file of another name. |
| Fanotify.HandleEvents | keysas-firewall/daemon/src/linux/file_filter_if.rs:117-178 | The loop stays inside what was read and does exactly what the parsed events call for. |
| Fanotify.ActionsBalance | keysas-firewall/daemon/src/linux/file_filter_if.rs:132-175 | A descriptor is closed as often as events carry it and answered as often as they ask while the queue is open. |
| Fanotify.EachEventOnce | keysas-firewall/daemon/src/linux/file_filter_if.rs:132-175 | With distinct descriptors each valid one is closed exactly once, and answered exactly once if it asks while the queue is open, with the decision of the controller, or allowed when the daemon itself asks. |
| Fanotify.ActionsInOrder | keysas-firewall/daemon/src/linux/file_filter_if.rs:132-175 | The actions of an event come together, the answer before the close, after those of earlier events. |
| Fanotify.ActionsAreValid | keysas-firewall/daemon/src/linux/file_filter_if.rs:132-175 | Only valid descriptors of events are ever answered or closed. |
| Fanotify.ParseInvertsLayout | keysas-firewall/daemon/src/linux/file_filter_if.rs:117-130 | All laid-out events are handled in order, up to one that is shorter than its header. |
| Occurrences.CountOccurrences | keysas-core/src/keysas-analyze/analyzers/pdf.rs:67-81 | The greedy count is the largest number of occurrences that fit side by side, and positive exactly when the keyword occurs. |
| Occurrences.Analyze | keysas-core/src/keysas-analyze/analyzers/pdf.rs:31-64 | The findings are exactly the keywords that occur, and the file passes exactly when no blocking one does. |
| Entropy.ComputeEntropy | keysas-core/src/keysas-analyze/analyzers/pe.rs:115-131 | The table and the sum. |
| Entropy.FreqsCount | keysas-core/src/keysas-analyze/analyzers/pe.rs:119-122 | The table holds the multiplicity of every byte value. |
| Entropy.TableSumsToLength | keysas-core/src/keysas-analyze/analyzers/pe.rs:119-122 | The table sums to the length of the slice. |
| Entropy.EntropyBounds | keysas-core/src/keysas-analyze/analyzers/pe.rs:115-131 | Over the reals the entropy of every slice lies between 0 and 8. |
| Entropy.UniformSliceAttainsBound | keysas-core/src/keysas-analyze/analyzers/pe.rs:115-131 | The upper bound is attained by every slice with all byte values equally often. |
| LnkStrings.ExtractStrings | keysas-core/src/keysas-analyze/analyzers/lnk.rs:120-138 | The byte-by-byte loop computes the text of the specification. |
| LnkStrings.TextContainsExactly | keysas-core/src/keysas-analyze/analyzers/lnk.rs:55-74 | For every keyword without a space the text contains it, ignoring ASCII case, exactly when one maximal printable run of at least 6 bytes does. |
| LnkStrings.RunsSpellExactly | keysas-core/src/keysas-analyze/analyzers/lnk.rs:55-138 | By bytes: a run holds a keyword exactly when six or more bytes from 0x20 to 0x7E, bounded by others, spell it with 0x41 to 0x5A counting as 0x61 to 0x7A. |
| LnkStrings.Analyze | keysas-core/src/keysas-analyze/analyzers/lnk.rs:36-89 | A shortcut passes exactly when no keyword, and no network share without a local host, lies in such a run, or its header is not valid. |
| VtCache.VtClient.Lookup | keysas-core/src/keysas-virustotal/virustotal.rs:66-133 | Answer and cache after one lookup, hit or miss, for every response. |
| VtCache.CachedAnswerIsRecent | keysas-core/src/keysas-virustotal/virustotal.rs:66-145 | In every run with a clock that does not go back, a cached answer goes back to an answer of the service for the same hash less than a lifetime ago, never to a failure; it is that whole answer exactly when the threshold is positive or the file was known. |
| VtCache.EntriesHaveSources | keysas-core/src/keysas-virustotal/virustotal.rs:135-145 | Every entry was made by an earlier query that asked the service. |
| VtCache.ServiceAnswers | keysas-core/src/keysas-virustotal/virustotal.rs:82-133 | What an answer of the service is worth: a rate limit, an unreachable service or an unreadable answer follows the configuration and is not kept; an unknown file passes; a known one passes exactly below the threshold; both are kept. |
| VtCache.CacheServes | keysas-core/src/keysas-virustotal/virustotal.rs:69-80 | A hash is answered from the cache exactly when it was kept less than a lifetime ago; entries of other hashes stay. |
| VtCache.ThresholdZeroContradictsItself | keysas-core/src/keysas-virustotal/virustotal.rs:69-96 | With threshold zero an unknown file passes when asked and fails from the cache. |
| Progress.DaemonProgress.AddFilesToQueue | keysas_lib/src/progress.rs:168-171 | The queue grows and the total is counted anew. |
| Progress.DaemonProgress.StartNextFile | keysas_lib/src/progress.rs:173-177 | The file becomes the current one and every entry of its name leaves the queue. |
| Progress.DaemonProgress.CompleteCurrentFile | keysas_lib/src/progress.rs:186-199 | The current file is counted once and cleared. |
| Progress.DaemonProgress.UpdateCurrentStep | keysas_lib/src/progress.rs:179-184 | Only the step and percentage of a current file change. |
| Progress.DaemonProgress.GetOverallPercentage | keysas_lib/src/progress.rs:201-207 | The share of finished files, cut to eight bits. |
| Progress.PercentageStaysInRange | keysas_lib/src/progress.rs:168-208 | If files are added only between files, each is started once, and nothing has been dropped from the queue at an addition, finished files never exceed the total, the percentage stays within 100 and as many names are completed as files were processed. |
| Progress.PercentageExact | keysas_lib/src/progress.rs:201-207 | The cut to eight bits then loses nothing. |
| Progress.PercentageNeverFalls | keysas_lib/src/progress.rs:186-207 | Between additions the percentage never falls. |
| Progress.OneFileIsCounted | keysas_lib/src/progress.rs:173-199 | From any state a file is shown with its last step while it is worked on, and then counted once as processed and listed, or as failed; its name leaves the queue, and the daemon is idle exactly when nothing is queued. |
| Progress.StepsAscend | keysas_lib/src/progress.rs:117-131 | The share of a scan at each of ten steps, in order, from 0 to 100, and 0 after a failure. |
| Progress.AddIsSafeExactly | keysas_lib/src/progress.rs:168-177 | An addition keeps everything that can follow within the total exactly when the queue still holds as many entries as files are waiting. |
| Progress.DuplicateNamesOverflow | keysas_lib/src/progress.rs:168-207 | Adding one name twice and then another ends at 150 percent. |
| TransitProgress.BatchEndsAtFull | keysas-core/src/keysas-transit/main.rs:554-785 | Every batch of the scanning daemon, whatever its names, leaves it idle, and a nonempty one at 100 percent. |
| TransitProgress.BatchStaysInRange | keysas-core/src/keysas-transit/main.rs:985-999 | At no point of a batch does the percentage exceed 100. |
| TransitProgress.LateStepIsLost | keysas-core/src/keysas-transit/main.rs:766-771 | The final step, reported after the file was completed, changes nothing. |

## Left out

- Sockets, descriptor passing, mounting, udev, D-Bus, desktop dialogs and the registry: each call is an outcome given to a step.
- Sandboxes, argument parsing, logging, timestamps and display texts (summaries, details shown beside a check, notifications).
- ISO names outside ASCII: the code lower-cases them after a lossy conversion to Unicode, the model lower-cases ASCII bytes. File offsets are unbounded where the code has 64 bits.
- Minifilter memory: contexts stay allocated while used, a context without identifier matches no notification (the code compares through a null reference), the interrupt level is at most APC level in the protocol, and contexts of other files are not in the model. Writes (`KfPreWriteHandler`) and context cleanup are not modelled.
- Which of two requests the minifilter sends for a volume under warning, a scan or a question to the user: both are one request with an answer.
- Delivery of a volume update to several filter instances: one instance is modelled.
- The file decision of the daemon (`authorize_file`): its report validation is disabled in the source; it is an answer in `Fanotify`.
- The lookup of a device's access by the file filter, which uses the device identifier where its name and comment say mount point.
- Stale sentinel files and the writes to the `authorized` attribute: outcomes only.
- The partition table rewritten before signing: it lies before the block. Partition suffixes of device names are stripped differently by the tools, and that is not modelled.
- The length limit of the post-quantum scheme is a parameter; acceptance is stated for every value of it.
- The direction a block is signed for is a parameter of the signer; all readers check the outward one, as the code does.
- The source of the fields a reader checks: the station and the Linux daemon take them from udev, the Windows daemon from the strings of the storage descriptor, so one physical device may present other fields there than those signed. The model gives Windows fields of its own.
- PDF streams, swallowed exceptions and reuse of object identities: only dictionaries and arrays are walked, and identities are true identities.
- JSON of reports: writing then reading is the identity; a report that cannot be parsed is one case. Missing fields of a parsable report are not modelled.
- File-type detection by magic numbers and extensions: an outcome of the scan.
- Floating-point rounding in the entropy, and slices of 2^32 bytes or more.
- The rest of the PE, ZIP, OLE and archive analyzers, and the tables of keywords as such.
- Controller.ServiceController.AuthorizeUsb: the signature is an argument already classified; classification from the disk is `SignedBlockLaws.Verdict`.
- Entropy.EntropyBounds: rests on the product law, the unit and a tangent line of the binary logarithm, which is a parameter.
