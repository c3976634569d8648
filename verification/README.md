# LumiStripe, modelled and proved in Dafny

LumiStripe drives LED strips from a small computer. This project models the parts of it whose correctness is
least obvious from reading one function, and proves what they are for. Each group of modules follows one source
file; where the source changes state step by step, so does a class or a method here, proved against a function that
says what the step should do, and the properties are then proved about that function over all inputs and runs.

- **Release archives** (`Ustar`, `UstarRoundTrip`, `ReleaseInventory`, `ReleaseCollection`, `ReleaseArchive`,
  `ReleaseTwoPass`, `ReleaseHeaders`, `ReleaseAcceptance`, `ReleaseSecondPass`, `ReleaseDisk`, `ReleaseRoundTrip`,
  `ReleaseLimits`, `ReleaseTrees`, `ReleaseTransfer`, on top of `Bytes`, `Sequences`, `Numerals`, `Utf8`, `Paths`,
  `TarBlocks` and `ByteReaders`). The packager walks a directory tree and writes USTAR headers ("ustar Interchange
  Format" of `pax`, Shell & Utilities volume, IEEE Std 1003.1-2017); a verifying pass and an extracting pass read them
  back. A tree survives the trip, the two passes agree on every stream, what they accept can be read off the bytes, and
  a file changed between them is refused or extracts as it was listed.
- **Soloist archives** (`Pax`, `Soloist`, `SoloistHeaders`, `SoloistListing`, `SoloistSafety`, `SoloistTransfer`,
  `SoloistAcceptance`). A byte budget, records that state their own length ("pax Extended Header" of the same
  standard), and one executable out of the stream.
- **Dates and update status** (`Calendar`, `Timestamps`, `UpdateStatus`, `UpdateRuns`, `AtomicWrite`). The civil-date
  formula is a calendar; every status document of every run agrees with itself.
- **Pairing** (`PairingAuth`, `PairingHistory`, `PairingEviction`). A deque of five and a table swept once a minute
  answer as the whole history of attempts would.
- **Spotify routing** (`SpotifyRoute`, `SpotifyRuns`, `SpotifyService`, `Whitespace`, `Decimals`). Whichever commands
  fail, there is never a second loopback, and a rollback restores what it can.
- **Wi-Fi** (`EscapedText`, `WifiProfiles`, `ProfileDirectory`, `WifiRows`, `WifiNetworks`). Parsers invert printers,
  profiles say what they were written for and match no other network, and the scan list is the strongest row of each
  name.
- **Rotary encoders** (`Quadrature`). The steps reported are the turn of the shaft.

Where a natural claim is false of the code, the exact condition is proved instead, with an input at
which the claim fails:

- A directory whose archive name has 101 to 156 bytes is written with an empty name field, which the verifier
  refuses (`ReleaseRoundTrip.HeaderRoundTrip`, `ReleaseLimits.LongDirectoryRefused`).
- A name with a backslash or a control character is packaged, and the verifier refuses it
  (`ReleaseRoundTrip.HeaderRoundTrip`, `ReleaseLimits.BackslashRefused`).
- The first pass compares a member with its immediate parent only, so it can accept an archive that cannot be
  extracted (`ReleaseDisk.ExtractionOutcome`, `ReleaseLimits.AcceptedButNotExtractable`).
- The packager checks the expansion limit before the end marker and the padding, and the verifier does not check
  it for the second zero block (`ReleaseRoundTrip.MembersAccepted`, `ReleaseTrees.PaddedArchiveRefused`,
  `ReleaseTwoPass.ExpansionBound`, `ReleaseTrees.LongestAccepted`).
- A failed connect can lose the old profiles of its network, when only its last reload fails, and can leave its own
  profile behind (`ProfileDirectory.FailedConnect`, `ProfileDirectory.LastReloadLosesOldProfile`,
  `ProfileDirectory.UnsyncedProfileStays`).
- A failed switch goes back to the sink in the published status, which need not be the server's
  (`SpotifyRuns.RollbackRestores`, `SpotifyRuns.RollbackToStaleDefault`), and a loopback to a sink with a space in its
  name is replaced at every call (`SpotifyRuns.RepeatIsIdle`, `SpotifyRuns.SpacedSinkRemoved`).
- A pairing can give up a live session although fewer than 1024 are live, because expired ones are swept only once
  a minute (`PairingHistory.EvictionIff`, `PairingEviction.LiveSessionEvicted`). The session given up is whichever the
  table yields first, not the oldest.

Byte strings are sequences of numbers below 256, text is a sequence of characters, instants are integers. 64-bit and
32-bit limits are written out where the source checks or relies on them. How commands, writes and git end is an
input: the contracts hold for every way they can end.

## Model

| member | source | states |
|---|---|---|
| `ReleaseTransfer.PutOctal` | apps/lumistripe-deploy-helper/src/release_artifact.rs:1447-1462 | Exactly the numbers with at most width - 1 octal digits are written, zero-padded and NUL-terminated, in place; nothing outside the field changes and a refusal changes nothing |
| `UstarRoundTrip.OctalFieldRoundTrip` | apps/lumistripe-deploy-helper/src/release_artifact.rs:1447-1487 | A field holds a number exactly when it is below 8^(width-1), and the reader then reads that number back |
| `UstarRoundTrip.PaddedParses` | apps/lumistripe-deploy-helper/src/release_artifact.rs:1472-1487 | Zero-padded octal digits before any NUL, space or end are read as the number |
| `UstarRoundTrip.ChecksumFits` | apps/lumistripe-deploy-helper/src/release_artifact.rs:1436-1443 | The byte sum of any header prints as six octal digits and is read back, so the overflow error cannot happen |
| `ReleaseTransfer.FindSplit` | apps/lumistripe-deploy-helper/src/release_artifact.rs:1404-1422 | The search from the right finds the rightmost slash that leaves at most 155 bytes before and 100 after it |
| `UstarRoundTrip.SplitNameParts` | apps/lumistripe-deploy-helper/src/release_artifact.rs:1404-1422 | The split fails exactly when the name is over 100 bytes and no slash meets both limits; the parts make up the name, and the name field is empty exactly for a directory split at its own trailing slash |
| `UstarRoundTrip.SplitNameIs` | apps/lumistripe-deploy-helper/src/release_artifact.rs:1404-1422 | A name of up to 100 bytes is stored whole; a longer one exactly when some slash cuts it into at most 155 and at most 100 bytes, and then no cut leaves less for the name field |
| `ReleaseTransfer.WriteTarHeader` | apps/lumistripe-deploy-helper/src/release_artifact.rs:1401-1445 | Filling the 512-byte buffer field by field gives the specified header, and every error is the specified one |
| `UstarRoundTrip.MakeTarHeaderSucceeds` | apps/lumistripe-deploy-helper/src/release_artifact.rs:1401-1462 | A header is made exactly for a splittable name and numbers that fit; the checksum error never occurs |
| `UstarRoundTrip.KindRoundTrip` | apps/lumistripe-deploy-helper/src/release_artifact.rs:1554-1583 | A written header passes checksum, magic, version and type with its own directory flag |
| `UstarRoundTrip.NameRoundTrip` | apps/lumistripe-deploy-helper/src/release_artifact.rs:1504-1552 | A written header names the path it was made for, except that a directory split at its trailing slash is refused |
| `UstarRoundTrip.NumbersRoundTrip` | apps/lumistripe-deploy-helper/src/release_artifact.rs:1607-1634 | Mode and size are read back as written, up to the file limit |
| `ReleaseRoundTrip.HeaderRoundTrip` | apps/lumistripe-deploy-helper/src/release_artifact.rs:1554-1677 | The verifier reads back the entry a header was written for exactly when its text is clean and it is not a directory name of 101 to 156 bytes split at the last slash |
| `ReleaseTransfer.History.Check` | apps/lumistripe-deploy-helper/src/release_artifact.rs:1554-1677 | The step-by-step check gives the specified verdict, records the name before the later tests and the kind only on acceptance |
| `ReleaseHeaders.HeaderIff` | apps/lumistripe-deploy-helper/src/release_artifact.rs:1554-1677 | On any 512 bytes: a header is accepted as an entry exactly when its checksum field reads as its byte sum, magic and version are there, the type is 0, `0` or `5`, the name fields hold a clean name on the release list, mode, owner, size and unused fields are as required, exactly the four binaries are executable, and nothing seen before is in the way |
| `Utf8.ValidIff` | apps/lumistripe-deploy-helper/src/release_artifact.rs:1489-1502 | Bytes are taken as text exactly when they are the UTF-8 encoding of characters, surrogates excluded |
| `Utf8.ControlIff` | apps/lumistripe-deploy-helper/src/release_artifact.rs:1523-1527 | A name is refused for a control character exactly when one of its characters is in U+0000 to U+001F or U+007F to U+009F |
| `ReleaseInventory.CollectSound` | apps/lumistripe-deploy-helper/src/release_artifact.rs:440-499 | Every entry found by the walk is what path resolution finds at its path |
| `ReleaseInventory.CollectComplete` | apps/lumistripe-deploy-helper/src/release_artifact.rs:440-499 | Every path that resolves in the tree is found by the walk, as a file or directory |
| `ReleaseCollection.CollectedIff` | apps/lumistripe-deploy-helper/src/release_artifact.rs:400-499 | A tree is collected exactly when every path that resolves in it is UTF-8, on the release list, a file or directory, and at most 128 MiB, it has fewer than 20000 entries, and its files hold at most 1 GiB |
| `ReleaseInventory.InventoryIsTree` | apps/lumistripe-deploy-helper/src/release_artifact.rs:412-499 | Membership in the sorted inventory is path resolution, in both directions |
| `ReleaseInventory.InventoryTreeShaped` | apps/lumistripe-deploy-helper/src/release_artifact.rs:412-438 | The inventory is strictly sorted, its entries are allowed and well named, and no file stands above an entry |
| `ReleaseInventory.DirectoriesFirst` | apps/lumistripe-deploy-helper/src/release_artifact.rs:412-438 | Every directory comes before everything beneath it, and every parent is listed |
| `ReleaseTransfer.RunPackaging` | apps/lumistripe-deploy-helper/src/release_artifact.rs:1297-1368 | The packaging loop, with its own byte count, writes exactly the specified stream or stops with the specified error |
| `ReleaseTransfer.WriteEntry` | apps/lumistripe-deploy-helper/src/release_artifact.rs:1308-1357 | One entry writes its header, bytes and padding, and the count is the number of bytes written |
| `ReleaseLimits.PackagingSucceeds` | apps/lumistripe-deploy-helper/src/release_artifact.rs:1302-1357 | The members are written exactly when every archive name splits and header, file and padding bytes stay within the expansion limit |
| `ReleaseLimits.PackagedAndAccepted` | apps/lumistripe-deploy-helper/src/release_artifact.rs:1245-1368 | For an admissible inventory: when packaging succeeds, then into whole 10 KiB records, and when the verifier accepts them, as conditions on the inventory |
| `ReleaseTransfer.ReadBlock` | apps/lumistripe-deploy-helper/src/release_artifact.rs:1679-1692 | However the reads are cut, a block is the next 512 bytes, nothing at the end, or the right error |
| `ReleaseTransfer.Skip` | apps/lumistripe-deploy-helper/src/release_artifact.rs:1694-1707 | Exactly the asked number of bytes is skipped, or the right error is given |
| `ReleaseTransfer.ReadMembers` | apps/lumistripe-deploy-helper/src/release_artifact.rs:1727-1771 | The member loop computes the specified entries, byte count, names and kinds, or the specified error |
| `ReleaseTransfer.RunFirstPass` | apps/lumistripe-deploy-helper/src/release_artifact.rs:1709-1821 | The verifying pass accepts exactly the streams the specification accepts, with the same entries |
| `ReleaseAcceptance.FirstPassIff` | apps/lumistripe-deploy-helper/src/release_artifact.rs:1709-1821 | On any stream: it is accepted with given entries exactly when it is undamaged, their headers stand in it one after the other with only zeros behind them, the root and the required files are among them, and count and length are within the limits |
| `ReleaseTwoPass.HeadsCounted` | apps/lumistripe-deploy-helper/src/release_artifact.rs:1727-1771 | On every stream, at each loop head the count equals the bytes consumed and is a multiple of 512, so no addition saturates |
| `ReleaseTwoPass.ExpansionBound` | apps/lumistripe-deploy-helper/src/release_artifact.rs:1727-1818 | Every accepted stream is undamaged, at most one block over the expansion limit, and bounded in file bytes, file sizes and entries |
| `ReleaseRoundTrip.ScanPackaged` | apps/lumistripe-deploy-helper/src/release_artifact.rs:1727-1771 | The member loop reads every entry of a readable packaged inventory and refuses any other |
| `ReleaseRoundTrip.MembersAccepted` | apps/lumistripe-deploy-helper/src/release_artifact.rs:1709-1821 | Packaged members followed by any number of zeros from two blocks on are accepted exactly when every entry is readable, the required files are there and the zeros fit the limit as it is checked |
| `ReleaseRoundTrip.PackagedAccepted` | apps/lumistripe-deploy-helper/src/release_artifact.rs:1709-1821 | A packaged inventory is accepted exactly when it is acceptable; the verifier then lists the root and every entry in order, with kind, size and mode |
| `ReleaseRoundTrip.ListedEntries` | apps/lumistripe-deploy-helper/src/release_artifact.rs:1709-1821 | The entries listed for a packaged inventory have its names, kinds and sizes, mode 755 for directories and binaries and 644 for other files |
| `ReleaseTransfer.ExtractNext` | apps/lumistripe-deploy-helper/src/release_artifact.rs:1875-1936 | One member of the second pass has the specified effect on stream, names, kinds and disk |
| `ReleaseTransfer.CopyFile` | apps/lumistripe-deploy-helper/src/release_artifact.rs:1918-1924 | Copying gives the file its own bytes or the changed-archive error |
| `ReleaseTransfer.ReadArchiveEnd` | apps/lumistripe-deploy-helper/src/release_artifact.rs:1823-1846 | Two zero blocks and nothing but zeros after them, within the limit |
| `ReleaseTransfer.RunExtraction` | apps/lumistripe-deploy-helper/src/release_artifact.rs:1848-1946 | For whatever bytes the two passes find: on success the destination holds the specified tree; after a failure nothing of it is left; an existing destination is untouched |
| `ReleaseTwoPass.MemberRepeats` | apps/lumistripe-deploy-helper/src/release_artifact.rs:1752-1770 | Where the first pass accepts a member, the second reads the same one at the same offset; only the disk can refuse it |
| `ReleaseTwoPass.MembersRepeat` | apps/lumistripe-deploy-helper/src/release_artifact.rs:1875-1937 | The second pass ends at the end marker with the names and kinds of the first |
| `ReleaseTwoPass.EndRepeats` | apps/lumistripe-deploy-helper/src/release_artifact.rs:1823-1846 | The end marker that the first pass accepted is accepted again |
| `ReleaseTwoPass.TwoPassAgreement` | apps/lumistripe-deploy-helper/src/release_artifact.rs:1709-1937 | On any accepted stream, by whomever written, the second pass never finds a change: extraction is exactly the disk operations of the listed members |
| `ReleaseSecondPass.SecondPassIff` | apps/lumistripe-deploy-helper/src/release_artifact.rs:1870-1936 | On any stream and for any listed entries: the second pass leaves a given disk exactly when the stream is undamaged, its own headers show those entries one after the other with only zeros behind them, within the limit, and their disk operations give that disk |
| `ReleaseSecondPass.ChangedArchive` | apps/lumistripe-deploy-helper/src/release_artifact.rs:1848-1946 | An archive file that changes between the passes is extracted only if it still holds exactly the listed members; unless it is longer than a gibibyte, it would itself have been accepted with the same list and extracted alike |
| `ReleaseDisk.CreateDirAllIs` | apps/lumistripe-deploy-helper/src/release_artifact.rs:1891-1903 | Creating a directory path fails exactly when a file stands at or above it, and otherwise adds only the missing folders |
| `ReleaseDisk.ExtractionOutcome` | apps/lumistripe-deploy-helper/src/release_artifact.rs:1654-1670 | Extraction of an accepted stream succeeds exactly when no file member stands above another; it then leaves each file its own bytes, and only folders besides |
| `ReleaseDisk.ParentsFirstExtracts` | apps/lumistripe-deploy-helper/src/release_artifact.rs:1654-1670 | An accepted archive that lists every parent first has no file above a member and extracts |
| `ReleaseRoundTrip.PackagedExtracts` | apps/lumistripe-deploy-helper/src/release_artifact.rs:1875-1937 | A packaged tree extracts to exactly its files, with their bytes and modes |
| `ReleaseRoundTrip.RestoredModes` | apps/lumistripe-deploy-helper/src/release_artifact.rs:1918-1924 | An extracted file has its bytes, and mode 755 if it is one of the four binaries, else 644 |
| `ReleaseRoundTrip.ReleaseRestored` | apps/lumistripe-deploy-helper/src/release_artifact.rs:1245-1937 | Packaging a tree and extracting the archive gives the tree back: at each path stands what path resolution finds there |
| `ReleaseTrees.RestorableTree` | apps/lumistripe-deploy-helper/src/release_artifact.rs:1245-1937 | A concrete tree that is packaged, accepted and restored: the premises of the round trip can be met together |
| `ReleaseLimits.LongDirectoryRefused` | apps/lumistripe-deploy-helper/src/release_artifact.rs:1408-1421 | A concrete directory name that the packager writes and the verifier refuses |
| `ReleaseLimits.BackslashRefused` | apps/lumistripe-deploy-helper/src/release_artifact.rs:1504-1552 | A concrete asset name with a backslash that the packager writes and the verifier refuses |
| `ReleaseLimits.AcceptedButNotExtractable` | apps/lumistripe-deploy-helper/src/release_artifact.rs:1654-1670 | A concrete archive that the first pass accepts although the second cannot extract it: only the immediate parent is compared |
| `ReleaseTrees.PaddedArchiveRefused` | apps/lumistripe-deploy-helper/src/release_artifact.rs:1353-1368 | A concrete tree whose inventory fills the expansion limit exactly: it is packaged, and the verifier refuses the archive for its padding |
| `ReleaseTrees.LongestAccepted` | apps/lumistripe-deploy-helper/src/release_artifact.rs:1735-1747 | A concrete stream one block longer than the expansion limit that is accepted |
| `Pax.ReadPax` | apps/lumistripe-deploy-helper/src/soloist_archive.rs:427-468 | The parser loop gives the specified map or error, and its offset advances on every payload |
| `Pax.RecordRoundTrip` | apps/lumistripe-deploy-helper/src/soloist_archive.rs:427-468 | A record that states its own length is parsed back wherever it stands |
| `Pax.RecordSound` | apps/lumistripe-deploy-helper/src/soloist_archive.rs:427-468 | Whatever is parsed as a record is the encoding of that record |
| `Pax.PaxRoundTrip` | apps/lumistripe-deploy-helper/src/soloist_archive.rs:427-468 | The parser accepts exactly the concatenations of well-formed records with distinct permitted keys, and returns their map |
| `Pax.EncodeRecord` | apps/lumistripe-deploy-helper/src/soloist_archive.rs:537-546 | The repeated correction reaches the least length that is its own record's length |
| `Pax.EncodedWellFormed` | apps/lumistripe-deploy-helper/src/soloist_archive.rs:537-546 | What the encoder writes is a well-formed record |
| `SoloistTransfer.BoundedReader.ReadExactly` | apps/lumistripe-deploy-helper/src/soloist_archive.rs:222-231 | Fills a buffer within the budget, which never underflows, or fails with the specified error |
| `SoloistTransfer.BoundedReader.NextHeader` | apps/lumistripe-deploy-helper/src/soloist_archive.rs:233-248 | The next header block, nothing at the end, or the specified error |
| `SoloistTransfer.BoundedReader.CopyExactly` | apps/lumistripe-deploy-helper/src/soloist_archive.rs:250-261 | Copies exactly the asked bytes within the budget |
| `SoloistTransfer.BoundedReader.SkipExactly` | apps/lumistripe-deploy-helper/src/soloist_archive.rs:263-271 | Skips exactly the asked bytes within the budget |
| `SoloistTransfer.UnpackTar` | apps/lumistripe-deploy-helper/src/soloist_archive.rs:274-360 | The member loop has the specified outcome, and touches the destination only if nothing was there |
| `SoloistTransfer.DrainArchive` | apps/lumistripe-deploy-helper/src/soloist_archive.rs:474-494 | What is left after the archive may not exceed the limit |
| `SoloistTransfer.ExtractWithLimit` | apps/lumistripe-deploy-helper/src/soloist_archive.rs:177-205 | On success the destination holds the executable's bytes; on failure it is as it was |
| `SoloistSafety.HeadsBounded` | apps/lumistripe-deploy-helper/src/soloist_archive.rs:274-360 | On every stream each header starts at a multiple of 512 within the budget, and the loop turns at most seven times, so at most eight header blocks are read |
| `SoloistSafety.ExtractSound` | apps/lumistripe-deploy-helper/src/soloist_archive.rs:177-360 | Success means an undamaged stream within the limit and nothing at the destination; the members that the loop admitted stand one after the other up to a zero block, each with the name and size that its own header and metadata give; they are distinct and permitted, exactly one is the executable, and the result is its bytes |
| `SoloistHeaders.FoldIsValue` | apps/lumistripe-deploy-helper/src/soloist_archive.rs:381-403 | The checked fold computes the octal number and fails exactly on a bad digit or on overflow |
| `SoloistAcceptance.ParsersAgree` | apps/lumistripe-deploy-helper/src/soloist_archive.rs:381-403 | Every numeric field that the release verifier reads is read alike here |
| `SoloistHeaders.OctalIff` | apps/lumistripe-deploy-helper/src/soloist_archive.rs:381-403 | A field reads as a number exactly when it is an octal number between blanks that 64 bits hold, or blank for zero, and its first bit is not set |
| `SoloistListing.ChecksumIff` | apps/lumistripe-deploy-helper/src/soloist_archive.rs:362-379 | A header passes exactly when its checksum field reads as the sum of its bytes with spaces for the checksum |
| `SoloistHeaders.EffectiveIff` | apps/lumistripe-deploy-helper/src/soloist_archive.rs:315-326 | A member has the name and size of its header, or those that the metadata before it states |
| `SoloistHeaders.NamesAndLimits` | apps/lumistripe-deploy-helper/src/soloist_archive.rs:327-336 | Which names are the executable and its documentation, and how large each may be |
| `SoloistAcceptance.ExtractIff` | apps/lumistripe-deploy-helper/src/soloist_archive.rs:177-360 | A stream extracts to given bytes exactly when nothing stands at the destination, it is undamaged and within the limit, and its own headers and metadata list permitted members up to a zero block, one of them the executable with those bytes |
| `SoloistAcceptance.ProperArchiveExtracts` | apps/lumistripe-deploy-helper/src/soloist_archive.rs:177-360 | An archive of one executable and its documentation, in any order, with or without extended metadata that overrides names and sizes, extracts to the executable exactly when it is within the limit |
| `Calendar.YearOfEraIs` | apps/lumistripe-deploy-helper/src/update_state.rs:515-520 | The year-of-era formula gives the year whose days include the day, leap years included |
| `Calendar.CivilDateSteps` | apps/lumistripe-deploy-helper/src/update_state.rs:512-528 | One day later the formula gives the next day of the calendar |
| `Calendar.CivilDateIsCalendar` | apps/lumistripe-deploy-helper/src/update_state.rs:512-528 | On every day count the formula equals the date reached by stepping a plain Gregorian calendar from 1970-01-01, and is a valid date |
| `Calendar.DatesIncrease` | apps/lumistripe-deploy-helper/src/update_state.rs:512-528 | Later days have later dates, so no date comes twice |
| `Timestamps.UtcDateIsCalendar` | apps/lumistripe-deploy-helper/src/update_state.rs:512-528 | On every 64-bit second count a date is written, and it is the calendar's |
| `Timestamps.TimestampLayout` | apps/lumistripe-deploy-helper/src/update_state.rs:494-510 | Up to the year 9999 the text has the layout of section 5.6 of RFC 3339: the calendar's date, a time of day that makes up the seconds of the day, nine digits of fraction when there is one, and a zero offset |
| `Timestamps.TimestampInjective` | apps/lumistripe-deploy-helper/src/update_state.rs:494-528 | The text determines the instant to the nanosecond, for every instant the clock can show |
| `UpdateStatus.StatusFile.Check` | apps/lumistripe-deploy-helper/src/update_state.rs:290-368 | A check writes exactly the specified documents, for every combination of locks, git results and write failures |
| `UpdateStatus.StatusFile.RecordInstallState` | apps/lumistripe-deploy-helper/src/update_state.rs:370-411 | An install record writes exactly the specified document, or nothing |
| `UpdateRuns.LookIff` | apps/lumistripe-deploy-helper/src/update_state.rs:314-343 | What a look finds, in terms of the text of the three git answers: the head, the first word about the remote if it is a full commit name, and whether the list of changes is blank |
| `UpdateRuns.CheckEnds` | apps/lumistripe-deploy-helper/src/update_state.rs:290-368 | When a check succeeds, and when it writes nothing or the repaired record alone; with the lock, no installer at work and every write saved it leaves a document that tells what it found, with its error cleared, or that it found nothing |
| `UpdateRuns.SuccessTells` | apps/lumistripe-deploy-helper/src/update_state.rs:389-402 | A recorded success names the installed head and whether the tree is dirty, and clears the error |
| `UpdateRuns.RecordTells` | apps/lumistripe-deploy-helper/src/update_state.rs:370-411 | A recorded start or failure writes its state, time and message, and leaves the rest of the document as it was |
| `UpdateRuns.EveryDocumentConsistent` | apps/lumistripe-deploy-helper/src/update_state.rs:290-411 | In every run every document written is consistent: an update is offered exactly when a commit is named, which is a full commit name and not the installed one; running has a start but no end or error, success no error, failure both |
| `UpdateRuns.RunningInstallUntouched` | apps/lumistripe-deploy-helper/src/update_state.rs:302-305 | While the installer holds the update lock, checks that can see it write nothing |
| `UpdateRuns.StoppedInstallReported` | apps/lumistripe-deploy-helper/src/update_state.rs:302-311 | A running record whose installer is gone is marked failed by the first check that can save, whatever git says, and later checks keep that |
| `UpdateRuns.FinishedInstallKept` | apps/lumistripe-deploy-helper/src/update_state.rs:290-368 | Checks do not alter the record of an install that is over |
| `UpdateRuns.InstallRecorded` | apps/lumistripe-deploy-helper/src/update_state.rs:370-411 | An install recorded from start to end says when it began and when and how it ended, whatever checks came in between |
| `UpdateRuns.OfferStands` | apps/lumistripe-deploy-helper/src/update_state.rs:346-368 | What a successful look found stands until the next successful look, success or reset |
| `UpdateRuns.SuccessWithdrawsOffer` | apps/lumistripe-deploy-helper/src/update_state.rs:389-402 | A recorded success withdraws every offer, and none returns without a new look |
| `PairingAuth.Service.PairAt` | apps/lumistripe-web/src/auth.rs:75-121 | The popping loop, the limit, the eviction and the new session have the specified effect and answer |
| `PairingAuth.Service.AuthenticatedAt` | apps/lumistripe-web/src/auth.rs:55-69 | The answer and the new records are the specified ones |
| `PairingHistory.RateLimitedIff` | apps/lumistripe-web/src/auth.rs:75-121 | Over any run an attempt is refused unheard exactly when five wrong codes in the whole history lie in the last minute; otherwise the code decides |
| `PairingHistory.SixWrongCodes` | apps/lumistripe-web/src/auth.rs:80-103 | Any six wrong codes that were heard span at least a minute |
| `PairingHistory.RetryHintIsExact` | apps/lumistripe-web/src/auth.rs:88-103 | The hint lies between 1 and 60 and is the least whole number of seconds after which an attempt is heard; refused attempts in between do not push it out |
| `PairingHistory.WholeSecondsAre` | apps/lumistripe-web/src/auth.rs:88-103 | The hint for a delay is the least whole number of seconds, from one on, that covers it |
| `PairingHistory.TableIsHistory` | apps/lumistripe-web/src/auth.rs:104-135 | The table holds exactly the tokens issued, not taken back, and still valid at the last sweep, which is computed from the calls alone: the latest that was due, a minute after the one before |
| `PairingHistory.AuthenticatedIff` | apps/lumistripe-web/src/auth.rs:55-69 | A session is accepted exactly when it was issued, not revoked, not evicted and has not expired, whenever the sweeps ran |
| `PairingHistory.RequestAllowedIff` | apps/lumistripe-web/src/auth.rs:55-69 | Over every run a request is let in exactly when no pairing is set up, or it names a session that is still valid; a request without a session never is |
| `PairingHistory.RevocationLasts` | apps/lumistripe-web/src/auth.rs:123-127 | A revoked token is refused in every continuation that does not issue it again |
| `PairingHistory.EvictionIff` | apps/lumistripe-web/src/auth.rs:107-111 | A pairing gives up a session exactly when 1024 were still valid at the last sweep of the calls, and then one of those |
| `PairingEviction.LiveSessionEvicted` | apps/lumistripe-web/src/auth.rs:104-135 | A concrete run after which a pairing gives up the only live session |
| `PairingHistory.AtMostMaxSessions` | apps/lumistripe-web/src/auth.rs:104-135 | Over every run the table has at most 1024 sessions |
| `SpotifyService.Service.FindExisting` | apps/lumistripe-web/src/bluetooth.rs:655-669 | The loop over the module list finds the first Spotify loopback, its number and its sink |
| `SpotifyService.Service.EnsureRouteForSink` | apps/lumistripe-web/src/bluetooth.rs:626-696 | The list, unload and load commands have the specified combined effect, however each of them ends |
| `SpotifyService.Service.EnsureRoute` | apps/lumistripe-web/src/bluetooth.rs:698-711 | The sink is the server's default or else the published one |
| `SpotifyService.Service.Refresh` | apps/lumistripe-web/src/bluetooth.rs:155-170 | The published default changes only after the route was looked after |
| `SpotifyService.Service.SetDefaultSink` | apps/lumistripe-web/src/bluetooth.rs:226-266 | The switch and its rollback have the specified effect, however each command ends |
| `SpotifyRuns.NewRouteIs` | apps/lumistripe-web/src/bluetooth.rs:680-688 | The loopback that is loaded is recognized again in the module list, with the part of its sink's name before any space |
| `SpotifyRuns.RouteIff` | apps/lumistripe-web/src/bluetooth.rs:655-669 | A module is taken for the loopback exactly when it is a loopback module whose arguments name the Spotify monitor |
| `Decimals.U64Iff` | apps/lumistripe-web/src/bluetooth.rs:655-669 | A module number is taken exactly when it spells a number that 64 bits hold, with leading zeros and a plus sign or without |
| `SpotifyRuns.RouteSucceedsIff` | apps/lumistripe-web/src/bluetooth.rs:653-696 | When a routing call succeeds, in terms of how many loopbacks there are, where they lead, and how the commands end |
| `SpotifyRuns.RouteDoes` | apps/lumistripe-web/src/bluetooth.rs:653-696 | The modules after a routing call, for every way the commands end: what it came to unload and to load, if that was carried out |
| `SpotifyRuns.OthersKept` | apps/lumistripe-web/src/bluetooth.rs:670-696 | A routing call adds nothing but the loopback with its arguments, and takes nothing away but what has the old number |
| `SpotifyRuns.ForeignKept` | apps/lumistripe-web/src/bluetooth.rs:655-696 | A module that is no Spotify loopback stays loaded |
| `SpotifyRuns.ForcedReplaces` | apps/lumistripe-web/src/bluetooth.rs:307-309 | A forced call that succeeds loads the loopback anew even if it led to the right output |
| `SpotifyRuns.NothingCreated` | apps/lumistripe-web/src/bluetooth.rs:670-671 | A call that may not create leaves a server without a loopback alone, and otherwise does what any call does |
| `SpotifyRuns.RouteKeepsOne` | apps/lumistripe-web/src/bluetooth.rs:626-696 | From at most one loopback a routing call leaves at most one, whichever commands fail; success leaves exactly one, to the part of the requested output's name before any space, so to the output itself exactly for a name without a space |
| `SpotifyRuns.RepeatIsIdle` | apps/lumistripe-web/src/bluetooth.rs:670-679 | After a successful call another unforced call changes nothing for a sink whose name has no space; for any other name it begins by unloading the loopback, so that none is left when the load then fails |
| `SpotifyRuns.SpacedSinkRemoved` | apps/lumistripe-web/src/bluetooth.rs:670-694 | A concrete sink with a space in its name: after a successful call a second unforced call unloads its loopback, and none is left when the load then fails |
| `SpotifyRuns.SwitchKeepsOne` | apps/lumistripe-web/src/bluetooth.rs:226-266 | A switch leaves at most one loopback; success leaves the new default and, with routing on, exactly one loopback, to that sink exactly for a name without a space |
| `SpotifyRuns.SwitchSucceedsIff` | apps/lumistripe-web/src/bluetooth.rs:226-269 | A switch succeeds exactly when the server takes the new default and, with routing on, the loopback follows |
| `SpotifyRuns.SwitchDefault` | apps/lumistripe-web/src/bluetooth.rs:226-266 | The default after a switch, for every way the commands end |
| `SpotifyRuns.SwitchModules` | apps/lumistripe-web/src/bluetooth.rs:246-266 | The modules after a switch, for every way the commands end |
| `SpotifyRuns.RollbackRestores` | apps/lumistripe-web/src/bluetooth.rs:246-266 | If routing fails and the rollback commands succeed, the previous sink is the default again and exactly one loopback is left, to that sink exactly for a name without a space; it is the server's own previous default exactly when the published status was right |
| `SpotifyRuns.RollbackToStaleDefault` | apps/lumistripe-web/src/bluetooth.rs:246-266 | A concrete switch whose rollback ends on a sink that was not the default of the server |
| `SpotifyRuns.EnsureKeepsOne` | apps/lumistripe-web/src/bluetooth.rs:698-711 | A serialized call keeps at most one loopback, and on success there is exactly one, to the default or else the published sink exactly for a name without a space |
| `SpotifyRuns.EnsureSucceedsIff` | apps/lumistripe-web/src/bluetooth.rs:698-711 | A serialized call succeeds exactly when routing is on, the server answers, a sink is known, and its commands do |
| `SpotifyRuns.RefreshRoutes` | apps/lumistripe-web/src/bluetooth.rs:155-170 | A refresh publishes what was collected; with routing on and a default collected it leaves one loopback to the default when its commands succeed, and touches nothing when it leads there already; disabled it does nothing |
| `SpotifyRuns.NeverTwo` | apps/lumistripe-web/src/bluetooth.rs:155-269 | Over every run of calls, refreshes and other programs' changes, with any command failing, there is never a second loopback |
| `EscapedText.SplitRow` | apps/lumistripe-deploy-helper/src/network_helper.rs:304-330 | The splitting loop computes the specified fields |
| `EscapedText.SplitInvertsJoin` | apps/lumistripe-deploy-helper/src/network_helper.rs:304-330 | Splitting gives back every nonempty list of fields that was escaped and joined, whatever the fields contain |
| `EscapedText.EscapeOneByOne` | apps/lumistripe-deploy-helper/src/network_helper.rs:578-584 | The four replacements in turn escape each character on its own |
| `EscapedText.DecodeKeyfileValue` | apps/lumistripe-deploy-helper/src/network_helper.rs:659-681 | The decoding loop computes the specified value |
| `EscapedText.DecodeInvertsEscape` | apps/lumistripe-deploy-helper/src/network_helper.rs:578-584 | Decoding inverts escaping on every string, and an escaped value is a single line |
| `EscapedText.EveryText` | apps/lumistripe-deploy-helper/src/network_helper.rs:304-330 | Every text whatever, also one no program escaped, is in one way or another plain characters, escapes and separators, with or without an open backslash at its end |
| `EscapedText.RowIsSaid` | apps/lumistripe-deploy-helper/src/network_helper.rs:304-330 | Splitting any text gives the fields that its characters, escapes and separators say; an open backslash stands for itself |
| `EscapedText.ValueIsSaid` | apps/lumistripe-deploy-helper/src/network_helper.rs:659-681 | Decoding any text gives the characters that its characters and escapes say; an open backslash stands for itself |
| `EscapedText.LinesOfReturns` | apps/lumistripe-deploy-helper/src/network_helper.rs:683-725 | Lines that end in a carriage return and a newline are read as the lines without them |
| `WifiProfiles.ProfileContents` | apps/lumistripe-deploy-helper/src/network_helper.rs:596-618 | The contents are the lines of the profile, with the security section only for protected networks |
| `WifiProfiles.ProfileMatches` | apps/lumistripe-deploy-helper/src/network_helper.rs:683-725 | The loop over sections and keys computes whether a profile is for the given adapter and network |
| `WifiProfiles.WrittenProfileMatches` | apps/lumistripe-deploy-helper/src/network_helper.rs:596-725 | A written profile matches exactly its own adapter and network, whatever name, password and network name contain |
| `WifiProfiles.WrittenConnection` | apps/lumistripe-deploy-helper/src/network_helper.rs:597-608 | The connection section of a written profile says the name, identifier, adapter and whether to connect by itself |
| `WifiProfiles.WrittenWireless` | apps/lumistripe-deploy-helper/src/network_helper.rs:597-615 | Its wireless section says the network, whatever characters the name has; both address families are automatic |
| `WifiProfiles.WrittenSecurity` | apps/lumistripe-deploy-helper/src/network_helper.rs:609-614 | A protected network has a security section with its key management and its password, whatever characters it has; an open one has none |
| `ProfileDirectory.Directory.RemoveOldProfiles` | apps/lumistripe-deploy-helper/src/network_helper.rs:727-747 | Exactly the other profiles of the network are removed, but for those that cannot be deleted |
| `ProfileDirectory.OldProfilesAre` | apps/lumistripe-deploy-helper/src/network_helper.rs:727-747 | Among written profiles those are exactly the ones with the same adapter and network |
| `ProfileDirectory.OwnNameIff` | apps/lumistripe-deploy-helper/src/network_helper.rs:727-742 | A file counts as a profile of this program exactly when its name is the prefix, anything, and the extension |
| `ProfileDirectory.Directory.Connect` | apps/lumistripe-deploy-helper/src/network_helper.rs:798-873 | The steps from the first write on leave the specified directory, however each of them ends |
| `ProfileDirectory.OneProfileLeft` | apps/lumistripe-deploy-helper/src/network_helper.rs:798-873 | When a connect succeeds and every old profile can be deleted, the new profile is the only one left for its adapter and network, and the profiles of all others are as they were |
| `ProfileDirectory.ConnectedProfile` | apps/lumistripe-deploy-helper/src/network_helper.rs:798-873 | The profile that a successful connect leaves connects by itself and has the password, key management and network it was given |
| `ProfileDirectory.FailedConnect` | apps/lumistripe-deploy-helper/src/network_helper.rs:852-864 | A failed connect keeps all other profiles exactly when it failed before the removal or nothing was removed; its own profile stays exactly when its first write was saved unsynced, or saved and not cleaned up |
| `ProfileDirectory.LastReloadLosesOldProfile` | apps/lumistripe-deploy-helper/src/network_helper.rs:852-864 | A concrete directory in which a connect that fails at its last reload loses the old profile and its own |
| `ProfileDirectory.UnsyncedProfileStays` | apps/lumistripe-deploy-helper/src/network_helper.rs:798-811 | A concrete directory in which the profile of a failed connect stays |
| `WifiNetworks.BuildTable` | apps/lumistripe-deploy-helper/src/network_helper.rs:461-496 | The loop over the rows builds the specified table |
| `WifiNetworks.TableIsStrongest` | apps/lumistripe-deploy-helper/src/network_helper.rs:492-495 | The table has a name exactly when a valid row has it, and then the first of that name's strongest rows |
| `Decimals.ParseI32Iff` | apps/lumistripe-deploy-helper/src/network_helper.rs:477-480 | A text is read as a number exactly when it spells it, with an optional sign and leading zeros, and 32 bits hold it |
| `WifiRows.RowIff` | apps/lumistripe-deploy-helper/src/network_helper.rs:463-491 | A row reports a network exactly when it has three fields: a name that can be shown, a security, where none or two dashes mean Open, and a number, cut to 0 to 100 |
| `WifiRows.PrintedRow` | apps/lumistripe-deploy-helper/src/network_helper.rs:463-491 | A row printed from a name, a security and a number reports just these |
| `WifiNetworks.AtMostIff` | apps/lumistripe-deploy-helper/src/network_helper.rs:501-511 | Names compare as texts: a common part, after which one ends or has the smaller character |
| `WifiNetworks.ParseNetworks` | apps/lumistripe-deploy-helper/src/network_helper.rs:461-513 | Each valid name is listed exactly once, by falling signal and then lower-case name; on printed rows, with the printed security and the signal, cut to 0 to 100, of the first of its strongest rows |
| `Quadrature.EncoderState.DecodeRotation` | apps/lumistripe-cli/src/encoder.rs:192-214 | A look at the lines updates the decoder and reports a step as specified |
| `Quadrature.Conserved` | apps/lumistripe-cli/src/encoder.rs:192-214 | Over every run the turn since the last jump is four times the net steps since, plus what is pending, which is at most 3 either way |
| `Quadrature.JumpDropsPending` | apps/lumistripe-cli/src/encoder.rs:192-214 | When both lines changed at once no step is reported, and what was pending is dropped |
| `Quadrature.StepsFollowShaft` | apps/lumistripe-cli/src/encoder.rs:192-214 | However a watched shaft bounces, four times the net steps plus what is pending is how far it has turned |
| `Quadrature.RevolutionsReported` | apps/lumistripe-cli/src/encoder.rs:192-234 | Looks in which both lines never change at once, and which end at the levels they began with, have reported exactly the whole detents turned, with nothing pending |
| `Quadrature.DetentsReported` | apps/lumistripe-cli/src/encoder.rs:192-214 | A shaft that rests whole detents away has reported exactly those detents |
| `Quadrature.AcceptedIff` | apps/lumistripe-cli/src/encoder.rs:236-251 | Out of any run of timestamps one is accepted exactly when it lies a window after zero and after every one accepted before |
| `Quadrature.AcceptedApart` | apps/lumistripe-cli/src/encoder.rs:236-251 | Accepted times lie a window apart, even when timestamps run backwards |

## Left out

- ReleaseTransfer.RunFirstPass: when several things are wrong after the end marker, which of the three trailing errors is reported depends on how the reads are cut, so only their class is stated; the verdict itself is exact.
- ReleaseTransfer.ReadArchiveEnd: the same freedom among the trailing errors.
- ReleaseTransfer.RunExtraction: the same freedom among the trailing errors; the manifest check on the extracted tree (`validate_release_dir`) is not part of this model.
- ReleaseRoundTrip.ReleaseRestored: compression is the identity, so the 512 MiB limit on the compressed file does not appear.
- Calendar.CivilDateIsCalendar: day counts before 1970 do not appear, because the seconds are an unsigned count.
- UpdateRuns.EveryDocumentConsistent: initialization takes no lock, so it can also come between two writes of a check; here it is one step between calls. Runs start from no document; a document put there by another program is not covered, nor are the members it may have beyond these.
- PairingHistory.RateLimitedIff: calls take the lock in the order of their times, and a minute can be subtracted from every instant.
- PairingHistory.AuthenticatedIff: the same order of times.
- SpotifyRuns.NeverTwo: each call runs to its end while it holds the permit; a call cancelled between two commands is not covered. A refresh collects the status before it waits for the permit and publishes after releasing it; here it is one step.
- WifiNetworks.ParseNetworks: lower-casing is a parameter, and names that it makes equal may come in either order.
- gzip, SHA-256, attestation, downloads, redirects and URL policy: foreign code; no cryptographic claim is made.
- Temporary names, permissions of temporary files, ownership, symlink and ancestor checks outside the tree: file-system plumbing.
- The modes of extracted directories, file-name limits and free space of file systems, and interrupted reads.
- An input file that changes while it is packaged.
- The sort of each directory listing before the sort of the whole inventory, which does not show in the result.
- The 64 KiB limit on a profile that is read back, and the size limit and JSON text of the status document.
- The checks of a connect request before its first write: adapter name and state, key management, password length.
- Moving playing streams to a new sink, volume and mute, Bluetooth devices and their operations.
- The free-running status poller beyond its effect on the published default sink; resolving a selector to a sink.
- A module list whose entries hold line breaks, and the words of `pactl info` around the default sink's name.
- Random session tokens: a token is whatever the call hands out, even a repeated one.
- The order in which pending GPIO events of several lines are merged, and reading the pins.
- HTTP handlers, schemas, LED effects, audio analysis and engine messages: plumbing or floating point.
