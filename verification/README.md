# Verification of the package-building daemon

The daemon turns directory trees and Debian packages into RPM packages. This project models the parts of it
whose correctness is not visible from one function, and proves what they promise.

* **The file hierarchy walker** (`daemon/fts.c`). `FileSystem` is a fixed graph of inodes with path-name
  look-up. `WalkSpec` holds the recursive walk, which says what the walker is for, and a stack machine with one
  step for each `Fts_read`. `WalkProofs`, `WalkTheorems`, `WalkRuns`, `WalkShape` and `WalkPaths` prove that the
  machine reports the recursive walk, on cyclic graphs too, for every choice of skipped directories. `WalkKinds`
  and `WalkClosing` say from the tree alone which entries a walk shows, as what, and how directories are closed, and
  `WalkBuffer` when it is cut short (`FTS_STOP`). `Fts` is the imperative code: a class with the fields of
  `FTS`, its shared growable path buffer and its linked nodes. Nodes live in an explicit memory map, so that reading
  a freed node or freeing one twice would not be well-formed. Every method is proved against the stack machine;
  `FtsWalk` runs a whole open/read/close session.
* **The lines of %files** (`daemon/files.c`). `LineText` and `LineParser` are the directive parsers, which search
  the line and blank what they have parsed in place. `LineProofs` and `LineFlags` (with the flag words of `Flags`)
  say what they make of a printed line, and `LinePrint` proves that printing and parsing a line is the identity.
  `LineRules` spells out what each word of a directive means, which words are errors, and which fields of the entry
  and of the defaults a line sets; `LineDefaults` does so for lines that only set defaults.
* **The manifest** (`daemon/files.c`). `Manifest` says what one path adds to the list of records, `Files` is the
  imperative `FileList` with the real walker inside `RecurseDir`, `RecordRules` spells out what becomes of one path
  and where each field of its record comes from, `ManifestProofs` relates a recursion to the files below the
  directory, and `ManifestExample` is a small tree on which a glob goes wrong unnoticed.
  `PackageRun` is the loop over the lines, from an empty list to the result, and `SpecialDocs` follows a name behind
  `%doc` through it.
  `HeaderSpec`, `Header`, `HeaderProofs`, `HeaderInodes` and `HeaderFields` cover the header: merging of duplicates
  in place, excludes, inode numbers, sizes and the fields of each entry.
* **The dependency index** (`daemon/rpmfc.c`, `daemon/package.c`): `DepLines`, `DepCodec`, `DepSets`,
  `DepIndex`, `DepProofs`, with the number formats in `Numbers`.
* **The archive scan** (`daemon/debresolve.c`): `ArScan`, `ArProofs`.
* **The string buffer** (`daemon/misc.c`): `StringBuf`; C strings are in `CStrings`.

Some natural claims about this code are false. In each such case the code is modelled as it is, a lemma or contract
gives the exact condition under which the claim holds, and, but for the leak on closing, which depends on what memory
happens to hold, a lemma names inputs on which it fails:

* A recursion that succeeds has not always listed the whole directory: `Fts_read` returns `NULL` both at the end
  and after `FTS_STOP`, and `recurseDir` does not ask. The list is complete exactly when the path buffer, grown for
  one directory of the tree after the other, stays below the 16-bit limit (`DirectoryWhole`, `StoppedIff`). The
  inputs on which it is not (`TruncatedUnnoticed`) lie outside the limits of the system: with names of at most 255
  bytes, and no directory opened by a path of 4096 bytes or more, the list is always complete
  (`DirectoryComplete`).
* A glob pattern of which a match was added in part can still count as added. It does exactly when no match is
  refused and the recursion into the last one does not break off (`GlobVerdict`, `Outcome`). A recursion breaks off
  at a visit of an unreadable directory, of something that cannot be stat'ed or of a cycle, among those that the path
  buffer lets the walk reach (`VerdictIs`). Unless the buffer gets too large, it does so exactly if the directory
  leads to an entry without an inode, to a directory that cannot be read or to one of the directories above it
  (`BreaksOffAtBad`). `GlobUnnoticed` is a tree on which a file is missing.
* The most explicit of several duplicate records does not always win (`ThirdDuplicateWins`, `MostExplicitWins`).
* The size of an emitted file can be missing from the total: when the first record of a hard-linked file is
  excluded (`ExcludedLinkUncounted`) or an earlier duplicate (`DuplicateLinkUncounted`). The total is the sum over
  the emitted files, all hard links of an inode being one file and every other path a file of its own, exactly when
  of every linked file among them that is not empty the first record is emitted (`TotalIff`). A file with one link
  that is listed under two paths is stored and counted twice (`AliasCountedTwice`).
* A documentation file that is accepted is not always in the package: relative names behind `%doc` are collected and
  then dropped. An accepted name is added exactly if it is absolute (`DocAdded`, `ReadmeDropped`).
* An `%attr` mode above 07777 can change the file type of a record (`FileModeType`, `FileTypeLost`).
* A dependency whose name or version contains a blank does not survive the key format (`RoundTrip`, `BlankLost`).
* Weak dependencies, conflicts and obsoletes of a file are looked up among the requires, and found exactly when the
  package or one of its files requires the very same dependency (`OthersAmongRequires`, `RecommendLost`).
* Closing a stream before the first read leaks the list of roots if the level of the dummy node, which is never
  set, happens to be negative (`Fts.Fts.Close`).
* An `%attr` without its closing parenthesis is accepted, and the blanking goes on over the end of the line
  (`ParseForAttr`, `UnclosedAccepted`).
* `read_line` writes its NUL behind the buffer exactly when no newline is among all bytes that fit but the last one
  (`ReadLine`, `LongLine`).
* The closing visit of an empty directory given as `dir/` is reported as `dir` (`EmptyRootClosing`,
  `EmptyRootRenamed`).

`dafny verify dfyconfig.toml` checks everything.

## Model

| member | source | states |
|---|---|---|
| FileSystem.LookupJoin | daemon/fts.c:669-677 | looking up the path string built by the walker gives the directory entry of that name, so walking by path strings is walking the inode graph |
| WalkProofs.StepWf | daemon/fts.c:287-471 | every step keeps the invariant of the walker: linked directories, path bounds, levels, no directory among its own ancestors |
| WalkProofs.KidPathLength | daemon/fts.c:734-736 | every level adds at least two characters to the path |
| WalkProofs.GrowForFits | daemon/fts.c:699-736 | after fts_build every stored path fits the buffer with its NUL and its length fits 16 bits |
| WalkProofs.KeptIn | daemon/fts.c:692-697 | the entries reported are those of the directory, without "." and ".." unless asked for |
| WalkProofs.KeptOrder | daemon/fts.c:692-697 | the entries reported are in the order of the directory, none twice and none but the dots left out |
| WalkTheorems.StepFuture | daemon/fts.c:287-471 | one Fts_read reports exactly the next visit of the recursive walk that remains, or stops, or ends a finished walk |
| WalkRuns.OpenFuture | daemon/fts.c:88-203 | after Fts_open the walk that is to come is the recursive walk of the roots in order |
| WalkRuns.RunIsWalk | daemon/fts.c:287-471 | reading to NULL gives a prefix of the walk that was to come, the whole of it if and only if FTS_STOP was not set |
| WalkRuns.WalkIsRecursive | daemon/fts.c:287-471 | opening and reading to NULL gives the recursive walk of the roots, for any skipped directories, cut short only by FTS_STOP |
| WalkRuns.AncestorsDistinct | daemon/fts.c:900-906 | on any graph, cyclic or not, the directories above a node are pairwise distinct inodes |
| WalkRuns.DepthBound | daemon/fts.c:900-906 | no node lies deeper than there are directories |
| WalkRuns.FieldsFit | daemon/fts.h:106-115 | fts_level fits a signed and fts_pathlen an unsigned 16-bit field in every reachable state |
| WalkShape.BracketsWalk | daemon/fts.c:338-348 | pre-order and closing visits of the walk are matching brackets: each directory, skipped or not, is closed exactly once after everything inside it |
| WalkShape.WalkIsWhole | daemon/fts.c:1006-1033 | if no path is longer than 32638 bytes the walk is never cut short and everything is released |
| WalkShape.RunCut | daemon/fts.c:699-732 | FTS_STOP always leaves out at least one entry |
| WalkKinds.ShownWalk | daemon/fts.c:836-913 | every opening visit of a walk is of an entry that a root leads to, and shows it by the inode under its path: NS exactly without an inode, SL for a link seen by lstat, SLNONE for a followed link without target, F for a regular file, DOT, D or DC for a directory, DC exactly if it is one of the directories above |
| WalkKinds.WalkShows | daemon/fts.c:572-833 | a path is opened if and only if the root leads to it through names of readable directories, none of them a link unless followed, none of them above itself |
| WalkKinds.AfterWalk | daemon/fts.c:332-382 | the visit after the opening of a directory is its closing if it is skipped or has nothing to report, DNR if it cannot be read, and otherwise the opening of an entry inside |
| WalkClosing.ClosedWalk | daemon/fts.c:430-470 | each directory of a walk is closed under the path it was opened with, or as unreadable, or without its slash when it has nothing to report, and everything in between lies below it |
| WalkKinds.BadInTree | daemon/fts.c:836-913 | a walk meets NS, DNR or DC if and only if the root leads to an entry without inode, an unreadable directory or a directory above itself |
| WalkPaths.PathsWalk | daemon/fts.c:422-425 | for roots not ending in a slash each reported path is a root and names joined by single slashes, and fts_level counts the names |
| WalkPaths.OnceWalk | daemon/fts.c:287-471 | below one root no path is reported twice, closing visits aside |
| WalkPaths.EmptyRootClosing | daemon/fts.c:797-805 | the closing visit of an empty root shows the path of its opening visit if and only if that path does not end in a slash |
| WalkPaths.EmptyRootRenamed | daemon/fts.c:797-805 | an empty directory /d given as /d/ opens under that name and closes under another |
| WalkBuffer.RoomFor | daemon/fts.c:699-732 | for each name the path buffer stays if the path and a NUL fit, else grows by their length and 256 bytes, and the walk stops at 65535 |
| WalkBuffer.OpenIff | daemon/fts.c:120-168 | Fts_open succeeds if and only if no argument is empty or of 65278 bytes and more, with a buffer of 1280 bytes or 257 more than the longest argument |
| WalkBuffer.StepCap | daemon/fts.c:699-732 | a step changes the size of the path buffer only on entering a directory, as the names of its entries say, and stops the walk exactly when there is no such size |
| WalkBuffer.StoppedIff | daemon/fts.c:699-732 | FTS_STOP is set if and only if the buffer, grown for one directory of the recursive walk after the other from its size in Fts_open, reaches the 16-bit limit |
| WalkBuffer.ReportedFits | daemon/fts.c:699-732 | whether cut short or not, a walk reports exactly the visits of the recursive walk up to the directory whose names make the buffer too large |
| FtsMemory.RepPop | daemon/fts.c:385-440 | freeing the current node leaves a memory that is again exactly the remaining stack |
| FtsMemory.RepGrown | daemon/fts.c:787-795 | linking the new children on top leaves a memory that is exactly the grown stack |
| CStrings.CopyAt | daemon/fts.c:424 | copies a string with its NUL behind a prefix that stays as it is |
| CStrings.CStrIs | daemon/fts.c:424 | a buffer that holds a string and a NUL reads back as that string |
| Fts.Fts.constructor | daemon/fts.c:104-107 | a stream starts with nothing allocated |
| Fts.Fts.Palloc | daemon/fts.c:1006-1033 | the buffer grows by the request and 256 bytes and keeps its text, or is freed when it would reach the 16-bit limit |
| Fts.Fts.Alloc | daemon/fts.c:952-985 | a new node, distinct from all live ones, with its name |
| Fts.Fts.Lfree | daemon/fts.c:988-997 | exactly the nodes of a linked list are freed, each once |
| Fts.Fts.StatNode | daemon/fts.c:836-913 | fts_info and the stat buffer are those of the inode the path leads to, and a directory among the node's ancestors is a cycle |
| Fts.Fts.Reserve | daemon/fts.c:699-732 | room for one more name behind the path, or failure exactly when the path would reach 65535 bytes or the buffer, with the name, the path and 257 bytes more, would |
| Fts.Fts.MakeEntry | daemon/fts.c:697-775 | the node of a directory entry is stat'ed under its full path |
| Fts.Fts.BuildList | daemon/fts.c:690-787 | the linked list holds the reported entries of the directory in its order; on failure every node made so far is freed |
| Fts.Fts.AddEntry | daemon/fts.c:697-787 | one more entry goes to the end of the list, or nothing changes when there is no room for its name |
| Fts.Fts.Build | daemon/fts.c:572-833 | reads a directory: the list of its entries, or DNR, DP or a stopped walk, with the path buffer restored |
| Fts.Fts.AppendName | daemon/fts.c:422-425 | the path buffer then holds the path of the directory and the name |
| Fts.Fts.Load | daemon/fts.c:206-227 | the path buffer holds the argument of the root, and the name of the node becomes its last component, the root directory keeping its slash |
| Fts.Fts.ReadDir | daemon/fts.c:332-382 | on a directory in pre-order: skips it, enters it, or reports that it is empty or unreadable, as the stack machine does |
| Fts.Fts.Next | daemon/fts.c:385-470 | on any other node: frees it and moves on, as the stack machine does |
| Fts.Fts.Forward | daemon/fts.c:387-428 | the next sibling or root becomes current, under its path |
| Fts.Fts.Upward | daemon/fts.c:430-470 | after the last entry the directory becomes current again, with its path cut back, or the walk ends with nothing allocated |
| Fts.Fts.Read | daemon/fts.c:287-471 | Fts_read is one step of the stack machine, and the node, the stat data, the level and the C string in the path buffer are those of the visit |
| Fts.Fts.SetSkip | daemon/fts.c:480-489 | sets FTS_SKIP on the current node without touching the walk |
| Fts.Fts.MakeRoots | daemon/fts.c:131-168 | one node for each argument in order, or none left allocated when an argument is empty |
| Fts.Fts.Setup | daemon/fts.c:88-203 | fts_open succeeds exactly when no argument is empty and the buffer is below the limit, in the start state of the stack machine or, without arguments, with nothing behind the dummy node; otherwise nothing stays allocated |
| Fts.Fts.Close | daemon/fts.c:230-276 | all nodes are freed, each once, if and only if there is no current node or its level is not negative |
| Fts.MaxArg | daemon/fts.c:1064-1072 | the length of the longest argument with its NUL |
| Fts.Open | daemon/fts.c:88-203 | opens a fresh stream in the start state of the stack machine (with no arguments, one that has nothing to read), or leaks nothing |
| FtsWalk.WalkAll | daemon/fts.c:287-471 | a client that opens, reads to NULL, skips as it likes and closes sees the recursive walk, complete unless stopped, and no node stays allocated |
| FtsWalk.LevelSet | daemon/fts.c:180-183 | from the first Fts_read on the level of the current node is set, so that closing frees everything |
| LineText.CutInPlace | daemon/files.c:269-295 | the first occurrence of a directive is found, and its name and parenthesis are blanked in the buffer, the line keeping its length and its NUL |
| LineText.WordsBack | daemon/files.c:298-305 | words joined by white space or commas are read back by the token loop |
| LineParser.VfaMatch | daemon/files.c:241-252 | the flag of the token is added, and 0 tells that there is none |
| LineParser.ParseForVerify | daemon/files.c:261-326 | the flags of %verify, negated for an odd number of "not", or failure without parentheses or with an unknown word |
| LineParser.ParseForAttr | daemon/files.c:434-550 | mode, owner and group of %attr; the NUL of the line is blanked if and only if the closing parenthesis is missing |
| LineParser.UnclosedAccepted | daemon/files.c:458-480 | a line that ends within the arguments of %attr is accepted |
| LineParser.ParseForConfig | daemon/files.c:564-617 | %config with or without words |
| LineParser.ParseForLang | daemon/files.c:653-705 | all %lang directives of the line, each locale going into the sorted list once |
| LineParser.ParseForSimple | daemon/files.c:787-816 | attribute words add their flags and all other tokens are file names, relative ones being allowed for documentation, licenses and keys only |
| LineParser.ParseLine | daemon/files.c:1680-1708 | the parsers one after the other on the buffer of a line compute the entry, the defaults and the names of ParseText |
| LineRules.CutSpelled | daemon/files.c:269-295 | the first occurrence of a directive is cut: blanks instead of its name and parentheses, the text in between, or which part is missing, and every other character stays |
| LineRules.WordEnds | daemon/files.c:26-28 | the words of a directive end at white space or a comma, and nowhere else |
| LineRules.VerifyRule | daemon/files.c:298-322 | %verify and %defverify fail exactly on a word that is neither "not" nor the name of a flag; otherwise the bits set are those of the words, or all others with an odd number of "not" |
| LineRules.AttrWordsAre | daemon/files.c:480-541 | three words, or four for %defattr, the modes octal or a dash; a dash leaves the attribute unset, and the fourth word is the mode of directories |
| LineRules.OctalValue | daemon/files.c:510-536 | any octal number, with a sign or none and with zeros in front, is read up to the first other character |
| LineRules.UnsignedIs | daemon/files.c:510-536 | modulo 2^32, negated for a minus sign, with all bits set beyond 64 bits |
| LineRules.AttrRule | daemon/files.c:434-550 | the attributes come from the words between the parentheses, and only white space may follow %defattr |
| LineRules.ConfigRule | daemon/files.c:564-617 | %config adds its flag, and those of its words, all of which must be known |
| LineRules.AddLangIs | daemon/files.c:619-645 | a locale of proper length is put into the sorted list once; the lengths refused are 0, 1 unless "C", and 32 or more |
| LineRules.BlankLocale | daemon/files.c:653-705 | blanks behind the last locale of %lang make it fail |
| LineRules.SimpleTokenIs | daemon/files.c:787-816 | a word with a percent sign adds its flag; any other is a file name, which must be absolute unless %pubkey, %doc or %license stands in front |
| LineRules.QuotedToken | daemon/files.c:179-215 | a quoted name keeps its blanks and loses its quotes |
| LineRules.TokenEnds | daemon/files.c:179-215 | any other token ends at a blank, a tab or a newline, and nowhere else |
| LineRules.LineFields | daemon/files.c:1689-1706 | on every line that is accepted each directive sets its own fields and no others, in the entry of the line or in the defaults, and the bits that say so |
| LineDefaults.DefAttrLine | daemon/files.c:434-550 | a line with only %defattr names no file and replaces owner, group and both modes of the defaults from then on |
| LineDefaults.DefVerifyLine | daemon/files.c:261-326 | a line with only %defverify names no file and replaces the verify flags of the defaults |
| LineProofs.CutFirst | daemon/files.c:269-295 | cutting the first directive of a printed line gives its arguments and the printed line of the others behind blanks |
| LineFlags.OrNames | daemon/files.c:241-252 | adding the flags of the words printed for a set of flags gives the set |
| LinePrint.LineRoundTrip | daemon/files.c:1680-1708 | printing and parsing a line gives back every verify set, negated or not, every mode, owner and group, every set of configuration flags, every sorted list of locales, every set of attribute words and the path, and leaves the defaults alone |
| LineRules.LineSpelled | daemon/files.c:1689-1708 | the entry of a printed line, field by field: without %verify the verify flags of the defaults, without %attr no mode, owner and group, and exactly the flags of its words |
| LineRules.ExplicitSpelled | daemon/files.c:1693-1694 | of the bits that say how explicitly an attribute is given, those for the line are set by %attr and %verify, and those for the defaults if and only if the defaults have them |
| Manifest.FileModeType | daemon/files.c:504-515 | an explicit mode keeps the file type if and only if its bits above 07777 lie within that type |
| Manifest.FileTypeLost | daemon/files.c:504-515 | the mode 040755 turns a regular file into a socket |
| RecordRules.PathAdded | daemon/files.c:1213-1400 | what becomes of a path in all cases: nothing outside the build root, an error if it is missing unless excluded, or not a directory when given as one; a directory without %dir is recursed into; in all other cases exactly one record is added |
| RecordRules.RecordSpelled | daemon/files.c:1300-1393 | the fields of a record: disk path, path in the archive, stat data, mode and owner and group in the order %attr, %defattr, disk, builder, links keeping their mode, and the rest from the line |
| RecordRules.StatOfIs | daemon/files.c:1268-1270 | the stat data that lstat finds, the file type being that of the inode |
| RecordRules.FakeStatIs | daemon/files.c:1183-1204 | the stat data made up for a device or a missing %ghost: its type, nine permission bits, one link, size 0 and the time of the build |
| RecordRules.NameAdded | daemon/files.c:1512-1596 | a name with a slash at its end, or on a line with %dir, must be a directory; the slash makes it recursed into, the %dir gives it a record of its own |
| RecordRules.LargeName | daemon/files.c:1385-1389 | after any name the flag for large files says whether some regular file that is not excluded is of 2^32-1 bytes or more |
| RecordRules.GlobCat | daemon/files.c:1560-1596 | the matches of a pattern are added in order, each on top of the ones before |
| Manifest.StatedWhole | daemon/files.c:1420-1428 | every node that is added carries stat data, below the root those of lstat on its path |
| Manifest.TakenNext | daemon/files.c:1418-1446 | a visit adds its record, adds nothing, or ends the recursion |
| Manifest.FoundOnDisk | daemon/files.c:1265-1299 | only directories that exist are descended into |
| Manifest.ReportedIsWhole | daemon/files.c:1417-1418 | the nodes that a recursion sees are those of the recursive walk of the directory, unless the walker was stopped |
| ManifestProofs.DirectoryListed | daemon/files.c:1408-1449 | a recursion adds one record for each entry in walk order, each being the record the entry would get by itself, or exactly those before the first bad entry; it succeeds if and only if no reported entry is bad |
| RecordRules.RecordedIs | daemon/files.c:1419-1430 | the record of an entry of a directory follows the same rules as that of a path of its own |
| ManifestProofs.DirectoryWhole | daemon/files.c:1417-1446 | after success the records are those of all entries if and only if the path buffer for the tree stays below the 16-bit limit |
| ManifestProofs.DirectoryComplete | daemon/files.c:1417-1446 | within the limits of the system for names and paths, a recursion that succeeds lists every entry |
| ManifestProofs.DirectoryOnce | daemon/files.c:1408-1449 | no disk path and no archive path is recorded twice |
| ManifestProofs.CpioPathOf | daemon/files.c:1250-1255 | the disk path of a record is the build root and its archive path, but for the root itself |
| ManifestProofs.TruncatedUnnoticed | daemon/files.c:1417-1446 | a directory whose names alone outgrow the path buffer, which takes longer names than the system has, is added without its contents and reported as success |
| ManifestProofs.Outcome | daemon/files.c:1213-1400 | a path is added unless it is refused or its recursion breaks off, both being decided by the tree; only a refusal marks the list as failed |
| ManifestProofs.VerdictIs | daemon/files.c:1417-1446 | a recursion into a directory is refused at once if its path without the slash is outside the build root, and otherwise breaks off if and only if the tree has, within reach of the path buffer, an entry that is unreadable, cannot be stat'ed or closes a cycle |
| ManifestProofs.BreaksOffAtBad | daemon/files.c:1417-1446 | unless the path buffer gets too large, a recursion breaks off if and only if the recursive walk of the directory has a bad visit, that is, if the directory leads to an entry without inode, an unreadable directory or a directory above itself |
| ManifestProofs.GlobVerdict | daemon/files.c:1571-1576 | a glob counts as added without a mark if and only if no match is refused and the tree of the last one lets its recursion through |
| ManifestExample.GlobUnnoticed | daemon/files.c:1571-1576 | a directory with an unreadable subdirectory and a plain file behind it, matched by one glob: success without a mark, and a file of the directory is missing |
| ManifestProofs.BinaryVerdict | daemon/files.c:1526-1597 | a name is added without a mark if and only if it starts with a slash, is not a glob for a device, and its path or its matches are added; a relative name adds nothing and fails |
| PackageRun.ProcessPackageFiles | daemon/files.c:1647-1773 | the loop over the lines accepts the list if and only if the run of its lines does not fail, and then holds the records and documentation directories of the run |
| PackageRun.RunParts | daemon/files.c:1680-1757 | the list is what each line adds by itself, one after the other, and fails if and only if one of them does: lines pass on nothing but the defaults |
| PackageRun.DefNext | daemon/files.c:1689-1707 | the defaults behind a line are those that parsing it leaves |
| PackageRun.RootByDefault | daemon/files.c:1667-1671 | before any default is set everything belongs to root and is verified in all respects |
| PackageRun.RunVerdict | daemon/files.c:1680-1760 | a list is accepted if and only if each line, with the defaults of the lines before it, is blank, or parses and has at most one name, which can be added, or has only relative names of documentation |
| PackageRun.LineAdds | daemon/files.c:1710-1753 | what an accepted line adds: the records of its name, which %dir makes an explicit directory, or a documentation directory, or those of a key with an absolute name, or nothing |
| PackageRun.RunTotal | daemon/files.c:1647-1774 | for any list of lines and any sort of its records the flag for large files covers them, links agree in size, and the total is right if and only if the first link of each linked packed file is packed |
| SpecialDocs.DocAdded | daemon/files.c:1711-1735 | an accepted name behind %doc is added if and only if it is absolute |
| SpecialDocs.ReadmeDropped | daemon/files.c:1711-1735 | the line "%doc README" is accepted and adds nothing |
| ManifestProofs.AddStateLocal | daemon/files.c:1213-1400 | what a path adds does not depend on what was added before |
| ManifestProofs.AllAddedFromTree | daemon/files.c:1265-1365 | whatever is added, a record with several links carries the size and the link count of an inode of the tree |
| Files.FileList.constructor | daemon/files.c:1655-1665 | an empty list with its build root |
| Files.FileList.AddFile | daemon/files.c:1213-1400 | the outcome for every kind of path: outside the build root, missing, ghost or device, wrong kind, directory, file |
| Files.FileList.RecurseDir | daemon/files.c:1408-1449 | the walk of the directory, record by record until a node cannot be added, with the walker closed and nothing left allocated |
| Files.FileList.AddMatches | daemon/files.c:1571-1575 | the matches one after the other, the result being the last one's |
| Files.FileList.ProcessBinaryFile | daemon/files.c:1526-1597 | one name of a %files line, its failure being entered into the list |
| Header.CheckHardLinks | daemon/files.c:860-878 | true if and only if two records are hard links of one file |
| Header.SeenHardLink | daemon/files.c:880-889 | the first record in front that is hard-linked, if there is one |
| Header.MergeDuplicates | daemon/files.c:957-1005 | merges a run of equal paths in place; the last record of the run holds the merged attributes and the rest keep their stat data |
| Header.GenCpioListAndHeader | daemon/files.c:953-1125 | the in-place loop emits the specified entries, disk paths and total, and chooses the size tag by the total |
| HeaderProofs.ExcludedRun | daemon/files.c:963-964 | a merged record is excluded if and only if one of its duplicates is |
| HeaderProofs.EmittedLast | daemon/files.c:950-959 | in sorted records an emitted one is the last of its path |
| HeaderProofs.EntriesAt | daemon/files.c:1007-1016 | the k-th entry and the k-th disk path come from the k-th emitted record |
| HeaderProofs.NamesExact | daemon/files.c:950-1016 | the names are strictly increasing and exactly the paths none of whose records is excluded, and each disk path belongs to its name |
| HeaderProofs.NamesStable | daemon/files.c:950-951 | any two sorts of the same records emit the same names |
| HeaderProofs.BeforeTotal | daemon/files.c:820-825 | the comparison of the sort is total |
| HeaderProofs.BeforeIs | daemon/files.c:820-825 | a path comes before another if it is a proper beginning of it or has the smaller character at the first difference |
| HeaderInodes.MergedSame | daemon/files.c:972-1003 | merging does not change which file a record stands for |
| HeaderInodes.InodesAreLinks | daemon/files.c:1032-1066 | two emitted records get the same file id if and only if they are hard links, whatever was merged or excluded in between |
| HeaderInodes.InodeNumbers | daemon/files.c:1062-1065 | the same for the 32-bit inode numbers in the header, none of which is 0 |
| HeaderInodes.SizesExact | daemon/files.c:1023-1030 | without the flag for large files no size of an emitted regular file is cut to 32 bits |
| HeaderInodes.CountedLink | daemon/files.c:1033-1035 | of the hard-linked records of a file exactly the first one is a candidate for the total |
| HeaderInodes.TotalIsSum | daemon/files.c:1033-1036 | without duplicates and excludes the total is the sum over the regular files, all hard links of an inode counting once and every other path for itself |
| HeaderInodes.TotalIff | daemon/files.c:1033-1036 | for any sorted records whose links agree in size, the total is the sum over the emitted regular files, the hard links of an inode being one file, if and only if of every emitted linked file that is not empty the first record is emitted |
| HeaderInodes.TreeAgrees | daemon/files.c:953-1036 | records made from one tree agree in the size of linked files, in whatever order the sort leaves them |
| HeaderInodes.AliasCountedTwice | daemon/files.c:953-1036 | a file with one link listed under two paths is emitted and counted twice |
| HeaderInodes.DuplicateLinkUncounted | daemon/files.c:957-1035 | with two linked duplicates the size of the emitted file is missing |
| HeaderInodes.ExcludedLinkUncounted | daemon/files.c:1033-1035 | with an excluded first link the size of an emitted file is missing |
| HeaderInodes.MergedAttributes | daemon/files.c:984-1001 | owner, group and verify flags of a merged record come from the start of the last falling run of explicitness |
| HeaderInodes.MergedMode | daemon/files.c:972-981 | the same for the mode, directories and files having their own flags |
| HeaderInodes.MostExplicitWins | daemon/files.c:972-1001 | the attribute is a most explicit one if and only if explicitness strictly falls from a most explicit record to the last |
| HeaderInodes.ThirdDuplicateWins | daemon/files.c:984-990 | an explicit owner is lost behind two equally weak duplicates |
| HeaderFields.EntryFields | daemon/files.c:1016-1072 | an entry shows the name, size, time, device, languages and capabilities of the last record of its path, and the owner, group and mode of the winning records |
| HeaderFields.EntryFlags | daemon/files.c:1101-1115 | a flag of an entry is set if and only if some record of the path has it, or it is the documentation flag of a path inside a documentation directory; directories lose three flags, internal bits go; the verify flags are those of the winner, for a %ghost without four |
| HeaderFields.WinnerIs | daemon/files.c:972-1003 | the winner is the record from which explicitness falls strictly to the last one |
| Numbers.NumberBack | daemon/rpmfc.c:756-773 | a padded number printed in base 10 or 16 is read back by strtol |
| DepCodec.ParseKey | daemon/rpmfc.c:756-773 | the pointer loops cut a key at its blanks |
| DepCodec.RoundTrip | daemon/rpmfc.c:397-406 | a key decodes to the same file number, type and dependency if and only if name and version have no blanks |
| DepCodec.BlankLost | daemon/rpmfc.c:397-406 | the name "a b" is not read back |
| DepCodec.FileBack | daemon/rpmfc.c:756-766 | the file number is read back whatever the name and version are |
| DepCodec.KeysDiffer | daemon/rpmfc.c:401-403 | different dependencies without blanks have different keys |
| DepSets.InsertIs | daemon/rpmfc.c:530 | merging keeps a set sorted, without duplicates, and adds exactly the new dependency |
| DepSets.SlotLeft | daemon/package.c:124-136 | twelve slots are enough for the eight tags, so a slot is always found |
| DepSets.Package.constructor | daemon/rpmfc.c:693-703 | a new package has no dependencies |
| DepSets.Package.Dependencies | daemon/package.c:124-136 | the slot of the tag, or the first free slot |
| DepSets.Package.Merge | daemon/rpmfc.c:530 | adds a dependency under its tag and leaves the other tags alone |
| DepIndex.Rpmfc.constructor | daemon/rpmfc.c:853-859 | for a package with dependencies of its own: no keys, no index, and zero starts and counts for all files |
| DepLines.ParseDep | daemon/rpmfc.c:436-474 | a line is understood if and only if it has one word, or three of which the middle one has only "<", "=" and ">"; its flags say which of them occur in it |
| DepLines.ParseLineIs | daemon/rpmfc.c:436-523 | the same for the specification, which says what the words mean |
| DepIndex.Rpmfc.Helper | daemon/rpmfc.c:486-551 | the well-formed lines that are not excluded are merged and recorded in order; the result is the number of the others |
| DepIndex.Rpmfc.Index | daemon/rpmfc.c:751-795 | the second phase builds the index and the slices of all files |
| DepIndex.Rpmfc.Apply | daemon/rpmfc.c:706-798 | both phases on the output of the generators, on top of what the package already provides and requires |
| DepIndex.CollectInOrder | daemon/rpmfc.c:723-746 | ids are nondecreasing in the file number |
| DepIndex.IndexedNext | daemon/rpmfc.c:775-795 | looking up one more key extends exactly the slice of its file |
| DepProofs.SlicesPartition | daemon/rpmfc.c:784-793 | the slices lie behind each other without gaps from 0 to the end of the index, and each holds the resolved keys of its file in recording order |
| DepProofs.KeysOfFile | daemon/rpmfc.c:397-406 | the keys of a file are those of its own reports, each once, in the order of the first report |
| DepProofs.SetsAre | daemon/rpmfc.c:530 | the final sets are sorted and hold exactly what they held before and what was reported under their tag |
| DepProofs.FileReportsAre | daemon/rpmfc.c:514-545 | a dependency is reported for a file if and only if a line of some generator that ran on it means that dependency and is not excluded |
| DepProofs.AppliedSets | daemon/rpmfc.c:706-798 | after both phases a set holds what the package had there and exactly the dependencies that the lines of the generators mean |
| DepProofs.PackageSorted | daemon/package.c:124-136 | the sets of every package are sorted to start with |
| DepProofs.DependencyFound | daemon/rpmfc.c:775-785 | every provided or required dependency is found in the slice of its file by its letter, P or R, and its position in the final set |
| DepProofs.SliceReported | daemon/rpmfc.c:775-785 | everything in the slice of a file was reported for it |
| DepProofs.OthersAmongRequires | daemon/rpmfc.c:531-532 | any other kind is indexed if and only if the package or some file requires the very same dependency, and then as a require |
| DepProofs.RecommendLost | daemon/rpmfc.c:531-532 | a recommendation that nothing requires is not indexed |
| DepProofs.PackBack | daemon/rpmfc.c:785 | type and index are read back from a packed value if and only if the index is below 2^24 |
| ArScan.ReadLine | daemon/debresolve.c:231-256 | at the end of the file 0, otherwise the buffer holds the magic line exactly if the file does; the NUL falls behind the buffer exactly when it is full and has no newline in front of its last byte |
| ArScan.LongLine | daemon/debresolve.c:231-256 | a file of forty letters makes the NUL fall behind the buffer |
| ArScan.ScanMembers | daemon/debresolve.c:291-374 | the member loop computes the scan of the members from behind the magic line |
| ArProofs.HeaderBack | daemon/debresolve.c:302-310 | name and size of a member are read back from its header, with or without a slash; a name that fills its field reads on into the rest of the header |
| ArProofs.SizeIs | daemon/debresolve.c:302-310 | a size field is blanks, a number and then the end or a blank; a blank field is 0 and anything else ends the program |
| ArProofs.BadHeader | daemon/debresolve.c:295-310 | a header that is cut off, has no mark at its end or no size ends the scan without a member |
| ArProofs.RoleIs | daemon/debresolve.c:338-361 | which member a name stands for, and what it is decompressed with, by its spelling |
| ArProofs.FullName | daemon/debresolve.c:338-345 | a member whose name fills its field is never taken for the control member |
| ArProofs.ScanMember | daemon/debresolve.c:302-373 | what happens at a member depends on its name and length only, at the version member on its content |
| ArProofs.ScanFinds | daemon/debresolve.c:295-374 | on an archive the scan stops at the first data byte of the wanted member with its length; it is rejected if and only if the version is bad or there is no wanted member |
| StringBuf.StrippedIs | daemon/misc.c:41-50 | only blanks at the end are removed, and all of them |
| StringBuf.StringBufRec.constructor | daemon/misc.c:20-30 | a new buffer is empty |
| StringBuf.StringBufRec.Grow | daemon/misc.c:63-68 | reallocation keeps the text |
| StringBuf.StringBufRec.Append | daemon/misc.c:57-80 | the text is followed by the string and, if asked for, a newline |
| StringBuf.StringBufRec.StripTrailingBlanks | daemon/misc.c:41-50 | the text loses its trailing blanks |

## Left out

- Fts.Fts.Build: no FTS_NOSTAT, no comparison function (`fts_sort`), no whiteouts and no chdir(2): only the configuration without a change of directory.
- Fts.Fts.ReadDir: no FTS_XDEV, FTS_AGAIN, FTS_FOLLOW and no Fts_children, so fts_child is always null between calls and FTS_SKIP is set on returned nodes only.
- Fts.Fts.Palloc: malloc(3) and realloc(3) do not fail; the buffer is addressed by offsets, so fts_padjust has nothing to do. fts_pathlen itself is an unbounded number; it stays below 65535 between calls.
- Fts.Fts.Read: a stream opened without arguments is not read or closed; its dummy node has no successor and a parent that was never set.
- Fts.Fts.Alloc: nodes are entries of a memory map instead of heap objects, because the code frees them; fts_cycle, fts_number and fts_pointer are not modelled, and MAXPATHLEN is 1024 because the header that defines it otherwise is not included.
- FileSystem.LookupJoin: the file system does not change during a walk; permissions other than an unreadable directory are not modelled, PATH_MAX and NAME_MAX only as the conditions of DirectoryComplete, and the target of a symbolic link is given by the inode it finally leads to.
- Files.FileList.AddFile: string pool ids stand for their strings; the list for the check-files script is never filled by the daemon.
- Files.FileList.ProcessBinaryFile: macro expansion, canonical paths and globbing are parameters.
- Header.GenCpioListAndHeader: qsort(3) is represented by its result, which the lemmas only require to be sorted; file digests, link targets, removed postfixes, language tags and the rpmlib features are not modelled.
- HeaderInodes.TotalIsSum: the specification sums without bound, the method reduces modulo 2^64; that linked files do not change their size while the list is made is required, and met by records of one fixed tree.
- HeaderInodes.InodesAreLinks: requires that records of one path were made from one file.
- DepIndex.Rpmfc.Helper: running the generators, splitting their output into words and the exclude patterns are parameters; the sets of librpm are sorted sequences.
- DepIndex.Rpmfc.Index: the strings of the pool are not overwritten while they are cut up; each is read once. The index is taken at the end of rpmfcApplyInternal, before rpmlib requires are added.
- ArScan.ScanMembers: only the new format up to the member; the number parser of the version line and the extra compressor names are parameters, and what a NUL behind the buffer overwrites is not modelled.
- StringBuf.StringBufRec.Append: lengths are unbounded numbers.
- LineParser.ParseLine: no %dev and %caps; a line with an unclosed %attr or %defattr is not parsed on, since the code then reads behind the line; what a line that fails leaves in its buffer, and the NULs that strtok writes, do not matter any more.
- PackageRun.ProcessPackageFiles: reading keys and expanding names are parameters, and what %pubkey puts into the header is left out; lines with an unclosed %attr are excluded; the defaults that a line changes before it fails are not followed, since the whole list is dropped then.
- LineParser.ParseForAttr: an unclosed %defattr is excluded, because the code looks at the byte behind the end of the line.
- LinePrint.LineRoundTrip: for lines as PrintLine lays them out; %defverify and %defattr are printed on lines of their own only (DefAttrLine, DefVerifyLine), relative names of documentation and keys are not printed.
- File classification, colors and dictionaries of rpmfc.c, and everything in librpm, libdpkg, libmagic and libcap.
- Package writing and signatures, processes and pipes, the D-Bus service and its locking, logging, the extensions and the greeter.
