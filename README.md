# repl-cli-iscoollab in Dafny

A model of the in-memory virtual file system behind the `repl-cli-iscoollab`
command line: users own folders, folders own files, and a thin command layer
checks arguments, lower-cases names, calls the store and formats the reply.

- `wrappers.dfy` — `Option` and `Result`, the shapes of Go's `(value, error)`.
- `utils.dfy` (module `Utils`) — `ValidateString`, the name pattern written out
  as character classes, and `ParseInput`, the quote-aware tokenizer: the RE2
  scan `FindAllStringSubmatch` of ``["'](.*?)["']|\S+`` as the recursive
  function `FindAll`, and the loop over its matches as a method proved equal
  to the function `Parse`. A run-time panic of the loop is `None`.
- `ordering.dfy` (module `Ordering`) — Go's bytewise string `<` as a
  lexicographic order on characters with its order laws, proved equal to the
  byte order of the strings' UTF-8 encodings, and `sort.Slice`'s contract (the
  result is ordered and is a permutation) met by an insertion sort.
- `usage.dfy` (module `Usage`) — the `CommandsUsage` table and the accepted
  sort flags and order words.
- `folder.dfy` (module `Folders`) — the `File` record and the `Folder` class,
  whose `files` sequence `CreateFile` appends to, `DeleteFile` splices and
  `ListFiles` sorts in place.
- `user.dfy` (module `Users`) — the `User` class, whose `folders` map the
  folder operations update, and the `Directory` class, which stands for the
  package-global `ListUser` map. Each class has a ghost `View()` (the same data
  as plain values) so that what an operation does to the whole tree can be
  stated, and a ghost `Valid()`: each folder is stored under its own name, file
  names in a folder are distinct, each user is stored under its own name and
  no folder object is shared between users.
- `commands.dfy` (module `Commands`) — the eight store commands. Each one
  states its exact error (usage string or the store's message, in the order
  the code checks), that a failure outputs `""` and changes nothing, the exact
  success message or listing, and the new `View()`.

The current time is a `now: string` parameter; the REPL's reading and
printing are outside the model.

## Model

| member | source | states |
|---|---|---|
| Utils.ValidateString | internal/utils/utils.go:8-12 | an accepted name has 1-257 characters, all name characters, quotes or RE2 whitespace; an accepted name not starting with a quote is 1-255 name characters, so "" and names with `@` are rejected |
| Utils.ValidateUnquoted | internal/utils/utils.go:10 | a name not starting with a quote is accepted exactly when it is at most 255 characters of `[A-Za-z0-9._-]` |
| Utils.ValidateQuoted | internal/utils/utils.go:10 | a name starting with a quote is accepted exactly when it ends with a quote of either kind and the 1-255 characters between are name characters or RE2 whitespace |
| Utils.QuotingAdmitsSpaces | internal/utils/utils.go:10 | text containing a space is rejected bare and accepted once wrapped in quotes of either kind |
| Utils.ValidateLengthLimit | internal/utils/utils.go:10 | a run of name characters is accepted exactly when it has 1 to 255 of them |
| Utils.TrimSpace | internal/utils/utils.go:21-23 | the result is the text with its leading and trailing `unicode.IsSpace` characters removed and nothing else: a slice starting after the leading spaces, with only spaces after it, that neither starts nor ends with a space |
| Utils.TrimSpaceUnique | internal/utils/utils.go:21-23 | any slice that leaves out only spaces and neither starts nor ends with one is the trimmed text, so the contract determines the result |
| Utils.ClosingQuote | internal/utils/utils.go:16 | the lazy group closes at the first quote of either kind after the opener, with no newline before it; there is no match when a newline precedes every later quote |
| Utils.RunEnd | internal/utils/utils.go:16 | `\S+` ends at the first RE2 whitespace character or at the end of the text |
| Utils.MatchFrom | internal/utils/utils.go:16 | the match RE2 makes at a non-whitespace position is a non-empty piece of the text starting there |
| Utils.FindAll | internal/utils/utils.go:16-17 | every match of the scan is either a quoted segment whose group is the text between its quotes, or a non-empty run of non-whitespace with an empty group |
| Utils.FindAllTiles | internal/utils/utils.go:16-17 | the matches tile the text in order: the `k`-th is the match RE2 makes at the `k`-th start (a quoted segment closing at the first later quote, or the maximal `\S+` run), each ends at or before the next one starts, and every character outside all of them is RE2 whitespace |
| Utils.FindAllSkipsBlanks | internal/utils/utils.go:16-17 | leading whitespace produces no match |
| Utils.ArgOf | internal/utils/utils.go:21-36 | the loop body panics exactly on a match that trims to ""; otherwise every character of the argument comes from the match or is an added `"` |
| Utils.ArgOfQuoted | internal/utils/utils.go:21-33 | a quoted match yields its trimmed content, wrapped in `"` exactly when that contains a space |
| Utils.ArgOfBare | internal/utils/utils.go:21-35 | a bare match yields its trimmed text, "" when that starts with a quote, and panics when it trims to "" |
| Utils.MapAll | internal/utils/utils.go:20-37 | the loop's result: one value per match in input order, defined exactly when every match yields one |
| Utils.ParseInput | internal/utils/utils.go:14-40 | the loop over the matches returns exactly `Parse(input)`, the argument list or the panic |
| Utils.ParseBlank | internal/utils/utils.go:17-39 | empty or all-whitespace input yields no arguments |
| Utils.ParsedSpacesAreQuoted | internal/utils/utils.go:16-33 | every returned argument that contains a space starts and ends with `"` |
| Utils.ParseQuotedSegment | internal/utils/utils.go:16-33 | for any token, wherever it sits: a quote closed by the first later quote yields one match spanning both quotes, and the argument at that index is its trimmed content, re-quoted with `"` exactly when it contains a space |
| Utils.ParseUnclosedQuote | internal/utils/utils.go:16-30 | for any token: a quote that nothing closes falls through to `\S+`, and the argument at that index is the empty string |
| Utils.ParseBareToken | internal/utils/utils.go:16-35 | for any token not starting with a quote or a space: the match is the maximal run of non-whitespace, and the argument at that index is that run trimmed, the run itself when its last character is not a space |
| Utils.ParseSpaceOnlyTokenPanics | internal/utils/utils.go:21-27 | any token made only of characters `\S` matches but `TrimSpace` strips makes the loop panic |
| Utils.RegisterVerticalTabKept | main.go:26 | trimming the ends of the line `register \v x`, as the REPL does before tokenizing, leaves it unchanged |
| Utils.RegisterVerticalTabPanics | internal/utils/utils.go:21-27 | the line `register \v x` makes the loop panic at its second token, a lone vertical tab |
| Utils.SkippingBlankAgrees | internal/utils/utils.go:20-37 | the tokenizer that skips whitespace-only matches returns the same arguments as the loop wherever the loop does not panic |
| Utils.ParseSkippingBlankAgrees | internal/utils/utils.go:14-40 | on any line where the loop does not panic, the tokenizer that skips whitespace-only matches returns exactly the loop's arguments |
| Utils.SkippingBlankSound | internal/utils/utils.go:20-37 | every argument of that tokenizer is what the loop body makes of one of the matches |
| Ordering.Less | internal/user/folder.go:78 | Go's string `<`, on characters: a proper prefix is below the longer string |
| Ordering.LessIsByteOrder | internal/user/folder.go:78-86 | `Less` holds exactly when the UTF-8 encodings compare below byte by byte, which is how Go's `<` compares strings |
| Ordering.Utf8Order | internal/user/folder.go:78 | of two characters the smaller one's encoding is below at the first differing byte, which lies inside both encodings |
| Ordering.LessIrreflexive | internal/user/folder.go:79 | no string is below itself in Go's string order |
| Ordering.LessTransitive | internal/user/folder.go:79 | Go's string order is transitive |
| Ordering.LessTotal | internal/user/folder.go:79 | of two different strings one is below the other |
| Ordering.LessAsymmetric | internal/user/folder.go:79 | two strings are never below each other |
| Ordering.PrecedesTransitive | internal/user/folder.go:77-82 | the comparison passed to `sort.Slice`, ascending or descending, is transitive |
| Ordering.SortBy | internal/user/folder.go:76-88 | `sort.Slice`'s contract: the result is a permutation of the input with no element ordered before an earlier one |
| Ordering.SortedAscIsNonDecreasing | internal/user/folder.go:76-81 | an ascending result is non-decreasing by its key |
| Ordering.SortedDescIsNonIncreasing | internal/user/folder.go:76-83 | a descending result is non-increasing by its key |
| Ordering.SortedPermutationUnique | internal/user/user.go:84-98 | with distinct keys, two sorted permutations of the same items are equal, so tie order cannot matter |
| Ordering.PermutationKeepsDistinctKeys | internal/user/folder.go:76-93 | sorting in place keeps the names of a folder's files distinct |
| Usage.UsageCommands | internal/user/user.go:13-24 | the usage table has an entry for exactly the ten commands |
| Usage.UsageNamesItsCommand | internal/user/user.go:13-24 | every entry starts with `Usage: ` and its own command's name |
| Folders.FirstNamed | internal/user/folder.go:44-49 | the index the delete loop stops at: the first file with that name, or none exactly when no file has it |
| Folders.SpliceRemovesName | internal/user/folder.go:44-49 | with distinct names, splicing out a file removes that name alone and keeps names distinct |
| Folders.AppendKeepsDistinct | internal/user/folder.go:28-38 | appending a file with a new name keeps names distinct |
| Folders.Folder.constructor | internal/user/user.go:47-52 | a new folder has the given name, description and time and no files |
| Folders.Folder.CheckFile | internal/user/folder.go:54-61 | true exactly when some file has that name; nothing changes |
| Folders.Folder.CreateFile | internal/user/folder.go:23-41 | an invalid name, then an existing one, fails with its message and no change; otherwise exactly one file with the given name, description and time is appended and distinct names are kept |
| Folders.Folder.DeleteFile | internal/user/folder.go:43-52 | the first file with that name is spliced out, the others keeping their order; otherwise "doesn't exist" and no change; for a valid folder (distinct names), afterwards no file has that name and it stays valid |
| Folders.Folder.ListFiles | internal/user/folder.go:63-94 | a bad order word (checked first) or flag fails with the usage string and no change; otherwise the files become a sorted permutation of themselves and are returned |
| Users.User.constructor | internal/user/user.go:139-142 | a new user has the given name and no folders |
| Users.User.CreateFolder | internal/user/user.go:38-57 | an invalid name, then an existing key, fails with its message and no change; otherwise exactly one fresh, empty folder stamped `now` is added under that name |
| Users.User.DeleteFolder | internal/user/user.go:59-66 | the named folder is removed with its files, or "doesn't exist" with no change |
| Users.User.RenameFolder | internal/user/user.go:106-121 | a missing folder, then an existing new name (its own name included), fails with no change; otherwise the same folder object moves to the new key with its name updated and everything else unchanged |
| Users.User.GetFolder | internal/user/user.go:123-129 | the stored folder object itself, or "doesn't exist" |
| Users.User.CollectFolders | internal/user/user.go:79-82 | the copy loop lists every folder of the map once |
| Users.User.ListFolders | internal/user/user.go:68-104 | a bad order word (checked first) or flag fails with the usage string; otherwise a sorted listing of exactly the user's folders, each once; the map is untouched |
| Users.DescListingReversesAsc | internal/user/user.go:84-91 | with distinct names, the descending listing by name is the ascending one reversed |
| Users.Directory.constructor | internal/user/user.go:11 | the directory starts with no users |
| Users.Directory.RegisterUser | internal/user/user.go:131-148 | an existing name (checked first), then an invalid one, fails with its message and no change; otherwise a user with that name and no folders is added, keeping the directory valid |
| Users.Directory.GetUser | internal/user/user.go:150-156 | the stored user, or "doesn't exist" |
| Commands.Lower | cmd/commands/commands.go:16 | same length, no upper-case ASCII letter left, other characters kept, letters shifted to lower case |
| Commands.LowerIdempotent | cmd/commands/commands.go:16 | lower-casing twice is lower-casing once |
| Commands.Line | cmd/commands/commands.go:110-114 | a listing line ends with a newline and, when no field holds one, is exactly one line |
| Commands.FileLines | cmd/commands/commands.go:216-220 | a file listing whose fields hold no newline has exactly one line per file |
| Commands.FolderLines | cmd/commands/commands.go:110-114 | a folder listing whose fields hold no newline has exactly one line per folder |
| Commands.FileLinesAreLines | cmd/commands/commands.go:214-221 | an empty listing renders as ""; each entry contributes exactly its own line, in listing order |
| Commands.FolderLinesAreLines | cmd/commands/commands.go:108-115 | an empty listing renders as ""; each folder contributes exactly its own line, in listing order |
| Commands.RenderFiles | cmd/commands/commands.go:214-221 | the loop's output is the listing's lines concatenated in order |
| Commands.RenderFolders | cmd/commands/commands.go:108-115 | the loop's output is the listing's lines concatenated in order |
| Commands.Register | cmd/commands/commands.go:11-24 | usage string unless one argument; the lower-cased name is registered, with the store's error passed through or "Add ... successfully" |
| Commands.CreateFolder | cmd/commands/commands.go:26-51 | usage string unless two or three arguments; missing user, invalid name, existing folder in that order; on success the message and one new empty folder in the view |
| Commands.DeleteFolder | cmd/commands/commands.go:53-73 | usage string unless two arguments; missing user, then missing folder; on success the message and the folder gone from the view |
| Commands.ListFolders | cmd/commands/commands.go:75-118 | usage string on a bad count, flag or order word before any lookup; defaults by name ascending; the output is the lines of a sorted listing of exactly that user's folders |
| Commands.RenameFolder | cmd/commands/commands.go:120-141 | usage string unless three arguments; missing user, missing folder, taken name in that order; on success the message and the entry renamed in the view |
| Commands.FindFolder | cmd/commands/commands.go:156-164 | the user is looked up before the folder, so a missing user is reported first |
| Commands.CreateFile | cmd/commands/commands.go:143-173 | usage string unless three or four arguments; missing user, missing folder, invalid name, existing file in that order; on success the message and the file appended in the view |
| Commands.ListFiles | cmd/commands/commands.go:175-224 | usage string on a bad count, flag or order word before any lookup; the output is the lines of a sorted permutation of the folder's files, which the folder now holds in that order |
| Commands.DeleteFile | cmd/commands/commands.go:226-252 | usage string unless three arguments; missing user, missing folder, missing file in that order; on success the message and the first file of that name spliced out in the view |

## Left out

- main.go: the read-eval-print loop, terminal escape codes and error printing are input and output only.
- `Help` and `Exit` (cmd/commands/commands.go:254-276): a constant string and a call to `os.Exit`.
- `flag.Parse()` (cmd/commands/commands.go:37) reads process flags and does not affect the command's result.
- `time.Now().Format(...)` (internal/user/user.go:49, internal/user/folder.go:35) is the `now` parameter; nothing checks its shape.
- internal/user/filesystem.go repeats the type declarations of folder.go and is not part of this model.
- internal/user/user.go:51 sets a new folder's `Files` to a map while folder.go declares a slice and every file operation treats it as one; the model follows the slice, so a new folder has no files.
- `MaxUsernameLength` (internal/user/user.go:28) is never used by the code, so no 25-character limit is modelled.
- Tie order of listings: Go's map iteration and `sort.Slice` are both unordered on ties; the model specifies a sorted permutation and no particular tie order, and picks map keys with a nondeterministic choice.
- Ordering.Less: a Dafny `string` holds Unicode scalar values, so Go strings holding invalid UTF-8 are not modelled; on valid text `Less` is the byte order, as `Ordering.LessIsByteOrder` proves.
- `ParseInput` returns a nil slice when there are no arguments; the model returns the empty sequence. A panic is `None`, not a crash.
- Commands.Lower: lower-cases ASCII letters only, while `strings.ToLower` also maps non-ASCII upper-case letters.
- Commands.CreateFolder: the new view is stated when the directory was valid beforehand; a valid directory stays valid, and the constructor and every command keep it so.
- Commands.DeleteFolder: the new view is stated when the directory was valid beforehand, for the same reason.
- Commands.RenameFolder: the new view is stated when the directory was valid beforehand, for the same reason.
- Commands.CreateFile: the new view is stated when the directory was valid beforehand, for the same reason.
- Commands.ListFiles: the new view is stated when the directory was valid beforehand, for the same reason.
- Commands.DeleteFile: the new view is stated when the directory was valid beforehand, for the same reason.
- Folders.Folder.DeleteFile: that no file keeps the name is stated when the folder was valid beforehand; with duplicate names the code removes only the first, and the splice clause says so.
- Users.User.ListFolders: that each folder appears exactly once (a multiset equality) is stated when the user is valid; without that, the listing has the right length and the right set of folders.

## Findings

| source | as written | input that shows it | evidently intended | confidence | as-written member | corrected member |
|---|---|---|---|---|---|---|
| internal/utils/utils.go:21-27 | a token matched by `\S+` is trimmed with `strings.TrimSpace`, which also strips the vertical tab, NEL and other Unicode spaces that RE2's `\s` does not match; such a token trims to "" and `match[0][0]` indexes past its end, so the program panics | the line `register \v x`: the REPL's trim leaves it as is, and its middle token, a lone vertical tab, reaches the loop; any token made only of vertical tabs, NEL or NO-BREAK SPACE inside a line does the same | a whitespace-only token yields no argument | not executed | Utils.RegisterVerticalTabPanics | Utils.ParseSkippingBlankAgrees |
