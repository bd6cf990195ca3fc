/**
 * The command layer of cmd/commands/commands.go: each command checks its
 * argument count, lower-cases the names it is given, calls the store and
 * formats the reply. A reply is an output string and an error; a failed
 * command outputs "" and passes the store's error through unchanged.
 */
module Commands {
  import opened Wrappers
  import opened Utils
  import opened Ordering
  import opened Usage
  import opened Folders
  import opened Users

  /** `strings.ToLower` on one ASCII character. */
  function LowerChar(c: char): char {
    if 'A' <= c <= 'Z' then (c as int - 'A' as int + 'a' as int) as char else c
  }

  /** `strings.ToLower`, for ASCII letters. */
  function Lower(s: string): (r: string)
    ensures |r| == |s|
    ensures forall i :: 0 <= i < |s| ==> !('A' <= r[i] <= 'Z')
    ensures forall i :: 0 <= i < |s| && !('A' <= s[i] <= 'Z') ==> r[i] == s[i]
    ensures forall i :: 0 <= i < |s| && 'A' <= s[i] <= 'Z' ==> r[i] as int - s[i] as int == 'a' as int - 'A' as int
  {
    if s == [] then [] else [LowerChar(s[0])] + Lower(s[1..])
  }

  /** Lower-casing twice is lower-casing once. */
  lemma LowerIdempotent(s: string)
    ensures Lower(Lower(s)) == Lower(s)
  {
    var r := Lower(s);
    assert forall i :: 0 <= i < |r| ==> Lower(r)[i] == r[i];
  }

  // ---------------------------------------------------------------------
  // Listing lines
  // ---------------------------------------------------------------------

  /** The number of newline characters in `s`: the number of lines it ends. */
  function Newlines(s: string): nat {
    if s == [] then 0 else Newlines(s[..|s| - 1]) + (if s[|s| - 1] == '\n' then 1 else 0)
  }

  lemma {:induction false} NewlinesAppend(a: string, b: string)
    ensures Newlines(a + b) == Newlines(a) + Newlines(b)
    decreases |b|
  {
    if b == [] {
      assert a + b == a;
    } else {
      assert (a + b)[..|a + b| - 1] == a + b[..|b| - 1];
      NewlinesAppend(a, b[..|b| - 1]);
    }
  }

  lemma {:induction false} NoNewlines(s: string)
    requires '\n' !in s
    ensures Newlines(s) == 0
    decreases |s|
  {
    if s != [] {
      assert s[..|s| - 1] + [s[|s| - 1]] == s;
      NoNewlines(s[..|s| - 1]);
    }
  }

  /** None of the fields printed on one listing line holds a newline. */
  predicate OneLine(name: string, description: string, createdAt: string, owner: string) {
    '\n' !in name && '\n' !in description && '\n' !in createdAt && '\n' !in owner
  }

  /**
   * One line of a listing: the name, the description after a space when it
   * is not empty, then the creation time and the owner's name.
   */
  function Line(name: string, description: string, createdAt: string, owner: string): (r: string)
    ensures |r| > 0 && r[|r| - 1] == '\n'
    ensures OneLine(name, description, createdAt, owner) ==> Newlines(r) == 1
  {
    var text := name + (if description != "" then " " + description else "") + " " + createdAt + " " + owner;
    NewlinesAppend(text, "\n");
    assert OneLine(name, description, createdAt, owner) ==> Newlines(text) == 0 by {
      if OneLine(name, description, createdAt, owner) {
        NoNewlines(text);
      }
    }
    text + "\n"
  }

  // File and folder listings are rendered by two separate loops in
  // commands.go, so each gets its own function, loop and lemmas below; the
  // pairs are deliberate twins.

  /** The lines of a file listing, in listing order. */
  function FileLines(files: seq<File>, owner: string): (r: string)
    ensures (forall i :: 0 <= i < |files| ==> OneLine(files[i].name, files[i].description, files[i].createdAt, owner)) ==>
              Newlines(r) == |files|
  {
    if files == [] then ""
    else
      var f := files[|files| - 1];
      var init := FileLines(files[..|files| - 1], owner);
      NewlinesAppend(init, Line(f.name, f.description, f.createdAt, owner));
      init + Line(f.name, f.description, f.createdAt, owner)
  }

  /** The lines of a folder listing, in listing order. */
  function FolderLines(folders: seq<Folder>, owner: string): (r: string)
    reads set f | f in folders
    ensures (forall i :: 0 <= i < |folders| ==> OneLine(folders[i].name, folders[i].description, folders[i].createdAt, owner)) ==>
              Newlines(r) == |folders|
  {
    if folders == [] then ""
    else
      var f := folders[|folders| - 1];
      var init := FolderLines(folders[..|folders| - 1], owner);
      NewlinesAppend(init, Line(f.name, f.description, f.createdAt, owner));
      init + Line(f.name, f.description, f.createdAt, owner)
  }

  /** A file listing is the concatenation of the listings of its parts. */
  lemma {:induction false} FileLinesAppend(a: seq<File>, b: seq<File>, owner: string)
    ensures FileLines(a + b, owner) == FileLines(a, owner) + FileLines(b, owner)
    decreases |b|
  {
    if b != [] {
      var init := b[..|b| - 1];
      var last := b[|b| - 1];
      assert (a + b)[..|a + b| - 1] == a + init && (a + b)[|a + b| - 1] == last;
      FileLinesAppend(a, init, owner);
      assert FileLines(a + b, owner) == FileLines(a + init, owner) + Line(last.name, last.description, last.createdAt, owner);
    } else {
      assert a + b == a;
    }
  }

  /** Each file contributes exactly its own line; an empty listing is "". */
  lemma {:induction false} FileLinesAreLines(files: seq<File>, owner: string)
    ensures |files| == 0 ==> FileLines(files, owner) == ""
    ensures |files| == 1 ==> FileLines(files, owner) == Line(files[0].name, files[0].description, files[0].createdAt, owner)
    ensures |files| > 0 ==>
              var f := files[0];
              FileLines(files, owner) == Line(f.name, f.description, f.createdAt, owner) + FileLines(files[1..], owner)
  {
    if |files| > 0 {
      FileLinesAppend([files[0]], files[1..], owner);
      assert [files[0]] + files[1..] == files;
      assert [files[0]][..0] == [];
    }
  }

  /** A folder listing is the concatenation of the listings of its parts. */
  lemma {:induction false} FolderLinesAppend(a: seq<Folder>, b: seq<Folder>, owner: string)
    ensures FolderLines(a + b, owner) == FolderLines(a, owner) + FolderLines(b, owner)
    decreases |b|
  {
    if b != [] {
      var init := b[..|b| - 1];
      var last := b[|b| - 1];
      assert (a + b)[..|a + b| - 1] == a + init && (a + b)[|a + b| - 1] == last;
      FolderLinesAppend(a, init, owner);
      assert FolderLines(a + b, owner) == FolderLines(a + init, owner) + Line(last.name, last.description, last.createdAt, owner);
    } else {
      assert a + b == a;
    }
  }

  /** Each folder contributes exactly its own line; an empty listing is "". */
  lemma {:induction false} FolderLinesAreLines(folders: seq<Folder>, owner: string)
    ensures |folders| == 0 ==> FolderLines(folders, owner) == ""
    ensures |folders| == 1 ==> FolderLines(folders, owner) == Line(folders[0].name, folders[0].description, folders[0].createdAt, owner)
    ensures |folders| > 0 ==>
              var f := folders[0];
              FolderLines(folders, owner) == Line(f.name, f.description, f.createdAt, owner) + FolderLines(folders[1..], owner)
  {
    if |folders| > 0 {
      FolderLinesAppend([folders[0]], folders[1..], owner);
      assert [folders[0]] + folders[1..] == folders;
      assert [folders[0]][..0] == [];
    }
  }

  /** The listing loop of `ListFiles`: one line per file, appended in order. */
  method RenderFiles(files: seq<File>, owner: string) returns (output: string)
    ensures output == FileLines(files, owner)
  {
    output := "";
    for i := 0 to |files|
      invariant output == FileLines(files[..i], owner)
    {
      var description := "";
      if files[i].description != "" {
        description := " " + files[i].description;
      }
      var line := files[i].name + description + " " + files[i].createdAt + " " + owner + "\n";
      assert line == Line(files[i].name, files[i].description, files[i].createdAt, owner);
      assert files[..i + 1][..i] == files[..i];
      output := output + line;
    }
    assert files[..|files|] == files;
  }

  /** The listing loop of `ListFolders`: one line per folder, appended in order. */
  method RenderFolders(folders: seq<Folder>, owner: string) returns (output: string)
    ensures output == FolderLines(folders, owner)
  {
    output := "";
    for i := 0 to |folders|
      invariant output == FolderLines(folders[..i], owner)
    {
      var description := "";
      if folders[i].description != "" {
        description := " " + folders[i].description;
      }
      var line := folders[i].name + description + " " + folders[i].createdAt + " " + owner + "\n";
      assert line == Line(folders[i].name, folders[i].description, folders[i].createdAt, owner);
      assert folders[..i + 1][..i] == folders[..i];
      output := output + line;
    }
    assert folders[..|folders|] == folders;
  }

  // ---------------------------------------------------------------------
  // Commands
  // ---------------------------------------------------------------------

  /** The `sortBy` flag of a listing command: the argument at `i`, by default by name. */
  function SortFlagArg(args: seq<string>, i: nat): string {
    if |args| > i then args[i] else "--sort-name"
  }

  /** The `sortOrder` word of a listing command: the argument at `i`, by default ascending. */
  function SortOrderArg(args: seq<string>, i: nat): string {
    if |args| > i then args[i] else "asc"
  }

  /**
   * `Register`: one argument, the user name, lower-cased and handed to
   * `RegisterUser`.
   */
  method Register(dir: Directory, args: seq<string>) returns (output: string, err: Option<string>)
    modifies dir`users
    ensures err == (
              if |args| != 1 then Some(CommandsUsage["register"])
              else if Lower(args[0]) in old(dir.users) then Some("the " + Lower(args[0]) + " has already existed")
              else if !ValidateString(Lower(args[0])) then Some("the " + Lower(args[0]) + " contain invalid chars")
              else None)
    ensures err.Some? ==> output == "" && dir.users == old(dir.users)
    ensures err.None? ==>
              && output == "Add " + Lower(args[0]) + " successfully\n"
              && dir.View() == old(dir.View())[Lower(args[0]) := map[]]
    ensures old(dir.Valid()) ==> dir.Valid()
  {
    if |args| != 1 {
      return "", Some(CommandsUsage["register"]);
    }
    var username := Lower(args[0]);
    err := dir.RegisterUser(username);
    if err.Some? {
      return "", err;
    }
    output := "Add " + username + " successfully\n";
  }

  /**
   * `CreateFolder`: a user, a folder name and an optional description; the
   * names are lower-cased, the description is kept as given.
   */
  method CreateFolder(dir: Directory, args: seq<string>, now: string) returns (output: string, err: Option<string>)
    modifies dir.users.Values
    ensures err == (
              if |args| != 2 && |args| != 3 then Some(CommandsUsage["create-folder"])
              else if Lower(args[0]) !in old(dir.users) then Some("the " + Lower(args[0]) + " doesn't exist")
              else if !ValidateString(Lower(args[1])) then Some(Lower(args[1]) + " contain invalid chars")
              else if Lower(args[1]) in old(dir.users[Lower(args[0])].folders) then Some("the " + Lower(args[1]) + " has already existed")
              else None)
    ensures err.Some? ==> output == "" && dir.View() == old(dir.View())
    ensures err.None? ==> output == "Create " + Lower(args[1]) + " successfully\n"
    ensures err.None? && old(dir.Valid()) ==>
              var user := Lower(args[0]);
              var name := Lower(args[1]);
              var description := if |args| > 2 then args[2] else "";
              dir.View() == old(dir.View())[user := old(dir.View())[user][name := FolderView(name, description, now, [])]]
    ensures old(dir.Valid()) ==> dir.Valid()
  {
    if |args| != 2 && |args| != 3 {
      return "", Some(CommandsUsage["create-folder"]);
    }
    var username := Lower(args[0]);
    var folderName := Lower(args[1]);
    var description := "";
    if |args| > 2 {
      description := args[2];
    }
    var found := dir.GetUser(username);
    if found.Failure? {
      return "", Some(found.error);
    }
    var account := found.value;
    label before:
    err := account.CreateFolder(folderName, description, now);
    if err.Some? {
      dir.NothingChanged@before();
      return "", err;
    }
    if old(dir.Valid()) {
      assert forall j :: j in dir.users && j != username ==> dir.users[j] != account;
      var folder := account.folders[folderName];
      forall j | j in dir.users && j != username
        ensures account.folders.Values !! dir.users[j].folders.Values
      {
        assert folder !in dir.users[j].folders.Values;
      }
      dir.OneUserChanged@before(username);
    }
    output := "Create " + folderName + " successfully\n";
  }

  /** `DeleteFolder`: a user and a folder name, both lower-cased. */
  method DeleteFolder(dir: Directory, args: seq<string>) returns (output: string, err: Option<string>)
    modifies dir.users.Values
    ensures err == (
              if |args| != 2 then Some(CommandsUsage["delete-folder"])
              else if Lower(args[0]) !in old(dir.users) then Some("the " + Lower(args[0]) + " doesn't exist")
              else if Lower(args[1]) !in old(dir.users[Lower(args[0])].folders) then Some("the " + Lower(args[1]) + " doesn't exist")
              else None)
    ensures err.Some? ==> output == "" && dir.View() == old(dir.View())
    ensures err.None? ==> output == "Delete " + Lower(args[1]) + " successfully\n"
    ensures err.None? && old(dir.Valid()) ==>
              var user := Lower(args[0]);
              dir.View() == old(dir.View())[user := old(dir.View())[user] - {Lower(args[1])}]
    ensures old(dir.Valid()) ==> dir.Valid()
  {
    if |args| != 2 {
      return "", Some(CommandsUsage["delete-folder"]);
    }
    var username := Lower(args[0]);
    var folderName := Lower(args[1]);
    var found := dir.GetUser(username);
    if found.Failure? {
      return "", Some(found.error);
    }
    var account := found.value;
    label before:
    err := account.DeleteFolder(folderName);
    if err.Some? {
      dir.NothingChanged@before();
      return "", err;
    }
    if old(dir.Valid()) {
      assert forall j :: j in dir.users && j != username ==> dir.users[j] != account;
      dir.OneUserChanged@before(username);
    }
    output := "Delete " + folderName + " successfully\n";
  }

  /**
   * `ListFolders`: a user and optionally a flag and an order word, checked
   * before the user is looked up. `listing` is the sorted sequence the
   * output is rendered from; the owner shown on each line is the user's
   * stored name.
   */
  method ListFolders(dir: Directory, args: seq<string>) returns (output: string, err: Option<string>, ghost listing: seq<Folder>)
    ensures err == (
              if |args| < 1 || |args| > 3 then Some(CommandsUsage["list-folders"])
              else if |args| > 1 && !IsSortFlag(args[1]) then Some(CommandsUsage["list-folders"])
              else if |args| > 2 && !IsSortOrder(args[2]) then Some(CommandsUsage["list-folders"])
              else if Lower(args[0]) !in dir.users then Some("the " + Lower(args[0]) + " doesn't exist")
              else None)
    ensures err.Some? ==> output == ""
    ensures err.None? ==>
              var user := dir.users[Lower(args[0])];
              && output == FolderLines(listing, user.username)
              && |listing| == |user.folders|
              && (forall f :: f in listing <==> f in user.folders.Values)
              && FoldersSorted(listing, SortFlagArg(args, 1) == "--sort-name", SortOrderArg(args, 2) == "asc")
    ensures err.None? && dir.users[Lower(args[0])].Valid() ==>
              multiset(listing) == multiset(dir.users[Lower(args[0])].folders.Values)
  {
    listing := [];
    if |args| < 1 || |args| > 3 {
      return "", Some(CommandsUsage["list-folders"]), listing;
    }
    var username := Lower(args[0]);
    var sortBy := "--sort-name";
    var sortOrder := "asc";
    if |args| > 1 {
      if args[1] != "--sort-name" && args[1] != "--sort-created" {
        return "", Some(CommandsUsage["list-folders"]), listing;
      }
      sortBy := args[1];
    }
    if |args| > 2 {
      if args[2] != "asc" && args[2] != "desc" {
        return "", Some(CommandsUsage["list-folders"]), listing;
      }
      sortOrder := args[2];
    }
    var found := dir.GetUser(username);
    if found.Failure? {
      return "", Some(found.error), listing;
    }
    var account := found.value;
    var folders := account.ListFolders(sortBy, sortOrder);
    if folders.Failure? {
      return "", Some(folders.error), listing;
    }
    listing := folders.value;
    output := RenderFolders(folders.value, account.username);
    err := None;
  }

  /** `RenameFolder`: a user, the folder and its new name, all lower-cased. */
  method RenameFolder(dir: Directory, args: seq<string>) returns (output: string, err: Option<string>)
    modifies dir.users.Values, dir.Folders()
    ensures err == (
              if |args| != 3 then Some(CommandsUsage["rename-folder"])
              else if Lower(args[0]) !in old(dir.users) then Some("the " + Lower(args[0]) + " doesn't exist")
              else if Lower(args[1]) !in old(dir.users[Lower(args[0])].folders) then Some("the " + Lower(args[1]) + " doesn't exist")
              else if Lower(args[2]) in old(dir.users[Lower(args[0])].folders) then Some("the " + Lower(args[2]) + " already exists")
              else None)
    ensures err.Some? ==> output == "" && dir.View() == old(dir.View())
    ensures err.None? ==> output == "Rename " + Lower(args[1]) + " to " + Lower(args[2]) + " successfully\n"
    ensures err.None? && old(dir.Valid()) ==>
              var user := Lower(args[0]);
              var from := Lower(args[1]);
              var to := Lower(args[2]);
              var folders := old(dir.View())[user];
              dir.View() == old(dir.View())[user := (folders - {from})[to := folders[from].(name := to)]]
    ensures old(dir.Valid()) ==> dir.Valid()
  {
    if |args| != 3 {
      return "", Some(CommandsUsage["rename-folder"]);
    }
    var username := Lower(args[0]);
    var folderName := Lower(args[1]);
    var newFolderName := Lower(args[2]);
    var found := dir.GetUser(username);
    if found.Failure? {
      return "", Some(found.error);
    }
    var account := found.value;
    label before:
    err := account.RenameFolder(folderName, newFolderName);
    if err.Some? {
      dir.NothingChanged@before();
      return "", err;
    }
    if old(dir.Valid()) {
      assert forall j :: j in dir.users && j != username ==> dir.users[j] != account;
      assert account.folders.Values <= old(account.folders.Values);
      dir.OneUserChanged@before(username);
    }
    output := "Rename " + folderName + " to " + newFolderName + " successfully\n";
  }

  /**
   * The lookups the file commands share: the user, then the folder in it,
   * failing with the message of the first one missing.
   */
  function FindFolder(dir: Directory, username: string, folderName: string): (r: Result<(User, Folder), string>)
    reads dir, dir.users.Values, dir.Folders()
    ensures r.Failure? <==> username !in dir.users || folderName !in dir.users[username].folders
    ensures username !in dir.users ==> r == Failure("the " + username + " doesn't exist")
    ensures username in dir.users && folderName !in dir.users[username].folders ==>
              r == Failure("the " + folderName + " doesn't exist")
    ensures r.Success? ==>
              && r.value.0 == dir.users[username]
              && r.value.1 == dir.users[username].folders[folderName]
              && r.value.1 in dir.Folders()
  {
    match dir.GetUser(username)
    case Failure(e) => Failure(e)
    case Success(account) =>
      match account.GetFolder(folderName)
      case Failure(e) => Failure(e)
      case Success(folder) =>
        assert account in dir.users.Values && folder in account.folders.Values;
        Success((account, folder))
  }

  /**
   * `CreateFile`: a user, a folder, a file name and an optional
   * description; the user is looked up first, then the folder.
   */
  method CreateFile(dir: Directory, args: seq<string>, now: string) returns (output: string, err: Option<string>)
    modifies dir.Folders()
    ensures err == (
              if |args| != 3 && |args| != 4 then Some(CommandsUsage["create-file"])
              else if Lower(args[0]) !in old(dir.users) then Some("the " + Lower(args[0]) + " doesn't exist")
              else if Lower(args[1]) !in old(dir.users[Lower(args[0])].folders) then Some("the " + Lower(args[1]) + " doesn't exist")
              else if !ValidateString(Lower(args[2])) then Some("Error: " + Lower(args[2]) + " contain invalid chars.")
              else if Named(old(dir.users[Lower(args[0])].folders[Lower(args[1])].files), Lower(args[2])) then
                Some("Error: The " + Lower(args[2]) + " has already existed.")
              else None)
    ensures err.Some? ==> output == "" && dir.View() == old(dir.View())
    ensures err.None? ==>
              output == "Create " + Lower(args[2]) + " in " + Lower(args[0]) + "/" + Lower(args[1]) + " successfully\n"
    ensures err.None? && old(dir.Valid()) ==>
              var user := Lower(args[0]);
              var folder := Lower(args[1]);
              var description := if |args| > 3 then args[3] else "";
              var files := old(dir.users[user].folders[folder].files);
              dir.View() == WithFiles(old(dir.View()), user, folder, files + [File(Lower(args[2]), now, description)])
    ensures old(dir.Valid()) ==> dir.Valid()
  {
    if |args| != 3 && |args| != 4 {
      return "", Some(CommandsUsage["create-file"]);
    }
    var username := Lower(args[0]);
    var folderName := Lower(args[1]);
    var fileName := Lower(args[2]);
    var description := "";
    if |args| > 3 {
      description := args[3];
    }
    var found := FindFolder(dir, username, folderName);
    if found.Failure? {
      return "", Some(found.error);
    }
    var (account, folder) := found.value;
    label before:
    err := folder.CreateFile(fileName, description, now);
    if err.Some? {
      dir.NothingChanged@before();
      return "", err;
    }
    if old(dir.Valid()) {
      dir.FilesChanged@before((username, folderName));
    }
    output := "Create " + fileName + " in " + username + "/" + folderName + " successfully\n";
  }

  /**
   * `ListFiles`: a user, a folder and optionally a flag and an order word,
   * checked before the lookups. Listing sorts the folder's own sequence,
   * so the stored order changes to `listing`.
   */
  method ListFiles(dir: Directory, args: seq<string>) returns (output: string, err: Option<string>, ghost listing: seq<File>)
    modifies dir.Folders()
    ensures err == (
              if |args| < 2 || |args| > 4 then Some(CommandsUsage["list-files"])
              else if |args| > 2 && !IsSortFlag(args[2]) then Some(CommandsUsage["list-files"])
              else if |args| > 3 && !IsSortOrder(args[3]) then Some(CommandsUsage["list-files"])
              else if Lower(args[0]) !in old(dir.users) then Some("the " + Lower(args[0]) + " doesn't exist")
              else if Lower(args[1]) !in old(dir.users[Lower(args[0])].folders) then Some("the " + Lower(args[1]) + " doesn't exist")
              else None)
    ensures err.Some? ==> output == "" && dir.View() == old(dir.View())
    ensures err.None? ==>
              var files := old(dir.users[Lower(args[0])].folders[Lower(args[1])].files);
              && output == FileLines(listing, dir.users[Lower(args[0])].username)
              && multiset(listing) == multiset(files)
              && SortedBy(listing, FileKey(SortFlagArg(args, 2)), SortOrderArg(args, 3) == "asc")
    ensures err.None? && old(dir.Valid()) ==>
              dir.View() == WithFiles(old(dir.View()), Lower(args[0]), Lower(args[1]), listing)
    ensures old(dir.Valid()) ==> dir.Valid()
  {
    listing := [];
    if |args| < 2 || |args| > 4 {
      return "", Some(CommandsUsage["list-files"]), listing;
    }
    var sortBy := "--sort-name";
    var sortOrder := "asc";
    if |args| > 2 {
      if args[2] != "--sort-name" && args[2] != "--sort-created" {
        return "", Some(CommandsUsage["list-files"]), listing;
      }
      sortBy := args[2];
    }
    if |args| > 3 {
      if args[3] != "asc" && args[3] != "desc" {
        return "", Some(CommandsUsage["list-files"]), listing;
      }
      sortOrder := args[3];
    }
    var username := Lower(args[0]);
    var folderName := Lower(args[1]);
    var found := FindFolder(dir, username, folderName);
    if found.Failure? {
      return "", Some(found.error), listing;
    }
    var (account, folder) := found.value;
    label before:
    // The flag and the order word were checked above, so the folder's own
    // check of them succeeds.
    var files := folder.ListFiles(sortBy, sortOrder);
    listing := files.value;
    output := RenderFiles(files.value, account.username);
    err := None;
    if old(dir.Valid()) {
      dir.FilesChanged@before((username, folderName));
    }
  }

  /** `DeleteFile`: a user, a folder and a file name, all lower-cased. */
  method DeleteFile(dir: Directory, args: seq<string>) returns (output: string, err: Option<string>)
    modifies dir.Folders()
    ensures err == (
              if |args| != 3 then Some(CommandsUsage["delete-file"])
              else if Lower(args[0]) !in old(dir.users) then Some("the " + Lower(args[0]) + " doesn't exist")
              else if Lower(args[1]) !in old(dir.users[Lower(args[0])].folders) then Some("the " + Lower(args[1]) + " doesn't exist")
              else if !Named(old(dir.users[Lower(args[0])].folders[Lower(args[1])].files), Lower(args[2])) then
                Some("Error: The " + Lower(args[2]) + " doesn't exist.")
              else None)
    ensures err.Some? ==> output == "" && dir.View() == old(dir.View())
    ensures err.None? ==>
              output == "Deleted file " + Lower(args[2]) + " from " + Lower(args[0]) + "/" + Lower(args[1]) + " successfully\n"
    ensures err.None? && old(dir.Valid()) ==>
              var user := Lower(args[0]);
              var folder := Lower(args[1]);
              var files := old(dir.users[user].folders[folder].files);
              var i := FirstNamed(files, Lower(args[2])).value;
              dir.View() == WithFiles(old(dir.View()), user, folder, files[..i] + files[i + 1..])
    ensures old(dir.Valid()) ==> dir.Valid()
  {
    if |args| != 3 {
      return "", Some(CommandsUsage["delete-file"]);
    }
    var username := Lower(args[0]);
    var folderName := Lower(args[1]);
    var fileName := Lower(args[2]);
    var found := FindFolder(dir, username, folderName);
    if found.Failure? {
      return "", Some(found.error);
    }
    var (account, folder) := found.value;
    label before:
    err := folder.DeleteFile(fileName);
    if err.Some? {
      dir.NothingChanged@before();
      return "", err;
    }
    if old(dir.Valid()) {
      dir.FilesChanged@before((username, folderName));
    }
    output := "Deleted file " + fileName + " from " + username + "/" + folderName + " successfully\n";
  }
}
