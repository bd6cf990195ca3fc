/**
 * The usage strings of internal/user/user.go, keyed by command name. Each is
 * returned verbatim as the error of a malformed command.
 */
module Usage {

  // Each line is written as `Usage: `, the command's name and its arguments.

  const CommandsUsage: map<string, string> := map[
    "list-files" := "Usage: " + "list-files" + " [username] [foldername] [--sort-name|--sort-created] [asc|desc]",
    "create-file" := "Usage: " + "create-file" + " [username] [foldername] [filename] [description]?",
    "delete-file" := "Usage: " + "delete-file" + " [username] [foldername] [filename]",
    "register" := "Usage: " + "register" + " [username]",
    "create-folder" := "Usage: " + "create-folder" + " [username] [foldername] [description]?",
    "list-folders" := "Usage: " + "list-folders" + " [username] [--sort-name|--sort-created] [asc|desc]",
    "delete-folder" := "Usage: " + "delete-folder" + " [username] [foldername]",
    "rename-folder" := "Usage: " + "rename-folder" + " [username] [foldername] [new-folder-name]",
    "help" := "Usage: " + "help",
    "exit" := "Usage: " + "exit"
  ]

  /** The table covers exactly the ten commands of the REPL. */
  lemma UsageCommands()
    ensures CommandsUsage.Keys == {
      "list-files", "create-file", "delete-file", "register", "create-folder",
      "list-folders", "delete-folder", "rename-folder", "help", "exit"
    }
  {
  }

  /** Each entry is a usage line for its own command: `Usage: ` and then the command's name. */
  lemma UsageNamesItsCommand()
    ensures forall cmd :: cmd in CommandsUsage ==> "Usage: " + cmd <= CommandsUsage[cmd]
  {
    UsageCommands();
  }

  /** The two accepted `sortBy` flags. */
  predicate IsSortFlag(sortBy: string) {
    sortBy == "--sort-name" || sortBy == "--sort-created"
  }

  /** The two accepted `sortOrder` words. */
  predicate IsSortOrder(sortOrder: string) {
    sortOrder == "asc" || sortOrder == "desc"
  }
}
