/**
 * The folder and file registry of internal/user/folder.go: a `Folder` owns an
 * ordered sequence of `File` records that its methods append to, splice and
 * sort in place.
 */
module Folders {
  import opened Wrappers
  import opened Utils
  import opened Ordering
  import opened Usage

  /** A file record; it is never updated after creation. */
  datatype File = File(name: string, createdAt: string, description: string)

  function FileName(f: File): string { f.name }

  function FileCreatedAt(f: File): string { f.createdAt }

  /** The key `ListFiles` compares for an accepted `sortBy` flag. */
  function FileKey(sortBy: string): File -> string {
    if sortBy == "--sort-name" then FileName else FileCreatedAt
  }

  /** Some file in `files` is called `n`. */
  ghost predicate Named(files: seq<File>, n: string) {
    exists i :: 0 <= i < |files| && files[i].name == n
  }

  /** The position of the first file called `n`, the one `DeleteFile` removes. */
  function FirstNamed(files: seq<File>, n: string): (r: Option<nat>)
    ensures r.Some? ==> r.value < |files| && files[r.value].name == n
    ensures r.Some? ==> forall k :: 0 <= k < r.value ==> files[k].name != n
    ensures r.None? <==> !Named(files, n)
  {
    if files == [] then None
    else if files[0].name == n then Some(0)
    else
      var r := FirstNamed(files[1..], n);
      assert forall k :: 1 <= k < |files| ==> files[k] == files[1..][k - 1];
      if r.None? then None else Some(r.value + 1)
  }

  /** Splicing one file out leaves exactly the files with other names, still distinct. */
  lemma SpliceRemovesName(files: seq<File>, i: nat)
    requires i < |files| && DistinctKeys(files, FileName)
    ensures var r := files[..i] + files[i + 1..];
            && DistinctKeys(r, FileName)
            && !Named(r, files[i].name)
            && forall f :: f in r <==> f in files && f.name != files[i].name
  {
    var r := files[..i] + files[i + 1..];
    assert forall k :: 0 <= k < |r| ==> r[k] == files[if k < i then k else k + 1];
    forall f | f in files && f.name != files[i].name ensures f in r {
      var k :| 0 <= k < |files| && files[k] == f;
      assert r[if k < i then k else k - 1] == f;
    }
  }

  /** Appending a file under a new name keeps the names distinct. */
  lemma AppendKeepsDistinct(files: seq<File>, f: File)
    requires DistinctKeys(files, FileName) && !Named(files, f.name)
    ensures DistinctKeys(files + [f], FileName)
  {
    var r := files + [f];
    forall i, j | 0 <= i < j < |r| ensures FileName(r[i]) != FileName(r[j]) {
      if j == |files| {
        assert r[i] == files[i];
      }
    }
  }

  class Folder {
    var name: string
    var description: string
    var createdAt: string
    var files: seq<File>

    /** File names within the folder are pairwise distinct. */
    ghost predicate Valid()
      reads this
    {
      DistinctKeys(files, FileName)
    }

    /** The folder `CreateFolder` makes: no files yet. */
    constructor(name: string, description: string, createdAt: string)
      ensures this.name == name && this.description == description && this.createdAt == createdAt
      ensures files == [] && Valid()
    {
      this.name := name;
      this.description := description;
      this.createdAt := createdAt;
      files := [];
    }

    /** `CheckFile`: a linear scan for a file called `fileName`. */
    method CheckFile(fileName: string) returns (found: bool)
      ensures found <==> Named(files, fileName)
    {
      for i := 0 to |files|
        invariant forall k :: 0 <= k < i ==> files[k].name != fileName
      {
        if files[i].name == fileName {
          return true;
        }
      }
      return false;
    }

    /**
     * `CreateFile`: rejects an invalid name, then an existing one, and
     * otherwise appends a new record stamped `now`.
     */
    method CreateFile(fileName: string, description: string, now: string) returns (err: Option<string>)
      modifies this`files
      ensures !ValidateString(fileName) ==>
                err == Some("Error: " + fileName + " contain invalid chars.") && files == old(files)
      ensures ValidateString(fileName) && Named(old(files), fileName) ==>
                err == Some("Error: The " + fileName + " has already existed.") && files == old(files)
      ensures ValidateString(fileName) && !Named(old(files), fileName) ==>
                err.None? && files == old(files) + [File(fileName, now, description)]
      ensures old(Valid()) ==> Valid()
    {
      if !ValidateString(fileName) {
        return Some("Error: " + fileName + " contain invalid chars.");
      }
      var found := CheckFile(fileName);
      if found {
        return Some("Error: The " + fileName + " has already existed.");
      }
      if Valid() {
        AppendKeepsDistinct(files, File(fileName, now, description));
      }
      files := files + [File(fileName, now, description)];
      return None;
    }

    /** `DeleteFile`: splices out the first file called `fileName`, if any. */
    method DeleteFile(fileName: string) returns (err: Option<string>)
      modifies this`files
      ensures var i := FirstNamed(old(files), fileName);
              if i.Some? then err.None? && files == old(files)[..i.value] + old(files)[i.value + 1..]
              else err == Some("Error: The " + fileName + " doesn't exist.") && files == old(files)
      ensures old(Valid()) ==> Valid() && !Named(files, fileName)
    {
      for i := 0 to |files|
        invariant forall k :: 0 <= k < i ==> files[k].name != fileName
      {
        if files[i].name == fileName {
          if Valid() {
            SpliceRemovesName(files, i);
          }
          files := files[..i] + files[i + 1..];
          return None;
        }
      }
      return Some("Error: The " + fileName + " doesn't exist.");
    }

    /**
     * `ListFiles`: checks the order word, then the flag, and sorts the
     * folder's own sequence in place by name or creation time; the result is
     * that sequence.
     */
    method ListFiles(sortBy: string, sortOrder: string) returns (r: Result<seq<File>, string>)
      modifies this`files
      ensures !IsSortOrder(sortOrder) || !IsSortFlag(sortBy) ==>
                r == Failure(CommandsUsage["list-files"]) && files == old(files)
      ensures IsSortOrder(sortOrder) && IsSortFlag(sortBy) ==>
                && r == Success(files)
                && multiset(files) == multiset(old(files))
                && SortedBy(files, FileKey(sortBy), sortOrder == "asc")
      ensures old(Valid()) ==> Valid()
    {
      var isAsc: bool;
      if sortOrder == "asc" {
        isAsc := true;
      } else if sortOrder == "desc" {
        isAsc := false;
      } else {
        return Failure(CommandsUsage["list-files"]);
      }
      if sortBy == "--sort-name" {
        files := SortBy(files, FileName, isAsc);
      } else if sortBy == "--sort-created" {
        files := SortBy(files, FileCreatedAt, isAsc);
      } else {
        return Failure(CommandsUsage["list-files"]);
      }
      if old(Valid()) {
        PermutationKeepsDistinctKeys(old(files), files, FileName);
      }
      return Success(files);
    }
  }
}
