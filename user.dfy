/**
 * Users and the user directory of internal/user/user.go. A `User` maps folder
 * names to shared `Folder` objects; the package-global `ListUser` map is the
 * `Directory` class.
 */
module Users {
  import opened Wrappers
  import opened Utils
  import opened Ordering
  import opened Usage
  import opened Folders

  /** What a folder holds at one moment, as a value. */
  datatype FolderView = FolderView(name: string, description: string, createdAt: string, files: seq<File>)

  ghost function ViewOf(f: Folder): FolderView
    reads f
  {
    FolderView(f.name, f.description, f.createdAt, f.files)
  }

  /** The key `ListFolders` compares: the name, or else the creation time. */
  function FolderKeyOf(f: Folder, byName: bool): string
    reads f
  {
    if byName then f.name else f.createdAt
  }

  /**
   * `s` is in `sort.Slice` order for the comparison `ListFolders` uses: no
   * later folder strictly precedes an earlier one.
   */
  ghost predicate FoldersSorted(s: seq<Folder>, byName: bool, asc: bool)
    reads set f | f in s
  {
    forall i, j :: 0 <= i < j < |s| ==> !Precedes(FolderKeyOf(s[j], byName), FolderKeyOf(s[i], byName), asc)
  }

  class User {
    const username: string
    var folders: map<string, Folder>

    /** Every folder sits under its own name and keeps its files distinct. */
    ghost predicate Valid()
      reads this, folders.Values
    {
      forall k :: k in folders ==> folders[k].name == k && folders[k].Valid()
    }

    /** The user's folders as values, keyed by name. */
    ghost function View(): map<string, FolderView>
      reads this, folders.Values
    {
      map k | k in folders :: ViewOf(folders[k])
    }

    /** A freshly registered user: no folders. */
    constructor(username: string)
      ensures this.username == username && folders == map[] && Valid()
    {
      this.username := username;
      folders := map[];
    }

    /**
     * `CreateFolder`: rejects an invalid name, then an existing one, and
     * otherwise adds a new empty folder stamped `now` under that name.
     */
    method CreateFolder(folderName: string, description: string, now: string) returns (err: Option<string>)
      modifies this`folders
      ensures !ValidateString(folderName) ==>
                err == Some(folderName + " contain invalid chars") && folders == old(folders)
      ensures ValidateString(folderName) && folderName in old(folders) ==>
                err == Some("the " + folderName + " has already existed") && folders == old(folders)
      ensures ValidateString(folderName) && folderName !in old(folders) ==>
                && err.None? && folderName in folders
                && fresh(folders[folderName])
                && folders == old(folders)[folderName := folders[folderName]]
                && View() == old(View())[folderName := FolderView(folderName, description, now, [])]
      ensures old(Valid()) ==> Valid()
    {
      if !ValidateString(folderName) {
        return Some(folderName + " contain invalid chars");
      }
      if folderName in folders {
        return Some("the " + folderName + " has already existed");
      }
      var folder := new Folder(folderName, description, now);
      folders := folders[folderName := folder];
      forall k | k in old(folders) ensures ViewOf(folders[k]) == old(ViewOf(folders[k])) {
        assert folders[k] == old(folders[k]);
      }
      assert View() == old(View())[folderName := FolderView(folderName, description, now, [])];
      return None;
    }

    /** `DeleteFolder`: drops the named folder, and with it its files. */
    method DeleteFolder(folderName: string) returns (err: Option<string>)
      modifies this`folders
      ensures folderName in old(folders) ==>
                err.None? && folders == old(folders) - {folderName} && View() == old(View()) - {folderName}
      ensures folderName !in old(folders) ==>
                err == Some("the " + folderName + " doesn't exist") && folders == old(folders)
      ensures old(Valid()) ==> Valid()
    {
      if folderName in folders {
        folders := folders - {folderName};
        assert View() == old(View()) - {folderName};
        return None;
      }
      return Some("the " + folderName + " doesn't exist");
    }

    /**
     * `RenameFolder`: moves the folder object to the new key and renames it.
     * The new name is not validated; an existing new key is refused, which
     * includes the old name itself.
     */
    method RenameFolder(folderName: string, newFolderName: string) returns (err: Option<string>)
      modifies this`folders, folders.Values
      ensures folderName !in old(folders) ==>
                err == Some("the " + folderName + " doesn't exist") && folders == old(folders)
      ensures folderName in old(folders) && newFolderName in old(folders) ==>
                err == Some("the " + newFolderName + " already exists") && folders == old(folders)
      ensures folderName in old(folders) && newFolderName !in old(folders) ==>
                var f := old(folders[folderName]);
                && err.None?
                && folders == (old(folders) - {folderName})[newFolderName := f]
                && ViewOf(f) == old(ViewOf(f)).(name := newFolderName)
                && (old(Valid()) ==>
                      View() == (old(View()) - {folderName})[newFolderName := old(View())[folderName].(name := newFolderName)])
      ensures forall g :: g in old(folders.Values) && (folderName !in old(folders) || g != old(folders[folderName])) ==>
                unchanged(g)
      ensures err.Some? ==> forall g :: g in old(folders.Values) ==> unchanged(g)
      ensures old(Valid()) ==> Valid()
    {
      if folderName !in folders {
        return Some("the " + folderName + " doesn't exist");
      }
      var folder := folders[folderName];
      if newFolderName in folders {
        return Some("the " + newFolderName + " already exists");
      }
      folder.name := newFolderName;
      folders := folders[newFolderName := folder];
      folders := folders - {folderName};
      if old(Valid()) {
        Renamed((folderName, newFolderName));
      }
      return None;
    }

    /**
     * A change confined to the folder under key `k` shows in the view at `k`
     * alone, and keeps the user valid when that folder stays valid.
     */
    twostate lemma OneFolderChanged(k: string)
      requires unchanged(this) && k in folders
      requires forall j :: j in folders && j != k ==> unchanged(folders[j])
      ensures View() == old(View())[k := ViewOf(folders[k])]
      ensures old(Valid()) && folders[k].name == k && folders[k].Valid() ==> Valid()
    {
      forall j | j in folders && j != k ensures ViewOf(folders[j]) == old(ViewOf(folders[j])) {
      }
    }

    /**
     * Moving the folder at `names.0` to the key `names.1`, with its name
     * changed to match and nothing else touched, renames the entry of the
     * view and keeps the user valid. The two keys travel as one pair: a
     * twostate lemma with two string parameters crashes Dafny 4.11's
     * contradictory-assumption analysis.
     */
    twostate lemma Renamed(names: (string, string))
      requires old(Valid()) && names.0 in old(folders) && names.1 !in old(folders)
      requires folders == (old(folders) - {names.0})[names.1 := old(folders[names.0])]
      requires var f: Folder := old(folders[names.0]); f.name == names.1 && unchanged(f`description, f`createdAt, f`files)
      requires forall g :: g in old(folders.Values) && g != old(folders[names.0]) ==> unchanged(g)
      ensures View() == (old(View()) - {names.0})[names.1 := old(View())[names.0].(name := names.1)]
      ensures Valid()
    {
      var (from, to) := names;
      forall k | k in folders && k != to ensures ViewOf(folders[k]) == old(ViewOf(folders[k])) && folders[k].name == k && folders[k].Valid() {
        assert folders[k] == old(folders[k]) && folders[k] in old(folders.Values);
        assert old(folders[k].name == k && folders[k].Valid());
      }
      assert old(folders[from].Valid());
    }

    /** `GetFolder`: the folder stored under `folderName`, shared, not copied. */
    function GetFolder(folderName: string): (r: Result<Folder, string>)
      reads this, folders.Values
      ensures r.Success? <==> folderName in folders
      ensures r.Success? ==> r.value == folders[folderName] && (Valid() ==> r.value.name == folderName)
      ensures r.Failure? ==> r.error == "the " + folderName + " doesn't exist"
    {
      if folderName in folders then Success(folders[folderName])
      else Failure("the " + folderName + " doesn't exist")
    }

    /**
     * `ListFolders`: checks the order word, then collects the folders in map
     * order (arbitrary) and sorts that fresh sequence; the map is untouched.
     */
    method ListFolders(sortBy: string, sortOrder: string) returns (r: Result<seq<Folder>, string>)
      ensures !IsSortOrder(sortOrder) || !IsSortFlag(sortBy) ==> r == Failure(CommandsUsage["list-folders"])
      ensures IsSortOrder(sortOrder) && IsSortFlag(sortBy) ==>
                && r.Success?
                && |r.value| == |folders|
                && (forall f :: f in r.value <==> f in folders.Values)
                && FoldersSorted(r.value, sortBy == "--sort-name", sortOrder == "asc")
      ensures r.Success? && Valid() ==>
                && multiset(r.value) == multiset(folders.Values)
                && forall i, j :: 0 <= i < j < |r.value| ==> r.value[i].name != r.value[j].name
    {
      var isAsc: bool;
      if sortOrder == "asc" {
        isAsc := true;
      } else if sortOrder == "desc" {
        isAsc := false;
      } else {
        return Failure(CommandsUsage["list-folders"]);
      }
      var list, taken := CollectFolders();
      var byName: bool;
      if sortBy == "--sort-name" {
        byName := true;
      } else if sortBy == "--sort-created" {
        byName := false;
      } else {
        return Failure(CommandsUsage["list-folders"]);
      }
      // sort.Slice's comparison reads the folders; the sort sees a snapshot of the keys.
      var keys := map f | f in folders.Values :: FolderKeyOf(f, byName);
      var sorted := SortBy(list, (f: Folder) => if f in keys then keys[f] else "", isAsc);
      SortedSnapshot(list, sorted, byName, isAsc, keys, folders.Values);
      if Valid() {
        DistinctNamesListed(list, sorted, taken, folders);
        DistinctListIsSet(sorted, folders.Values);
      }
      r := Success(sorted);
    }

    /**
     * The collecting loop of `ListFolders`: every key once, in an arbitrary
     * order. `taken` records the key each entry was read under.
     */
    method CollectFolders() returns (list: seq<Folder>, ghost taken: seq<string>)
      ensures |list| == |taken| == |folders|
      ensures forall i :: 0 <= i < |list| ==> taken[i] in folders && list[i] == folders[taken[i]]
      ensures forall i, j :: 0 <= i < j < |taken| ==> taken[i] != taken[j]
      ensures forall f :: f in list <==> f in folders.Values
    {
      var rest := folders.Keys;
      list := [];
      taken := [];
      while rest != {}
        invariant rest <= folders.Keys
        invariant |list| == |taken| && |list| + |rest| == |folders|
        invariant forall i :: 0 <= i < |list| ==> taken[i] in folders && taken[i] !in rest && list[i] == folders[taken[i]]
        invariant forall i, j :: 0 <= i < j < |taken| ==> taken[i] != taken[j]
        invariant forall k :: k in folders && k !in rest ==> k in taken
        decreases |rest|
      {
        var k :| k in rest;
        list := list + [folders[k]];
        taken := taken + [k];
        rest := rest - {k};
      }
      forall f | f in folders.Values ensures f in list {
        var k :| k in folders && folders[k] == f;
        var i :| 0 <= i < |taken| && taken[i] == k;
        assert list[i] == f;
      }
    }
  }

  /** The key snapshot agrees with the folders' own keys, so the sorted order is theirs. */
  lemma SortedSnapshot(list: seq<Folder>, sorted: seq<Folder>, byName: bool, asc: bool,
                       keys: map<Folder, string>, fs: set<Folder>)
    requires forall f :: f in list ==> f in fs
    requires forall f :: f in fs ==> f in keys && keys[f] == FolderKeyOf(f, byName)
    requires multiset(sorted) == multiset(list)
    requires SortedBy(sorted, (f: Folder) => if f in keys then keys[f] else "", asc)
    ensures |sorted| == |list|
    ensures forall f :: f in sorted <==> f in list
    ensures FoldersSorted(sorted, byName, asc)
  {
    assert |sorted| == |multiset(sorted)| == |multiset(list)| == |list|;
    assert forall f :: f in sorted <==> f in multiset(list);
  }

  /**
   * Under `Valid`, folders read under distinct keys have distinct names, and
   * sorting keeps them so.
   */
  lemma DistinctNamesListed(list: seq<Folder>, sorted: seq<Folder>, taken: seq<string>, folders: map<string, Folder>)
    requires |list| == |taken|
    requires forall i :: 0 <= i < |list| ==> taken[i] in folders && list[i] == folders[taken[i]]
    requires forall k :: k in folders ==> folders[k].name == k
    requires forall i, j :: 0 <= i < j < |taken| ==> taken[i] != taken[j]
    requires multiset(sorted) == multiset(list)
    ensures forall i, j :: 0 <= i < j < |sorted| ==> sorted[i].name != sorted[j].name
  {
    var names := map f | f in list :: f.name;
    var key := (f: Folder) => if f in names then names[f] else "";
    assert DistinctKeys(list, key) by {
      forall i, j | 0 <= i < j < |list| ensures key(list[i]) != key(list[j]) {
        assert list[i].name == taken[i] && list[j].name == taken[j];
      }
    }
    PermutationKeepsDistinctKeys(list, sorted, key);
    forall i, j | 0 <= i < j < |sorted| ensures sorted[i].name != sorted[j].name {
      assert sorted[i] in multiset(list) && sorted[j] in multiset(list);
      assert key(sorted[i]) != key(sorted[j]);
    }
  }

  /** A sequence without repeats that holds exactly the elements of `fs` is a permutation of `fs`. */
  lemma DistinctListIsSet(s: seq<Folder>, fs: set<Folder>)
    requires forall f :: f in s <==> f in fs
    requires forall i, j :: 0 <= i < j < |s| ==> s[i].name != s[j].name
    ensures multiset(s) == multiset(fs)
  {
    forall i, j | 0 <= i < j < |s| ensures s[i] != s[j] {
      assert s[i].name != s[j].name;
    }
    DistinctSeqIsSet(s, fs);
  }

  /** A sequence without repeats holding exactly the members of a set is a listing of that set. */
  lemma {:induction false} DistinctSeqIsSet<T>(s: seq<T>, xs: set<T>)
    requires forall x :: x in s <==> x in xs
    requires forall i, j :: 0 <= i < j < |s| ==> s[i] != s[j]
    ensures multiset(s) == multiset(xs)
  {
    if s != [] {
      var t := s[1..];
      var rest := xs - {s[0]};
      forall x | x in t ensures x in rest {
        var j :| 0 <= j < |t| && t[j] == x;
        assert s[j + 1] == x;
      }
      forall x | x in rest ensures x in t {
        var j :| 0 <= j < |s| && s[j] == x;
        assert t[j - 1] == x;
      }
      forall i, j | 0 <= i < j < |t| ensures t[i] != t[j] {
        assert t[i] == s[i + 1] && t[j] == s[j + 1];
      }
      DistinctSeqIsSet(t, rest);
      assert s == [s[0]] + t;
      assert xs == {s[0]} + rest;
    }
  }

  /**
   * With distinct folder names, the descending listing by name is the
   * ascending one reversed: tie order never comes into play.
   */
  lemma DescListingReversesAsc(up: seq<Folder>, down: seq<Folder>, fs: set<Folder>)
    requires multiset(up) == multiset(fs) && multiset(down) == multiset(fs)
    requires forall i, j :: 0 <= i < j < |up| ==> up[i].name != up[j].name
    requires FoldersSorted(up, true, true) && FoldersSorted(down, true, false)
    ensures down == Reverse(up)
  {
    var names: map<Folder, string> := map f | f in fs :: f.name;
    var key := (f: Folder) => if f in names then names[f] else "";
    SnapshotNames(up, fs, names);
    SnapshotNames(down, fs, names);
    assert DistinctKeys(up, key) by {
      forall i, j | 0 <= i < j < |up| ensures key(up[i]) != key(up[j]) {
        assert key(up[i]) == up[i].name && key(up[j]) == up[j].name;
      }
    }
    assert SortedBy(up, key, true) by {
      forall i, j | 0 <= i < j < |up| ensures !Precedes(key(up[j]), key(up[i]), true) {
        assert key(up[i]) == FolderKeyOf(up[i], true) && key(up[j]) == FolderKeyOf(up[j], true);
      }
    }
    assert SortedBy(down, key, false) by {
      forall i, j | 0 <= i < j < |down| ensures !Precedes(key(down[j]), key(down[i]), false) {
        assert key(down[i]) == FolderKeyOf(down[i], true) && key(down[j]) == FolderKeyOf(down[j], true);
      }
    }
    DescIsReverseOfAsc(up, up, down, key);
  }

  /** A valid user whose record and folders are untouched stays valid. */
  twostate lemma OldUserStaysValid(v: User)
    requires old(v.Valid()) && unchanged(v)
    requires forall f :: f in v.folders.Values ==> unchanged(f)
    ensures v.Valid()
  {
    forall n | n in v.folders ensures v.folders[n].name == n && v.folders[n].Valid() {
      assert v.folders[n] in v.folders.Values;
      assert old(v.folders[n].name == n && v.folders[n].Valid());
    }
  }

  /** The directory view with the files of folder `folder` of user `user` replaced. */
  function WithFiles(view: map<string, map<string, FolderView>>, user: string, folder: string, files: seq<File>): map<string, map<string, FolderView>>
    requires user in view && folder in view[user]
  {
    view[user := view[user][folder := view[user][folder].(files := files)]]
  }

  /** A name snapshot of `fs` agrees with the name of each folder of a permutation of `fs`. */
  lemma SnapshotNames(s: seq<Folder>, fs: set<Folder>, names: map<Folder, string>)
    requires multiset(s) == multiset(fs)
    requires names == map f | f in fs :: f.name
    ensures forall i :: 0 <= i < |s| ==> s[i] in names && names[s[i]] == s[i].name
  {
    forall i | 0 <= i < |s| ensures s[i] in names && names[s[i]] == s[i].name {
      assert s[i] in multiset(fs);
    }
  }

  class Directory {
    var users: map<string, User>

    /** Every folder of every user. */
    ghost function Folders(): set<Folder>
      reads this, users.Values
    {
      set u, f | u in users.Values && f in u.folders.Values :: f
    }

    /**
     * Every user sits under its own name and is valid, and no folder object
     * is shared between two users.
     */
    ghost predicate Valid()
      reads this, users.Values, Folders()
    {
      && (forall k :: k in users ==> users[k].username == k && users[k].Valid())
      && (forall k1, k2 :: k1 in users && k2 in users && k1 != k2 ==>
            users[k1].folders.Values !! users[k2].folders.Values)
    }

    /** The whole store as a value: user name to folder name to folder. */
    ghost function View(): map<string, map<string, FolderView>>
      reads this, users.Values, Folders()
    {
      map k | k in users :: users[k].View()
    }

    /**
     * A change confined to the user under key `k` and that user's folders
     * shows in the view at `k` alone, and keeps the directory valid when that
     * user stays valid and shares no folder.
     */
    twostate lemma OneUserChanged(k: string)
      requires unchanged(this) && k in users
      requires forall j :: j in users && j != k ==>
                 unchanged(users[j]) && forall f :: f in users[j].folders.Values ==> unchanged(f)
      ensures View() == old(View())[k := users[k].View()]
      ensures old(Valid()) && users[k].username == k && users[k].Valid() &&
              (forall j :: j in users && j != k ==> users[k].folders.Values !! users[j].folders.Values) ==>
              Valid()
    {
      forall j | j in users && j != k ensures users[j].View() == old(users[j].View()) {
        var v := users[j];
        forall n | n in v.folders ensures ViewOf(v.folders[n]) == old(ViewOf(v.folders[n])) {
          assert v.folders[n] in v.folders.Values;
        }
      }
      if old(Valid()) && users[k].username == k && users[k].Valid() &&
         (forall j :: j in users && j != k ==> users[k].folders.Values !! users[j].folders.Values) {
        forall j | j in users && j != k ensures users[j].Valid() {
          var v := users[j];
          assert old(v.Valid());
          forall n | n in v.folders ensures v.folders[n].name == n && v.folders[n].Valid() {
            assert v.folders[n] in v.folders.Values;
            assert old(v.folders[n].name == n && v.folders[n].Valid());
          }
        }
      }
    }

    /**
     * A change to the files of folder `name` of user `user` alone shows in
     * the view at that folder alone, and keeps a valid directory valid when
     * the folder stays valid. The user and folder names travel as one pair,
     * for the same reason as in `User.Renamed`.
     */
    twostate lemma FilesChanged(at: (string, string))
      requires var (user, name) := at;
               old(Valid()) && unchanged(this) && user in users && name in users[user].folders
      requires forall k :: k in users ==> unchanged(users[k])
      requires forall f :: f in old(Folders()) && f != users[at.0].folders[at.1] ==> unchanged(f)
      requires var f: Folder := users[at.0].folders[at.1]; unchanged(f`name, f`description, f`createdAt)
      requires users[at.0].folders[at.1].Valid()
      ensures at.0 in old(View()) && at.1 in old(View())[at.0]
      ensures View() == WithFiles(old(View()), at.0, at.1, users[at.0].folders[at.1].files)
      ensures Valid()
    {
      var (user, name) := at;
      var account := users[user];
      var folder := account.folders[name];
      forall j | j in account.folders ensures account.folders[j] in old(Folders()) {
        assert account in old(users.Values);
        assert account.folders[j] in old(account.folders.Values);
      }
      assert forall j :: j in account.folders && j != name ==> account.folders[j] != folder;
      account.OneFolderChanged(name);
      forall j | j in users && j != user
        ensures users[j] != account && folder !in users[j].folders.Values
        ensures forall f :: f in users[j].folders.Values ==> unchanged(f)
      {
        var other := users[j];
        assert other in old(users.Values);
        forall f | f in other.folders.Values ensures f in old(Folders()) {
          assert f in old(other.folders.Values);
        }
      }
      OneUserChanged(user);
      assert old(View())[user] == old(account.View());
      assert old(account.View())[name] == old(ViewOf(folder));
    }

    /**
     * Adding user `k` with no folders, leaving the others as they were, adds
     * an empty entry to the view.
     */
    twostate lemma UserAdded(k: string)
      requires k !in old(users) && k in users && users == old(users)[k := users[k]]
      requires forall j :: j in old(users) ==>
                 unchanged(users[j]) && forall f :: f in users[j].folders.Values ==> unchanged(f)
      requires users[k].folders == map[]
      ensures View() == old(View())[k := map[]]
    {
      forall j | j in old(users) ensures users[j].View() == old(users[j].View()) {
        var v := users[j];
        forall n | n in v.folders ensures ViewOf(v.folders[n]) == old(ViewOf(v.folders[n])) {
          assert v.folders[n] in v.folders.Values;
        }
      }
      assert users[k].View() == map[];
    }

    /** The same addition keeps a valid directory valid. */
    twostate lemma UserAddedKeepsValid(k: string)
      requires old(Valid())
      requires k !in old(users) && k in users && users == old(users)[k := users[k]]
      requires forall j :: j in old(users) ==>
                 unchanged(users[j]) && forall f :: f in users[j].folders.Values ==> unchanged(f)
      requires users[k].username == k && users[k].folders == map[]
      ensures Valid()
    {
      forall j | j in old(users) ensures users[j].Valid() {
        OldUserStaysValid(users[j]);
      }
      assert users[k].folders.Values == {};
      forall j1, j2 | j1 in users && j2 in users && j1 != j2
        ensures users[j1].folders.Values !! users[j2].folders.Values
      {
        if j1 != k && j2 != k {
          assert old(users[j1].folders.Values !! users[j2].folders.Values);
        }
      }
    }

    /** A change that leaves every user and every folder as it was leaves the view as it was. */
    twostate lemma NothingChanged()
      requires unchanged(this)
      requires forall k :: k in users ==> unchanged(users[k]) && forall f :: f in users[k].folders.Values ==> unchanged(f)
      ensures View() == old(View())
    {
      forall k | k in users ensures users[k].View() == old(users[k].View()) {
        var v := users[k];
        forall n | n in v.folders ensures ViewOf(v.folders[n]) == old(ViewOf(v.folders[n])) {
          assert v.folders[n] in v.folders.Values;
        }
      }
    }

    /** The empty `ListUser` map. */
    constructor()
      ensures users == map[] && Valid()
    {
      users := map[];
    }

    /**
     * `RegisterUser`: refuses an existing name first, then an invalid one,
     * and otherwise adds a user with no folders.
     */
    method RegisterUser(username: string) returns (err: Option<string>)
      modifies this`users
      ensures username in old(users) ==>
                err == Some("the " + username + " has already existed") && users == old(users)
      ensures username !in old(users) && !ValidateString(username) ==>
                err == Some("the " + username + " contain invalid chars") && users == old(users)
      ensures username !in old(users) && ValidateString(username) ==>
                && err.None? && username in users && fresh(users[username])
                && users == old(users)[username := users[username]]
                && users[username].username == username && users[username].folders == map[]
                && View() == old(View())[username := map[]]
      ensures old(Valid()) ==> Valid()
    {
      if username in users {
        return Some("the " + username + " has already existed");
      }
      if !ValidateString(username) {
        return Some("the " + username + " contain invalid chars");
      }
      var user := new User(username);
      users := users[username := user];
      UserAdded(username);
      if old(Valid()) {
        UserAddedKeepsValid(username);
      }
      return None;
    }

    /** `GetUser`: the registered user called `username`. */
    function GetUser(username: string): (r: Result<User, string>)
      reads this, users.Values
      ensures r.Success? <==> username in users
      ensures r.Success? ==> r.value == users[username]
      ensures r.Success? && (forall k :: k in users ==> users[k].username == k) ==> r.value.username == username
      ensures r.Failure? ==> r.error == "the " + username + " doesn't exist"
    {
      if username in users then Success(users[username])
      else Failure("the " + username + " doesn't exist")
    }
  }
}
