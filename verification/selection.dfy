/**
 * Building the list of files waiting to be sent, and the check made before a
 * send starts. Dialog results and the directory listing are inputs; paths
 * follow POSIX conventions ('/' separates components).
 */
module Selection {

  import opened Common
  import opened Transfer

  /** One entry of a directory listing: its name and whether it is a regular file. */
  datatype DirEntry = DirEntry(name: string, isFile: bool)

  /** What pressing "Send File(s)" leads to. */
  datatype SendRequest = NoPeerSelected | NoFilesSelected | Start(ip: string, items: seq<Item>)

  /** `name` is the last component of `path`: the text after its last '/'. */
  predicate LastComponent(name: string, path: string)
  {
    && '/' !in name
    && |name| <= |path|
    && path[|path| - |name|..] == name
    && (|name| == |path| || path[|path| - |name| - 1] == '/')
  }

  /** `os.path.basename`. */
  function Basename(path: string): (name: string)
    ensures LastComponent(name, path)
  {
    if path == [] || path[|path| - 1] == '/' then
      []
    else
      var init := path[..|path| - 1];
      var name := Basename(init) + [path[|path| - 1]];
      assert path[|path| - |name|..] == init[|init| - |name| + 1..] + [path[|path| - 1]];
      name
  }

  /** The last component of a path is unique, so Basename is the only answer. */
  lemma LastComponentUnique(a: string, b: string, path: string)
    requires LastComponent(a, path) && LastComponent(b, path)
    ensures a == b
  {
  }

  /** `os.path.join(a, b)` with two arguments. */
  function PathJoin(a: string, b: string): (path: string)
    ensures |b| > 0 && b[0] == '/' ==> path == b
    ensures !(|b| > 0 && b[0] == '/') ==> |a| + |b| <= |path| <= |a| + |b| + 1
    ensures !(|b| > 0 && b[0] == '/') ==> path[..|a|] == a && path[|path| - |b|..] == b
    ensures |path| == |a| + |b| + 1 <==> !(|b| > 0 && b[0] == '/') && a != [] && a[|a| - 1] != '/'
    ensures |path| == |a| + |b| + 1 ==> path[|a|] == '/'
  {
    if |b| > 0 && b[0] == '/' then b
    else if a == [] || a[|a| - 1] == '/' then a + b
    else a + "/" + b
  }

  /** `select_files`: each chosen path, stored under its base name. */
  function FileItems(paths: seq<string>): (items: seq<Item>)
    ensures |items| == |paths|
    ensures forall i :: 0 <= i < |items| ==>
      items[i].source == paths[i] && LastComponent(items[i].relPath, paths[i])
  {
    seq(|paths|, i requires 0 <= i < |paths| => Item(paths[i], Basename(paths[i])))
  }

  /** The item `select_folder` makes for one directory entry. */
  function FolderItem(folder: string, entry: DirEntry): Item
  {
    Item(PathJoin(folder, entry.name), PathJoin(Basename(folder), entry.name))
  }

  /** `select_folder`'s list: one item per regular file of the listing, in listing order. */
  function FolderItems(folder: string, listing: seq<DirEntry>): seq<Item>
  {
    if listing == [] then
      []
    else
      var last := listing[|listing| - 1];
      FolderItems(folder, listing[..|listing| - 1]) + (if last.isFile then [FolderItem(folder, last)] else [])
  }

  /** Exactly the regular files of the listing become items; the others are skipped. */
  lemma {:induction false} FolderItemsMembers(folder: string, listing: seq<DirEntry>)
    ensures |FolderItems(folder, listing)| <= |listing|
    ensures forall it :: it in FolderItems(folder, listing) <==>
      exists e :: e in listing && e.isFile && it == FolderItem(folder, e)
    decreases |listing|
  {
    if listing != [] {
      var init := listing[..|listing| - 1];
      var last := listing[|listing| - 1];
      FolderItemsMembers(folder, init);
      assert listing == init + [last];
      forall it | it in FolderItems(folder, listing)
        ensures exists e :: e in listing && e.isFile && it == FolderItem(folder, e)
      {
        if it in FolderItems(folder, init) {
          var e :| e in init && e.isFile && it == FolderItem(folder, e);
          assert e in listing;
        } else {
          assert last in listing;
        }
      }
      forall it, e | e in listing && e.isFile && it == FolderItem(folder, e)
        ensures it in FolderItems(folder, listing)
      {
        if e != last {
          assert e in init;
        }
      }
    }
  }

  /** When the folder has a name, each item is stored under `folder_name + "/" + filename`. */
  lemma FolderRelPath(folder: string, entry: DirEntry)
    requires Basename(folder) != [] && (entry.name == [] || entry.name[0] != '/')
    ensures FolderItem(folder, entry).relPath == Basename(folder) + "/" + entry.name
  {
  }

  /** A send may start only when a peer is selected and some files are pending. */
  predicate CanSend(selection: Option<string>, files: seq<Item>)
  {
    selection.Some? && files != []
  }

  class PendingSend {
    /** `files_to_send`: the items the next send will go through, in order. */
    var files: seq<Item>

    constructor ()
      ensures files == []
    {
      files := [];
    }

    /** A non-empty file choice replaces the list; a cancelled dialog leaves it. */
    method SelectFiles(paths: seq<string>)
      modifies this
      ensures files == if paths != [] then FileItems(paths) else old(files)
    {
      if paths != [] {
        files := FileItems(paths);
      }
    }

    /**
     * A folder choice replaces the list with the folder's regular files, but
     * only when there is at least one; a cancelled dialog leaves it.
     */
    method SelectFolder(folderPath: string, listing: seq<DirEntry>)
      modifies this
      ensures var found := FolderItems(folderPath, listing);
        files == if folderPath != [] && found != [] then found else old(files)
    {
      if folderPath != [] {
        var fileList: seq<Item> := [];
        var folderName := Basename(folderPath);
        for i := 0 to |listing|
          invariant fileList == FolderItems(folderPath, listing[..i])
        {
          var entry := listing[i];
          var fullPath := PathJoin(folderPath, entry.name);
          assert listing[..i + 1][..i] == listing[..i];
          if entry.isFile {
            var relPath := PathJoin(folderName, entry.name);
            fileList := fileList + [Item(fullPath, relPath)];
          }
        }
        assert listing[..|listing|] == listing;
        if fileList != [] {
          files := fileList;
        }
      }
    }

    /**
     * `send_file_to_selected_peer`: refuse without a selected peer, then
     * without pending files; otherwise start sending the list to that peer.
     * Nothing changes here either way.
     */
    method SendToSelectedPeer(selection: Option<string>) returns (request: SendRequest)
      ensures request.Start? <==> CanSend(selection, files)
      ensures request == NoPeerSelected <==> selection.None?
      ensures request == NoFilesSelected <==> selection.Some? && files == []
      ensures request.Start? ==> request.ip == selection.value && request.items == files
    {
      if selection.None? {
        return NoPeerSelected;
      }
      if files == [] {
        return NoFilesSelected;
      }
      request := Start(selection.value, files);
    }
  }
}
