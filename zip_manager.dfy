/**
 * How ZipManager.java lays out an archive on disk: it detects a first path segment shared by
 * every entry name, removes it from each name and places each entry under the destination
 * directory. Entries are given by their names in archive order; a name ending in `/` is a
 * directory entry, as `ZipEntry.isDirectory` decides. The byte copying is not modelled.
 */
module ZipManager {
  import opened Wrappers
  import opened JavaStrings

  /** `ZipEntry.isDirectory`: the name ends with a slash. */
  predicate IsDirectory(name: string) {
    name != [] && name[|name| - 1] == '/'
  }

  /** `parts[0]` of `name.split("/")`, or nothing when the split yields no parts. */
  function FirstSegment(name: string): Option<string> {
    var parts := Split(name, '/');
    if parts == [] then None else Some(parts[0])
  }

  /** Every name has `root` as its first segment. */
  predicate AllRootedAt(names: seq<string>, root: string) {
    forall i :: 0 <= i < |names| ==> FirstSegment(names[i]) == Some(root)
  }

  /**
   * What `findCommonRoot` returns: the first segment of the first name when every name shares
   * it, and "" otherwise (no entries, a name without parts, or two different first segments).
   */
  function CommonRoot(names: seq<string>): (root: string)
    ensures names == [] ==> root == ""
  {
    if names != [] && FirstSegment(names[0]).Some? && AllRootedAt(names, FirstSegment(names[0]).value)
    then FirstSegment(names[0]).value
    else ""
  }

  /** `findCommonRoot`: the scan that remembers the first root and stops at the first mismatch. */
  method FindCommonRoot(names: seq<string>) returns (root: string)
    ensures root == CommonRoot(names)
  {
    var commonRoot: Option<string> := None;
    var i := 0;
    while i < |names|
      invariant 0 <= i <= |names|
      invariant commonRoot.None? <==> i == 0
      invariant commonRoot.Some? ==> commonRoot == FirstSegment(names[0]) && AllRootedAt(names[..i], commonRoot.value)
    {
      var parts := Split(names[i], '/');
      if |parts| > 0 {
        var r := parts[0];
        if commonRoot.None? {
          commonRoot := Some(r);
        } else if commonRoot.value != r {
          assert FirstSegment(names[i]) != Some(commonRoot.value);
          return "";
        }
      } else {
        assert FirstSegment(names[i]).None?;
        return "";
      }
      assert names[..i + 1] == names[..i] + [names[i]];
      i := i + 1;
    }
    assert names[..i] == names;
    return if commonRoot.Some? then commonRoot.value else "";
  }

  /** A non-empty root is the first segment of every name. */
  lemma CommonRootIsShared(names: seq<string>)
    requires CommonRoot(names) != ""
    ensures names != [] && AllRootedAt(names, CommonRoot(names))
  {
  }

  /** Conversely, a shared first segment of a non-empty archive is found. */
  lemma {:induction false} SharedRootIsFound(names: seq<string>, root: string)
    requires names != [] && AllRootedAt(names, root)
    ensures CommonRoot(names) == root
  {
    assert FirstSegment(names[0]) == Some(root);
  }

  /** Two entries with different first segments leave nothing to strip. */
  lemma {:induction false} DifferentRootsGiveNone(names: seq<string>, i: nat, j: nat)
    requires i < |names| && j < |names| && FirstSegment(names[i]) != FirstSegment(names[j])
    ensures CommonRoot(names) == ""
  {
  }

  /** The first segment of `head/tail` is `head`, and a name without a slash is its own first segment. */
  lemma {:induction false} FirstSegmentOf(name: string, head: string, tail: string)
    requires head != "" && '/' !in head
    requires name == head + "/" + tail || (tail == "" && name == head)
    ensures FirstSegment(name) == Some(head)
  {
    if name != head {
      assert name[|head|] == '/' && name[..|head|] == head;
      IndexOfAt(name, '/', |head|);
      SplitFirst(name, '/');
    }
  }

  /** An archive with a loose file and a folder has no root, so no name is rewritten. */
  lemma {:induction false} MixedEntriesExample(names: seq<string>)
    requires |names| == 2 && names[0] == "a.txt" && names[1] == "b/c.txt"
    ensures CommonRoot(names) == ""
    ensures forall i :: 0 <= i < |names| ==> StripRoot(names[i], CommonRoot(names)) == names[i]
  {
    FirstSegmentOf(names[0], "a.txt", "");
    FirstSegmentOf(names[1], "b", "c.txt");
    DifferentRootsGiveNone(names, 0, 1);
  }

  // ---------------------------------------------------------------- rewriting and placement

  /** The name with `root + "/"` removed from its front, when the root is set and the name starts so. */
  function StripRoot(name: string, root: string): (stripped: string)
    ensures |stripped| <= |name|
  {
    if root != "" && StartsWith(name, root + "/") then name[|root| + 1..] else name
  }

  /** Removing the root loses nothing: the original name is the root, a slash and the rewritten name. */
  lemma {:induction false} StripRootRoundTrip(name: string, root: string)
    ensures StripRoot(name, root) != name ==> root + "/" + StripRoot(name, root) == name
    ensures root == "" ==> StripRoot(name, root) == name
  {
    if root != "" && StartsWith(name, root + "/") {
      assert name == name[..|root| + 1] + name[|root| + 1..];
    }
  }

  /**
   * With a non-empty common root, every name is the root itself or lies under it, and then it
   * is the root, a slash and its rewritten name.
   */
  lemma {:induction false} RootedNameIsUnderRoot(name: string, root: string)
    requires root != "" && FirstSegment(name) == Some(root)
    ensures name == root || root + "/" + StripRoot(name, root) == name
  {
    if '/' in name {
      var i := IndexOf(name, '/');
      var ps := Pieces(name, '/');
      var r := DropTrailingEmpty(ps);
      assert Split(name, '/') == r && r != [] && r[0] == ps[0] == name[..i] == root;
      assert name[..i + 1] == root + "/";
      StripRootRoundTrip(name, root);
    }
  }

  /** Where an entry lands: a directory to create, or a file whose parent is created before it is written. */
  datatype Placement = Directory(path: string) | File(path: string)

  /** `destDir + File.separator + entryName` for the rewritten name. */
  function PlacementOf(destDir: string, sep: char, root: string, name: string): (p: Placement)
    ensures p.Directory? <==> IsDirectory(name)
    ensures StartsWith(p.path, destDir + [sep])
  {
    var path := destDir + [sep] + StripRoot(name, root);
    assert path[..|destDir| + 1] == destDir + [sep];
    if IsDirectory(name) then Directory(path) else File(path)
  }

  /** The entry loop of `unzip`: each entry's name is rewritten and placed under `destDir`. */
  method PlaceEntries(names: seq<string>, destDir: string, sep: char, commonRoot: string)
    returns (placed: seq<Placement>)
    ensures |placed| == |names|
    ensures forall i :: 0 <= i < |names| ==> placed[i] == PlacementOf(destDir, sep, commonRoot, names[i])
  {
    placed := [];
    var i := 0;
    while i < |names|
      invariant 0 <= i <= |names|
      invariant |placed| == i
      invariant forall k :: 0 <= k < i ==> placed[k] == PlacementOf(destDir, sep, commonRoot, names[k])
    {
      var entryName := names[i];
      if commonRoot != "" && StartsWith(entryName, commonRoot + "/") {
        entryName := entryName[|commonRoot| + 1..];
      }
      var filePath := destDir + [sep] + entryName;
      var p: Placement;
      if !IsDirectory(names[i]) {
        p := File(filePath);
      } else {
        p := Directory(filePath);
      }
      placed := placed + [p];
      i := i + 1;
    }
  }

  /**
   * `unzip`: whether the destination directory has to be created first, and the placement of
   * every entry in archive order, each computed from the root `findCommonRoot` detects.
   */
  method Unzip(names: seq<string>, destDir: string, destExists: bool, sep: char)
    returns (createDest: bool, placed: seq<Placement>)
    ensures createDest == !destExists
    ensures |placed| == |names|
    ensures forall i :: 0 <= i < |names| ==> placed[i] == PlacementOf(destDir, sep, CommonRoot(names), names[i])
  {
    createDest := !destExists;
    var commonRoot := FindCommonRoot(names);
    placed := PlaceEntries(names, destDir, sep, commonRoot);
  }

  /**
   * A shared root is removed from every entry that lies under it, so the archive's contents
   * land directly in the destination: each placed path is the destination, a separator and the
   * part of the name after the root.
   */
  lemma {:induction false} SharedRootIsFlattened(names: seq<string>, destDir: string, sep: char, i: nat)
    requires i < |names| && CommonRoot(names) != ""
    requires names[i] != CommonRoot(names)
    ensures var root := CommonRoot(names);
      names[i] == root + "/" + StripRoot(names[i], root)
      && PlacementOf(destDir, sep, root, names[i]).path == destDir + [sep] + names[i][|root| + 1..]
  {
    var root := CommonRoot(names);
    CommonRootIsShared(names);
    RootedNameIsUnderRoot(names[i], root);
  }

  /** Without a common root, every name is placed as it is. */
  lemma {:induction false} MixedRootsKeepNames(names: seq<string>, destDir: string, sep: char, i: nat)
    requires i < |names| && CommonRoot(names) == ""
    ensures PlacementOf(destDir, sep, CommonRoot(names), names[i]).path == destDir + [sep] + names[i]
  {
    StripRootRoundTrip(names[i], "");
  }

  /**
   * An archive whose entries all lie in one top folder is unpacked without that folder: the
   * folder is the common root, and each entry lands at the destination followed by the part
   * of its name inside the folder.
   */
  lemma {:induction false} SingleFolderArchive(folder: string, tails: seq<string>, destDir: string, sep: char)
    requires folder != "" && '/' !in folder && tails != []
    ensures var names := seq(|tails|, i requires 0 <= i < |tails| => folder + "/" + tails[i]);
      && CommonRoot(names) == folder
      && forall i :: 0 <= i < |names| ==> PlacementOf(destDir, sep, folder, names[i]).path == destDir + [sep] + tails[i]
  {
    var names := seq(|tails|, i requires 0 <= i < |tails| => folder + "/" + tails[i]);
    forall i | 0 <= i < |names|
      ensures FirstSegment(names[i]) == Some(folder)
      ensures StripRoot(names[i], folder) == tails[i]
    {
      FirstSegmentOf(names[i], folder, tails[i]);
      assert names[i][..|folder| + 1] == folder + "/";
      assert names[i][|folder| + 1..] == tails[i];
    }
    SharedRootIsFound(names, folder);
  }
}
