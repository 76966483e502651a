/**
 * The entities of the directory tree: Directory, whose list of sub-directories
 * grows in place, and FileSystemEntry, a file name under its parent directory.
 * Also the two name computations of MakeDirectoryTree: the lookup of an
 * existing node and the name of a child node.
 */
module Entries {
  import opened Results
  import opened Strings
  import opened Paths

  /** A directory node: a full name, whether it is a root, and its sub-directories. */
  class Directory {
    const name: string
    const isRoot: bool
    var subDirectories: seq<Directory>

    constructor (name: string, isRoot: bool)
      ensures this.name == name && this.isRoot == isRoot && subDirectories == []
    {
      this.name := name;
      this.isRoot := isRoot;
      subDirectories := [];
    }
  }

  /** A file: its parent directory (null for a name without a separator) and its name. */
  datatype FileSystemEntry = FileSystemEntry(parent: Directory?, name: string)

  /** FileSystemEntry.Path: Path.Combine of the parent's name and the file's name. */
  function EntryPath(e: FileSystemEntry, sep: char, volumeSep: char): (r: Result<string>)
    ensures r.Err? <==> e.parent == null
    ensures r.Err? ==> r.error == NullReference
  {
    if e.parent == null then Err(NullReference) else Ok(Combine(e.parent.name, e.name, sep, volumeSep))
  }

  /**
   * List.Find(x => x.Name.ToLower() == name) as an index: the first node whose
   * lower-cased name is the sought name, or -1.
   */
  function FindByLowerName(ds: seq<Directory>, name: string): (r: int)
    ensures -1 <= r < |ds|
    ensures r >= 0 ==> ToLower(ds[r].name) == name
    ensures r >= 0 ==> forall j :: 0 <= j < r ==> ToLower(ds[j].name) != name
    ensures r == -1 ==> forall j :: 0 <= j < |ds| ==> ToLower(ds[j].name) != name
  {
    if |ds| == 0 then -1
    else if ToLower(ds[0].name) == name then 0
    else
      var k := FindByLowerName(ds[1..], name);
      if k < 0 then -1 else k + 1
  }

  /** Only the stored name is lower-cased, so a sought name with an upper-case letter is never found. */
  lemma UpperCaseNameNeverFound(ds: seq<Directory>, name: string, i: nat)
    requires i < |name| && IsUpper(name[i])
    ensures FindByLowerName(ds, name) == -1
  {
    forall j | 0 <= j < |ds|
      ensures ToLower(ds[j].name) != name
    {
      if |ds[j].name| == |name| {
        assert !IsUpper(ToLower(ds[j].name)[i]);
      }
    }
  }

  /**
   * The name MakeDirectoryTree gives the child dir of a directory: when the
   * parent's name ends with the volume separator (or is empty) the parent's
   * name and a separator, without dir; otherwise Path.Combine of the two.
   */
  function ChildName(parentName: string, dir: string, sep: char, volumeSep: char): string
  {
    if LastIndexOf(parentName, volumeSep) == |parentName| - 1 then parentName + [sep]
    else Combine(parentName, dir, sep, volumeSep)
  }

  /** The volume branch: after a drive name the child's own name is dropped. */
  lemma ChildOfVolume(parentName: string, dir: string, sep: char, volumeSep: char)
    requires |parentName| > 0 && parentName[|parentName| - 1] == volumeSep
    ensures ChildName(parentName, dir, sep, volumeSep) == parentName + [sep]
  {
  }

  /** The volume branch also takes an empty parent name, whose last volume separator is at -1. */
  lemma ChildOfEmptyName(dir: string, sep: char, volumeSep: char)
    ensures ChildName("", dir, sep, volumeSep) == [sep]
  {
  }

  /**
   * Otherwise the child's name is the parent's name, a separator and dir; a
   * volume separator earlier in the parent's name, as in "C:\Users", does not matter.
   */
  lemma ChildOfPlainName(parentName: string, dir: string, sep: char, volumeSep: char)
    requires |parentName| > 0 && parentName[|parentName| - 1] != volumeSep
    requires parentName[|parentName| - 1] != sep
    requires |dir| > 0 && dir[0] != sep
    ensures ChildName(parentName, dir, sep, volumeSep) == parentName + [sep] + dir
  {
  }

  /** The drive example: the child "Users" of "C:" is named "C:\", not "C:\Users". */
  lemma DriveChildExample()
    ensures ChildName("C:", "Users", '\\', ':') == "C:\\"
  {
    ChildOfVolume("C:", "Users", '\\', ':');
  }

  /** Below a directory of a drive the branch is Path.Combine: "C:\Users" and "bob" give "C:\Users\bob". */
  lemma DriveSubdirectoryChildExample()
    ensures ChildName("C:\\Users", "bob", '\\', ':') == "C:\\Users\\bob"
  {
    ChildOfPlainName("C:\\Users", "bob", '\\', ':');
  }
}
