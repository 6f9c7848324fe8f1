/**
 * The two public directories of the share feature: the image directory,
 * listed in `readdir` order with each entry's kind and modification time,
 * and the page directory, from page name to its HTML text.
 */
module SharedDirs {
  import opened Common
  import opened Paths

  /** A directory entry: its name, whether it is a regular file, and its `mtimeMs`. */
  datatype DirEntry = DirEntry(name: string, isFile: bool, mtime: int)

  /** Names in one directory are distinct. */
  predicate UniqueNames(entries: seq<DirEntry>) {
    forall i, j :: 0 <= i < j < |entries| ==> entries[i].name != entries[j].name
  }

  predicate HasEntry(entries: seq<DirEntry>, name: string) {
    exists i :: 0 <= i < |entries| && entries[i].name == name
  }

  /** The position of the entry called `name`, if any. */
  function FindEntry(entries: seq<DirEntry>, name: string): (r: Option<nat>)
    ensures r.Some? ==> r.value < |entries| && entries[r.value].name == name
    ensures r.None? <==> !HasEntry(entries, name)
    decreases |entries|
  {
    if entries == [] then None
    else if entries[0].name == name then Some(0)
    else
      var k := FindEntry(entries[1..], name);
      assert forall i :: 1 <= i < |entries| ==> entries[i] == entries[1..][i - 1];
      if k.Some? then Some(k.value + 1) else None
  }

  /**
   * `fs.writeFile` into the image directory: the file called `name`,
   * modified at `now`, replaces an entry of that name or is added after
   * the others.
   */
  function WriteEntry(entries: seq<DirEntry>, name: string, now: int): (r: seq<DirEntry>)
    requires UniqueNames(entries)
    ensures UniqueNames(r)
    ensures FindEntry(r, name).Some? && r[FindEntry(r, name).value] == DirEntry(name, true, now)
    ensures forall i :: 0 <= i < |entries| && entries[i].name != name ==> entries[i] in r
    ensures forall j :: 0 <= j < |r| && r[j].name != name ==> r[j] in entries
  {
    var e := DirEntry(name, true, now);
    match FindEntry(entries, name)
    case Some(k) =>
      var r := entries[k := e];
      assert forall j :: 0 <= j < |r| && j != k ==> r[j] == entries[j] && r[j].name != name;
      assert forall i :: 0 <= i < |entries| && entries[i].name != name ==> r[i] == entries[i];
      assert FindEntry(r, name) == Some(k) by {
        var f := FindEntry(r, name);
        assert f.Some? by { assert r[k].name == name; }
      }
      r
    case None =>
      var r := entries + [e];
      assert FindEntry(r, name) == Some(|entries|) by {
        assert r[|entries|].name == name;
      }
      r
  }

  /** `<name>.html`: the page that belongs with the image called `image`. */
  function PageName(image: string): string {
    ParseName(image) + ".html"
  }

  class SharedDirectories {
    var images: seq<DirEntry>
    var pages: map<string, string>

    predicate Valid()
      reads this
    {
      UniqueNames(images)
    }

    constructor(images0: seq<DirEntry>, pages0: map<string, string>)
      requires UniqueNames(images0)
      ensures Valid() && images == images0 && pages == pages0
    {
      images := images0;
      pages := pages0;
    }
  }
}
