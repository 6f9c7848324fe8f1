/**
 * The expiry sweep of shared images. Every regular file of the image
 * directory whose modification time lies more than the time-to-live
 * before `now` is deleted together with its page; the names of the
 * deleted images are returned in directory order. The sweep's schedule
 * (once at start-up, then once a day) is timer I/O and is not modelled
 * beyond its constant.
 */
module SharedCleanup {
  import opened SharedDirs

  const SHARE_TTL_DAYS: nat := 15
  const SHARE_TTL_MS: nat := SHARE_TTL_DAYS * 24 * 60 * 60 * 1000
  const CLEANUP_INTERVAL_MS: nat := 24 * 60 * 60 * 1000

  // ------------------------------------------------------- specification

  /** `entry.isFile()` and `now - stats.mtimeMs > SHARE_TTL_MS`. */
  predicate Expired(e: DirEntry, now: int) {
    e.isFile && now - e.mtime > SHARE_TTL_MS
  }

  /** The returned `deletedFiles`: the names of the expired files, in directory order. */
  function ExpiredNames(entries: seq<DirEntry>, now: int): seq<string>
    decreases |entries|
  {
    if entries == [] then []
    else
      var e := entries[|entries| - 1];
      ExpiredNames(entries[..|entries| - 1], now) + (if Expired(e, now) then [e.name] else [])
  }

  /** The image directory afterwards: the entries that are not expired files, in order. */
  function Surviving(entries: seq<DirEntry>, now: int): seq<DirEntry>
    decreases |entries|
  {
    if entries == [] then []
    else
      var e := entries[|entries| - 1];
      Surviving(entries[..|entries| - 1], now) + (if Expired(e, now) then [] else [e])
  }

  /** The pages that belong with some images, in the same order. */
  function PagesOf(names: seq<string>): (r: seq<string>)
    ensures |r| == |names|
    ensures forall j :: 0 <= j < |names| ==> r[j] == PageName(names[j])
  {
    seq(|names|, j requires 0 <= j < |names| => PageName(names[j]))
  }

  /** The page directory after `fs.unlink` of each page in turn, a missing page ignored. */
  function PagesAfter(pages: map<string, string>, pageNames: seq<string>): map<string, string>
    decreases |pageNames|
  {
    if pageNames == [] then pages
    else PagesAfter(pages, pageNames[..|pageNames| - 1]) - {pageNames[|pageNames| - 1]}
  }

  // --------------------------------------------------------------- method

  /** `removeExpiredSharedImages({ now })`. */
  method RemoveExpiredSharedImages(dirs: SharedDirectories, now: int) returns (deleted: seq<string>)
    requires dirs.Valid()
    modifies dirs
    ensures dirs.Valid()
    ensures deleted == ExpiredNames(old(dirs.images), now)
    ensures dirs.images == Surviving(old(dirs.images), now)
    ensures dirs.pages == PagesAfter(old(dirs.pages), PagesOf(deleted))
  {
    var entries, pages := dirs.images, dirs.pages;
    SurvivingUnique(entries, now);
    deleted := [];
    var kept: seq<DirEntry> := [];
    var i := 0;
    while i < |entries|
      invariant 0 <= i <= |entries|
      invariant deleted == ExpiredNames(entries[..i], now)
      invariant kept == Surviving(entries[..i], now)
      invariant pages == PagesAfter(old(dirs.pages), PagesOf(deleted))
    {
      var e := entries[i];
      SweepStep(entries, i, now);
      if e.isFile && now - e.mtime > SHARE_TTL_MS {
        var page := PageName(e.name);
        pages := pages - {page};
        PagesOfSnoc(deleted, e.name);
        PagesAfterSnoc(old(dirs.pages), PagesOf(deleted), page);
        deleted := deleted + [e.name];
      } else {
        kept := kept + [e];
      }
      i := i + 1;
    }
    assert entries[..i] == entries;
    dirs.images, dirs.pages := kept, pages;
  }

  /** One more entry of the listing: the sweep's functions grow by that entry's share. */
  lemma SweepStep(entries: seq<DirEntry>, i: int, now: int)
    requires 0 <= i < |entries|
    ensures var e := entries[i];
      ExpiredNames(entries[..i + 1], now) == ExpiredNames(entries[..i], now) + (if Expired(e, now) then [e.name] else []) &&
      Surviving(entries[..i + 1], now) == Surviving(entries[..i], now) + (if Expired(e, now) then [] else [e])
  {
    assert entries[..i + 1][..i] == entries[..i];
  }

  lemma PagesAfterSnoc(pages: map<string, string>, pageNames: seq<string>, x: string)
    ensures PagesAfter(pages, pageNames + [x]) == PagesAfter(pages, pageNames) - {x}
  {
    assert (pageNames + [x])[..|pageNames|] == pageNames;
  }

  lemma PagesOfSnoc(names: seq<string>, x: string)
    ensures PagesOf(names + [x]) == PagesOf(names) + [PageName(x)]
  {
    var l, r := PagesOf(names + [x]), PagesOf(names) + [PageName(x)];
    assert |l| == |r|;
    forall j | 0 <= j < |l| ensures l[j] == r[j] {
      if j < |names| { assert (names + [x])[j] == names[j]; }
    }
  }

  // --------------------------------------------------------------- lemmas

  /** An entry goes exactly when it is an expired file: the rest stay, the expired ones are reported. */
  lemma {:induction false} SweepPartition(entries: seq<DirEntry>, now: int)
    ensures forall i :: 0 <= i < |entries| && !Expired(entries[i], now) ==> entries[i] in Surviving(entries, now)
    ensures forall i :: 0 <= i < |entries| && Expired(entries[i], now) ==> entries[i].name in ExpiredNames(entries, now)
    ensures forall j :: 0 <= j < |Surviving(entries, now)| ==>
              Surviving(entries, now)[j] in entries && !Expired(Surviving(entries, now)[j], now)
    ensures forall x :: x in ExpiredNames(entries, now) ==>
              exists i :: 0 <= i < |entries| && entries[i].name == x && Expired(entries[i], now)
    ensures |Surviving(entries, now)| + |ExpiredNames(entries, now)| == |entries|
    decreases |entries|
  {
    if entries != [] {
      var init := entries[..|entries| - 1];
      SweepPartition(init, now);
      assert forall i :: 0 <= i < |init| ==> init[i] == entries[i];
    }
  }

  /** A listing without expired files is swept to itself. */
  lemma {:induction false} NothingExpired(entries: seq<DirEntry>, now: int)
    requires forall i :: 0 <= i < |entries| ==> !Expired(entries[i], now)
    ensures Surviving(entries, now) == entries && ExpiredNames(entries, now) == []
    decreases |entries|
  {
    if entries != [] {
      NothingExpired(entries[..|entries| - 1], now);
      assert entries == entries[..|entries| - 1] + [entries[|entries| - 1]];
    }
  }

  /** Sweeping again at the same time removes nothing more. */
  lemma SweepIdempotent(entries: seq<DirEntry>, now: int)
    ensures Surviving(Surviving(entries, now), now) == Surviving(entries, now)
    ensures ExpiredNames(Surviving(entries, now), now) == []
  {
    SweepPartition(entries, now);
    NothingExpired(Surviving(entries, now), now);
  }

  /** A file expired at some time is expired at every later time. */
  lemma SweepMonotone(entries: seq<DirEntry>, now: int, later: int, x: string)
    requires now <= later && x in ExpiredNames(entries, now)
    ensures x in ExpiredNames(entries, later)
  {
    SweepPartition(entries, now);
    SweepPartition(entries, later);
  }

  /** A file exactly one time-to-live old is kept: the comparison is strict. */
  lemma ExactlyTtlOldIsKept(e: DirEntry)
    requires e.isFile
    ensures !Expired(e, e.mtime + SHARE_TTL_MS) && Expired(e, e.mtime + SHARE_TTL_MS + 1)
  {
  }

  /** The sweep keeps directory names distinct. */
  lemma {:induction false} SurvivingUnique(entries: seq<DirEntry>, now: int)
    requires UniqueNames(entries)
    ensures UniqueNames(Surviving(entries, now))
    decreases |entries|
  {
    if entries != [] {
      var init := entries[..|entries| - 1];
      var e := entries[|entries| - 1];
      SurvivingUnique(init, now);
      SweepPartition(init, now);
      var s := Surviving(init, now);
      forall j | 0 <= j < |s| ensures s[j].name != e.name {
        var i :| 0 <= i < |init| && init[i] == s[j];
        assert init[i] == entries[i];
      }
    }
  }

  /** A page survives exactly when it is not one of the unlinked pages. */
  lemma {:induction false} PagesAfterKeys(pages: map<string, string>, pageNames: seq<string>, p: string)
    ensures p in PagesAfter(pages, pageNames) <==> p in pages && p !in pageNames
    decreases |pageNames|
  {
    if pageNames != [] {
      var init := pageNames[..|pageNames| - 1];
      PagesAfterKeys(pages, init, p);
      assert pageNames == init + [pageNames[|pageNames| - 1]];
    }
  }

  /** A surviving page keeps its text. */
  lemma {:induction false} PagesAfterValues(pages: map<string, string>, pageNames: seq<string>, p: string)
    requires p in PagesAfter(pages, pageNames)
    ensures p in pages && PagesAfter(pages, pageNames)[p] == pages[p]
    decreases |pageNames|
  {
    if pageNames != [] {
      PagesAfterValues(pages, pageNames[..|pageNames| - 1], p);
    }
  }
}
