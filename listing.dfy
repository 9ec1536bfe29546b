/** The folder listing of the library and the neighbours of a chapter (app.py:
    scan_directory, get_adjacent_chapters). A folder's listing is an input: its entries in
    `os.listdir` order. */
module Listing {
  import opened Wrappers
  import opened Seqs
  import opened Text
  import opened Order
  import opened Sorting
  import opened Images

  /** An entry of a sub-folder: its name and what `os.path.isfile` / `isdir` say. */
  datatype Child = Child(name: string, isFile: bool, isDir: bool)

  /** An entry of the scanned folder. `children` is the sub-folder's own listing, or `None`
      when listing it is not permitted. */
  datatype DirEntry = DirEntry(name: string, isDir: bool, children: Option<seq<Child>>)

  datatype Kind = MangaFolder | ChapterFolder

  /** One element of the `/api/manga` answer. */
  datatype Item = Item(name: string, path: string, kind: Kind, hasImages: bool, hasSubdirs: bool, imageCount: nat)

  /** `any(is_image_file(f) for f in children if isfile(f))`. */
  predicate HasImages(children: seq<Child>) {
    exists k :: 0 <= k < |children| && children[k].isFile && IsImageFile(children[k].name)
  }

  predicate HasSubdirs(children: seq<Child>) {
    exists k :: 0 <= k < |children| && children[k].isDir
  }

  predicate HasImageName(c: Child) { IsImageFile(c.name) }

  /** `sum(1 for f in children if is_image_file(f))`: counts every entry with an image name,
      folders included. */
  function ImageCount(children: seq<Child>): (n: nat)
    ensures n == |Filter(children, HasImageName)|
    ensures n <= |children|
    decreases |children|
  {
    if children == [] then 0
    else (if IsImageFile(children[0].name) then 1 else 0) + ImageCount(children[1..])
  }

  /** `'/'.join([current_path, item]) if current_path else item`. */
  function RelativePath(currentPath: string, name: string): string {
    if currentPath != "" then currentPath + "/" + name else name
  }

  /** The item describing one sub-folder. */
  function ItemOf(name: string, children: seq<Child>, currentPath: string): (it: Item)
    ensures it.kind == ChapterFolder <==> it.hasImages
    ensures it.imageCount > 0 ==> it.hasImages
    ensures it.name == name && it.path == (if currentPath != "" then currentPath + "/" + name else name)
    ensures it.hasImages == HasImages(children) && it.hasSubdirs == HasSubdirs(children)
    ensures it.imageCount == (if it.hasImages then ImageCount(children) else 0)
  {
    var images := HasImages(children);
    Item(name, RelativePath(currentPath, name), if images then ChapterFolder else MangaFolder,
         images, HasSubdirs(children), if images then ImageCount(children) else 0)
  }

  /** The number of sub-folders in the listing. */
  function FolderCount(entries: seq<DirEntry>): nat
    decreases |entries|
  {
    if entries == [] then 0 else (if entries[0].isDir then 1 else 0) + FolderCount(entries[1..])
  }

  /** Every sub-folder of the listing can itself be listed. */
  predicate AllListable(entries: seq<DirEntry>)
    decreases |entries|
  {
    entries == [] || ((!entries[0].isDir || entries[0].children.Some?) && AllListable(entries[1..]))
  }

  /** The items the scan collects before sorting: one per sub-folder, in listing order; a
      sub-folder that cannot be listed raises, and the scan returns what it had so far. */
  function Collected(entries: seq<DirEntry>, currentPath: string): (r: seq<Item>)
    ensures |r| <= FolderCount(entries)
    ensures |r| == FolderCount(entries) <==> AllListable(entries)
    decreases |entries|
  {
    if entries == [] then []
    else if !entries[0].isDir then Collected(entries[1..], currentPath)
    else if entries[0].children.None? then []
    else [ItemOf(entries[0].name, entries[0].children.value, currentPath)] + Collected(entries[1..], currentPath)
  }

  /** Every collected item describes a listed sub-folder of the scanned folder. */
  lemma {:induction false} CollectedFromListing(entries: seq<DirEntry>, currentPath: string)
    ensures forall it :: it in Collected(entries, currentPath) ==>
      exists k :: 0 <= k < |entries| && entries[k].isDir && entries[k].children.Some?
        && it == ItemOf(entries[k].name, entries[k].children.value, currentPath)
    decreases |entries|
  {
    if entries != [] {
      var rest := entries[1..];
      CollectedFromListing(rest, currentPath);
      forall it | it in Collected(entries, currentPath)
        ensures exists k :: (0 <= k < |entries| && entries[k].isDir && entries[k].children.Some?
                             && it == ItemOf(entries[k].name, entries[k].children.value, currentPath))
      {
        if it in Collected(rest, currentPath) {
          var k :| 0 <= k < |rest| && rest[k].isDir && rest[k].children.Some?
            && it == ItemOf(rest[k].name, rest[k].children.value, currentPath);
          assert entries[k + 1] == rest[k];
        } else {
          assert it == ItemOf(entries[0].name, entries[0].children.value, currentPath);
        }
      }
    }
  }

  /** The sort key `(type == 'chapter', name)`: folders of folders first, then chapters, each
      group by name. */
  predicate ItemLe(a: Item, b: Item) {
    (a.kind == MangaFolder && b.kind == ChapterFolder) || (a.kind == b.kind && LessEq(a.name, b.name))
  }

  lemma ItemOrderTotal()
    ensures TotalPreorder(ItemLe)
  {
    forall a: Item, b: Item ensures ItemLe(a, b) || ItemLe(b, a) {
      LessEqTotal(a.name, b.name);
    }
    forall a: Item, b: Item, c: Item | ItemLe(a, b) && ItemLe(b, c) ensures ItemLe(a, c) {
      if a.kind == b.kind && b.kind == c.kind {
        LessEqTransitive(a.name, b.name, c.name);
      }
    }
  }

  function SortItems(items: seq<Item>): (r: seq<Item>)
    ensures multiset(r) == multiset(items)
    ensures SortedBy(r, ItemLe)
  {
    ItemOrderTotal();
    SortBy(items, ItemLe)
  }

  /** scan_directory over the listing of `path` (`None` when it cannot be listed). */
  method ScanDirectory(listing: Option<seq<DirEntry>>, currentPath: string) returns (items: seq<Item>)
    ensures listing.None? ==> items == []
    ensures listing.Some? ==> items == SortItems(Collected(listing.value, currentPath))
  {
    if listing.None? {
      return [];
    }
    var entries := listing.value;
    items := [];
    var i := 0;
    while i < |entries|
      invariant 0 <= i <= |entries|
      invariant items + Collected(entries[i..], currentPath) == Collected(entries, currentPath)
      decreases |entries| - i
    {
      var e := entries[i];
      assert entries[i..][1..] == entries[i + 1..];
      if e.isDir {
        if e.children.None? {
          assert Collected(entries[i..], currentPath) == [];
          assert items + [] == items;
          items := SortItems(items);
          return;
        }
        items := items + [ItemOf(e.name, e.children.value, currentPath)];
      }
      i := i + 1;
    }
    assert entries[i..] == [];
    assert items + [] == items;
    items := SortItems(items);
  }

  /** What the ordering means: every folder of folders comes before every chapter, and within
      each group the names ascend. */
  lemma ScanOrder(items: seq<Item>)
    requires SortedBy(items, ItemLe)
    ensures forall i, j :: 0 <= i < j < |items| && items[i].kind == ChapterFolder ==> items[j].kind == ChapterFolder
    ensures forall i, j :: 0 <= i < j < |items| && items[i].kind == items[j].kind ==> LessEq(items[i].name, items[j].name)
  {
  }

  // ---------------------------------------------------------------------------
  // Adjacent chapters

  datatype Neighbours = Neighbours(previous: Option<string>, next: Option<string>)
  const NoNeighbours := Neighbours(None, None)

  /** The names of the sub-folders that contain an image file, in listing order; `None` when
      one of them cannot be listed (the exception is caught as a whole). */
  function ChapterNames(entries: seq<DirEntry>): (r: Option<seq<string>>)
    ensures r.None? <==> !AllListable(entries)
    ensures r.Some? ==> |r.value| <= FolderCount(entries)
    decreases |entries|
  {
    if entries == [] then Some([])
    else
      var rest := ChapterNames(entries[1..]);
      if !entries[0].isDir then rest
      else if entries[0].children.None? then None
      else if rest.None? then None
      else if HasImages(entries[0].children.value) then Some([entries[0].name] + rest.value)
      else rest
  }

  /** `chapters.index(name)`: the first position of `name`, or `None` (ValueError). */
  function IndexOf(s: seq<string>, name: string): (r: Option<nat>)
    ensures r.None? <==> name !in s
    ensures r.Some? ==> r.value < |s| && s[r.value] == name && forall k :: 0 <= k < r.value ==> s[k] != name
    decreases |s|
  {
    if s == [] then None
    else if s[0] == name then Some(0)
    else
      var r := IndexOf(s[1..], name);
      if r.None? then None else Some(r.value + 1)
  }

  /** A neighbour's path: joined to the parent when both are non-empty. */
  function Qualify(parent: string, name: Option<string>): (r: Option<string>)
    ensures r.None? <==> name.None?
  {
    match name
    case None => None
    case Some(n) => if n != "" && parent != "" then Some(parent + "/" + n) else Some(n)
  }

  /** Two lists with the same elements, counted with multiplicity, have the same members. */
  lemma SameMembers<T>(a: seq<T>, b: seq<T>)
    requires multiset(a) == multiset(b)
    ensures forall x :: x in a <==> x in b
  {
    forall x ensures x in a <==> x in b {
      assert x in a <==> x in multiset(a);
      assert x in b <==> x in multiset(b);
    }
  }

  /** The neighbours of `current` within the chapter list, once sorted. */
  function NeighboursIn(chapters: seq<string>, parent: string, current: string): (r: Neighbours)
    ensures current !in chapters ==> r == NoNeighbours
    ensures r.previous.Some? ==> exists p :: p in chapters && r.previous == Qualify(parent, Some(p))
    ensures r.next.Some? ==> exists n :: n in chapters && r.next == Qualify(parent, Some(n))
  {
    var sorted := SortChapters(chapters);
    SameMembers(sorted, chapters);
    match IndexOf(sorted, current)
    case None => NoNeighbours
    case Some(i) =>
      Neighbours(Qualify(parent, if i > 0 then Some(sorted[i - 1]) else None),
                 Qualify(parent, if i < |sorted| - 1 then Some(sorted[i + 1]) else None))
  }

  function SortChapters(chapters: seq<string>): (r: seq<string>)
    ensures multiset(r) == multiset(chapters) && SortedBy(r, LessEq)
  {
    StringOrderTotal();
    SortBy(chapters, LessEq)
  }

  /** get_adjacent_chapters for `path`, with the listing of its parent folder (`None` when it
      cannot be listed). */
  function AdjacentChapters(path: string, listing: Option<seq<DirEntry>>): (r: Neighbours)
    ensures r != NoNeighbours ==>
      var parts := Split(path, {'/'});
      && |parts| > 1 && listing.Some? && ChapterNames(listing.value).Some?
      && parts[|parts| - 1] in ChapterNames(listing.value).value
  {
    var parts := Split(path, {'/'});
    if |parts| <= 1 then NoNeighbours
    else
      var parent := JoinWith(parts[..|parts| - 1], '/');
      var current := parts[|parts| - 1];
      if listing.None? then NoNeighbours
      else match ChapterNames(listing.value)
        case None => NoNeighbours
        case Some(chapters) => NeighboursIn(chapters, parent, current)
  }

  /** `found` followed by the chapters of the rest, if those could be listed. */
  function After(found: seq<string>, rest: Option<seq<string>>): Option<seq<string>> {
    if rest.None? then None else Some(found + rest.value)
  }

  /** How one more entry changes the chapters found so far. */
  lemma AfterStep(found: seq<string>, entries: seq<DirEntry>, i: nat)
    requires i < |entries|
    ensures var e := entries[i];
      var rest := ChapterNames(entries[i + 1..]);
      After(found, ChapterNames(entries[i..])) ==
        if !e.isDir then After(found, rest)
        else if e.children.None? then None
        else if HasImages(e.children.value) then After(found + [e.name], rest)
        else After(found, rest)
  {
    assert entries[i..][1..] == entries[i + 1..];
    var rest := ChapterNames(entries[i + 1..]);
    assert rest.Some? ==> found + ([entries[i].name] + rest.value) == (found + [entries[i].name]) + rest.value;
  }

  /** The chapter-collecting loop of get_adjacent_chapters. */
  method CollectChapters(entries: seq<DirEntry>) returns (r: Option<seq<string>>)
    ensures r == ChapterNames(entries)
  {
    var chapters: seq<string> := [];
    var i := 0;
    assert entries[i..] == entries;
    assert ChapterNames(entries).Some? ==> [] + ChapterNames(entries).value == ChapterNames(entries).value;
    while i < |entries|
      invariant 0 <= i <= |entries|
      invariant ChapterNames(entries) == After(chapters, ChapterNames(entries[i..]))
      decreases |entries| - i
    {
      var e := entries[i];
      AfterStep(chapters, entries, i);
      if e.isDir {
        if e.children.None? {
          return None;
        }
        if HasImages(e.children.value) {
          chapters := chapters + [e.name];
        }
      }
      i := i + 1;
    }
    assert entries[i..] == [];
    assert chapters + [] == chapters;
    r := Some(chapters);
  }

  method GetAdjacentChapters(path: string, listing: Option<seq<DirEntry>>) returns (r: Neighbours)
    ensures r == AdjacentChapters(path, listing)
  {
    var parts := Split(path, {'/'});
    if |parts| <= 1 {
      return NoNeighbours;
    }
    var parent := JoinWith(parts[..|parts| - 1], '/');
    var current := parts[|parts| - 1];
    if listing.None? {
      return NoNeighbours;
    }
    var chapters := CollectChapters(listing.value);
    if chapters.None? {
      return NoNeighbours;
    }
    assert AdjacentChapters(path, listing) == NeighboursIn(chapters.value, parent, current);
    var sorted := SortChapters(chapters.value);
    var index := IndexOf(sorted, current);
    if index.None? {
      return NoNeighbours;
    }
    var i := index.value;
    var previous := if i > 0 then Some(sorted[i - 1]) else None;
    var next := if i < |sorted| - 1 then Some(sorted[i + 1]) else None;
    r := Neighbours(Qualify(parent, previous), Qualify(parent, next));
  }

  // ---------------------------------------------------------------------------
  // What get_adjacent_chapters promises

  /** A path of a single segment (no `/`) has no neighbours. */
  lemma TopLevelHasNoNeighbours(path: string, listing: Option<seq<DirEntry>>)
    requires NoSeparator(path, {'/'})
    ensures AdjacentChapters(path, listing) == NoNeighbours
  {
    SplitSingle(path, {'/'});
  }

  /** `p` is the chapter just before `current`: below it, and every chapter below it is at
      most `p`. */
  ghost predicate IsGreatestBelow(chapters: seq<string>, current: string, p: string) {
    p in chapters && Less(p, current) && forall c :: c in chapters && Less(c, current) ==> LessEq(c, p)
  }

  /** `n` is the chapter just after `current`. */
  ghost predicate IsLeastAbove(chapters: seq<string>, current: string, n: string) {
    n in chapters && Less(current, n) && forall c :: c in chapters && Less(current, c) ==> LessEq(n, c)
  }

  lemma {:induction false} NoDupCount(s: seq<string>, x: string)
    requires NoDup(s)
    ensures multiset(s)[x] <= 1
    decreases |s|
  {
    if s != [] {
      var rest := s[1..];
      assert s == [s[0]] + rest;
      assert NoDup(rest) by {
        forall i, j | 0 <= i < j < |rest| ensures rest[i] != rest[j] {
          assert rest[i] == s[i + 1] && rest[j] == s[j + 1];
        }
      }
      NoDupCount(rest, x);
      if s[0] == x {
        assert x !in rest by {
          forall i | 0 <= i < |rest| ensures rest[i] != x { assert rest[i] == s[i + 1]; }
        }
      }
    }
  }

  lemma CountTwo(a: seq<string>, i: nat, j: nat)
    requires i < j < |a| && a[i] == a[j]
    ensures multiset(a)[a[i]] >= 2
  {
    assert a == a[..j] + a[j..];
    assert a[..j][i] == a[i];
    assert a[j..][0] == a[j];
  }

  lemma SameElementsNoDup(a: seq<string>, b: seq<string>)
    requires multiset(a) == multiset(b) && NoDup(b)
    ensures NoDup(a)
  {
    forall i, j | 0 <= i < j < |a| ensures a[i] != a[j] {
      NoDupCount(b, a[i]);
      if a[i] == a[j] {
        CountTwo(a, i, j);
      }
    }
  }

  /** In a sorted list without duplicates, the entry before position `i` is the greatest below
      `s[i]`, and the first entry has nothing below it; likewise after `i`. */
  lemma SortedNeighbours(s: seq<string>, i: nat)
    requires SortedBy(s, LessEq) && NoDup(s) && i < |s|
    ensures i > 0 ==> IsGreatestBelow(s, s[i], s[i - 1])
    ensures i == 0 ==> forall c :: c in s ==> !Less(c, s[i])
    ensures i < |s| - 1 ==> IsLeastAbove(s, s[i], s[i + 1])
    ensures i == |s| - 1 ==> forall c :: c in s ==> !Less(s[i], c)
  {
    forall c | c in s
      ensures Less(c, s[i]) ==> i > 0 && LessEq(c, s[i - 1])
      ensures Less(s[i], c) ==> i < |s| - 1 && LessEq(s[i + 1], c)
    {
      var k :| 0 <= k < |s| && s[k] == c;
      if k >= i && Less(c, s[i]) {
        assert LessEq(s[i], s[k]);
        if s[i] != s[k] { LessAsymmetric(c, s[i]); } else { LessIrreflexive(c); }
      }
      if k <= i && Less(s[i], c) {
        assert LessEq(s[k], s[i]);
        if s[i] != s[k] { LessAsymmetric(s[i], c); } else { LessIrreflexive(c); }
      }
    }
    if i > 0 {
      assert LessEq(s[i - 1], s[i]) && s[i - 1] != s[i];
    }
    if i < |s| - 1 {
      assert LessEq(s[i], s[i + 1]) && s[i] != s[i + 1];
    }
  }

  /** `r` names, joined to `parent`, the chapter just before `current` in sorted order and the
      one just after it, each exactly when there is one. */
  ghost predicate Describes(r: Neighbours, chapters: seq<string>, parent: string, current: string) {
    && (r.previous.None? <==> forall c :: c in chapters ==> !Less(c, current))
    && (r.previous.Some? ==> exists p :: IsGreatestBelow(chapters, current, p) && r.previous == Qualify(parent, Some(p)))
    && (r.next.None? <==> forall c :: c in chapters ==> !Less(current, c))
    && (r.next.Some? ==> exists n :: IsLeastAbove(chapters, current, n) && r.next == Qualify(parent, Some(n)))
  }

  /** The neighbours of a listed chapter are its sorted-order neighbours: `previous` is the
      greatest chapter below it (none for the first chapter), `next` the least above it (none
      for the last), each joined to the parent path. */
  lemma NeighboursAreAdjacent(chapters: seq<string>, parent: string, current: string)
    requires NoDup(chapters) && current in chapters
    ensures Describes(NeighboursIn(chapters, parent, current), chapters, parent, current)
  {
    var sorted := SortChapters(chapters);
    SameElementsNoDup(sorted, chapters);
    assert current in multiset(sorted);
    var i := IndexOf(sorted, current).value;
    SortedNeighbours(sorted, i);
    forall c ensures c in chapters <==> c in sorted {
      assert c in chapters <==> c in multiset(chapters);
      assert c in sorted <==> c in multiset(sorted);
    }
    if i > 0 {
      assert IsGreatestBelow(chapters, current, sorted[i - 1]);
      assert Less(sorted[i - 1], current) && sorted[i - 1] in chapters;
    }
    if i < |sorted| - 1 {
      assert IsLeastAbove(chapters, current, sorted[i + 1]);
      assert Less(current, sorted[i + 1]) && sorted[i + 1] in chapters;
    }
  }

  /** A listed sub-folder that contains an image file: what makes an entry a chapter. */
  predicate IsChapterEntry(e: DirEntry) {
    e.isDir && e.children.Some? && HasImages(e.children.value)
  }

  /** Every chapter name comes from a sub-folder of the listing that contains an image. */
  lemma {:induction false} ChapterNamesFromListing(entries: seq<DirEntry>)
    requires ChapterNames(entries).Some?
    ensures forall x :: x in ChapterNames(entries).value ==>
      exists k :: 0 <= k < |entries| && entries[k].name == x && IsChapterEntry(entries[k])
    decreases |entries|
  {
    if entries != [] {
      var rest := entries[1..];
      assert ChapterNames(rest).Some?;
      ChapterNamesFromListing(rest);
      var r := ChapterNames(rest).value;
      assert ChapterNames(entries).value == if IsChapterEntry(entries[0]) then [entries[0].name] + r else r;
      forall x | x in ChapterNames(entries).value
        ensures exists k :: 0 <= k < |entries| && entries[k].name == x && IsChapterEntry(entries[k])
      {
        if x in r {
          var k :| 0 <= k < |rest| && rest[k].name == x && IsChapterEntry(rest[k]);
          assert entries[k + 1] == rest[k];
        } else {
          assert entries[0].name == x && IsChapterEntry(entries[0]);
        }
      }
    }
  }

  /** Conversely, every listed sub-folder that contains an image file is a chapter. */
  lemma {:induction false} ListingChaptersAreNamed(entries: seq<DirEntry>)
    requires ChapterNames(entries).Some?
    ensures forall k :: 0 <= k < |entries| && IsChapterEntry(entries[k]) ==>
      entries[k].name in ChapterNames(entries).value
    decreases |entries|
  {
    if entries != [] {
      var rest := entries[1..];
      ListingChaptersAreNamed(rest);
      var r := ChapterNames(rest).value;
      if IsChapterEntry(entries[0]) {
        assert ChapterNames(entries).value == [entries[0].name] + r;
      } else {
        assert ChapterNames(entries).value == r;
      }
      forall k | 0 < k < |entries| && IsChapterEntry(entries[k])
        ensures entries[k].name in ChapterNames(entries).value
      {
        assert rest[k - 1] == entries[k];
      }
    }
  }

  /** Folder names within one listing are distinct, so the chapter names are too. */
  lemma {:induction false} ChapterNamesDistinct(entries: seq<DirEntry>)
    requires forall i, j :: 0 <= i < j < |entries| ==> entries[i].name != entries[j].name
    requires ChapterNames(entries).Some?
    ensures NoDup(ChapterNames(entries).value)
    decreases |entries|
  {
    if entries != [] {
      var rest := entries[1..];
      ChapterNamesDistinct(rest);
      ChapterNamesFromListing(rest);
      var r := ChapterNames(rest).value;
      if entries[0].isDir && HasImages(entries[0].children.value) {
        assert entries[0].name !in r;
        assert ChapterNames(entries).value == [entries[0].name] + r;
      }
    }
  }

  /** get_adjacent_chapters end to end: for a nested path whose parent folder lists, the
      answer is empty when the last segment is not a chapter there, and otherwise names the
      chapters just before and after it in sorted order, joined to the parent path. */
  lemma AdjacentChaptersCorrect(path: string, entries: seq<DirEntry>)
    requires !NoSeparator(path, {'/'})
    requires forall i, j :: 0 <= i < j < |entries| ==> entries[i].name != entries[j].name
    requires ChapterNames(entries).Some?
    ensures var parts := Split(path, {'/'});
      var parent := JoinWith(parts[..|parts| - 1], '/');
      var current := parts[|parts| - 1];
      var chapters := ChapterNames(entries).value;
      var r := AdjacentChapters(path, Some(entries));
      && (current !in chapters ==> r == NoNeighbours)
      && (current in chapters ==> Describes(r, chapters, parent, current))
  {
    SplitSingle(path, {'/'});
    var parts := Split(path, {'/'});
    var parent := JoinWith(parts[..|parts| - 1], '/');
    var current := parts[|parts| - 1];
    var chapters := ChapterNames(entries).value;
    assert |parts| > 1;
    assert AdjacentChapters(path, Some(entries)) == NeighboursIn(chapters, parent, current);
    if current in chapters {
      ChapterNamesDistinct(entries);
      NeighboursAreAdjacent(chapters, parent, current);
    }
  }

  /** A neighbour in a nested folder is reported as `parent/name`, one at the top level as
      the bare name. */
  lemma QualifiedPaths(parent: string, name: string)
    requires name != ""
    ensures parent != "" ==> Qualify(parent, Some(name)) == Some(parent + "/" + name)
    ensures parent == "" ==> Qualify(parent, Some(name)) == Some(name)
  {
  }
}
