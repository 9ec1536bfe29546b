/** What the reader controller of static/script.js promises, stated over the transition
    functions of `ReaderModel`. */
module ReaderProperties {
  import opened Wrappers
  import opened Seqs
  import opened Text
  import opened Prefetch
  import opened Input
  import opened ReaderModel
  import ServerConfig

  // ---------------------------------------------------------------------------
  // Page turns (previousImage / nextImage)

  lemma PreviousTurnsBack(s: State, confirmed: bool, response: Option<ChapterData>)
    requires s.index > 0
    ensures PreviousImage(s, confirmed, response) == s.(index := s.index - 1)
  {
  }

  lemma NextTurnsForward(s: State)
    requires s.index < |s.images| - 1
    ensures NextImage(s) == s.(index := s.index + 1)
  {
  }

  /** On the first page without a previous chapter, or when the user declines, nothing
      changes. */
  lemma PreviousAtFirstPageStays(s: State, confirmed: bool, response: Option<ChapterData>)
    requires s.index <= 0 && (!Truthy(s.adjacent.previous) || !confirmed)
    ensures PreviousImage(s, confirmed, response) == s
  {
  }

  /** On the last page without a next chapter nothing changes. */
  lemma NextAtLastPageStays(s: State)
    requires s.index >= |s.images| - 1 && !Truthy(s.adjacent.next)
    ensures NextImage(s) == s
  {
  }

  /** On the last page with a next chapter, only the chapter navigation is revealed. */
  lemma NextAtLastPageOffersChapter(s: State)
    requires s.index >= |s.images| - 1 && Truthy(s.adjacent.next)
    ensures NextImage(s) == s.(chapterNav := true)
  {
  }

  /** Crossing back into the previous chapter lands on its last page. */
  lemma PreviousEntersLastPage(s: State, d: ChapterData)
    requires s.index <= 0 && Truthy(s.adjacent.previous) && |d.images| > 0
    ensures PreviousImage(s, true, Some(d)) ==
      s.(manga := s.adjacent.previous, images := d.images, adjacent := d.adjacent,
         index := |d.images| - 1, view := ReaderView)
  {
  }

  /** When the previous chapter cannot be fetched, the error is swallowed by openManga and the
      continuation still runs: the reader jumps to the last page of the current chapter. */
  lemma PreviousFetchFailureJumpsToEnd(s: State)
    requires s.index <= 0 && Truthy(s.adjacent.previous)
    ensures PreviousImage(s, true, None) == s.(index := |s.images| - 1)
  {
  }

  // ---------------------------------------------------------------------------
  // Key, click and swipe dispatch

  /** While the slider is shown only Escape acts, and it hides the slider. */
  lemma SliderCapturesKeys(s: State, key: string, confirmed: bool, response: Option<ChapterData>)
    requires s.view == ReaderView && s.slider
    ensures HandleKey(s, key, confirmed, response) == (if key == "Escape" then s.(slider := false) else s, None)
  {
  }

  /** Otherwise, while the chapter navigation is shown, only Escape (hide) and Enter (open the
      next chapter) act. */
  lemma ChapterNavCapturesKeys(s: State, key: string, confirmed: bool, response: Option<ChapterData>)
    requires s.view == ReaderView && !s.slider && s.chapterNav
    ensures HandleKey(s, key, confirmed, response) ==
      (if key == "Escape" then s.(chapterNav := false)
       else if key == "Enter" then GoToNextChapter(s, response)
       else s, None)
  {
  }

  /** Without overlays, up and down keys mean previous and next whatever the direction. */
  lemma VerticalKeysIgnoreDirection(s: State, key: string, confirmed: bool, response: Option<ChapterData>)
    requires s.view == ReaderView && !s.slider && !s.chapterNav
    ensures IsUpKey(key) ==> HandleKey(s, key, confirmed, response) == (PreviousImage(s, confirmed, response), None)
    ensures IsDownKey(key) ==> HandleKey(s, key, confirmed, response) == (NextImage(s), None)
  {
  }

  /** Without overlays, the left-hand keys go back when reading left to right and forward when
      reading right to left; the right-hand keys do the opposite. */
  lemma HorizontalKeysFollowDirection(s: State, key: string, confirmed: bool, response: Option<ChapterData>)
    requires s.view == ReaderView && !s.slider && !s.chapterNav
    ensures IsLeftKey(key) ==>
      HandleKey(s, key, confirmed, response).0 ==
      (if s.direction == LeftToRight then PreviousImage(s, confirmed, response) else NextImage(s))
    ensures IsRightKey(key) ==>
      HandleKey(s, key, confirmed, response).0 ==
      (if s.direction == LeftToRight then NextImage(s) else PreviousImage(s, confirmed, response))
  {
  }

  /** The commands do not depend on the reading direction and keep it. */
  lemma PreviousKeepsDirection(s: State, d: Direction, confirmed: bool, response: Option<ChapterData>)
    ensures PreviousImage(s.(direction := d), confirmed, response) == PreviousImage(s, confirmed, response).(direction := d)
  {
    if s.index <= 0 && Truthy(s.adjacent.previous) && confirmed {
      assert OpenManga(s.(direction := d), s.adjacent.previous.value, response).0
          == OpenManga(s, s.adjacent.previous.value, response).0.(direction := d);
    }
  }

  lemma NextChapterKeepsDirection(s: State, d: Direction, response: Option<ChapterData>)
    ensures GoToNextChapter(s.(direction := d), response) == GoToNextChapter(s, response).(direction := d)
  {
    if Truthy(s.adjacent.next) {
      assert OpenManga(s.(chapterNav := false).(direction := d), s.adjacent.next.value, response).0
          == OpenManga(s.(chapterNav := false), s.adjacent.next.value, response).0.(direction := d);
    }
  }

  lemma {:induction false} ExecuteKeepsDirection(s: State, d: Direction, cmd: Command, confirmed: bool, response: Option<ChapterData>)
    ensures Execute(s.(direction := d), cmd, confirmed, response) ==
      (Execute(s, cmd, confirmed, response).0.(direction := d), Execute(s, cmd, confirmed, response).1)
  {
    match cmd
    case PreviousPage => PreviousKeepsDirection(s, d, confirmed, response);
    case EnterNextChapter => NextChapterKeepsDirection(s, d, response);
    case _ =>
  }

  /** Reading right to left, every key does what its mirror image does reading left to right. */
  lemma {:induction false} KeysMirrorUnderDirection(s: State, key: string, confirmed: bool, response: Option<ChapterData>)
    requires s.direction == LeftToRight
    ensures HandleKey(s.(direction := RightToLeft), MirrorKey(key), confirmed, response) ==
      (HandleKey(s, key, confirmed, response).0.(direction := RightToLeft), HandleKey(s, key, confirmed, response).1)
  {
    if s.view == ReaderView {
      KeyMirror(key, s.slider, s.chapterNav);
      ExecuteKeepsDirection(s, RightToLeft, KeyCommand(key, LeftToRight, s.slider, s.chapterNav), confirmed, response);
    }
  }

  /** The middle third of the image toggles the slider; the outer thirds turn the page
      according to the reading direction. */
  lemma ClickZones(s: State, x: int, width: nat, confirmed: bool, response: Option<ChapterData>)
    ensures width <= 3 * x <= 2 * width ==> HandleClick(s, x, width, confirmed, response) == s.(slider := !s.slider)
    ensures 3 * x < width ==>
      HandleClick(s, x, width, confirmed, response) ==
      (if s.direction == LeftToRight then PreviousImage(s, confirmed, response) else NextImage(s))
    ensures 3 * x > 2 * width ==>
      HandleClick(s, x, width, confirmed, response) ==
      (if s.direction == LeftToRight then NextImage(s) else PreviousImage(s, confirmed, response))
  {
  }

  /** A swipe longer than the threshold to the right acts like the left third, to the left like
      the right third; shorter swipes, and all swipes under an overlay, do nothing. */
  lemma SwipeTurns(s: State, distance: int, confirmed: bool, response: Option<ChapterData>)
    requires s.view == ReaderView
    ensures s.slider || s.chapterNav || -SwipeThreshold <= distance <= SwipeThreshold ==>
      HandleSwipe(s, distance, confirmed, response) == s
    ensures !s.slider && !s.chapterNav && distance > SwipeThreshold ==>
      HandleSwipe(s, distance, confirmed, response) ==
        (if s.direction == LeftToRight then PreviousImage(s, confirmed, response) else NextImage(s))
    ensures !s.slider && !s.chapterNav && distance < -SwipeThreshold ==>
      HandleSwipe(s, distance, confirmed, response) ==
        (if s.direction == LeftToRight then NextImage(s) else PreviousImage(s, confirmed, response))
  {
  }

  // ---------------------------------------------------------------------------
  // Prefetch and cache

  /** The fetches of preloadImages: exactly the uncached images of the window, never the
      current page, at most `buffer` of them. */
  lemma RequestsFacts(s: State)
    ensures forall k :: k in Requests(s) <==>
      k !in s.cache && exists j :: 0 <= j < |s.images| && j in Window(s.index, |s.images|, s.buffer) && k == ImageKey(MangaName(s), s.images[j])
    ensures forall j :: j in Window(s.index, |s.images|, s.buffer) ==> 0 <= j < |s.images| && j != s.index
    ensures |Requests(s)| <= s.buffer
  {
    var w := Window(s.index, |s.images|, s.buffer);
    WindowFacts(s.index, |s.images|, s.buffer);
    MissingMembers(MangaName(s), s.images, w, s.cache);
  }

  /** A completion keeps the cache within `3 * buffer` keys, leaves a cached key in place, and
      when the cache is full evicts exactly the oldest key; a cache left over the bound by a
      smaller buffer is cut to its newest `3 * buffer` keys. Nothing else changes. */
  lemma CompletePrefetchFacts(s: State, key: ImageKey)
    ensures CompletePrefetch(s, key) == s.(cache := CompletePrefetch(s, key).cache)
    ensures |CompletePrefetch(s, key).cache| <= 3 * s.buffer
    ensures key in s.cache && CacheWithinBound(s) ==> CompletePrefetch(s, key) == s
    ensures key !in s.cache && CacheWithinBound(s) && s.buffer > 0 ==>
      CompletePrefetch(s, key).cache ==
      (if |s.cache| == 3 * s.buffer then s.cache[1..] + [key] else s.cache + [key])
    ensures !CacheWithinBound(s) ==> |CompletePrefetch(s, key).cache| == 3 * s.buffer
  {
    if key in s.cache && CacheWithinBound(s) {
      CacheAddPresent(s.cache, key, 3 * s.buffer);
    } else if key !in s.cache && CacheWithinBound(s) && s.buffer > 0 {
      CacheAddFresh(s.cache, key, 3 * s.buffer);
    }
  }

  /** A new buffer size empties the cache, so the prefetch that follows requests every image
      of the new window. */
  lemma UpdateBufferSizeFacts(s: State, buffer: nat)
    ensures UpdateBufferSize(s, buffer).0 == s.(buffer := buffer, cache := [])
    ensures forall k :: k in UpdateBufferSize(s, buffer).1 <==>
      |s.images| > 0 && exists j :: 0 <= j < |s.images| && j in Window(s.index, |s.images|, buffer) && k == ImageKey(MangaName(s), s.images[j])
  {
    var t := s.(buffer := buffer, cache := []);
    RequestsFacts(t);
  }

  // ---------------------------------------------------------------------------
  // Views

  /** Leaving the reader closes the chapter and saves the progress; the overlay flags are left
      as they were. */
  lemma GoBackFromReader(s: State)
    requires s.view == ReaderView
    ensures ReaderModel.GoBack(s) == (s.(view := ListView, manga := None, images := [], index := 0), ProgressOf(s))
  {
  }

  lemma GoBackFromOtherViews(s: State)
    requires s.view == HistoryView || s.view == SettingsView
    ensures ReaderModel.GoBack(s) == (s.(view := ListView), None)
  {
  }

  /** The chapter name is the last component of the path, after its last `/` or `\\`. */
  lemma ChapterNameAfterSeparator(dir: string, sep: char, name: string)
    requires sep == '/' || sep == '\\'
    requires name != "" && NoSeparator(name, {'/', '\\'})
    ensures ChapterName(dir + [sep] + name) == name
  {
    SplitLastAfterSeparator(dir + [sep], name, {'/', '\\'});
  }

  /** A path ending in a separator is sent whole. */
  lemma ChapterNameTrailingSeparator(path: string)
    requires |path| > 0 && path[|path| - 1] in {'/', '\\'}
    ensures ChapterName(path) == path
  {
    SplitLastAfterSeparator(path, "", {'/', '\\'});
    assert path + "" == path;
  }

  /** A path without separators is its own chapter name. */
  lemma ChapterNameWithoutSeparator(path: string)
    requires NoSeparator(path, {'/', '\\'})
    ensures ChapterName(path) == path
  {
    SplitPlain(path, {'/', '\\'});
  }

  /** Resuming from the history clamps the saved page to the chapter, and keeps the neighbour
      links it had. */
  lemma ResumeClamps(s: State, path: string, imageIndex: nat, d: ChapterData)
    requires |d.images| > 0
    ensures 0 <= ResumeReading(s, path, imageIndex, Some(d)).index < |d.images|
    ensures imageIndex < |d.images| ==> ResumeReading(s, path, imageIndex, Some(d)).index == imageIndex
    ensures imageIndex >= |d.images| ==> ResumeReading(s, path, imageIndex, Some(d)).index == |d.images| - 1
    ensures ResumeReading(s, path, imageIndex, Some(d)).adjacent == s.adjacent
  {
  }

  // ---------------------------------------------------------------------------
  // Library paths

  /** addNewPath rejects a blank input, then an input already in the list, both without a
      change; otherwise it appends exactly the trimmed input. */
  lemma AddNewPathCases(s: State, input: string)
    ensures AllSpace(input) ==> AddNewPath(s, input) == (s, Rejected(BlankPath))
    ensures !AllSpace(input) && Trim(input) in s.basePaths ==> AddNewPath(s, input) == (s, Rejected(DuplicatePath))
    ensures !AllSpace(input) && Trim(input) !in s.basePaths ==>
      AddNewPath(s, input) == (s.(basePaths := s.basePaths + [Trim(input)]), Accepted)
  {
  }

  /** removePath: declining changes nothing; confirming removes every copy and keeps the other
      paths in order; if the current root was removed and a path is left, the first one
      becomes current and the list reloads at its top. */
  lemma RemovePathCases(s: State, path: string, confirmed: bool)
    ensures !confirmed ==> RemovePath(s, path, confirmed) == (s, false)
    ensures confirmed ==> path !in RemovePath(s, path, confirmed).0.basePaths
    ensures confirmed ==> Subsequence(RemovePath(s, path, confirmed).0.basePaths, s.basePaths)
    ensures confirmed ==> forall p :: p != path ==> (p in RemovePath(s, path, confirmed).0.basePaths <==> p in s.basePaths)
    ensures confirmed && s.basePath == path && |RemoveAll(s.basePaths, path)| > 0 ==>
      var t := RemovePath(s, path, confirmed);
      t.1 && t.0 == s.(basePaths := t.0.basePaths, basePath := t.0.basePaths[0], path := "")
    ensures confirmed && !(s.basePath == path && |RemoveAll(s.basePaths, path)| > 0) ==>
      RemovePath(s, path, confirmed) == (s.(basePaths := RemoveAll(s.basePaths, path)), false)
  {
    var r := RemoveAll(s.basePaths, path);
    RemoveAllIsSubsequence(s.basePaths, path);
    forall p | p != path ensures p in r <==> p in s.basePaths {
      if p in s.basePaths {
        var i :| 0 <= i < |s.basePaths| && s.basePaths[i] == p;
        assert exists j :: 0 <= j < |r| && r[j] == p;
      }
    }
  }

  /** Removing one listed path from a list of several, where the current root is listed,
      leaves the current root listed. */
  lemma RemovePathKeepsCurrentListed(s: State, path: string)
    requires PathsDistinct(s) && s.basePath in s.basePaths && path in s.basePaths && |s.basePaths| > 1
    ensures RemovePath(s, path, true).0.basePath in RemovePath(s, path, true).0.basePaths
  {
    RemoveAllLength(s.basePaths, path);
    RemovePathCases(s, path, true);
  }

  /** Removing the current root of two paths switches to the other one. */
  lemma RemoveCurrentOfTwo(s: State)
    requires s.basePaths == ["/lib/a", "/lib/b"] && s.basePath == "/lib/a"
    ensures RemovePath(s, "/lib/a", true) ==
      (s.(basePaths := ["/lib/b"], basePath := "/lib/b", path := ""), true)
  {
    assert RemoveAll(["/lib/b"], "/lib/a") == ["/lib/b"];
    assert RemoveAll(s.basePaths, "/lib/a") == ["/lib/b"];
  }

  // ---------------------------------------------------------------------------
  // Settings

  /** The body saveSettings posts carries all four settings, so the server's update takes
      the path that copies each of them, and stores the chosen direction and buffer. */
  lemma SavedSettingsAreStored(config: ServerConfig.Config, s: State, direction: Direction, buffer: nat)
    ensures var body := SaveSettings(s, direction, buffer).1;
      var stored := ServerConfig.UpdateConfig(config, body);
      && stored.Ok? && stored.value.Keys == config.Keys + ServerConfig.Settings
      && stored.value["reading_direction"] == ServerConfig.JString(DirectionName(direction))
      && stored.value["preload_buffer"] == ServerConfig.JNumber(buffer)
      && stored.value["current_base_path"] == ServerConfig.JString(s.basePath)
  {
    var body := SaveSettings(s, direction, buffer).1;
    ServerConfig.AsWrittenAgreesWhenPaired(config, body);
    ServerConfig.UpdateConfigIntendedMerges(config, body);
    assert ServerConfig.IntendedKeys(body) == ServerConfig.Settings;
  }

  /** Loading back what was saved restores the direction, the buffer, the paths and the
      root, and returns to the top folder, provided the buffer and the root are truthy. */
  lemma SettingsRoundTrip(s: State, direction: Direction, buffer: nat)
    requires buffer > 0 && s.basePath != ""
    ensures var t := SaveSettings(s, direction, buffer).0;
      LoadSettings(t, Some(SettingsData(Some(DirectionName(direction)), Some(buffer), Some(t.basePaths), Some(t.basePath))))
      == t.(path := "")
  {
  }

  /** Saving a smaller buffer keeps a cache that no longer fits it; the next completion cuts
      it to exactly three times the new buffer. */
  lemma ShrunkBufferTrimmedOnCompletion(s: State, direction: Direction, buffer: nat, key: ImageKey)
    requires 3 * buffer < |s.cache|
    ensures !CacheWithinBound(SaveSettings(s, direction, buffer).0)
    ensures |CompletePrefetch(SaveSettings(s, direction, buffer).0, key).cache| == 3 * buffer
  {
    CompletePrefetchFacts(SaveSettings(s, direction, buffer).0, key);
  }
}
