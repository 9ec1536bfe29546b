/** The reader controller of static/script.js as a state machine over values: the state
    holds the controller's global variables, and each operation is a function from the
    state before to the state after. The `Controller.Reader` class runs the same
    operations in place and is proved equal to these functions. */
module ReaderModel {
  import opened Wrappers
  import opened Seqs
  import opened Text
  import opened Prefetch
  import opened Input
  import ServerConfig

  datatype View = ListView | ReaderView | HistoryView | SettingsView

  /** `adjacent_chapters`: the paths of the neighbouring chapters, or null. */
  datatype Adjacent = Adjacent(previous: Option<string>, next: Option<string>)

  /** The `data` of a successful `GET /api/manga/<path>` answer. */
  datatype ChapterData = ChapterData(images: seq<string>, adjacent: Adjacent)

  /** The body `saveReadingProgress` posts to `/api/history`. */
  datatype ProgressSave = ProgressSave(mangaPath: string, chapterName: string, imageIndex: int, totalImages: nat)

  datatype PathError = BlankPath | DuplicatePath
  datatype Outcome = Accepted | Rejected(reason: PathError)

  /** The controller's globals, in the order they are declared (static/script.js:2-14),
      with the two overlay flags the page keeps in the DOM. `breadcrumbHistory` is only ever
      pushed to and `sliderTimeout` only feeds a timer; neither is part of the model. */
  datatype State = State(
    manga: Option<string>,        // currentManga
    images: seq<string>,          // currentImages
    index: int,                   // currentImageIndex
    adjacent: Adjacent,           // adjacentChapters
    direction: Direction,         // readingDirection
    buffer: nat,                  // preloadBuffer
    cache: seq<ImageKey>,         // imageCache, in insertion order
    path: string,                 // currentPath
    basePaths: seq<string>,       // basePaths
    basePath: string,             // currentBasePath
    view: View,                   // currentView
    slider: bool,                 // the page slider is displayed
    chapterNav: bool)             // the chapter-navigation panel is displayed

  function Initial(): (s: State)
    ensures Valid(s) && s.view == ListView && s.cache == [] && s.buffer == 3
  {
    State(None, [], 0, Adjacent(None, None), LeftToRight, 3, [], "", [], "/", ListView, false, false)
  }

  /** JavaScript truthiness of a nullable string. */
  predicate Truthy(o: Option<string>) {
    o.Some? && o.value != ""
  }

  /** The page index is a page of the chapter; an empty chapter leaves it at 0 or at -1
      (`currentImages.length - 1`). */
  predicate IndexInRange(index: int, count: nat) {
    if count == 0 then -1 <= index <= 0 else 0 <= index < count
  }

  /** What every operation preserves: a valid page index and a cache without duplicates. */
  predicate Valid(s: State) {
    IndexInRange(s.index, |s.images|) && NoDup(s.cache)
  }

  /** The cache holds at most three times the buffer. A prefetch completion and a new buffer
      size establish it; adopting a smaller buffer from the settings does not. */
  predicate CacheWithinBound(s: State) {
    |s.cache| <= 3 * s.buffer
  }

  /** No library path is listed twice. Adding and removing paths keep it; the list loaded
      from the server is adopted as it is. */
  predicate PathsDistinct(s: State) {
    NoDup(s.basePaths)
  }

  // ---------------------------------------------------------------------------
  // Chapters and pages

  /** openManga: on an answer, adopt the chapter at page 0 and, if it has images, show the
      reader; without an answer (network or server error) nothing changes. */
  function OpenManga(s: State, path: string, response: Option<ChapterData>): (r: (State, bool))
    ensures Valid(s) ==> Valid(r.0)
    ensures response.None? ==> r == (s, false)
    ensures response.Some? ==>
      && r.0 == s.(manga := Some(path), images := response.value.images,
                   adjacent := response.value.adjacent, index := 0,
                   view := if |response.value.images| > 0 then ReaderView else s.view)
      && r.1 == (|response.value.images| > 0)
  {
    match response
    case None => (s, false)
    case Some(d) =>
      var t := s.(manga := Some(path), images := d.images, adjacent := d.adjacent, index := 0);
      if |d.images| > 0 then (t.(view := ReaderView), true) else (t, false)
  }

  /** previousImage: one page back; on the first page, cross to the previous chapter only
      if one exists and the user confirms, landing on its last page. */
  function PreviousImage(s: State, confirmed: bool, response: Option<ChapterData>): (r: State)
    ensures Valid(s) ==> Valid(r)
  {
    if s.index > 0 then s.(index := s.index - 1)
    else if Truthy(s.adjacent.previous) && confirmed then
      var o := OpenManga(s, s.adjacent.previous.value, response).0;
      o.(index := |o.images| - 1)
    else s
  }

  /** showChapterNavigation: the panel opens only when there is a next chapter. */
  function ShowChapterNavigation(s: State): (r: State)
    ensures Valid(s) ==> Valid(r)
    ensures r == s.(chapterNav := r.chapterNav)
    ensures r.chapterNav <==> s.chapterNav || Truthy(s.adjacent.next)
  {
    if Truthy(s.adjacent.next) then s.(chapterNav := true) else s
  }

  /** nextImage: one page forward; on the last page only offer the next chapter. */
  function NextImage(s: State): (r: State)
    ensures Valid(s) ==> Valid(r)
  {
    if s.index < |s.images| - 1 then s.(index := s.index + 1)
    else if Truthy(s.adjacent.next) then ShowChapterNavigation(s)
    else s
  }

  /** goToNextChapter: hide the panel and open the next chapter, if there is one, at its
      first page. */
  function GoToNextChapter(s: State, response: Option<ChapterData>): (r: State)
    ensures Valid(s) ==> Valid(r)
    ensures !Truthy(s.adjacent.next) ==> r == s
    ensures Truthy(s.adjacent.next) && response.None? ==> r == s.(chapterNav := false)
    ensures Truthy(s.adjacent.next) && response.Some? ==>
      r == s.(chapterNav := false, manga := s.adjacent.next, images := response.value.images,
              adjacent := response.value.adjacent, index := 0,
              view := if |response.value.images| > 0 then ReaderView else s.view)
  {
    if Truthy(s.adjacent.next) then
      OpenManga(s.(chapterNav := false), s.adjacent.next.value, response).0
    else s
  }

  /** toggleSlider: the slider flips; nothing else changes. */
  function ToggleSlider(s: State): (r: State)
    ensures Valid(s) ==> Valid(r)
    ensures r.slider != s.slider && r == s.(slider := r.slider)
  {
    s.(slider := !s.slider)
  }

  /** hideSlider: the slider is hidden whatever it was; nothing else changes. */
  function HideSlider(s: State): (r: State)
    ensures Valid(s) ==> Valid(r)
    ensures !r.slider && r == s.(slider := r.slider)
  {
    s.(slider := false)
  }

  /** hideChapterNavigation: the panel is hidden whatever it was; nothing else changes. */
  function HideChapterNavigation(s: State): (r: State)
    ensures Valid(s) ==> Valid(r)
    ensures !r.chapterNav && r == s.(chapterNav := r.chapterNav)
  {
    s.(chapterNav := false)
  }

  /** The chapter name sent with the progress: the last component of the path (split on
      `/` or `\`), or the whole path when that component is empty. */
  function ChapterName(manga: string): (name: string)
    ensures name != "" || manga == ""
  {
    var parts := Split(manga, {'/', '\\'});
    var last := parts[|parts| - 1];
    if last != "" then last else manga
  }

  /** saveReadingProgress: nothing is sent without a chapter or without images. */
  function ProgressOf(s: State): (p: Option<ProgressSave>)
    ensures p.Some? <==> s.manga.Some? && s.manga.value != "" && |s.images| > 0
    ensures p.Some? ==> p.value.mangaPath == s.manga.value && p.value.imageIndex == s.index
                        && p.value.totalImages == |s.images|
                        && p.value.chapterName == ChapterName(s.manga.value)
  {
    if s.manga.None? || s.manga.value == "" || |s.images| == 0 then None
    else Some(ProgressSave(s.manga.value, ChapterName(s.manga.value), s.index, |s.images|))
  }

  /** goBack: the reader saves the progress and closes the chapter; the history and settings
      views return to the list; the list itself stays. */
  function GoBack(s: State): (r: (State, Option<ProgressSave>))
    ensures Valid(s) ==> Valid(r.0)
    ensures s.view != ListView ==> r.0.view == ListView
    ensures r.1.Some? ==> s.view == ReaderView
  {
    if s.view == ReaderView then
      (s.(view := ListView, manga := None, images := [], index := 0), ProgressOf(s))
    else if s.view == HistoryView || s.view == SettingsView then
      (s.(view := ListView), None)
    else
      assert s.view == ListView;
      (s, None)
  }

  /** showHistory: switch to the history view; nothing else changes. */
  function ShowHistory(s: State): (r: State)
    ensures Valid(s) ==> Valid(r)
    ensures r.view == HistoryView && r == s.(view := r.view)
  {
    s.(view := HistoryView)
  }

  /** showSettings: switch to the settings view; nothing else changes. */
  function ShowSettings(s: State): (r: State)
    ensures Valid(s) ==> Valid(r)
    ensures r.view == SettingsView && r == s.(view := r.view)
  {
    s.(view := SettingsView)
  }

  /** resumeReading: open a chapter from the history at the saved page, clamped to its last
      page. The neighbour links of the previous chapter are kept. An empty chapter is adopted
      with the index at -1 and the view unchanged; without an answer nothing changes. */
  function ResumeReading(s: State, path: string, imageIndex: nat, response: Option<ChapterData>): (r: State)
    ensures Valid(s) ==> Valid(r)
    ensures response.None? ==> r == s
    ensures response.Some? ==>
      r == s.(manga := Some(path), images := response.value.images, index := r.index, view := r.view)
    ensures response.Some? && |response.value.images| > 0 ==>
      r.index == Min(imageIndex, |response.value.images| - 1) && r.view == ReaderView
    ensures response.Some? && |response.value.images| == 0 ==> r.index == -1 && r.view == s.view
  {
    match response
    case None => s
    case Some(d) =>
      var t := s.(manga := Some(path), images := d.images, index := Min(imageIndex, |d.images| - 1));
      if |d.images| > 0 then t.(view := ReaderView) else t
  }

  // ---------------------------------------------------------------------------
  // Input dispatch

  /** Runs a command; only going back produces a progress save. */
  function Execute(s: State, cmd: Command, confirmed: bool, response: Option<ChapterData>): (r: (State, Option<ProgressSave>))
    ensures Valid(s) ==> Valid(r.0)
    ensures !cmd.GoBack? ==> r.1.None?
  {
    match cmd
    case PreviousPage => (PreviousImage(s, confirmed, response), None)
    case NextPage => (NextImage(s), None)
    case ToggleSlider => (ToggleSlider(s), None)
    case HideSlider => (HideSlider(s), None)
    case HideChapterNav => (HideChapterNavigation(s), None)
    case EnterNextChapter => (GoToNextChapter(s, response), None)
    case GoBack => GoBack(s)
    case Ignore => (s, None)
  }

  /** A keydown: only while the reader view is displayed. */
  function HandleKey(s: State, key: string, confirmed: bool, response: Option<ChapterData>): (r: (State, Option<ProgressSave>))
    ensures Valid(s) ==> Valid(r.0)
    ensures s.view != ReaderView ==> r == (s, None)
  {
    if s.view != ReaderView then (s, None)
    else Execute(s, KeyCommand(key, s.direction, s.slider, s.chapterNav), confirmed, response)
  }

  /** A click on the image container at offset `x` of a container `width` wide. */
  function HandleClick(s: State, x: int, width: nat, confirmed: bool, response: Option<ChapterData>): (r: State)
    ensures Valid(s) ==> Valid(r)
  {
    Execute(s, ClickCommand(x, width, s.direction), confirmed, response).0
  }

  /** A finished touch gesture of horizontal `distance` (end minus start). */
  function HandleSwipe(s: State, distance: int, confirmed: bool, response: Option<ChapterData>): (r: State)
    ensures Valid(s) ==> Valid(r)
    ensures s.view != ReaderView || s.slider || s.chapterNav ==> r == s
  {
    if s.view != ReaderView then s
    else Execute(s, SwipeCommand(distance, s.direction, s.slider, s.chapterNav), confirmed, response).0
  }

  // ---------------------------------------------------------------------------
  // Prefetch and cache

  /** The name used in image URLs: `encodeURIComponent(null)` is "null". */
  function MangaName(s: State): string {
    s.manga.GetOr("null")
  }

  /** The fetches `preloadImages` issues: the window's images that are not cached yet, at
      most `buffer` of them. */
  function Requests(s: State): (r: seq<ImageKey>)
    ensures |r| <= s.buffer
    ensures forall k :: k in r ==> k !in s.cache
  {
    WindowFacts(s.index, |s.images|, s.buffer);
    Fetches(MangaName(s), s.images, s.index, s.buffer, s.cache)
  }

  /** A prefetch fetch has completed: add its key and evict to three times the buffer. */
  function CompletePrefetch(s: State, key: ImageKey): (r: State)
    ensures Valid(s) ==> Valid(r)
    ensures CacheWithinBound(r)
  {
    assert NoDup(s.cache) ==> NoDup(CacheAdd(s.cache, key, 3 * s.buffer)) by {
      if NoDup(s.cache) { CacheAddNoDup(s.cache, key, 3 * s.buffer); }
    }
    s.(cache := CacheAdd(s.cache, key, 3 * s.buffer))
  }

  /** updateBufferSize: adopt the new size, empty the cache, and prefetch again when a
      chapter is loaded. */
  function UpdateBufferSize(s: State, buffer: nat): (r: (State, seq<ImageKey>))
    ensures Valid(s) ==> Valid(r.0)
    ensures CacheWithinBound(r.0)
  {
    var t := s.(buffer := buffer, cache := []);
    (t, if |t.images| > 0 then Requests(t) else [])
  }

  // ---------------------------------------------------------------------------
  // Library paths

  /** addNewPath: trims the input; rejects a blank or already listed path; otherwise appends
      it. */
  function AddNewPath(s: State, input: string): (r: (State, Outcome))
    ensures Valid(s) ==> Valid(r.0)
    ensures PathsDistinct(s) ==> PathsDistinct(r.0)
  {
    var p := Trim(input);
    if p == "" then (s, Rejected(BlankPath))
    else if p in s.basePaths then (s, Rejected(DuplicatePath))
    else
      assert NoDup(s.basePaths) ==> NoDup(s.basePaths + [p]);
      (s.(basePaths := s.basePaths + [p]), Accepted)
  }

  /** selectPath: switch the library root and go back to its top folder (the list reload
      keeps `currentPath` empty). */
  function SelectPath(s: State, path: string): (r: State)
    ensures Valid(s) ==> Valid(r)
    ensures r.basePath == path && r.path == "" && r == s.(basePath := r.basePath, path := r.path)
  {
    s.(basePath := path, path := "")
  }

  /** removePath: on confirmation drop every copy of the path; when it was the current root
      and a path is left, the first one becomes current and the list is reloaded (the second
      component). */
  function RemovePath(s: State, path: string, confirmed: bool): (r: (State, bool))
    ensures Valid(s) ==> Valid(r.0)
    ensures PathsDistinct(s) ==> PathsDistinct(r.0)
  {
    if !confirmed then (s, false)
    else
      var remaining := RemoveAll(s.basePaths, path);
      assert NoDup(s.basePaths) ==> NoDup(remaining) by {
        if NoDup(s.basePaths) { RemoveAllNoDup(s.basePaths, path); }
      }
      var t := s.(basePaths := remaining);
      if s.basePath == path && |remaining| > 0 then (t.(basePath := remaining[0], path := ""), true)
      else (t, false)
  }

  // ---------------------------------------------------------------------------
  // Settings and the folder list

  /** The `data` of a successful `GET /api/config` answer; a field is `None` when the key is
      missing or null. */
  datatype SettingsData = SettingsData(
    readingDirection: Option<string>, preloadBuffer: Option<nat>,
    basePaths: Option<seq<string>>, currentBasePath: Option<string>)

  /** The reading direction a setting string selects: every test in the script compares with
      "left_to_right", so any other string reads right to left. */
  function DirectionOf(name: string): (d: Direction)
    ensures d == LeftToRight <==> name == "left_to_right"
  {
    if name == "left_to_right" then LeftToRight else RightToLeft
  }

  /** The option value the settings form shows for a direction. */
  function DirectionName(d: Direction): (name: string)
    ensures DirectionOf(name) == d
  {
    if d == LeftToRight then "left_to_right" else "right_to_left"
  }

  /** loadSettings: adopt the stored settings, each falsy one replaced by its default
      (left to right, a buffer of 3, no paths, the root "/"), and go to the top folder; the
      cache is kept. Without an answer nothing changes. */
  function LoadSettings(s: State, response: Option<SettingsData>): (r: State)
    ensures Valid(s) ==> Valid(r)
    ensures response.None? ==> r == s
    ensures response.Some? ==>
      r == s.(direction := r.direction, buffer := r.buffer, basePaths := r.basePaths,
              basePath := r.basePath, path := "")
    ensures response.Some? ==>
      var d := response.value;
      && (r.direction == LeftToRight <==> !Truthy(d.readingDirection) || d.readingDirection.value == "left_to_right")
      && r.buffer == (if d.preloadBuffer.Some? && d.preloadBuffer.value != 0 then d.preloadBuffer.value else 3)
      && r.basePaths == (if d.basePaths.Some? then d.basePaths.value else [])
      && r.basePath == (if Truthy(d.currentBasePath) then d.currentBasePath.value else "/")
  {
    match response
    case None => s
    case Some(d) =>
      var name := if Truthy(d.readingDirection) then d.readingDirection.value else "left_to_right";
      var buffer := if d.preloadBuffer.Some? && d.preloadBuffer.value != 0 then d.preloadBuffer.value else 3;
      s.(direction := DirectionOf(name), buffer := buffer, basePaths := d.basePaths.GetOr([]),
         basePath := if Truthy(d.currentBasePath) then d.currentBasePath.value else "/", path := "")
  }

  /** The request body of saveSettings: all four settings. */
  function SettingsBody(basePaths: seq<string>, direction: Direction, basePath: string, buffer: nat): (body: ServerConfig.Config)
    ensures body.Keys == ServerConfig.Settings
  {
    map["base_paths" := ServerConfig.JArray(seq(|basePaths|, i requires 0 <= i < |basePaths| => ServerConfig.JString(basePaths[i]))),
        "reading_direction" := ServerConfig.JString(DirectionName(direction)),
        "current_base_path" := ServerConfig.JString(basePath),
        "preload_buffer" := ServerConfig.JNumber(buffer)]
  }

  /** saveSettings: adopt the direction and buffer chosen in the form and post every setting.
      The cache is kept as it is, even when the buffer shrinks. */
  function SaveSettings(s: State, direction: Direction, buffer: nat): (r: (State, ServerConfig.Config))
    ensures Valid(s) ==> Valid(r.0)
    ensures r.0 == s.(direction := direction, buffer := buffer)
    ensures r.1.Keys == ServerConfig.Settings
    ensures r.1["reading_direction"] == ServerConfig.JString(DirectionName(direction))
    ensures r.1["preload_buffer"] == ServerConfig.JNumber(buffer)
    ensures r.1["current_base_path"] == ServerConfig.JString(s.basePath)
  {
    var t := s.(direction := direction, buffer := buffer);
    (t, SettingsBody(t.basePaths, t.direction, t.basePath, t.buffer))
  }

  /** updateReadingDirection: adopt the direction chosen in the reader; nothing else changes. */
  function UpdateReadingDirection(s: State, direction: Direction): (r: State)
    ensures Valid(s) ==> Valid(r)
    ensures r.direction == direction && r == s.(direction := r.direction)
  {
    s.(direction := direction)
  }

  /** loadMangaList: a successful answer sets the current folder to the path it reports
      (`current_path`, empty when missing); a failed one changes nothing. */
  function LoadMangaList(s: State, currentPath: Option<string>): (r: State)
    ensures Valid(s) ==> Valid(r)
    ensures currentPath.None? ==> r == s
    ensures currentPath.Some? ==> r == s.(path := currentPath.value)
  {
    match currentPath
    case None => s
    case Some(p) => s.(path := p)
  }
}
