/** The reader controller of static/script.js as an object: its globals are fields that the
    handlers update in place. Each method is proved to leave the object in the state that the
    corresponding `ReaderModel` function computes, so everything `ReaderProperties` proves
    holds for the object. */
module Controller {
  import opened Wrappers
  import opened Seqs
  import opened Prefetch
  import opened Input
  import opened ReaderModel
  import ServerConfig

  class Reader {
    var currentManga: Option<string>
    var currentImages: seq<string>
    var currentImageIndex: int
    var adjacentChapters: Adjacent
    var readingDirection: Direction
    var preloadBuffer: nat
    var imageCache: seq<ImageKey>
    var currentPath: string
    var basePaths: seq<string>
    var currentBasePath: string
    var currentView: View
    var sliderVisible: bool
    var chapterNavVisible: bool

    /** The fields as a `ReaderModel.State` value. */
    ghost function Snapshot(): State
      reads this
    {
      State(currentManga, currentImages, currentImageIndex, adjacentChapters, readingDirection,
            preloadBuffer, imageCache, currentPath, basePaths, currentBasePath, currentView,
            sliderVisible, chapterNavVisible)
    }

    ghost predicate Valid()
      reads this
    {
      ReaderModel.Valid(Snapshot())
    }

    /** The page as loaded (static/script.js:2-14). */
    constructor ()
      ensures Snapshot() == Initial() && Valid()
    {
      currentManga := None;
      currentImages := [];
      currentImageIndex := 0;
      adjacentChapters := Adjacent(None, None);
      readingDirection := LeftToRight;
      preloadBuffer := 3;
      imageCache := [];
      currentPath := "";
      basePaths := [];
      currentBasePath := "/";
      currentView := ListView;
      sliderVisible := false;
      chapterNavVisible := false;
    }

    method OpenManga(path: string, response: Option<ChapterData>) returns (shown: bool)
      modifies this
      ensures (Snapshot(), shown) == ReaderModel.OpenManga(old(Snapshot()), path, response)
    {
      shown := false;
      if response.Some? {
        currentManga := Some(path);
        currentImages := response.value.images;
        adjacentChapters := response.value.adjacent;
        currentImageIndex := 0;
        if |currentImages| > 0 {
          currentView := ReaderView;
          shown := true;
        }
      }
    }

    method PreviousImage(confirmed: bool, response: Option<ChapterData>)
      modifies this
      ensures Snapshot() == ReaderModel.PreviousImage(old(Snapshot()), confirmed, response)
    {
      if currentImageIndex > 0 {
        currentImageIndex := currentImageIndex - 1;
      } else if Truthy(adjacentChapters.previous) && confirmed {
        var _ := OpenManga(adjacentChapters.previous.value, response);
        currentImageIndex := |currentImages| - 1;
      }
    }

    method ShowChapterNavigation()
      modifies this
      ensures Snapshot() == ReaderModel.ShowChapterNavigation(old(Snapshot()))
    {
      if Truthy(adjacentChapters.next) {
        chapterNavVisible := true;
      }
    }

    method NextImage()
      modifies this
      ensures Snapshot() == ReaderModel.NextImage(old(Snapshot()))
    {
      if currentImageIndex < |currentImages| - 1 {
        currentImageIndex := currentImageIndex + 1;
      } else if Truthy(adjacentChapters.next) {
        ShowChapterNavigation();
      }
    }

    method HideChapterNavigation()
      modifies this
      ensures Snapshot() == ReaderModel.HideChapterNavigation(old(Snapshot()))
    {
      chapterNavVisible := false;
    }

    method GoToNextChapter(response: Option<ChapterData>)
      modifies this
      ensures Snapshot() == ReaderModel.GoToNextChapter(old(Snapshot()), response)
    {
      if Truthy(adjacentChapters.next) {
        HideChapterNavigation();
        var _ := OpenManga(adjacentChapters.next.value, response);
      }
    }

    method ToggleSlider()
      modifies this
      ensures Snapshot() == ReaderModel.ToggleSlider(old(Snapshot()))
    {
      if !sliderVisible {
        sliderVisible := true;
      } else {
        HideSlider();
      }
    }

    method HideSlider()
      modifies this
      ensures Snapshot() == ReaderModel.HideSlider(old(Snapshot()))
    {
      sliderVisible := false;
    }

    /** saveReadingProgress: the body it would post, if any. */
    method SaveReadingProgress() returns (save: Option<ProgressSave>)
      ensures save == ProgressOf(Snapshot())
    {
      if currentManga.None? || currentManga.value == "" || |currentImages| == 0 {
        return None;
      }
      save := Some(ProgressSave(currentManga.value, ChapterName(currentManga.value), currentImageIndex, |currentImages|));
    }

    method GoBack() returns (save: Option<ProgressSave>)
      modifies this
      ensures (Snapshot(), save) == ReaderModel.GoBack(old(Snapshot()))
    {
      save := None;
      if currentView == ReaderView {
        save := SaveReadingProgress();
        currentView := ListView;
        currentManga := None;
        currentImages := [];
        currentImageIndex := 0;
      } else if currentView == HistoryView || currentView == SettingsView {
        currentView := ListView;
      }
    }

    method ShowHistory()
      modifies this
      ensures Snapshot() == ReaderModel.ShowHistory(old(Snapshot()))
    {
      currentView := HistoryView;
    }

    method ShowSettings()
      modifies this
      ensures Snapshot() == ReaderModel.ShowSettings(old(Snapshot()))
    {
      currentView := SettingsView;
    }

    method ResumeReading(path: string, imageIndex: nat, response: Option<ChapterData>)
      modifies this
      ensures Snapshot() == ReaderModel.ResumeReading(old(Snapshot()), path, imageIndex, response)
    {
      if response.Some? {
        currentManga := Some(path);
        currentImages := response.value.images;
        currentImageIndex := Min(imageIndex, |currentImages| - 1);
        if |currentImages| > 0 {
          currentView := ReaderView;
        }
      }
    }

    /** The keydown listener. */
    method HandleKey(key: string, confirmed: bool, response: Option<ChapterData>) returns (save: Option<ProgressSave>)
      modifies this
      ensures (Snapshot(), save) == ReaderModel.HandleKey(old(Snapshot()), key, confirmed, response)
    {
      save := None;
      if currentView != ReaderView {
        return;
      }
      if sliderVisible {
        if key == "Escape" {
          HideSlider();
        }
        return;
      }
      if chapterNavVisible {
        if key == "Escape" {
          HideChapterNavigation();
        } else if key == "Enter" {
          GoToNextChapter(response);
        }
        return;
      }
      if IsLeftKey(key) {
        if readingDirection == LeftToRight { PreviousImage(confirmed, response); } else { NextImage(); }
      } else if IsRightKey(key) {
        if readingDirection == LeftToRight { NextImage(); } else { PreviousImage(confirmed, response); }
      } else if IsUpKey(key) {
        PreviousImage(confirmed, response);
      } else if IsDownKey(key) {
        NextImage();
      } else if key == " " {
        ToggleSlider();
      } else if key == "Escape" {
        save := GoBack();
      }
    }

    /** handleImageClick, with the click offset and the container width. */
    method HandleImageClick(x: int, width: nat, confirmed: bool, response: Option<ChapterData>)
      modifies this
      ensures Snapshot() == HandleClick(old(Snapshot()), x, width, confirmed, response)
    {
      if 3 * x < width {
        if readingDirection == LeftToRight { PreviousImage(confirmed, response); } else { NextImage(); }
      } else if 3 * x > 2 * width {
        if readingDirection == LeftToRight { NextImage(); } else { PreviousImage(confirmed, response); }
      } else {
        ToggleSlider();
      }
    }

    /** handleSwipe, with the horizontal distance of the gesture. */
    method HandleSwipe(distance: int, confirmed: bool, response: Option<ChapterData>)
      modifies this
      ensures Snapshot() == ReaderModel.HandleSwipe(old(Snapshot()), distance, confirmed, response)
    {
      if currentView != ReaderView || sliderVisible || chapterNavVisible {
        return;
      }
      if distance > SwipeThreshold {
        if readingDirection == LeftToRight { PreviousImage(confirmed, response); } else { NextImage(); }
      } else if distance < -SwipeThreshold {
        if readingDirection == LeftToRight { NextImage(); } else { PreviousImage(confirmed, response); }
      }
    }

    /** preloadImages: returns, in order, the images it fetches. */
    method PreloadImages() returns (requests: seq<ImageKey>)
      ensures requests == Requests(Snapshot())
    {
      requests := PreloadWindow(currentManga.GetOr("null"), currentImages, currentImageIndex, preloadBuffer, imageCache);
    }

    /** A prefetch has completed: add its key, then drop the oldest keys while more than
        three times the buffer remain. */
    method CompletePrefetch(key: ImageKey)
      modifies this
      ensures Snapshot() == ReaderModel.CompletePrefetch(old(Snapshot()), key)
    {
      var cache := imageCache;
      if key !in cache {
        cache := cache + [key];
      }
      imageCache := EvictOldest(cache, preloadBuffer * 3);
    }

    /** updateBufferSize: returns the fetches of the prefetch it starts, if any. */
    method UpdateBufferSize(buffer: nat) returns (requests: seq<ImageKey>)
      modifies this
      ensures (Snapshot(), requests) == ReaderModel.UpdateBufferSize(old(Snapshot()), buffer)
    {
      preloadBuffer := buffer;
      imageCache := [];
      requests := [];
      if |currentImages| > 0 {
        requests := PreloadImages();
      }
    }

    method AddNewPath(input: string) returns (outcome: Outcome)
      modifies this
      ensures (Snapshot(), outcome) == ReaderModel.AddNewPath(old(Snapshot()), input)
    {
      var newPath := Text.Trim(input);
      if newPath == "" {
        return Rejected(BlankPath);
      }
      if newPath in basePaths {
        return Rejected(DuplicatePath);
      }
      basePaths := basePaths + [newPath];
      outcome := Accepted;
    }

    method SelectPath(path: string)
      modifies this
      ensures Snapshot() == ReaderModel.SelectPath(old(Snapshot()), path)
    {
      currentBasePath := path;
      currentPath := "";
    }

    /** removePath; `reload` tells whether the list is reloaded at the new root. */
    method RemovePath(path: string, confirmed: bool) returns (reload: bool)
      modifies this
      ensures (Snapshot(), reload) == ReaderModel.RemovePath(old(Snapshot()), path, confirmed)
    {
      reload := false;
      if !confirmed {
        return;
      }
      basePaths := RemoveAll(basePaths, path);
      if currentBasePath == path && |basePaths| > 0 {
        currentBasePath := basePaths[0];
        currentPath := "";
        reload := true;
      }
    }

    /** loadMangaList: a successful answer sets the current folder. */
    method LoadMangaList(answer: Option<string>)
      modifies this
      ensures Snapshot() == ReaderModel.LoadMangaList(old(Snapshot()), answer)
    {
      if answer.Some? {
        currentPath := answer.value;
      }
    }

    /** loadSettings; the list reload it starts is a separate `LoadMangaList`. */
    method LoadSettings(response: Option<SettingsData>)
      modifies this
      ensures Snapshot() == ReaderModel.LoadSettings(old(Snapshot()), response)
    {
      if response.None? {
        return;
      }
      var d := response.value;
      var name := if Truthy(d.readingDirection) then d.readingDirection.value else "left_to_right";
      readingDirection := DirectionOf(name);
      preloadBuffer := if d.preloadBuffer.Some? && d.preloadBuffer.value != 0 then d.preloadBuffer.value else 3;
      basePaths := d.basePaths.GetOr([]);
      currentBasePath := if Truthy(d.currentBasePath) then d.currentBasePath.value else "/";
      currentPath := "";
    }

    /** saveSettings; returns the body it posts. */
    method SaveSettings(direction: Direction, buffer: nat) returns (body: ServerConfig.Config)
      modifies this
      ensures (Snapshot(), body) == ReaderModel.SaveSettings(old(Snapshot()), direction, buffer)
    {
      readingDirection := direction;
      preloadBuffer := buffer;
      body := SettingsBody(basePaths, readingDirection, currentBasePath, preloadBuffer);
    }

    /** updateReadingDirection. */
    method UpdateReadingDirection(direction: Direction)
      modifies this
      ensures Snapshot() == ReaderModel.UpdateReadingDirection(old(Snapshot()), direction)
    {
      readingDirection := direction;
    }
  }
}
