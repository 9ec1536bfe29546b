# Manga reader: the reader controller and its server

A model, in Dafny, of a browser manga reader and the Flask server behind it. Two parts are modelled.

- **Client.** The reader controller in `static/script.js`. It covers:
  - the view state machine (list, reader, history, settings) with its two overlays, the page slider and the chapter-navigation panel;
  - page turning, including crossing into the previous or next chapter;
  - the keyboard, click and swipe dispatch, which depends on the reading direction;
  - the prefetch window and the insertion-ordered image cache with its eviction loop;
  - the breadcrumb trail;
  - the library-path settings.
- **Server.** The list and path logic of `app.py`:
  - which file names are images;
  - how a chapter's pages are ordered;
  - the folder scan;
  - the neighbours of a chapter;
  - the reading history;
  - the settings update.

The client's globals are modelled twice.

- `ReaderModel.State` is a value. Each handler is a function from the state before to the state after. Every modelled handler preserves `ReaderModel.Valid`: the page index lies inside the chapter, and the cache holds no key twice. Two further facts hold only after some handlers:
  - `CacheWithinBound`: the cache holds at most three times the buffer. A prefetch completion and `updateBufferSize` establish it. `saveSettings` and `loadSettings` change the buffer without clearing the cache, so a smaller buffer can leave the cache over the bound until the next completion (`ReaderProperties.ShrunkBufferTrimmedOnCompletion`).
  - `PathsDistinct`: no library path is listed twice. `addNewPath` and `removePath` preserve it. `loadSettings` adopts the stored list as it is, duplicates included.
- `Controller.Reader` is a class with the same fields. Its methods update them in place, and each is proved to end in the state the matching `ReaderModel` function computes. The properties proved in `ReaderProperties` therefore hold for the object.

Loops in the source stay loops:

- the prefetch loop and the eviction loop (`Prefetch.PreloadWindow`, `Prefetch.EvictOldest`);
- the breadcrumb `forEach`;
- the server's append loops (`Images.CollectMatching`, `Listing.ScanDirectory`, `Listing.CollectChapters`).

Each loop is proved against a specification stated apart from it: the append loops and the prefetch loop against recursive functions, the eviction loop against the closed form `Prefetch.Evict`, and the breadcrumb loop against the predicates `Labelled` and `CurrentOnlyAt`.

Everything the outside world supplies becomes a parameter of the operation:

- the answer to `confirm()` is `confirmed`;
- the result of a `fetch` is an `Option`, where `None` means a network or server error;
- the listing of a folder is `Option<seq<...>>`, where `None` means it may not be listed;
- the request body of the settings update is a map.

## Model

| member | source | states |
|---|---|---|
| ReaderModel.Initial | static/script.js:2-14 | the page starts in the list view with an empty cache, a buffer of 3, and a state that satisfies the invariant |
| Controller.Reader.constructor | static/script.js:2-14 | the object starts in exactly the initial state |
| ReaderModel.OpenManga | static/script.js:75-103 | after a failed fetch nothing changes; after an answer, the chapter, its images and neighbours are adopted at page 0, the reader is shown exactly when there are images, and the invariant is kept |
| Controller.Reader.OpenManga | static/script.js:75-103 | the fields become the `ReaderModel.OpenManga` state, and the result says whether the reader was shown |
| ReaderProperties.PreviousTurnsBack | static/script.js:677-681 | past the first page, previous only decrements the index |
| ReaderProperties.PreviousAtFirstPageStays | static/script.js:682-693 | on the first page, with no previous chapter or when the user declines, nothing changes |
| ReaderProperties.PreviousEntersLastPage | static/script.js:682-690 | crossing back into the previous chapter opens it at its last page |
| ReaderProperties.PreviousFetchFailureJumpsToEnd | static/script.js:682-690 | when that chapter cannot be fetched, the index still jumps to the last page of the current chapter |
| ReaderModel.PreviousImage | static/script.js:677-693 | turning back keeps the invariant, including when a previous chapter is entered |
| Controller.Reader.PreviousImage | static/script.js:677-693 | the fields become the `ReaderModel.PreviousImage` state |
| ReaderProperties.NextTurnsForward | static/script.js:696-700 | before the last page, next only increments the index |
| ReaderProperties.NextAtLastPageOffersChapter | static/script.js:701-704 | on the last page with a next chapter, only the chapter navigation is revealed |
| ReaderProperties.NextAtLastPageStays | static/script.js:696-705 | on the last page without a next chapter, nothing changes |
| ReaderModel.NextImage | static/script.js:696-705 | turning forward keeps the invariant |
| Controller.Reader.NextImage | static/script.js:696-705 | the fields become the `ReaderModel.NextImage` state |
| ReaderModel.GoToNextChapter | static/script.js:657-662 | without a next chapter nothing changes; with one, the panel is hidden, and when that chapter answers it is opened at page 0 with its images and neighbours, the reader being shown when it has images; a failed fetch only hides the panel; the invariant is kept |
| Controller.Reader.GoToNextChapter | static/script.js:657-662 | with a next chapter, the navigation panel is hidden and that chapter is opened; otherwise nothing changes |
| ReaderModel.ShowChapterNavigation | static/script.js:640-648 | the panel is shown exactly when it was shown or there is a next chapter; nothing else changes |
| ReaderModel.HideChapterNavigation | static/script.js:651-654 | the panel is hidden whatever it was; nothing else changes |
| ReaderModel.ToggleSlider | static/script.js:603-630 | the slider flag flips; nothing else changes |
| ReaderModel.HideSlider | static/script.js:633-637 | the slider is hidden whatever it was; nothing else changes |
| Controller.Reader.ShowChapterNavigation | static/script.js:640-648 | the panel is shown only when there is a next chapter |
| Controller.Reader.HideChapterNavigation | static/script.js:651-654 | only the panel flag changes |
| Controller.Reader.ToggleSlider | static/script.js:603-630 | only the slider flag flips |
| Controller.Reader.HideSlider | static/script.js:633-637 | only the slider flag is cleared |
| ReaderModel.GoBack | static/script.js:117-135 | every view other than the list returns to the list; a progress save is produced only from the reader; the invariant is kept |
| ReaderProperties.GoBackFromReader | static/script.js:118-128 | the reader saves the progress, then clears the chapter, its images and the index; everything else, the overlay flags included, is kept |
| ReaderProperties.GoBackFromOtherViews | static/script.js:129-134 | history and settings only switch to the list |
| Controller.Reader.GoBack | static/script.js:117-135 | the fields become the `ReaderModel.GoBack` state, and the progress save it produces is returned |
| ReaderModel.ProgressOf | static/script.js:522-539 | a save is sent exactly when a non-empty chapter with images is open; it carries that chapter's path, `ChapterName` of the path, the index and the page count |
| ReaderModel.ChapterName | static/script.js:531 | the chapter name is empty only for an empty path; the three lemmas below give its value in every case |
| ReaderProperties.ChapterNameAfterSeparator | static/script.js:531 | the chapter name is the part after the last `/` or `\` |
| ReaderProperties.ChapterNameTrailingSeparator | static/script.js:531 | a path ending in a separator is sent whole |
| ReaderProperties.ChapterNameWithoutSeparator | static/script.js:531 | a path without a separator is its own chapter name |
| Controller.Reader.SaveReadingProgress | static/script.js:522-539 | returns exactly `ProgressOf` of the current state and changes nothing |
| ReaderModel.ShowHistory | static/script.js:307-313 | the view becomes history; nothing else changes |
| ReaderModel.ShowSettings | static/script.js:316-322 | the view becomes settings; nothing else changes |
| Controller.Reader.ShowHistory | static/script.js:307-313 | only the view changes, to history |
| Controller.Reader.ShowSettings | static/script.js:316-322 | only the view changes, to settings |
| ReaderModel.ResumeReading | static/script.js:380-402 | a failed fetch changes nothing; an answer adopts the path and its images and keeps the old neighbour links; with images the index is the saved page clamped to the last page and the reader is shown; an empty answer leaves the index at -1 and the view as it was; the invariant is kept |
| ReaderProperties.ResumeClamps | static/script.js:388 | the page is the saved one when it exists and the last page otherwise; the neighbour links are not refreshed |
| Controller.Reader.ResumeReading | static/script.js:380-402 | the fields become the `ReaderModel.ResumeReading` state |
| Input.Turn | static/script.js:252-267 | the left side means previous when reading left to right and next when reading right to left |
| Input.TurnMirror | static/script.js:252-267 | flipping the direction swaps the meaning of the two sides |
| Input.KeyCommand | static/script.js:775-835 | with the slider shown, only Escape acts, hiding it; otherwise, with the chapter panel shown, Escape hides it and Enter opens the next chapter; otherwise left and right keys turn by side, up and down keys mean previous and next, space toggles the slider, Escape goes back, and every other key is ignored |
| Input.KeyMirror | static/script.js:794-835 | under right-to-left reading, every key acts like its mirror key (a/d, A/D, ArrowLeft/ArrowRight) under left-to-right reading |
| ReaderModel.Execute | static/script.js:769-837 | every command keeps the invariant, and only going back produces a progress save |
| ReaderModel.HandleKey | static/script.js:769-770 | keys act only in the reader view, and the invariant is kept |
| ReaderProperties.SliderCapturesKeys | static/script.js:775-781 | with the slider shown, only Escape changes anything, and it hides the slider |
| ReaderProperties.ChapterNavCapturesKeys | static/script.js:783-792 | with the panel shown, only Escape (hide) and Enter (next chapter) act |
| ReaderProperties.VerticalKeysIgnoreDirection | static/script.js:815-826 | up and down keys turn back and forward in either direction |
| ReaderProperties.HorizontalKeysFollowDirection | static/script.js:795-814 | left and right keys turn according to the reading direction |
| ReaderProperties.PreviousKeepsDirection | static/script.js:677-693 | turning back neither reads nor changes the reading direction |
| ReaderProperties.NextChapterKeepsDirection | static/script.js:657-662 | going to the next chapter neither reads nor changes the reading direction |
| ReaderProperties.ExecuteKeepsDirection | static/script.js:677-705 | no command depends on the reading direction or changes it |
| ReaderProperties.KeysMirrorUnderDirection | static/script.js:769-837 | reading right to left, the mirrored key has the same effect on the whole state as the key itself reading left to right |
| Controller.Reader.HandleKey | static/script.js:769-837 | the fields become the `ReaderModel.HandleKey` state, and any progress save is returned |
| Input.ClickCommand | static/script.js:244-271 | the middle third toggles the slider exactly; the outer thirds turn the page by side |
| Input.ClickMirror | static/script.js:244-271 | a click mirrored across the container under the other direction has the same meaning |
| ReaderProperties.ClickZones | static/script.js:244-271 | the same three zones, stated over the whole state |
| ReaderModel.HandleClick | static/script.js:244-271 | a click keeps the invariant |
| Controller.Reader.HandleImageClick | static/script.js:244-271 | the fields become the `ReaderModel.HandleClick` state |
| Input.SwipeCommand | static/script.js:852-881 | a swipe acts exactly when no overlay is shown and it is longer than 50; a rightward swipe acts like the left side |
| Input.SwipeMirror | static/script.js:852-881 | a swipe the other way under the other direction has the same meaning |
| ReaderModel.HandleSwipe | static/script.js:852-881 | outside the reader, or with an overlay shown, a swipe changes nothing; the invariant is kept |
| ReaderProperties.SwipeTurns | static/script.js:863-879 | a long swipe to the right acts like the left third and one to the left like the right third; a short swipe changes nothing |
| Controller.Reader.HandleSwipe | static/script.js:852-881 | the fields become the `ReaderModel.HandleSwipe` state |
| Prefetch.WindowFacts | static/script.js:204-208 | the prefetch window is exactly the pages from `floor(b/2)` before to `ceil(b/2)` after the current one, clamped to the chapter and without the current page; it is visited in increasing order and holds at most `b` pages |
| Prefetch.WindowExample | static/script.js:204-208 | with five images, a buffer of four and page 2, the window is pages 0, 1, 3 and 4 |
| Prefetch.MissingMembers | static/script.js:210-214 | a key is fetched exactly when it belongs to a page of the window and is not cached |
| Prefetch.PreloadWindow | static/script.js:207-225 | the loop issues exactly the fetches `Fetches` computes, in window order |
| Prefetch.Missing | static/script.js:210-214 | the uncached keys of the window: never a cached key, and no more than the window has pages |
| ReaderModel.Requests | static/script.js:203-226 | the fetches of the current state: at most `buffer` of them, none already cached |
| ReaderProperties.RequestsFacts | static/script.js:203-226 | the fetches are the uncached images of the window, never the current page, and at most `buffer` of them |
| Controller.Reader.PreloadImages | static/script.js:203-226 | returns exactly `Requests` of the current state and changes nothing |
| Prefetch.EvictOldest | static/script.js:218-221 | the eviction loop leaves the newest `cap` keys in order |
| Prefetch.CacheAdd | static/script.js:215-221 | after a completion exactly `min(n, cap)` keys remain, where `n` counts the old keys plus the new one when it was absent, and they are the newest of those in insertion order |
| Prefetch.CacheAddNoDup | static/script.js:215-221 | the cache never holds a key twice |
| Prefetch.CacheAddPresent | static/script.js:216 | re-adding a cached key moves nothing, so eviction is first-in first-out and not least-recently-used |
| Prefetch.CacheAddFresh | static/script.js:216-221 | a new key goes to the back, and a full cache loses exactly its oldest key |
| Prefetch.AddAllDistinct | static/script.js:215-221 | from an empty cache, distinct completions leave exactly the newest `cap` of them, oldest first |
| Prefetch.OverflowEvictsFirst | static/script.js:218 | with buffer `b`, the `3b+1`-th distinct completion evicts exactly the first |
| ReaderModel.CompletePrefetch | static/script.js:215-223 | a completion keeps the invariant and leaves at most three times the buffer in force at completion time |
| ReaderProperties.CompletePrefetchFacts | static/script.js:215-223 | a completion changes only the cache, which stays within `3 * buffer`, keeps a cached key in place, and when full evicts only the oldest key |
| Controller.Reader.CompletePrefetch | static/script.js:215-223 | the cache field becomes `CacheAdd` of the old cache |
| ReaderModel.UpdateBufferSize | static/script.js:229-241 | adopting a buffer size keeps the invariant and leaves the cache within three times the new buffer |
| ReaderProperties.UpdateBufferSizeFacts | static/script.js:229-241 | the new size empties the cache, and the prefetch that follows asks for every image of the new window, exactly when a chapter is loaded |
| Controller.Reader.UpdateBufferSize | static/script.js:229-241 | the fields become the `ReaderModel.UpdateBufferSize` state, and the returned fetches are the ones it computes |
| Text.Split | static/script.js:287 | `split` gives at least one part, and no part holds a separator |
| Text.SplitRoundTrip | static/script.js:287 | splitting on `/` and `\` loses nothing: there is one separator fewer than parts, and putting the separators back between the parts, in order, gives back the string |
| Text.SplitSingle | app.py:149-151 | a string splits into one part exactly when it holds no separator |
| Text.SplitJoin | app.py:149-153 | joining the parts of a split on one separator gives back the string |
| Text.NonEmpty | static/script.js:291-292 | the parts kept by the `if (part)` test are exactly the non-empty parts, in their order |
| Breadcrumb.BuildBreadcrumb | static/script.js:280-304 | the trail is the home link and then one entry per non-empty component, in order; each folder entry links to the components up to its own joined by `/`; only the last component is current, and only when the path does not end in a separator |
| Breadcrumb.TrailOf | static/script.js:288-301 | the `forEach` builds exactly that trail |
| Text.Trim | static/script.js:480 | the result is `s` without its leading and trailing white space, and it is empty exactly when `s` is all white space |
| ReaderModel.AddNewPath | static/script.js:478-494 | adding a path keeps the invariant and keeps the path list free of duplicates |
| ReaderProperties.AddNewPathCases | static/script.js:478-494 | a blank input is rejected, then a listed one, both leaving the state unchanged; otherwise the trimmed path is appended |
| Controller.Reader.AddNewPath | static/script.js:478-494 | the fields become the `ReaderModel.AddNewPath` state, and the outcome is returned |
| ReaderModel.SelectPath | static/script.js:497-504 | the selected path becomes the root, the browsing path is reset to the top, every other field is kept, and so is the invariant |
| Controller.Reader.SelectPath | static/script.js:497-504 | the fields become the `ReaderModel.SelectPath` state |
| Seqs.RemoveAll | static/script.js:510 | the filter drops every copy of the path and keeps every other entry |
| Seqs.RemoveAllIsSubsequence | static/script.js:510 | the entries kept stay in their order |
| ReaderModel.RemovePath | static/script.js:507-519 | removing a path keeps the invariant and keeps the path list free of duplicates |
| ReaderProperties.RemovePathCases | static/script.js:507-519 | declining changes nothing; confirming removes every copy of the path and keeps the others in order; the first remaining path becomes the root, with a list reload, exactly when the removed path was the root and one is left |
| ReaderProperties.RemovePathKeepsCurrentListed | static/script.js:512-516 | after removing one of several listed paths, the root is still a listed path |
| ReaderProperties.RemoveCurrentOfTwo | static/script.js:507-519 | removing the root `/lib/a` of two paths switches to `/lib/b` |
| Controller.Reader.RemovePath | static/script.js:507-519 | the fields become the `ReaderModel.RemovePath` state, and the result says whether the list is reloaded |
| ReaderModel.LoadMangaList | static/script.js:23-42 | a successful answer sets the browsing path to the one it reports (empty when missing); a failed one changes nothing |
| Controller.Reader.LoadMangaList | static/script.js:23-42 | the fields become the `ReaderModel.LoadMangaList` state |
| ReaderModel.DirectionOf | static/script.js:429 | a setting reads left to right exactly when it is `left_to_right`, the only value the script tests for |
| ReaderModel.DirectionName | static/script.js:441-444 | the name a direction is stored under reads back as that direction |
| ReaderModel.LoadSettings | static/script.js:421-440 | without an answer nothing changes; otherwise the direction, the buffer, the paths and the root are adopted, each falsy one replaced by its default (left to right, 3, no paths, `/`), the browsing path goes to the top, and everything else, the cache included, is kept |
| Controller.Reader.LoadSettings | static/script.js:421-440 | the fields become the `ReaderModel.LoadSettings` state |
| ReaderModel.SettingsBody | static/script.js:449-455 | the request body carries exactly the four settings |
| ReaderModel.SaveSettings | static/script.js:441-456 | the chosen direction and buffer are adopted and nothing else changes, the cache included; the body posted holds all four settings with the new direction and buffer and the current root |
| Controller.Reader.SaveSettings | static/script.js:441-456 | the fields become the `ReaderModel.SaveSettings` state, and the posted body is returned |
| ReaderProperties.SavedSettingsAreStored | static/script.js:449-455 | the server accepts the body saveSettings posts and stores its direction, buffer and root |
| ReaderProperties.SettingsRoundTrip | static/script.js:421-456 | loading back what was saved restores the direction, buffer, paths and root, provided the buffer and the root are truthy |
| ReaderProperties.ShrunkBufferTrimmedOnCompletion | static/script.js:441-445 | saving a smaller buffer leaves the cache over three times the new buffer; the next completion cuts it to exactly that bound |
| ReaderModel.UpdateReadingDirection | static/script.js:665-674 | the chosen direction is adopted; nothing else changes |
| Controller.Reader.UpdateReadingDirection | static/script.js:665-674 | the fields become the `ReaderModel.UpdateReadingDirection` state |
| Images.Suffix | app.py:77 | the suffix is non-empty exactly when the last dot is neither the first nor the last character, and then it runs from that dot to the end; it is a dot followed by dot-free characters |
| Images.RFind | app.py:77 | the last position of the character, or -1 exactly when it does not occur |
| Images.IsImageFile | app.py:75-77 | an image name has a suffix of at least two characters that is not the whole name |
| Images.ImageFileByExtension | app.py:75-77 | a name is an image exactly when, after at least one other character, it ends in a supported extension, compared case-insensitively |
| Images.UpperCaseExtensionIsImage | app.py:77 | `001.JPG` is an image |
| Images.DotFileIsNotImage | app.py:77 | `.png` has no suffix and is not an image |
| Images.OtherExtensionIsNotImage | app.py:77 | `a.txt` is not an image |
| Text.Lower | app.py:77 | lower-casing keeps the length and maps each ASCII capital to its small letter |
| Images.Stem | app.py:138 | the stem is a prefix of the name; it ends at the last dot when some character other than a dot comes before that dot, and is the whole name otherwise |
| Images.Digits | app.py:138 | exactly the digits of the string, in order |
| Images.DecimalValue | app.py:138 | `int()` of a string of digits: a number below ten to the power of its length, 0 for no digits |
| Images.NumericKey | app.py:138 | the key reads the digits of the stem as one number, and is 0 when the stem has no digit |
| Images.LeadingZeroIgnored | app.py:138 | leading zeros do not change the key: `007` and `7` give the same number |
| Images.ImageNames | app.py:131-134 | a name is kept exactly when it is listed and is an image |
| Images.OrderPages | app.py:136-140 | the pages are a permutation of the image names sorted by numeric key, or by name when a key fails; pages whose keys tie keep their listing order |
| Images.CollectMatching | app.py:131-134 | the listing loop keeps exactly the image names, in listing order |
| Images.GetMangaImages | app.py:123-142 | a missing folder gives no pages; otherwise the pages are the image names in page order |
| Images.PageTenAfterPageTwo | app.py:138 | `10.jpg` sorts after `2.jpg` by number |
| Images.PageTenBeforePageTwoAsText | app.py:140 | by string, the fallback order, `10.jpg` comes first |
| Images.TiedPagesKeepListingOrder | app.py:138 | `b.jpg` and `a.jpg` both have key 0, so they keep their listing order |
| Sorting.SortBy | app.py:169 | Python's sort gives a sorted permutation of its input |
| Sorting.SortByStable | app.py:169 | the sort is stable: for every element, the elements that tie with it come out in their input order |
| Sorting.SortTwo | app.py:169 | two elements keep their order unless the second is strictly smaller |
| Order.LessEqTotal | app.py:169 | Python's string order is total |
| Order.LessEqTransitive | app.py:169 | Python's string order is transitive |
| Listing.ItemOf | app.py:93-107 | the item has the folder's name and the path `current_path/name` (the bare name at the top); it is a chapter exactly when a listed file has an image name; `has_subdirs` says whether a sub-folder exists; the image count is the number of entries with an image name for a chapter, 0 otherwise |
| Listing.ImageCount | app.py:106 | the number of entries with an image name, folders included |
| Listing.Collected | app.py:88-109 | at most one item per sub-folder, and one for each exactly when every sub-folder can be listed |
| Listing.CollectedFromListing | app.py:88-107 | every collected item describes a listed sub-folder of the scanned folder |
| Listing.SortItems | app.py:111 | the sorted items are a permutation of the collected ones, in key order |
| Listing.ScanDirectory | app.py:84-111 | an unreadable folder gives no items; otherwise the items are the sorted items of the sub-folders collected before the first one that cannot be listed |
| Listing.ScanOrder | app.py:111 | folders of folders come before chapters, and within each group the names ascend |
| Listing.IndexOf | app.py:172 | the first position of the name, or no position exactly when it is absent |
| Listing.Qualify | app.py:177-178 | a neighbour path exists exactly when there is a neighbour |
| Listing.QualifiedPaths | app.py:177-178 | a neighbour in a nested folder is `parent/name`, one at the top level is the bare name |
| Listing.CollectChapters | app.py:160-167 | the loop collects exactly `ChapterNames`, failing where it fails |
| Listing.ChapterNamesFromListing | app.py:160-167 | every chapter name is a listed sub-folder that contains an image file |
| Listing.ListingChaptersAreNamed | app.py:160-167 | every listed sub-folder that contains an image file is a chapter name |
| Listing.ChapterNames | app.py:158-183 | the chapter list is missing exactly when a sub-folder cannot be listed (the bare `except`), and has at most one name per sub-folder |
| Listing.ChapterNamesDistinct | app.py:160-167 | chapter names are distinct when the listing's names are |
| Listing.GetAdjacentChapters | app.py:144-183 | the method computes exactly `AdjacentChapters` |
| Listing.TopLevelHasNoNeighbours | app.py:149-151 | a path without `/` has no neighbours |
| Listing.SortChapters | app.py:169 | the sorted chapters are a permutation of the collected ones, in string order |
| Listing.NeighboursIn | app.py:169-181 | a chapter missing from the list has no neighbours; a neighbour that is reported is a chapter of the list, joined to the parent |
| Listing.AdjacentChapters | app.py:144-183 | neighbours are reported only for a nested path whose parent lists and whose last segment is one of the parent's chapters |
| Listing.NeighboursAreAdjacent | app.py:169-179 | the previous chapter is the greatest one below the current one, exactly when one exists, and the next the least above it, each joined to the parent |
| Listing.AdjacentChaptersCorrect | app.py:144-183 | for a nested path whose parent lists: no neighbours when the last segment is not a chapter there, otherwise its sorted neighbours joined to the parent |
| History.Without | app.py:56 | the old records of the chapter are dropped and every other record is kept |
| History.AddToHistory | app.py:51-73 | a zero page count fails; otherwise the new record comes first, followed by the older records of other chapters in order, at most 50 in all |
| History.AddKeepsOrder | app.py:56-71 | the other records keep their relative order |
| History.AddKeepsDistinct | app.py:56-71 | no chapter gets two records |
| History.AddIdempotent | app.py:51-73 | saving the same position twice gives the same list as once |
| History.DeleteHistory | app.py:341-352 | an index out of range fails; otherwise exactly that record goes and the rest shift down |
| History.DeleteThenReinsert | app.py:341-342 | putting the deleted record back at its index restores the list |
| History.DeleteKeepsDistinct | app.py:341-342 | deleting introduces no duplicate chapter |
| ServerConfig.UpdateConfig | app.py:278-287 | the update fails exactly when the request has `reading_direction` but no `preload_buffer` |
| ServerConfig.UpdateConfigMerges | app.py:278-287 | a successful update stores the request's base paths, current base path and reading direction when present, plus `preload_buffer` whenever `reading_direction` is present; every other key keeps its old value |
| ServerConfig.UpdateConfigIntended | app.py:278-285 | the corrected update adds exactly the settings the request carries to the stored keys |
| ServerConfig.UpdateConfigIntendedMerges | app.py:278-285 | the corrected update stores exactly the settings present in the request and keeps everything else |
| ServerConfig.IntendedOnlyPresentKeys | app.py:278-285 | each setting in the request is stored, and no other key is added or changed |
| ServerConfig.AsWrittenAgreesWhenPaired | app.py:282-285 | when `reading_direction` and `preload_buffer` come together, or neither comes, the code does what was intended |
| ServerConfig.PreloadOnlyRequestIsLost | app.py:284-285 | a request with only `preload_buffer` succeeds without storing it |
| ServerConfig.DirectionWithoutBufferFails | app.py:284-285 | a request with a direction but no buffer fails, so nothing is saved |

## Left out

- DOM work is not modelled: showing and hiding elements, texts, the slider text, the counters, the cache-status label and error messages. The two overlay flags stand for the display state of the slider and the panel. The model starts with both hidden; their display when the page loads comes from the page markup, which is not part of this model. The shown view stands for `currentView`.
- Images are not loaded (`loadCurrentImage`, `reloadCurrentImage`). The prefetch they start is modelled as `PreloadImages`.
- Each fetch completes immediately with the answer passed in. The model therefore does not capture interleaved completions, such as a late `openManga` answer arriving after another navigation, or prefetch completions in another order.
- Debounce timers are left out: the delayed progress save and `sliderTimeout`.
- `displayMangaList`, `navigateToFolder` and `breadcrumbHistory` are left out. They render the answer and push onto a list that is never read. What `loadMangaList` changes, `currentPath`, is modelled as `ReaderModel.LoadMangaList`.
- `loadHistory`, `displayHistory`, `deleteHistory`, `displaySettings` and `initializeSlider` only render data or the slider. On the server, deletion is modelled as `History.DeleteHistory`.
- The slider's `oninput` handler is left out. It sets the page to the value of the range element, whose bounds come from the page markup.
- `selectPath` and `removePath` do not post the settings; `saveSettings` sends them separately. This script has no EPUB view. The model follows the code in both.
- `Prefetch.PreloadWindow` and `Prefetch.EvictOldest`: image URLs are modelled as the pair (chapter, file name). `encodeURIComponent` is injective, so the pair determines the URL. A closed chapter is named `"null"`, as `encodeURIComponent(null)` gives.
- `Controller.Reader.CompletePrefetch` evicts on a copy of the cache and then stores the copy. It does not model the `Set` being changed key by key.
- `parseInt` of the buffer select is a natural number in the model. `NaN` is not modelled.
- Server file I/O is not modelled: reading and writing the JSON files, `os.path.exists`, `os.listdir`, `send_file`, the Flask routes and their JSON envelopes. Listings and stored files are parameters.
- History records are stored without `timestamp` and the float `progress_percent`. A zero page count is modelled as the failure that division raises.
- Requests whose fields are missing or of the wrong JSON type are not modelled, nor are request bodies that are not JSON objects.
- Images: the model uses ASCII `lower()` and ASCII `str.isdigit`. This is exact for the supported extensions. A stem with non-ASCII digits is keyed differently by Python.
- `Images.OrderPages`: `keyFailed` is a parameter standing for the `int()` conversion raising. This happens, for example, for a stem with a superscript digit. The number keys of ASCII stems never fail.
- Neighbours: only the sorted position of the current chapter is modelled. A chapter name that is empty and sits between two qualified neighbours comes out unqualified, as in the code (`Listing.Qualify`).
- `Listing.ScanDirectory`: only `PermissionError` on a sub-folder is modelled, as the unlistable case. Other `OSError`s propagate as a server error and are not modelled.
- In-place sorts (`list.sort()`, `sorted`) are modelled as a stable insertion sort on values.

## Findings

| source | as written | input that shows it | evidently intended | confidence | as-written member | corrected member |
|---|---|---|---|---|---|---|
| app.py:284 | `preload_buffer` is copied only when `'reading_direction' in data` | `{"preload_buffer": 5}` is accepted but the buffer is not stored; `{"reading_direction": "right_to_left"}` raises `KeyError`, so nothing is saved | copy `preload_buffer` when `'preload_buffer' in data`, as the three lines before it do | high, not executed; the shipped client always sends both keys | ServerConfig.UpdateConfig | ServerConfig.UpdateConfigIntended |
