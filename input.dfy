/** How the reader turns raw input (a key, a click position, a swipe distance) into a
    command, given the reading direction and the two overlays (static/script.js). */
module Input {

  datatype Direction = LeftToRight | RightToLeft

  /** What an input event asks the reader to do. */
  datatype Command =
    | PreviousPage | NextPage | ToggleSlider | HideSlider | HideChapterNav
    | EnterNextChapter | GoBack | Ignore

  /** A physical side: a screen third, an arrow key, or the side a swipe reveals. */
  datatype Side = LeftSide | RightSide

  function Opposite(side: Side): Side {
    if side == LeftSide then RightSide else LeftSide
  }

  /** The left side means "previous" when reading left to right and "next" when reading
      right to left; the right side means the other one. */
  function Turn(side: Side, dir: Direction): (c: Command)
    ensures c == PreviousPage || c == NextPage
    ensures c == NextPage <==> (side.RightSide? <==> dir.LeftToRight?)
  {
    if side == LeftSide then
      if dir == LeftToRight then PreviousPage else NextPage
    else
      if dir == LeftToRight then NextPage else PreviousPage
  }

  /** Flipping the reading direction swaps the meaning of the two sides. */
  lemma TurnMirror(side: Side)
    ensures Turn(side, RightToLeft) == Turn(Opposite(side), LeftToRight)
    ensures Turn(side, LeftToRight) == Turn(Opposite(side), RightToLeft)
    ensures Turn(side, LeftToRight) != Turn(side, RightToLeft)
  {
  }

  predicate IsLeftKey(key: string) { key == "ArrowLeft" || key == "a" || key == "A" }
  predicate IsRightKey(key: string) { key == "ArrowRight" || key == "d" || key == "D" }
  predicate IsUpKey(key: string) { key == "ArrowUp" || key == "w" || key == "W" }
  predicate IsDownKey(key: string) { key == "ArrowDown" || key == "s" || key == "S" }

  /** The keydown handler (static/script.js:775-835) once the reader view is shown: the
      slider overlay takes every key first, then the chapter-navigation overlay, then the
      page keys. */
  function KeyCommand(key: string, dir: Direction, slider: bool, chapterNav: bool): (c: Command)
    ensures slider ==> (c == HideSlider <==> key == "Escape") && (c == HideSlider || c == Ignore)
    ensures !slider && chapterNav ==>
      (c == HideChapterNav <==> key == "Escape") && (c == EnterNextChapter <==> key == "Enter")
      && (c == HideChapterNav || c == EnterNextChapter || c == Ignore)
    ensures !slider && !chapterNav ==> c != HideSlider && c != HideChapterNav && c != EnterNextChapter
    ensures !slider && !chapterNav && IsUpKey(key) ==> c == PreviousPage
    ensures !slider && !chapterNav && IsDownKey(key) ==> c == NextPage
    ensures !slider && !chapterNav && IsLeftKey(key) ==> c == Turn(LeftSide, dir)
    ensures !slider && !chapterNav && IsRightKey(key) ==> c == Turn(RightSide, dir)
    ensures !slider && !chapterNav && key == " " ==> c == ToggleSlider
    ensures !slider && !chapterNav && key == "Escape" ==> c == GoBack
    ensures !slider && !chapterNav ==> (c == Ignore <==>
      !IsLeftKey(key) && !IsRightKey(key) && !IsUpKey(key) && !IsDownKey(key) && key != " " && key != "Escape")
  {
    if slider then
      if key == "Escape" then HideSlider else Ignore
    else if chapterNav then
      if key == "Escape" then HideChapterNav
      else if key == "Enter" then EnterNextChapter
      else Ignore
    else if IsLeftKey(key) then Turn(LeftSide, dir)
    else if IsRightKey(key) then Turn(RightSide, dir)
    else if IsUpKey(key) then PreviousPage
    else if IsDownKey(key) then NextPage
    else if key == " " then ToggleSlider
    else if key == "Escape" then GoBack
    else Ignore
  }

  /** The key on the other side of the keyboard: ArrowLeft/ArrowRight, a/d and A/D swap. */
  function MirrorKey(key: string): string {
    if key == "ArrowLeft" then "ArrowRight" else if key == "ArrowRight" then "ArrowLeft"
    else if key == "a" then "d" else if key == "d" then "a"
    else if key == "A" then "D" else if key == "D" then "A"
    else key
  }

  /** Under right-to-left reading every key does what its mirror image does under
      left-to-right reading; up/down and the other keys ignore the direction. */
  lemma KeyMirror(key: string, slider: bool, chapterNav: bool)
    ensures KeyCommand(MirrorKey(key), RightToLeft, slider, chapterNav) == KeyCommand(key, LeftToRight, slider, chapterNav)
    ensures !IsLeftKey(key) && !IsRightKey(key) ==>
      KeyCommand(key, RightToLeft, slider, chapterNav) == KeyCommand(key, LeftToRight, slider, chapterNav)
  {
  }

  /** handleImageClick (static/script.js:244-271) with the click offset `x` and the container
      width as numbers: left of one third and right of two thirds turn the page, the middle
      third toggles the slider. `x < width / 3` is written `3 * x < width`. */
  function ClickCommand(x: int, width: nat, dir: Direction): (c: Command)
    ensures c == ToggleSlider <==> width <= 3 * x <= 2 * width
    ensures 3 * x < width ==> c == Turn(LeftSide, dir)
    ensures 3 * x > 2 * width ==> c == Turn(RightSide, dir)
  {
    if 3 * x < width then Turn(LeftSide, dir)
    else if 3 * x > 2 * width then Turn(RightSide, dir)
    else ToggleSlider
  }

  /** A click mirrored across the container under the other reading direction does the same. */
  lemma ClickMirror(x: int, width: nat)
    ensures ClickCommand(width - x, width, RightToLeft) == ClickCommand(x, width, LeftToRight)
  {
  }

  const SwipeThreshold: int := 50

  /** handleSwipe (static/script.js:852-881) in the reader view: ignored while an overlay is
      shown; a rightward swipe longer than the threshold acts like the left side, a leftward
      one like the right side, anything shorter does nothing. */
  function SwipeCommand(distance: int, dir: Direction, slider: bool, chapterNav: bool): (c: Command)
    ensures slider || chapterNav ==> c == Ignore
    ensures c != Ignore <==> !slider && !chapterNav && (distance > SwipeThreshold || distance < -SwipeThreshold)
    ensures c == Ignore || c == Turn(if distance > 0 then LeftSide else RightSide, dir)
  {
    if slider || chapterNav then Ignore
    else if distance > SwipeThreshold then Turn(LeftSide, dir)
    else if distance < -SwipeThreshold then Turn(RightSide, dir)
    else Ignore
  }

  /** A swipe in the opposite direction under the other reading direction does the same. */
  lemma SwipeMirror(distance: int, slider: bool, chapterNav: bool)
    ensures SwipeCommand(-distance, RightToLeft, slider, chapterNav) == SwipeCommand(distance, LeftToRight, slider, chapterNav)
  {
  }
}
