/** Which files of a chapter folder are pages, and in which order they are listed
    (app.py: is_image_file, get_manga_images). */
module Images {
  import opened Wrappers
  import opened Seqs
  import opened Text
  import opened Order
  import opened Sorting

  const SupportedFormats: set<string> := {".jpg", ".jpeg", ".png", ".gif", ".webp"}

  /** `s.rfind(c)`: the last position of `c`, or -1. */
  function RFind(s: string, c: char): (i: int)
    ensures -1 <= i < |s|
    ensures i >= 0 ==> s[i] == c
    ensures forall k :: i < k < |s| ==> s[k] != c
    decreases |s|
  {
    if s == [] then -1
    else if s[|s| - 1] == c then |s| - 1
    else RFind(s[..|s| - 1], c)
  }

  lemma {:induction false} RFindAt(s: string, c: char, i: nat)
    requires i < |s| && s[i] == c && forall k :: i < k < |s| ==> s[k] != c
    ensures RFind(s, c) == i
    decreases |s|
  {
    if i < |s| - 1 {
      var init := s[..|s| - 1];
      assert init[i] == s[i];
      RFindAt(init, c, i);
    }
  }

  /** `PurePath(name).suffix` for a bare file name: from the last dot on, provided that dot
      is neither the first nor the last character; otherwise empty. */
  function Suffix(name: string): (r: string)
    ensures r == "" || (2 <= |r| < |name| && r == name[|name| - |r|..] && r[0] == '.'
                        && forall k :: 0 < k < |r| ==> r[k] != '.')
    ensures r != "" <==> 0 < RFind(name, '.') < |name| - 1
    ensures r != "" ==> r == name[RFind(name, '.')..]
  {
    var i := RFind(name, '.');
    if 0 < i < |name| - 1 then name[i..] else ""
  }

  /** is_image_file: `Path(filename).suffix.lower() in SUPPORTED_FORMATS`. */
  predicate IsImageFile(name: string)
    ensures IsImageFile(name) ==> 2 <= |Suffix(name)| < |name|
  {
    Lower(Suffix(name)) in SupportedFormats
  }

  lemma LowerDot(c: char)
    ensures LowerChar(c) == '.' <==> c == '.'
  {
  }

  /** A supported extension that ends the name after at least one other character. */
  predicate EndsWithFormat(name: string, ext: string) {
    ext in SupportedFormats && |ext| < |name| && Lower(name[|name| - |ext|..]) == ext
  }

  lemma ImageFileHasFormat(name: string)
    requires IsImageFile(name)
    ensures EndsWithFormat(name, Lower(Suffix(name)))
  {
  }

  /** Every supported extension is a dot followed by dot-free lower-case letters. */
  lemma FormatShape(ext: string)
    requires ext in SupportedFormats
    ensures |ext| >= 2 && ext[0] == '.' && forall k :: 0 < k < |ext| ==> ext[k] != '.'
  {
  }

  /** A tail whose lower-cased form is an extension has its only dot in front. */
  lemma TailDots(tail: string, ext: string)
    requires |tail| == |ext| >= 2 && Lower(tail) == ext
    requires ext[0] == '.' && forall k :: 0 < k < |ext| ==> ext[k] != '.'
    ensures tail[0] == '.' && forall k :: 0 < k < |tail| ==> tail[k] != '.'
  {
    LowerDot(tail[0]);
    forall k | 0 < k < |tail| ensures tail[k] != '.' {
      assert LowerChar(tail[k]) == ext[k];
      LowerDot(tail[k]);
    }
  }

  lemma FormatMakesImageFile(name: string, ext: string)
    requires EndsWithFormat(name, ext)
    ensures IsImageFile(name)
  {
    var i := |name| - |ext|;
    var tail := name[i..];
    FormatShape(ext);
    TailDots(tail, ext);
    forall k | i < k < |name| ensures name[k] != '.' {
      assert name[k] == tail[k - i];
    }
    RFindAt(name, '.', i);
    assert Suffix(name) == tail;
  }

  /** A name is an image file exactly when, after at least one other character, it ends in
      one of the supported extensions, compared case-insensitively. */
  lemma ImageFileByExtension(name: string)
    ensures IsImageFile(name) <==> exists ext :: EndsWithFormat(name, ext)
  {
    if IsImageFile(name) {
      ImageFileHasFormat(name);
    }
    forall ext | EndsWithFormat(name, ext) ensures IsImageFile(name) {
      FormatMakesImageFile(name, ext);
    }
  }

  lemma UpperCaseExtensionIsImage()
    ensures IsImageFile("001.JPG")
  {
    assert Lower("001.JPG"[3..]) == ".jpg";
    FormatMakesImageFile("001.JPG", ".jpg");
  }

  /** A dot-file has no suffix, so it is not an image even when named like one. */
  lemma DotFileIsNotImage()
    ensures !IsImageFile(".png")
  {
    RFindAt(".png", '.', 0);
  }

  lemma OtherExtensionIsNotImage()
    ensures !IsImageFile("a.txt")
  {
    RFindAt("a.txt", '.', 1);
    assert Suffix("a.txt") == ".txt";
    assert Lower(".txt") == ".txt";
  }

  /** The stem `os.path.splitext(name)[0]` of a bare name: up to the last dot, unless only dots
      precede it (a leading-dot name has no extension). */
  function Stem(name: string): (r: string)
    ensures |r| <= |name| && r == name[..|r|]
    ensures r != name ==>
      && |r| < |name| && name[|r|] == '.' && (forall j :: |r| < j < |name| ==> name[j] != '.')
      && exists k :: 0 <= k < |r| && r[k] != '.'
    ensures r == name ==> forall i, k :: 0 <= k < i < |name| && name[i] == '.' ==> name[k] == '.'
  {
    var i := RFind(name, '.');
    if i > 0 && exists k :: 0 <= k < i && name[k] != '.' then
      var k :| 0 <= k < i && name[k] != '.';
      assert name[..i][k] == name[k];
      name[..i]
    else name
  }

  predicate IsDigit(c: char) { '0' <= c <= '9' }

  /** `''.join(filter(str.isdigit, s))`, with ASCII digits. */
  function Digits(s: string): (r: string)
    ensures r == Filter(s, IsDigit)
    ensures |r| <= |s| && forall k :: 0 <= k < |r| ==> IsDigit(r[k])
    decreases |s|
  {
    if s == [] then []
    else
      assert s == s[..|s| - 1] + [s[|s| - 1]];
      FilterSnoc(s[..|s| - 1], s[|s| - 1], IsDigit);
      Digits(s[..|s| - 1]) + (if IsDigit(s[|s| - 1]) then [s[|s| - 1]] else [])
  }

  function Pow10(n: nat): (p: nat)
    ensures p >= 1
  {
    if n == 0 then 1 else 10 * Pow10(n - 1)
  }

  /** `int(d)` for a string of decimal digits, with `int('0')` for the empty string. */
  function DecimalValue(d: string): (n: nat)
    requires forall k :: 0 <= k < |d| ==> IsDigit(d[k])
    ensures n < Pow10(|d|)
    decreases |d|
  {
    if d == [] then 0
    else
      assert IsDigit(d[|d| - 1]);
      10 * DecimalValue(d[..|d| - 1]) + (d[|d| - 1] as int - '0' as int)
  }

  /** The numeric sort key: every digit of the stem, read as one number; 0 without digits. */
  function NumericKey(name: string): (n: nat)
    ensures (forall k :: 0 <= k < |Stem(name)| ==> !IsDigit(Stem(name)[k])) ==> n == 0
  {
    DecimalValue(Digits(Stem(name)))
  }

  /** `int()` ignores leading zeros: "007" and "7" give the same key. */
  lemma {:induction false} LeadingZeroIgnored(d: string)
    requires forall k :: 0 <= k < |d| ==> IsDigit(d[k])
    ensures DecimalValue("0" + d) == DecimalValue(d)
    decreases |d|
  {
    if d != [] {
      var init := d[..|d| - 1];
      assert ("0" + d)[..|d|] == "0" + init;
      assert ("0" + d)[|d|] == d[|d| - 1];
      LeadingZeroIgnored(init);
    } else {
      assert ("0" + d)[..0] == [];
    }
  }

  predicate ByNumber(a: string, b: string) {
    NumericKey(a) <= NumericKey(b)
  }

  lemma NumberOrderTotal()
    ensures TotalPreorder(ByNumber)
  {
  }

  lemma StringOrderTotal()
    ensures TotalPreorder(LessEq)
  {
    forall a, b ensures LessEq(a, b) || LessEq(b, a) {
      LessEqTotal(a, b);
    }
    forall a, b, c | LessEq(a, b) && LessEq(b, c) ensures LessEq(a, c) {
      LessEqTransitive(a, b, c);
    }
  }

  /** The image files of a listing, in listing order. */
  function ImageNames(listing: seq<string>): (r: seq<string>)
    ensures forall k :: 0 <= k < |r| ==> IsImageFile(r[k])
    ensures forall x :: x in r <==> x in listing && IsImageFile(x)
  {
    Filter(listing, IsImageFile)
  }

  /** How get_manga_images orders the pages: by the numeric key (stably), or by plain string
      order when computing a key failed. */
  function OrderPages(names: seq<string>, keyFailed: bool): (r: seq<string>)
    ensures multiset(r) == multiset(names)
    ensures keyFailed ==> SortedBy(r, LessEq)
    ensures !keyFailed ==> SortedBy(r, ByNumber)
    ensures keyFailed ==> forall y :: Ties(r, y, LessEq) == Ties(names, y, LessEq)
    ensures !keyFailed ==> forall y :: Ties(r, y, ByNumber) == Ties(names, y, ByNumber)
  {
    if keyFailed then
      StringOrderTotal();
      SortByStable(names, LessEq);
      SortBy(names, LessEq)
    else
      NumberOrderTotal();
      SortByStable(names, ByNumber);
      SortBy(names, ByNumber)
  }

  /** The listing loop of get_manga_images: keeps the names `keep` accepts, in listing order
      (`keep` is `IsImageFile`). */
  method CollectMatching(names: seq<string>, keep: string -> bool) returns (kept: seq<string>)
    ensures kept == Filter(names, keep)
  {
    kept := [];
    for i := 0 to |names|
      invariant kept == Filter(names[..i], keep)
    {
      assert names[..i + 1] == names[..i] + [names[i]];
      FilterSnoc(names[..i], names[i], keep);
      if keep(names[i]) {
        kept := kept + [names[i]];
      }
    }
    assert names[..|names|] == names;
  }

  /** get_manga_images over the folder listing (`None` when the folder does not exist).
      `keyFailed` stands for the numeric conversion raising, on which the code falls back to
      a string sort. */
  method GetMangaImages(listing: Option<seq<string>>, keyFailed: bool) returns (images: seq<string>)
    ensures listing.None? ==> images == []
    ensures listing.Some? ==> images == OrderPages(ImageNames(listing.value), keyFailed)
  {
    if listing.None? {
      return [];
    }
    images := CollectMatching(listing.value, IsImageFile);
    images := OrderPages(images, keyFailed);
  }

  lemma PageKeyTwo()
    ensures NumericKey("2.jpg") == 2
  {
    RFindAt("2.jpg", '.', 1);
    assert "2.jpg"[0] != '.';
    assert Stem("2.jpg") == "2";
    assert "2"[..0] == "";
    assert Digits("2") == "2";
  }

  lemma PageKeyTen()
    ensures NumericKey("10.jpg") == 10
  {
    RFindAt("10.jpg", '.', 2);
    assert "10.jpg"[0] != '.';
    assert Stem("10.jpg") == "10";
    assert "10"[..1] == "1" && "1"[..0] == "";
    assert Digits("1") == "1";
    assert Digits("10") == "10";
    assert DecimalValue("1") == 1;
    assert DecimalValue("10") == 10;
  }

  /** Numbered pages sort by their number ... */
  lemma PageTenAfterPageTwo()
    ensures OrderPages(["10.jpg", "2.jpg"], false) == ["2.jpg", "10.jpg"]
  {
    PageKeyTwo();
    PageKeyTen();
    NumberOrderTotal();
    SortTwo("10.jpg", "2.jpg", ByNumber);
  }

  /** ... where string order, the fallback when a key fails, puts page 10 first. */
  lemma PageTenBeforePageTwoAsText()
    ensures OrderPages(["10.jpg", "2.jpg"], true) == ["10.jpg", "2.jpg"]
  {
    StringOrderTotal();
    assert Less("10.jpg", "2.jpg");
    SortTwo("10.jpg", "2.jpg", LessEq);
  }

  /** A one-letter page name has no digits, so its key is 0. */
  lemma LetterPageKey(name: string)
    requires |name| == 5 && 'a' <= name[0] <= 'z' && name[1..] == ".jpg"
    ensures NumericKey(name) == 0
  {
    RFindAt(name, '.', 1);
    assert name[0] != '.';
    assert Stem(name) == name[..1];
  }

  /** Pages whose keys tie keep their listing order: "b.jpg" and "a.jpg" both have key 0. */
  lemma TiedPagesKeepListingOrder()
    ensures OrderPages(["b.jpg", "a.jpg"], false) == ["b.jpg", "a.jpg"]
  {
    LetterPageKey("b.jpg");
    LetterPageKey("a.jpg");
    NumberOrderTotal();
    SortTwo("b.jpg", "a.jpg", ByNumber);
  }
}
