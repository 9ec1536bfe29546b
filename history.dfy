/** The reading history kept by the server (app.py: add_to_history, api_delete_history). The
    stored list is an input and the list to be stored the result; reading and writing the
    file is not part of the model. */
module History {
  import opened Wrappers
  import opened Seqs

  /** `history[:50]`. */
  const MaxHistory: nat := 50

  /** One saved position. The `timestamp` and the rounded `progress_percent` are not kept. */
  datatype Record = Record(mangaPath: string, chapterName: string, imageIndex: int, totalImages: int)

  datatype HistoryError =
    | DivisionByZero   // `total_images == 0` raises while computing the percentage
    | NotFound         // the index given to DELETE is out of range

  predicate SameChapter(h: Record, mangaPath: string, chapterName: string) {
    h.mangaPath == mangaPath && h.chapterName == chapterName
  }

  /** No two records are about the same chapter. */
  predicate DistinctChapters(history: seq<Record>) {
    forall i, j :: 0 <= i < j < |history| ==> !SameChapter(history[j], history[i].mangaPath, history[i].chapterName)
  }

  /** The comprehension dropping the old records of a chapter. */
  function Without(history: seq<Record>, mangaPath: string, chapterName: string): (r: seq<Record>)
    ensures forall i :: 0 <= i < |r| ==> !SameChapter(r[i], mangaPath, chapterName)
    ensures forall h :: h in r <==> h in history && !SameChapter(h, mangaPath, chapterName)
    decreases |history|
  {
    if history == [] then []
    else (if SameChapter(history[0], mangaPath, chapterName) then [] else [history[0]])
         + Without(history[1..], mangaPath, chapterName)
  }

  /** add_to_history: drop the chapter's old records, put the new one first, keep the newest
      fifty. A zero page count raises before anything is stored. */
  function AddToHistory(history: seq<Record>, mangaPath: string, chapterName: string, imageIndex: int, totalImages: int)
    : (r: Result<seq<Record>, HistoryError>)
    ensures r.Err? <==> totalImages == 0
    ensures r.Ok? ==>
      var w := Without(history, mangaPath, chapterName);
      && |r.value| == Min(|w| + 1, MaxHistory)
      && r.value[0] == Record(mangaPath, chapterName, imageIndex, totalImages)
      && r.value[1..] == w[..|r.value| - 1]
      && forall i :: 1 <= i < |r.value| ==> !SameChapter(r.value[i], mangaPath, chapterName)
  {
    if totalImages == 0 then Err(DivisionByZero)
    else
      var w := Without(history, mangaPath, chapterName);
      var inserted := [Record(mangaPath, chapterName, imageIndex, totalImages)] + w;
      var kept := if |inserted| > MaxHistory then inserted[..MaxHistory] else inserted;
      assert kept[1..] == w[..|kept| - 1];
      Ok(kept)
  }

  lemma {:induction false} WithoutIsSubsequence(history: seq<Record>, mangaPath: string, chapterName: string)
    ensures Subsequence(Without(history, mangaPath, chapterName), history)
    decreases |history|
  {
    if history != [] {
      WithoutIsSubsequence(history[1..], mangaPath, chapterName);
      var w := Without(history, mangaPath, chapterName);
      if !SameChapter(history[0], mangaPath, chapterName) {
        assert w[0] == history[0];
        assert w[1..] == Without(history[1..], mangaPath, chapterName);
      } else {
        assert w == Without(history[1..], mangaPath, chapterName);
      }
    }
  }

  lemma {:induction false} WithoutOfOthers(history: seq<Record>, mangaPath: string, chapterName: string)
    requires forall i :: 0 <= i < |history| ==> !SameChapter(history[i], mangaPath, chapterName)
    ensures Without(history, mangaPath, chapterName) == history
    decreases |history|
  {
    if history != [] {
      var rest := history[1..];
      assert forall i :: 0 <= i < |rest| ==> !SameChapter(rest[i], mangaPath, chapterName) by {
        forall i | 0 <= i < |rest| ensures !SameChapter(rest[i], mangaPath, chapterName) {
          assert rest[i] == history[i + 1];
        }
      }
      WithoutOfOthers(rest, mangaPath, chapterName);
      assert !SameChapter(history[0], mangaPath, chapterName);
      assert Without(history, mangaPath, chapterName) == [history[0]] + Without(rest, mangaPath, chapterName);
      assert history == [history[0]] + rest;
    }
  }

  lemma {:induction false} WithoutDistinct(history: seq<Record>, mangaPath: string, chapterName: string)
    requires DistinctChapters(history)
    ensures DistinctChapters(Without(history, mangaPath, chapterName))
    decreases |history|
  {
    if history != [] {
      var rest := history[1..];
      assert DistinctChapters(rest) by {
        forall i, j | 0 <= i < j < |rest|
          ensures !SameChapter(rest[j], rest[i].mangaPath, rest[i].chapterName)
        {
          assert rest[i] == history[i + 1] && rest[j] == history[j + 1];
        }
      }
      WithoutDistinct(rest, mangaPath, chapterName);
      var w := Without(rest, mangaPath, chapterName);
      var h := history[0];
      forall x | x in w ensures !SameChapter(x, h.mangaPath, h.chapterName) {
        var k :| 0 <= k < |rest| && rest[k] == x;
        assert history[k + 1] == x;
      }
    }
  }

  lemma PrefixDistinct(history: seq<Record>, n: nat)
    requires DistinctChapters(history) && n <= |history|
    ensures DistinctChapters(history[..n])
  {
    var p := history[..n];
    forall i, j | 0 <= i < j < |p| ensures !SameChapter(p[j], p[i].mangaPath, p[i].chapterName) {
      assert p[i] == history[i] && p[j] == history[j];
    }
  }

  /** The records other than the new one keep their relative order from the stored list. */
  lemma AddKeepsOrder(history: seq<Record>, mangaPath: string, chapterName: string, imageIndex: int, totalImages: int)
    requires totalImages != 0
    ensures Subsequence(AddToHistory(history, mangaPath, chapterName, imageIndex, totalImages).value[1..], history)
  {
    var r := AddToHistory(history, mangaPath, chapterName, imageIndex, totalImages).value;
    WithoutIsSubsequence(history, mangaPath, chapterName);
    SubsequencePrefix(Without(history, mangaPath, chapterName), history, |r| - 1);
  }

  /** A history without two records of one chapter stays so. */
  lemma AddKeepsDistinct(history: seq<Record>, mangaPath: string, chapterName: string, imageIndex: int, totalImages: int)
    requires totalImages != 0 && DistinctChapters(history)
    ensures DistinctChapters(AddToHistory(history, mangaPath, chapterName, imageIndex, totalImages).value)
  {
    var r := AddToHistory(history, mangaPath, chapterName, imageIndex, totalImages).value;
    var w := Without(history, mangaPath, chapterName);
    WithoutDistinct(history, mangaPath, chapterName);
    PrefixDistinct(w, |r| - 1);
    forall i, j | 0 <= i < j < |r| ensures !SameChapter(r[j], r[i].mangaPath, r[i].chapterName) {
      if i > 0 {
        assert r[i] == r[1..][i - 1] && r[j] == r[1..][j - 1];
      }
    }
  }

  /** Saving the same position twice stores the same list as saving it once. */
  lemma AddIdempotent(history: seq<Record>, mangaPath: string, chapterName: string, imageIndex: int, totalImages: int)
    requires totalImages != 0
    ensures var once := AddToHistory(history, mangaPath, chapterName, imageIndex, totalImages).value;
      AddToHistory(once, mangaPath, chapterName, imageIndex, totalImages) == Ok(once)
  {
    var once := AddToHistory(history, mangaPath, chapterName, imageIndex, totalImages).value;
    var rest := once[1..];
    WithoutOfOthers(rest, mangaPath, chapterName);
    assert once == [once[0]] + rest;
    assert Without(once, mangaPath, chapterName) == rest;
  }

  /** api_delete_history: drop the record at `index`, or report that there is none. */
  function DeleteHistory(history: seq<Record>, index: int): (r: Result<seq<Record>, HistoryError>)
    ensures r.Err? <==> !(0 <= index < |history|)
    ensures r.Ok? ==>
      && |r.value| == |history| - 1
      && (forall k :: 0 <= k < index ==> r.value[k] == history[k])
      && (forall k :: index <= k < |r.value| ==> r.value[k] == history[k + 1])
  {
    if 0 <= index < |history| then Ok(history[..index] + history[index + 1..])
    else Err(NotFound)
  }

  /** Putting the deleted record back at its index restores the list. */
  lemma DeleteThenReinsert(history: seq<Record>, index: int)
    requires 0 <= index < |history|
    ensures var r := DeleteHistory(history, index).value;
      r[..index] + [history[index]] + r[index..] == history
  {
    var r := DeleteHistory(history, index).value;
    assert r[..index] == history[..index];
    assert r[index..] == history[index + 1..];
    assert history == history[..index] + [history[index]] + history[index + 1..];
  }

  /** Deleting keeps the other records in order and introduces no duplicate chapter. */
  lemma DeleteKeepsDistinct(history: seq<Record>, index: int)
    requires 0 <= index < |history| && DistinctChapters(history)
    ensures DistinctChapters(DeleteHistory(history, index).value)
  {
    var r := DeleteHistory(history, index).value;
    forall i, j | 0 <= i < j < |r| ensures !SameChapter(r[j], r[i].mangaPath, r[i].chapterName) {
      var i' := if i < index then i else i + 1;
      var j' := if j < index then j else j + 1;
      assert r[i] == history[i'] && r[j] == history[j'];
    }
  }
}
