/** String operations the client and the server rely on: splitting and joining paths,
    JavaScript's `trim`, and ASCII lower-casing. */
module Text {
  import opened Seqs

  predicate NoSeparator(p: string, seps: set<char>) {
    forall k :: 0 <= k < |p| ==> p[k] !in seps
  }

  /** `s.split(sep)` generalised to a set of separator characters: the maximal runs of
      non-separators, with an empty part between adjacent separators and at either end. */
  function Split(s: string, seps: set<char>): (parts: seq<string>)
    ensures |parts| >= 1
    ensures forall i :: 0 <= i < |parts| ==> NoSeparator(parts[i], seps)
    decreases |s|
  {
    if s == [] then [""]
    else
      var init := Split(s[..|s| - 1], seps);
      var c := s[|s| - 1];
      if c in seps then init + [""]
      else init[..|init| - 1] + [init[|init| - 1] + [c]]
  }

  /** A string splits into one part exactly when it holds no separator. */
  lemma {:induction false} SplitSingle(s: string, seps: set<char>)
    ensures |Split(s, seps)| == 1 <==> NoSeparator(s, seps)
    decreases |s|
  {
    if s != [] {
      var init := s[..|s| - 1];
      SplitSingle(init, seps);
      assert NoSeparator(s, seps) <==> NoSeparator(init, seps) && s[|s| - 1] !in seps by {
        if NoSeparator(init, seps) && s[|s| - 1] !in seps {
          forall k | 0 <= k < |s| ensures s[k] !in seps {
            if k < |s| - 1 { assert s[k] == init[k]; }
          }
        }
        if NoSeparator(s, seps) {
          forall k | 0 <= k < |init| ensures init[k] !in seps {
            assert init[k] == s[k];
          }
        }
      }
    }
  }

  /** A string without separators is a single part. */
  lemma {:induction false} SplitPlain(s: string, seps: set<char>)
    requires NoSeparator(s, seps)
    ensures Split(s, seps) == [s]
    decreases |s|
  {
    if s != [] {
      var init := s[..|s| - 1];
      assert NoSeparator(init, seps) by {
        forall k | 0 <= k < |init| ensures init[k] !in seps {
          assert init[k] == s[k];
        }
      }
      SplitPlain(init, seps);
      assert s[|s| - 1] !in seps;
      assert init + [s[|s| - 1]] == s;
    }
  }

  /** After a separator, the last part is everything that follows it. */
  lemma {:induction false} SplitLastAfterSeparator(d: string, name: string, seps: set<char>)
    requires |d| > 0 && d[|d| - 1] in seps && NoSeparator(name, seps)
    ensures var parts := Split(d + name, seps); parts[|parts| - 1] == name
    decreases |name|
  {
    if name == [] {
      assert d + name == d;
      assert d[..|d| - 1] + [d[|d| - 1]] == d;
    } else {
      var init := name[..|name| - 1];
      assert NoSeparator(init, seps) by {
        forall k | 0 <= k < |init| ensures init[k] !in seps {
          assert init[k] == name[k];
        }
      }
      SplitLastAfterSeparator(d, init, seps);
      assert (d + name)[..|d + name| - 1] == d + init;
      assert (d + name)[|d + name| - 1] == name[|name| - 1] && name[|name| - 1] !in seps;
      assert init + [name[|name| - 1]] == name;
    }
  }

  /** The separator characters of `s`, in order. */
  function SeparatorsIn(s: string, seps: set<char>): (r: string)
    ensures forall k :: 0 <= k < |r| ==> r[k] in seps
    decreases |s|
  {
    if s == [] then []
    else SeparatorsIn(s[..|s| - 1], seps) + (if s[|s| - 1] in seps then [s[|s| - 1]] else [])
  }

  /** `parts[0] + gaps[0] + parts[1] + ... + gaps[n - 1] + parts[n]`. */
  function Interleave(parts: seq<string>, gaps: string): string
    requires |parts| == |gaps| + 1
    decreases |gaps|
  {
    if gaps == [] then parts[0]
    else Interleave(parts[..|parts| - 1], gaps[..|gaps| - 1]) + [gaps[|gaps| - 1]] + parts[|parts| - 1]
  }

  lemma InterleaveExtendLast(xs: seq<string>, gaps: string, t: string)
    requires |xs| == |gaps| + 1
    ensures Interleave(xs[..|xs| - 1] + [xs[|xs| - 1] + t], gaps) == Interleave(xs, gaps) + t
  {
    var ys := xs[..|xs| - 1] + [xs[|xs| - 1] + t];
    if gaps != [] {
      assert ys[..|ys| - 1] == xs[..|xs| - 1];
    }
  }

  /** Splitting on several separators loses nothing: putting the separators of `s` back
      between the parts, in order, gives back `s`. */
  lemma {:induction false} SplitRoundTrip(s: string, seps: set<char>)
    ensures |Split(s, seps)| == |SeparatorsIn(s, seps)| + 1
    ensures Interleave(Split(s, seps), SeparatorsIn(s, seps)) == s
    decreases |s|
  {
    if s != [] {
      var init := Split(s[..|s| - 1], seps);
      var gaps := SeparatorsIn(s[..|s| - 1], seps);
      SplitRoundTrip(s[..|s| - 1], seps);
      var c := s[|s| - 1];
      assert s == s[..|s| - 1] + [c];
      if c in seps {
        assert Split(s, seps) == init + [""] && SeparatorsIn(s, seps) == gaps + [c];
        assert (init + [""])[..|init|] == init;
        assert (gaps + [c])[..|gaps|] == gaps;
        assert Interleave(init + [""], gaps + [c]) == Interleave(init, gaps) + [c] + "";
      } else {
        assert Split(s, seps) == init[..|init| - 1] + [init[|init| - 1] + [c]];
        assert SeparatorsIn(s, seps) == gaps;
        InterleaveExtendLast(init, gaps, [c]);
      }
    }
  }

  /** `sep.join(parts)`. */
  function JoinWith(parts: seq<string>, sep: char): string
    decreases |parts|
  {
    if |parts| == 0 then ""
    else if |parts| == 1 then parts[0]
    else JoinWith(parts[..|parts| - 1], sep) + [sep] + parts[|parts| - 1]
  }

  lemma JoinExtendLast(xs: seq<string>, t: string, sep: char)
    requires |xs| >= 1
    ensures JoinWith(xs[..|xs| - 1] + [xs[|xs| - 1] + t], sep) == JoinWith(xs, sep) + t
  {
    var ys := xs[..|xs| - 1] + [xs[|xs| - 1] + t];
    if |xs| > 1 {
      assert ys[..|ys| - 1] == xs[..|xs| - 1];
    }
  }

  /** Joining the parts of a split with the same single separator gives back the string. */
  lemma {:induction false} SplitJoin(s: string, sep: char)
    ensures JoinWith(Split(s, {sep}), sep) == s
    decreases |s|
  {
    if s != [] {
      var init := Split(s[..|s| - 1], {sep});
      SplitJoin(s[..|s| - 1], sep);
      var c := s[|s| - 1];
      if c == sep {
        assert (init + [""])[..|init|] == init;
      } else {
        JoinExtendLast(init, [c], sep);
      }
      assert s == s[..|s| - 1] + [c];
    }
  }

  /** JavaScript truthiness of a string. */
  predicate IsTruthy(p: string) { p != "" }

  /** The parts that are not empty, in order (the `if (part)` filter of a `forEach`). */
  function NonEmpty(parts: seq<string>): (r: seq<string>)
    ensures r == Filter(parts, IsTruthy)
    ensures |r| <= |parts|
    ensures forall i :: 0 <= i < |r| ==> r[i] != ""
    decreases |parts|
  {
    if parts == [] then []
    else
      assert parts == parts[..|parts| - 1] + [parts[|parts| - 1]];
      FilterSnoc(parts[..|parts| - 1], parts[|parts| - 1], IsTruthy);
      NonEmpty(parts[..|parts| - 1]) + (if parts[|parts| - 1] != "" then [parts[|parts| - 1]] else [])
  }

  /** Characters removed by JavaScript's `String.prototype.trim`: WhiteSpace and
      LineTerminator of section 12.2 and 12.3 of ECMA-262. */
  predicate IsJsSpace(c: char) {
    c == '\t' || c == '\n' || c == '\U{B}' || c == '\U{C}' || c == '\r' || c == ' '
    || c == '\U{A0}' || c == '\U{1680}' || ('\U{2000}' <= c <= '\U{200A}')
    || c == '\U{2028}' || c == '\U{2029}' || c == '\U{202F}' || c == '\U{205F}'
    || c == '\U{3000}' || c == '\U{FEFF}'
  }

  predicate AllSpace(s: string) {
    forall k :: 0 <= k < |s| ==> IsJsSpace(s[k])
  }

  function TrimStart(s: string): (r: string)
    ensures |r| <= |s| && r == s[|s| - |r|..]
    ensures AllSpace(s[..|s| - |r|])
    ensures r != [] ==> !IsJsSpace(r[0])
    decreases |s|
  {
    if s != [] && IsJsSpace(s[0]) then
      var r := TrimStart(s[1..]);
      assert s[..|s| - |r|] == [s[0]] + s[1..][..|s[1..]| - |r|];
      r
    else s
  }

  function TrimEnd(s: string): (r: string)
    ensures |r| <= |s| && r == s[..|r|]
    ensures AllSpace(s[|r|..])
    ensures r != [] ==> !IsJsSpace(r[|r| - 1])
    decreases |s|
  {
    if s != [] && IsJsSpace(s[|s| - 1]) then
      var r := TrimEnd(s[..|s| - 1]);
      assert s[|r|..] == s[..|s| - 1][|r|..] + [s[|s| - 1]];
      r
    else s
  }

  /** The white space before and after a position covers the whole string. */
  lemma AllSpaceJoin(s: string, i: nat)
    requires i <= |s| && AllSpace(s[..i]) && AllSpace(s[i..])
    ensures AllSpace(s)
  {
    forall k | 0 <= k < |s| ensures IsJsSpace(s[k]) {
      if k < i {
        assert s[k] == s[..i][k];
      } else {
        assert s[k] == s[i..][k - i];
      }
    }
  }

  lemma SliceOfSlice(s: string, i: nat, j: nat)
    requires i <= j <= |s|
    ensures s[i..][..j - i] == s[i..j] && s[i..][j - i..] == s[j..]
  {
  }

  lemma TrimBounds(s: string)
    ensures var r := TrimEnd(TrimStart(s));
      exists i, j :: 0 <= i <= j <= |s| && r == s[i..j] && AllSpace(s[..i]) && AllSpace(s[j..])
  {
    var a := TrimStart(s);
    var r := TrimEnd(a);
    var i := |s| - |a|;
    var j := i + |r|;
    SliceOfSlice(s, i, j);
    assert r == s[i..j] && AllSpace(s[..i]) && AllSpace(s[j..]);
  }

  lemma TrimEmpty(s: string)
    ensures TrimEnd(TrimStart(s)) == [] <==> AllSpace(s)
  {
    var a := TrimStart(s);
    var r := TrimEnd(a);
    var i := |s| - |a|;
    if r == [] {
      assert AllSpace(s[i..]) by {
        assert s[i..] == a[|r|..];
      }
      AllSpaceJoin(s, i);
    } else {
      assert r[0] == s[i];
    }
  }

  /** `s.trim()`: the text between the leading and the trailing white space; it is empty
      exactly when `s` is nothing but white space. */
  function Trim(s: string): (r: string)
    ensures exists i, j :: 0 <= i <= j <= |s| && r == s[i..j] && AllSpace(s[..i]) && AllSpace(s[j..])
    ensures r != [] ==> !IsJsSpace(r[0]) && !IsJsSpace(r[|r| - 1])
    ensures r == [] <==> AllSpace(s)
  {
    TrimBounds(s);
    TrimEmpty(s);
    TrimEnd(TrimStart(s))
  }

  function LowerChar(c: char): char {
    if 'A' <= c <= 'Z' then (c as int + 32) as char else c
  }

  /** `s.lower()` restricted to ASCII letters. */
  function Lower(s: string): (r: string)
    ensures |r| == |s| && forall k :: 0 <= k < |s| ==> r[k] == LowerChar(s[k])
  {
    seq(|s|, k requires 0 <= k < |s| => LowerChar(s[k]))
  }
}
