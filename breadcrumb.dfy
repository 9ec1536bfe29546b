/** updateBreadcrumb (static/script.js:280-304): the trail shown above the folder list. */
module Breadcrumb {
  import opened Text

  /** One entry of the trail: the home link (to the root), a folder linking to the path that
      leads to it, or the current folder, shown without a link. */
  datatype Crumb = Home | Folder(name: string, target: string) | Current(name: string)

  function NameOf(c: Crumb): string {
    match c
    case Home => ""
    case Folder(n, _) => n
    case Current(n) => n
  }

  /** `currentPath.split(/[/\\]/)`. */
  const PathSeparators: set<char> := {'/', '\\'}

  lemma NonEmptyStep(parts: seq<string>, i: nat)
    requires i < |parts|
    ensures NonEmpty(parts[..i + 1]) == NonEmpty(parts[..i]) + (if parts[i] != "" then [parts[i]] else [])
  {
    assert parts[..i + 1][..i] == parts[..i];
  }

  lemma JoinAppend(xs: seq<string>, p: string)
    requires forall k :: 0 <= k < |xs| ==> xs[k] != ""
    ensures JoinWith(xs + [p], '/') == if xs == [] then p else JoinWith(xs, '/') + "/" + p
    ensures xs != [] ==> JoinWith(xs, '/') != ""
  {
    assert (xs + [p])[..|xs|] == xs;
    if |xs| > 1 {
      assert |JoinWith(xs, '/')| >= |xs[|xs| - 1]|;
    }
  }

  /** The entries after the home link carry `names` in order, and each folder entry links
      to the names up to its own. */
  ghost predicate Labelled(crumbs: seq<Crumb>, names: seq<string>) {
    && |crumbs| == |names| + 1 && crumbs[0] == Home
    && forall k :: 1 <= k < |crumbs| ==>
         && !crumbs[k].Home? && NameOf(crumbs[k]) == names[k - 1]
         && (crumbs[k].Folder? ==> crumbs[k].target == JoinWith(names[..k], '/'))
  }

  /** Exactly the entry at `pos` (or none, for a `pos` out of range) is shown as current. */
  ghost predicate CurrentOnlyAt(crumbs: seq<Crumb>, pos: int) {
    forall k :: 1 <= k < |crumbs| ==> (crumbs[k].Current? <==> k == pos)
  }

  lemma LabelledExtend(crumbs: seq<Crumb>, names: seq<string>, c: Crumb)
    requires Labelled(crumbs, names) && !c.Home?
    requires c.Folder? ==> c.target == JoinWith(names + [NameOf(c)], '/')
    ensures Labelled(crumbs + [c], names + [NameOf(c)])
  {
    var crumbs', names' := crumbs + [c], names + [NameOf(c)];
    forall k | 1 <= k < |crumbs'|
      ensures !crumbs'[k].Home? && NameOf(crumbs'[k]) == names'[k - 1]
      ensures crumbs'[k].Folder? ==> crumbs'[k].target == JoinWith(names'[..k], '/')
    {
      if k < |crumbs| {
        assert crumbs'[k] == crumbs[k];
        assert names'[..k] == names[..k];
      } else {
        assert names'[..k] == names';
      }
    }
  }

  lemma CurrentExtend(crumbs: seq<Crumb>, c: Crumb)
    requires CurrentOnlyAt(crumbs, -1)
    ensures CurrentOnlyAt(crumbs + [c], if c.Current? then |crumbs| else -1)
  {
    forall k | 1 <= k < |crumbs| + 1
      ensures ((crumbs + [c])[k].Current? <==> k == if c.Current? then |crumbs| else -1)
    {
      if k < |crumbs| {
        assert (crumbs + [c])[k] == crumbs[k];
      }
    }
  }

  /** Builds the trail for `currentPath`. It starts with the home link and has one entry per
      non-empty path component, in order; every folder entry links to the components up to
      and including its own, joined with `/` (a backslash in the input becomes `/`); only
      the final component is shown as current, and only when the path does not end with a
      separator. */
  method BuildBreadcrumb(currentPath: string) returns (crumbs: seq<Crumb>)
    ensures |crumbs| >= 1 && crumbs[0] == Home
    ensures currentPath == "" ==> crumbs == [Home]
    ensures Labelled(crumbs, NonEmpty(Split(currentPath, PathSeparators)))
    ensures var parts := Split(currentPath, PathSeparators);
      CurrentOnlyAt(crumbs, if parts[|parts| - 1] != "" then |crumbs| - 1 else -1)
  {
    if currentPath == "" {
      return [Home];
    }
    crumbs := TrailOf(Split(currentPath, PathSeparators));
  }

  /** The crumb the `forEach` adds for the non-empty component at position `i`. */
  function CrumbAt(parts: seq<string>, i: nat, fullPath: string): Crumb
    requires i < |parts|
  {
    if i == |parts| - 1 then Current(parts[i]) else Folder(parts[i], fullPath)
  }

  /** An iteration over an empty component keeps the loop's invariant unchanged. */
  lemma SkipStep(parts: seq<string>, i: nat, names: seq<string>, crumbs: seq<Crumb>)
    requires i < |parts| && parts[i] == ""
    requires names == NonEmpty(parts[..i]) && CurrentOnlyAt(crumbs, -1)
    ensures NonEmpty(parts[..i + 1]) == names
    ensures CurrentOnlyAt(crumbs, if i + 1 == |parts| && parts[|parts| - 1] != "" then |crumbs| - 1 else -1)
  {
    NonEmptyStep(parts, i);
  }

  /** An iteration over a non-empty component adds its crumb and keeps the loop's invariant. */
  lemma AddStep(parts: seq<string>, i: nat, names: seq<string>, fullPath: string, crumbs: seq<Crumb>)
    requires i < |parts| && parts[i] != ""
    requires names == NonEmpty(parts[..i]) && fullPath == JoinWith(names, '/')
    requires Labelled(crumbs, names) && CurrentOnlyAt(crumbs, -1)
    ensures var fp := fullPath + (if fullPath != "" then "/" else "") + parts[i];
      var names' := names + [parts[i]];
      var crumbs' := crumbs + [CrumbAt(parts, i, fp)];
      && NonEmpty(parts[..i + 1]) == names' && fp == JoinWith(names', '/')
      && Labelled(crumbs', names')
      && CurrentOnlyAt(crumbs', if i + 1 == |parts| && parts[|parts| - 1] != "" then |crumbs'| - 1 else -1)
  {
    var fp := fullPath + (if fullPath != "" then "/" else "") + parts[i];
    var c := CrumbAt(parts, i, fp);
    assert NonEmpty(parts[..i + 1]) == names + [parts[i]] by {
      NonEmptyStep(parts, i);
    }
    assert fp == JoinWith(names + [parts[i]], '/') by {
      JoinAppend(names, parts[i]);
    }
    assert Labelled(crumbs + [c], names + [parts[i]]) by {
      LabelledExtend(crumbs, names, c);
    }
    assert CurrentOnlyAt(crumbs + [c], if i + 1 == |parts| then |crumbs| else -1) by {
      CurrentExtend(crumbs, c);
    }
  }

  /** One iteration of the `forEach` keeps the loop's invariant. */
  lemma TrailStep(parts: seq<string>, i: nat, names: seq<string>, fullPath: string, crumbs: seq<Crumb>)
    requires i < |parts|
    requires names == NonEmpty(parts[..i]) && fullPath == JoinWith(names, '/')
    requires Labelled(crumbs, names) && CurrentOnlyAt(crumbs, -1)
    ensures parts[i] == "" ==>
      (NonEmpty(parts[..i + 1]) == names &&
       CurrentOnlyAt(crumbs, if i + 1 == |parts| && parts[|parts| - 1] != "" then |crumbs| - 1 else -1))
    ensures parts[i] != "" ==>
      var fp := fullPath + (if fullPath != "" then "/" else "") + parts[i];
      var names' := names + [parts[i]];
      var crumbs' := crumbs + [CrumbAt(parts, i, fp)];
      && NonEmpty(parts[..i + 1]) == names' && fp == JoinWith(names', '/')
      && Labelled(crumbs', names')
      && CurrentOnlyAt(crumbs', if i + 1 == |parts| && parts[|parts| - 1] != "" then |crumbs'| - 1 else -1)
  {
    if parts[i] == "" {
      SkipStep(parts, i, names, crumbs);
    } else {
      AddStep(parts, i, names, fullPath, crumbs);
    }
  }

  /** The `forEach` over the path components. */
  method TrailOf(parts: seq<string>) returns (crumbs: seq<Crumb>)
    requires |parts| >= 1
    ensures Labelled(crumbs, NonEmpty(parts))
    ensures CurrentOnlyAt(crumbs, if parts[|parts| - 1] != "" then |crumbs| - 1 else -1)
  {
    var fullPath := "";
    crumbs := [Home];
    ghost var names: seq<string> := [];
    var i := 0;
    while i < |parts|
      invariant 0 <= i <= |parts|
      invariant names == NonEmpty(parts[..i])
      invariant fullPath == JoinWith(names, '/')
      invariant Labelled(crumbs, names)
      invariant CurrentOnlyAt(crumbs, if i == |parts| && parts[|parts| - 1] != "" then |crumbs| - 1 else -1)
    {
      var part := parts[i];
      TrailStep(parts, i, names, fullPath, crumbs);
      if part != "" {
        fullPath := fullPath + (if fullPath != "" then "/" else "") + part;
        crumbs := crumbs + [CrumbAt(parts, i, fullPath)];
        names := names + [part];
      }
      i := i + 1;
    }
    assert parts[..|parts|] == parts;
  }
}
