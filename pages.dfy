/** Page identification from the location's path: the current page used for
    active-link marking, the homepage test that gates the stat counters, and
    the marking loop over the navigation links. */
module Pages {

  /** The page identifier used when the path ends in a slash. */
  const DefaultPage := "index.html"

  /** `s` ends with `suffix`. */
  predicate EndsWith(s: string, suffix: string) {
    |suffix| <= |s| && s[|s| - |suffix|..] == suffix
  }

  /** String `split(sep)`: the pieces between separators, one more piece than
      there are separators, none containing the separator. */
  function Split(s: string, sep: char): (pieces: seq<string>)
    ensures |pieces| > 0
    ensures forall k :: 0 <= k < |pieces| ==> sep !in pieces[k]
    decreases |s|
  {
    if s == [] then [[]]
    else
      var init := Split(s[..|s| - 1], sep);
      var c := s[|s| - 1];
      if c == sep then init + [[]]
      else init[..|init| - 1] + [init[|init| - 1] + [c]]
  }

  /** `join(sep)`, the inverse of `Split`. */
  function Join(pieces: seq<string>, sep: char): string
    requires |pieces| > 0
    decreases |pieces|
  {
    if |pieces| == 1 then pieces[0]
    else Join(pieces[..|pieces| - 1], sep) + [sep] + pieces[|pieces| - 1]
  }

  /** Joining the pieces of a split gives back the string. */
  lemma {:induction false} JoinSplit(s: string, sep: char)
    ensures Join(Split(s, sep), sep) == s
    decreases |s|
  {
    if s != [] {
      var init := Split(s[..|s| - 1], sep);
      var c := s[|s| - 1];
      JoinSplit(s[..|s| - 1], sep);
      if c == sep {
        assert (init + [[]])[..|init|] == init;
      } else {
        var p := init[..|init| - 1] + [init[|init| - 1] + [c]];
        if |init| > 1 {
          assert p[..|p| - 1] == init[..|init| - 1];
          assert Join(init, sep) == Join(init[..|init| - 1], sep) + [sep] + init[|init| - 1];
          assert Join(p, sep) == Join(init[..|init| - 1], sep) + [sep] + (init[|init| - 1] + [c]);
        }
        assert Join(p, sep) == Join(init, sep) + [c];
        assert s == s[..|s| - 1] + [c];
      }
    }
  }

  /** A string without the separator splits into itself alone. */
  lemma {:induction false} SplitWithoutSeparator(s: string, sep: char)
    requires sep !in s
    ensures Split(s, sep) == [s]
    decreases |s|
  {
    if s != [] {
      var init := s[..|s| - 1];
      assert forall k :: 0 <= k < |init| ==> init[k] == s[k];
      SplitWithoutSeparator(init, sep);
      assert s[|s| - 1] != sep;
      assert init + [s[|s| - 1]] == s;
    }
  }

  /** Splitting `a + [sep] + b`, where `b` has no separator, adds `b` as a new
      last piece to the pieces of `a`. */
  lemma {:induction false} SplitAppendPiece(a: string, sep: char, b: string)
    requires sep !in b
    ensures Split(a + [sep] + b, sep) == Split(a, sep) + [b]
    decreases |b|
  {
    var s := a + [sep] + b;
    if b == [] {
      assert s[..|s| - 1] == a;
    } else {
      var b' := b[..|b| - 1];
      assert s[..|s| - 1] == a + [sep] + b';
      assert s[|s| - 1] == b[|b| - 1];
      SplitAppendPiece(a, sep, b');
      assert b' + [b[|b| - 1]] == b;
    }
  }

  /** Splitting a join of separator-free pieces gives back the pieces. */
  lemma {:induction false} SplitJoin(pieces: seq<string>, sep: char)
    requires |pieces| > 0
    requires forall k :: 0 <= k < |pieces| ==> sep !in pieces[k]
    ensures Split(Join(pieces, sep), sep) == pieces
    decreases |pieces|
  {
    if |pieces| == 1 {
      SplitWithoutSeparator(pieces[0], sep);
    } else {
      var init := pieces[..|pieces| - 1];
      SplitJoin(init, sep);
      SplitAppendPiece(Join(init, sep), sep, pieces[|pieces| - 1]);
    }
  }

  /** Reference definition: the text after the last `/` of `path` (all of it
      when it has no `/`). */
  function AfterLastSlash(path: string): (seg: string)
    ensures '/' !in seg
    ensures EndsWith(path, seg)
    ensures |seg| < |path| ==> path[|path| - |seg| - 1] == '/'
    decreases |path|
  {
    if path == [] || path[|path| - 1] == '/' then []
    else AfterLastSlash(path[..|path| - 1]) + [path[|path| - 1]]
  }

  /** The last piece of the split is exactly the text after the last `/`. */
  lemma {:induction false} LastPieceIsAfterLastSlash(path: string)
    ensures var pieces := Split(path, '/'); pieces[|pieces| - 1] == AfterLastSlash(path)
    decreases |path|
  {
    if path != [] {
      LastPieceIsAfterLastSlash(path[..|path| - 1]);
    }
  }

  /** `split('/').pop()`: the last piece of the split, which has no `/`, ends
      the path, and is the whole path or follows a `/`. */
  function LastSegment(path: string): (seg: string)
    ensures '/' !in seg && EndsWith(path, seg)
    ensures |seg| < |path| ==> path[|path| - |seg| - 1] == '/'
    ensures seg == AfterLastSlash(path)
  {
    LastPieceIsAfterLastSlash(path);
    var pieces := Split(path, '/');
    pieces[|pieces| - 1]
  }

  /** The current page: the last path segment, or `index.html` when it is
      empty (script.js:70). */
  function CurrentPage(path: string): (page: string)
    ensures page != [] && '/' !in page
    ensures page == DefaultPage || (EndsWith(path, page) && (|page| == |path| || path[|path| - |page| - 1] == '/'))
    ensures page == (if AfterLastSlash(path) == [] then DefaultPage else AfterLastSlash(path))
  {
    var seg := LastSegment(path);
    if seg == [] then DefaultPage else seg
  }

  /** For a suffix free of `/`, the path ends with it exactly when its last
      segment does. */
  lemma EndsWithIffLastSegmentEndsWith(path: string, suffix: string)
    requires '/' !in suffix
    ensures EndsWith(path, suffix) <==> EndsWith(AfterLastSlash(path), suffix)
  {
    var seg := AfterLastSlash(path);
    if EndsWith(seg, suffix) {
      assert path[|path| - |suffix|..] == seg[|seg| - |suffix|..];
    }
  }

  /** The homepage test that gates the stat counters (script.js:115): the
      path is `/`, or its last segment ends with `index.html`. */
  predicate IsHomePage(path: string)
    ensures IsHomePage(path) <==> path == "/" || EndsWith(AfterLastSlash(path), DefaultPage)
  {
    EndsWithIffLastSegmentEndsWith(path, DefaultPage);
    EndsWith(path, "index.html") || path == "/"
  }

  /** The homepage test in terms of the current page: the path is `/`, or its
      last segment is non-empty and ends with `index.html`. */
  lemma HomePageByCurrentPage(path: string)
    ensures IsHomePage(path) <==> path == "/" || (AfterLastSlash(path) != [] && EndsWith(CurrentPage(path), DefaultPage))
  {
    EndsWithIffLastSegmentEndsWith(path, DefaultPage);
  }

  /** A directory path other than `/` marks `index.html` as the current page
      but is not a homepage for the counters. */
  lemma DirectoryPathIsNotHomePage(path: string)
    requires path != "/" && |path| > 0 && path[|path| - 1] == '/'
    ensures CurrentPage(path) == DefaultPage && !IsHomePage(path)
  {
    assert AfterLastSlash(path) == [];
  }

  /** The root path marks `index.html` as the current page and is a homepage. */
  lemma RootIsHomePage()
    ensures CurrentPage("/") == DefaultPage && IsHomePage("/")
  {
    assert AfterLastSlash("/") == [];
  }

  /** A navigation link: its `href` and whether it carries the `active` class. */
  datatype Link = Link(href: string, active: bool)

  /** Reference definition of the marking: every link keeps its `href` and is
      active exactly when the `href` equals `page`. */
  ghost predicate MarkedFor(before: seq<Link>, after: seq<Link>, page: string) {
    |after| == |before| &&
    forall k :: 0 <= k < |after| ==> after[k].href == before[k].href && (after[k].active <==> before[k].href == page)
  }

  /** The links carrying `active`. */
  function ActiveCount(links: seq<Link>): nat
    decreases |links|
  {
    if links == [] then 0 else (if links[0].active then 1 else 0) + ActiveCount(links[1..])
  }

  /** At most one link is active when only one link can carry the page's `href`. */
  lemma {:induction false} AtMostOneActive(links: seq<Link>, page: string)
    requires forall j, k :: 0 <= j < k < |links| ==> links[j].href != links[k].href
    requires forall k :: 0 <= k < |links| ==> (links[k].active <==> links[k].href == page)
    ensures ActiveCount(links) <= 1
    ensures ActiveCount(links) == 1 <==> exists k :: 0 <= k < |links| && links[k].href == page
    decreases |links|
  {
    if links != [] {
      AtMostOneActive(links[1..], page);
      if links[0].active {
        NoneActive(links[1..]);
      }
      if exists k :: 0 <= k < |links| && links[k].href == page {
        var k :| 0 <= k < |links| && links[k].href == page;
        if k > 0 {
          assert links[1..][k - 1].href == page;
        }
      }
    }
  }

  /** A sequence of links none of which is active has count zero. */
  lemma {:induction false} NoneActive(links: seq<Link>)
    requires forall k :: 0 <= k < |links| ==> !links[k].active
    ensures ActiveCount(links) == 0
    decreases |links|
  {
    if links != [] {
      NoneActive(links[1..]);
    }
  }

  /** The `forEach` over the `.nav-link` elements (script.js:73-78): each
      loses `active`, then gets it back when its `href` equals `page`. */
  method MarkActive(links: array<Link>, page: string)
    modifies links
    ensures MarkedFor(old(links[..]), links[..], page)
  {
    var i := 0;
    while i < links.Length
      invariant 0 <= i <= links.Length
      invariant forall k :: 0 <= k < i ==> links[k].href == old(links[k].href) && (links[k].active <==> links[k].href == page)
      invariant forall k :: i <= k < links.Length ==> links[k] == old(links[k])
    {
      var link := links[i].(active := false);
      if link.href == page {
        link := link.(active := true);
      }
      links[i] := link;
      i := i + 1;
    }
  }

  /** The first `DOMContentLoaded` handler (script.js:69-79). */
  method OnLoad(path: string, links: array<Link>)
    modifies links
    ensures MarkedFor(old(links[..]), links[..], CurrentPage(path))
  {
    var currentPage := CurrentPage(path);
    MarkActive(links, currentPage);
  }
}
