/**
 * `rename_extension_to_html`: absolute http(s) references pass through; any
 * other reference whose tail is `.xml` or `.xhtml`, optionally followed by a
 * `#fragment`, gets the extension `.html` with the rest kept verbatim.
 *
 * The regular expression `\.x(?:ht)?ml(#.*)?$` is modelled as an explicit
 * scan for its leftmost match.  Python's `.` matches anything but a newline,
 * and `$` matches at the end of the string or just before a final newline;
 * both are written out in `TailMatches`.
 */
module Rename {
  import opened Wrappers

  predicate IsAbsoluteUrl(href: string)
  {
    (|href| >= 8 && href[..8] == "https://") || (|href| >= 7 && href[..7] == "http://")
  }

  /** Length of the extension `.xml` (4) or `.xhtml` (6) starting at `i`; 0 if neither starts there. */
  function ExtAt(s: string, i: nat): (n: nat)
    ensures n == 0 || n == 4 || n == 6
    ensures n != 0 ==> i + n <= |s| && s[i] == '.' && s[i + 1] == 'x'
  {
    if i + 4 <= |s| && s[i] == '.' && s[i + 1] == 'x' && s[i + 2] == 'm' && s[i + 3] == 'l' then 4
    else if i + 6 <= |s| && s[i] == '.' && s[i + 1] == 'x' && s[i + 2] == 'h'
            && s[i + 3] == 't' && s[i + 4] == 'm' && s[i + 5] == 'l' then 6
    else 0
  }

  /**
   * What `(#.*)?$` accepts after the extension: nothing, a lone final newline,
   * or `#` followed by characters none of which is a newline except possibly
   * the very last one.
   */
  predicate TailMatches(t: string)
  {
    t == [] || t == "\n" ||
    (t[0] == '#' && forall k :: 1 <= k < |t| - 1 ==> t[k] != '\n')
  }

  /** The regular expression matches at position `i` of `s`. */
  predicate MatchAt(s: string, i: nat)
  {
    ExtAt(s, i) != 0 && TailMatches(s[i + ExtAt(s, i)..])
  }

  /** The leftmost position at or after `from` where the pattern matches. */
  function FirstMatch(s: string, from: nat): (r: Option<nat>)
    requires from <= |s|
    decreases |s| - from
    ensures r.Some? ==> from <= r.value < |s| && MatchAt(s, r.value)
    ensures r.Some? ==> forall j :: from <= j < r.value ==> !MatchAt(s, j)
    ensures r.None? ==> forall j :: from <= j <= |s| ==> !MatchAt(s, j)
  {
    if MatchAt(s, from) then Some(from)
    else if from == |s| then None
    else FirstMatch(s, from + 1)
  }

  /**
   * `rename_extension_to_html`: an `http://` or `https://` reference is
   * returned as it is; otherwise the leftmost match has its extension
   * replaced by `.html`, which lengthens `.xml` by one and shortens `.xhtml`
   * by one.
   */
  function RenameExtensionToHtml(href: string): (r: string)
    ensures IsAbsoluteUrl(href) ==> r == href
    ensures r == href || |r| == |href| + 1 || |r| + 1 == |href|
  {
    if IsAbsoluteUrl(href) then href
    else match FirstMatch(href, 0)
      case None => href
      case Some(i) => href[..i] + ".html" + href[i + ExtAt(href, i)..]
  }

  /** At most one position of `s` matches the pattern. */
  predicate SingleMatch(s: string)
  {
    forall i: nat, j: nat :: i <= |s| && j <= |s| && MatchAt(s, i) && MatchAt(s, j) ==> i == j
  }

  /** Whether the pattern matches depends only on the suffix from that position. */
  lemma MatchAtSuffix(s1: string, p: nat, s2: string, q: nat)
    requires p <= |s1| && q <= |s2| && s1[p..] == s2[q..]
    ensures ExtAt(s1, p) == ExtAt(s2, q)
    ensures MatchAt(s1, p) == MatchAt(s2, q)
  {
    var n := |s1| - p;
    assert n == |s2| - q;
    assert forall k :: 0 <= k < n ==> s1[p + k] == s1[p..][k] == s2[q..][k] == s2[q + k];
    var e := ExtAt(s1, p);
    assert ExtAt(s2, q) == e;
    assert s1[p + e..] == s1[p..][e..] == s2[q..][e..] == s2[q + e..];
  }

  /** The tail test is blind to swapping one newline-free piece for another of the same first character. */
  lemma TailReplace(a: string, x: string, y: string, b: string)
    requires |x| >= 2 && |y| >= 2 && x[0] == y[0]
    requires forall k :: 0 <= k < |x| ==> x[k] != '\n'
    requires forall k :: 0 <= k < |y| ==> y[k] != '\n'
    ensures TailMatches(a + x + b) == TailMatches(a + y + b)
  {
    var t1, t2 := a + x + b, a + y + b;
    assert t1[0] == t2[0];
    assert t1 != [] && t1 != "\n" && t2 != [] && t2 != "\n" by {
      assert |t1| >= 2 && |t2| >= 2;
    }
    var inner := (forall k :: 1 <= k < |a| ==> a[k] != '\n') && (forall k :: 0 <= k < |b| - 1 ==> b[k] != '\n');
    assert (forall k :: 1 <= k < |t1| - 1 ==> t1[k] != '\n') == inner by {
      if inner {
        forall k | 1 <= k < |t1| - 1 ensures t1[k] != '\n' {
          if k < |a| { assert t1[k] == a[k]; }
          else if k < |a| + |x| { assert t1[k] == x[k - |a|]; }
          else { assert t1[k] == b[k - |a| - |x|]; }
        }
      }
      if forall k :: 1 <= k < |t1| - 1 ==> t1[k] != '\n' {
        forall k | 1 <= k < |a| ensures a[k] != '\n' { assert t1[k] == a[k]; }
        forall k | 0 <= k < |b| - 1 ensures b[k] != '\n' { assert t1[|a| + |x| + k] == b[k]; }
      }
    }
    assert (forall k :: 1 <= k < |t2| - 1 ==> t2[k] != '\n') == inner by {
      if inner {
        forall k | 1 <= k < |t2| - 1 ensures t2[k] != '\n' {
          if k < |a| { assert t2[k] == a[k]; }
          else if k < |a| + |y| { assert t2[k] == y[k - |a|]; }
          else { assert t2[k] == b[k - |a| - |y|]; }
        }
      }
      if forall k :: 1 <= k < |t2| - 1 ==> t2[k] != '\n' {
        forall k | 1 <= k < |a| ensures a[k] != '\n' { assert t2[k] == a[k]; }
        forall k | 0 <= k < |b| - 1 ensures b[k] != '\n' { assert t2[|a| + |y| + k] == b[k]; }
      }
    }
  }


  /** Only the first character of an extension is a dot. */
  lemma ExtHasOneDot(s: string, j: nat, m: nat)
    requires ExtAt(s, j) != 0 && j < m < j + ExtAt(s, j)
    ensures s[m] != '.'
  {
  }

  /** Before a piece that starts with a dot, the extension test sees only the prefix. */
  lemma ExtAtPrefix(a: string, c: string, j: nat)
    requires j < |a| && |c| > 0 && c[0] == '.'
    ensures ExtAt(a + c, j) == ExtAt(a, j)
    ensures j + ExtAt(a, j) <= |a|
  {
    var s := a + c;
    var e := ExtAt(s, j);
    if e != 0 && j + e > |a| {
      ExtHasOneDot(s, j, |a|);
    }
  }

  /** At a position before a newline-free piece that starts with a dot, swapping the piece does not change whether the pattern matches. */
  lemma MatchPrefixReplace(a: string, x: string, y: string, b: string, j: nat)
    requires j < |a|
    requires |x| >= 2 && |y| >= 2 && x[0] == '.' && y[0] == '.'
    requires forall k :: 0 <= k < |x| ==> x[k] != '\n'
    requires forall k :: 0 <= k < |y| ==> y[k] != '\n'
    ensures MatchAt(a + x + b, j) == MatchAt(a + y + b, j)
  {
    assert a + x + b == a + (x + b);
    assert a + y + b == a + (y + b);
    ExtAtPrefix(a, x + b, j);
    ExtAtPrefix(a, y + b, j);
    var e := ExtAt(a, j);
    if e != 0 {
      assert (a + x + b)[j + e..] == a[j + e..] + x + b;
      assert (a + y + b)[j + e..] == a[j + e..] + y + b;
      TailReplace(a[j + e..], x, y, b);
    }
  }

  /** The result of renaming at the leftmost match `i`. */
  lemma RenameAt(s: string, i: nat)
    requires !IsAbsoluteUrl(s) && FirstMatch(s, 0) == Some(i)
    ensures RenameExtensionToHtml(s) == s[..i] + ".html" + s[i + ExtAt(s, i)..]
  {
  }

  /** The extension test finds nothing inside a `.html` piece. */
  lemma NoMatchInHtml(a: string, b: string, j: nat)
    requires |a| <= j < |a| + 5
    ensures ExtAt(a + ".html" + b, j) == 0
  {
    var r := a + ".html" + b;
    assert r[j] == ".html"[j - |a|];
    if j == |a| { assert r[j + 1] == 'h'; }
  }

  /** The extension found at `i` is the text `.xml` or `.xhtml`. */
  lemma ExtText(s: string, i: nat)
    requires ExtAt(s, i) != 0
    ensures s[i..i + ExtAt(s, i)] == ".xml" || s[i..i + ExtAt(s, i)] == ".xhtml"
  {
  }

  /** Renaming creates no match before the end of the new `.html`. */
  lemma NoMatchUpToHtml(s: string, i: nat, j: nat)
    requires !IsAbsoluteUrl(s) && FirstMatch(s, 0) == Some(i)
    requires j < i + 5
    ensures !MatchAt(RenameExtensionToHtml(s), j)
  {
    var e := ExtAt(s, i);
    var a, x, b := s[..i], s[i..i + e], s[i + e..];
    RenameAt(s, i);
    if j < i {
      ExtText(s, i);
      assert s == a + x + b;
      MatchPrefixReplace(a, x, ".html", b, j);
    } else {
      NoMatchInHtml(a, b, j);
    }
  }

  /** After the new `.html`, the renamed reference matches exactly where the original did after its extension. */
  lemma MatchShiftAfterHtml(s: string, i: nat, j: nat)
    requires !IsAbsoluteUrl(s) && FirstMatch(s, 0) == Some(i)
    requires i + 5 <= j <= |RenameExtensionToHtml(s)|
    ensures MatchAt(RenameExtensionToHtml(s), j) == MatchAt(s, j - 5 + ExtAt(s, i))
  {
    var e, r := ExtAt(s, i), RenameExtensionToHtml(s);
    RenameAt(s, i);
    assert i + e <= |s| && |r| == |s| - e + 5;
    MatchShiftPieces(s, i, e, j, r);
  }

  /** Past a `.html` that replaced `s[i..i+e]`, matching is matching in `s`, shifted. */
  lemma MatchShiftPieces(s: string, i: nat, e: nat, j: nat, r: string)
    requires i + e <= |s| && i + 5 <= j <= |s| - e + 5
    requires r == s[..i] + ".html" + s[i + e..]
    ensures MatchAt(r, j) == MatchAt(s, j - 5 + e)
  {
    SuffixOfPieces(s[..i], ".html", s[i + e..], j);
    SuffixOfSuffix(s, i + e, j - 5 - i);
    MatchAtSuffix(r, j, s, j - 5 + e);
  }

  /** A suffix of `a + m + b` starting past `a + m` is a suffix of `b`. */
  lemma SuffixOfPieces(a: string, m: string, b: string, j: nat)
    requires |a| + |m| <= j <= |a| + |m| + |b|
    ensures (a + m + b)[j..] == b[j - |a| - |m|..]
  {
  }

  lemma SuffixOfSuffix(s: string, p: nat, q: nat)
    requires p + q <= |s|
    ensures s[p..][q..] == s[p + q..]
  {
  }

  /** Renaming changes a reference exactly when it is not absolute and the pattern matches somewhere. */
  lemma RenameChangesIff(s: string)
    ensures RenameExtensionToHtml(s) != s <==> !IsAbsoluteUrl(s) && exists i: nat :: i <= |s| && MatchAt(s, i)
  {
    if !IsAbsoluteUrl(s) {
      match FirstMatch(s, 0)
      case None =>
      case Some(i) =>
        var r := RenameExtensionToHtml(s);
        RenameAt(s, i);
        assert r[i + 1] == 'h' && s[i + 1] == 'x';
    }
  }

  /** Before a dotted piece, a prefix without `#` holds no match. */
  lemma NoMatchInPlainPrefix(x: string, c: string, j: nat)
    requires j < |x| && |c| >= 2 && c[0] == '.'
    requires forall k :: 0 <= k < |x| ==> x[k] != '#'
    ensures !MatchAt(x + c, j)
  {
    ExtAtPrefix(x, c, j);
    var e := ExtAt(x, j);
    if e != 0 {
      var t := (x + c)[j + e..];
      assert t == x[j + e..] + c;
      if j + e < |x| { assert t[0] == x[j + e]; } else { assert t[0] == '.'; }
    }
  }

  /** The leftmost match at or after `from` is `i` when nothing matches in between. */
  lemma {:induction false} FirstMatchIs(s: string, from: nat, i: nat)
    requires from <= i <= |s| && MatchAt(s, i)
    requires forall j: nat :: from <= j < i ==> !MatchAt(s, j)
    ensures FirstMatch(s, from) == Some(i)
    decreases i - from
  {
    if from < i {
      FirstMatchIs(s, from + 1, i);
    }
  }

  /** Renaming a relative reference whose leftmost match is at `i`. */
  lemma RenameAtFirst(s: string, i: nat)
    requires !IsAbsoluteUrl(s) && i <= |s| && MatchAt(s, i)
    requires forall j: nat :: j < i ==> !MatchAt(s, j)
    ensures RenameExtensionToHtml(s) == s[..i] + ".html" + s[i + ExtAt(s, i)..]
  {
    FirstMatchIs(s, 0, i);
    RenameAt(s, i);
  }

  /** The pieces of `x + ext + tail` around the extension. */
  lemma ExtPieces(x: string, ext: string, tail: string)
    requires ext == ".xml" || ext == ".xhtml"
    ensures ExtAt(x + ext + tail, |x|) == |ext|
    ensures (x + ext + tail)[..|x|] == x && (x + ext + tail)[|x| + |ext|..] == tail
  {
    var s := x + ext + tail;
    assert s[|x|..|x| + |ext|] == ext;
  }

  /** `X.xml`, `X.xhtml`, `X.xml#f`, `X.xhtml#f` become `X.html`, `X.html#f` when `X` holds no `#`. */
  lemma RenameOfExtension(x: string, ext: string, tail: string)
    requires ext == ".xml" || ext == ".xhtml"
    requires TailMatches(tail)
    requires forall k :: 0 <= k < |x| ==> x[k] != '#'
    requires !IsAbsoluteUrl(x + ext + tail)
    ensures RenameExtensionToHtml(x + ext + tail) == x + ".html" + tail
  {
    var s := x + ext + tail;
    ExtPieces(x, ext, tail);
    forall j: nat | j < |x| ensures !MatchAt(s, j) {
      assert s == x + (ext + tail);
      NoMatchInPlainPrefix(x, ext + tail, j);
    }
    RenameAtFirst(s, |x|);
  }

  /** A reference stays relative when a piece starting with a dot is swapped for another. */
  lemma RelativeWithDotAt(a: string, u: string, v: string)
    requires !IsAbsoluteUrl(a + u) && |u| >= 1 && |v| >= 1 && u[0] == '.' && v[0] == '.'
    ensures !IsAbsoluteUrl(a + v)
  {
    var s, r := a + u, a + v;
    if |a| >= 8 {
      assert r[..8] == a[..8] == s[..8];
      assert r[..7] == a[..7] == s[..7];
    } else {
      assert r[|a|] == '.';
      if |r| >= 8 { assert r[..8][|a|] == '.'; }
      if |r| >= 7 && |a| < 7 { assert r[..7][|a|] == '.'; }
    }
  }

  /** Replacing the text from a dot at `i` by `.html` and more keeps a reference relative. */
  lemma RelativeAfterDot(s: string, i: nat, rest: string)
    requires !IsAbsoluteUrl(s) && i < |s| && s[i] == '.'
    ensures !IsAbsoluteUrl(s[..i] + ".html" + rest)
  {
    assert s == s[..i] + s[i..];
    assert s[..i] + ".html" + rest == s[..i] + (".html" + rest);
    RelativeWithDotAt(s[..i], s[i..], ".html" + rest);
  }

  /** The rewritten reference is never taken for an absolute URL. */
  lemma RenamedStaysRelative(s: string)
    requires !IsAbsoluteUrl(s)
    ensures !IsAbsoluteUrl(RenameExtensionToHtml(s))
  {
    match FirstMatch(s, 0)
    case None =>
    case Some(i) =>
      RenameAt(s, i);
      RelativeAfterDot(s, i, s[i + ExtAt(s, i)..]);
  }

  /** With a single match, the renamed reference matches nowhere. */
  lemma NoMatchAfterSingleRename(s: string, i: nat)
    requires !IsAbsoluteUrl(s) && FirstMatch(s, 0) == Some(i) && SingleMatch(s)
    ensures forall j: nat :: j <= |RenameExtensionToHtml(s)| ==> !MatchAt(RenameExtensionToHtml(s), j)
  {
    var r := RenameExtensionToHtml(s);
    var e := ExtAt(s, i);
    forall j: nat | j <= |r| ensures !MatchAt(r, j) {
      if j < i + 5 {
        NoMatchUpToHtml(s, i, j);
      } else {
        MatchShiftAfterHtml(s, i, j);
        RenameAt(s, i);
        assert j - 5 + e <= |s|;
        assert j - 5 + e != i;
        assert !MatchAt(s, j - 5 + e);
      }
    }
  }

  /** A second match lies past the extension of the first. */
  lemma SecondMatch(s: string, i: nat) returns (c: nat)
    requires FirstMatch(s, 0) == Some(i) && !SingleMatch(s)
    ensures i + ExtAt(s, i) <= c <= |s| && MatchAt(s, c)
  {
    var a: nat, b: nat :| a <= |s| && b <= |s| && MatchAt(s, a) && MatchAt(s, b) && a != b;
    c := if a < b then b else a;
    assert i < c;
    if c < i + ExtAt(s, i) { ExtHasOneDot(s, i, c); }
  }

  lemma RenameLength(s: string, i: nat)
    requires !IsAbsoluteUrl(s) && FirstMatch(s, 0) == Some(i)
    ensures |RenameExtensionToHtml(s)| == |s| - ExtAt(s, i) + 5
  {
    RenameAt(s, i);
  }

  /** With a second match, the renamed reference still matches after its new `.html`. */
  lemma MatchAfterDoubleRename(s: string, i: nat)
    requires !IsAbsoluteUrl(s) && FirstMatch(s, 0) == Some(i) && !SingleMatch(s)
    ensures exists j: nat :: j <= |RenameExtensionToHtml(s)| && MatchAt(RenameExtensionToHtml(s), j)
  {
    var c := SecondMatch(s, i);
    var j := c + 5 - ExtAt(s, i);
    RenameLength(s, i);
    MatchShiftAfterHtml(s, i, j);
    assert MatchAt(RenameExtensionToHtml(s), j);
  }

  /**
   * Renaming twice is renaming once exactly when the reference is absolute or
   * the pattern matches it at one position at most; a fragment that itself
   * ends in `.xml` or `.xhtml` is renamed by the second application.
   */
  lemma RenameIdempotentIff(s: string)
    ensures RenameExtensionToHtml(RenameExtensionToHtml(s)) == RenameExtensionToHtml(s)
            <==> IsAbsoluteUrl(s) || SingleMatch(s)
  {
    if !IsAbsoluteUrl(s) {
      match FirstMatch(s, 0)
      case None =>
      case Some(i) =>
        var r := RenameExtensionToHtml(s);
        RenamedStaysRelative(s);
        RenameChangesIff(r);
        if SingleMatch(s) {
          NoMatchAfterSingleRename(s, i);
        } else {
          MatchAfterDoubleRename(s, i);
        }
    }
  }

  /** Without `#` or a newline, a reference plus `.xml` matches only at that final extension. */
  lemma NoMatchBeforeLastExt(y: string, j: nat)
    requires '#' !in y && '\n' !in y && j < |y|
    ensures !MatchAt(y + ".xml", j)
  {
    NoMatchInPlainPrefix(y, ".xml", j);
  }

  /**
   * `X.xhtml#Y.xml` is renamed at its first extension only, to `X.html#Y.xml`,
   * when `X` holds no `#` and `Y` no newline.
   */
  lemma RenameOnceExample(x: string, y: string)
    requires '#' !in x && '\n' !in y && !IsAbsoluteUrl(x + ".xhtml" + ("#" + y + ".xml"))
    ensures RenameExtensionToHtml(x + ".xhtml" + ("#" + y + ".xml")) == x + ".html" + ("#" + y + ".xml")
  {
    var tail := "#" + y + ".xml";
    assert forall k :: 1 <= k < |tail| - 1 ==> tail[k] != '\n' by {
      forall k | 1 <= k < |tail| - 1 ensures tail[k] != '\n' {
        if k <= |y| { assert tail[k] == y[k - 1]; } else { assert tail[k] == ".xml"[k - 1 - |y|]; }
      }
    }
    RenameOfExtension(x, ".xhtml", tail);
  }

  /** Where the second renaming of `X.html#Y.xml` finds no match. */
  lemma NoMatchBeforeFragmentExt(x: string, y: string, j: nat)
    requires '#' !in x && '#' !in y && '\n' !in y && j < |x| + 6 + |y|
    ensures !MatchAt(x + ".html" + ("#" + y + ".xml"), j)
  {
    var r := x + ".html" + ("#" + y + ".xml");
    if j < |x| {
      assert r == x + (".html" + ("#" + y + ".xml"));
      NoMatchInPlainPrefix(x, ".html" + ("#" + y + ".xml"), j);
    } else if j < |x| + 5 {
      NoMatchInHtml(x, "#" + y + ".xml", j);
    } else if j == |x| + 5 {
      assert r[j] == '#';
    } else {
      var k := j - |x| - 6;
      assert r[j..] == (y + ".xml")[k..];
      NoMatchBeforeLastExt(y, k);
      MatchAtSuffix(r, j, y + ".xml", k);
    }
  }

  lemma FragmentPieces(x: string, y: string)
    ensures x + ".html" + ("#" + y + ".xml") == (x + ".html#" + y) + ".xml" + []
    ensures (x + ".html#" + y) + ".html" + [] == x + ".html" + ("#" + y + ".html")
  {
  }

  /** The second renaming of `X.html#Y.xml` rewrites the extension of the fragment. */
  lemma SecondRename(x: string, y: string)
    requires '#' !in x && '#' !in y && '\n' !in y && !IsAbsoluteUrl(x + ".html" + ("#" + y + ".xml"))
    ensures RenameExtensionToHtml(x + ".html" + ("#" + y + ".xml")) == x + ".html" + ("#" + y + ".html")
  {
    var p := x + ".html#" + y;
    var r := p + ".xml" + [];
    FragmentPieces(x, y);
    forall j: nat | j < |p| ensures !MatchAt(r, j) {
      NoMatchBeforeFragmentExt(x, y, j);
    }
    ExtPieces(p, ".xml", []);
    RenameAtFirst(r, |p|);
  }

  /**
   * A fragment ending in `.xml` defeats idempotence: `X.html#Y.xml`, itself a
   * renaming result, becomes `X.html#Y.html`.
   */
  lemma RenameTwiceCounterexample(x: string, y: string)
    requires '#' !in x && '#' !in y && '\n' !in y && !IsAbsoluteUrl(x + ".xhtml" + ("#" + y + ".xml"))
    ensures RenameExtensionToHtml(RenameExtensionToHtml(x + ".xhtml" + ("#" + y + ".xml")))
            == x + ".html" + ("#" + y + ".html")
  {
    RenameOnceExample(x, y);
    RenamedStaysRelative(x + ".xhtml" + ("#" + y + ".xml"));
    SecondRename(x, y);
  }
}
