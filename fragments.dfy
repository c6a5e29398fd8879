/**
 * The text clean-up applied to the serialised `<head>` and `<body>` of each
 * spine document.  Each regular expression is modelled as an explicit scan
 * that reproduces Python's leftmost, greedy, non-overlapping `re.sub`:
 *
 *   `\<\/?head.*\>` / `\<\/?body.*\>`  no flags, so `.` stops at a newline:
 *       on each line, from `<head` (or `</head`) through the LAST `>` of that line;
 *   `\<style.*\/style\>` with DOTALL: from the first `<style` to the last
 *       `/style>` of the whole text, whatever lies between;
 *   `<(title)([^>]*)/>` and `<(div|a|span)([^>]*)/>`: a self-closing tag whose
 *       name STARTS with one of the names becomes an open/close pair named
 *       after the matched name only.
 */
module Fragments {
  import opened Wrappers

  predicate StartsWith(s: string, p: string)
  {
    |p| <= |s| && s[..|p|] == p
  }

  predicate NoNewline(s: string)
  {
    forall k :: 0 <= k < |s| ==> s[k] != '\n'
  }

  predicate NoGt(s: string)
  {
    forall k :: 0 <= k < |s| ==> s[k] != '>'
  }

  /** A tag name the wrapper pattern can be built from. */
  predicate PlainName(name: string)
  {
    name != [] && '/' !in name && '<' !in name && '>' !in name && '\n' !in name
  }

  // ---- `\<\/?name.*\>` ------------------------------------------------------

  /** Length of `</name` or `<name` at the start of `s` (the `\/?` is greedy); 0 if neither. */
  function OpenerLen(s: string, name: string): (m: nat)
    ensures m == 0 || (m <= |s| && s[0] == '<' && (m == |name| + 1 || m == |name| + 2))
  {
    if StartsWith(s, "</" + name) then |name| + 2
    else if StartsWith(s, "<" + name) then |name| + 1
    else 0
  }

  /** The end of the line that position `p` lies on. */
  function LineEnd(s: string, p: nat): (e: nat)
    requires p <= |s|
    ensures p <= e <= |s| && (e < |s| ==> s[e] == '\n')
    ensures forall k :: p <= k < e ==> s[k] != '\n'
    decreases |s| - p
  {
    if p == |s| || s[p] == '\n' then p else LineEnd(s, p + 1)
  }

  /** The last `>` in `s[p..e]`. */
  function LastGtBefore(s: string, p: nat, e: nat): (r: Option<nat>)
    requires p <= e <= |s|
    ensures r.Some? ==> p <= r.value < e && s[r.value] == '>'
    ensures r.Some? ==> forall k :: r.value < k < e ==> s[k] != '>'
    ensures r.None? ==> forall k :: p <= k < e ==> s[k] != '>'
    decreases e - p
  {
    if e == p then None
    else if s[e - 1] == '>' then Some(e - 1)
    else LastGtBefore(s, p, e - 1)
  }

  /** Length of the match of `\<\/?name.*\>` at the start of `s`, if it matches there. */
  function WrapperMatch(s: string, name: string): (r: Option<nat>)
    requires PlainName(name)
    ensures r.Some? ==> 0 < r.value <= |s| && s[r.value - 1] == '>'
    ensures r.Some? ==> forall k :: 0 <= k < r.value ==> s[k] != '\n'
  {
    var m := OpenerLen(s, name);
    if m == 0 then None
    else match LastGtBefore(s, m, LineEnd(s, m))
      case None => None
      case Some(k) =>
        assert s[..m] == "</" + name || s[..m] == "<" + name;
        assert forall j :: 0 <= j < m ==> s[j] != '\n' by {
          forall j | 0 <= j < m ensures s[j] != '\n' {
            assert s[j] == s[..m][j];
            if s[..m] == "</" + name {
              assert s[j] == ("</" + name)[j];
              if j >= 2 { assert s[j] == name[j - 2]; }
            } else {
              assert s[j] == ("<" + name)[j];
              if j >= 1 { assert s[j] == name[j - 1]; }
            }
          }
        }
        Some(k + 1)
  }

  /** `re.sub(r'\<\/?name.*\>', '', s)`: deletes every match, keeps every newline. */
  function StripWrapper(s: string, name: string): (r: string)
    requires PlainName(name)
    ensures |r| <= |s|
    decreases |s|
  {
    if s == [] then []
    else match WrapperMatch(s, name)
      case Some(n) => StripWrapper(s[n..], name)
      case None => [s[0]] + StripWrapper(s[1..], name)
  }

  /** A text without `>` holds no match. */
  lemma {:induction false} StripWithoutGt(s: string, name: string)
    requires PlainName(name) && NoGt(s)
    ensures StripWrapper(s, name) == s
    decreases |s|
  {
    if s != [] {
      assert WrapperMatch(s, name).None?;
      StripWithoutGt(s[1..], name);
      assert s == [s[0]] + s[1..];
    }
  }

  lemma LastGtAgree(s: string, t: string, p: nat, e: nat)
    requires p <= e <= |s| && e <= |t|
    requires forall k :: p <= k < e ==> s[k] == t[k]
    ensures LastGtBefore(s, p, e) == LastGtBefore(t, p, e)
    decreases e - p
  {
    if e > p {
      LastGtAgree(s, t, p, e - 1);
    }
  }

  lemma OpenerOfLine(l: string, rest: string, name: string)
    requires PlainName(name) && NoNewline(l)
    ensures OpenerLen(l + "\n" + rest, name) == OpenerLen(l, name)
  {
    var t := l + "\n" + rest;
    forall p | p == "</" + name || p == "<" + name
      ensures StartsWith(t, p) <==> StartsWith(l, p)
    {
      assert '\n' !in p;
      if |p| > |l| {
        assert p[|l|] != '\n';
        if |p| <= |t| {
          assert t[..|p|][|l|] == '\n';
        }
      } else {
        assert t[..|p|] == l[..|p|];
      }
    }
  }

  /** Whether `\<\/?name.*\>` matches at the start of a line depends on that line only. */
  lemma WrapperMatchOfLine(l: string, rest: string, name: string)
    requires PlainName(name) && NoNewline(l)
    ensures WrapperMatch(l + "\n" + rest, name) == WrapperMatch(l, name)
  {
    var t := l + "\n" + rest;
    OpenerOfLine(l, rest, name);
    var m := OpenerLen(l, name);
    if m != 0 {
      var e := LineEnd(t, m);
      assert t[|l|] == '\n';
      assert e == |l|;
      var e' := LineEnd(l, m);
      assert e' == |l|;
      LastGtAgree(t, l, m, |l|);
    }
  }

  lemma StripAtMatch(s: string, name: string, n: nat)
    requires PlainName(name) && WrapperMatch(s, name) == Some(n)
    ensures StripWrapper(s, name) == StripWrapper(s[n..], name)
  {
  }

  lemma StripNoMatch(s: string, name: string)
    requires PlainName(name) && s != [] && WrapperMatch(s, name).None?
    ensures StripWrapper(s, name) == [s[0]] + StripWrapper(s[1..], name)
  {
  }

  lemma ConsThen(c: char, a: string, b: string)
    ensures [c] + (a + "\n" + b) == ([c] + a) + "\n" + b
  {
  }

  /** The clean-up works line by line: a newline is never removed nor crossed. */
  lemma {:induction false} StripByLine(l: string, rest: string, name: string)
    requires PlainName(name) && NoNewline(l)
    ensures StripWrapper(l + "\n" + rest, name)
         == StripWrapper(l, name) + "\n" + StripWrapper(rest, name)
    decreases |l|
  {
    var t := l + "\n" + rest;
    WrapperMatchOfLine(l, rest, name);
    if l == [] {
      assert t == "\n" + rest && t[0] == '\n' && t[1..] == rest;
      assert OpenerLen(t, name) == 0;
      StripNoMatch(t, name);
    } else {
      match WrapperMatch(l, name)
      case Some(n) =>
        assert t[n..] == l[n..] + "\n" + rest;
        StripAtMatch(t, name, n);
        StripAtMatch(l, name, n);
        StripByLine(l[n..], rest, name);
      case None =>
        assert t[0] == l[0] && t[1..] == l[1..] + "\n" + rest;
        StripNoMatch(t, name);
        StripNoMatch(l, name);
        StripByLine(l[1..], rest, name);
        ConsThen(l[0], StripWrapper(l[1..], name), StripWrapper(rest, name));
    }
  }

  /**
   * On one line whose first `<name`/`</name` starts at `i` and whose last `>`
   * sits at `k` beyond it, exactly `l[i..k+1]` is removed.
   */
  lemma {:induction false} StripLineWithMatch(l: string, name: string, i: nat, k: nat)
    requires PlainName(name) && NoNewline(l)
    requires i < |l| && OpenerLen(l[i..], name) > 0
    requires forall j :: 0 <= j < i ==> OpenerLen(l[j..], name) == 0
    requires i + OpenerLen(l[i..], name) <= k < |l| && l[k] == '>'
    requires forall j :: k < j < |l| ==> l[j] != '>'
    ensures StripWrapper(l, name) == l[..i] + l[k + 1..]
    decreases i
  {
    if i == 0 {
      assert l[0..] == l;
      StripLineAtOpener(l, name, k);
    } else {
      ShiftLine(l, name, i, k);
      StripSkip(l, name);
      var rest := StripWrapper(l[1..], name);
      StripLineWithMatch(l[1..], name, i - 1, k - 1);
      assert rest == l[1..][..i - 1] + l[1..][k..];
      CutAfterFirst(l, i, k);
    }
  }

  /** The requirements of `StripLineWithMatch`, one character further along the line. */
  lemma ShiftLine(l: string, name: string, i: nat, k: nat)
    requires PlainName(name) && NoNewline(l)
    requires 0 < i < |l| && OpenerLen(l[i..], name) > 0
    requires forall j :: 0 <= j < i ==> OpenerLen(l[j..], name) == 0
    requires i + OpenerLen(l[i..], name) <= k < |l| && l[k] == '>'
    requires forall j :: k < j < |l| ==> l[j] != '>'
    ensures l != [] && OpenerLen(l, name) == 0
    ensures NoNewline(l[1..])
    ensures i - 1 < |l[1..]| && OpenerLen(l[1..][i - 1..], name) > 0
    ensures forall j :: 0 <= j < i - 1 ==> OpenerLen(l[1..][j..], name) == 0
    ensures i - 1 + OpenerLen(l[1..][i - 1..], name) <= k - 1 < |l[1..]| && l[1..][k - 1] == '>'
    ensures forall j :: k - 1 < j < |l[1..]| ==> l[1..][j] != '>'
  {
    var l' := l[1..];
    assert l[0..] == l;
    forall j | 0 <= j < i - 1 ensures OpenerLen(l'[j..], name) == 0 {
      assert l'[j..] == l[j + 1..];
    }
    assert l'[i - 1..] == l[i..];
  }

  lemma CutAfterFirst(l: string, i: nat, k: nat)
    requires 0 < i <= k < |l|
    ensures [l[0]] + (l[1..][..i - 1] + l[1..][k..]) == l[..i] + l[k + 1..]
  {
    assert l[..i] == [l[0]] + l[1..][..i - 1];
    assert l[k + 1..] == l[1..][k..];
  }

  lemma StripSkip(l: string, name: string)
    requires PlainName(name) && l != [] && OpenerLen(l, name) == 0
    ensures StripWrapper(l, name) == [l[0]] + StripWrapper(l[1..], name)
  {
  }

  lemma StripLineAtOpener(l: string, name: string, k: nat)
    requires PlainName(name) && NoNewline(l)
    requires OpenerLen(l, name) > 0
    requires OpenerLen(l, name) <= k < |l| && l[k] == '>'
    requires forall j :: k < j < |l| ==> l[j] != '>'
    ensures StripWrapper(l, name) == l[k + 1..]
  {
    var m := OpenerLen(l, name);
    assert LineEnd(l, m) == |l|;
    assert WrapperMatch(l, name) == Some(k + 1);
    StripWithoutGt(l[k + 1..], name);
  }

  /** A line where no `<name`/`</name` is followed by a `>` is left as it is. */
  lemma {:induction false} StripLineWithoutMatch(l: string, name: string)
    requires PlainName(name) && NoNewline(l)
    requires forall i, k :: 0 <= i < |l| && OpenerLen(l[i..], name) > 0 && i + OpenerLen(l[i..], name) <= k < |l|
               ==> l[k] != '>'
    ensures StripWrapper(l, name) == l
    decreases |l|
  {
    if l != [] {
      NoMatchAtLineStart(l, name);
      StripNoMatch(l, name);
      NoMatchOnLineRest(l, name);
      StripLineWithoutMatch(l[1..], name);
      assert l == [l[0]] + l[1..];
    }
  }

  lemma NoMatchAtLineStart(l: string, name: string)
    requires PlainName(name) && NoNewline(l) && l != []
    requires forall i, k :: 0 <= i < |l| && OpenerLen(l[i..], name) > 0 && i + OpenerLen(l[i..], name) <= k < |l|
               ==> l[k] != '>'
    ensures WrapperMatch(l, name).None?
  {
    assert l[0..] == l;
    var m := OpenerLen(l, name);
    if m > 0 {
      assert LineEnd(l, m) == |l|;
    }
  }

  lemma NoMatchOnLineRest(l: string, name: string)
    requires PlainName(name) && NoNewline(l) && l != []
    requires forall i, k :: 0 <= i < |l| && OpenerLen(l[i..], name) > 0 && i + OpenerLen(l[i..], name) <= k < |l|
               ==> l[k] != '>'
    ensures NoNewline(l[1..])
    ensures forall i, k :: 0 <= i < |l[1..]| && OpenerLen(l[1..][i..], name) > 0 && i + OpenerLen(l[1..][i..], name) <= k < |l[1..]|
              ==> l[1..][k] != '>'
  {
    var l' := l[1..];
    forall i, k | 0 <= i < |l'| && OpenerLen(l'[i..], name) > 0 && i + OpenerLen(l'[i..], name) <= k < |l'|
      ensures l'[k] != '>'
    {
      assert l'[i..] == l[i + 1..];
    }
  }

  // ---- `\<style.*\/style\>` under DOTALL ------------------------------------

  predicate At(s: string, i: nat, p: string)
  {
    i + |p| <= |s| && s[i..i + |p|] == p
  }

  /** The first occurrence of `p` at or after `from`. */
  function FindFirst(s: string, p: string, from: nat): (r: Option<nat>)
    requires from <= |s|
    ensures r.Some? ==> from <= r.value <= |s| && At(s, r.value, p)
    ensures r.Some? ==> forall j :: from <= j < r.value ==> !At(s, j, p)
    ensures r.None? ==> forall j :: from <= j <= |s| ==> !At(s, j, p)
    decreases |s| - from
  {
    if At(s, from, p) then Some(from)
    else if from == |s| then None
    else FindFirst(s, p, from + 1)
  }

  /** The last occurrence of `p` starting before `e`. */
  function FindLast(s: string, p: string, e: nat): (r: Option<nat>)
    ensures r.Some? ==> r.value < e && At(s, r.value, p)
    ensures r.Some? ==> forall j :: r.value < j < e ==> !At(s, j, p)
    ensures r.None? ==> forall j :: 0 <= j < e ==> !At(s, j, p)
  {
    if e == 0 then None
    else if At(s, e - 1, p) then Some(e - 1)
    else FindLast(s, p, e - 1)
  }

  /** `s[i..k+7]` runs from a `<style` to a `/style>` after it. */
  predicate StyleSpan(s: string, i: nat, k: nat)
  {
    At(s, i, "<style") && At(s, k, "/style>") && i + 6 <= k
  }

  predicate NoStyleSpan(s: string)
  {
    forall i: nat, k: nat :: i <= |s| && k <= |s| ==> !StyleSpan(s, i, k)
  }

  /** The greedy leftmost match: the first `<style` and the last `/style>`. */
  predicate WidestStyleSpan(s: string, i: nat, k: nat)
  {
    StyleSpan(s, i, k)
    && (forall j :: 0 <= j < i ==> !At(s, j, "<style"))
    && (forall j :: k < j <= |s| ==> !At(s, j, "/style>"))
  }

  /**
   * `re.sub(r'\<style.*\/style\>', '', s, flags=re.M|re.S)`: the one greedy
   * match runs from the first `<style` to the last `/style>` of the whole
   * text and is deleted; nothing of `/style>` is left after it to match again.
   */
  function StripStyle(s: string): (r: string)
    ensures NoStyleSpan(s) ==> r == s
    ensures !NoStyleSpan(s) ==>
      exists i: nat, k: nat :: i <= |s| && k <= |s| && WidestStyleSpan(s, i, k) && r == s[..i] + s[k + 7..]
  {
    match FindFirst(s, "<style", 0)
    case None => s
    case Some(i) =>
      match FindLast(s, "/style>", |s| + 1)
      case None => s
      case Some(k) =>
        if i + 6 <= k then
          assert StyleSpan(s, i, k);
          assert WidestStyleSpan(s, i, k);
          s[..i] + s[k + 7..]
        else
          assert NoStyleSpan(s) by {
            forall i': nat, k': nat | i' <= |s| && k' <= |s| ensures !StyleSpan(s, i', k') {
              if i' < i {
                assert !At(s, i', "<style");
              } else if k < k' {
                assert !At(s, k', "/style>");
              }
            }
          }
          s
  }

  // ---- `<(names)([^>]*)/>` --------------------------------------------------

  /** The first `>` at or after `p`. */
  function FirstGtFrom(s: string, p: nat): (r: Option<nat>)
    requires p <= |s|
    ensures r.Some? ==> p <= r.value < |s| && s[r.value] == '>'
    ensures r.Some? ==> forall j :: p <= j < r.value ==> s[j] != '>'
    ensures r.None? ==> forall j :: p <= j < |s| ==> s[j] != '>'
    decreases |s| - p
  {
    if p == |s| then None
    else if s[p] == '>' then Some(p)
    else FirstGtFrom(s, p + 1)
  }

  /**
   * The position of the `/` when `<(n)([^>]*)/>` matches at the start of `s`:
   * `[^>]*` cannot pass the first `>`, so that `>` must close the tag and be
   * preceded by `/`.
   */
  function SlashOf(s: string, n: string): (r: Option<nat>)
    ensures r.Some? ==> StartsWith(s, "<" + n) && |n| + 1 <= r.value && r.value + 2 <= |s|
    ensures r.Some? ==> s[r.value] == '/' && s[r.value + 1] == '>'
    ensures r.Some? ==> forall j :: |n| + 1 <= j <= r.value ==> s[j] != '>'
  {
    if !StartsWith(s, "<" + n) then None
    else match FirstGtFrom(s, |n| + 1)
      case None => None
      case Some(g) => if g >= |n| + 2 && s[g - 1] == '/' then Some(g - 1) else None
  }

  /**
   * Whitespace as XML's `S` production defines it: the characters that can
   * separate a tag name from its attributes in serialised XHTML.
   */
  predicate XmlSpace(c: char)
  {
    c == ' ' || c == '\t' || c == '\n' || c == '\r'
  }

  /**
   * The tag name `n` ends where the match continues: either `/>` follows it
   * at once, or a whitespace character does.
   */
  predicate NameEnds(s: string, n: string, slash: nat)
  {
    slash == |n| + 1 || (|n| + 1 < |s| && XmlSpace(s[|n| + 1]))
  }

  /** A match of `<(name)([^>]*)/>`: the alternative taken and the position of its `/`. */
  datatype SelfClosing = SelfClosing(name: string, slash: nat)

  /**
   * The first alternative of `(n1|n2|...)` that lets the whole pattern match
   * at the start of `s`. With `wholeName` false this is the pattern
   * `<(n1|n2|...)([^>]*)/>`, in which an alternative need only start the tag
   * name; with `wholeName` true it is `<(n1|n2|...)([ \t\n\r][^>]*)?/>`, in
   * which the tag name must end after the alternative.
   */
  function SelfClosingAt(s: string, names: seq<string>, wholeName: bool): (r: Option<SelfClosing>)
    ensures r.Some? ==> r.value.name in names && SlashOf(s, r.value.name) == Some(r.value.slash)
    ensures r.Some? && wholeName ==> NameEnds(s, r.value.name, r.value.slash)
    ensures r.None? ==> forall n :: n in names ==> SlashOf(s, n).None? || (wholeName && !NameEnds(s, n, SlashOf(s, n).value))
  {
    if names == [] then None
    else match SlashOf(s, names[0])
      case Some(g) =>
        if !wholeName || NameEnds(s, names[0], g) then Some(SelfClosing(names[0], g))
        else SelfClosingAt(s, names[1..], wholeName)
      case None => SelfClosingAt(s, names[1..], wholeName)
  }

  /** The replacement `<\1\2></\1>`. */
  function OpenClose(n: string, attrs: string): string
  {
    "<" + n + attrs + "></" + n + ">"
  }

  /** `re.sub(pattern, r'<\1\2></\1>', s)` for the pattern `SelfClosingAt` matches. */
  function ExpandSelfClosing(s: string, names: seq<string>, wholeName: bool): (r: string)
    ensures |r| >= |s|
    decreases |s|
  {
    if s == [] then []
    else match SelfClosingAt(s, names, wholeName)
      case Some(m) =>
        OpenClose(m.name, s[|m.name| + 1..m.slash]) + ExpandSelfClosing(s[m.slash + 2..], names, wholeName)
      case None => [s[0]] + ExpandSelfClosing(s[1..], names, wholeName)
  }

  lemma ExpandSkip(s: string, names: seq<string>, wholeName: bool)
    requires s != [] && SelfClosingAt(s, names, wholeName).None?
    ensures ExpandSelfClosing(s, names, wholeName) == [s[0]] + ExpandSelfClosing(s[1..], names, wholeName)
  {
  }

  lemma ExpandAt(s: string, names: seq<string>, wholeName: bool, n: string, g: nat)
    requires SelfClosingAt(s, names, wholeName) == Some(SelfClosing(n, g))
    ensures ExpandSelfClosing(s, names, wholeName)
         == OpenClose(n, s[|n| + 1..g]) + ExpandSelfClosing(s[g + 2..], names, wholeName)
  {
    assert s != [];
  }

  /** Text without any `/>` is left as it is. */
  lemma {:induction false} ExpandWithoutSlashGt(s: string, names: seq<string>, wholeName: bool)
    requires forall k :: 0 <= k < |s| - 1 ==> !(s[k] == '/' && s[k + 1] == '>')
    ensures ExpandSelfClosing(s, names, wholeName) == s
    decreases |s|
  {
    if s != [] {
      assert forall n :: n in names ==> SlashOf(s, n).None?;
      NoAlternative(s, names, wholeName);
      ExpandWithoutSlashGt(s[1..], names, wholeName);
      assert s == [s[0]] + s[1..];
    }
  }

  lemma {:induction false} NoTagWithoutLt(t: string, names: seq<string>, wholeName: bool)
    requires t != [] && t[0] != '<'
    ensures SelfClosingAt(t, names, wholeName).None?
    decreases |names|
  {
    if names != [] {
      var n := names[0];
      assert ("<" + n)[0] == '<';
      if |n| + 1 <= |t| {
        assert t[..|n| + 1][0] == t[0];
      }
      assert SlashOf(t, n).None?;
      NoTagWithoutLt(t, names[1..], wholeName);
    }
  }

  /** A first character other than `<` is copied. */
  lemma ExpandPlainStep(a: string, rest: string, names: seq<string>, wholeName: bool)
    requires a != [] && a[0] != '<'
    ensures ExpandSelfClosing(a + rest, names, wholeName) == [a[0]] + ExpandSelfClosing(a[1..] + rest, names, wholeName)
  {
    var t := a + rest;
    assert t[0] == a[0];
    NoTagWithoutLt(t, names, wholeName);
    ExpandSkip(t, names, wholeName);
    assert t[1..] == a[1..] + rest;
  }

  lemma ConsAssoc(a: string, b: string)
    requires a != []
    ensures [a[0]] + (a[1..] + b) == a + b
  {
    assert a == [a[0]] + a[1..];
  }

  /** Text without `<` is copied. */
  lemma {:induction false} ExpandPlain(a: string, rest: string, names: seq<string>, wholeName: bool)
    requires '<' !in a
    ensures ExpandSelfClosing(a + rest, names, wholeName) == a + ExpandSelfClosing(rest, names, wholeName)
    decreases |a|
  {
    if a != [] {
      assert a[0] in a;
      ExpandPlainStep(a, rest, names, wholeName);
      ExpandPlain(a[1..], rest, names, wholeName);
      ConsAssoc(a, ExpandSelfClosing(rest, names, wholeName));
    } else {
      assert a + rest == rest;
    }
  }

  lemma SlashOfTag(n: string, attrs: string, rest: string)
    requires n != [] && '>' !in n && '>' !in attrs
    ensures var s := "<" + n + attrs + "/>" + rest;
      var g := |n| + 1 + |attrs|;
      SlashOf(s, n) == Some(g) && s[1] == n[0] && s[|n| + 1..g] == attrs && s[g + 2..] == rest
      && (attrs != [] ==> s[|n| + 1] == attrs[0])
  {
    var s := "<" + n + attrs + "/>" + rest;
    var g := |n| + 1 + |attrs|;
    assert s[..|n| + 1] == "<" + n;
    forall j | |n| + 1 <= j < g ensures s[j] != '>' {
      assert s[j] == attrs[j - |n| - 1];
    }
    assert s[g] == '/' && s[g + 1] == '>';
    assert FirstGtFrom(s, |n| + 1) == Some(g + 1);
    assert s[1] == n[0];
    assert s[|n| + 1..g] == attrs;
    assert s[g + 2..] == rest;
  }

  lemma {:induction false} OnlyAlternative(s: string, names: seq<string>, wholeName: bool, n: string, g: nat)
    requires n in names && SlashOf(s, n) == Some(g) && (wholeName ==> NameEnds(s, n, g))
    requires forall m :: m in names && m != n ==> SlashOf(s, m).None?
    ensures SelfClosingAt(s, names, wholeName) == Some(SelfClosing(n, g))
    decreases |names|
  {
    if names[0] != n {
      OnlyAlternative(s, names[1..], wholeName, n, g);
    }
  }

  /**
   * A self-closing tag whose text starts with one of the names (and with no
   * other) becomes an open/close pair named after that name only; under the
   * corrected pattern the name must be followed by `/>` or by whitespace.
   */
  lemma ExpandTag(n: string, attrs: string, rest: string, names: seq<string>, wholeName: bool)
    requires n != [] && n in names && '>' !in n && '>' !in attrs
    requires forall m :: m in names ==> m != [] && (m == n || m[0] != n[0])
    requires wholeName ==> attrs == [] || XmlSpace(attrs[0])
    ensures ExpandSelfClosing("<" + n + attrs + "/>" + rest, names, wholeName)
         == OpenClose(n, attrs) + ExpandSelfClosing(rest, names, wholeName)
  {
    var s := "<" + n + attrs + "/>" + rest;
    var g := |n| + 1 + |attrs|;
    SlashOfTag(n, attrs, rest);
    forall m | m in names && m != n ensures SlashOf(s, m).None? {
      assert ("<" + m)[1] == m[0] != s[1];
      if |m| + 1 <= |s| {
        assert s[..|m| + 1][1] == s[1];
      }
    }
    OnlyAlternative(s, names, wholeName, n, g);
    ExpandAt(s, names, wholeName, n, g);
    assert s[|n| + 1..g] == attrs;
    assert s[g + 2..] == rest;
  }

  // ---- the two pipelines ----------------------------------------------------

  const BodyTags: seq<string> := ["div", "a", "span"]

  /** The `<head>` clean-up: wrapper lines, then style blocks, then `<title .../>` (the pattern as written). */
  function HeadContent(serialized: string): (r: string)
    ensures '<' !in serialized ==> r == serialized
  {
    HeadTagFree(serialized);
    ExpandSelfClosing(StripStyle(StripWrapper(serialized, "head")), ["title"], false)
  }

  /** The `<body>` clean-up: wrapper lines, then `<div/>`, `<a/>`, `<span/>` (the corrected pattern). */
  function EbookContent(serialized: string): (r: string)
    ensures '<' !in serialized ==> r == serialized
  {
    BodyTagFree(serialized);
    ExpandSelfClosing(StripWrapper(serialized, "body"), BodyTags, true)
  }

  /** Text without `<` holds no match of the head's three patterns. */
  lemma HeadTagFree(s: string)
    ensures '<' !in s ==> ExpandSelfClosing(StripStyle(StripWrapper(s, "head")), ["title"], false) == s
  {
    if '<' !in s {
      WrapperFree(s, "head");
      StyleFree(s);
      ExpandFree(s, ["title"], false);
    }
  }

  /** Text without `<` holds no match of the body's two patterns. */
  lemma BodyTagFree(s: string)
    ensures '<' !in s ==> ExpandSelfClosing(StripWrapper(s, "body"), BodyTags, true) == s
  {
    if '<' !in s {
      WrapperFree(s, "body");
      ExpandFree(s, BodyTags, true);
    }
  }

  lemma ExpandFree(s: string, names: seq<string>, wholeName: bool)
    requires '<' !in s
    ensures ExpandSelfClosing(s, names, wholeName) == s
  {
    ExpandPlain(s, [], names, wholeName);
    assert s + [] == s;
  }

  lemma WrapperFree(s: string, name: string)
    requires PlainName(name) && '<' !in s
    ensures StripWrapper(s, name) == s
  {
    forall i | 0 <= i < |s| ensures s[i] != '<' {
      assert s[i] in s;
    }
    StripWithoutOpener(s, name);
  }

  /** A pattern starting with `<` occurs nowhere in text without `<`. */
  lemma NotAtWithoutLt(s: string, i: nat, p: string)
    requires '<' !in s && p != [] && p[0] == '<'
    ensures !At(s, i, p)
  {
    if i + |p| <= |s| {
      assert s[i] in s;
      assert s[i..i + |p|][0] == s[i];
    }
  }

  lemma StyleFree(s: string)
    requires '<' !in s
    ensures StripStyle(s) == s
  {
    forall i: nat | i <= |s| ensures !At(s, i, "<style") {
      NotAtWithoutLt(s, i, "<style");
    }
    assert NoStyleSpan(s);
  }

  /** A text in which no `<` starts `<name` or `</name` is kept. */
  lemma {:induction false} StripWithoutOpener(l: string, name: string)
    requires PlainName(name)
    requires forall i :: 0 <= i < |l| && l[i] == '<' ==> OpenerLen(l[i..], name) == 0
    ensures StripWrapper(l, name) == l
    decreases |l|
  {
    if l != [] {
      assert l[0..] == l;
      assert OpenerLen(l, name) == 0;
      StripSkip(l, name);
      var l' := l[1..];
      forall i | 0 <= i < |l'| && l'[i] == '<' ensures OpenerLen(l'[i..], name) == 0 {
        assert l'[i..] == l[i + 1..];
      }
      StripWithoutOpener(l', name);
      assert l == [l[0]] + l';
    }
  }

  /**
   * A serialised element whose own start and end tags sit on lines of their
   * own loses those two tags and keeps its inner line, newlines included.
   */
  lemma {:induction false} StripElementTags(name: string, inner: string)
    requires PlainName(name) && NoNewline(inner)
    requires forall i :: 0 <= i < |inner| && inner[i] == '<' ==> OpenerLen(inner[i..], name) == 0
    ensures StripWrapper(ThreeLines("<" + name + ">", inner, "</" + name + ">"), name) == ThreeLines([], inner, [])
  {
    StripOpenTag(name);
    StripCloseTag(name);
    StripWithoutOpener(inner, name);
    StripThreeLines("<" + name + ">", inner, "</" + name + ">", name);
  }

  function ThreeLines(a: string, b: string, c: string): string
  {
    a + "\n" + b + "\n" + c
  }

  lemma ThreeLinesNested(a: string, b: string, c: string)
    ensures ThreeLines(a, b, c) == a + "\n" + (b + "\n" + c)
  {
  }

  lemma StripThreeLines(a: string, b: string, c: string, name: string)
    requires PlainName(name) && NoNewline(a) && NoNewline(b)
    ensures StripWrapper(ThreeLines(a, b, c), name)
         == ThreeLines(StripWrapper(a, name), StripWrapper(b, name), StripWrapper(c, name))
  {
    ThreeLinesNested(a, b, c);
    StripByLine(a, b + "\n" + c, name);
    StripByLine(b, c, name);
    ThreeLinesNested(StripWrapper(a, name), StripWrapper(b, name), StripWrapper(c, name));
  }

  lemma StripOpenTag(name: string)
    requires PlainName(name)
    ensures NoNewline("<" + name + ">") && StripWrapper("<" + name + ">", name) == []
  {
    var open := "<" + name + ">";
    forall k | 0 <= k < |open| ensures open[k] != '\n' {
      if 0 < k < |open| - 1 { assert open[k] == name[k - 1]; }
    }
    assert open[..|name| + 1] == "<" + name;
    assert open[1] == name[0] != '/';
    assert !StartsWith(open, "</" + name) by {
      if |name| + 2 <= |open| { assert open[..|name| + 2][1] == open[1]; }
    }
    StripLineAtOpener(open, name, |name| + 1);
    assert open[|name| + 2..] == [];
  }

  lemma StripCloseTag(name: string)
    requires PlainName(name)
    ensures NoNewline("</" + name + ">") && StripWrapper("</" + name + ">", name) == []
  {
    var close := "</" + name + ">";
    forall k | 0 <= k < |close| ensures close[k] != '\n' {
      if 1 < k < |close| - 1 { assert close[k] == name[k - 2]; }
    }
    assert close[..|name| + 2] == "</" + name;
    StripLineAtOpener(close, name, |name| + 2);
    assert close[|name| + 3..] == [];
  }

  lemma DivLineKept(attrs: string)
    requires NoNewline(attrs) && '<' !in attrs
    ensures NoNewline("<div" + attrs + "/>")
    ensures forall i :: 0 <= i < |"<div" + attrs + "/>"| && ("<div" + attrs + "/>")[i] == '<'
              ==> OpenerLen(("<div" + attrs + "/>")[i..], "body") == 0
  {
    var line := "<div" + attrs + "/>";
    forall k | 0 <= k < |line| ensures line[k] != '\n' && (k > 0 ==> line[k] != '<') {
      if 4 <= k < |line| - 2 { assert line[k] == attrs[k - 4]; }
    }
    assert line[0..] == line;
    assert line[1] == 'd';
  }

  /** A line holding one self-closing tag, between two newlines. */
  lemma {:induction false} ExpandTagLine(n: string, attrs: string, names: seq<string>, wholeName: bool)
    requires n != [] && n in names && '>' !in n && '>' !in attrs
    requires forall m :: m in names ==> m != [] && (m == n || m[0] != n[0])
    requires wholeName ==> attrs == [] || XmlSpace(attrs[0])
    ensures ExpandSelfClosing(ThreeLines([], "<" + n + attrs + "/>", []), names, wholeName)
         == ThreeLines([], OpenClose(n, attrs), [])
  {
    var tag := "<" + n + attrs + "/>";
    var pair := OpenClose(n, attrs);
    MiddleLine(tag);
    MiddleLine(pair);
    ExpandPlain("\n", tag + "\n", names, wholeName);
    ExpandTag(n, attrs, "\n", names, wholeName);
    ExpandPlain("\n", [], names, wholeName);
  }

  lemma MiddleLine(b: string)
    ensures ThreeLines([], b, []) == "\n" + (b + "\n") && "\n" + [] == "\n"
  {
  }

  lemma Spelling(attrs: string)
    ensures "<" + "body" + ">" == "<body>" && "</" + "body" + ">" == "</body>"
    ensures "<div" + attrs + "/>" == "<" + "div" + attrs + "/>"
  {
  }

  /**
   * `<body>`, one `<div .../>` line and `</body>` give the div as an
   * open/close pair between the two newlines that are left.
   */
  lemma EbookContentOfSingleDiv(attrs: string)
    requires NoNewline(attrs) && '<' !in attrs && '>' !in attrs
    requires attrs == [] || XmlSpace(attrs[0])
    ensures EbookContent(ThreeLines("<body>", "<div" + attrs + "/>", "</body>"))
         == ThreeLines([], OpenClose("div", attrs), [])
  {
    DivLineKept(attrs);
    Spelling(attrs);
    StripElementTags("body", "<div" + attrs + "/>");
    ExpandTagLine("div", attrs, BodyTags, true);
  }

  /** When no alternative matches, the pattern does not match (the converse of `SelfClosingAt`'s last ensures). */
  lemma {:induction false} NoAlternative(s: string, names: seq<string>, wholeName: bool)
    requires forall n :: n in names ==> SlashOf(s, n).None? || (wholeName && !NameEnds(s, n, SlashOf(s, n).value))
    ensures SelfClosingAt(s, names, wholeName).None?
    decreases |names|
  {
    if names != [] {
      assert names[0] in names;
      NoAlternative(s, names[1..], wholeName);
    }
  }

  /**
   * As written, the alternatives only have to START the tag name: `<abbr/>`,
   * `<aside/>` or `<audio .../>` is taken for an `<a .../>` and closed with `</a>`.
   */
  lemma NameStartingWithA(more: string)
    requires '>' !in more
    ensures ExpandSelfClosing("<a" + more + "/>", BodyTags, false) == OpenClose("a", more)
  {
    assert "<a" + more + "/>" == "<" + "a" + more + "/>" + [];
    ExpandTag("a", more, [], BodyTags, false);
  }

  /** Under the corrected pattern, no alternative matches a tag whose name only starts with `a`. */
  lemma LongerNameUnmatched(more: string)
    requires more != [] && !XmlSpace(more[0]) && '>' !in more
    ensures SelfClosingAt("<a" + more + "/>", BodyTags, true).None?
  {
    var s := "<a" + more + "/>";
    assert s == "<" + "a" + more + "/>" + [];
    SlashOfTag("a", more, []);
    assert !NameEnds(s, "a", |more| + 2);
    forall m | m in BodyTags && m != "a" ensures SlashOf(s, m).None? {
      assert ("<" + m)[1] == m[0] != s[1];
      if |m| + 1 <= |s| {
        assert s[..|m| + 1][1] == s[1];
      }
    }
    NoAlternative(s, BodyTags, true);
  }

  lemma NoLtAfter(more: string)
    requires '<' !in more
    ensures '<' !in ("<a" + more + "/>")[1..]
  {
    var s := "<a" + more + "/>";
    forall k | 1 <= k < |s| ensures s[k] != '<' {
      if k == 1 {
        assert s[k] == 'a';
      } else if k < |s| - 2 {
        assert s[k] == more[k - 2];
      } else {
        assert s[k] == "/>"[k - 2 - |more|];
      }
    }
    assert forall k :: 0 <= k < |s[1..]| ==> s[1..][k] == s[k + 1];
  }

  /** Text at whose start no tag matches, and without `<` after that, is kept. */
  lemma ExpandUnmatched(s: string, names: seq<string>, wholeName: bool)
    requires s != [] && SelfClosingAt(s, names, wholeName).None? && '<' !in s[1..]
    ensures ExpandSelfClosing(s, names, wholeName) == s
  {
    ExpandSkip(s, names, wholeName);
    ExpandPlain(s[1..], [], names, wholeName);
    assert s[1..] + [] == s[1..];
    assert s == [s[0]] + s[1..];
  }

  /**
   * With the tag name required to end after the alternative, a self-closing
   * tag whose name only starts with `a` (`<abbr/>`, `<aside .../>`) is kept.
   */
  lemma LongerNameKept(more: string)
    requires more != [] && !XmlSpace(more[0]) && '<' !in more && '>' !in more
    ensures ExpandSelfClosing("<a" + more + "/>", BodyTags, true) == "<a" + more + "/>"
  {
    var s := "<a" + more + "/>";
    LongerNameUnmatched(more);
    NoLtAfter(more);
    ExpandUnmatched(s, BodyTags, true);
  }
}
