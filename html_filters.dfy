/**
 * Two HTML rewrites of functions.php, both a preg_replace that moves a post count inside its
 * link: xt9_archives_link and xt9_list_categories.
 *
 * preg_replace tries a match at each position from left to right and, after a match, goes on
 * right after it. Neither pattern looks behind or anchors, so a match at a position is a match
 * at the start of the rest of the text, and the rewrites recurse on that rest. The patterns are
 * ASCII, so a string is a sequence of characters here; `.` matches anything but a newline and
 * \s is one of space, tab, LF, VT, FF, CR, as in PCRE without the u modifier.
 */
module HtmlFilters {
  import opened Optional

  /** </a> occurs in s at index i. */
  predicate AnchorEndAt(s: string, i: nat) {
    i + 4 <= |s| && s[i] == '<' && s[i + 1] == '/' && s[i + 2] == 'a' && s[i + 3] == '>'
  }

  /** </li> occurs in s at index i. */
  predicate ItemEndAt(s: string, i: nat) {
    i + 5 <= |s| && s[i] == '<' && s[i + 1] == '/' && s[i + 2] == 'l' && s[i + 3] == 'i' && s[i + 4] == '>'
  }

  lemma AnchorEndText(s: string, i: nat)
    requires AnchorEndAt(s, i)
    ensures s[i..i + 4] == "</a>"
  {
  }

  lemma ItemEndText(s: string, i: nat)
    requires ItemEndAt(s, i)
    ensures s[i..i + 5] == "</li>"
  {
  }

  /** How many times c occurs in s. */
  function Occurrences(s: string, c: char): nat {
    if s == [] then 0 else (if s[0] == c then 1 else 0) + Occurrences(s[1..], c)
  }

  lemma {:induction false} OccurrencesAppend(a: string, b: string, c: char)
    ensures Occurrences(a + b, c) == Occurrences(a, c) + Occurrences(b, c)
  {
    if a != [] {
      assert (a + b)[1..] == a[1..] + b;
      OccurrencesAppend(a[1..], b, c);
    } else {
      assert a + b == b;
    }
  }

  /** Occurrences in four consecutive pieces add up. */
  lemma Occurrences4(p: string, q: string, r: string, t: string, c: char)
    ensures Occurrences(p + q + r + t, c) == Occurrences(p, c) + Occurrences(q, c) + Occurrences(r, c) + Occurrences(t, c)
  {
    OccurrencesAppend(p + q + r, t, c);
    OccurrencesAppend(p + q, r, c);
    OccurrencesAppend(p, q, c);
  }

  /** s is the concatenation of its pieces cut at i, j and k. */
  lemma Split4(s: string, i: nat, j: nat, k: nat)
    requires i <= j <= k <= |s|
    ensures s == s[..i] + s[i..j] + s[j..k] + s[k..]
  {
  }

  // ---------------------------------------------------------------- xt9_archives_link

  /**
   * The lazy group (.+?) followed by </li>: the least n >= len such that s[len - 1 .. n] holds
   * no newline and </li> follows at n.
   */
  function LazyRun(s: string, len: nat): (r: Option<nat>)
    requires 1 <= len
    decreases |s| + 1 - len
    ensures r.Some? ==> len <= r.value && ItemEndAt(s, r.value)
  {
    if len > |s| then None
    else if s[len - 1] == '\n' then None
    else if ItemEndAt(s, len) then Some(len)
    else LazyRun(s, len + 1)
  }

  /** What LazyRun passes over: no newline, and no earlier </li>. */
  lemma {:induction false} LazyRunSound(s: string, len: nat)
    requires 1 <= len && LazyRun(s, len).Some?
    decreases |s| + 1 - len
    ensures forall k :: len - 1 <= k < LazyRun(s, len).value ==> s[k] != '\n'
    ensures forall k :: len <= k < LazyRun(s, len).value ==> !ItemEndAt(s, k)
  {
    if !ItemEndAt(s, len) {
      LazyRunSound(s, len + 1);
    }
  }

  /** LazyRun finds the least length whenever one exists. */
  lemma {:induction false} LazyRunFinds(s: string, len: nat, n: nat)
    requires 1 <= len <= n && ItemEndAt(s, n)
    requires forall k :: len - 1 <= k < n ==> s[k] != '\n'
    decreases n - len
    ensures LazyRun(s, len).Some? && LazyRun(s, len).value <= n
  {
    if !ItemEndAt(s, len) {
      LazyRunFinds(s, len + 1, n);
    }
  }

  /** The length of the group when @</a>(.+?)</li>@ matches at the start of s. */
  function ArchiveMatch(s: string): (r: Option<nat>)
    ensures r.Some? ==> 1 <= r.value && 4 + r.value + 5 <= |s|
  {
    if AnchorEndAt(s, 0) then LazyRun(s[4..], 1) else None
  }

  /** The pattern's meaning: </a>, then n >= 1 characters none of them a newline, then </li>. */
  predicate ArchiveShape(s: string, n: nat) {
    AnchorEndAt(s, 0) && 1 <= n && ItemEndAt(s, 4 + n) &&
    forall k :: 4 <= k < 4 + n ==> s[k] != '\n'
  }

  /** A match has the shape, and no shorter group does. */
  lemma ArchiveMatchSound(s: string)
    requires ArchiveMatch(s).Some?
    ensures ArchiveShape(s, ArchiveMatch(s).value)
    ensures forall n :: 1 <= n < ArchiveMatch(s).value ==> !ArchiveShape(s, n)
  {
    var t := s[4..];
    var m := LazyRun(t, 1).value;
    LazyRunSound(t, 1);
    forall k | 4 <= k < 4 + m ensures s[k] != '\n' {
      assert s[k] == t[k - 4];
    }
    assert ItemEndAt(t, m);
    forall n | 1 <= n < m ensures !ArchiveShape(s, n) {
      assert !ItemEndAt(t, n);
    }
  }

  /** Whenever the shape holds for some length, the pattern matches, with a group no longer. */
  lemma ArchiveMatchComplete(s: string, n: nat)
    requires ArchiveShape(s, n)
    ensures ArchiveMatch(s).Some? && ArchiveMatch(s).value <= n
  {
    var t := s[4..];
    forall k | 0 <= k < n ensures t[k] != '\n' {
      assert t[k] == s[k + 4];
    }
    assert ItemEndAt(t, n);
    LazyRunFinds(t, 1, n);
  }

  /** The pattern matches exactly when the shape holds for some length, and then with the least such length. */
  lemma ArchiveMatchIsLeast(s: string)
    ensures ArchiveMatch(s).Some? ==> ArchiveShape(s, ArchiveMatch(s).value)
    ensures ArchiveMatch(s).Some? ==> forall n :: 1 <= n < ArchiveMatch(s).value ==> !ArchiveShape(s, n)
    ensures (exists n :: ArchiveShape(s, n)) <==> ArchiveMatch(s).Some?
  {
    if ArchiveMatch(s).Some? {
      ArchiveMatchSound(s);
    }
    if exists n :: ArchiveShape(s, n) {
      var n :| ArchiveShape(s, n);
      ArchiveMatchComplete(s, n);
    }
  }

  /**
   * xt9_archives_link: preg_replace('@</a>(.+?)</li>@', '\1</a></li>', $html). Each match
   * </a>x</li> becomes x</a></li>; the two tags are taken from the match itself
   * (ArchivesLinkStep states them as text). The rewrite keeps the length.
   */
  function ArchivesLink(s: string): (r: string)
    ensures |r| == |s|
  {
    if s == [] then []
    else
      match ArchiveMatch(s)
      case Some(n) => s[4..4 + n] + s[..4] + s[4 + n..9 + n] + ArchivesLink(s[9 + n..])
      case None => [s[0]] + ArchivesLink(s[1..])
  }

  /** A match is replaced by its group followed by "</a></li>", and the scan goes on after the match. */
  lemma ArchivesLinkStep(s: string)
    requires ArchiveMatch(s).Some?
    ensures var n := ArchiveMatch(s).value;
      ArchivesLink(s) == s[4..4 + n] + "</a></li>" + ArchivesLink(s[9 + n..])
  {
    var n := ArchiveMatch(s).value;
    AnchorEndText(s, 0);
    assert ItemEndAt(s[4..], n);
    assert ItemEndAt(s, 4 + n);
    ItemEndText(s, 4 + n);
  }

  /** The rewrite only moves text around: it keeps the length and how often each character occurs. */
  lemma {:induction false} ArchivesLinkKeeps(s: string, c: char)
    ensures |ArchivesLink(s)| == |s|
    ensures Occurrences(ArchivesLink(s), c) == Occurrences(s, c)
  {
    if s != [] {
      match ArchiveMatch(s)
      case Some(n) =>
        var rest := s[9 + n..];
        ArchivesLinkKeeps(rest, c);
        var a, x, b := s[..4], s[4..4 + n], s[4 + n..9 + n];
        Split4(s, 4, 4 + n, 9 + n);
        Occurrences4(a, x, b, rest, c);
        Occurrences4(x, a, b, ArchivesLink(rest), c);
      case None =>
        ArchivesLinkKeeps(s[1..], c);
        OccurrencesAppend([s[0]], ArchivesLink(s[1..]), c);
    }
  }

  /** Without a match anywhere the text comes back unchanged. */
  lemma {:induction false} ArchivesLinkNoMatch(s: string)
    requires forall k :: 0 <= k < |s| ==> ArchiveMatch(s[k..]).None?
    ensures ArchivesLink(s) == s
  {
    if s != [] {
      assert s[0..] == s;
      forall k | 0 <= k < |s| - 1 ensures ArchiveMatch(s[1..][k..]).None? {
        assert s[1..][k..] == s[k + 1..];
      }
      ArchivesLinkNoMatch(s[1..]);
    }
  }

  // ---------------------------------------------------------------- xt9_list_categories

  /** \s of PCRE without the u modifier. */
  predicate IsPcreSpace(c: char) {
    c == ' ' || '\t' <= c <= '\r'
  }

  predicate IsDigit(c: char) {
    '0' <= c <= '9'
  }

  /** The first index at or after i that is not white space: where greedy \s* stops. */
  function SpacesEnd(s: string, i: nat): (j: nat)
    requires i <= |s|
    decreases |s| - i
    ensures i <= j <= |s| && (j < |s| ==> !IsPcreSpace(s[j]))
  {
    if i < |s| && IsPcreSpace(s[i]) then SpacesEnd(s, i + 1) else i
  }

  lemma {:induction false} SpacesEndSound(s: string, i: nat)
    requires i <= |s|
    decreases |s| - i
    ensures forall k :: i <= k < SpacesEnd(s, i) ==> IsPcreSpace(s[k])
  {
    if i < |s| && IsPcreSpace(s[i]) {
      SpacesEndSound(s, i + 1);
    }
  }

  /** The first index at or after i that is not a digit: where greedy \d+ stops. */
  function DigitsEnd(s: string, i: nat): (j: nat)
    requires i <= |s|
    decreases |s| - i
    ensures i <= j <= |s| && (j < |s| ==> !IsDigit(s[j]))
  {
    if i < |s| && IsDigit(s[i]) then DigitsEnd(s, i + 1) else i
  }

  lemma {:induction false} DigitsEndSound(s: string, i: nat)
    requires i <= |s|
    decreases |s| - i
    ensures forall k :: i <= k < DigitsEnd(s, i) ==> IsDigit(s[k])
  {
    if i < |s| && IsDigit(s[i]) {
      DigitsEndSound(s, i + 1);
    }
  }

  /** A run of white space followed by a '(' ends where SpacesEnd says. */
  lemma SpaceRunEnds(s: string, i: nat, j: nat)
    requires i <= j < |s| && s[j] == '(' && forall k :: i <= k < j ==> IsPcreSpace(s[k])
    ensures SpacesEnd(s, i) == j
  {
    SpacesEndSound(s, i);
    var e := SpacesEnd(s, i);
    if e < j {
      assert false;
    } else if j < e {
      assert false;
    }
  }

  /** A run of digits followed by a ')' ends where DigitsEnd says. */
  lemma DigitRunEnds(s: string, i: nat, j: nat)
    requires i <= j < |s| && s[j] == ')' && forall k :: i <= k < j ==> IsDigit(s[k])
    ensures DigitsEnd(s, i) == j
  {
    DigitsEndSound(s, i);
    var e := DigitsEnd(s, i);
    if e < j {
      assert false;
    } else if j < e {
      assert false;
    }
  }

  /**
   * Where the digits of /<\/a>\s*\((\d+)\)/ start and end when it matches at the start of s.
   * Greedy \s* and \d+ cannot give a character back here: the next one must be '(' or ')',
   * neither of which they take.
   */
  function CountMatch(s: string): (r: Option<(nat, nat)>)
    ensures r.Some? ==> 4 < r.value.0 < r.value.1 < |s|
  {
    if !AnchorEndAt(s, 0) then None
    else
      var open := SpacesEnd(s, 4);
      if open < |s| && s[open] == '(' then
        var close := DigitsEnd(s, open + 1);
        if open + 1 < close < |s| && s[close] == ')' then Some((open + 1, close)) else None
      else None
  }

  /** The pattern's meaning: </a>, white space, '(', the digits s[first..last], ')'. */
  predicate CountShape(s: string, first: nat, last: nat) {
    AnchorEndAt(s, 0) && 4 < first < last < |s| &&
    (forall k :: 4 <= k < first - 1 ==> IsPcreSpace(s[k])) && s[first - 1] == '(' &&
    (forall k :: first <= k < last ==> IsDigit(s[k])) && s[last] == ')'
  }

  /** The pattern matches exactly when the shape holds, and the shape fixes the digits. */
  lemma CountMatchIsShape(s: string, first: nat, last: nat)
    ensures CountMatch(s) == Some((first, last)) <==> CountShape(s, first, last)
  {
    if AnchorEndAt(s, 0) {
      var open := SpacesEnd(s, 4);
      SpacesEndSound(s, 4);
      if open < |s| && s[open] == '(' {
        DigitsEndSound(s, open + 1);
      }
      if CountShape(s, first, last) {
        SpaceRunEnds(s, 4, first - 1);
        DigitRunEnds(s, first, last);
      }
    }
  }

  /**
   * xt9_list_categories: preg_replace('/<\/a>\s*\((\d+)\)/', ' ($1)</a>', $output). Each match
   * becomes a space, the parenthesised count and the </a>; the parentheses and the tag are
   * taken from the match itself (ListCategoriesStep states them as text).
   */
  function ListCategories(s: string): string {
    if s == [] then []
    else
      match CountMatch(s)
      case Some((first, last)) => [' '] + s[first - 1..last + 1] + s[..4] + ListCategories(s[last + 1..])
      case None => [s[0]] + ListCategories(s[1..])
  }

  /** A match is replaced by " (", its digits, ")</a>", and the scan goes on after the match. */
  lemma ListCategoriesStep(s: string, first: nat, last: nat)
    requires CountMatch(s) == Some((first, last))
    ensures ListCategories(s) == " (" + s[first..last] + ")</a>" + ListCategories(s[last + 1..])
  {
    var rest := ListCategories(s[last + 1..]);
    ListCategoriesAtMatch(s, first, last);
    AnchorEndText(s, 0);
    Parenthesised(s, first, last);
    Regroup(s[first - 1..last + 1], s[first..last], s[..4], rest);
  }

  /** One unfolding of ListCategories at a match. */
  lemma ListCategoriesAtMatch(s: string, first: nat, last: nat)
    requires CountMatch(s) == Some((first, last))
    ensures ListCategories(s) == [' '] + s[first - 1..last + 1] + s[..4] + ListCategories(s[last + 1..])
  {
  }

  /** The slice from the '(' to the ')' is the digits between parentheses. */
  lemma Parenthesised(s: string, first: nat, last: nat)
    requires 0 < first <= last < |s| && s[first - 1] == '(' && s[last] == ')'
    ensures s[first - 1..last + 1] == ['('] + s[first..last] + [')']
  {
  }

  lemma Regroup(count: string, digits: string, tag: string, rest: string)
    requires count == ['('] + digits + [')'] && tag == "</a>"
    ensures [' '] + count + tag + rest == " (" + digits + ")</a>" + rest
  {
  }

  lemma {:induction false} OccurrencesAbsent(s: string, c: char)
    requires forall k :: 0 <= k < |s| ==> s[k] != c
    ensures Occurrences(s, c) == 0
  {
    if s != [] {
      OccurrencesAbsent(s[1..], c);
    }
  }

  /**
   * The rewrite keeps every character that is not white space, as often as it occurs: it only
   * drops the white space before a count and adds a space.
   */
  lemma {:induction false} ListCategoriesKeepsVisible(s: string, c: char)
    requires !IsPcreSpace(c)
    ensures Occurrences(ListCategories(s), c) == Occurrences(s, c)
  {
    if s != [] {
      match CountMatch(s)
      case Some((first, last)) =>
        var rest := s[last + 1..];
        ListCategoriesKeepsVisible(rest, c);
        var tag, spaces, count := s[..4], s[4..first - 1], s[first - 1..last + 1];
        Split4(s, 4, first - 1, last + 1);
        SpacesEndSound(s, 4);
        OccurrencesAbsent(spaces, c);
        OccurrencesAbsent([' '], c);
        Occurrences4(tag, spaces, count, rest, c);
        Occurrences4([' '], count, tag, ListCategories(rest), c);
      case None =>
        ListCategoriesKeepsVisible(s[1..], c);
        OccurrencesAppend([s[0]], ListCategories(s[1..]), c);
    }
  }

  /** Without a match anywhere the text comes back unchanged. */
  lemma {:induction false} ListCategoriesNoMatch(s: string)
    requires forall k :: 0 <= k < |s| ==> CountMatch(s[k..]).None?
    ensures ListCategories(s) == s
  {
    if s != [] {
      assert s[0..] == s;
      forall k | 0 <= k < |s| - 1 ensures CountMatch(s[1..][k..]).None? {
        assert s[1..][k..] == s[k + 1..];
      }
      ListCategoriesNoMatch(s[1..]);
    }
  }
}
