/**
  The Python `str` operations the repository relies on, restricted to ASCII:
  `isspace`, `lower`, `split()`, `sep.join`, `strip()`, `find`, `split(sep)`,
  `replace` of one character, `title` and `str` of a non-negative integer.
  Characters outside ASCII pass through `Lower` unchanged and are never whitespace.
 */
module Text {
  import opened Wrappers

  /** `str.isspace` on ASCII: tab, line feed, vertical tab, form feed, carriage
      return, the separators 0x1C-0x1F, and space. */
  predicate IsSpace(c: char) {
    var k := c as int;
    k == 32 || 9 <= k <= 13 || 28 <= k <= 31
  }

  predicate IsUpper(c: char) {
    'A' <= c <= 'Z'
  }

  predicate IsLowerCase(c: char) {
    'a' <= c <= 'z'
  }

  predicate IsAlpha(c: char) {
    IsUpper(c) || IsLowerCase(c)
  }

  function ToLower(c: char): (d: char)
    ensures IsUpper(c) ==> d as int == c as int + 32
    ensures !IsUpper(d)
    ensures !IsUpper(c) ==> d == c
    ensures IsAlpha(d) == IsAlpha(c)
  {
    if IsUpper(c) then (c as int + 32) as char else c
  }

  function ToUpper(c: char): (d: char)
    ensures IsLowerCase(c) ==> d as int == c as int - 32
    ensures !IsLowerCase(d)
    ensures !IsLowerCase(c) ==> d == c
    ensures IsAlpha(d) == IsAlpha(c)
  {
    if IsLowerCase(c) then (c as int - 32) as char else c
  }

  /** `s.lower()` */
  function Lower(s: string): (r: string)
    ensures |r| == |s|
    ensures forall i :: 0 <= i < |s| ==>
      r[i] as int == if 'A' <= s[i] <= 'Z' then s[i] as int + 32 else s[i] as int
  {
    seq(|s|, i requires 0 <= i < |s| => ToLower(s[i]))
  }

  lemma LowerHasNoUpper(s: string)
    ensures forall c :: c in Lower(s) ==> !IsUpper(c)
  {
    forall c | c in Lower(s) ensures !IsUpper(c) {
      var i :| 0 <= i < |s| && Lower(s)[i] == c;
    }
  }

  /** Lowering a string without upper-case letters changes nothing. */
  lemma LowerIdentity(s: string)
    requires forall c :: c in s ==> !IsUpper(c)
    ensures Lower(s) == s
  {
    forall i | 0 <= i < |s| ensures Lower(s)[i] == s[i] {
      assert s[i] in s;
    }
  }

  /** A token of `str.split()`: a non-empty run of non-whitespace characters. */
  ghost predicate IsToken(w: string) {
    |w| > 0 && forall i :: 0 <= i < |w| ==> !IsSpace(w[i])
  }

  /** Length of the leading run of non-whitespace characters. */
  function WordLen(s: string): (n: nat)
    ensures n <= |s|
    ensures forall i :: 0 <= i < n ==> !IsSpace(s[i])
    ensures n < |s| ==> IsSpace(s[n])
  {
    if s == [] || IsSpace(s[0]) then 0 else 1 + WordLen(s[1..])
  }

  /** `s.split()`: the maximal runs of non-whitespace characters, in order. */
  function Split(s: string): (ws: seq<string>)
    ensures forall w :: w in ws ==> IsToken(w)
    ensures forall w, c :: w in ws && c in w ==> c in s
    ensures ws == [] <==> forall i :: 0 <= i < |s| ==> IsSpace(s[i])
    decreases |s|
  {
    if s == [] then []
    else if IsSpace(s[0]) then
      var ws := Split(s[1..]);
      assert forall c :: c in s[1..] ==> c in s;
      assert forall i :: 1 <= i < |s| ==> s[i] == s[1..][i - 1];
      ws
    else
      var n := WordLen(s);
      var ws := [s[..n]] + Split(s[n..]);
      assert forall c :: c in s[..n] ==> c in s;
      assert forall c :: c in s[n..] ==> c in s;
      ws
  }

  /** A whitespace character ends the token before it: the tokens of `u + [c] + v`
      are those of `u` followed by those of `v`. With `SplitJoin` on a single
      token this fixes `Split` on every string. */
  lemma {:induction false} SplitAtSpace(u: string, c: char, v: string)
    requires IsSpace(c)
    ensures Split(u + [c] + v) == Split(u) + Split(v)
    decreases |u|
  {
    var s := u + [c] + v;
    if u == [] {
      assert s[1..] == v;
    } else if IsSpace(u[0]) {
      assert s[1..] == u[1..] + [c] + v;
      SplitAtSpace(u[1..], c, v);
    } else {
      var m := WordLen(u);
      assert forall i :: 0 <= i < |u| ==> s[i] == u[i];
      assert s[|u|] == c;
      WordLenPrefix(s, u, m);
      assert s[..m] == u[..m];
      assert s[m..] == u[m..] + [c] + v;
      SplitAtSpace(u[m..], c, v);
    }
  }

  /** The leading word of `u` is the leading word of any `s` that continues `u`
      with whitespace or nothing after it. */
  lemma {:induction false} WordLenPrefix(s: string, u: string, m: nat)
    requires |u| < |s| && s[..|u|] == u && IsSpace(s[|u|])
    requires m == WordLen(u)
    ensures WordLen(s) == m
    decreases |u|
  {
    if u != [] && !IsSpace(u[0]) {
      assert s[0] == u[0];
      assert s[1..][..|u[1..]|] == u[1..];
      WordLenPrefix(s[1..], u[1..], WordLen(u[1..]));
    } else if u != [] {
      assert s[0] == u[0];
    }
  }

  /** The total length of the parts. */
  function TotalLength(parts: seq<string>): nat {
    if parts == [] then 0 else |parts[0]| + TotalLength(parts[1..])
  }

  /** `sep.join(parts)`: every part once, in order, with one separator between
      neighbours. */
  function JoinWith(sep: string, parts: seq<string>): (r: string)
    ensures parts == [] ==> r == ""
    ensures |parts| == 1 ==> r == parts[0]
    ensures parts != [] ==> |r| == TotalLength(parts) + (|parts| - 1) * |sep|
    ensures parts != [] ==> r[..|parts[0]|] == parts[0]
  {
    if |parts| == 0 then ""
    else if |parts| == 1 then parts[0]
    else parts[0] + sep + JoinWith(sep, parts[1..])
  }

  /** Joining a concatenation puts one separator between the joins of the two
      parts. With the empty and one-part cases of `JoinWith` this fixes the
      joined string: every part in order, one separator between neighbours. */
  lemma {:induction false} JoinWithAppend(sep: string, a: seq<string>, b: seq<string>)
    requires a != [] && b != []
    ensures JoinWith(sep, a + b) == JoinWith(sep, a) + sep + JoinWith(sep, b)
    decreases |a|
  {
    assert (a + b)[0] == a[0];
    if |a| == 1 {
      assert (a + b)[1..] == b;
    } else {
      assert (a + b)[1..] == a[1..] + b;
      JoinWithAppend(sep, a[1..], b);
    }
  }

  /** A character property shared by the separator and every part holds of the joined string. */
  lemma {:induction false} JoinWithKeeps(sep: string, parts: seq<string>, P: char -> bool)
    requires forall c :: c in sep ==> P(c)
    requires forall w, c :: w in parts && c in w ==> P(c)
    ensures forall c :: c in JoinWith(sep, parts) ==> P(c)
  {
    if |parts| > 1 {
      JoinWithKeeps(sep, parts[1..], P);
      assert parts[0] in parts;
    } else if |parts| == 1 {
      assert parts[0] in parts;
    }
  }

  lemma WordLenOfToken(w: string, t: string)
    requires forall i :: 0 <= i < |w| ==> !IsSpace(w[i])
    requires t == [] || IsSpace(t[0])
    ensures WordLen(w + t) == |w|
  {
    var s := w + t;
    assert forall i :: 0 <= i < |w| ==> s[i] == w[i];
    assert |w| < |s| ==> s[|w|] == t[0];
  }

  /** Splitting words joined by single spaces gives the words back. */
  lemma {:induction false} SplitJoin(ws: seq<string>)
    requires forall w :: w in ws ==> IsToken(w)
    ensures Split(JoinWith(" ", ws)) == ws
  {
    if |ws| == 1 {
      var w := ws[0];
      assert w in ws;
      WordLenOfToken(w, "");
      assert w + "" == w;
      assert w[..|w|] == w;
      assert w[|w|..] == [];
    } else if |ws| > 1 {
      var w := ws[0];
      assert w in ws;
      var rest := JoinWith(" ", ws[1..]);
      var s := w + " " + rest;
      assert s == w + (" " + rest);
      WordLenOfToken(w, " " + rest);
      assert s[..|w|] == w;
      assert s[|w|..] == " " + rest;
      assert (" " + rest)[1..] == rest;
      SplitJoin(ws[1..]);
      assert ws == [w] + ws[1..];
    }
  }

  /** Words joined by single spaces: no whitespace at either end, and every
      whitespace character is a single space between two words. */
  lemma {:induction false} JoinedSpacing(ws: seq<string>)
    requires forall w :: w in ws ==> IsToken(w)
    ensures ws != [] ==> |JoinWith(" ", ws)| > 0
    ensures var r := JoinWith(" ", ws);
      |r| > 0 ==> !IsSpace(r[0]) && !IsSpace(r[|r| - 1])
    ensures var r := JoinWith(" ", ws);
      forall i :: 0 <= i < |r| && IsSpace(r[i]) ==> r[i] == ' ' && 0 < i < |r| - 1 && !IsSpace(r[i + 1])
  {
    if |ws| == 1 {
      assert ws[0] in ws;
    } else if |ws| > 1 {
      var w := ws[0];
      assert w in ws;
      var j := JoinWith(" ", ws[1..]);
      JoinedSpacing(ws[1..]);
      var r := w + " " + j;
      assert r == JoinWith(" ", ws);
      assert r[0] == w[0];
      assert r[|r| - 1] == j[|j| - 1];
      forall i | 0 <= i < |r| && IsSpace(r[i])
        ensures r[i] == ' ' && 0 < i < |r| - 1 && !IsSpace(r[i + 1])
      {
        if i == |w| {
          assert r[i + 1] == j[0];
        } else if i > |w| {
          var k := i - |w| - 1;
          assert r[i] == j[k];
          assert r[i + 1] == j[k + 1];
        }
      }
    }
  }

  /** Number of leading whitespace characters. */
  function LeadingSpace(s: string): (n: nat)
    ensures n <= |s|
    ensures forall i :: 0 <= i < n ==> IsSpace(s[i])
    ensures n < |s| ==> !IsSpace(s[n])
  {
    if s != [] && IsSpace(s[0]) then 1 + LeadingSpace(s[1..]) else 0
  }

  /** Number of trailing whitespace characters. */
  function TrailingSpace(s: string): (n: nat)
    ensures n <= |s|
    ensures forall i :: |s| - n <= i < |s| ==> IsSpace(s[i])
    ensures n < |s| ==> !IsSpace(s[|s| - 1 - n])
  {
    if s != [] && IsSpace(s[|s| - 1]) then 1 + TrailingSpace(s[..|s| - 1]) else 0
  }

  /** `s.strip()`: `s` without its leading and trailing whitespace. */
  function Strip(s: string): (r: string)
    ensures |r| > 0 ==> !IsSpace(r[0]) && !IsSpace(r[|r| - 1])
    ensures var lo := LeadingSpace(s);
      lo + |r| <= |s| && r == s[lo..lo + |r|] &&
      (forall i :: 0 <= i < lo ==> IsSpace(s[i])) &&
      (forall i :: lo + |r| <= i < |s| ==> IsSpace(s[i]))
  {
    var t := s[LeadingSpace(s)..];
    t[..|t| - TrailingSpace(t)]
  }

  /** `pat` occurs in `s` starting at index `i`. */
  predicate OccursAt(s: string, pat: string, i: int) {
    0 <= i && i + |pat| <= |s| && s[i..i + |pat|] == pat
  }

  ghost predicate Contains(s: string, pat: string) {
    exists i :: OccursAt(s, pat, i)
  }

  /** An occurrence in a slice is an occurrence in the whole string. */
  lemma ContainsSlice(s: string, pat: string, lo: int, hi: int)
    requires 0 <= lo <= hi <= |s|
    requires Contains(s[lo..hi], pat)
    ensures Contains(s, pat)
  {
    var i :| OccursAt(s[lo..hi], pat, i);
    forall k | 0 <= k < |pat| ensures s[lo + i + k] == pat[k] {
      assert s[lo..hi][i..i + |pat|][k] == pat[k];
    }
    assert s[lo + i..lo + i + |pat|] == pat;
    assert OccursAt(s, pat, lo + i);
  }

  /** Stripping a string that lacks `pat` leaves a string that lacks it. */
  lemma StripKeepsAbsent(s: string, pat: string)
    requires !Contains(s, pat)
    ensures !Contains(Strip(s), pat)
  {
    var lo := LeadingSpace(s);
    if Contains(Strip(s), pat) {
      ContainsSlice(s, pat, lo, lo + |Strip(s)|);
    }
  }

  /** Occurrences in a suffix are the occurrences in the whole string, shifted. */
  lemma OccursInSuffix(s: string, pat: string, start: nat, k: nat)
    requires start <= |s|
    ensures OccursAt(s[start..], pat, k) <==> OccursAt(s, pat, start + k)
  {
    if start + k + |pat| <= |s| {
      assert s[start..][k..k + |pat|] == s[start + k..start + k + |pat|];
    }
  }

  /** `s.find(pat)` for a non-empty `pat`, with `None` for -1. */
  function Find(s: string, pat: string): (r: Option<nat>)
    requires |pat| > 0
    ensures r.Some? ==> OccursAt(s, pat, r.value)
    decreases |s|
  {
    if |s| < |pat| then None
    else if s[..|pat|] == pat then Some(0)
    else
      match Find(s[1..], pat)
      case None => None
      case Some(k) =>
        assert s[1..][k..k + |pat|] == s[k + 1..k + 1 + |pat|];
        Some(k + 1)
  }

  /** `Find` returns the first occurrence, and `None` exactly when there is none. */
  lemma {:induction false} FindSpec(s: string, pat: string)
    requires |pat| > 0
    ensures Find(s, pat).None? <==> !Contains(s, pat)
    ensures Find(s, pat).Some? ==> forall j :: 0 <= j < Find(s, pat).value ==> !OccursAt(s, pat, j)
    decreases |s|
  {
    if |s| < |pat| {
    } else if s[..|pat|] == pat {
      assert OccursAt(s, pat, 0);
    } else {
      FindSpec(s[1..], pat);
      assert !OccursAt(s, pat, 0);
      forall j | 0 <= j && OccursAt(s, pat, j + 1) ensures OccursAt(s[1..], pat, j) {
        assert s[1..][j..j + |pat|] == s[j + 1..j + 1 + |pat|];
      }
      if Find(s, pat).None? {
        forall j | 0 < j ensures !OccursAt(s, pat, j) {
          assert !OccursAt(s[1..], pat, j - 1);
        }
      } else {
        var k := Find(s, pat).value;
        forall j | 0 < j < k ensures !OccursAt(s, pat, j) {
          assert !OccursAt(s[1..], pat, j - 1);
        }
      }
    }
  }

  /** The first occurrence is what `Find` returns. */
  lemma FindFirst(s: string, pat: string, k: nat)
    requires |pat| > 0
    requires OccursAt(s, pat, k)
    requires forall j :: 0 <= j < k ==> !OccursAt(s, pat, j)
    ensures Find(s, pat) == Some(k)
  {
    FindSpec(s, pat);
  }

  /** `s.split(sep)` for a non-empty `sep`: the pieces between the
      non-overlapping occurrences of `sep`, found from left to right. */
  function SplitOn(s: string, sep: string): (parts: seq<string>)
    requires |sep| > 0
    ensures |parts| >= 1
    ensures JoinWith(sep, parts) == s
    decreases |s|
  {
    match Find(s, sep)
    case None => [s]
    case Some(i) =>
      var rest := SplitOn(s[i + |sep|..], sep);
      var parts := [s[..i]] + rest;
      assert parts[1..] == rest;
      assert s == s[..i] + sep + s[i + |sep|..];
      parts
  }

  /** `s.replace(a, b)` for single characters. */
  function ReplaceChar(s: string, a: char, b: char): (r: string)
    ensures |r| == |s|
    ensures forall i :: 0 <= i < |s| ==> r[i] == if s[i] == a then b else s[i]
  {
    seq(|s|, i requires 0 <= i < |s| => if s[i] == a then b else s[i])
  }

  /** The character of `s.title()` at `i`: a letter is upper-cased when no letter
      precedes it and lower-cased otherwise; other characters are kept. */
  function TitleChar(s: string, i: nat): char
    requires i < |s|
  {
    if !IsAlpha(s[i]) then s[i]
    else if i == 0 || !IsAlpha(s[i - 1]) then ToUpper(s[i])
    else ToLower(s[i])
  }

  /** `s.title()`: every run of letters starts with a capital and continues in
      lower case; everything else is unchanged. */
  function Title(s: string): (r: string)
    ensures |r| == |s|
    ensures forall i :: 0 <= i < |s| ==> IsAlpha(r[i]) == IsAlpha(s[i])
    ensures forall i :: 0 <= i < |s| && !IsAlpha(s[i]) ==> r[i] == s[i]
    ensures forall i :: 0 <= i < |s| ==> ToLower(r[i]) == ToLower(s[i])
    ensures forall i :: 0 <= i < |s| && IsAlpha(s[i]) ==>
      (IsUpper(r[i]) <==> i == 0 || !IsAlpha(s[i - 1]))
  {
    seq(|s|, i requires 0 <= i < |s| => TitleChar(s, i))
  }

  /** Title-casing a title-cased string changes nothing. */
  lemma TitleIdempotent(s: string)
    ensures Title(Title(s)) == Title(s)
  {
    var t := Title(s);
    forall i | 0 <= i < |t| ensures TitleChar(t, i) == t[i] {
      if IsAlpha(t[i]) {
        if IsUpper(t[i]) {
          assert ToUpper(t[i]) == t[i];
        } else {
          assert ToLower(t[i]) == t[i];
        }
      }
    }
  }

  function DigitChar(d: nat): (c: char)
    requires d < 10
    ensures '0' <= c <= '9'
  {
    ('0' as int + d) as char
  }

  /** `str(n)` for a natural number: its decimal digits. */
  function NatStr(n: nat): (r: string)
    ensures |r| > 0
    ensures forall i :: 0 <= i < |r| ==> '0' <= r[i] <= '9'
    ensures n > 0 ==> r[0] != '0'
    ensures n == 0 ==> r == "0"
  {
    if n < 10 then [DigitChar(n)] else NatStr(n / 10) + [DigitChar(n % 10)]
  }

  /** The number a string of decimal digits denotes. */
  function DecimalValue(s: string): nat
    requires forall i :: 0 <= i < |s| ==> '0' <= s[i] <= '9'
  {
    if s == [] then 0
    else 10 * DecimalValue(s[..|s| - 1]) + (s[|s| - 1] as int - '0' as int)
  }

  /** `str(n)` reads back as `n`. */
  lemma {:induction false} NatStrValue(n: nat)
    ensures DecimalValue(NatStr(n)) == n
  {
    if n >= 10 {
      NatStrValue(n / 10);
      var r := NatStr(n);
      assert r[..|r| - 1] == NatStr(n / 10);
    }
  }
}
