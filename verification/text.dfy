/** ASCII string helpers shared by the content script, the background page and
    the popup: whitespace trimming, case folding, substring search, joining,
    splitting and decimal rendering. JavaScript's Unicode-aware `trim`,
    `toLowerCase` and `\s` are narrowed to their ASCII behaviour. */
module Text {
  import opened Maybe

  /** The ASCII part of JavaScript's whitespace (for `trim` and for `\s`):
      space, tab, line feed, vertical tab, form feed and carriage return. */
  predicate IsSpace(c: char) {
    c == ' ' || '\t' <= c <= '\r'
  }

  predicate IsDigit(c: char) {
    '0' <= c <= '9'
  }

  predicate AllDigits(s: string) {
    forall i :: 0 <= i < |s| ==> IsDigit(s[i])
  }

  // ---------------------------------------------------------------------------
  // Case folding
  // ---------------------------------------------------------------------------

  function LowerChar(c: char): char {
    if 'A' <= c <= 'Z' then (c as int - 'A' as int + 'a' as int) as char else c
  }

  /** `toLowerCase` restricted to ASCII letters. */
  function Lower(s: string): (r: string)
    ensures |r| == |s|
  {
    seq(|s|, i requires 0 <= i < |s| => LowerChar(s[i]))
  }

  lemma LowerSlice(s: string, i: nat, j: nat)
    requires i <= j <= |s|
    ensures Lower(s[i..j]) == Lower(s)[i..j]
  {
  }

  lemma LowerConcat(a: string, b: string)
    ensures Lower(a + b) == Lower(a) + Lower(b)
  {
  }

  // ---------------------------------------------------------------------------
  // Trimming
  // ---------------------------------------------------------------------------

  /** No whitespace at either end: what `trim` returns. */
  predicate Trimmed(s: string) {
    |s| == 0 || (!IsSpace(s[0]) && !IsSpace(s[|s| - 1]))
  }

  function TrimStart(s: string): (r: string)
    ensures |r| <= |s|
    ensures |r| > 0 ==> !IsSpace(r[0])
  {
    if |s| > 0 && IsSpace(s[0]) then TrimStart(s[1..]) else s
  }

  function TrimEnd(s: string): (r: string)
    ensures |r| <= |s|
    ensures |r| > 0 ==> !IsSpace(r[|r| - 1]) && r[0] == s[0]
  {
    if |s| > 0 && IsSpace(s[|s| - 1]) then TrimEnd(s[..|s| - 1]) else s
  }

  /** `TrimStart` keeps a suffix of its input. */
  lemma {:induction false} TrimStartSuffix(s: string)
    ensures IsSuffix(TrimStart(s), s)
  {
    if |s| > 0 && IsSpace(s[0]) {
      TrimStartSuffix(s[1..]);
      SuffixTransitive(TrimStart(s), s[1..], s);
    }
  }

  /** `TrimStart` drops a whitespace prefix and keeps the rest. */
  lemma {:induction false} TrimStartDrops(s: string)
    ensures TrimStart(s) == s[|s| - |TrimStart(s)|..]
    ensures forall i :: 0 <= i < |s| - |TrimStart(s)| ==> IsSpace(s[i])
  {
    if |s| > 0 && IsSpace(s[0]) {
      TrimStartDrops(s[1..]);
    }
  }

  /** `TrimEnd` drops a whitespace suffix and keeps the rest. */
  lemma {:induction false} TrimEndDrops(s: string)
    ensures TrimEnd(s) == s[..|TrimEnd(s)|]
    ensures forall i :: |TrimEnd(s)| <= i < |s| ==> IsSpace(s[i])
  {
    if |s| > 0 && IsSpace(s[|s| - 1]) {
      TrimEndDrops(s[..|s| - 1]);
    }
  }

  /** `String.prototype.trim`: drops the whitespace at both ends. */
  function Trim(s: string): (r: string)
    ensures Trimmed(r) && |r| <= |s|
  {
    TrimEnd(TrimStart(s))
  }

  /** What `trim` keeps is one slice of its input, with only whitespace around
      it, and nothing is kept exactly when the input is all whitespace. */
  lemma TrimIsSlice(s: string)
    ensures exists a: nat :: OccursAt(s, Trim(s), a) && SpaceOutside(s, a, a + |Trim(s)|)
    ensures Trim(s) == "" <==> forall i :: 0 <= i < |s| ==> IsSpace(s[i])
  {
    var a := TrimSlice(s);
    if Trim(s) == "" {
      assert forall i :: 0 <= i < |s| ==> IsSpace(s[i]) by {
        forall i | 0 <= i < |s| ensures IsSpace(s[i]) {
          if i >= a {
            assert a + |Trim(s)| <= i;
          }
        }
      }
    }
  }

  /** Where the slice `trim` keeps starts: a non-space when anything is kept. */
  lemma TrimSlice(s: string) returns (a: nat)
    ensures a + |Trim(s)| <= |s| && OccursAt(s, Trim(s), a) && SpaceOutside(s, a, a + |Trim(s)|)
    ensures |Trim(s)| > 0 ==> !IsSpace(s[a])
  {
    var l := TrimStart(s);
    var r := TrimEnd(l);
    var d1 := SpacesDropped(s);
    var d2 := SpacesDroppedAtEnd(l);
    assert s == d1 + r + d2;
    SliceBetweenSpaces(d1, r, d2);
    a := |d1|;
    if |r| > 0 {
      assert s[a] == r[0] == l[0];
    }
  }

  /** The whitespace `TrimStart` drops, in front of what it keeps. */
  lemma SpacesDropped(x: string) returns (d: string)
    ensures x == d + TrimStart(x)
    ensures forall j :: 0 <= j < |d| ==> IsSpace(d[j])
  {
    TrimStartDrops(x);
    d := x[..|x| - |TrimStart(x)|];
    forall j | 0 <= j < |d| ensures IsSpace(d[j]) {
      assert d[j] == x[j];
    }
  }

  /** The whitespace `TrimEnd` drops, behind what it keeps. */
  lemma SpacesDroppedAtEnd(x: string) returns (d: string)
    ensures x == TrimEnd(x) + d
    ensures forall j :: 0 <= j < |d| ==> IsSpace(d[j])
  {
    TrimEndDrops(x);
    d := x[|TrimEnd(x)|..];
    forall j | 0 <= j < |d| ensures IsSpace(d[j]) {
      assert d[j] == x[|TrimEnd(x)| + j];
    }
  }

  /** A text framed by whitespace occurs between its frames. */
  lemma SliceBetweenSpaces(d1: string, r: string, d2: string)
    requires forall j :: 0 <= j < |d1| ==> IsSpace(d1[j])
    requires forall j :: 0 <= j < |d2| ==> IsSpace(d2[j])
    ensures OccursAt(d1 + r + d2, r, |d1|) && SpaceOutside(d1 + r + d2, |d1|, |d1| + |r|)
  {
    var s := d1 + r + d2;
    assert s[|d1|..|d1| + |r|] == r;
    forall i | 0 <= i < |d1| ensures IsSpace(s[i]) {
      assert s[i] == d1[i];
    }
    forall i | |d1| + |r| <= i < |s| ensures IsSpace(s[i]) {
      assert s[i] == d2[i - |d1| - |r|];
    }
  }

  /** Trimming never introduces a character. */
  lemma TrimKeepsOut(s: string, c: char)
    requires c !in s
    ensures c !in Trim(s)
  {
    TrimIsSlice(s);
    var a: nat :| OccursAt(s, Trim(s), a) && SpaceOutside(s, a, a + |Trim(s)|);
    forall j | 0 <= j < |Trim(s)| ensures Trim(s)[j] != c {
      assert Trim(s)[j] == s[a + j];
    }
  }

  /** Every character of `s` before index `a` or from index `b` on is whitespace. */
  predicate SpaceOutside(s: string, a: nat, b: nat)
    requires a <= b <= |s|
  {
    (forall i :: 0 <= i < a ==> IsSpace(s[i])) && (forall i :: b <= i < |s| ==> IsSpace(s[i]))
  }

  /** Trimming text that is already trimmed changes nothing. */
  lemma TrimOfTrimmed(s: string)
    requires Trimmed(s)
    ensures Trim(s) == s
  {
  }

  /** A leading space (the one the ", " separator leaves behind) makes no
      difference to `trim`. */
  lemma TrimLeadingSpace(s: string)
    ensures Trim([' '] + s) == Trim(s)
  {
    assert ([' '] + s)[1..] == s;
  }

  // ---------------------------------------------------------------------------
  // Substring search
  // ---------------------------------------------------------------------------

  /** `pat` occurs in `text` starting at index `i`. */
  predicate OccursAt(text: string, pat: string, i: nat) {
    i + |pat| <= |text| && text[i..i + |pat|] == pat
  }

  /** `String.prototype.includes`; the empty pattern occurs everywhere. */
  function Contains(text: string, pat: string): (r: bool)
    ensures r <==> exists i: nat :: OccursAt(text, pat, i)
    decreases |text|
  {
    if pat <= text then
      assert OccursAt(text, pat, 0);
      true
    else if |text| == 0 then
      assert forall i: nat :: !OccursAt(text, pat, i);
      false
    else
      var r := Contains(text[1..], pat);
      assert forall i: nat :: 1 <= i ==> (OccursAt(text, pat, i) <==> OccursAt(text[1..], pat, i - 1)) by {
        forall i: nat | 1 <= i ensures OccursAt(text, pat, i) <==> OccursAt(text[1..], pat, i - 1) {
          OccursShift(text, pat, i);
        }
      }
      if r then
        var k: nat :| OccursAt(text[1..], pat, k);
        assert OccursAt(text, pat, k + 1);
        true
      else
        assert !OccursAt(text, pat, 0);
        false
  }

  /** An occurrence past the first character is one in the rest. */
  lemma OccursShift(text: string, pat: string, i: nat)
    requires 1 <= i && |text| > 0
    ensures OccursAt(text, pat, i) <==> OccursAt(text[1..], pat, i - 1)
  {
    if i + |pat| <= |text| {
      var t := text[1..];
      assert t[i - 1..i - 1 + |pat|] == text[i..i + |pat|];
    }
  }

  /** A prefix of the suffix from `i` occurs at `i`. */
  lemma PrefixOfSuffix(s: string, w: string, i: nat)
    requires i <= |s| && w <= s[i..]
    ensures OccursAt(s, w, i)
  {
    assert s[i..i + |w|] == s[i..][..|w|];
  }

  /** A prefix grows by the character that follows it. */
  lemma PrefixExtend(p: string, t: string, c: char)
    requires p <= t && |p| < |t| && t[|p|] == c
    ensures p + [c] <= t
  {
  }

  /** Two prefixes laid end to end form a prefix. */
  lemma PrefixConcat(p: string, q: string, t: string)
    requires p <= t && q <= t[|p|..]
    ensures p + q <= t
  {
    assert t[..|p| + |q|] == t[..|p|] + t[|p|..][..|q|];
  }

  /** `x` is what remains of `y` after dropping a prefix. */
  predicate IsSuffix(x: string, y: string) {
    |x| <= |y| && x == y[|y| - |x|..]
  }

  lemma SuffixTransitive(x: string, y: string, z: string)
    requires IsSuffix(x, y) && IsSuffix(y, z)
    ensures IsSuffix(x, z)
  {
    assert z[|z| - |y|..][|y| - |x|..] == z[|z| - |x|..];
  }

  /** Whatever occurs inside a slice of `text` occurs in `text`. */
  lemma ContainsInSlice(text: string, a: nat, b: nat, pat: string)
    requires a <= b <= |text|
    requires Contains(text[a..b], pat)
    ensures Contains(text, pat)
  {
    var k: nat :| OccursAt(text[a..b], pat, k);
    forall j | 0 <= j < |pat| ensures text[a + k + j] == pat[j] {
      assert text[a..b][k + j] == pat[j];
    }
    assert OccursAt(text, pat, a + k);
  }

  /** Case folding keeps occurrences. */
  lemma ContainsLower(text: string, pat: string)
    requires Contains(text, pat)
    ensures Contains(Lower(text), Lower(pat))
  {
    var k: nat :| OccursAt(text, pat, k);
    LowerSlice(text, k, k + |pat|);
    assert OccursAt(Lower(text), Lower(pat), k);
  }

  // ---------------------------------------------------------------------------
  // Join and split
  // ---------------------------------------------------------------------------

  /** `Array.prototype.join(sep)`. */
  function Join(parts: seq<string>, sep: string): string {
    if |parts| == 0 then ""
    else if |parts| == 1 then parts[0]
    else parts[0] + sep + Join(parts[1..], sep)
  }

  /** Joining two non-empty lists is joining each and gluing with the
      separator. */
  lemma {:induction false} JoinConcat(a: seq<string>, b: seq<string>, sep: string)
    requires |a| > 0 && |b| > 0
    ensures Join(a + b, sep) == Join(a, sep) + sep + Join(b, sep)
    decreases |a|
  {
    if |a| == 1 {
      assert (a + b)[1..] == b;
    } else {
      assert (a + b)[1..] == a[1..] + b;
      JoinConcat(a[1..], b, sep);
    }
  }

  /** `String.prototype.split(sep)` for a one-character separator: the pieces
      between separators, so `k` separators give `k + 1` pieces. */
  function Split(s: string, sep: char): (parts: seq<string>)
    ensures |parts| >= 1
  {
    if |s| == 0 then [""]
    else
      var rest := Split(s[1..], sep);
      if s[0] == sep then [""] + rest
      else [[s[0]] + rest[0]] + rest[1..]
  }

  /** Joining the pieces back with the separator restores the text. */
  lemma {:induction false} JoinSplit(s: string, sep: char)
    ensures Join(Split(s, sep), [sep]) == s
  {
    if |s| == 0 {
    } else {
      var rest := Split(s[1..], sep);
      JoinSplit(s[1..], sep);
      if s[0] == sep {
        assert Split(s, sep) == [""] + rest;
        assert ([""] + rest)[1..] == rest;
      } else {
        var parts := Split(s, sep);
        assert parts == [[s[0]] + rest[0]] + rest[1..];
        if |rest| == 1 {
        } else {
          assert parts[1..] == rest[1..];
          assert Join(rest, [sep]) == rest[0] + [sep] + Join(rest[1..], [sep]);
        }
      }
    }
  }

  /** Splitting a separator-free joined list gives the list back. */
  lemma {:induction false} SplitJoin(parts: seq<string>, sep: char)
    requires |parts| >= 1
    requires forall p :: p in parts ==> sep !in p
    ensures Split(Join(parts, [sep]), sep) == parts
  {
    if |parts| == 1 {
      SplitNoSep(parts[0], sep);
    } else {
      SplitJoin(parts[1..], sep);
      SplitNoSep(parts[0], sep);
      SplitConcat(parts[0], Join(parts[1..], [sep]), sep);
      assert [parts[0]] + parts[1..] == parts;
    }
  }

  /** No piece contains the separator. */
  lemma {:induction false} SplitPiecesFree(s: string, sep: char)
    ensures forall p :: p in Split(s, sep) ==> sep !in p
  {
    if |s| > 0 {
      SplitPiecesFree(s[1..], sep);
      var rest := Split(s[1..], sep);
      assert rest[0] in rest;
      assert forall p :: p in rest[1..] ==> p in rest;
    }
  }

  lemma {:induction false} SplitNoSep(s: string, sep: char)
    requires sep !in s
    ensures Split(s, sep) == [s]
  {
    if |s| > 0 {
      SplitNoSep(s[1..], sep);
      assert [s[0]] + s[1..] == s;
    }
  }

  /** A separator between two texts separates their pieces: splitting
      preserves order and never merges across the separator. */
  lemma {:induction false} SplitConcat(a: string, b: string, sep: char)
    ensures Split(a + [sep] + b, sep) == Split(a, sep) + Split(b, sep)
    decreases |a|
  {
    if |a| == 0 {
      assert a + [sep] + b == [sep] + b;
      SplitConsSep(b, sep);
    } else {
      SplitConcat(a[1..], b, sep);
      SplitConcatStep(a[0], a[1..], b, sep);
      assert [a[0]] + a[1..] == a;
    }
  }

  /** The inductive step of `SplitConcat`, for a text `[c] + x`. */
  lemma SplitConcatStep(c: char, x: string, b: string, sep: char)
    requires Split(x + [sep] + b, sep) == Split(x, sep) + Split(b, sep)
    ensures Split([c] + x + [sep] + b, sep) == Split([c] + x, sep) + Split(b, sep)
  {
    var rest := x + [sep] + b;
    assert [c] + x + [sep] + b == [c] + rest;
    if c == sep {
      SplitConsSep(rest, sep);
      SplitConsSep(x, sep);
    } else {
      SplitConsOther(c, rest, sep);
      SplitConsOther(c, x, sep);
      HeadGlue([c], Split(x, sep), Split(b, sep));
    }
  }

  /** Gluing `p` onto the first piece of `t + u` is gluing it onto `t`'s. */
  lemma HeadGlue(p: string, t: seq<string>, u: seq<string>)
    requires |t| > 0
    ensures [p + (t + u)[0]] + (t + u)[1..] == ([p + t[0]] + t[1..]) + u
  {
    assert (t + u)[0] == t[0];
    assert (t + u)[1..] == t[1..] + u;
  }

  /** Splitting a text that starts with the separator. */
  lemma SplitConsSep(s: string, sep: char)
    ensures Split([sep] + s, sep) == [""] + Split(s, sep)
  {
    assert ([sep] + s)[1..] == s;
  }

  /** Splitting a text that starts with another character. */
  lemma SplitConsOther(c: char, s: string, sep: char)
    requires c != sep
    ensures Split([c] + s, sep) == [[c] + Split(s, sep)[0]] + Split(s, sep)[1..]
  {
    assert ([c] + s)[0] == c;
    assert ([c] + s)[1..] == s;
  }

  /** A space in front of the text only lengthens the first piece. */
  lemma SplitLeadingSpace(s: string, sep: char)
    requires sep != ' '
    ensures Split([' '] + s, sep) == [[' '] + Split(s, sep)[0]] + Split(s, sep)[1..]
  {
    assert ([' '] + s)[1..] == s;
  }

  // ---------------------------------------------------------------------------
  // Decimal numbers
  // ---------------------------------------------------------------------------

  function DigitChar(d: nat): (c: char)
    requires d < 10
    ensures IsDigit(c)
  {
    ('0' as int + d) as char
  }

  function DigitValue(c: char): nat
    requires IsDigit(c)
  {
    c as int - '0' as int
  }

  /** The number a string of decimal digits denotes. */
  function DecimalValue(s: string): nat
    requires AllDigits(s)
  {
    if |s| == 0 then 0 else 10 * DecimalValue(s[..|s| - 1]) + DigitValue(s[|s| - 1])
  }

  /** `String(n)` for a non-negative integer: shortest decimal digits. */
  function Decimal(n: nat): (r: string)
    ensures |r| >= 1 && AllDigits(r)
    ensures DecimalValue(r) == n
    ensures r[0] == '0' ==> n == 0
  {
    if n < 10 then [DigitChar(n)]
    else
      var h := Decimal(n / 10);
      var r := h + [DigitChar(n % 10)];
      assert r[..|r| - 1] == h;
      r
  }

  // ---------------------------------------------------------------------------
  // Leftmost match
  // ---------------------------------------------------------------------------

  /** A regular-expression search without the `g` flag: the result of the
      anchored matcher `m` at the leftmost position where it succeeds. */
  function FirstMatch<T>(s: string, m: string -> Option<T>): Option<T>
    decreases |s|
  {
    if m(s).Some? then m(s)
    else if |s| == 0 then None
    else FirstMatch(s[1..], m)
  }

  /** `FirstMatch` fails exactly when `m` fails everywhere, and otherwise
      returns what `m` gives at a position before which it fails. */
  lemma {:induction false} FirstMatchSpec<T>(s: string, m: string -> Option<T>)
    ensures FirstMatch(s, m).None? <==> forall i :: 0 <= i <= |s| ==> m(s[i..]).None?
    ensures FirstMatch(s, m).Some? ==>
      exists i :: 0 <= i <= |s| && m(s[i..]) == FirstMatch(s, m) && NoMatchBefore(s, m, i)
    decreases |s|
  {
    assert s[0..] == s;
    if m(s).Some? {
      assert NoMatchBefore(s, m, 0);
    } else if |s| > 0 {
      FirstMatchSpec(s[1..], m);
      var r := FirstMatch(s[1..], m);
      if r.Some? {
        var i :| 0 <= i <= |s[1..]| && m(s[1..][i..]) == r && NoMatchBefore(s[1..], m, i);
        assert s[1..][i..] == s[i + 1..];
        assert NoMatchBefore(s, m, i + 1) by {
          forall j | 0 <= j < i + 1 ensures m(s[j..]).None? {
            if j > 0 {
              assert s[j..] == s[1..][j - 1..];
            }
          }
        }
      } else {
        forall i | 0 <= i <= |s| ensures m(s[i..]).None? {
          if i > 0 {
            assert s[i..] == s[1..][i - 1..];
          }
        }
      }
    }
  }

  /** `m` fails at every position before `i`. */
  predicate NoMatchBefore<T>(s: string, m: string -> Option<T>, i: nat)
    requires i <= |s|
  {
    forall j :: 0 <= j < i ==> m(s[j..]).None?
  }

  /** Positions where the matcher fails can be skipped. */
  lemma {:induction false} FirstMatchSkip<T>(s: string, m: string -> Option<T>, k: nat)
    requires k <= |s| && NoMatchBefore(s, m, k)
    ensures FirstMatch(s, m) == FirstMatch(s[k..], m)
  {
    if k > 0 {
      assert m(s[0..]).None?;
      assert s[0..] == s;
      assert NoMatchBefore(s[1..], m, k - 1) by {
        forall j | 0 <= j < k - 1 ensures m(s[1..][j..]).None? {
          assert s[1..][j..] == s[j + 1..];
        }
      }
      FirstMatchSkip(s[1..], m, k - 1);
      assert s[1..][k - 1..] == s[k..];
    }
  }
}
