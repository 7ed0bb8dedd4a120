/**
 * The parts of PHP's value and string semantics that the error handler of
 * system/Debug/Exceptions.php relies on: `empty` on strings, integer to
 * string conversion, `str_replace` / `str_ireplace` with an array of
 * searches, `substr_count`, `strpos(...) === 0`, the space padding of
 * `sprintf('% Nd')`, `str_repeat`, and the `<...>` tag split that stands
 * for `strip_tags` and `preg_match_all('#<[^>]+>#', ...)`.
 */
module PhpStrings {

  datatype Option<+T> = None | Some(value: T)

  /** PHP `empty($s)` for a string: only "" and "0" are empty (falsy). */
  predicate IsEmpty(s: string) {
    s == "" || s == "0"
  }

  /** `strpos($s, $p) === 0`, for a non-empty needle `p`. */
  predicate StartsWith(s: string, p: string) {
    |p| <= |s| && s[..|p|] == p
  }

  predicate EndsWith(s: string, p: string) {
    |p| <= |s| && s[|s| - |p|..] == p
  }

  function Min(a: int, b: int): int { if a < b then a else b }

  function Max(a: int, b: int): int { if a < b then b else a }

  // ---------------------------------------------------------------------
  // ASCII case folding, as `str_ireplace` compares.
  // ---------------------------------------------------------------------

  function LowerChar(c: char): char {
    if 'A' <= c <= 'Z' then (c as int + 32) as char else c
  }

  function Lower(s: string): (r: string)
    ensures |r| == |s|
    ensures forall i :: 0 <= i < |s| ==> r[i] == LowerChar(s[i])
  {
    if s == [] then [] else [LowerChar(s[0])] + Lower(s[1..])
  }

  lemma {:induction false} LowerConcat(a: string, b: string)
    ensures Lower(a + b) == Lower(a) + Lower(b)
  {
    if a == [] {
      assert a + b == b;
    } else {
      assert (a + b)[1..] == a[1..] + b;
      LowerConcat(a[1..], b);
    }
  }

  lemma LowerSplit(s: string, n: nat)
    requires n <= |s|
    ensures Lower(s)[..n] == Lower(s[..n]) && Lower(s)[n..] == Lower(s[n..])
  {
    assert s[..n] + s[n..] == s;
    LowerConcat(s[..n], s[n..]);
  }

  lemma StartsWithExtend(s: string, p: string, t: string)
    requires StartsWith(s, p)
    ensures StartsWith(s + t, p)
  {
    assert (s + t)[..|p|] == s[..|p|];
  }

  lemma EndsWithExtend(s: string, p: string, t: string)
    requires EndsWith(s, p)
    ensures EndsWith(s + t, p + t)
  {
    assert (s + t)[|s + t| - |p + t|..] == s[|s| - |p|..] + t;
  }

  lemma StartsWithHead(s: string, a: string, b: string, c: string)
    requires StartsWith(s, a + b + c)
    ensures StartsWith(s, a)
  {
    assert s[..|a|] == (a + b + c)[..|a|] == a;
  }

  /** The joined text starts with its first part and ends with its last. */
  lemma ConcatEnds(a: string, b: string)
    ensures StartsWith(a + b, a) && EndsWith(a + b, b)
  {
    assert (a + b)[..|a|] == a;
    assert (a + b)[|a|..] == b;
  }

  /** A text framed by a head and a tail starts with the head, ends with the tail and holds the three parts' characters. */
  lemma Framed(a: string, b: string, c: string)
    ensures StartsWith(a + b + c, a) && EndsWith(a + b + c, c)
    ensures multiset(a + b + c) == multiset(a) + multiset(b) + multiset(c)
    ensures |a + b + c| == |a| + |b| + |c| && (a + b + c)[|a|..|a| + |b|] == b
  {
    ConcatEnds(a, b);
    ConcatEnds(a + b, c);
    StartsWithExtend(a + b, a, c);
  }

  /** A text wrapped in a prefix and a suffix starts with the prefix and the first part, and ends with the last part and the suffix. */
  lemma Wrapped(p: string, b: string, c: string, q: string)
    ensures StartsWith(p + (b + c) + q, p + b) && EndsWith(p + (b + c) + q, c + q)
  {
    assert p + (b + c) + q == (p + b) + (c + q);
    ConcatEnds(p + b, c + q);
  }

  lemma LowerIdempotent(s: string)
    ensures Lower(Lower(s)) == Lower(s)
  {
    assert forall i :: 0 <= i < |s| ==> Lower(Lower(s))[i] == Lower(s)[i];
  }

  /** Lower-casing never turns a non-empty string into an empty one, nor anything but "0" into "0". */
  lemma EmptyUnderLower(s: string)
    ensures IsEmpty(Lower(s)) <==> IsEmpty(s)
  {
    if Lower(s) == "0" {
      assert LowerChar(s[0]) == '0';
      assert s == "0";
    }
  }

  // ---------------------------------------------------------------------
  // str_replace / str_ireplace
  // ---------------------------------------------------------------------

  predicate Same(a: string, b: string, ci: bool) {
    if ci then Lower(a) == Lower(b) else a == b
  }

  /**
   * Replaces every occurrence of `search` in `s` by `rep`, scanning left to
   * right and never rescanning replaced text; `ci` makes the comparison
   * ASCII case-insensitive (`str_ireplace`).
   */
  function Replace(s: string, search: string, rep: string, ci: bool): (r: string)
    requires search != ""
    ensures |rep| <= |search| ==> |r| <= |s|
    ensures |rep| >= |search| ==> |r| >= |s|
    decreases |s|
  {
    if |s| < |search| then s
    else if Same(s[..|search|], search, ci) then rep + Replace(s[|search|..], search, rep, ci)
    else [s[0]] + Replace(s[1..], search, rep, ci)
  }

  /** `str_replace($searches, $rep, $s)`: the searches are applied one after another. */
  function ReplaceEach(s: string, searches: seq<string>, rep: string, ci: bool): (r: string)
    requires forall k :: 0 <= k < |searches| ==> searches[k] != ""
    ensures (forall k :: 0 <= k < |searches| ==> |rep| <= |searches[k]|) ==> |r| <= |s|
    decreases |searches|
  {
    if searches == [] then s
    else ReplaceEach(Replace(s, searches[0], rep, ci), searches[1..], rep, ci)
  }

  /** A one-character search is decided by the first character alone, then the scan moves on by one. */
  lemma ReplaceCharCons(x: char, t: string, c: char, rep: string)
    ensures Replace([x] + t, [c], rep, false) == (if x == c then rep else [x]) + Replace(t, [c], rep, false)
  {
    assert ([x] + t)[..1] == [x];
    assert ([x] + t)[1..] == t;
  }

  /** `s` with every occurrence of `c` removed, the other characters kept in order. */
  function Without(s: string, c: char): (r: string)
    ensures |r| <= |s|
    ensures forall k :: 0 <= k < |r| ==> r[k] != c && r[k] in s
  {
    if s == [] then [] else (if s[0] == c then [] else [s[0]]) + Without(s[1..], c)
  }

  lemma {:induction false} WithoutAbsent(s: string, c: char)
    requires c !in s
    ensures Without(s, c) == s
  {
    if s != [] {
      assert c !in s[1..];
      WithoutAbsent(s[1..], c);
      assert s == [s[0]] + s[1..];
    }
  }

  /** Replacing one character by nothing is deleting that character. */
  lemma {:induction false} ReplaceCharDeletes(s: string, c: char)
    ensures Replace(s, [c], "", false) == Without(s, c)
  {
    if s != [] {
      assert s == [s[0]] + s[1..];
      ReplaceCharCons(s[0], s[1..], c, "");
      ReplaceCharDeletes(s[1..], c);
    }
  }

  /** Every character of a replacement result comes from the subject or from the replacement. */
  lemma {:induction false} ReplaceChars(s: string, search: string, rep: string, ci: bool, ch: char)
    requires search != ""
    requires ch in Replace(s, search, rep, ci)
    ensures ch in s || ch in rep
    decreases |s|
  {
    if |s| < |search| {
    } else if Same(s[..|search|], search, ci) {
      if ch !in rep {
        ReplaceChars(s[|search|..], search, rep, ci, ch);
      }
    } else if ch != s[0] {
      ReplaceChars(s[1..], search, rep, ci, ch);
    }
  }

  /** A search holding a character the subject lacks matches nowhere: the subject comes back unchanged. */
  lemma {:induction false} ReplaceMissingChar(s: string, search: string, rep: string, k: nat)
    requires search != "" && k < |search| && search[k] !in s
    ensures Replace(s, search, rep, false) == s
    decreases |s|
  {
    if |s| >= |search| {
      assert search[k] !in s[1..];
      ReplaceMissingChar(s[1..], search, rep, k);
      assert s == [s[0]] + s[1..];
    }
  }

  /** Replacing a single character by text that does not hold it removes that character entirely. */
  lemma {:induction false} ReplaceRemovesChar(s: string, c: char, rep: string, ci: bool)
    requires c !in rep && LowerChar(c) == c
    ensures c !in Replace(s, [c], rep, ci)
    decreases |s|
  {
    if |s| >= 1 {
      ReplaceRemovesChar(s[1..], c, rep, ci);
    }
  }

  /**
   * A case-insensitive replacement of a lower-case search by a lower-case
   * text, once lower-cased, is the case-sensitive replacement on the
   * lower-cased subject.
   */
  lemma {:induction false} ReplaceUnderLower(s: string, search: string, rep: string)
    requires search != "" && Lower(search) == search && Lower(rep) == rep
    ensures Lower(Replace(s, search, rep, true)) == Replace(Lower(s), search, rep, false)
    decreases |s|
  {
    var n := |search|;
    if |s| >= n {
      LowerSplit(s, n);
      if Same(s[..n], search, true) {
        assert Lower(s)[..n] == search;
        assert Lower(s)[n..] == Lower(s[n..]);
        ReplaceUnderLower(s[n..], search, rep);
        LowerConcat(rep, Replace(s[n..], search, rep, true));
      } else {
        LowerSplit(s, 1);
        assert Lower(s)[..n] != search;
        assert Lower(s)[1..] == Lower(s[1..]);
        ReplaceUnderLower(s[1..], search, rep);
        LowerConcat([s[0]], Replace(s[1..], search, rep, true));
      }
    }
  }

  lemma {:induction false} ReplaceEachUnderLower(s: string, searches: seq<string>, rep: string)
    requires forall k :: 0 <= k < |searches| ==> searches[k] != "" && Lower(searches[k]) == searches[k]
    requires Lower(rep) == rep
    ensures Lower(ReplaceEach(s, searches, rep, true)) == ReplaceEach(Lower(s), searches, rep, false)
    decreases |searches|
  {
    if searches != [] {
      var t := Replace(s, searches[0], rep, true);
      ReplaceUnderLower(s, searches[0], rep);
      ReplaceEachUnderLower(t, searches[1..], rep);
    }
  }

  // ---------------------------------------------------------------------
  // substr_count
  // ---------------------------------------------------------------------

  /** `substr_count($s, $pat)`: non-overlapping occurrences, left to right. */
  function Count(s: string, pat: string): (r: nat)
    requires pat != ""
    ensures r * |pat| <= |s|
    decreases |s|
  {
    if |s| < |pat| then 0
    else if s[..|pat|] == pat then 1 + Count(s[|pat|..], pat)
    else Count(s[1..], pat)
  }

  /** `pat` occurs in `s` at position `i`. */
  predicate MatchAt(s: string, pat: string, i: int) {
    0 <= i && i + |pat| <= |s| && s[i..i + |pat|] == pat
  }

  ghost predicate Occurs(s: string, pat: string) {
    exists i :: MatchAt(s, pat, i)
  }

  lemma MatchAtTail(s: string, pat: string, i: nat)
    requires |s| >= 1
    ensures MatchAt(s[1..], pat, i) <==> MatchAt(s, pat, i + 1)
  {
    if i + |pat| <= |s| - 1 {
      assert s[1..][i..i + |pat|] == s[i + 1..i + 1 + |pat|];
    }
  }

  /** `substr_count` is zero exactly when the pattern occurs nowhere. */
  lemma {:induction false} CountZeroIffAbsent(s: string, pat: string)
    requires pat != ""
    ensures Count(s, pat) == 0 <==> !Occurs(s, pat)
    decreases |s|
  {
    if |s| < |pat| {
      assert forall i :: !MatchAt(s, pat, i);
    } else if s[..|pat|] == pat {
      assert MatchAt(s, pat, 0);
    } else {
      CountZeroIffAbsent(s[1..], pat);
      if Occurs(s[1..], pat) {
        var i :| MatchAt(s[1..], pat, i);
        MatchAtTail(s, pat, i);
      }
      if Occurs(s, pat) {
        var i :| MatchAt(s, pat, i);
        assert i != 0;
        MatchAtTail(s, pat, i - 1);
      }
    }
  }

  /** A pattern whose first character the text lacks occurs nowhere in it. */
  lemma AbsentFirstChar(s: string, pat: string)
    requires pat != "" && pat[0] !in s
    ensures !Occurs(s, pat)
  {
  }

  /** A subject starting with the pattern counts it once and carries on after it. */
  lemma CountPrefix(pat: string, t: string)
    requires pat != ""
    ensures Count(pat + t, pat) == 1 + Count(t, pat)
  {
    assert (pat + t)[..|pat|] == pat;
    assert (pat + t)[|pat|..] == t;
  }

  /** The number of positions at which `pat` occurs, overlapping or not. */
  function Positions(s: string, pat: string): nat
    requires pat != ""
    decreases |s|
  {
    if |s| < |pat| then 0
    else (if MatchAt(s, pat, 0) then 1 else 0) + Positions(s[1..], pat)
  }

  /** No proper suffix of `pat` is also its prefix, so two occurrences never overlap. */
  predicate SelfDisjoint(pat: string) {
    forall d :: 0 < d < |pat| ==> pat[d..] != pat[..|pat| - d]
  }

  /** A pattern whose first character appears nowhere else cannot overlap itself. */
  lemma FirstCharUnique(pat: string)
    requires |pat| > 0 && pat[0] !in pat[1..]
    ensures SelfDisjoint(pat)
  {
    forall d | 0 < d < |pat|
      ensures pat[d..] != pat[..|pat| - d]
    {
      assert pat[d..][0] == pat[1..][d - 1];
      assert pat[..|pat| - d][0] == pat[0];
    }
  }

  /** After an occurrence at 0, a self-disjoint pattern cannot occur again before its end. */
  lemma NoOverlappingMatch(s: string, pat: string, d: nat)
    requires MatchAt(s, pat, 0) && SelfDisjoint(pat) && 0 < d < |pat|
    ensures !MatchAt(s, pat, d)
  {
    var n := |pat|;
    if d + n <= |s| {
      assert s[d..n] == s[..n][d..];
      assert s[d..d + n][..n - d] == s[d..n];
    }
  }

  lemma {:induction false} PositionsSkip(s: string, pat: string, d: nat)
    requires pat != "" && d <= |s|
    requires forall j :: 0 <= j < d ==> !MatchAt(s, pat, j)
    ensures Positions(s, pat) == Positions(s[d..], pat)
    decreases d
  {
    if d > 0 {
      forall j | 0 <= j < d - 1
        ensures !MatchAt(s[1..], pat, j)
      {
        MatchAtTail(s, pat, j);
      }
      PositionsSkip(s[1..], pat, d - 1);
      assert s[1..][d - 1..] == s[d..];
      if |s| < |pat| {
        assert |s[d..]| < |pat|;
      }
    }
  }

  /** For a pattern that cannot overlap itself, `substr_count` is the number of positions where it occurs. */
  lemma {:induction false} CountIsPositions(s: string, pat: string)
    requires pat != "" && SelfDisjoint(pat)
    ensures Count(s, pat) == Positions(s, pat)
    decreases |s|
  {
    var n := |pat|;
    if |s| >= n {
      if s[..n] == pat {
        forall j | 0 <= j < n - 1
          ensures !MatchAt(s[1..], pat, j)
        {
          MatchAtTail(s, pat, j);
          NoOverlappingMatch(s, pat, j + 1);
        }
        PositionsSkip(s[1..], pat, n - 1);
        assert s[1..][n - 1..] == s[n..];
        CountIsPositions(s[n..], pat);
      } else {
        CountIsPositions(s[1..], pat);
      }
    }
  }

  /** The two tags the span counter looks for cannot overlap themselves. */
  lemma SpanTagsSelfDisjoint()
    ensures SelfDisjoint("<span") && SelfDisjoint("</span")
  {
    FirstCharUnique("<span");
    FirstCharUnique("</span");
  }

  // ---------------------------------------------------------------------
  // Integers as decimal strings
  // ---------------------------------------------------------------------

  predicate IsDigit(c: char) { '0' <= c <= '9' }

  predicate AllDigits(s: string) {
    forall k :: 0 <= k < |s| ==> IsDigit(s[k])
  }

  /** A decimal integer as PHP writes it: digits, with a leading '-' when negative. */
  predicate IsDecimal(s: string) {
    if |s| > 0 && s[0] == '-' then |s| > 1 && AllDigits(s[1..]) else |s| > 0 && AllDigits(s)
  }

  function DigitChar(d: nat): (c: char)
    requires d < 10
    ensures IsDigit(c)
  {
    (48 + d) as char
  }

  function DigitValue(c: char): nat
    requires IsDigit(c)
  {
    c as int - 48
  }

  function NatToString(n: nat): (r: string)
    ensures |r| >= 1 && AllDigits(r)
    ensures n > 0 ==> r[0] != '0'
    ensures n == 0 ==> r == "0"
    decreases n
  {
    if n < 10 then [DigitChar(n)] else NatToString(n / 10) + [DigitChar(n % 10)]
  }

  /** PHP's conversion of an int to a string (`$bytes.'B'`, `strlen($start + $lines)`). */
  function IntToString(i: int): (r: string)
    ensures IsDecimal(r)
    ensures i != 0 ==> r[0] != '0'
    ensures i == 0 ==> r == "0"
    ensures i < 0 ==> r[0] == '-' && r[1] != '0'
  {
    if i < 0 then "-" + NatToString(-i) else NatToString(i)
  }

  function ParseNat(s: string): nat
    requires AllDigits(s)
  {
    if s == [] then 0 else 10 * ParseNat(s[..|s| - 1]) + DigitValue(s[|s| - 1])
  }

  function ParseInt(s: string): int
    requires IsDecimal(s)
  {
    if s[0] == '-' then -(ParseNat(s[1..]) as int) else ParseNat(s)
  }

  lemma {:induction false} ParseNatToString(n: nat)
    ensures ParseNat(NatToString(n)) == n
    decreases n
  {
    if n >= 10 {
      var a := NatToString(n / 10);
      var s := a + [DigitChar(n % 10)];
      assert s[..|s| - 1] == a;
      ParseNatToString(n / 10);
    }
  }

  /** Reading back the decimal text of an integer yields that integer. */
  lemma IntToStringRoundTrip(i: int)
    ensures ParseInt(IntToString(i)) == i
  {
    var n: nat := if i < 0 then -i else i;
    var t := NatToString(n);
    ParseNatToString(n);
    if i < 0 {
      var s := "-" + t;
      assert s[1..] == t;
      assert ParseInt(s) == -(ParseNat(t) as int);
    } else {
      assert t[0] != '-';
    }
  }

  function Pow10(k: nat): nat {
    if k == 0 then 1 else 10 * Pow10(k - 1)
  }

  /** The text of `n` has exactly as many characters as `n` has decimal digits. */
  lemma {:induction false} NatToStringDigits(n: nat)
    ensures n < Pow10(|NatToString(n)|)
    ensures n == 0 || Pow10(|NatToString(n)| - 1) <= n
    ensures n == 0 ==> |NatToString(n)| == 1
    decreases n
  {
    if n >= 10 {
      NatToStringDigits(n / 10);
      var m := |NatToString(n / 10)|;
      assert |NatToString(n)| == m + 1;
      assert Pow10(m + 1) == 10 * Pow10(m);
      assert m >= 1;
      assert Pow10(m) == 10 * Pow10(m - 1);
    }
  }

  /** A larger natural number never has fewer decimal digits. */
  lemma {:induction false} NatToStringLengthMonotone(a: nat, b: nat)
    requires a <= b
    ensures |NatToString(a)| <= |NatToString(b)|
    decreases b
  {
    if a >= 10 {
      NatToStringLengthMonotone(a / 10, b / 10);
    }
  }

  // ---------------------------------------------------------------------
  // sprintf('% Nd'), str_repeat, implode
  // ---------------------------------------------------------------------

  /** Reference definition: `r` is `n` copies of `s` read from the front. */
  ghost predicate Copies(r: string, s: string, n: nat)
    decreases n
  {
    if n == 0 then r == ""
    else |s| <= |r| && r[..|s|] == s && Copies(r[|s|..], s, n - 1)
  }

  /** One more copy appended at the back of `m` copies gives `m + 1` of them. */
  lemma {:induction false} CopiesExtend(p: string, s: string, m: nat)
    requires Copies(p, s, m)
    ensures Copies(p + s, s, m + 1)
    decreases m
  {
    if m == 0 {
      assert p + s == s && s[|s|..] == "";
    } else {
      CopiesExtend(p[|s|..], s, m - 1);
      assert (p + s)[..|s|] == p[..|s|];
      assert (p + s)[|s|..] == p[|s|..] + s;
    }
  }

  /** `str_repeat($s, $n)`: `n` copies of `s`, back to back. */
  function Repeat(s: string, n: nat): (r: string)
    ensures |r| == n * |s|
    ensures Copies(r, s, n)
  {
    if n == 0 then ""
    else
      CopiesExtend(Repeat(s, n - 1), s, n - 1);
      Repeat(s, n - 1) + s
  }

  /** `sprintf('% Nd', ...)` on the text `s`: right-justified, space-padded to `width`. */
  function PadLeft(s: string, width: nat): (r: string)
    ensures |r| == Max(width, |s|)
    ensures EndsWith(r, s)
    ensures forall k :: 0 <= k < |r| - |s| ==> r[k] == ' '
  {
    if |s| < width then seq(width - |s|, _ => ' ') + s else s
  }

  /** `implode('', $parts)`, folded from the right so that appending one part is one step. */
  function Concat(parts: seq<string>): string {
    if parts == [] then "" else Concat(parts[..|parts| - 1]) + parts[|parts| - 1]
  }

  lemma ConcatPrefix(parts: seq<string>, n: nat)
    requires n < |parts|
    ensures Concat(parts[..n + 1]) == Concat(parts[..n]) + parts[n]
  {
    assert parts[..n + 1][..n] == parts[..n];
  }

  // ---------------------------------------------------------------------
  // Tags: the segments matched by `<[^>]+>`
  // ---------------------------------------------------------------------

  /** A row is cut into plain characters and tags `<[^>]+>`, found left to right. */
  datatype Piece = Text(c: char) | Tag(t: string)

  predicate IsTag(t: string) {
    |t| >= 3 && t[0] == '<' && t[|t| - 1] == '>' && forall k :: 1 <= k < |t| - 1 ==> t[k] != '>'
  }

  /** Index of the first '>' in `s`, or `|s|` when there is none. */
  function CloseIndex(s: string): (j: nat)
    ensures j <= |s|
    ensures j < |s| ==> s[j] == '>'
    ensures forall k :: 0 <= k < j ==> s[k] != '>'
  {
    if s == [] || s[0] == '>' then 0 else 1 + CloseIndex(s[1..])
  }

  function Pieces(s: string): (p: seq<Piece>)
    ensures forall k :: 0 <= k < |p| && p[k].Tag? ==> IsTag(p[k].t)
    decreases |s|
  {
    if s == [] then []
    else
      var j := CloseIndex(s);
      if s[0] == '<' && 2 <= j < |s| then [Tag(s[..j + 1])] + Pieces(s[j + 1..])
      else [Text(s[0])] + Pieces(s[1..])
  }

  function PieceText(p: Piece): string {
    match p
    case Text(c) => [c]
    case Tag(t) => t
  }

  function Flatten(p: seq<Piece>): string {
    if p == [] then "" else PieceText(p[0]) + Flatten(p[1..])
  }

  function Texts(p: seq<Piece>): string {
    if p == [] then "" else (if p[0].Text? then [p[0].c] else "") + Texts(p[1..])
  }

  function TagTexts(p: seq<Piece>): string {
    if p == [] then "" else (if p[0].Tag? then p[0].t else "") + TagTexts(p[1..])
  }

  /** `strip_tags($row)`, approximated as deleting every `<[^>]+>` segment. */
  function StripTags(s: string): string {
    Texts(Pieces(s))
  }

  /** `implode('', $tags[0])` after `preg_match_all('#<[^>]+>#', $row, $tags)`. */
  function Tags(s: string): string {
    TagTexts(Pieces(s))
  }

  /** The first '>' of a text is found at its index. */
  lemma {:induction false} CloseIndexAt(s: string, j: nat)
    requires j < |s| && s[j] == '>'
    requires forall k :: 0 <= k < j ==> s[k] != '>'
    ensures CloseIndex(s) == j
    decreases j
  {
    if j > 0 {
      CloseIndexAt(s[1..], j - 1);
    }
  }

  /** A segment of the form `<[^>]+>` at the front of a row is always cut out as one tag. */
  lemma TagCut(t: string, u: string)
    requires IsTag(t)
    ensures Pieces(t + u) == [Tag(t)] + Pieces(u)
  {
    var s := t + u;
    CloseIndexAt(s, |t| - 1);
    assert s[..|t|] == t && s[|t|..] == u;
  }

  /** So `strip_tags` drops a leading tag, and the collected tags start with it. */
  lemma StripTagsTag(t: string, u: string)
    requires IsTag(t)
    ensures StripTags(t + u) == StripTags(u)
    ensures Tags(t + u) == t + Tags(u)
  {
    TagCut(t, u);
    assert ([Tag(t)] + Pieces(u))[1..] == Pieces(u);
  }

  /** And a character that starts no tag stays in the stripped text. */
  lemma StripTagsText(c: char, u: string)
    requires c != '<'
    ensures StripTags([c] + u) == [c] + StripTags(u)
    ensures Tags([c] + u) == Tags(u)
  {
    assert ([c] + u)[1..] == u;
    assert ([Text(c)] + Pieces(u))[1..] == Pieces(u);
  }

  /** The pieces put back together give the row they were cut from. */
  lemma {:induction false} PiecesRoundTrip(s: string)
    ensures Flatten(Pieces(s)) == s
    decreases |s|
  {
    if s != [] {
      var j := CloseIndex(s);
      if s[0] == '<' && 2 <= j < |s| {
        PiecesRoundTrip(s[j + 1..]);
        assert s == s[..j + 1] + s[j + 1..];
      } else {
        PiecesRoundTrip(s[1..]);
        assert s == [s[0]] + s[1..];
      }
    }
  }

  lemma {:induction false} TextsAndTags(p: seq<Piece>)
    ensures multiset(Texts(p)) + multiset(TagTexts(p)) == multiset(Flatten(p))
  {
    if p != [] {
      TextsAndTags(p[1..]);
    }
  }

  /** Stripping the tags and collecting them loses no character and invents none. */
  lemma StripTagsPartition(s: string)
    ensures multiset(StripTags(s)) + multiset(Tags(s)) == multiset(s)
  {
    TextsAndTags(Pieces(s));
    PiecesRoundTrip(s);
  }

  /** A row without '<' has no tags: stripping keeps it whole. */
  lemma {:induction false} StripTagsPlain(s: string)
    requires '<' !in s
    ensures StripTags(s) == s && Tags(s) == ""
    decreases |s|
  {
    if s != [] {
      assert s[0] != '<';
      assert '<' !in s[1..];
      StripTagsPlain(s[1..]);
      assert s == [s[0]] + s[1..];
    }
  }
}
