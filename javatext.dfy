/**
 * The pieces of the Java platform that the tracker's text handling rests on:
 * `int` arithmetic, `String.split` on a literal separator, `contains`, `trim`,
 * `replace` of one character, `Integer.parseInt` / `Integer.toString`,
 * `Double.parseDouble` and `%.2f` on grades held as integer hundredths, and the
 * case-insensitive comparisons used on format and order tokens.
 */
module JavaText {
  import opened Wrappers

  // ---------------------------------------------------------------- int

  const INT_MIN: int := -0x8000_0000
  const INT_MAX: int := 0x7FFF_FFFF

  /** A value that fits a Java `int`. */
  predicate IsInt32(n: int) {
    INT_MIN <= n <= INT_MAX
  }

  /** Java `int` arithmetic: the exact result reduced modulo 2^32 into the signed range. */
  function Wrap32(n: int): (r: int)
    ensures IsInt32(r)
    ensures (r - n) % 0x1_0000_0000 == 0
    ensures IsInt32(n) ==> r == n
  {
    var k := (n - INT_MIN) / 0x1_0000_0000;
    var r := (n - INT_MIN) % 0x1_0000_0000 + INT_MIN;
    assert r - n == -k * 0x1_0000_0000;
    r
  }

  // ---------------------------------------------------------------- searching

  /** `t` occurs in `s` at position `p`. */
  predicate MatchAt(s: string, t: string, p: int) {
    0 <= p && p + |t| <= |s| && s[p..p + |t|] == t
  }

  /** Java's `s.contains(t)`. */
  predicate Contains(s: string, t: string) {
    exists p :: 0 <= p <= |s| - |t| && MatchAt(s, t, p)
  }

  lemma ContainsMiddle(a: string, t: string, b: string)
    ensures Contains(a + t + b, t)
  {
    assert MatchAt(a + t + b, t, |a|) by {
      assert (a + t + b)[|a|..|a| + |t|] == t;
    }
  }

  /** Text added before an occurrence keeps it. */
  lemma ContainsPrefixed(a: string, s: string, t: string)
    requires Contains(s, t)
    ensures Contains(a + s, t)
  {
    var p :| 0 <= p <= |s| - |t| && MatchAt(s, t, p);
    assert (a + s)[|a| + p..|a| + p + |t|] == s[p..p + |t|];
    assert MatchAt(a + s, t, |a| + p);
  }

  /** Text added after an occurrence keeps it. */
  lemma ContainsSuffixed(s: string, b: string, t: string)
    requires Contains(s, t)
    ensures Contains(s + b, t)
  {
    var p :| 0 <= p <= |s| - |t| && MatchAt(s, t, p);
    assert (s + b)[p..p + |t|] == s[p..p + |t|];
    assert MatchAt(s + b, t, p);
  }

  /** A text without one of `t`'s characters cannot contain `t`. */
  lemma NotContainsWithout(s: string, t: string, c: char)
    requires c in t && c !in s
    ensures !Contains(s, t)
  {
    var j :| 0 <= j < |t| && t[j] == c;
    forall p | 0 <= p <= |s| - |t|
      ensures !MatchAt(s, t, p)
    {
      assert s[p..p + |t|][j] == s[p + j];
    }
  }

  /** Dropping the first character shifts every occurrence one place left. */
  lemma MatchShift(s: string, t: string, p: int)
    requires s != [] && 0 <= p
    ensures MatchAt(s[1..], t, p) <==> MatchAt(s, t, p + 1)
  {
    if 0 <= p && p + 1 + |t| <= |s| {
      assert s[1..][p..p + |t|] == s[p + 1..p + 1 + |t|];
    }
  }

  /** The first index of `c` in `s`, or `|s|` when there is none. */
  function IndexOfChar(s: string, c: char): (i: nat)
    ensures i <= |s|
  {
    if s == [] then 0
    else if s[0] == c then 0
    else 1 + IndexOfChar(s[1..], c)
  }

  lemma {:induction false} IndexOfCharFirst(s: string, c: char)
    ensures IndexOfChar(s, c) < |s| ==> s[IndexOfChar(s, c)] == c
    ensures forall j :: 0 <= j < IndexOfChar(s, c) ==> s[j] != c
  {
    if s != [] && s[0] != c {
      IndexOfCharFirst(s[1..], c);
    }
  }

  /** The first `c` of `a + [c] + b` is the one after `a` when `a` has none. */
  lemma {:induction false} IndexOfCharAfter(a: string, c: char, b: string)
    requires c !in a
    ensures IndexOfChar(a + [c] + b, c) == |a|
  {
    if a != [] {
      assert (a + [c] + b)[1..] == a[1..] + [c] + b;
      IndexOfCharAfter(a[1..], c, b);
    }
  }

  // ---------------------------------------------------------------- split and join

  /**
   * The pieces of `s` between the leftmost non-overlapping occurrences of
   * `sep`, every piece kept (the regex engine's scan before `split` trims).
   */
  function SplitRaw(s: string, sep: string): (r: seq<string>)
    requires sep != []
    ensures |r| >= 1
    decreases |s|
  {
    if |s| < |sep| then [s]
    else if s[..|sep|] == sep then [""] + SplitRaw(s[|sep|..], sep)
    else
      var rest := SplitRaw(s[1..], sep);
      [[s[0]] + rest[0]] + rest[1..]
  }

  /** Removes the empty strings at the end, as `split` with limit 0 does. */
  function DropTrailingEmpty(r: seq<string>): (q: seq<string>)
    ensures |q| <= |r| && q == r[..|q|]
    ensures q != [] ==> q[|q| - 1] != ""
    ensures forall k :: |q| <= k < |r| ==> r[k] == ""
  {
    if r != [] && r[|r| - 1] == "" then DropTrailingEmpty(r[..|r| - 1]) else r
  }

  /**
   * Java's `s.split(sep)` for a separator without regex meaning: when `sep`
   * does not occur the result is `[s]` (so `"".split(",")` is `[""]`);
   * otherwise the pieces, with trailing empty strings removed.
   */
  function Split(s: string, sep: string): (r: seq<string>)
    requires sep != []
  {
    var raw := SplitRaw(s, sep);
    if |raw| == 1 then raw else DropTrailingEmpty(raw)
  }

  /** `parts` separated by `sep` (Java's `String.join`). */
  function Join(parts: seq<string>, sep: string): string {
    if |parts| == 0 then ""
    else if |parts| == 1 then parts[0]
    else parts[0] + sep + Join(parts[1..], sep)
  }

  lemma JoinCons(x: string, rest: seq<string>, sep: string)
    requires rest != []
    ensures Join([x] + rest, sep) == x + sep + Join(rest, sep)
  {
    assert ([x] + rest)[1..] == rest;
  }

  /** Splitting loses nothing: joining the raw pieces gives the text back. */
  lemma {:induction false} SplitRawJoin(s: string, sep: string)
    requires sep != []
    ensures Join(SplitRaw(s, sep), sep) == s
    decreases |s|
  {
    if |s| < |sep| {
    } else if s[..|sep|] == sep {
      var rest := SplitRaw(s[|sep|..], sep);
      assert SplitRaw(s, sep) == [""] + rest;
      SplitRawJoin(s[|sep|..], sep);
      JoinCons("", rest, sep);
      assert s == s[..|sep|] + s[|sep|..];
    } else {
      var rest := SplitRaw(s[1..], sep);
      assert SplitRaw(s, sep) == [[s[0]] + rest[0]] + rest[1..];
      SplitRawJoin(s[1..], sep);
      JoinMovesHead(s[0], rest, sep);
      assert [s[0]] + s[1..] == s;
    }
  }

  /** Gluing a character onto the first piece glues it onto the joined text. */
  lemma JoinMovesHead(c: char, rest: seq<string>, sep: string)
    requires rest != []
    ensures Join([[c] + rest[0]] + rest[1..], sep) == [c] + Join(rest, sep)
  {
    var head := [c] + rest[0];
    if |rest| > 1 {
      JoinCons(head, rest[1..], sep);
      assert rest == [rest[0]] + rest[1..];
      JoinCons(rest[0], rest[1..], sep);
    }
  }

  /** `split` returns its input whole exactly when the separator does not occur. */
  lemma {:induction false} SplitRawSingle(s: string, sep: string)
    requires sep != []
    ensures |SplitRaw(s, sep)| == 1 <==> !Contains(s, sep)
    ensures !Contains(s, sep) ==> SplitRaw(s, sep) == [s]
    decreases |s|
  {
    if |s| < |sep| {
    } else if s[..|sep|] == sep {
      assert MatchAt(s, sep, 0);
    } else {
      SplitRawSingle(s[1..], sep);
      assert !MatchAt(s, sep, 0);
      if Contains(s[1..], sep) {
        var p :| 0 <= p <= |s[1..]| - |sep| && MatchAt(s[1..], sep, p);
        MatchShift(s, sep, p);
      }
      if Contains(s, sep) {
        var p :| 0 <= p <= |s| - |sep| && MatchAt(s, sep, p);
        MatchShift(s, sep, p - 1);
      }
      assert [s[0]] + s[1..] == s;
    }
  }

  /** When no occurrence of `sep` starts inside `a`, the first piece of `a + sep + b` is `a`. */
  lemma {:induction false} SplitRawAfter(a: string, sep: string, b: string)
    requires sep != []
    requires forall p :: 0 <= p < |a| ==> !MatchAt(a + sep + b, sep, p)
    ensures SplitRaw(a + sep + b, sep) == [a] + SplitRaw(b, sep)
    decreases |a|
  {
    var s := a + sep + b;
    if a == [] {
      assert s == sep + b;
      assert s[..|sep|] == sep;
      assert s[|sep|..] == b;
    } else {
      assert !MatchAt(s, sep, 0);
      assert s[1..] == a[1..] + sep + b;
      forall p | 0 <= p < |a[1..]|
        ensures !MatchAt(a[1..] + sep + b, sep, p)
      {
        MatchShift(s, sep, p);
      }
      SplitRawAfter(a[1..], sep, b);
      assert [s[0]] + a[1..] == a;
    }
  }

  /**
   * A separator whose last character occurs nowhere else in it: every
   * occurrence in a text ends at an occurrence of that character.
   */
  predicate Marked(sep: string) {
    sep != [] && sep[|sep| - 1] !in sep[..|sep| - 1]
  }

  /**
   * When `sep[j]` occurs neither earlier in `sep` nor in `a`, no occurrence
   * of `sep` starts inside `a`, so `a` is cut off whole.
   */
  lemma SplitRawAfterAnchor(a: string, sep: string, j: nat, b: string)
    requires j < |sep| && sep[j] !in sep[..j] && sep[j] !in a
    ensures SplitRaw(a + sep + b, sep) == [a] + SplitRaw(b, sep)
  {
    var s := a + sep + b;
    forall p | 0 <= p < |a|
      ensures !MatchAt(s, sep, p)
    {
      if p + j < |a| {
        assert s[p + j] == a[p + j];
      } else {
        assert s[p + j] == sep[..j][p + j - |a|];
      }
      assert s[p..p + |sep|][j] == s[p + j];
    }
    SplitRawAfter(a, sep, b);
  }

  /** A piece free of the separator's last character is cut off whole. */
  lemma SplitRawAfterMarked(a: string, sep: string, b: string)
    requires Marked(sep) && sep[|sep| - 1] !in a
    ensures SplitRaw(a + sep + b, sep) == [a] + SplitRaw(b, sep)
  {
    SplitRawAfterAnchor(a, sep, |sep| - 1, b);
  }

  /** `(a + sep + b).split(sep)` is `[a, b]` when `sep` occurs only there. */
  lemma SplitTwo(a: string, sep: string, j: nat, b: string)
    requires j < |sep| && sep[j] !in sep[..j] && sep[j] !in a
    requires !Contains(b, sep) && b != ""
    ensures Split(a + sep + b, sep) == [a, b]
  {
    SplitRawAfterAnchor(a, sep, j, b);
    SplitRawSingle(b, sep);
  }

  /** The first piece of `(a + sep + b).split(sep)` is `a` when `a` is not empty. */
  lemma SplitHead(a: string, sep: string, j: nat, b: string)
    requires j < |sep| && sep[j] !in sep[..j] && sep[j] !in a && a != ""
    ensures var r := Split(a + sep + b, sep); |r| >= 1 && r[0] == a
  {
    SplitRawAfterAnchor(a, sep, j, b);
    var raw := SplitRaw(a + sep + b, sep);
    assert raw[0] == a;
  }

  /** Splitting on a marked separator inverts joining on it when no part holds its mark. */
  lemma {:induction false} SplitJoinMarked(parts: seq<string>, sep: string)
    requires Marked(sep) && |parts| >= 1
    requires forall k :: 0 <= k < |parts| ==> sep[|sep| - 1] !in parts[k]
    ensures SplitRaw(Join(parts, sep), sep) == parts
  {
    if |parts| == 1 {
      NotContainsWithout(parts[0], sep, sep[|sep| - 1]);
      SplitRawSingle(parts[0], sep);
    } else {
      SplitJoinMarked(parts[1..], sep);
      SplitRawAfterMarked(parts[0], sep, Join(parts[1..], sep));
      assert [parts[0]] + parts[1..] == parts;
    }
  }

  /** The same for `split` itself, when the last part is not empty. */
  lemma SplitJoin(parts: seq<string>, sep: string)
    requires Marked(sep) && |parts| >= 1 && parts[|parts| - 1] != ""
    requires forall k :: 0 <= k < |parts| ==> sep[|sep| - 1] !in parts[k]
    ensures Split(Join(parts, sep), sep) == parts
  {
    SplitJoinMarked(parts, sep);
    var q := DropTrailingEmpty(parts);
    assert |q| == |parts|;
  }

  // ---------------------------------------------------------------- characters and whitespace

  /** Java's `trim` drops leading and trailing characters up to U+0020. */
  predicate IsTrimmed(c: char) {
    c <= ' '
  }

  function TrimStart(s: string): (r: string)
    ensures |r| <= |s| && r == s[|s| - |r|..]
  {
    if s != [] && IsTrimmed(s[0]) then TrimStart(s[1..]) else s
  }

  function TrimEnd(s: string): (r: string)
    ensures |r| <= |s| && r == s[..|r|]
  {
    if s != [] && IsTrimmed(s[|s| - 1]) then TrimEnd(s[..|s| - 1]) else s
  }

  /** Java's `String.trim()`. */
  function Trim(s: string): (r: string) {
    TrimEnd(TrimStart(s))
  }

  /** `TrimStart` drops exactly the leading run of trimmable characters. */
  lemma {:induction false} TrimStartSpec(s: string)
    ensures TrimStart(s) != [] ==> !IsTrimmed(TrimStart(s)[0])
    ensures forall i :: 0 <= i < |s| - |TrimStart(s)| ==> IsTrimmed(s[i])
  {
    if s != [] && IsTrimmed(s[0]) {
      TrimStartSpec(s[1..]);
      forall i | 1 <= i < |s| - |TrimStart(s)|
        ensures IsTrimmed(s[i])
      {
        assert s[1..][i - 1] == s[i];
      }
    }
  }

  /** `TrimEnd` drops exactly the trailing run of trimmable characters. */
  lemma {:induction false} TrimEndSpec(s: string)
    ensures TrimEnd(s) != [] ==> !IsTrimmed(TrimEnd(s)[|TrimEnd(s)| - 1])
    ensures forall i :: |TrimEnd(s)| <= i < |s| ==> IsTrimmed(s[i])
  {
    if s != [] && IsTrimmed(s[|s| - 1]) {
      TrimEndSpec(s[..|s| - 1]);
    }
  }

  /** A visible last character survives `TrimStart`. */
  lemma {:induction false} TrimStartKeepsLast(s: string)
    requires s != [] && !IsTrimmed(s[|s| - 1])
    ensures TrimStart(s) != [] && TrimStart(s)[|TrimStart(s)| - 1] == s[|s| - 1]
  {
    if IsTrimmed(s[0]) {
      TrimStartKeepsLast(s[1..]);
    }
  }

  /** `s.trim().isEmpty()`: nothing but control characters and spaces. */
  predicate IsBlank(s: string) {
    Trim(s) == ""
  }

  lemma BlankMeansTrimmedOnly(s: string)
    ensures IsBlank(s) <==> forall i :: 0 <= i < |s| ==> IsTrimmed(s[i])
  {
    var t := TrimStart(s);
    TrimStartSpec(s);
    TrimEndSpec(t);
    if t != [] {
      assert t[0] == s[|s| - |t|];
    }
  }

  /** A text that starts and ends with a visible character is its own trim. */
  lemma TrimKeeps(s: string)
    requires s != [] && !IsTrimmed(s[0]) && !IsTrimmed(s[|s| - 1])
    ensures Trim(s) == s
  {
  }

  /** Trimming twice is trimming once. */
  lemma TrimTwice(s: string)
    ensures Trim(Trim(s)) == Trim(s)
  {
    var t := TrimStart(s);
    TrimStartSpec(s);
    TrimEndSpec(t);
    if Trim(s) != [] {
      assert Trim(s)[0] == t[0];
      TrimKeeps(Trim(s));
    }
  }

  /** `s.replace(c, "")`: every occurrence of `c` removed. */
  function RemoveChar(s: string, c: char): (r: string)
    ensures c !in r
    ensures |r| <= |s|
  {
    if s == [] then ""
    else (if s[0] == c then "" else [s[0]]) + RemoveChar(s[1..], c)
  }

  lemma {:induction false} RemoveAbsent(s: string, c: char)
    requires c !in s
    ensures RemoveChar(s, c) == s
  {
    if s != [] {
      RemoveAbsent(s[1..], c);
      assert [s[0]] + s[1..] == s;
    }
  }

  lemma {:induction false} RemoveConcat(a: string, b: string, c: char)
    ensures RemoveChar(a + b, c) == RemoveChar(a, c) + RemoveChar(b, c)
  {
    if a != [] {
      assert (a + b)[1..] == a[1..] + b;
      RemoveConcat(a[1..], b, c);
    } else {
      assert a + b == b;
    }
  }

  /** `s.replace(from, to)` for two characters. */
  function ReplaceChar(s: string, from: char, to: char): (r: string)
    ensures |r| == |s|
    ensures forall i :: 0 <= i < |s| ==> r[i] == if s[i] == from then to else s[i]
  {
    if s == [] then ""
    else [if s[0] == from then to else s[0]] + ReplaceChar(s[1..], from, to)
  }

  /** Lower-cases the ASCII letters. Java's `toLowerCase` also turns the Kelvin
      sign (U+212A) into `k` and `İ` (U+0130) into `i` followed by a combining
      dot, so comparing the result with a lower-case ASCII word without `k`,
      such as "csv" or "json", is exact. */
  function ToLowerAscii(s: string): (r: string)
    ensures |r| == |s|
    ensures forall i :: 0 <= i < |s| ==> r[i] == (if 'A' <= s[i] <= 'Z' then (s[i] as int + 32) as char else s[i])
  {
    if s == [] then ""
    else [if 'A' <= s[0] <= 'Z' then (s[0] as int + 32) as char else s[0]] + ToLowerAscii(s[1..])
  }

  /**
   * The letter a character stands for under `equalsIgnoreCase` against an ASCII
   * letter: ASCII letters of either case, and the four non-ASCII characters
   * whose upper case, or the lower case of that, Java's `equalsIgnoreCase`
   * finds equal to one (U+017F long s, U+0131 dotless i, U+0130 dotted
   * capital I, U+212A Kelvin sign).
   */
  function CaseFold(c: char): char {
    if 'A' <= c <= 'Z' then (c as int + 32) as char
    else if c == 'ſ' then 's'
    else if c == 'ı' || c == 'İ' then 'i'
    else if c == 'K' then 'k'
    else c
  }

  predicate IsLowerAsciiWord(t: string) {
    forall i :: 0 <= i < |t| ==> 'a' <= t[i] <= 'z'
  }

  /** Java's `s.equalsIgnoreCase(t)` for a lower-case ASCII literal `t`. */
  predicate EqualsIgnoreCase(s: string, t: string)
    requires IsLowerAsciiWord(t)
  {
    |s| == |t| && forall i :: 0 <= i < |s| ==> CaseFold(s[i]) == t[i]
  }

  /**
   * Java's `toUpperCase` on the characters `equalsIgnoreCase` can match with
   * an ASCII letter: lower-case ASCII letters, the long s and the dotless i
   * are raised, and the rest (upper-case letters, the dotted capital I, the
   * Kelvin sign) already are upper case.
   */
  function UpperCase(c: char): char {
    if 'a' <= c <= 'z' then (c as int - 32) as char
    else if c == 'ſ' then 'S'
    else if c == 'ı' then 'I'
    else c
  }

  function ToUpperCase(s: string): (r: string)
    ensures |r| == |s| && forall i :: 0 <= i < |s| ==> r[i] == UpperCase(s[i])
  {
    seq(|s|, i requires 0 <= i < |s| => UpperCase(s[i]))
  }

  /** Text equal to a lower-case ASCII word without `i` or `k`, ignoring case, upper-cases as the word does. */
  lemma UpperOfIgnoreCase(s: string, t: string)
    requires IsLowerAsciiWord(t) && 'i' !in t && 'k' !in t && EqualsIgnoreCase(s, t)
    ensures ToUpperCase(s) == ToUpperCase(t)
  {
    forall i | 0 <= i < |s|
      ensures UpperCase(s[i]) == UpperCase(t[i])
    {
      assert t[i] in t;
    }
  }

  predicate StartsWith(s: string, prefix: string) {
    |prefix| <= |s| && s[..|prefix|] == prefix
  }

  // ---------------------------------------------------------------- digits

  predicate IsDigit(c: char) {
    '0' <= c <= '9'
  }

  predicate AllDigits(s: string) {
    forall i :: 0 <= i < |s| ==> IsDigit(s[i])
  }

  function DigitChar(d: int): (c: char)
    requires 0 <= d < 10
    ensures IsDigit(c) && c as int - '0' as int == d
  {
    ('0' as int + d) as char
  }

  /** The value of a string of decimal digits. */
  function DigitsValue(s: string): nat
    requires AllDigits(s)
  {
    if s == [] then 0 else 10 * DigitsValue(s[..|s| - 1]) + (s[|s| - 1] as int - '0' as int)
  }

  /** The decimal digits of `n`, without leading zeros. */
  function NatText(n: nat): (r: string)
    ensures r != [] && AllDigits(r)
  {
    if n < 10 then [DigitChar(n)] else NatText(n / 10) + [DigitChar(n % 10)]
  }

  lemma {:induction false} NatTextValue(n: nat)
    ensures DigitsValue(NatText(n)) == n
  {
    if n >= 10 {
      NatTextValue(n / 10);
      var r := NatText(n);
      assert r[..|r| - 1] == NatText(n / 10);
    }
  }

  /** `Integer.toString(n)`, which is also `%d`. */
  function IntText(n: int): (r: string)
    ensures r != [] && (IsDigit(r[0]) || r[0] == '-') && IsDigit(r[|r| - 1])
  {
    if n < 0 then "-" + NatText(-n) else NatText(n)
  }

  /** `Integer.parseInt(s)`: an optional sign and ASCII digits, within the `int` range;
      `None` stands for the NumberFormatException. */
  function ParseInt(s: string): (r: Option<int>)
    ensures r.Some? ==> IsInt32(r.value) && s != []
  {
    var digits := if s != [] && (s[0] == '-' || s[0] == '+') then s[1..] else s;
    if digits == [] || !AllDigits(digits) then None
    else
      var v: int := if s[0] == '-' then -(DigitsValue(digits) as int) else DigitsValue(digits);
      if IsInt32(v) then Some(v) else None
  }

  /** Printing an `int` and parsing it back is the identity. */
  lemma ParseIntText(n: int)
    requires IsInt32(n)
    ensures ParseInt(IntText(n)) == Some(n)
  {
    var s := IntText(n);
    var a: nat := if n < 0 then -n else n;
    var t := NatText(a);
    NatTextValue(a);
    if n < 0 {
      assert s == "-" + t;
      assert s[0] == '-' && s[1..] == t;
    } else {
      assert s == t && IsDigit(s[0]);
    }
  }

  // ---------------------------------------------------------------- sequences

  /** One more element of a prefix. */
  lemma PrefixStep<T>(s: seq<T>, i: nat)
    requires i < |s|
    ensures s[..i + 1] == s[..i] + [s[i]]
    ensures s[..i + 1][..i] == s[..i]
  {
  }

  // ---------------------------------------------------------------- grades (hundredths)

  /** The characters `%d` and `%.2f` write. */
  predicate IsNumberChar(c: char) {
    IsDigit(c) || c == '-' || c == '.'
  }

  predicate NumberText(s: string) {
    forall i :: 0 <= i < |s| ==> IsNumberChar(s[i])
  }

  /** A character `%d` and `%.2f` never write is absent from their output. */
  lemma NumberTextLacks(s: string, c: char)
    requires NumberText(s) && !IsNumberChar(c)
    ensures c !in s
  {
  }

  lemma IntTextNumber(n: int)
    ensures NumberText(IntText(n))
  {
    var a: nat := if n < 0 then -n else n;
    assert IntText(n) == (if n < 0 then "-" else "") + NatText(a);
  }

  /** `String.format("%.2f", h / 100.0)` with `.` as decimal separator. */
  function GradeText(h: int): (r: string)
    ensures r != [] && (IsDigit(r[0]) || r[0] == '-') && IsDigit(r[|r| - 1])
  {
    if h < 0 then "-" + UnsignedGradeText(-h) else UnsignedGradeText(h)
  }

  /** `%.2f` of a non-negative number of hundredths. */
  function UnsignedGradeText(a: nat): (r: string)
    ensures r != [] && IsDigit(r[0]) && IsDigit(r[|r| - 1])
  {
    NatText(a / 100) + "." + [DigitChar(a % 100 / 10), DigitChar(a % 10)]
  }

  predicate AllZero(s: string) {
    forall i :: 0 <= i < |s| ==> s[i] == '0'
  }

  /** The hundredths written by the first two decimals. */
  function Hundredths(frac: string): nat
    requires AllDigits(frac)
  {
    if |frac| == 0 then 0
    else if |frac| == 1 then 10 * (frac[0] as int - '0' as int)
    else 10 * (frac[0] as int - '0' as int) + (frac[1] as int - '0' as int)
  }

  /** The value of the digits before and after the `.`, when there are any. */
  function DecimalValue(whole: string, frac: string): (r: Option<nat>)
  {
    if !AllDigits(whole) || !AllDigits(frac) || |whole| + |frac| == 0 then None
    else if |frac| > 2 && !AllZero(frac[2..]) then None
    else Some(DigitsValue(whole) * 100 + Hundredths(frac))
  }

  /** Digits with at most one `.`; decimals past the second must be zero. */
  function ParseUnsignedDecimal(b: string): (r: Option<nat>)
  {
    var dot := IndexOfChar(b, '.');
    DecimalValue(b[..dot], if dot < |b| then b[dot + 1..] else "")
  }

  /** Strips one Java floating-point type suffix. */
  function Unsuffixed(t: string): string {
    if t != [] && t[|t| - 1] in "dDfF" then t[..|t| - 1] else t
  }

  /** An optional sign followed by an unsigned decimal. */
  function ParseSigned(t: string): (r: Option<int>)
  {
    if t != [] && t[0] == '-' then
      match ParseUnsignedDecimal(t[1..])
      case None => None
      case Some(v) => Some(-(v as int))
    else
      var body := if t != [] && t[0] == '+' then t[1..] else t;
      match ParseUnsignedDecimal(body)
      case None => None
      case Some(v) => Some(v as int)
  }

  /**
   * `Double.parseDouble(s)` in hundredths: surrounding white space trimmed, an
   * optional sign, digits with an optional `.`, an optional `d`/`f` suffix.
   */
  function ParseGrade(s: string): (r: Option<int>)
  {
    ParseSigned(Unsuffixed(Trim(s)))
  }

  lemma GradeTextNumber(h: int)
    ensures NumberText(GradeText(h))
  {
    var a: nat := if h < 0 then -h else h;
    var t := UnsignedGradeText(a);
    var w := NatText(a / 100);
    assert t == w + "." + [DigitChar(a % 100 / 10), DigitChar(a % 10)];
    assert NumberText(t);
    assert GradeText(h) == (if h < 0 then "-" else "") + t;
  }

  /** A plain `whole.ff` text reads as `whole * 100 + ff`. */
  lemma ParseTwoDecimals(whole: string, frac: string)
    requires AllDigits(whole) && |frac| == 2 && AllDigits(frac)
    ensures ParseUnsignedDecimal(whole + "." + frac) == Some(DigitsValue(whole) * 100 + Hundredths(frac))
  {
    var b := whole + "." + frac;
    assert forall i :: 0 <= i < |whole| ==> whole[i] != '.';
    IndexOfCharAfter(whole, '.', frac);
    var dot := IndexOfChar(b, '.');
    assert dot == |whole| < |b|;
    assert b[..dot] == whole;
    assert b[dot + 1..] == frac;
    assert ParseUnsignedDecimal(b) == DecimalValue(whole, frac);
    TwoDecimalsValue(whole, frac);
  }

  lemma TwoDecimalsValue(whole: string, frac: string)
    requires AllDigits(whole) && |frac| == 2 && AllDigits(frac)
    ensures DecimalValue(whole, frac) == Some(DigitsValue(whole) * 100 + Hundredths(frac))
  {
  }

  lemma DecimalDigits(a: nat)
    ensures a == (a / 100) * 100 + 10 * (a % 100 / 10) + a % 10
  {
  }

  /** The two decimals of `%.2f` carry the remainder modulo 100. */
  lemma GradeFigures(a: nat)
    ensures ParseUnsignedDecimal(UnsignedGradeText(a)) == Some(a)
  {
    var q, d1, d2 := a / 100, a % 100 / 10, a % 10;
    DecimalDigits(a);
    var frac := [DigitChar(d1), DigitChar(d2)];
    ParseTwoDecimals(NatText(q), frac);
    NatTextValue(q);
    assert Hundredths(frac) == 10 * d1 + d2;
  }

  /** A text with visible ends and a digit last is its own trimmed, unsuffixed form. */
  lemma PlainNumber(t: string)
    requires t != [] && !IsTrimmed(t[0]) && IsDigit(t[|t| - 1])
    ensures Unsuffixed(Trim(t)) == t
  {
    TrimKeeps(t);
  }

  /** A leading `-` negates an unsigned decimal. */
  lemma ParseSignedNegative(body: string, v: nat)
    requires body != [] && IsDigit(body[0]) && ParseUnsignedDecimal(body) == Some(v)
    ensures ParseSigned("-" + body) == Some(-(v as int))
  {
    assert ("-" + body)[1..] == body;
  }

  /** Text starting with a digit is read unsigned. */
  lemma ParseSignedDigit(body: string, v: nat)
    requires body != [] && IsDigit(body[0]) && ParseUnsignedDecimal(body) == Some(v)
    ensures ParseSigned(body) == Some(v as int)
  {
  }

  /** `%.2f` output parses back to the same number of hundredths. */
  lemma ParseGradeText(h: int)
    ensures ParseGrade(GradeText(h)) == Some(h)
  {
    var t := GradeText(h);
    PlainNumber(t);
    if h < 0 {
      GradeFigures(-h);
      ParseSignedNegative(UnsignedGradeText(-h), -h);
    } else {
      GradeFigures(h);
      ParseSignedDigit(UnsignedGradeText(h), h);
    }
  }

  /** Unsigned text whose last character is `]` is rejected. */
  lemma UnsignedRejectsBracket(b: string)
    requires b != [] && b[|b| - 1] == ']'
    ensures ParseUnsignedDecimal(b) == None
  {
    var dot := IndexOfChar(b, '.');
    IndexOfCharFirst(b, '.');
    if dot < |b| {
      var frac := b[dot + 1..];
      assert frac != [] && frac[|frac| - 1] == ']';
    } else {
      assert b[..dot][|b| - 1] == ']';
    }
  }

  lemma SignedRejectsBracket(t: string)
    requires t != [] && t[|t| - 1] == ']'
    ensures ParseSigned(t) == None
  {
    if t[0] == '-' || t[0] == '+' {
      UnsignedRejectsBracket(t[1..]);
    } else {
      UnsignedRejectsBracket(t);
    }
  }

  /** Trimming keeps a final `]`, which is not a type suffix. */
  lemma TrimBracket(x: string)
    ensures var t := TrimStart(x + "]");
      t != [] && t[|t| - 1] == ']' && Unsuffixed(Trim(x + "]")) == t
  {
    TrimStartKeepsLast(x + "]");
  }

  /** A text that ends in `]` is not a number. */
  lemma ParseGradeBracket(x: string)
    ensures ParseGrade(x + "]") == None
  {
    TrimBracket(x);
    SignedRejectsBracket(TrimStart(x + "]"));
  }

  /** Unsigned text holding a `,` is rejected: one side of the `.` is not all digits. */
  lemma UnsignedRejectsComma(b: string)
    requires ',' in b
    ensures ParseUnsignedDecimal(b) == None
  {
    var dot := IndexOfChar(b, '.');
    IndexOfCharFirst(b, '.');
    var k :| 0 <= k < |b| && b[k] == ',';
    if k < dot {
      assert b[..dot][k] == ',';
    } else {
      assert b[dot + 1..][k - dot - 1] == ',';
    }
  }

  lemma SignedRejectsComma(t: string)
    requires ',' in t && t[0] != ','
    ensures ParseSigned(t) == None
  {
    if t[0] == '-' || t[0] == '+' {
      var k :| 0 <= k < |t| && t[k] == ',';
      assert t[1..][k - 1] == ',';
      UnsignedRejectsComma(t[1..]);
    } else {
      UnsignedRejectsComma(t);
    }
  }

  /** A number written with a decimal comma is not a Java `double`. */
  lemma ParseGradeComma(s: string)
    requires s != [] && !IsTrimmed(s[0]) && s[0] != ',' && IsDigit(s[|s| - 1]) && ',' in s
    ensures ParseGrade(s) == None
  {
    PlainNumber(s);
    SignedRejectsComma(s);
  }

  /** `%.2f` always writes a decimal point. */
  lemma GradeTextPoint(h: int)
    ensures '.' in GradeText(h)
  {
    var a: nat := if h < 0 then -h else h;
    var w := NatText(a / 100);
    var sign := if h < 0 then "-" else "";
    var two := [DigitChar(a % 100 / 10), DigitChar(a % 10)];
    assert GradeText(h) == sign + w + "." + two;
    assert GradeText(h)[|sign| + |w|] == '.';
  }
}
