/**
 * The JavaScript string built-ins that the markdown components rely on,
 * stated over `seq<char>`: `startsWith`/`endsWith` with a one-character
 * argument, `includes`, `split` on a one-character separator, `join`,
 * `trim`, and the decimal rendering of a non-negative integer used by
 * template literals.
 */
module JsString {

  /** The smaller of two integers, as `slice` clamps its bounds with it. */
  function Min(a: int, b: int): (m: int)
    ensures m <= a && m <= b && (m == a || m == b)
  {
    if a <= b then a else b
  }

  /** `s.startsWith(c)` for a one-character string `c`. */
  predicate StartsWith(s: string, c: char) {
    |s| > 0 && s[0] == c
  }

  /** `s.endsWith(c)` for a one-character string `c`. */
  predicate EndsWith(s: string, c: char) {
    |s| > 0 && s[|s| - 1] == c
  }

  /** Number of occurrences of `c` in `s`. */
  function Count(c: char, s: string): (n: nat)
    ensures n <= |s|
  {
    if s == [] then 0 else (if s[0] == c then 1 else 0) + Count(c, s[1..])
  }

  /** `s.includes(p)`. */
  function Includes(s: string, p: string): bool
    decreases |s|
  {
    if p <= s then true
    else if s == [] then false
    else Includes(s[1..], p)
  }

  /** `p` is included in `s` exactly when it is a prefix of some suffix of `s`. */
  lemma {:induction false} IncludesSpec(s: string, p: string)
    ensures Includes(s, p) <==> exists i :: 0 <= i <= |s| && p <= s[i..]
    decreases |s|
  {
    if p <= s {
      assert p <= s[0..];
    } else if s != [] {
      IncludesSpec(s[1..], p);
      if Includes(s[1..], p) {
        var j :| 0 <= j <= |s[1..]| && p <= s[1..][j..];
        assert s[j + 1..] == s[1..][j..];
      } else {
        forall i | 1 <= i <= |s| ensures !(p <= s[i..]) {
          assert s[i..] == s[1..][i - 1..];
        }
        assert s[0..] == s;
      }
    }
  }

  /** A string with no occurrence of `c` includes no pattern that contains `c`. */
  lemma {:induction false} NotIncludedWithout(s: string, p: string, c: char)
    requires c in p && c !in s
    ensures !Includes(s, p)
    decreases |s|
  {
    if s != [] {
      NotIncludedWithout(s[1..], p, c);
    }
  }

  /**
   * `s.split(sep)` for a one-character separator and no limit: the pieces
   * between consecutive separators, so "" splits into [""].
   */
  function Split(s: string, sep: char): (parts: seq<string>)
    ensures |parts| > 0
    decreases |s|
  {
    if s == [] then [""]
    else
      var rest := Split(s[1..], sep);
      if s[0] == sep then [""] + rest
      else [[s[0]] + rest[0]] + rest[1..]
  }

  /** `parts.join(sep)`. */
  function Join(parts: seq<string>, sep: string): string
    decreases |parts|
  {
    if parts == [] then ""
    else if |parts| == 1 then parts[0]
    else parts[0] + sep + Join(parts[1..], sep)
  }

  /** Splitting on a character yields one more piece than there are occurrences of it. */
  lemma {:induction false} SplitLength(s: string, sep: char)
    ensures |Split(s, sep)| == Count(sep, s) + 1
    decreases |s|
  {
    if s != [] {
      SplitLength(s[1..], sep);
    }
  }

  /** No piece of a split contains the separator. */
  lemma {:induction false} SplitPiecesAvoidSeparator(s: string, sep: char)
    ensures forall k :: 0 <= k < |Split(s, sep)| ==> sep !in Split(s, sep)[k]
    decreases |s|
  {
    if s != [] {
      SplitPiecesAvoidSeparator(s[1..], sep);
    }
  }

  /** Joining the pieces of a split with the separator gives back the string. */
  lemma {:induction false} JoinSplit(s: string, sep: char)
    ensures Join(Split(s, sep), [sep]) == s
    decreases |s|
  {
    if s != [] {
      var rest := Split(s[1..], sep);
      JoinSplit(s[1..], sep);
      if s[0] == sep {
        assert ([""] + rest)[1..] == rest;
      } else {
        JoinConsHead([s[0]], rest[0], rest[1..], [sep]);
        assert [rest[0]] + rest[1..] == rest;
      }
    }
  }

  /** Prepending text to the first part prepends it to the join. */
  lemma JoinConsHead(a: string, x: string, rest: seq<string>, sep: string)
    ensures Join([a + x] + rest, sep) == a + Join([x] + rest, sep)
  {
    if rest != [] {
      assert ([a + x] + rest)[1..] == rest;
      assert ([x] + rest)[1..] == rest;
    }
  }

  /**
   * Joining the first `k` pieces of a split with the separator gives the
   * prefix of `s` that holds exactly `k - 1` separators; unless all pieces
   * were kept, the next character of `s` is the `k`-th separator.
   */
  lemma {:induction false} JoinSplitPrefix(s: string, sep: char, k: nat)
    requires 1 <= k <= |Split(s, sep)|
    ensures var j := Join(Split(s, sep)[..k], [sep]);
      |j| <= |s| && j == s[..|j|] && Count(sep, j) == k - 1 &&
      (k < |Split(s, sep)| ==> |j| < |s| && s[|j|] == sep)
    decreases |s|
  {
    if s == [] {
      assert Split(s, sep)[..k] == [""];
    } else if s[0] == sep {
      if k == 1 {
        assert Split(s, sep)[..k] == [""];
      } else {
        JoinSplitPrefix(s[1..], sep, k - 1);
        JoinSplitPrefixAtSeparator(s, sep, k);
      }
    } else {
      JoinSplitPrefix(s[1..], sep, k);
      JoinSplitPrefixAtOther(s, sep, k);
    }
  }

  /** The step of JoinSplitPrefix when `s` starts with the separator. */
  lemma JoinSplitPrefixAtSeparator(s: string, sep: char, k: nat)
    requires s != [] && s[0] == sep && 2 <= k <= |Split(s, sep)|
    requires var j' := Join(Split(s[1..], sep)[..k - 1], [sep]);
      |j'| <= |s[1..]| && j' == s[1..][..|j'|] && Count(sep, j') == k - 2 &&
      (k - 1 < |Split(s[1..], sep)| ==> |j'| < |s[1..]| && s[1..][|j'|] == sep)
    ensures var j := Join(Split(s, sep)[..k], [sep]);
      |j| <= |s| && j == s[..|j|] && Count(sep, j) == k - 1 &&
      (k < |Split(s, sep)| ==> |j| < |s| && s[|j|] == sep)
  {
    var j' := Join(Split(s[1..], sep)[..k - 1], [sep]);
    JoinSplitHeadSeparator(s, sep, k);
    var j := Join(Split(s, sep)[..k], [sep]);
    ConsPrefix(s, j');
    CountAppend(sep, [sep], j');
    if k < |Split(s, sep)| {
      assert s[|j|] == s[1..][|j'|];
    }
  }

  /** Joining a prefix of the split of a string that starts with the separator. */
  lemma JoinSplitHeadSeparator(s: string, sep: char, k: nat)
    requires s != [] && s[0] == sep && 2 <= k <= |Split(s, sep)|
    ensures |Split(s, sep)| == |Split(s[1..], sep)| + 1
    ensures Join(Split(s, sep)[..k], [sep]) == [sep] + Join(Split(s[1..], sep)[..k - 1], [sep])
  {
    var rest := Split(s[1..], sep);
    var parts := Split(s, sep);
    assert parts[..k] == [""] + rest[..k - 1];
    assert (parts[..k])[1..] == rest[..k - 1];
  }

  /** The step of JoinSplitPrefix when `s` starts with another character. */
  lemma JoinSplitPrefixAtOther(s: string, sep: char, k: nat)
    requires s != [] && s[0] != sep && 1 <= k <= |Split(s, sep)|
    requires var j' := Join(Split(s[1..], sep)[..k], [sep]);
      |j'| <= |s[1..]| && j' == s[1..][..|j'|] && Count(sep, j') == k - 1 &&
      (k < |Split(s[1..], sep)| ==> |j'| < |s[1..]| && s[1..][|j'|] == sep)
    ensures var j := Join(Split(s, sep)[..k], [sep]);
      |j| <= |s| && j == s[..|j|] && Count(sep, j) == k - 1 &&
      (k < |Split(s, sep)| ==> |j| < |s| && s[|j|] == sep)
  {
    var j' := Join(Split(s[1..], sep)[..k], [sep]);
    JoinSplitHeadOther(s, sep, k);
    var j := Join(Split(s, sep)[..k], [sep]);
    ConsPrefix(s, j');
    CountAppend(sep, [s[0]], j');
    if k < |Split(s, sep)| {
      assert s[|j|] == s[1..][|j'|];
    }
  }

  /** Joining a prefix of the split of a string that starts with another character. */
  lemma JoinSplitHeadOther(s: string, sep: char, k: nat)
    requires s != [] && s[0] != sep && 1 <= k <= |Split(s, sep)|
    ensures |Split(s, sep)| == |Split(s[1..], sep)|
    ensures Join(Split(s, sep)[..k], [sep]) == [s[0]] + Join(Split(s[1..], sep)[..k], [sep])
  {
    var rest := Split(s[1..], sep);
    var parts := Split(s, sep);
    assert parts[..k] == [[s[0]] + rest[0]] + rest[1..k];
    assert rest[..k] == [rest[0]] + rest[1..k];
    JoinConsHead([s[0]], rest[0], rest[1..k], [sep]);
  }

  /** A prefix of the tail, preceded by the head, is a prefix. */
  lemma ConsPrefix(s: string, x: string)
    requires s != [] && |x| <= |s| - 1 && x == s[1..][..|x|]
    ensures [s[0]] + x == s[..1 + |x|]
  {
  }

  /** A character that does not occur is counted zero times. */
  lemma {:induction false} CountAbsent(c: char, s: string)
    requires c !in s
    ensures Count(c, s) == 0
    decreases |s|
  {
    if s != [] {
      assert s[0] != c;
      assert forall k :: 0 <= k < |s[1..]| ==> s[1..][k] == s[k + 1];
      CountAbsent(c, s[1..]);
    }
  }

  /** Counting distributes over concatenation. */
  lemma {:induction false} CountAppend(c: char, a: string, b: string)
    ensures Count(c, a + b) == Count(c, a) + Count(c, b)
    decreases |a|
  {
    if a != [] {
      assert (a + b)[1..] == a[1..] + b;
      CountAppend(c, a[1..], b);
    } else {
      assert a + b == b;
    }
  }

  /** Whitespace as `String.prototype.trim` removes it: ECMAScript WhiteSpace and LineTerminator. */
  predicate IsWhitespace(c: char) {
    c == ' ' || c == '\t' || c == '\n' || c == '\r' || c == '\U{000B}' || c == '\U{000C}' ||
    c == '\U{00A0}' || c == '\U{1680}' || ('\U{2000}' <= c <= '\U{200A}') ||
    c == '\U{2028}' || c == '\U{2029}' || c == '\U{202F}' || c == '\U{205F}' ||
    c == '\U{3000}' || c == '\U{FEFF}'
  }

  /** `s` with its leading whitespace removed. */
  function TrimStart(s: string): string
    decreases |s|
  {
    if s != [] && IsWhitespace(s[0]) then TrimStart(s[1..]) else s
  }

  /** `s` with its trailing whitespace removed. */
  function TrimEnd(s: string): string
    decreases |s|
  {
    if s != [] && IsWhitespace(s[|s| - 1]) then TrimEnd(s[..|s| - 1]) else s
  }

  /** `s.trim()`. */
  function Trim(s: string): string
  {
    TrimStart(TrimEnd(s))
  }

  /** TrimStart removes a whitespace-only head and stops at a non-whitespace character. */
  lemma {:induction false} TrimStartSpec(s: string)
    ensures var r := TrimStart(s);
      |r| <= |s| && r == s[|s| - |r|..] &&
      (forall k :: 0 <= k < |s| - |r| ==> IsWhitespace(s[k])) &&
      (r != [] ==> !IsWhitespace(r[0]))
    decreases |s|
  {
    if s != [] && IsWhitespace(s[0]) {
      TrimStartSpec(s[1..]);
    }
  }

  /** TrimEnd removes a whitespace-only tail and stops at a non-whitespace character. */
  lemma {:induction false} TrimEndSpec(s: string)
    ensures var r := TrimEnd(s);
      |r| <= |s| && r == s[..|r|] &&
      (forall k :: |r| <= k < |s| ==> IsWhitespace(s[k])) &&
      (r != [] ==> !IsWhitespace(r[|r| - 1]))
    decreases |s|
  {
    if s != [] && IsWhitespace(s[|s| - 1]) {
      TrimEndSpec(s[..|s| - 1]);
    }
  }

  /** `r` is the part of `s` starting at `i`, and everything around it is whitespace. */
  predicate TrimmedAt(s: string, r: string, i: nat) {
    i + |r| <= |s| && r == s[i..i + |r|] &&
    (forall k :: 0 <= k < i ==> IsWhitespace(s[k])) &&
    (forall k :: i + |r| <= k < |s| ==> IsWhitespace(s[k]))
  }

  /** The trimmed text is the part of `s` between a whitespace-only head and a whitespace-only tail. */
  lemma TrimSpec(s: string)
    ensures exists i :: TrimmedAt(s, Trim(s), i)
  {
    var e := TrimEnd(s);
    var r := TrimStart(e);
    TrimEndSpec(s);
    TrimStartSpec(e);
    var i := |e| - |r|;
    assert r == s[i..i + |r|];
    assert forall k :: 0 <= k < i ==> s[k] == e[k];
    assert TrimmedAt(s, Trim(s), i);
  }

  /** The trimmed text neither starts nor ends with whitespace. */
  lemma TrimEnds(s: string)
    ensures var r := Trim(s); r != [] ==> !IsWhitespace(r[0]) && !IsWhitespace(r[|r| - 1])
  {
    var e := TrimEnd(s);
    var r := TrimStart(e);
    TrimEndSpec(s);
    TrimStartSpec(e);
    if r != [] {
      assert r[|r| - 1] == e[|e| - 1];
    }
  }

  /** Trimming leaves nothing exactly when the text is whitespace only. */
  lemma TrimEmptyIffWhitespace(s: string)
    ensures Trim(s) == [] <==> forall k :: 0 <= k < |s| ==> IsWhitespace(s[k])
  {
    var e := TrimEnd(s);
    TrimEndSpec(s);
    TrimStartSpec(e);
  }

  /** The decimal digit for `d`. */
  function DigitChar(d: nat): (c: char)
    requires d < 10
    ensures '0' <= c <= '9' && c as int - '0' as int == d
  {
    ['0', '1', '2', '3', '4', '5', '6', '7', '8', '9'][d]
  }

  /** The decimal rendering of `n`, as a template literal prints a non-negative integer. */
  function NatToString(n: nat): (s: string)
    ensures |s| > 0
    ensures forall k :: 0 <= k < |s| ==> '0' <= s[k] <= '9'
    decreases n
  {
    if n < 10 then [DigitChar(n)] else NatToString(n / 10) + [DigitChar(n % 10)]
  }

  /** The value of a string of decimal digits. */
  function DecimalValue(s: string): nat
    requires forall k :: 0 <= k < |s| ==> '0' <= s[k] <= '9'
    decreases |s|
  {
    if s == [] then 0 else DecimalValue(s[..|s| - 1]) * 10 + (s[|s| - 1] as int - '0' as int)
  }

  /** Reading back the decimal rendering gives the number. */
  lemma {:induction false} DecimalRoundTrip(n: nat)
    ensures DecimalValue(NatToString(n)) == n
    decreases n
  {
    if n >= 10 {
      var s := NatToString(n);
      assert s[..|s| - 1] == NatToString(n / 10);
      DecimalRoundTrip(n / 10);
    }
  }

  /** Distinct numbers have distinct decimal renderings. */
  lemma NatToStringInjective(m: nat, n: nat)
    requires NatToString(m) == NatToString(n)
    ensures m == n
  {
    DecimalRoundTrip(m);
    DecimalRoundTrip(n);
  }
}
