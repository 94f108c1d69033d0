/**
 * The string rules the engine relies on, written out over `seq<char>`:
 * `QString::trimmed`, `QString::toLower`, `startsWith`/`endsWith`/`contains`,
 * the last component of a path, and the decimal rendering and parsing of
 * integers that `QVariant::toString` and `QString::toInt` perform.
 */
module Strings {
  import opened Options

  // ---------------------------------------------------------------- trimming

  /** Whitespace removed by `trimmed()`: space and TAB, LF, VT, FF, CR. */
  predicate IsSpace(c: char)
  {
    c == ' ' || '\t' <= c <= '\r'
  }

  /** The length of the leading whitespace of `s`. */
  function Lead(s: string): (n: nat)
    ensures n <= |s|
    ensures forall k :: 0 <= k < n ==> IsSpace(s[k])
    ensures n < |s| ==> !IsSpace(s[n])
  {
    if s != [] && IsSpace(s[0]) then 1 + Lead(s[1..]) else 0
  }

  /** `QString::trimmed`: whitespace removed from both ends. */
  function Trim(s: string): string
  {
    if s != [] && IsSpace(s[0]) then Trim(s[1..])
    else if s != [] && IsSpace(s[|s| - 1]) then Trim(s[..|s| - 1])
    else s
  }

  /** Trimming empties exactly the all-whitespace strings, and leaves no whitespace at either end. */
  lemma {:induction false} TrimSpec(s: string)
    ensures Trim(s) == [] <==> forall k :: 0 <= k < |s| ==> IsSpace(s[k])
    ensures Trim(s) != [] ==> !IsSpace(Trim(s)[0]) && !IsSpace(Trim(s)[|Trim(s)| - 1])
    decreases |s|
  {
    if s != [] && IsSpace(s[0]) {
      TrimSpec(s[1..]);
      assert forall k :: 1 <= k < |s| ==> s[k] == s[1..][k - 1];
    } else if s != [] && IsSpace(s[|s| - 1]) {
      TrimSpec(s[..|s| - 1]);
      assert forall k :: 0 <= k < |s| - 1 ==> s[k] == s[..|s| - 1][k];
    }
  }

  /** A string with no whitespace at either end is its own trim. */
  lemma TrimOfTrimmed(s: string)
    requires s != [] ==> !IsSpace(s[0]) && !IsSpace(s[|s| - 1])
    ensures Trim(s) == s
  {
  }

  /** Trimming twice is trimming once. */
  lemma TrimIdempotent(s: string)
    ensures Trim(Trim(s)) == Trim(s)
  {
    TrimSpec(s);
    TrimOfTrimmed(Trim(s));
  }

  // ----------------------------------------------------------- lower-casing

  /** ASCII lower-casing of one character. */
  function LowerChar(c: char): (l: char)
    ensures 'A' <= c <= 'Z' ==> l as int == c as int + 32
    ensures !('A' <= c <= 'Z') ==> l == c
  {
    if 'A' <= c <= 'Z' then (c as int + 32) as char else c
  }

  /** `QString::toLower`, restricted to ASCII letters. */
  function ToLower(s: string): (r: string)
    ensures |r| == |s|
  {
    if s == [] then [] else [LowerChar(s[0])] + ToLower(s[1..])
  }

  /** Lower-casing works character by character. */
  lemma {:induction false} ToLowerSpec(s: string)
    ensures forall i :: 0 <= i < |s| ==> ToLower(s)[i] == LowerChar(s[i])
  {
    if s != [] {
      ToLowerSpec(s[1..]);
      assert forall i :: 1 <= i < |s| ==> ToLower(s)[i] == ToLower(s[1..])[i - 1];
    }
  }

  // ------------------------------------------------ prefix, suffix, contains

  predicate StartsWith(s: string, prefix: string)
  {
    prefix <= s
  }

  /** `endsWith(suffix, Qt::CaseInsensitive)`. */
  predicate EndsWithIgnoreCase(s: string, suffix: string)
  {
    |suffix| <= |s| && ToLower(s[|s| - |suffix|..]) == ToLower(suffix)
  }

  /** `QString::contains`: `needle` starts at the front of `hay` or somewhere after it (the empty needle always occurs). */
  predicate Contains(hay: string, needle: string)
  {
    IsPrefix(needle, hay) || (hay != [] && Contains(hay[1..], needle))
  }

  /** `p` agrees with the front of `s`, compared character by character. */
  predicate IsPrefix(p: string, s: string)
  {
    p == [] || (s != [] && p[0] == s[0] && IsPrefix(p[1..], s[1..]))
  }

  /** The character-by-character comparison is the prefix relation. */
  lemma {:induction false} IsPrefixIff(p: string, s: string)
    ensures IsPrefix(p, s) <==> p <= s
  {
    if p != [] && s != [] {
      IsPrefixIff(p[1..], s[1..]);
      if p[0] == s[0] && p[1..] <= s[1..] {
        assert p == [p[0]] + p[1..] && s == [s[0]] + s[1..];
      }
      if p <= s {
        assert p[1..] <= s[1..];
      }
    }
  }

  /** `Contains` holds exactly when the needle is a prefix of `hay` from some offset on. */
  lemma {:induction false} ContainsAt(hay: string, needle: string)
    ensures Contains(hay, needle) <==> exists i :: 0 <= i <= |hay| && needle <= hay[i..]
  {
    assert hay[0..] == hay;
    IsPrefixIff(needle, hay);
    if hay != [] {
      ContainsAt(hay[1..], needle);
      if Contains(hay[1..], needle) {
        var i :| 0 <= i <= |hay[1..]| && needle <= hay[1..][i..];
        assert hay[1..][i..] == hay[i + 1..];
      }
      if i :| 0 < i <= |hay| && needle <= hay[i..] {
        assert hay[1..][i - 1..] == hay[i..];
      }
    }
  }

  // ------------------------------------------------------- last component

  /** What follows the last `ch` in `s`, or all of `s` when `ch` does not occur. */
  function AfterLast(s: string, ch: char): string
  {
    if s == [] then []
    else if s[|s| - 1] == ch then []
    else AfterLast(s[..|s| - 1], ch) + [s[|s| - 1]]
  }

  /** The last component is a suffix free of `ch`, preceded by `ch` unless it is all of `s`. */
  lemma {:induction false} AfterLastSpec(s: string, ch: char)
    ensures |AfterLast(s, ch)| <= |s| && AfterLast(s, ch) == s[|s| - |AfterLast(s, ch)|..]
    ensures ch !in AfterLast(s, ch)
    ensures |AfterLast(s, ch)| < |s| ==> s[|s| - |AfterLast(s, ch)| - 1] == ch
  {
    if s != [] && s[|s| - 1] != ch {
      var init := s[..|s| - 1];
      AfterLastSpec(init, ch);
      var r := AfterLast(init, ch);
      assert init[|init| - |r|..] + [s[|s| - 1]] == s[|s| - |r| - 1..];
    }
  }

  /** Appending `ch` and a tail free of `ch` makes that tail the last component. */
  lemma {:induction false} AfterLastOfJoin(prefix: string, ch: char, tail: string)
    requires ch !in tail
    ensures AfterLast(prefix + [ch] + tail, ch) == tail
  {
    var s := prefix + [ch] + tail;
    if tail == [] {
    } else {
      var shorter := tail[..|tail| - 1];
      assert s[..|s| - 1] == prefix + [ch] + shorter;
      assert tail[|tail| - 1] in tail;
      AfterLastOfJoin(prefix, ch, shorter);
      assert tail == shorter + [tail[|tail| - 1]];
    }
  }

  // --------------------------------------------------------------- numbers

  predicate IsDigit(c: char)
  {
    '0' <= c <= '9'
  }

  predicate AllDigits(s: string)
  {
    forall i :: 0 <= i < |s| ==> IsDigit(s[i])
  }

  function DigitChar(d: int): (c: char)
    requires 0 <= d < 10
    ensures IsDigit(c) && c as int - '0' as int == d
  {
    ('0' as int + d) as char
  }

  /** The decimal digits of a natural number, most significant first, no leading zeros. */
  function NatToString(n: nat): (r: string)
    ensures r != [] && AllDigits(r)
    ensures |r| > 1 ==> r[0] != '0'
  {
    if n < 10 then [DigitChar(n)] else NatToString(n / 10) + [DigitChar(n % 10)]
  }

  /** The number a string of decimal digits denotes. */
  function DigitsValue(s: string): nat
    requires AllDigits(s)
  {
    if s == [] then 0 else DigitsValue(s[..|s| - 1]) * 10 + (s[|s| - 1] as int - '0' as int)
  }

  /** Reading back the digits of `n` yields `n`. */
  lemma {:induction false} DigitsRoundTrip(n: nat)
    ensures DigitsValue(NatToString(n)) == n
  {
    var s := NatToString(n);
    if n >= 10 {
      DigitsRoundTrip(n / 10);
      assert s[..|s| - 1] == NatToString(n / 10);
    }
  }

  /** `QString::number(n)` / `QVariant(int).toString()`. */
  function IntToString(n: int): (r: string)
    ensures r != []
    ensures forall i :: 0 <= i < |r| ==> !IsSpace(r[i])
  {
    if n < 0 then "-" + NatToString(-n) else NatToString(n)
  }

  /**
   * `QString::toInt` with its ok-flag: surrounding whitespace is ignored,
   * then an optional sign and at least one digit; anything else is `None`.
   */
  function ParseInt(s: string): (r: Option<int>)
    ensures r.Some? ==> Trim(s) != []
  {
    var t := Trim(s);
    if t == [] then None
    else if (t[0] == '-' || t[0] == '+') && |t| > 1 && AllDigits(t[1..]) then
      var v: int := DigitsValue(t[1..]);
      Some(if t[0] == '-' then -v else v)
    else if AllDigits(t) then Some(DigitsValue(t))
    else None
  }

  /** Parsing the decimal rendering of an integer gives the integer back. */
  lemma IntRoundTrip(n: int)
    ensures ParseInt(IntToString(n)) == Some(n)
  {
    var s := IntToString(n);
    TrimOfTrimmed(s);
    if n < 0 {
      assert s[1..] == NatToString(-n);
      DigitsRoundTrip(-n);
    } else {
      DigitsRoundTrip(n);
    }
  }

  /** Trimming keeps every non-whitespace character, at its offset past the leading whitespace. */
  lemma {:induction false} TrimKeeps(s: string, i: nat)
    requires i < |s| && !IsSpace(s[i])
    ensures Lead(s) <= i && i - Lead(s) < |Trim(s)| && Trim(s)[i - Lead(s)] == s[i]
    decreases |s|
  {
    if IsSpace(s[0]) {
      TrimKeeps(s[1..], i - 1);
    } else if IsSpace(s[|s| - 1]) {
      TrimKeeps(s[..|s| - 1], i);
    }
  }

  /** A text holding a character that is neither whitespace, digit nor sign parses to nothing. */
  lemma NonNumericParsesToNone(s: string, i: nat)
    requires i < |s| && !IsSpace(s[i]) && !IsDigit(s[i]) && s[i] != '-' && s[i] != '+'
    ensures ParseInt(s) == None
  {
    TrimKeeps(s, i);
    var t := Trim(s);
    var j := i - Lead(s);
    assert t[j] == s[i];
    assert !AllDigits(t);
    if |t| > 1 && (t[0] == '-' || t[0] == '+') {
      assert j >= 1;
      assert t[1..][j - 1] == s[i];
    }
  }
}
