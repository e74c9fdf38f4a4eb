/**
 * The string helpers of Go's standard library that the core calls
 * (strings.TrimSpace, ToLower, ReplaceAll, Replace, Contains, TrimPrefix,
 * Split, fmt's %d and encoding/json's string encoder), stated on byte
 * strings: every char of a Dafny `string` stands for one byte.
 */
module Text {

  /** The bytes strings.TrimSpace removes when they are ASCII. */
  predicate IsAsciiSpace(c: char) {
    c == ' ' || c == '\t' || c == '\n' || c == '\r' || c as int == 11 || c as int == 12
  }

  function TrimLeft(s: string): (r: string)
    ensures |r| <= |s|
    ensures r == [] || !IsAsciiSpace(r[0])
  {
    if |s| > 0 && IsAsciiSpace(s[0]) then TrimLeft(s[1..]) else s
  }

  /** TrimLeft removes exactly the leading white space: the result is a suffix and all it drops is space. */
  lemma {:induction false} TrimLeftMeaning(s: string)
    ensures TrimLeft(s) == s[|s| - |TrimLeft(s)|..]
    ensures forall k :: 0 <= k < |s| - |TrimLeft(s)| ==> IsAsciiSpace(s[k])
    decreases |s|
  {
    if |s| > 0 && IsAsciiSpace(s[0]) {
      TrimLeftMeaning(s[1..]);
    }
  }

  function TrimRight(s: string): (r: string)
    ensures |r| <= |s|
    ensures r == [] || !IsAsciiSpace(r[|r| - 1])
    ensures r != [] ==> r[0] == s[0]
  {
    if |s| > 0 && IsAsciiSpace(s[|s| - 1]) then TrimRight(s[..|s| - 1]) else s
  }

  /** TrimRight removes exactly the trailing white space: the result is a prefix and all it drops is space. */
  lemma {:induction false} TrimRightMeaning(s: string)
    ensures TrimRight(s) == s[..|TrimRight(s)|]
    ensures forall k :: |TrimRight(s)| <= k < |s| ==> IsAsciiSpace(s[k])
    decreases |s|
  {
    if |s| > 0 && IsAsciiSpace(s[|s| - 1]) {
      TrimRightMeaning(s[..|s| - 1]);
    }
  }

  /** strings.TrimSpace on ASCII white space. */
  function TrimSpace(s: string): (r: string)
    ensures |r| <= |s|
    ensures r == [] || (!IsAsciiSpace(r[0]) && !IsAsciiSpace(r[|r| - 1]))
  {
    TrimRight(TrimLeft(s))
  }

  /**
   * TrimSpace keeps the middle of the text: it is `s` with a run of
   * white space cut from each end.
   */
  lemma TrimSpaceMeaning(s: string)
    ensures exists i, j :: (0 <= i <= j <= |s| && TrimSpace(s) == s[i..j] &&
      (forall k :: 0 <= k < i ==> IsAsciiSpace(s[k])) && (forall k :: j <= k < |s| ==> IsAsciiSpace(s[k])))
  {
    var l := TrimLeft(s);
    TrimLeftMeaning(s);
    TrimRightMeaning(l);
    var i := |s| - |l|;
    var j := i + |TrimRight(l)|;
    assert TrimSpace(s) == s[i..j];
    forall k | j <= k < |s| ensures IsAsciiSpace(s[k]) {
      assert s[k] == l[k - i];
    }
  }

  function LowerByte(c: char): char {
    if 'A' <= c <= 'Z' then (c as int + 32) as char else c
  }

  /** strings.ToLower on ASCII letters. */
  function ToLower(s: string): (r: string)
    ensures |r| == |s|
    ensures forall i :: 0 <= i < |s| ==> r[i] == LowerByte(s[i])
  {
    if s == [] then [] else [LowerByte(s[0])] + ToLower(s[1..])
  }

  /** Lower-casing leaves a string without upper-case ASCII letters as it is. */
  lemma ToLowerOfLower(s: string)
    requires forall i :: 0 <= i < |s| ==> !('A' <= s[i] <= 'Z')
    ensures ToLower(s) == s
  {
  }

  /** Lower-casing is idempotent. */
  lemma ToLowerIdempotent(s: string)
    ensures ToLower(ToLower(s)) == ToLower(s)
  {
    ToLowerOfLower(ToLower(s));
  }

  predicate HasPrefix(s: string, prefix: string) {
    |prefix| <= |s| && s[..|prefix|] == prefix
  }

  /** strings.TrimPrefix. */
  function TrimPrefix(s: string, prefix: string): (r: string)
    ensures HasPrefix(s, prefix) ==> s == prefix + r
    ensures !HasPrefix(s, prefix) ==> r == s
  {
    if HasPrefix(s, prefix) then s[|prefix|..] else s
  }

  /** strings.Contains, as a left-to-right search. */
  predicate Contains(s: string, sub: string)
    decreases |s|
  {
    HasPrefix(s, sub) || (|s| > 0 && Contains(s[1..], sub))
  }

  /** `sub` occurs in `s` starting at index `i`. */
  predicate OccursAt(s: string, sub: string, i: int) {
    0 <= i <= |s| - |sub| && s[i..i + |sub|] == sub
  }

  /** The search finds `sub` exactly when it occurs somewhere. */
  lemma {:induction false} ContainsIff(s: string, sub: string)
    ensures Contains(s, sub) <==> exists i :: OccursAt(s, sub, i)
    decreases |s|
  {
    if HasPrefix(s, sub) {
      assert OccursAt(s, sub, 0);
    } else if |s| > 0 {
      ContainsIff(s[1..], sub);
      if exists i :: OccursAt(s, sub, i) {
        var i :| OccursAt(s, sub, i);
        assert i != 0;
        assert OccursAt(s[1..], sub, i - 1);
      }
      if Contains(s[1..], sub) {
        var j :| OccursAt(s[1..], sub, j);
        assert OccursAt(s, sub, j + 1);
      }
    }
  }

  /** strings.ReplaceAll: leftmost, non-overlapping occurrences of `pattern`. */
  function ReplaceAll(s: string, pattern: string, repl: string): (r: string)
    requires |pattern| > 0
    decreases |s|
  {
    if |s| == 0 then []
    else if HasPrefix(s, pattern) then repl + ReplaceAll(s[|pattern|..], pattern, repl)
    else [s[0]] + ReplaceAll(s[1..], pattern, repl)
  }

  /** With no occurrence of `pattern`, ReplaceAll returns its input. */
  lemma {:induction false} ReplaceAllAbsent(s: string, pattern: string, repl: string)
    requires |pattern| > 0 && !Contains(s, pattern)
    ensures ReplaceAll(s, pattern, repl) == s
    decreases |s|
  {
    if |s| > 0 {
      ReplaceAllAbsent(s[1..], pattern, repl);
      assert [s[0]] + s[1..] == s;
    }
  }

  /** Replacing one byte by another keeps the length and changes exactly those bytes. */
  lemma {:induction false} ReplaceAllByte(s: string, pattern: char, repl: char)
    ensures |ReplaceAll(s, [pattern], [repl])| == |s|
    ensures forall i :: 0 <= i < |s| ==>
      ReplaceAll(s, [pattern], [repl])[i] == if s[i] == pattern then repl else s[i]
    ensures forall i :: 0 <= i < |s| ==> ReplaceAll(s, [pattern], [repl])[i] != pattern || pattern == repl
    decreases |s|
  {
    if |s| > 0 {
      ReplaceAllByte(s[1..], pattern, repl);
      assert HasPrefix(s, [pattern]) <==> s[0] == pattern;
    }
  }

  /** strings.Replace(s, pattern, repl, 1): only the leftmost occurrence. */
  function ReplaceFirst(s: string, pattern: string, repl: string): (r: string)
    requires |pattern| > 0
    decreases |s|
  {
    if |s| == 0 then []
    else if HasPrefix(s, pattern) then repl + s[|pattern|..]
    else [s[0]] + ReplaceFirst(s[1..], pattern, repl)
  }

  lemma {:induction false} ReplaceFirstAbsent(s: string, pattern: string, repl: string)
    requires |pattern| > 0 && !Contains(s, pattern)
    ensures ReplaceFirst(s, pattern, repl) == s
    decreases |s|
  {
    if |s| > 0 {
      ReplaceFirstAbsent(s[1..], pattern, repl);
      assert [s[0]] + s[1..] == s;
    }
  }

  /** strings.Split(s, sep) for a one-byte separator. */
  function Split(s: string, sep: char): (r: seq<string>)
    ensures |r| >= 1
    ensures forall i, k :: 0 <= i < |r| && 0 <= k < |r[i]| ==> r[i][k] != sep
    decreases |s|
  {
    if |s| == 0 then [""]
    else
      var rest := Split(s[1..], sep);
      if s[0] == sep then [""] + rest
      else [[s[0]] + rest[0]] + rest[1..]
  }

  function Join(parts: seq<string>, sep: char): string {
    if |parts| == 0 then ""
    else if |parts| == 1 then parts[0]
    else parts[0] + [sep] + Join(parts[1..], sep)
  }

  function Count(s: string, c: char): nat {
    if s == [] then 0 else (if s[0] == c then 1 else 0) + Count(s[1..], c)
  }

  lemma JoinCons(c: char, rest: seq<string>, sep: char)
    requires |rest| >= 1
    ensures Join([[c] + rest[0]] + rest[1..], sep) == [c] + Join(rest, sep)
  {
    var r := [[c] + rest[0]] + rest[1..];
    assert r[1..] == rest[1..];
  }

  /** Split has Join as its inverse and yields one more piece than there are separators. */
  lemma {:induction false} SplitJoin(s: string, sep: char)
    ensures Join(Split(s, sep), sep) == s
    ensures |Split(s, sep)| == Count(s, sep) + 1
    decreases |s|
  {
    if |s| > 0 {
      SplitJoin(s[1..], sep);
      var rest := Split(s[1..], sep);
      if s[0] != sep {
        JoinCons(s[0], rest, sep);
      } else {
        assert ([""] + rest)[1..] == rest;
      }
      assert [s[0]] + s[1..] == s;
    }
  }

  /** `w` does not hold the byte `sep`. */
  predicate Free(w: string, sep: char) {
    forall k :: 0 <= k < |w| ==> w[k] != sep
  }

  /** Splitting text that starts with a piece free of `sep` puts that piece in front of the first part. */
  lemma {:induction false} SplitFreePrefix(w: string, rest: string, sep: char)
    requires Free(w, sep)
    ensures Split(w + rest, sep) == [w + Split(rest, sep)[0]] + Split(rest, sep)[1..]
    decreases |w|
  {
    if w != [] {
      assert (w + rest)[1..] == w[1..] + rest;
      SplitFreePrefix(w[1..], rest, sep);
      assert [w[0]] + (w[1..] + Split(rest, sep)[0]) == w + Split(rest, sep)[0];
    } else {
      var r := Split(rest, sep);
      assert w + rest == rest && w + r[0] == r[0];
      assert [r[0]] + r[1..] == r;
    }
  }

  /** Join has Split as its inverse when no part holds the separator. */
  lemma {:induction false} JoinSplit(parts: seq<string>, sep: char)
    requires |parts| >= 1
    requires forall i :: 0 <= i < |parts| ==> Free(parts[i], sep)
    ensures Split(Join(parts, sep), sep) == parts
    decreases |parts|
  {
    var w := parts[0];
    assert Free(w, sep);
    if |parts| == 1 {
      SplitFreePrefix(w, "", sep);
      assert w + "" == w;
    } else {
      var tail := parts[1..];
      assert forall i :: 0 <= i < |tail| ==> Free(tail[i], sep) by {
        forall i | 0 <= i < |tail| ensures Free(tail[i], sep) { assert tail[i] == parts[i + 1]; }
      }
      JoinSplit(tail, sep);
      var rest := [sep] + Join(tail, sep);
      SplitAtSep(Join(tail, sep), sep);
      assert Join(parts, sep) == w + rest;
      SplitFreePrefix(w, rest, sep);
      assert Split(rest, sep) == [""] + tail;
      assert w + "" == w;
      assert [w] + tail == parts;
    }
  }

  /** A leading separator splits off an empty piece. */
  lemma SplitAtSep(t: string, sep: char)
    ensures Split([sep] + t, sep) == [""] + Split(t, sep)
  {
    assert ([sep] + t)[1..] == t;
  }

  function DigitChar(d: nat): char
    requires d < 10
  {
    ('0' as int + d) as char
  }

  function NatToString(n: nat): (r: string)
    ensures |r| >= 1
    ensures forall i :: 0 <= i < |r| ==> '0' <= r[i] <= '9'
  {
    if n < 10 then [DigitChar(n)] else NatToString(n / 10) + [DigitChar(n % 10)]
  }

  /** fmt's %d of a Go int. */
  function IntToString(n: int): (r: string)
    ensures |r| >= 1
    ensures n < 0 <==> r[0] == '-'
  {
    if n < 0 then "-" + NatToString(-n) else NatToString(n)
  }

  /** The value of a decimal numeral with an optional leading minus. */
  function NumeralValue(s: string): int
    decreases |s|
  {
    if s == [] then 0
    else if s[0] == '-' then -DigitsValue(s[1..])
    else DigitsValue(s)
  }

  function DigitsValue(s: string): int
    decreases |s|
  {
    if s == [] then 0 else 10 * DigitsValue(s[..|s| - 1]) + (s[|s| - 1] as int - '0' as int)
  }

  lemma {:induction false} NatToStringValue(n: nat)
    ensures DigitsValue(NatToString(n)) == n
    decreases n
  {
    if n >= 10 {
      NatToStringValue(n / 10);
      var s := NatToString(n / 10) + [DigitChar(n % 10)];
      assert s[..|s| - 1] == NatToString(n / 10);
    }
  }

  /** A %d numeral reads back as its number. */
  lemma IntToStringValue(n: int)
    ensures NumeralValue(IntToString(n)) == n
  {
    if n < 0 {
      NatToStringValue(-n);
      assert IntToString(n)[1..] == NatToString(-n);
    } else {
      NatToStringValue(n);
    }
  }

  function HexDigit(d: nat): char
    requires d < 16
  {
    "0123456789abcdef"[d]
  }

  /**
   * The escape encoding/json writes for one byte (HTML escaping on):
   * backslash and quote are escaped, \b \f \n \r \t have short forms,
   * other control bytes and < > & become \u00XX, everything else is copied.
   */
  function JsonEscapeByte(c: char): (r: string)
    ensures |r| >= 1
    ensures r[0] == '\\' || r == [c]
    ensures c != '"' && c != '\\' && c != '<' && c != '>' && c != '&' && c >= ' ' ==> r == [c]
  {
    if c == '"' || c == '\\' then ['\\', c]
    else if c as int == 8 then "\\b"
    else if c as int == 12 then "\\f"
    else if c == '\n' then "\\n"
    else if c == '\r' then "\\r"
    else if c == '\t' then "\\t"
    else if c < ' ' || c == '<' || c == '>' || c == '&' then
      "\\u00" + [HexDigit(c as int / 16), HexDigit(c as int % 16)]
    else [c]
  }

  function JsonEscape(s: string): string {
    if s == [] then [] else JsonEscapeByte(s[0]) + JsonEscape(s[1..])
  }

  /** An encoded string never contains an unescaped quote. */
  lemma {:induction false} JsonEscapeNoBareQuote(s: string)
    ensures forall i :: 0 <= i < |JsonEscape(s)| && JsonEscape(s)[i] == '"' ==> i > 0 && JsonEscape(s)[i - 1] == '\\'
  {
    if s != [] {
      JsonEscapeNoBareQuote(s[1..]);
      var h := JsonEscapeByte(s[0]);
      var t := JsonEscape(s[1..]);
      assert JsonEscape(s) == h + t;
      forall i | 0 <= i < |h + t| && (h + t)[i] == '"'
        ensures i > 0 && (h + t)[i - 1] == '\\'
      {
        if i < |h| {
          assert s[0] == '"' && i == 1;
        } else {
          assert t[i - |h|] == '"';
        }
      }
    }
  }

  /** A JSON string literal as encoding/json writes it. */
  function JsonString(s: string): (r: string)
    ensures |r| >= 2 && r[0] == '"' && r[|r| - 1] == '"'
  {
    "\"" + JsonEscape(s) + "\""
  }
}
