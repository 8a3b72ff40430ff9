/** The JavaScript string primitives the core relies on: `trim`,
    ASCII `toLowerCase`, `replace` of the first occurrence of a literal,
    `split`/`join` on a one-character separator, and `parseInt(s, 10)`. */
module Strings {
  import opened Outcomes

  /** JavaScript's StrWhiteSpaceChar: WhiteSpace and LineTerminator code units. */
  predicate IsWhiteSpace(c: char)
  {
    c == '\t' || c == '\n' || c == '\U{000B}' || c == '\U{000C}' || c == '\r'
    || c == ' ' || c == '\U{00A0}' || c == '\U{1680}'
    || ('\U{2000}' <= c <= '\U{200A}')
    || c == '\U{2028}' || c == '\U{2029}' || c == '\U{202F}' || c == '\U{205F}'
    || c == '\U{3000}' || c == '\U{FEFF}'
  }

  predicate IsDigit(c: char) { '0' <= c <= '9' }

  predicate IsAsciiLetter(c: char) { ('a' <= c <= 'z') || ('A' <= c <= 'Z') }

  predicate HasDigit(s: string) { exists i :: 0 <= i < |s| && IsDigit(s[i]) }

  predicate HasAsciiLetter(s: string) { exists i :: 0 <= i < |s| && IsAsciiLetter(s[i]) }

  /** JavaScript truthiness of an optional string: present and non-empty. */
  predicate Truthy(v: Option<string>)
  {
    v.Some? && v.value != ""
  }

  /** `s.length`: JavaScript counts UTF-16 code units, so a character beyond
      the Basic Multilingual Plane counts twice. */
  function Utf16Length(s: string): (n: nat)
    ensures |s| <= n <= 2 * |s|
  {
    if |s| == 0 then 0 else (if s[0] as int > 0xFFFF then 2 else 1) + Utf16Length(s[1..])
  }

  /** On the Basic Multilingual Plane, JavaScript's length is the number of characters. */
  lemma {:induction false} Utf16LengthOfBmp(s: string)
    requires forall i :: 0 <= i < |s| ==> s[i] as int <= 0xFFFF
    ensures Utf16Length(s) == |s|
  {
    if |s| > 0 {
      assert forall i :: 0 <= i < |s[1..]| ==> s[1..][i] == s[i + 1];
      Utf16LengthOfBmp(s[1..]);
    }
  }

  /** Each character beyond the Basic Multilingual Plane adds two code units. */
  lemma {:induction false} Utf16LengthAppend(a: string, b: string)
    ensures Utf16Length(a + b) == Utf16Length(a) + Utf16Length(b)
  {
    if |a| == 0 {
      assert a + b == b;
    } else {
      assert (a + b)[0] == a[0];
      assert (a + b)[1..] == a[1..] + b;
      Utf16LengthAppend(a[1..], b);
    }
  }

  /** A string with no leading and no trailing white space. */
  predicate IsTrimmed(s: string)
  {
    |s| > 0 ==> !IsWhiteSpace(s[0]) && !IsWhiteSpace(s[|s| - 1])
  }

  /** `trimStart`: the suffix left after dropping every leading white-space unit. */
  function TrimStart(s: string): (r: string)
    ensures |r| <= |s| && r == s[|s| - |r|..]
    ensures forall i :: 0 <= i < |s| - |r| ==> IsWhiteSpace(s[i])
    ensures |r| > 0 ==> !IsWhiteSpace(r[0])
  {
    if |s| > 0 && IsWhiteSpace(s[0]) then TrimStart(s[1..]) else s
  }

  /** `trimEnd`: the prefix left after dropping every trailing white-space unit. */
  function TrimEnd(s: string): (r: string)
    ensures |r| <= |s| && r == s[..|r|]
    ensures forall i :: |r| <= i < |s| ==> IsWhiteSpace(s[i])
    ensures |r| > 0 ==> !IsWhiteSpace(r[|r| - 1])
  {
    if |s| > 0 && IsWhiteSpace(s[|s| - 1]) then TrimEnd(s[..|s| - 1]) else s
  }

  /** `String.prototype.trim`: white space is dropped from both ends. */
  function Trim(s: string): (r: string)
    ensures IsTrimmed(r)
    ensures |r| <= |s|
  {
    var a := TrimStart(s);
    var r := TrimEnd(a);
    assert |r| > 0 ==> r[0] == a[0];
    r
  }

  /** What `trim` keeps is an infix of the input: a prefix of the suffix
      `trimStart` leaves. */
  lemma TrimIsInfix(s: string)
    ensures |TrimStart(s)| <= |s| && TrimStart(s) == s[|s| - |TrimStart(s)|..]
    ensures |Trim(s)| <= |TrimStart(s)| && Trim(s) == TrimStart(s)[..|Trim(s)|]
  {
    assert Trim(s) == TrimEnd(TrimStart(s));
  }

  /** Everything `trim` drops is white space. */
  lemma TrimDropsWhiteSpace(s: string)
    ensures var i := |s| - |TrimStart(s)|;
      && (forall k :: 0 <= k < i ==> IsWhiteSpace(s[k]))
      && (forall k :: i + |Trim(s)| <= k < |s| ==> IsWhiteSpace(s[k]))
  {
    var a := TrimStart(s);
    var r := TrimEnd(a);
    var i := |s| - |a|;
    assert Trim(s) == r;
    forall k | i + |r| <= k < |s|
      ensures IsWhiteSpace(s[k])
    {
      assert s[k] == a[k - i];
    }
  }

  lemma TrimOfTrimmed(s: string)
    requires IsTrimmed(s)
    ensures Trim(s) == s
  {
  }

  /** Trimming is idempotent. */
  lemma TrimIdempotent(s: string)
    ensures Trim(Trim(s)) == Trim(s)
  {
    TrimOfTrimmed(Trim(s));
  }

  /** One character of `toLowerCase`: an upper-case ASCII letter becomes its
      lower-case letter, anything else is left alone. */
  function LowerChar(c: char): (l: char)
    ensures !('A' <= l <= 'Z')
    ensures 'A' <= c <= 'Z' ==> 'a' <= l <= 'z' && l as int - c as int == 32
    ensures !('A' <= c <= 'Z') ==> l == c
  {
    if 'A' <= c <= 'Z' then (c as int + 32) as char else c
  }

  /** `toLowerCase`, restricted to the ASCII letters. */
  function ToLower(s: string): (r: string)
    ensures |r| == |s|
    ensures forall i :: 0 <= i < |s| ==> r[i] == LowerChar(s[i])
  {
    seq(|s|, i requires 0 <= i < |s| => LowerChar(s[i]))
  }

  lemma ToLowerIdempotent(s: string)
    ensures ToLower(ToLower(s)) == ToLower(s)
  {
  }

  /** A string without upper-case ASCII letters is its own lower-case form. */
  lemma ToLowerOfLower(s: string)
    requires forall i :: 0 <= i < |s| ==> !('A' <= s[i] <= 'Z')
    ensures ToLower(s) == s
  {
    assert forall i :: 0 <= i < |s| ==> ToLower(s)[i] == s[i];
  }

  /** Lower-casing neither adds nor removes white space, so it keeps a trimmed string trimmed. */
  lemma ToLowerKeepsTrimmed(s: string)
    requires IsTrimmed(s)
    ensures IsTrimmed(ToLower(s))
  {
  }

  // ---------------------------------------------------------------------
  // Searching and replacing

  predicate OccursAt(s: string, pat: string, i: int)
  {
    0 <= i && i + |pat| <= |s| && s[i..i + |pat|] == pat
  }

  /** The first position at or after `from` where `pat` occurs. */
  function IndexOfFrom(s: string, pat: string, from: nat): (r: Option<nat>)
    requires from <= |s|
    ensures r.Some? ==> from <= r.value && OccursAt(s, pat, r.value)
    ensures r.Some? ==> forall j :: from <= j < r.value ==> !OccursAt(s, pat, j)
    ensures r.None? ==> forall j :: from <= j ==> !OccursAt(s, pat, j)
    decreases |s| - from
  {
    if OccursAt(s, pat, from) then Some(from)
    else if from + |pat| >= |s| then None
    else IndexOfFrom(s, pat, from + 1)
  }

  function IndexOf(s: string, pat: string): (r: Option<nat>)
  {
    IndexOfFrom(s, pat, 0)
  }

  /** `s.replace(pat, rep)` with a string pattern: only the first occurrence is replaced. */
  function ReplaceFirst(s: string, pat: string, rep: string): (r: string)
    ensures (forall j :: !OccursAt(s, pat, j)) ==> r == s
    ensures forall i ::
      (OccursAt(s, pat, i) && (forall j :: 0 <= j < i ==> !OccursAt(s, pat, j)))
      ==> r == s[..i] + rep + s[i + |pat|..]
  {
    match IndexOf(s, pat)
    case None => s
    case Some(i) => s[..i] + rep + s[i + |pat|..]
  }

  /** Replacing with the empty string cuts the first occurrence out. */
  lemma RemoveFirstOccurrence(s: string, pat: string, i: nat)
    requires OccursAt(s, pat, i) && forall j :: 0 <= j < i ==> !OccursAt(s, pat, j)
    ensures ReplaceFirst(s, pat, "") == s[..i] + s[i + |pat|..]
  {
    assert s[..i] + "" + s[i + |pat|..] == s[..i] + s[i + |pat|..];
  }

  /** A pattern at the very start is the first occurrence, so it is the one replaced. */
  lemma ReplaceFirstAtStart(pat: string, rest: string, rep: string)
    ensures ReplaceFirst(pat + rest, pat, rep) == rep + rest
  {
    var s := pat + rest;
    assert OccursAt(s, pat, 0) by {
      assert s[0..|pat|] == pat;
    }
    assert s[..0] + rep + s[|pat|..] == rep + rest;
  }

  // ---------------------------------------------------------------------
  // split / join on a single-character separator

  /** The summed length of the pieces. */
  function TotalLength(parts: seq<string>): nat
  {
    if |parts| == 0 then 0 else |parts[0]| + TotalLength(parts[1..])
  }

  /** `parts.join(sep)`: the pieces in order, the first one leading, with
      exactly one separator between neighbours and none around them. */
  function Join(parts: seq<string>, sep: char): (r: string)
    ensures |parts| == 0 ==> r == ""
    ensures |parts| >= 1 ==> parts[0] <= r && |r| == TotalLength(parts) + |parts| - 1
    ensures |parts| >= 2 ==> r[|parts[0]|] == sep
  {
    if |parts| == 0 then ""
    else if |parts| == 1 then parts[0]
    else parts[0] + [sep] + Join(parts[1..], sep)
  }

  /** Appending a piece to a non-empty list appends a separator and that
      piece to the joined string. */
  lemma {:induction false} JoinSnoc(parts: seq<string>, last: string, sep: char)
    requires |parts| >= 1
    ensures Join(parts + [last], sep) == Join(parts, sep) + [sep] + last
    decreases |parts|
  {
    if |parts| == 1 {
      assert (parts + [last])[1..] == [last];
    } else {
      assert (parts + [last])[1..] == parts[1..] + [last];
      JoinSnoc(parts[1..], last, sep);
    }
  }

  /** `s.split(sep)`: at least one piece, no piece holds the separator, and
      joining the pieces back gives `s`. */
  function Split(s: string, sep: char): (parts: seq<string>)
    ensures |parts| >= 1
    ensures forall i :: 0 <= i < |parts| ==> sep !in parts[i]
    ensures Join(parts, sep) == s
  {
    if |s| == 0 then [""]
    else
      var rest := Split(s[1..], sep);
      if s[0] == sep then
        assert s == [sep] + s[1..];
        [""] + rest
      else
        var parts := [[s[0]] + rest[0]] + rest[1..];
        JoinConsHead(s[0], rest, sep);
        assert [s[0]] + s[1..] == s;
        parts
  }

  lemma JoinConsHead(c: char, parts: seq<string>, sep: char)
    requires |parts| >= 1
    ensures Join([[c] + parts[0]] + parts[1..], sep) == [c] + Join(parts, sep)
  {
    var q := [[c] + parts[0]] + parts[1..];
    if |parts| > 1 {
      assert q[1..] == parts[1..];
    }
  }

  /** Splitting a join of separator-free pieces recovers the pieces. */
  lemma {:induction false} SplitJoin(parts: seq<string>, sep: char)
    requires |parts| >= 1
    requires forall i :: 0 <= i < |parts| ==> sep !in parts[i]
    ensures Split(Join(parts, sep), sep) == parts
    decreases |parts|, |parts[0]|
  {
    var p := parts[0];
    if |p| == 0 {
      if |parts| == 1 {
      } else {
        var tail := parts[1..];
        SplitJoin(tail, sep);
        var j := Join(parts, sep);
        assert j == [sep] + Join(tail, sep);
        assert j[1..] == Join(tail, sep);
        assert Split(j, sep) == [""] + tail;
      }
    } else {
      var shorter := [p[1..]] + parts[1..];
      assert shorter[1..] == parts[1..];
      assert forall i :: 0 <= i < |shorter| ==> sep !in shorter[i] by {
        forall i | 0 <= i < |shorter|
          ensures sep !in shorter[i]
        {
          if i == 0 {
            assert forall x :: x in p[1..] ==> x in p;
          } else {
            assert shorter[i] == parts[i];
          }
        }
      }
      SplitJoin(shorter, sep);
      var j := Join(parts, sep);
      var js := Join(shorter, sep);
      assert p == [p[0]] + p[1..];
      JoinConsHead(p[0], shorter, sep);
      assert [[p[0]] + shorter[0]] + shorter[1..] == parts;
      assert j == [p[0]] + js;
      assert j[1..] == js;
      assert p[0] != sep by { assert p[0] in p; }
      var rest := Split(j[1..], sep);
      assert rest == shorter;
      assert Split(j, sep) == [[p[0]] + rest[0]] + rest[1..];
    }
  }

  // ---------------------------------------------------------------------
  // parseInt(s, 10)

  function DigitValue(c: char): nat
    requires IsDigit(c)
  {
    c as int - '0' as int
  }

  function DigitChar(d: nat): (c: char)
    requires d < 10
    ensures IsDigit(c) && DigitValue(c) == d
  {
    ('0' as int + d) as char
  }

  predicate AllDigits(s: string) { forall i :: 0 <= i < |s| ==> IsDigit(s[i]) }

  /** The longest prefix made of decimal digits. */
  function DigitPrefix(s: string): (r: string)
    ensures |r| <= |s| && r == s[..|r|] && AllDigits(r)
    ensures |r| < |s| ==> !IsDigit(s[|r|])
  {
    if |s| > 0 && IsDigit(s[0]) then
      var rest := DigitPrefix(s[1..]);
      assert s[1..][..|rest|] == s[1..|rest| + 1];
      [s[0]] + rest
    else ""
  }

  /** The value of a decimal numeral, most significant digit first. */
  function DigitsValue(ds: string): nat
    requires AllDigits(ds)
  {
    if |ds| == 0 then 0 else 10 * DigitsValue(ds[..|ds| - 1]) + DigitValue(ds[|ds| - 1])
  }

  /** `parseInt` after the leading white space: an optional sign, then the
      longest run of digits; `None` stands for `NaN`. */
  function ParseSigned(t: string): Option<int>
  {
    var negative := |t| > 0 && t[0] == '-';
    var body := if |t| > 0 && (t[0] == '-' || t[0] == '+') then t[1..] else t;
    var ds := DigitPrefix(body);
    if |ds| == 0 then None
    else
      var v: int := DigitsValue(ds);
      Some(if negative then -v else v)
  }

  /** `parseInt(s, 10)`: skip leading white space, take an optional sign and
      the longest run of digits; `None` stands for `NaN`. */
  function ParseInt(s: string): (r: Option<int>)
    ensures (forall i :: 0 <= i < |s| ==> !IsDigit(s[i])) ==> r.None?
    ensures |s| > 0 && IsDigit(s[0]) ==> r == Some(DigitsValue(DigitPrefix(s)))
  {
    var t := TrimStart(s);
    var body := if |t| > 0 && (t[0] == '-' || t[0] == '+') then t[1..] else t;
    assert body == s[|s| - |body|..];
    assert |DigitPrefix(body)| > 0 ==> IsDigit(s[|s| - |body|]);
    assert |s| > 0 && IsDigit(s[0]) ==> t == s by {
      if |s| > 0 && IsDigit(s[0]) {
        assert !IsWhiteSpace(s[0]);
      }
    }
    ParseSigned(t)
  }

  /** The canonical decimal numeral of a natural number. */
  function NatToString(n: nat): (r: string)
    ensures |r| >= 1 && AllDigits(r)
  {
    if n < 10 then [DigitChar(n)] else NatToString(n / 10) + [DigitChar(n % 10)]
  }

  lemma {:induction false} DigitsValueOfNatToString(n: nat)
    ensures DigitsValue(NatToString(n)) == n
  {
    var r := NatToString(n);
    if n >= 10 {
      DigitsValueOfNatToString(n / 10);
      assert r[..|r| - 1] == NatToString(n / 10);
    }
  }

  /** Digits followed by a non-digit: the digits are the longest digit prefix. */
  lemma DigitPrefixOfNumeral(ds: string, rest: string)
    requires AllDigits(ds)
    requires |rest| == 0 || !IsDigit(rest[0])
    ensures DigitPrefix(ds + rest) == ds
  {
    var s := ds + rest;
    var r := DigitPrefix(s);
    assert forall i :: 0 <= i < |r| ==> s[i] == r[i];
    assert forall i :: 0 <= i < |ds| ==> s[i] == ds[i];
    assert |rest| > 0 ==> s[|ds|] == rest[0];
    assert |r| == |ds|;
    assert r == s[..|ds|];
    assert s[..|ds|] == ds;
  }

  /** `parseInt` skips leading white space. */
  lemma ParseIntSkipsWhiteSpace(c: char, s: string)
    requires IsWhiteSpace(c)
    ensures ParseInt([c] + s) == ParseInt(s)
  {
    assert ([c] + s)[1..] == s;
    assert TrimStart([c] + s) == TrimStart(s);
  }

  /** `parseInt` stops at the first non-digit: `"10abc"` reads as 10. */
  lemma ParseIntIgnoresTail(n: nat, rest: string)
    requires |rest| == 0 || !IsDigit(rest[0])
    ensures ParseInt(NatToString(n) + rest) == Some(n)
  {
    var d := NatToString(n);
    assert (d + rest)[0] == d[0];
    DigitPrefixOfNumeral(d, rest);
    DigitsValueOfNatToString(n);
  }

  /** A leading `-` negates the value and a leading `+` is dropped. */
  lemma ParseIntSign(n: nat)
    ensures ParseInt("-" + NatToString(n)) == Some(-(n as int))
    ensures ParseInt("+" + NatToString(n)) == Some(n as int)
  {
    ParseIntSigned('-', n);
    ParseIntSigned('+', n);
  }

  lemma ParseIntSigned(sign: char, n: nat)
    requires sign == '-' || sign == '+'
    ensures ParseInt([sign] + NatToString(n)) == Some(if sign == '-' then -(n as int) else n as int)
  {
    var d := NatToString(n);
    DigitPrefixOfNumeral(d, "");
    assert d + "" == d;
    DigitsValueOfNatToString(n);
    var s := [sign] + d;
    assert !IsWhiteSpace(s[0]);
    assert TrimStart(s) == s;
    assert s[1..] == d;
  }

  /** `parseInt` reads back every canonical numeral. */
  lemma ParseIntOfNatToString(n: nat)
    ensures ParseInt(NatToString(n)) == Some(n)
  {
    var s := NatToString(n);
    assert !IsWhiteSpace(s[0]) by { assert IsDigit(s[0]); }
    assert TrimStart(s) == s;
    assert DigitPrefix(s) == s;
    DigitsValueOfNatToString(n);
  }
}
