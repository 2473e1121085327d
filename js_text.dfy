/** The few JavaScript string operations the task list relies on: the `\s`
    character class (which `String.prototype.trim` shares), the ASCII letter and
    digit classes of its input filters, `toLowerCase` on ASCII, `includes`,
    number-to-string conversion and `padStart(2, '0')`. */
module JsText {

  /** The characters matched by `\s` and removed by `trim`: the white space and
      line terminators of ECMAScript. */
  predicate IsSpace(c: char) {
    var n := c as int;
    n == 0x09 || n == 0x0A || n == 0x0B || n == 0x0C || n == 0x0D || n == 0x20 ||
    n == 0xA0 || n == 0x1680 || (0x2000 <= n <= 0x200A) || n == 0x2028 ||
    n == 0x2029 || n == 0x202F || n == 0x205F || n == 0x3000 || n == 0xFEFF
  }

  predicate IsAsciiLetter(c: char) {
    'a' <= c <= 'z' || 'A' <= c <= 'Z'
  }

  predicate IsDigit(c: char) {
    '0' <= c <= '9'
  }

  /** `/^[a-zA-Z\s]*$/.test(s)` */
  predicate LettersOrSpace(s: string) {
    forall i :: 0 <= i < |s| ==> IsAsciiLetter(s[i]) || IsSpace(s[i])
  }

  /** `/^\d*$/.test(s)` */
  predicate AllDigits(s: string) {
    forall i :: 0 <= i < |s| ==> IsDigit(s[i])
  }

  predicate AllSpace(s: string) {
    forall i :: 0 <= i < |s| ==> IsSpace(s[i])
  }

  /** `s` without its leading white space. */
  function TrimStart(s: string): string {
    if s != [] && IsSpace(s[0]) then TrimStart(s[1..]) else s
  }

  /** `s` without its trailing white space. */
  function TrimEnd(s: string): string {
    if s != [] && IsSpace(s[|s| - 1]) then TrimEnd(s[..|s| - 1]) else s
  }

  /** `s.trim()` */
  function Trim(s: string): string {
    TrimEnd(TrimStart(s))
  }

  /** Trimming the start drops a prefix of white space and stops at the
      first character that is not white space. */
  lemma {:induction false} TrimStartDrops(s: string)
    ensures var r := TrimStart(s);
      |r| <= |s| && r == s[|s| - |r|..] && AllSpace(s[..|s| - |r|]) && (r == [] || !IsSpace(r[0]))
  {
    if s != [] && IsSpace(s[0]) {
      var t := s[1..];
      TrimStartDrops(t);
      var r := TrimStart(t);
      assert t[|t| - |r|..] == s[|s| - |r|..];
      assert s[..|s| - |r|] == [s[0]] + t[..|t| - |r|];
    }
  }

  /** Trimming the end drops a suffix of white space and stops at the last
      character that is not white space. */
  lemma {:induction false} TrimEndDrops(s: string)
    ensures var r := TrimEnd(s);
      |r| <= |s| && r == s[..|r|] && AllSpace(s[|r|..]) && (r == [] || !IsSpace(r[|r| - 1]))
  {
    if s != [] && IsSpace(s[|s| - 1]) {
      var t := s[..|s| - 1];
      TrimEndDrops(t);
      var r := TrimEnd(t);
      assert t[..|r|] == s[..|r|];
      assert s[|r|..] == t[|r|..] + [s[|s| - 1]];
    }
  }

  /** `trim()` yields a slice of `s` that neither starts nor ends with white space. */
  lemma TrimSlice(s: string)
    ensures var r := Trim(s);
      (r == [] || (!IsSpace(r[0]) && !IsSpace(r[|r| - 1]))) &&
      exists i {:trigger s[i..]} :: 0 <= i <= |s| - |r| && r == s[i..i + |r|]
  {
    var a := TrimStart(s);
    TrimStartDrops(s);
    TrimEndDrops(a);
    var r := TrimEnd(a);
    var i := |s| - |a|;
    assert s[i..] == a;
    assert r == s[i..i + |r|];
    if r != [] {
      assert r[0] == a[0];
    }
  }

  /** `!s.trim()`: the string is empty once trimmed exactly when every character is white space. */
  lemma BlankIffAllSpace(s: string)
    ensures Trim(s) == [] <==> AllSpace(s)
  {
    var a := TrimStart(s);
    TrimStartDrops(s);
    TrimEndDrops(a);
    if Trim(s) == [] {
      assert a == [] by {
        assert AllSpace(a[0..]);
      }
      forall i | 0 <= i < |s| ensures IsSpace(s[i]) {
        assert s[i] == s[..|s| - |a|][i];
      }
    } else {
      var r := Trim(s);
      assert r == a[..|r|];
      assert s[|s| - |a|] == r[0];
    }
  }

  function LowerChar(c: char): char {
    if 'A' <= c <= 'Z' then (c as int + 32) as char else c
  }

  /** `s.toLowerCase()`, for the ASCII letters. */
  function ToLower(s: string): (r: string)
    ensures |r| == |s|
    ensures forall i :: 0 <= i < |s| ==> r[i] == LowerChar(s[i])
  {
    seq(|s|, i requires 0 <= i < |s| => LowerChar(s[i]))
  }

  /** `hay.includes(needle)` */
  function Contains(hay: string, needle: string): bool
  {
    needle <= hay || (hay != [] && Contains(hay[1..], needle))
  }

  lemma {:induction false} ContainsAt(hay: string, needle: string)
    ensures Contains(hay, needle) <==>
      exists i {:trigger hay[i..]} :: 0 <= i && i + |needle| <= |hay| && hay[i..][..|needle|] == needle
  {
    if needle <= hay {
      assert hay[0..][..|needle|] == needle;
    } else if hay == [] {
    } else {
      ContainsAt(hay[1..], needle);
      if Contains(hay[1..], needle) {
        var i :| 0 <= i && i + |needle| <= |hay[1..]| && hay[1..][i..][..|needle|] == needle;
        assert hay[i + 1..] == hay[1..][i..];
      } else {
        forall i | 0 <= i && i + |needle| <= |hay| ensures hay[i..][..|needle|] != needle {
          if i > 0 {
            assert hay[i..] == hay[1..][i - 1..];
          }
        }
      }
    }
  }

  function DigitChar(d: nat): (c: char)
    requires d < 10
    ensures IsDigit(c) && c as int - '0' as int == d
  {
    ('0' as int + d) as char
  }

  /** The value of a string of decimal digits. */
  function DigitsValue(s: string): nat
    requires AllDigits(s)
  {
    if s == [] then 0 else DigitsValue(s[..|s| - 1]) * 10 + (s[|s| - 1] as int - '0' as int)
  }

  /** `s` is a string of decimal digits worth `n`. */
  predicate Spells(s: string, n: nat) {
    AllDigits(s) && DigitsValue(s) == n
  }

  /** `String(n)` for a non-negative integer: its shortest decimal spelling. */
  function NatToString(n: nat): (r: string)
    ensures r != []
  {
    if n < 10 then [DigitChar(n)] else NatToString(n / 10) + [DigitChar(n % 10)]
  }

  /** `String(n)` reads back as `n` and has no leading zero: a first `0` is the
      whole text of zero. */
  lemma {:induction false} NatToStringSpells(n: nat)
    ensures Spells(NatToString(n), n)
    ensures NatToString(n)[0] == '0' ==> n == 0 && |NatToString(n)| == 1
  {
    if n >= 10 {
      var p := NatToString(n / 10);
      var r := NatToString(n);
      NatToStringSpells(n / 10);
      assert r[..|r| - 1] == p;
      assert r[0] == p[0];
      assert forall i :: 0 <= i < |r| - 1 ==> r[i] == p[i];
    }
  }

  /** `String(n)` for any integer. */
  function IntToString(n: int): (r: string)
    ensures r != []
  {
    if n < 0 then "-" + NatToString(-n) else NatToString(n)
  }

  /** `String(n)` reads back as `n`: its digits, after a `-` when `n` is negative. */
  lemma IntToStringSpells(n: int)
    ensures n >= 0 ==> Spells(IntToString(n), n)
    ensures n >= 0 && IntToString(n)[0] == '0' ==> n == 0 && |IntToString(n)| == 1
    ensures n < 0 ==> |IntToString(n)| >= 2 && IntToString(n)[0] == '-'
    ensures n < 0 ==> Spells(IntToString(n)[1..], -n) && IntToString(n)[1] != '0'
  {
    if n < 0 {
      NatToStringSpells(-n);
      assert IntToString(n)[1..] == NatToString(-n);
    } else {
      NatToStringSpells(n);
    }
  }

  /** `String(n).padStart(2, '0')` for `n < 100`. */
  function TwoDigits(n: nat): (r: string)
    requires n < 100
    ensures |r| == 2
  {
    var s := NatToString(n);
    if |s| < 2 then "0" + s
    else
      assert |s| == 2 by {
        NatToStringSpells(n);
        if |s| > 2 {
          assert DigitsValue(s) >= 100 by { LongDigits(s); }
        }
      }
      s
  }

  /** The padded spelling reads back as `n`. */
  lemma TwoDigitsSpells(n: nat)
    requires n < 100
    ensures Spells(TwoDigits(n), n)
  {
    var s := NatToString(n);
    NatToStringSpells(n);
    if |s| < 2 {
      var r := "0" + s;
      assert r[..1] == "0";
      assert r[..|r| - 1] == "0";
    }
  }

  /** A digit string without a leading zero and of three or more digits is worth at least 100. */
  lemma {:induction false} LongDigits(s: string)
    requires AllDigits(s) && |s| >= 3 && s[0] != '0'
    ensures DigitsValue(s) >= 100
  {
    var p := s[..|s| - 1];
    assert p[0] == s[0];
    if |p| >= 3 {
      LongDigits(p);
    } else {
      assert p[..1] == [s[0]];
      assert DigitsValue(p) >= 10;
    }
  }
}
