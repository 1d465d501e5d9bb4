/**
 * The parts of java.lang.String and java.lang.Integer that the timetable
 * code relies on, written out as functions on `string` (= seq<char>):
 * trim, split on a one-character literal, replace of a one-character
 * target, Integer.parseInt, Integer.toString and ASCII upper-casing.
 */
module JavaText {
  import opened Wrappers

  /** String.trim() removes every leading and trailing char whose code is at most U+0020. */
  predicate IsTrimmed(c: char) {
    c <= ' '
  }

  predicate AllTrimmed(s: string) {
    forall i :: 0 <= i < |s| ==> IsTrimmed(s[i])
  }

  /** Drops the leading blanks. */
  function TrimStart(s: string): string
    decreases |s|
  {
    if s != [] && IsTrimmed(s[0]) then TrimStart(s[1..]) else s
  }

  /** Drops the trailing blanks. */
  function TrimEnd(s: string): string
    decreases |s|
  {
    if s != [] && IsTrimmed(s[|s| - 1]) then TrimEnd(s[..|s| - 1]) else s
  }

  /** TrimStart leaves a suffix that starts with a non-blank, after a prefix of blanks. */
  lemma {:induction false} TrimStartSpec(s: string)
    ensures |TrimStart(s)| <= |s| && TrimStart(s) == s[|s| - |TrimStart(s)|..]
    ensures TrimStart(s) == [] || !IsTrimmed(TrimStart(s)[0])
    ensures AllTrimmed(s[..|s| - |TrimStart(s)|])
    decreases |s|
  {
    if s != [] && IsTrimmed(s[0]) {
      var r := TrimStart(s[1..]);
      assert TrimStart(s) == r;
      TrimStartSpec(s[1..]);
      var k := |s| - |r|;
      assert s[1..][k - 1..] == s[k..];
      forall i | 0 <= i < k
        ensures IsTrimmed(s[..k][i])
      {
        if i > 0 {
          assert s[..k][i] == s[1..][..k - 1][i - 1];
        }
      }
    } else {
      assert s[..0] == [];
    }
  }

  /** TrimEnd leaves a prefix that ends with a non-blank, before a suffix of blanks. */
  lemma {:induction false} TrimEndSpec(s: string)
    ensures |TrimEnd(s)| <= |s| && TrimEnd(s) == s[..|TrimEnd(s)|]
    ensures TrimEnd(s) == [] || !IsTrimmed(TrimEnd(s)[|TrimEnd(s)| - 1])
    ensures AllTrimmed(s[|TrimEnd(s)|..])
    decreases |s|
  {
    if s != [] && IsTrimmed(s[|s| - 1]) {
      var t := s[..|s| - 1];
      var r := TrimEnd(t);
      assert TrimEnd(s) == r;
      TrimEndSpec(t);
      assert t[..|r|] == s[..|r|];
      forall i | |r| <= i < |s|
        ensures IsTrimmed(s[i])
      {
        if i < |s| - 1 {
          assert s[i] == t[|r|..][i - |r|];
        }
      }
      assert forall i :: 0 <= i < |s| - |r| ==> s[|r|..][i] == s[|r| + i];
    } else {
      assert s[|s|..] == [];
    }
  }

  /** The chars left after trimming lie in the string, at their own offsets after the leading blanks. */
  lemma TrimmedFromSource(s: string)
    ensures forall i :: 0 <= i < |Trim(s)| ==> Trim(s)[i] in s
  {
    var a := TrimStart(s);
    var r := TrimEnd(a);
    TrimStartSpec(s);
    TrimEndSpec(a);
    var k := |s| - |a|;
    forall i | 0 <= i < |r|
      ensures r[i] in s
    {
      assert r[i] == a[..|r|][i] == a[i];
      assert a[i] == s[k..][i] == s[k + i];
    }
  }

  /** Trimming leaves nothing exactly when every char is a blank. */
  lemma TrimmedEmpty(s: string)
    ensures TrimEnd(TrimStart(s)) == [] <==> AllTrimmed(s)
  {
    var a := TrimStart(s);
    var r := TrimEnd(a);
    TrimStartSpec(s);
    TrimEndSpec(a);
    var k := |s| - |a|;
    if r == [] {
      assert AllTrimmed(a[0..]);
      assert a == [];
      assert s[..k] == s;
    } else {
      assert r[0] == a[0] == s[k];
      assert !IsTrimmed(s[k]);
    }
  }

  /**
   * String.trim(): the slice of `s` left when the blanks before and after it
   * are cut off, so that the slice itself neither starts nor ends with one.
   */
  function Trim(s: string): (r: string)
    ensures |r| <= |s|
    ensures exists i, j :: 0 <= i <= j <= |s| && r == s[i..j] && AllTrimmed(s[..i]) && AllTrimmed(s[j..])
    ensures r == [] || (!IsTrimmed(r[0]) && !IsTrimmed(r[|r| - 1]))
    ensures r == [] <==> AllTrimmed(s)
  {
    TrimmedEmpty(s);
    var a := TrimStart(s);
    TrimStartSpec(s);
    TrimEndSpec(a);
    var r := TrimEnd(a);
    var k := |s| - |a|;
    assert r == s[k..k + |r|];
    assert s[k + |r|..] == a[|r|..];
    assert r != [] ==> r[0] == a[0];
    r
  }

  /** Trimming a string that has no blank at either end gives it back. */
  lemma TrimKeeps(s: string)
    requires s == [] || (!IsTrimmed(s[0]) && !IsTrimmed(s[|s| - 1]))
    ensures Trim(s) == s
  {
  }

  lemma TrimIdempotent(s: string)
    ensures Trim(Trim(s)) == Trim(s)
  {
    TrimKeeps(Trim(s));
  }

  // ---------------------------------------------------------------------------
  // Splitting on one character

  /** Every piece between occurrences of `c`, empty pieces included (split with limit -1). */
  function SplitOn(s: string, c: char): (r: seq<string>)
    ensures |r| >= 1
    ensures forall i :: 0 <= i < |r| ==> c !in r[i]
    ensures |r| == 1 <==> c !in s
  {
    if s == [] then [""]
    else
      var rest := SplitOn(s[1..], c);
      if s[0] == c then [""] + rest
      else [[s[0]] + rest[0]] + rest[1..]
  }

  function Join(parts: seq<string>, c: char): string
    requires |parts| >= 1
  {
    if |parts| == 1 then parts[0] else parts[0] + [c] + Join(parts[1..], c)
  }

  /** A join starts with its first piece. */
  lemma JoinStartsWith(parts: seq<string>, c: char)
    requires |parts| >= 1
    ensures parts[0] <= Join(parts, c)
  {
  }

  /** Joining the pieces with the separator gives back the string. */
  lemma {:induction false} JoinSplitOn(s: string, c: char)
    ensures Join(SplitOn(s, c), c) == s
  {
    if s != [] {
      var rest := SplitOn(s[1..], c);
      JoinSplitOn(s[1..], c);
      if s[0] == c {
        assert SplitOn(s, c)[1..] == rest;
      } else if |rest| == 1 {
        assert SplitOn(s, c) == [[s[0]] + rest[0]];
      } else {
        var r := SplitOn(s, c);
        assert r[1..] == rest[1..];
        calc {
          Join(r, c);
          r[0] + [c] + Join(rest[1..], c);
          [s[0]] + (rest[0] + [c] + Join(rest[1..], c));
          [s[0]] + Join(rest, c);
          [s[0]] + s[1..];
        }
      }
    }
  }

  /** Splitting a join of separator-free pieces gives back the pieces. */
  lemma {:induction false} SplitOnJoin(parts: seq<string>, c: char)
    requires |parts| >= 1
    requires forall i :: 0 <= i < |parts| ==> c !in parts[i]
    ensures SplitOn(Join(parts, c), c) == parts
  {
    if |parts| == 1 {
      SplitOnNoSeparator(parts[0], c);
    } else {
      SplitOnJoin(parts[1..], c);
      SplitOnPrefix(parts[0], Join(parts[1..], c), c);
      assert Join(parts, c) == parts[0] + ([c] + Join(parts[1..], c));
      assert [parts[0]] + parts[1..] == parts;
    }
  }

  lemma {:induction false} SplitOnNoSeparator(s: string, c: char)
    requires c !in s
    ensures SplitOn(s, c) == [s]
  {
    if s != [] {
      SplitOnNoSeparator(s[1..], c);
      assert [s[0]] + s[1..] == s;
    }
  }

  /** A separator-free word in front of `c + t` becomes the first piece. */
  lemma {:induction false} SplitOnPrefix(w: string, t: string, c: char)
    requires c !in w
    ensures SplitOn(w + ([c] + t), c) == [w] + SplitOn(t, c)
  {
    if w == [] {
      assert w + ([c] + t) == [c] + t;
      assert ([c] + t)[1..] == t;
    } else {
      SplitOnPrefix(w[1..], t, c);
      assert (w + ([c] + t))[1..] == w[1..] + ([c] + t);
      assert [w[0]] + w[1..] == w;
    }
  }

  /** Drops the empty strings at the end of a split result, as String.split(regex) does. */
  function DropTrailingEmpty(parts: seq<string>): (r: seq<string>)
    ensures |r| <= |parts| && r == parts[..|r|]
    ensures r == [] || r[|r| - 1] != []
    ensures forall i :: |r| <= i < |parts| ==> parts[i] == []
  {
    if parts == [] then []
    else if parts[|parts| - 1] == [] then DropTrailingEmpty(parts[..|parts| - 1])
    else parts
  }

  /**
   * String.split(regex) for a regex that matches exactly the one character `c`:
   * a string without `c` is returned whole (even when empty); otherwise the pieces
   * are returned with the trailing empty ones removed.
   */
  function JavaSplit(s: string, c: char): (r: seq<string>)
    ensures forall i :: 0 <= i < |r| ==> c !in r[i]
    ensures c !in s ==> r == [s]
    ensures c in s ==> r == DropTrailingEmpty(SplitOn(s, c))
  {
    if c !in s then [s] else DropTrailingEmpty(SplitOn(s, c))
  }

  /** Java's split gives back separator-free pieces joined with the separator when the last piece is not empty. */
  lemma JavaSplitJoin(parts: seq<string>, c: char)
    requires |parts| >= 1 && parts[|parts| - 1] != []
    requires forall i :: 0 <= i < |parts| ==> c !in parts[i]
    ensures JavaSplit(Join(parts, c), c) == parts
  {
    SplitOnJoin(parts, c);
    if c !in Join(parts, c) {
      SplitOnNoSeparator(Join(parts, c), c);
    }
  }

  // ---------------------------------------------------------------------------
  // Replacing a one-character target

  /** String.replace(target, replacement) for a one-character target. */
  function ReplaceChar(s: string, c: char, rep: string): (r: string)
    ensures c !in rep ==> c !in r
    ensures forall d :: d != c && d !in rep ==> (d in r <==> d in s)
  {
    if s == [] then []
    else (if s[0] == c then rep else [s[0]]) + ReplaceChar(s[1..], c, rep)
  }

  /** Replacing in a concatenation replaces in each part. */
  lemma {:induction false} ReplaceCharAppend(a: string, b: string, c: char, rep: string)
    ensures ReplaceChar(a + b, c, rep) == ReplaceChar(a, c, rep) + ReplaceChar(b, c, rep)
  {
    if a == [] {
      assert a + b == b;
    } else {
      assert (a + b)[1..] == a[1..] + b;
      ReplaceCharAppend(a[1..], b, c, rep);
    }
  }

  /** Replacing a character that does not occur changes nothing. */
  lemma {:induction false} ReplaceCharAbsent(s: string, c: char, rep: string)
    requires c !in s
    ensures ReplaceChar(s, c, rep) == s
  {
    if s != [] {
      ReplaceCharAbsent(s[1..], c, rep);
    }
  }

  // ---------------------------------------------------------------------------
  // Integers

  const IntMin: int := -0x8000_0000
  const IntMax: int := 0x7fff_ffff

  predicate IsDigit(c: char) {
    '0' <= c <= '9'
  }

  predicate IsDigits(s: string) {
    |s| > 0 && forall i :: 0 <= i < |s| ==> IsDigit(s[i])
  }

  function DigitValue(c: char): nat
    requires IsDigit(c)
  {
    c as int - '0' as int
  }

  /** The value of a decimal digit string, most significant digit first. */
  function DigitsValue(s: string): nat
    requires forall i :: 0 <= i < |s| ==> IsDigit(s[i])
  {
    if s == [] then 0 else DigitsValue(s[..|s| - 1]) * 10 + DigitValue(s[|s| - 1])
  }

  /** The text Integer.parseInt accepts: one or more digits, optionally after one `+` or `-`. */
  predicate IsNumeral(s: string) {
    IsDigits(s) || (s != [] && (s[0] == '+' || s[0] == '-') && IsDigits(s[1..]))
  }

  /** The value a numeral denotes: its digits, negated after a `-`. */
  function NumeralValue(s: string): int
    requires IsNumeral(s)
  {
    if IsDigits(s) then DigitsValue(s)
    else if s[0] == '-' then -(DigitsValue(s[1..]) as int)
    else DigitsValue(s[1..])
  }

  /**
   * Integer.parseInt(s): an optional sign, then one or more ASCII digits, and a
   * value in the 32-bit range; anything else raises NumberFormatException (None).
   */
  function ParseInt(s: string): (r: Option<int>)
    ensures r.Some? <==> IsNumeral(s) && IntMin <= NumeralValue(s) <= IntMax
    ensures r.Some? ==> r.value == NumeralValue(s)
  {
    if s != [] && (s[0] == '-' || s[0] == '+') then
      if IsDigits(s[1..]) then
        var v: int := if s[0] == '-' then -(DigitsValue(s[1..]) as int) else DigitsValue(s[1..]);
        if IntMin <= v <= IntMax then Some(v) else None
      else None
    else if IsDigits(s) && DigitsValue(s) <= IntMax then Some(DigitsValue(s))
    else None
  }

  /** A leading `+`, leading zeros and a negative zero are all accepted. */
  lemma ParseIntExamples()
    ensures ParseInt("+5") == Some(5)
    ensures ParseInt("007") == Some(7)
    ensures ParseInt("-0") == Some(0)
    ensures ParseInt("") == None && ParseInt("-") == None && ParseInt("+-1") == None && ParseInt("1 ") == None
  {
    assert "007"[..2] == "00" && "00"[..1] == "0";
    assert "+5"[1..] == "5";
    assert "-0"[1..] == "0";
    assert "+-1"[1..] == "-1";
    assert !IsDigit("1 "[1]);
  }

  function DigitChar(d: nat): (c: char)
    requires d < 10
    ensures IsDigit(c) && DigitValue(c) == d
  {
    ['0', '1', '2', '3', '4', '5', '6', '7', '8', '9'][d]
  }

  /** Integer.toString for a non-negative value. */
  function NatToString(n: nat): (r: string)
    ensures IsDigits(r)
    ensures DigitsValue(r) == n
  {
    if n < 10 then [DigitChar(n)]
    else
      var p := NatToString(n / 10);
      var r := p + [DigitChar(n % 10)];
      assert r[..|r| - 1] == p;
      r
  }

  /** Integer.toString / StringBuilder.append(int). */
  function IntToString(i: int): (r: string)
    ensures r != []
    ensures i >= 0 ==> IsDigits(r)
    ensures i < 0 ==> r[0] == '-' && IsDigits(r[1..])
  {
    if i >= 0 then NatToString(i) else "-" + NatToString(-i)
  }

  /** Integer.parseInt undoes Integer.toString on the whole 32-bit range. */
  lemma ParseIntToString(i: int)
    requires IntMin <= i <= IntMax
    ensures ParseInt(IntToString(i)) == Some(i)
  {
    if i < 0 {
      var r := IntToString(i);
      assert r[1..] == NatToString(-i);
    }
  }

  // ---------------------------------------------------------------------------
  // Upper-casing

  function UpperChar(c: char): char {
    if 'a' <= c <= 'z' then (c as int - 32) as char else c
  }

  /** String.toUpperCase(Locale.ROOT), for ASCII letters. */
  function ToUpperAscii(s: string): (r: string)
    ensures |r| == |s|
    ensures forall i :: 0 <= i < |s| ==> r[i] == UpperChar(s[i])
  {
    if s == [] then [] else [UpperChar(s[0])] + ToUpperAscii(s[1..])
  }
}
