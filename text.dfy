/**
 * The few Python string operations the evaluation code relies on: str.strip(),
 * str.split(sep) with a one-character separator, and int(text).
 */
module Text {
  import opened Outcomes

  /**
   * The characters Python's str.isspace() accepts, hence the ones str.strip()
   * removes: no digit, sign, colon or comma is among them.
   */
  predicate IsSpace(c: char): (r: bool)
    ensures r ==> !IsDigit(c) && c != '-' && c != '+' && c != ':' && c != ','
    ensures c == ' ' || c == '\t' || c == '\n' || c == '\r' ==> r
  {
    var n := c as int;
    n == 0x20 || 0x09 <= n <= 0x0D || 0x1C <= n <= 0x1F || n == 0x85 || n == 0xA0
    || n == 0x1680 || 0x2000 <= n <= 0x200A || n == 0x2028 || n == 0x2029
    || n == 0x202F || n == 0x205F || n == 0x3000
  }

  /** Drops leading whitespace: the result is a suffix of `s` and everything dropped is whitespace. */
  function TrimLeft(s: string): (r: string)
    ensures |r| <= |s| && r == s[|s| - |r|..]
    ensures forall i :: 0 <= i < |s| - |r| ==> IsSpace(s[i])
    ensures r == [] || !IsSpace(r[0])
  {
    if s != [] && IsSpace(s[0]) then TrimLeft(s[1..]) else s
  }

  /** Drops trailing whitespace: the result is a prefix of `s` and everything dropped is whitespace. */
  function TrimRight(s: string): (r: string)
    ensures |r| <= |s| && r == s[..|r|]
    ensures forall i :: |r| <= i < |s| ==> IsSpace(s[i])
    ensures r == [] || !IsSpace(r[|r| - 1])
  {
    if s != [] && IsSpace(s[|s| - 1]) then TrimRight(s[..|s| - 1]) else s
  }

  /**
   * str.strip() with no argument: no longer than `s`, neither starting nor
   * ending with whitespace, and empty when `s` is all whitespace.
   */
  function Strip(s: string): (r: string)
    ensures |r| <= |s|
    ensures r == [] || (!IsSpace(r[0]) && !IsSpace(r[|r| - 1]))
    ensures (forall i :: 0 <= i < |s| ==> IsSpace(s[i])) ==> r == []
  {
    var t := TrimLeft(s);
    assert t != [] ==> t[0] == s[|s| - |t|];
    TrimRight(t)
  }

  /** Leading whitespace before text that does not start with whitespace is dropped, and nothing else. */
  lemma {:induction false} TrimLeftSpaces(ws: string, t: string)
    requires forall i :: 0 <= i < |ws| ==> IsSpace(ws[i])
    requires t == [] || !IsSpace(t[0])
    ensures TrimLeft(ws + t) == t
  {
    if ws != [] {
      assert (ws + t)[0] == ws[0];
      assert (ws + t)[1..] == ws[1..] + t;
      TrimLeftSpaces(ws[1..], t);
    } else {
      assert ws + t == t;
    }
  }

  /** Trailing whitespace after text that does not end with whitespace is dropped, and nothing else. */
  lemma {:induction false} TrimRightSpaces(t: string, ws: string)
    requires forall i :: 0 <= i < |ws| ==> IsSpace(ws[i])
    requires t == [] || !IsSpace(t[|t| - 1])
    ensures TrimRight(t + ws) == t
  {
    if ws != [] {
      var n := |ws| - 1;
      assert (t + ws)[|t + ws| - 1] == ws[n];
      assert (t + ws)[..|t + ws| - 1] == t + ws[..n];
      TrimRightSpaces(t, ws[..n]);
    } else {
      assert t + ws == t;
    }
  }

  /** strip() removes exactly the whitespace around text that neither starts nor ends with whitespace. */
  lemma StripSurrounding(ws1: string, core: string, ws2: string)
    requires forall i :: 0 <= i < |ws1| ==> IsSpace(ws1[i])
    requires forall i :: 0 <= i < |ws2| ==> IsSpace(ws2[i])
    requires core == [] || (!IsSpace(core[0]) && !IsSpace(core[|core| - 1]))
    ensures Strip(ws1 + core + ws2) == core
  {
    if core == [] {
      assert ws1 + core + ws2 == ws1 + ws2;
      assert forall i :: 0 <= i < |ws1 + ws2| ==> IsSpace((ws1 + ws2)[i]);
      TrimLeftSpaces(ws1 + ws2, []);
      assert ws1 + ws2 + [] == ws1 + ws2;
    } else {
      assert ws1 + core + ws2 == ws1 + (core + ws2);
      assert (core + ws2)[0] == core[0];
      TrimLeftSpaces(ws1, core + ws2);
      TrimRightSpaces(core, ws2);
    }
  }

  /** Text that neither starts nor ends with whitespace is left alone by Strip. */
  lemma StripUnchanged(s: string)
    requires s == [] || (!IsSpace(s[0]) && !IsSpace(s[|s| - 1]))
    ensures Strip(s) == s
  {
  }

  function Occurrences(s: string, c: char): nat {
    if s == [] then 0 else (if s[0] == c then 1 else 0) + Occurrences(s[1..], c)
  }

  /**
   * str.split(sep) for a one-character separator: one more piece than there
   * are separators, and no piece holds the separator ("" gives [""]).
   */
  function Split(s: string, sep: char): (r: seq<string>)
    ensures |r| == Occurrences(s, sep) + 1
    ensures forall i :: 0 <= i < |r| ==> sep !in r[i]
  {
    if s == [] then [[]]
    else
      var rest := Split(s[1..], sep);
      if s[0] == sep then [[]] + rest else [[s[0]] + rest[0]] + rest[1..]
  }

  /** sep.join(parts), the inverse of Split. */
  function Join(parts: seq<string>, sep: char): string
    requires |parts| > 0
  {
    if |parts| == 1 then parts[0] else parts[0] + [sep] + Join(parts[1..], sep)
  }

  /** Joining the pieces of a split gives back the text. */
  lemma {:induction false} JoinSplit(s: string, sep: char)
    ensures Join(Split(s, sep), sep) == s
  {
    if s != [] {
      var rest := Split(s[1..], sep);
      JoinSplit(s[1..], sep);
      if s[0] == sep {
        assert ([[]] + rest)[1..] == rest;
      } else if |rest| > 1 {
        assert ([[s[0]] + rest[0]] + rest[1..])[1..] == rest[1..];
        assert s == [s[0]] + s[1..];
      }
    }
  }

  /** Splitting `a + t`, where `a` holds no separator, glues `a` onto the first piece of `t`. */
  lemma {:induction false} SplitPrefix(a: string, t: string, sep: char)
    requires sep !in a
    ensures Split(a + t, sep) == [a + Split(t, sep)[0]] + Split(t, sep)[1..]
  {
    if a == [] {
      assert a + t == t;
      assert a + Split(t, sep)[0] == Split(t, sep)[0];
      assert Split(t, sep) == [Split(t, sep)[0]] + Split(t, sep)[1..];
    } else {
      assert (a + t)[1..] == a[1..] + t;
      SplitPrefix(a[1..], t, sep);
      assert [a[0]] + (a[1..] + Split(t, sep)[0]) == a + Split(t, sep)[0];
    }
  }

  /** Splitting a join of separator-free pieces gives back the pieces. */
  lemma {:induction false} SplitJoin(parts: seq<string>, sep: char)
    requires |parts| > 0
    requires forall i :: 0 <= i < |parts| ==> sep !in parts[i]
    ensures Split(Join(parts, sep), sep) == parts
  {
    if |parts| == 1 {
      SplitPrefix(parts[0], [], sep);
      assert parts[0] + [] == parts[0];
    } else {
      var tail := Join(parts[1..], sep);
      SplitJoin(parts[1..], sep);
      assert parts[0] + [sep] + tail == parts[0] + ([sep] + tail);
      SplitPrefix(parts[0], [sep] + tail, sep);
      assert ([sep] + tail)[0] == sep && ([sep] + tail)[1..] == tail;
      assert Split([sep] + tail, sep) == [[]] + parts[1..];
      assert parts[0] + [] == parts[0];
      assert parts == [parts[0]] + parts[1..];
    }
  }

  predicate IsDigit(c: char) {
    '0' <= c <= '9'
  }

  /** A non-empty run of decimal digits. */
  predicate AllDigits(s: string) {
    |s| > 0 && forall i :: 0 <= i < |s| ==> IsDigit(s[i])
  }

  function DigitsValue(s: string): nat
    requires forall i :: 0 <= i < |s| ==> IsDigit(s[i])
  {
    if s == [] then 0
    else
      assert IsDigit(s[|s| - 1]);
      10 * DigitsValue(s[..|s| - 1]) + ((s[|s| - 1] as int) - ('0' as int))
  }

  /** The base-10 integer literals int() accepts once whitespace is stripped: an optional sign, then digits. */
  predicate IsIntLiteral(t: string) {
    AllDigits(t) || (|t| > 0 && (t[0] == '+' || t[0] == '-') && AllDigits(t[1..]))
  }

  /**
   * int() on text without surrounding whitespace: it succeeds exactly on an
   * integer literal; digits read as their decimal value, with or without a
   * leading '+', and only a leading '-' gives a negative number.
   */
  function ReadSigned(t: string): (r: Option<int>)
    ensures r.Some? <==> IsIntLiteral(t)
    ensures r.Some? ==> t != []
    ensures AllDigits(t) ==> r == Some(DigitsValue(t))
    ensures |t| > 0 && t[0] == '+' && AllDigits(t[1..]) ==> r == Some(DigitsValue(t[1..]))
    ensures r.Some? && r.value < 0 ==> t[0] == '-'
  {
    if |t| > 0 && (t[0] == '+' || t[0] == '-') then
      if AllDigits(t[1..]) then
        var v: int := DigitsValue(t[1..]);
        Some(if t[0] == '-' then -v else v)
      else None
    else if AllDigits(t) then Some(DigitsValue(t))
    else None
  }

  /**
   * int(text): surrounding whitespace is stripped, then the sign and digits
   * are read; any other text is rejected.
   */
  function ParseInt(text: string): (r: Option<int>)
    ensures r.Some? <==> IsIntLiteral(Strip(text))
    ensures r.Some? ==> Strip(text) != []
    ensures AllDigits(Strip(text)) ==> r == Some(DigitsValue(Strip(text)))
    ensures r.Some? && r.value < 0 ==> Strip(text)[0] == '-'
  {
    ReadSigned(Strip(text))
  }

  /** The decimal digits of `n`, read back by DigitsValue. */
  function NatToString(n: nat): (r: string)
    ensures AllDigits(r) && DigitsValue(r) == n
  {
    var d := ((n % 10) + ('0' as int)) as char;
    if n < 10 then
      assert [d][..0] == [];
      [d]
    else
      var front := NatToString(n / 10);
      assert (front + [d])[..|front|] == front;
      front + [d]
  }

  /** str(n) for an integer. */
  function IntToString(n: int): (r: string)
    ensures ',' !in r && ':' !in r
  {
    if n < 0 then "-" + NatToString(-n) else NatToString(n)
  }

  /** A '-' followed by decimal digits reads as the negated digits' value. */
  lemma ReadSignedNegative(digits: string)
    requires AllDigits(digits)
    ensures ReadSigned(['-'] + digits) == Some(-(DigitsValue(digits) as int))
  {
    assert (['-'] + digits)[1..] == digits;
  }

  /** The same with surrounding whitespace allowed, as int() reads it. */
  lemma ParseIntNegative(digits: string)
    requires AllDigits(digits)
    ensures ParseInt(['-'] + digits) == Some(-(DigitsValue(digits) as int))
  {
    var s := ['-'] + digits;
    assert s[0] == '-' && s[|s| - 1] == digits[|digits| - 1];
    StripUnchanged(s);
    ReadSignedNegative(digits);
  }

  /** int(str(n)) == n. */
  lemma ParseIntToString(n: int)
    ensures ParseInt(IntToString(n)) == Some(n)
  {
    if n < 0 {
      ParseIntNegative(NatToString(-n));
    } else {
      var s := NatToString(n);
      assert !IsSpace(s[0]) && !IsSpace(s[|s| - 1]);
      StripUnchanged(s);
    }
  }

  /** A text without a digit sequence is rejected by int(). */
  lemma ParseIntRejectsEmpty(text: string)
    requires forall i :: 0 <= i < |text| ==> IsSpace(text[i])
    ensures ParseInt(text) == None
  {
    assert TrimLeft(text) == [];
  }
}
