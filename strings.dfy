/** Text as the store and the templates see it: SQLite's ordering of TEXT
    values, decimal digits, number rendering and line joining. */
module Strings {

  import opened Wrappers

  // ---------------------------------------------------------------------
  // Ordering of TEXT values
  // ---------------------------------------------------------------------

  /** SQLite's BINARY collation: compare character by character (UTF-8 byte
      order is code-point order), a proper prefix sorting first. */
  predicate Less(a: string, b: string)
    decreases |a|
  {
    if |a| == 0 then |b| > 0
    else if |b| == 0 then false
    else a[0] < b[0] || (a[0] == b[0] && Less(a[1..], b[1..]))
  }

  predicate LessEq(a: string, b: string)
  {
    a == b || Less(a, b)
  }

  /** BINARY order is decided at the first position where the texts
      differ, and a proper prefix sorts first. */
  lemma {:induction false} LessIsFirstDifference(a: string, b: string)
    ensures Less(a, b) <==>
      exists i :: 0 <= i <= |a| && i < |b| && a[..i] == b[..i] && (i == |a| || a[i] < b[i])
    decreases |a|
  {
    if |a| == 0 {
      if |b| > 0 {
        assert a[..0] == b[..0];
      }
    } else if |b| > 0 {
      var a', b' := a[1..], b[1..];
      LessIsFirstDifference(a', b');
      if Less(a, b) {
        if a[0] < b[0] {
          assert a[..0] == b[..0];
        } else {
          var j :| 0 <= j <= |a'| && j < |b'| && a'[..j] == b'[..j] && (j == |a'| || a'[j] < b'[j]);
          assert a[..j + 1] == [a[0]] + a'[..j];
          assert b[..j + 1] == [b[0]] + b'[..j];
        }
      } else {
        forall i | 0 <= i <= |a| && i < |b| && a[..i] == b[..i]
          ensures !(i == |a| || a[i] < b[i])
        {
          if i > 0 {
            assert a[0] == a[..i][0] == b[..i][0] == b[0];
            assert a'[..i - 1] == a[..i][1..] == b[..i][1..] == b'[..i - 1];
          }
        }
      }
    }
  }

  lemma {:induction false} LessIrreflexive(a: string)
    ensures !Less(a, a)
  {
    if |a| > 0 {
      LessIrreflexive(a[1..]);
    }
  }

  lemma {:induction false} LessTransitive(a: string, b: string, c: string)
    requires Less(a, b) && Less(b, c)
    ensures Less(a, c)
  {
    if |a| > 0 && |b| > 0 && |c| > 0 && a[0] == b[0] && b[0] == c[0] {
      LessTransitive(a[1..], b[1..], c[1..]);
    }
  }

  lemma {:induction false} LessTotal(a: string, b: string)
    ensures a == b || Less(a, b) || Less(b, a)
  {
    if |a| > 0 && |b| > 0 && a[0] == b[0] {
      LessTotal(a[1..], b[1..]);
      if a[1..] == b[1..] {
        assert a == [a[0]] + a[1..];
        assert b == [b[0]] + b[1..];
      }
    }
  }

  lemma LessEqTransitive(a: string, b: string, c: string)
    requires LessEq(a, b) && LessEq(b, c)
    ensures LessEq(a, c)
  {
    if a != b && b != c {
      LessTransitive(a, b, c);
    }
  }

  /** The empty string sorts before every other string, and nothing sorts
      before it. */
  lemma EmptyIsLeast(s: string)
    ensures LessEq("", s)
    ensures LessEq(s, "") <==> s == ""
  {
  }

  /** Comparing two concatenations whose first parts have equal length
      compares the first parts, and the second parts only on a tie. */
  lemma {:induction false} LessConcat(a1: string, a2: string, b1: string, b2: string)
    requires |a1| == |b1|
    ensures Less(a1 + a2, b1 + b2) <==> Less(a1, b1) || (a1 == b1 && Less(a2, b2))
  {
    if |a1| == 0 {
      assert a1 + a2 == a2;
      assert b1 + b2 == b2;
    } else {
      assert (a1 + a2)[1..] == a1[1..] + a2;
      assert (b1 + b2)[1..] == b1[1..] + b2;
      LessConcat(a1[1..], a2, b1[1..], b2);
      assert a1 == [a1[0]] + a1[1..];
      assert b1 == [b1[0]] + b1[1..];
    }
  }

  /** SQLite's NOCASE collation folds the 26 upper-case ASCII letters to
      lower case before comparing; every other character is left alone. */
  function LowerAscii(c: char): char
  {
    if 'A' <= c <= 'Z' then (c as int + 32) as char else c
  }

  function FoldCase(s: string): (r: string)
    ensures |r| == |s|
    ensures forall i :: 0 <= i < |r| ==> !('A' <= r[i] <= 'Z')
    ensures forall i :: 0 <= i < |s| && !('A' <= s[i] <= 'Z') ==> r[i] == s[i]
    ensures forall i :: 0 <= i < |s| && 'A' <= s[i] <= 'Z' ==> r[i] as int == s[i] as int + 32
  {
    seq(|s|, i requires 0 <= i < |s| => LowerAscii(s[i]))
  }

  // ---------------------------------------------------------------------
  // Decimal digits
  // ---------------------------------------------------------------------

  predicate IsDigit(c: char)
  {
    '0' <= c <= '9'
  }

  predicate AllDigits(s: string)
  {
    forall i :: 0 <= i < |s| ==> IsDigit(s[i])
  }

  function DigitValue(c: char): nat
    requires IsDigit(c)
  {
    c as int - '0' as int
  }

  function Digit(d: nat): (c: char)
    requires d < 10
    ensures IsDigit(c) && DigitValue(c) == d
  {
    ('0' as int + d) as char
  }

  /** The number a string of decimal digits denotes (leading zeros allowed). */
  function DigitsValue(s: string): nat
    requires AllDigits(s)
  {
    if |s| == 0 then 0 else 10 * DigitsValue(s[..|s| - 1]) + DigitValue(s[|s| - 1])
  }

  function Pow10(k: nat): nat
  {
    if k == 0 then 1 else 10 * Pow10(k - 1)
  }

  /** For digit strings of one width, text order is numeric order. */
  lemma {:induction false} DigitsOrder(a: string, b: string)
    requires AllDigits(a) && AllDigits(b) && |a| == |b|
    ensures Less(a, b) <==> DigitsValue(a) < DigitsValue(b)
    decreases |a|
  {
    if |a| > 0 {
      var n := |a| - 1;
      var a', b' := a[..n], b[..n];
      assert a == a' + [a[n]];
      assert b == b' + [b[n]];
      LessConcat(a', [a[n]], b', [b[n]]);
      DigitsOrder(a', b');
      DigitsOrder(b', a');
      LessTotal(a', b');
    }
  }

  /** `n` written with exactly `width` digits, zero-padded on the left. */
  function Pad(n: nat, width: nat): (s: string)
    ensures |s| == width && AllDigits(s)
  {
    if width == 0 then "" else Pad(n / 10, width - 1) + [Digit(n % 10)]
  }

  lemma {:induction false} PadValue(n: nat, width: nat)
    requires n < Pow10(width)
    ensures DigitsValue(Pad(n, width)) == n
  {
    if width > 0 {
      var s := Pad(n, width);
      assert s[..width - 1] == Pad(n / 10, width - 1);
      PadValue(n / 10, width - 1);
    }
  }

  lemma {:induction false} ValuePad(s: string)
    requires AllDigits(s)
    ensures Pad(DigitsValue(s), |s|) == s
  {
    if |s| > 0 {
      var p := s[..|s| - 1];
      var v := DigitsValue(s);
      ValuePad(p);
      assert v / 10 == DigitsValue(p) && v % 10 == DigitValue(s[|s| - 1]);
      assert s == p + [s[|s| - 1]];
    }
  }

  // ---------------------------------------------------------------------
  // Numbers as text
  // ---------------------------------------------------------------------

  /** The shortest decimal rendering of `n`. */
  function NatToString(n: nat): (s: string)
    ensures |s| > 0 && AllDigits(s) && DigitsValue(s) == n
    ensures s[0] == '0' ==> n == 0
  {
    if n < 10 then [Digit(n)]
    else
      var p := NatToString(n / 10);
      var s := p + [Digit(n % 10)];
      assert s[..|s| - 1] == p;
      s
  }

  /** How a JavaScript template literal renders an integral number. */
  function IntToString(n: int): string
  {
    if n < 0 then "-" + NatToString(-n) else NatToString(n)
  }

  /** An optional sign followed by at least one decimal digit. */
  function ParseInt(s: string): (r: Option<int>)
    ensures r.Some? ==> |s| > 0
  {
    if |s| > 0 && (s[0] == '-' || s[0] == '+') then
      var body := s[1..];
      if |body| > 0 && AllDigits(body) then
        Some(if s[0] == '-' then -(DigitsValue(body) as int) else DigitsValue(body))
      else None
    else if |s| > 0 && AllDigits(s) then Some(DigitsValue(s))
    else None
  }

  lemma ParseIntToString(n: int)
    ensures ParseInt(IntToString(n)) == Some(n)
  {
    if n < 0 {
      assert IntToString(n)[1..] == NatToString(-n);
    }
  }

  // ---------------------------------------------------------------------
  // Lines
  // ---------------------------------------------------------------------

  /** `lines.join(sep)`. */
  function Join(lines: seq<string>, sep: char): string
  {
    if |lines| == 0 then ""
    else if |lines| == 1 then lines[0]
    else lines[0] + [sep] + Join(lines[1..], sep)
  }

  function IndexOf(s: string, c: char): (i: nat)
    requires c in s
    ensures i < |s| && s[i] == c && c !in s[..i]
  {
    if s[0] == c then 0
    else
      var j := IndexOf(s[1..], c);
      assert s[..j + 1] == [s[0]] + s[1..][..j];
      j + 1
  }

  /** `s.split(sep)`: the pieces between separators, one more than there
      are separators. */
  function Split(s: string, sep: char): (r: seq<string>)
    ensures |r| > 0
    decreases |s|
  {
    if sep !in s then [s]
    else
      var i := IndexOf(s, sep);
      [s[..i]] + Split(s[i + 1..], sep)
  }

  /** Splitting a join gives the lines back when no line holds the
      separator. */
  lemma {:induction false} SplitJoin(lines: seq<string>, sep: char)
    requires |lines| > 0
    requires forall k :: 0 <= k < |lines| ==> sep !in lines[k]
    ensures Split(Join(lines, sep), sep) == lines
  {
    if |lines| > 1 {
      var head, rest := lines[0], Join(lines[1..], sep);
      var s := head + [sep] + rest;
      assert s[|head|] == sep;
      var i := IndexOf(s, sep);
      assert i == |head|;
      assert s[..i] == head;
      assert s[i + 1..] == rest;
      SplitJoin(lines[1..], sep);
      assert lines == [lines[0]] + lines[1..];
    }
  }

  /** A line break inside one line makes the split see an extra line. */
  lemma SplitSeesInnerBreak(line: string, sep: char)
    requires sep in line
    ensures |Split(Join([line], sep), sep)| > 1
  {
    var i := IndexOf(line, sep);
    assert |Split(line[i + 1..], sep)| > 0;
  }
}
