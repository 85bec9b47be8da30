/** Character-level helpers shared by the formatting and signing code. */
module Text {

  /** An 8-bit byte. */
  newtype byte = x: int | 0 <= x < 256

  /** Number of occurrences of `c` in `s`. */
  function CountChar(s: string, c: char): nat
  {
    if |s| == 0 then 0
    else (if s[0] == c then 1 else 0) + CountChar(s[1..], c)
  }

  lemma {:induction false} CountCharAppend(a: string, b: string, c: char)
    ensures CountChar(a + b, c) == CountChar(a, c) + CountChar(b, c)
  {
    if |a| == 0 {
      assert a + b == b;
    } else {
      assert (a + b)[1..] == a[1..] + b;
      CountCharAppend(a[1..], b, c);
    }
  }

  lemma {:induction false} CountCharAbsent(s: string, c: char)
    requires c !in s
    ensures CountChar(s, c) == 0
  {
    if |s| > 0 {
      assert s[0] != c;
      CountCharAbsent(s[1..], c);
    }
  }

  /** `s` split at every occurrence of `sep`; like .NET's `String.Split(char)`, never empty. */
  function Split(s: string, sep: char): (parts: seq<string>)
    ensures |parts| == CountChar(s, sep) + 1
    ensures forall i :: 0 <= i < |parts| ==> sep !in parts[i]
  {
    if |s| == 0 then [""]
    else
      var rest := Split(s[1..], sep);
      if s[0] == sep then [""] + rest
      else [[s[0]] + rest[0]] + rest[1..]
  }

  /** The text before the first `sep`, or all of `s` when there is none (`Split(sep).First()`). */
  function FirstToken(s: string, sep: char): (t: string)
    ensures sep !in t
    ensures t <= s
    ensures sep !in s ==> t == s
    ensures |t| < |s| ==> s[|t|] == sep
  {
    if |s| == 0 then ""
    else if s[0] == sep then ""
    else [s[0]] + FirstToken(s[1..], sep)
  }

  lemma {:induction false} FirstTokenIsFirstPart(s: string, sep: char)
    ensures FirstToken(s, sep) == Split(s, sep)[0]
  {
    if |s| > 0 && s[0] != sep {
      FirstTokenIsFirstPart(s[1..], sep);
    }
  }

  lemma {:induction false} SplitJoin(a: string, sep: char, b: string)
    requires sep !in a
    ensures Split(a + [sep] + b, sep) == [a] + Split(b, sep)
  {
    if |a| == 0 {
      assert a + [sep] + b == [sep] + b;
      assert ([sep] + b)[1..] == b;
    } else {
      assert (a + [sep] + b)[1..] == a[1..] + [sep] + b;
      SplitJoin(a[1..], sep, b);
      assert [a[0]] + a[1..] == a;
    }
  }

  lemma SplitCons(head: string, sep: char, tail: string, parts: seq<string>)
    requires sep !in head && Split(tail, sep) == parts
    ensures Split(head + [sep] + tail, sep) == [head] + parts
  {
    SplitJoin(head, sep, tail);
  }

  lemma {:induction false} SplitNoSep(s: string, sep: char)
    requires sep !in s
    ensures Split(s, sep) == [s]
  {
    if |s| > 0 {
      SplitNoSep(s[1..], sep);
      assert [s[0]] + s[1..] == s;
    }
  }

  /** No string of `lines` contains `c`. */
  predicate AllAvoid(lines: seq<string>, c: char)
  {
    forall i :: 0 <= i < |lines| ==> c !in lines[i]
  }

  /** The cells joined with `sep` between every two of them. */
  function JoinCells(cells: seq<string>, sep: char): string
    requires |cells| > 0
  {
    if |cells| == 1 then cells[0] else cells[0] + [sep] + JoinCells(cells[1..], sep)
  }

  /** Splitting a join of separator-free cells gives the cells back. */
  lemma {:induction false} SplitJoinCells(cells: seq<string>, sep: char)
    requires |cells| > 0 && AllAvoid(cells, sep)
    ensures Split(JoinCells(cells, sep), sep) == cells
  {
    if |cells| == 1 {
      SplitNoSep(cells[0], sep);
    } else {
      SplitJoinCells(cells[1..], sep);
      SplitJoin(cells[0], sep, JoinCells(cells[1..], sep));
    }
  }

  /** Joining one more cell appends a separator and that cell. */
  lemma {:induction false} JoinCellsSnoc(cells: seq<string>, x: string, sep: char)
    requires |cells| > 0
    ensures JoinCells(cells + [x], sep) == JoinCells(cells, sep) + [sep] + x
  {
    if |cells| > 1 {
      assert (cells + [x])[1..] == cells[1..] + [x];
      JoinCellsSnoc(cells[1..], x, sep);
    }
  }

  /** UTF-16 code units a .NET string spends on one Unicode scalar value: two for a surrogate pair. */
  function Utf16Width(c: char): nat
  {
    if c as int < 0x10000 then 1 else 2
  }

  /** `string.Length`: the number of UTF-16 code units. */
  function Utf16Length(s: string): nat
  {
    if |s| == 0 then 0 else Utf16Width(s[0]) + Utf16Length(s[1..])
  }

  lemma {:induction false} Utf16LengthAppend(a: string, b: string)
    ensures Utf16Length(a + b) == Utf16Length(a) + Utf16Length(b)
  {
    if |a| == 0 {
      assert a + b == b;
    } else {
      assert (a + b)[1..] == a[1..] + b;
      Utf16LengthAppend(a[1..], b);
    }
  }

  /** Between one and two code units per scalar; exactly one each when no scalar lies outside the Basic Multilingual Plane. */
  lemma {:induction false} Utf16LengthBounds(s: string)
    ensures |s| <= Utf16Length(s) <= 2 * |s|
    ensures Utf16Length(s) == 0 <==> |s| == 0
  {
    if |s| > 0 {
      Utf16LengthBounds(s[1..]);
    }
  }

  /**
   * Stands for the unpaired high surrogate that `Substring` leaves when it
   * cuts a surrogate pair in half. A scalar value cannot hold a surrogate;
   * `Encoding.UTF8` writes an unpaired one as U+FFFD, which takes its place.
   */
  const LoneSurrogate := '\U{FFFD}'

  /**
   * `s.Substring(0, n)`: the first `n` code units. Whole scalars are kept; a
   * surrogate pair straddling the cut leaves its high half.
   */
  function Utf16Prefix(s: string, n: nat): (p: string)
    requires n <= Utf16Length(s)
    ensures Utf16Length(p) == n
    ensures p <= s || (0 < |p| <= |s| && p[..|p| - 1] <= s && p[|p| - 1] == LoneSurrogate
                       && Utf16Width(s[|p| - 1]) == 2)
    ensures forall c :: c in p ==> c in s || c == LoneSurrogate
    decreases n
  {
    if n == 0 then ""
    else if Utf16Width(s[0]) <= n then
      var rest := Utf16Prefix(s[1..], n - Utf16Width(s[0]));
      assert [s[0]] + rest == s[..1] + rest;
      assert forall c :: c in [s[0]] + rest ==> c == s[0] || c in rest;
      [s[0]] + rest
    else
      [LoneSurrogate]
  }

  /** The first `Utf16Length(p)` code units of `p + t` are `p`. */
  lemma {:induction false} Utf16PrefixOfJoin(p: string, t: string)
    ensures Utf16Length(p) <= Utf16Length(p + t)
    ensures Utf16Prefix(p + t, Utf16Length(p)) == p
  {
    Utf16LengthAppend(p, t);
    if |p| > 0 {
      assert (p + t)[0] == p[0];
      assert (p + t)[1..] == p[1..] + t;
      Utf16PrefixOfJoin(p[1..], t);
      assert [p[0]] + p[1..] == p;
    }
  }

  predicate IsDigit(c: char)
  {
    '0' <= c <= '9'
  }

  /** The decimal rendering of a non-negative .NET integer (`Int32.ToString()`). */
  function NatToDecimal(n: nat): (s: string)
    ensures |s| > 0
    ensures forall i :: 0 <= i < |s| ==> IsDigit(s[i])
    ensures |s| > 1 ==> s[0] != '0'
  {
    if n < 10 then [DigitChar(n)]
    else NatToDecimal(n / 10) + [DigitChar(n % 10)]
  }

  function DigitChar(d: nat): (c: char)
    requires d < 10
    ensures IsDigit(c)
  {
    ('0' as int + d) as char
  }

  function DigitValue(c: char): nat
    requires IsDigit(c)
  {
    (c as int - '0' as int) as nat
  }

  /** The value of a string of decimal digits. */
  function ParseDecimal(s: string): nat
    requires forall i :: 0 <= i < |s| ==> IsDigit(s[i])
  {
    if |s| == 0 then 0
    else 10 * ParseDecimal(s[..|s| - 1]) + DigitValue(s[|s| - 1])
  }

  lemma {:induction false} DecimalRoundTrip(n: nat)
    ensures ParseDecimal(NatToDecimal(n)) == n
  {
    if n >= 10 {
      var s := NatToDecimal(n);
      assert s[..|s| - 1] == NatToDecimal(n / 10);
      DecimalRoundTrip(n / 10);
    }
  }

  /** Bytes `Encoding.UTF8` spends on one Unicode scalar value. */
  function Utf8Width(c: char): nat
  {
    if c as int < 0x80 then 1
    else if c as int < 0x800 then 2
    else if c as int < 0x10000 then 3
    else 4
  }

  /** Length of `Encoding.UTF8.GetBytes(s)`. */
  function Utf8Length(s: string): nat
  {
    if |s| == 0 then 0 else Utf8Width(s[0]) + Utf8Length(s[1..])
  }

  predicate IsAscii(s: string)
  {
    forall i :: 0 <= i < |s| ==> s[i] as int < 0x80
  }

  lemma {:induction false} Utf8LengthBounds(s: string)
    ensures |s| <= Utf8Length(s) <= 4 * |s|
    ensures IsAscii(s) <==> Utf8Length(s) == |s|
  {
    if |s| > 0 {
      Utf8LengthBounds(s[1..]);
      if IsAscii(s) {
        assert IsAscii(s[1..]) by {
          forall i | 0 <= i < |s[1..]| ensures s[1..][i] as int < 0x80 {
            assert s[1..][i] == s[i + 1];
          }
        }
      } else if Utf8Length(s) == |s| {
        assert Utf8Width(s[0]) == 1;
        assert IsAscii(s[1..]);
        forall i | 0 <= i < |s| ensures s[i] as int < 0x80 {
          if i > 0 {
            assert s[i] == s[1..][i - 1];
          }
        }
        assert false;
      }
    }
  }

  /**
   * `ASCIIEncoding.GetBytes(s)`: characters outside ASCII become `'?'`; a character
   * outside the Basic Multilingual Plane is a UTF-16 surrogate pair and becomes two.
   */
  function AsciiBytes(s: string): (bs: seq<byte>)
    ensures forall i :: 0 <= i < |bs| ==> bs[i] < 0x80
  {
    if |s| == 0 then []
    else
      var head: seq<byte> :=
        if s[0] as int < 0x80 then [s[0] as int as byte]
        else if s[0] as int < 0x10000 then [0x3F]
        else [0x3F, 0x3F];
      head + AsciiBytes(s[1..])
  }

  /** Reads ASCII bytes back as characters. */
  function AsciiDecode(bs: seq<byte>): string
    requires forall i :: 0 <= i < |bs| ==> bs[i] < 0x80
  {
    if |bs| == 0 then "" else [bs[0] as int as char] + AsciiDecode(bs[1..])
  }

  lemma {:induction false} AsciiRoundTrip(s: string)
    requires IsAscii(s)
    ensures AsciiDecode(AsciiBytes(s)) == s
  {
    if |s| > 0 {
      assert IsAscii(s[1..]) by {
        forall i | 0 <= i < |s[1..]| ensures s[1..][i] as int < 0x80 {
          assert s[1..][i] == s[i + 1];
        }
      }
      AsciiRoundTrip(s[1..]);
      var bs := AsciiBytes(s);
      assert bs[1..] == AsciiBytes(s[1..]);
    }
  }
}
