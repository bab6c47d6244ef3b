/** The string operations of the Python runtime the tool leans on:
    `str.split`, `int(str)`, `str(int)`, `'%x' % n` and the ordering `sorted` uses. */
module Text {
  import opened Wrappers

  /** Concatenates `parts`, putting `sep` between neighbours. */
  function Join(parts: seq<string>, sep: char): string
  {
    if |parts| == 0 then ""
    else if |parts| == 1 then parts[0]
    else parts[0] + [sep] + Join(parts[1..], sep)
  }

  lemma JoinCons(part: string, parts: seq<string>, sep: char)
    requires |parts| >= 1
    ensures Join([part] + parts, sep) == part + [sep] + Join(parts, sep)
  {
    assert ([part] + parts)[1..] == parts;
  }

  /** `s.split(sep)`: cuts at every occurrence of `sep` and keeps empty fields,
      so there is always at least one field and joining them gives `s` back. */
  function Split(s: string, sep: char): (parts: seq<string>)
    ensures |parts| >= 1
    ensures forall i :: 0 <= i < |parts| ==> sep !in parts[i]
    ensures Join(parts, sep) == s
  {
    if |s| == 0 then [""]
    else
      var rest := Split(s[1..], sep);
      if s[0] == sep then
        assert ([""] + rest)[1..] == rest;
        [""] + rest
      else
        var parts := [[s[0]] + rest[0]] + rest[1..];
        assert |rest| > 1 ==> parts[1..] == rest[1..];
        parts
  }

  /** A field free of the separator is not cut. */
  lemma {:induction false} SplitWhole(a: string, sep: char)
    requires sep !in a
    ensures Split(a, sep) == [a]
  {
    if |a| > 0 {
      SplitWhole(a[1..], sep);
    }
  }

  /** Splitting `a + sep + b` yields `a` first and then the fields of `b`. */
  lemma {:induction false} SplitAfterField(a: string, sep: char, b: string)
    requires sep !in a
    ensures Split(a + [sep] + b, sep) == [a] + Split(b, sep)
  {
    var s := a + [sep] + b;
    if |a| == 0 {
      assert s[0] == sep && s[1..] == b;
    } else {
      assert s[0] == a[0] && s[1..] == a[1..] + [sep] + b;
      SplitAfterField(a[1..], sep, b);
      assert [a[0]] + a[1..] == a;
    }
  }

  /** Split inverts Join on fields that do not contain the separator. */
  lemma {:induction false} SplitJoin(parts: seq<string>, sep: char)
    requires |parts| >= 1
    requires forall i :: 0 <= i < |parts| ==> sep !in parts[i]
    ensures Split(Join(parts, sep), sep) == parts
  {
    if |parts| == 1 {
      SplitWhole(parts[0], sep);
    } else {
      SplitJoin(parts[1..], sep);
      SplitAfterField(parts[0], sep, Join(parts[1..], sep));
      assert [parts[0]] + parts[1..] == parts;
    }
  }

  /** `s.split(sep, 1)`: one field when `sep` is absent, otherwise the text before
      the first `sep` and everything after it (further separators included). */
  function SplitOnce(s: string, sep: char): (parts: seq<string>)
    ensures sep !in s ==> parts == [s]
    ensures sep in s ==> |parts| == 2 && sep !in parts[0] && parts[0] + [sep] + parts[1] == s
  {
    if |s| == 0 then [s]
    else if s[0] == sep then
      assert s == [] + [sep] + s[1..];
      ["", s[1..]]
    else
      var rest := SplitOnce(s[1..], sep);
      if |rest| == 1 then
        assert sep !in s;
        [s]
      else
        assert s == [s[0]] + s[1..];
        [[s[0]] + rest[0], rest[1]]
  }

  /** Python truthiness of an optional string: present and not empty. */
  predicate Truthy(s: Option<string>)
  {
    s.Some? && s.value != ""
  }

  /** The characters `str.strip()` removes: space and tab through carriage return. */
  predicate IsSpace(c: char)
  {
    c == ' ' || ('\t' <= c <= '\r')
  }

  function StripLeading(s: string): string
  {
    if |s| > 0 && IsSpace(s[0]) then StripLeading(s[1..]) else s
  }

  function StripTrailing(s: string): string
  {
    if |s| > 0 && IsSpace(s[|s| - 1]) then StripTrailing(s[..|s| - 1]) else s
  }

  /** `s.strip()`. */
  function Strip(s: string): string
  {
    StripTrailing(StripLeading(s))
  }

  predicate IsDigit(c: char)
  {
    '0' <= c <= '9'
  }

  /** A non-empty run of decimal digits. */
  predicate IsDigits(s: string)
  {
    |s| > 0 && forall i :: 0 <= i < |s| ==> IsDigit(s[i])
  }

  function DecimalValue(s: string): nat
    requires forall i :: 0 <= i < |s| ==> IsDigit(s[i])
  {
    if |s| == 0 then 0
    else
      assert IsDigit(s[|s| - 1]);
      DecimalValue(s[..|s| - 1]) * 10 + (s[|s| - 1] as int - '0' as int)
  }

  /** `int(s)`: surrounding whitespace, an optional sign, then decimal digits. */
  function ParseInt(s: string): Option<int>
  {
    var t := Strip(s);
    if |t| > 0 && (t[0] == '+' || t[0] == '-') && IsDigits(t[1..]) then
      Some(if t[0] == '-' then -(DecimalValue(t[1..]) as int) else DecimalValue(t[1..]))
    else if IsDigits(t) then
      Some(DecimalValue(t))
    else
      None
  }

  function DigitChar(d: nat): char
    requires d < 10
  {
    ('0' as int + d) as char
  }

  /** The decimal digits of `n`, without leading zeros. */
  function DecimalString(n: nat): (s: string)
    ensures IsDigits(s)
  {
    if n < 10 then [DigitChar(n)] else DecimalString(n / 10) + [DigitChar(n % 10)]
  }

  /** `str(n)`. */
  function FormatInt(n: int): string
  {
    if n < 0 then "-" + DecimalString(-n) else DecimalString(n)
  }

  lemma {:induction false} DecimalRoundTrip(n: nat)
    ensures DecimalValue(DecimalString(n)) == n
  {
    var s := DecimalString(n);
    if n >= 10 {
      DecimalRoundTrip(n / 10);
      assert s[..|s| - 1] == DecimalString(n / 10);
    }
  }

  lemma StripUnpadded(s: string)
    requires |s| > 0 && !IsSpace(s[0]) && !IsSpace(s[|s| - 1])
    ensures Strip(s) == s
  {
  }

  /** `int(str(n)) == n`: the parser reads back what `str` writes. */
  lemma ParseFormatInt(n: int)
    ensures ParseInt(FormatInt(n)) == Some(n)
  {
    var d := DecimalString(if n < 0 then -n else n);
    DecimalRoundTrip(if n < 0 then -n else n);
    var s := FormatInt(n);
    StripUnpadded(s);
    if n < 0 {
      assert s[1..] == d;
    }
  }

  /** The lower-case hexadecimal digit for `d`. */
  function HexChar(d: nat): char
    requires d < 16
  {
    if d < 10 then ('0' as int + d) as char else ('a' as int + d - 10) as char
  }

  predicate IsHexChar(c: char)
  {
    IsDigit(c) || ('a' <= c <= 'f')
  }

  function HexCharValue(c: char): nat
    requires IsHexChar(c)
  {
    if IsDigit(c) then c as int - '0' as int else c as int - 'a' as int + 10
  }

  function HexValue(s: string): nat
    requires forall i :: 0 <= i < |s| ==> IsHexChar(s[i])
  {
    if |s| == 0 then 0
    else HexValue(s[..|s| - 1]) * 16 + HexCharValue(s[|s| - 1])
  }

  /** The lower-case hexadecimal digits of `n`, without leading zeros. */
  function HexString(n: nat): (s: string)
    ensures |s| > 0 && forall i :: 0 <= i < |s| ==> IsHexChar(s[i])
  {
    if n < 16 then [HexChar(n)] else HexString(n / 16) + [HexChar(n % 16)]
  }

  /** `'%x' % n`: lower case, no padding, a minus sign for negative values. */
  function FormatHex(n: int): string
  {
    if n < 0 then "-" + HexString(-n) else HexString(n)
  }

  /** Reads back a value written by FormatHex. */
  function ParseHex(s: string): Option<int>
  {
    if |s| > 0 && s[0] == '-' && |s[1..]| > 0 && (forall i :: 1 <= i < |s| ==> IsHexChar(s[i])) then
      Some(-(HexValue(s[1..]) as int))
    else if |s| > 0 && forall i :: 0 <= i < |s| ==> IsHexChar(s[i]) then
      Some(HexValue(s))
    else
      None
  }

  lemma {:induction false} HexRoundTrip(n: nat)
    ensures HexValue(HexString(n)) == n
  {
    var s := HexString(n);
    if n >= 16 {
      HexRoundTrip(n / 16);
      assert s[..|s| - 1] == HexString(n / 16);
    }
  }

  /** `'%x'` loses nothing: its output parses back to the value. */
  lemma FormatHexRoundTrip(n: int)
    ensures ParseHex(FormatHex(n)) == Some(n)
  {
    HexRoundTrip(if n < 0 then -n else n);
    if n < 0 {
      assert FormatHex(n)[1..] == HexString(-n);
    }
  }

  /** A hexadecimal rendering never contains the character `c` when `c` is
      neither a hexadecimal digit nor the minus sign. */
  lemma FormatHexAvoids(n: int, c: char)
    requires !IsHexChar(c) && c != '-'
    ensures c !in FormatHex(n)
  {
    var h := HexString(if n < 0 then -n else n);
    assert c !in h by {
      forall i | 0 <= i < |h| ensures h[i] != c { }
    }
  }

  /** A decimal rendering never contains `c` when `c` is neither a digit nor the minus sign. */
  lemma FormatIntAvoids(n: int, c: char)
    requires !IsDigit(c) && c != '-'
    ensures c !in FormatInt(n)
  {
    var d := DecimalString(if n < 0 then -n else n);
    assert c !in d by {
      forall i | 0 <= i < |d| ensures d[i] != c { }
    }
  }

  /** `a <= b` in the character-by-character order Python's `sorted` uses on strings. */
  predicate Below(a: string, b: string)
  {
    |a| == 0 || (|b| > 0 && (a[0] < b[0] || (a[0] == b[0] && Below(a[1..], b[1..]))))
  }

  lemma {:induction false} BelowTotal(a: string, b: string)
    ensures Below(a, b) || Below(b, a)
  {
    if |a| > 0 && |b| > 0 && a[0] == b[0] {
      BelowTotal(a[1..], b[1..]);
    }
  }

  lemma {:induction false} BelowAntisymmetric(a: string, b: string)
    requires Below(a, b) && Below(b, a)
    ensures a == b
  {
    if |a| > 0 && |b| > 0 {
      BelowAntisymmetric(a[1..], b[1..]);
      assert a == [a[0]] + a[1..] && b == [b[0]] + b[1..];
    }
  }

  lemma {:induction false} BelowTransitive(a: string, b: string, c: string)
    requires Below(a, b) && Below(b, c)
    ensures Below(a, c)
  {
    if |a| > 0 && |b| > 0 && |c| > 0 && a[0] == b[0] && b[0] == c[0] {
      BelowTransitive(a[1..], b[1..], c[1..]);
    }
  }

  /** Strictly increasing in that order, hence free of duplicates. */
  predicate StrictlySorted(ks: seq<string>)
  {
    forall i, j :: 0 <= i < j < |ks| ==> Below(ks[i], ks[j]) && ks[i] != ks[j]
  }

  /** `ks` lists the strings of `keys` in sorted order, each once: what
      `sorted(d.iterkeys())` returns for a dictionary whose keys are `keys`. */
  ghost predicate SortedEnumeration(ks: seq<string>, keys: set<string>)
  {
    StrictlySorted(ks) && (forall k :: k in ks <==> k in keys)
  }

  /** Every non-empty finite set of strings has a least element. */
  lemma {:induction false} LeastExists(s: set<string>)
    requires s != {}
    ensures exists m :: m in s && forall x :: x in s ==> Below(m, x)
    decreases |s|
  {
    var y :| y in s;
    if s - {y} == {} {
      assert s == {y};
      assert Below(y, y) by { BelowTotal(y, y); }
    } else {
      LeastExists(s - {y});
      var m :| m in s - {y} && forall x :: x in s - {y} ==> Below(m, x);
      BelowTotal(m, y);
      if Below(m, y) {
        assert forall x :: x in s ==> Below(m, x);
      } else {
        forall x | x in s ensures Below(y, x) {
          if x != y {
            BelowTransitive(y, m, x);
          } else {
            BelowTotal(y, y);
          }
        }
      }
    }
  }

  /** Every finite set of strings has a sorted enumeration. */
  lemma {:induction false} SortedEnumerationExists(keys: set<string>)
    ensures exists ks :: SortedEnumeration(ks, keys)
    decreases |keys|
  {
    if keys == {} {
      assert SortedEnumeration([], keys);
    } else {
      LeastExists(keys);
      var m :| m in keys && forall x :: x in keys ==> Below(m, x);
      SortedEnumerationExists(keys - {m});
      var rest :| SortedEnumeration(rest, keys - {m});
      var ks := [m] + rest;
      forall i, j | 0 <= i < j < |ks| ensures Below(ks[i], ks[j]) && ks[i] != ks[j] {
        if i > 0 {
          assert ks[i] == rest[i - 1] && ks[j] == rest[j - 1];
        } else {
          assert ks[j] == rest[j - 1] && ks[j] in keys - {m};
        }
      }
      assert SortedEnumeration(ks, keys);
    }
  }

  lemma HeadIsMember(s: seq<string>)
    requires |s| > 0
    ensures s[0] in s
  {
  }

  /** The sorted enumeration of a set is unique. */
  lemma {:induction false} SortedEnumerationUnique(ks: seq<string>, ls: seq<string>, keys: set<string>)
    requires SortedEnumeration(ks, keys) && SortedEnumeration(ls, keys)
    ensures ks == ls
    decreases |ks|
  {
    if |ks| == 0 {
      if |ls| > 0 {
        HeadIsMember(ls);
        assert false;
      }
    } else {
      assert ks[0] in keys;
      assert |ls| > 0 by { assert ks[0] in ls; }
      // The first elements are both least, hence equal.
      var i :| 0 <= i < |ls| && ls[i] == ks[0];
      assert ls[0] in keys;
      assert ls[0] in ks;
      var j :| 0 <= j < |ks| && ks[j] == ls[0];
      if ks[0] != ls[0] {
        assert i > 0 && j > 0;
        assert Below(ls[0], ks[0]) && Below(ks[0], ls[0]);
        BelowAntisymmetric(ks[0], ls[0]);
      }
      var rest := keys - {ks[0]};
      forall k ensures k in ks[1..] <==> k in rest {
        if k in ks[1..] {
          var p :| 1 <= p < |ks| && ks[p] == k;
        }
      }
      forall k ensures k in ls[1..] <==> k in rest {
        if k in ls[1..] {
          var p :| 1 <= p < |ls| && ls[p] == k;
        }
      }
      SortedEnumerationUnique(ks[1..], ls[1..], rest);
      assert ks == [ks[0]] + ks[1..] && ls == [ls[0]] + ls[1..];
    }
  }
}
