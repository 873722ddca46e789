/** The JavaScript string primitives the source relies on, restricted to ASCII:
    `join`, `split` on one character, `trim`, `parseInt`, number-to-string and
    the default string comparison used by `Array.prototype.sort`. */
module Strings {
  import opened Wrappers

  /** `parts.join(sep)`. */
  function Join(parts: seq<string>, sep: string): string
  {
    if |parts| == 0 then ""
    else if |parts| == 1 then parts[0]
    else parts[0] + sep + Join(parts[1..], sep)
  }

  /** `s.split(c)` for a one-character separator: never empty, and no piece holds `c`. */
  function Split(s: string, c: char): (r: seq<string>)
    ensures |r| >= 1
    ensures forall i :: 0 <= i < |r| ==> c !in r[i]
  {
    if |s| == 0 then [""]
    else
      var rest := Split(s[1..], c);
      if s[0] == c then [""] + rest
      else [[s[0]] + rest[0]] + rest[1..]
  }

  lemma {:induction false} JoinSplit(s: string, c: char)
    ensures Join(Split(s, c), [c]) == s
  {
    if |s| > 0 {
      var rest := Split(s[1..], c);
      JoinSplit(s[1..], c);
      if s[0] == c {
        assert Split(s, c) == [""] + rest;
        assert s == [c] + s[1..];
      } else {
        assert Split(s, c) == [[s[0]] + rest[0]] + rest[1..];
        if |rest| > 1 {
          assert Join(rest, [c]) == rest[0] + [c] + Join(rest[1..], [c]);
        }
        assert s == [s[0]] + s[1..];
      }
    }
  }

  /** Splitting text that begins with a separator-free prefix `x` glues `x` onto the first piece. */
  lemma {:induction false} SplitPrefix(x: string, y: string, c: char)
    requires c !in x
    ensures Split(x + y, c) == [x + Split(y, c)[0]] + Split(y, c)[1..]
  {
    if |x| > 0 {
      SplitPrefix(x[1..], y, c);
      assert (x + y)[1..] == x[1..] + y;
      assert (x + y)[0] == x[0];
      assert [x[0]] + (x[1..] + Split(y, c)[0]) == x + Split(y, c)[0];
    } else {
      assert x + y == y;
      assert x + Split(y, c)[0] == Split(y, c)[0];
      assert Split(y, c) == [Split(y, c)[0]] + Split(y, c)[1..];
    }
  }

  /** `s.split(c)` undoes `parts.join(c)` when no part contains `c`. */
  lemma {:induction false} SplitJoin(parts: seq<string>, c: char)
    requires |parts| >= 1
    requires forall i :: 0 <= i < |parts| ==> c !in parts[i]
    ensures Split(Join(parts, [c]), c) == parts
  {
    if |parts| == 1 {
      SplitPrefix(parts[0], "", c);
      assert parts[0] + "" == parts[0];
      assert Split("", c) == [""];
      assert Split(Join(parts, [c]), c) == [parts[0]];
    } else {
      var tail := Join(parts[1..], [c]);
      SplitJoin(parts[1..], c);
      assert Join(parts, [c]) == parts[0] + ([c] + tail);
      SplitPrefix(parts[0], [c] + tail, c);
      assert ([c] + tail)[1..] == tail;
      assert Split([c] + tail, c) == [""] + parts[1..];
      assert parts[0] + "" == parts[0];
      assert Split(Join(parts, [c]), c) == [parts[0]] + parts[1..];
      assert parts == [parts[0]] + parts[1..];
    }
  }

  /** The ASCII whitespace that `String.prototype.trim` removes. */
  predicate IsSpace(ch: char)
  {
    ch == ' ' || ch == '\t' || ch == '\n' || ch == '\r' || ch == '\U{B}' || ch == '\U{C}'
  }

  function TrimStart(s: string): string
  {
    if |s| > 0 && IsSpace(s[0]) then TrimStart(s[1..]) else s
  }

  function TrimEnd(s: string): string
  {
    if |s| > 0 && IsSpace(s[|s| - 1]) then TrimEnd(s[..|s| - 1]) else s
  }

  /** `s.trim()`. */
  function Trim(s: string): string
  {
    TrimEnd(TrimStart(s))
  }

  predicate IsTrimmed(s: string)
  {
    |s| == 0 || (!IsSpace(s[0]) && !IsSpace(s[|s| - 1]))
  }

  lemma {:induction false} TrimStartShape(s: string)
    ensures |TrimStart(s)| <= |s|
    ensures |TrimStart(s)| == 0 || !IsSpace(TrimStart(s)[0])
    ensures TrimStart(s) == s[|s| - |TrimStart(s)|..]
  {
    if |s| > 0 && IsSpace(s[0]) {
      TrimStartShape(s[1..]);
    }
  }

  lemma {:induction false} TrimEndShape(s: string)
    requires |s| == 0 || !IsSpace(s[0])
    ensures |TrimEnd(s)| <= |s|
    ensures IsTrimmed(TrimEnd(s))
    ensures TrimEnd(s) == s[..|TrimEnd(s)|]
  {
    if |s| > 0 && IsSpace(s[|s| - 1]) {
      var t := s[..|s| - 1];
      assert |t| > 0 ==> t[0] == s[0];
      TrimEndShape(t);
    }
  }

  /** The result of `trim` begins and ends with a non-space character (or is empty). */
  lemma TrimIsTrimmed(s: string)
    ensures IsTrimmed(Trim(s))
  {
    TrimStartShape(s);
    TrimEndShape(TrimStart(s));
  }

  /** `trim` leaves an already trimmed string alone. */
  lemma TrimOfTrimmed(s: string)
    requires IsTrimmed(s)
    ensures Trim(s) == s
  {
    assert TrimStart(s) == s;
  }

  /** Leading whitespace does not change the result of `trim`. */
  lemma TrimSkipsLeadingSpace(ch: char, s: string)
    requires IsSpace(ch)
    ensures Trim([ch] + s) == Trim(s)
  {
    assert ([ch] + s)[1..] == s;
  }

  predicate IsDigit(ch: char)
  {
    '0' <= ch <= '9'
  }

  /** The value of `ch` as a digit in `base` (10 or 16), if it is one. */
  function DigitValue(ch: char, base: nat): (r: Option<nat>)
    ensures r.Some? ==> r.value < base || base < 10
  {
    if '0' <= ch <= '9' && (ch as int) - ('0' as int) < base then Some((ch as int) - ('0' as int))
    else if base == 16 && 'a' <= ch <= 'f' then Some((ch as int) - ('a' as int) + 10)
    else if base == 16 && 'A' <= ch <= 'F' then Some((ch as int) - ('A' as int) + 10)
    else None
  }

  /** The longest prefix of `s` made of digits of `base`. */
  function DigitPrefix(s: string, base: nat): (r: string)
    ensures |r| <= |s| && r == s[..|r|]
    ensures forall i :: 0 <= i < |r| ==> DigitValue(r[i], base).Some?
  {
    if |s| > 0 && DigitValue(s[0], base).Some? then [s[0]] + DigitPrefix(s[1..], base) else ""
  }

  /** The number a digit string spells in `base`, most significant digit first. */
  function DigitsValue(d: string, base: nat): nat
  {
    if |d| == 0 then 0
    else DigitsValue(d[..|d| - 1], base) * base + DigitValue(d[|d| - 1], base).GetOr(0)
  }

  /** The unsigned part of `parseInt`: an optional `0x` prefix selecting base 16, then the
      longest run of digits of that base; `None` when there is no digit. */
  function ParseUnsigned(u: string): Option<nat>
  {
    var hex := |u| >= 2 && u[0] == '0' && (u[1] == 'x' || u[1] == 'X');
    var base := if hex then 16 else 10;
    var d := DigitPrefix(if hex then u[2..] else u, base);
    if |d| == 0 then None else Some(DigitsValue(d, base))
  }

  /** `parseInt(s)` without a radix argument: leading whitespace, an optional sign, then the
      unsigned part; `None` stands for NaN. */
  function ParseInt(s: string): Option<int>
  {
    var t := TrimStart(s);
    if |t| > 0 && t[0] == '-' then
      match ParseUnsigned(t[1..])
      case None => None
      case Some(v) => Some(0 - v as int)
    else if |t| > 0 && t[0] == '+' then
      match ParseUnsigned(t[1..])
      case None => None
      case Some(v) => Some(v)
    else
      match ParseUnsigned(t)
      case None => None
      case Some(v) => Some(v)
  }

  /** The decimal digit for `d`. */
  function DigitChar(d: nat): char
    requires d < 10
  {
    ('0' as int + d) as char
  }

  /** `String(n)` for a natural number: its decimal digits. */
  function NatToString(n: nat): (r: string)
    ensures |r| >= 1
    ensures forall i :: 0 <= i < |r| ==> IsDigit(r[i])
  {
    if n < 10 then [DigitChar(n)] else NatToString(n / 10) + [DigitChar(n % 10)]
  }

  lemma {:induction false} DigitsOfNatToString(n: nat)
    ensures DigitPrefix(NatToString(n), 10) == NatToString(n)
    ensures DigitsValue(NatToString(n), 10) == n
  {
    var r := NatToString(n);
    AllDigitsPrefix(r);
    if n >= 10 {
      DigitsOfNatToString(n / 10);
      assert r[..|r| - 1] == NatToString(n / 10);
    }
  }

  lemma {:induction false} AllDigitsPrefix(s: string)
    requires forall i :: 0 <= i < |s| ==> IsDigit(s[i])
    ensures DigitPrefix(s, 10) == s
  {
    if |s| > 0 {
      AllDigitsPrefix(s[1..]);
    }
  }

  /** `parseInt` reads back the decimal text of every natural number. */
  lemma ParseIntOfNatToString(n: nat)
    ensures ParseInt(NatToString(n)) == Some(n)
  {
    var r := NatToString(n);
    DigitsOfNatToString(n);
    assert TrimStart(r) == r;
    assert r[0] != '-' && r[0] != '+';
    assert !(|r| >= 2 && (r[1] == 'x' || r[1] == 'X'));
    assert ParseUnsigned(r) == Some(n);
  }

  /** Distinct numbers print differently, so ids built from distinct clock readings differ. */
  lemma NatToStringInjective(m: nat, n: nat)
    requires NatToString(m) == NatToString(n)
    ensures m == n
  {
    DigitsOfNatToString(m);
    DigitsOfNatToString(n);
  }

  /** JavaScript's default string order (`a < b`): lexicographic by character code. */
  predicate LexLess(a: string, b: string)
  {
    if |a| == 0 then |b| > 0
    else if |b| == 0 then false
    else a[0] < b[0] || (a[0] == b[0] && LexLess(a[1..], b[1..]))
  }

  lemma {:induction false} LexIrreflexive(a: string)
    ensures !LexLess(a, a)
  {
    if |a| > 0 {
      LexIrreflexive(a[1..]);
    }
  }

  lemma {:induction false} LexTransitive(a: string, b: string, c: string)
    requires LexLess(a, b) && LexLess(b, c)
    ensures LexLess(a, c)
  {
    if |a| > 0 && |b| > 0 && |c| > 0 && a[0] == b[0] == c[0] {
      LexTransitive(a[1..], b[1..], c[1..]);
    }
  }

  lemma {:induction false} LexTotal(a: string, b: string)
    requires a != b
    ensures LexLess(a, b) || LexLess(b, a)
  {
    if |a| > 0 && |b| > 0 && a[0] == b[0] {
      assert a == [a[0]] + a[1..] && b == [b[0]] + b[1..];
      LexTotal(a[1..], b[1..]);
    }
  }
}
