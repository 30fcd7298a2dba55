/**
 Text helpers shared by the parsers and the renderers: ASCII digits, Rust's
 `Display` of unsigned integers, `str::split('\n')`, `join`, and substring
 containment. Each concept is defined once here and used by every module that
 renders or reads text.
 */
module Text {

  predicate IsAsciiDigit(c: char) {
    '0' <= c <= '9'
  }

  predicate AllDigits(s: string) {
    forall i :: 0 <= i < |s| ==> IsAsciiDigit(s[i])
  }

  function DigitValue(c: char): (d: nat)
    requires IsAsciiDigit(c)
    ensures d < 10
  {
    (c as int - '0' as int) as nat
  }

  function DigitChar(d: nat): (c: char)
    requires d < 10
    ensures IsAsciiDigit(c) && DigitValue(c) == d
  {
    ('0' as int + d) as char
  }

  /** The number a run of ASCII digits denotes, most significant digit first. */
  function DigitsValue(s: string): nat
    requires AllDigits(s)
  {
    if |s| == 0 then 0
    else DigitsValue(s[..|s| - 1]) * 10 + DigitValue(s[|s| - 1])
  }

  /** Rust's `Display` of an unsigned integer: decimal, no sign, no leading zero. */
  function DecimalString(n: nat): (r: string)
    ensures 1 <= |r| && AllDigits(r)
    ensures DigitsValue(r) == n
    ensures r[0] == '0' ==> n == 0 && |r| == 1
  {
    if n < 10 then [DigitChar(n)]
    else
      var init := DecimalString(n / 10);
      var r := init + [DigitChar(n % 10)];
      assert r[..|r| - 1] == init;
      r
  }

  /** Leading zeros do not change the value of a digit run. */
  lemma {:induction false} LeadingZeros(z: string, d: string)
    requires forall k :: 0 <= k < |z| ==> z[k] == '0'
    requires AllDigits(d)
    ensures AllDigits(z + d) && DigitsValue(z + d) == DigitsValue(d)
    decreases |d|
  {
    if |d| == 0 {
      assert z + d == z;
      ZerosValue(z);
    } else {
      var init := d[..|d| - 1];
      assert (z + d)[..|z + d| - 1] == z + init;
      LeadingZeros(z, init);
    }
  }

  lemma {:induction false} ZerosValue(z: string)
    requires forall k :: 0 <= k < |z| ==> z[k] == '0'
    ensures AllDigits(z) && DigitsValue(z) == 0
    decreases |z|
  {
    if |z| > 0 {
      ZerosValue(z[..|z| - 1]);
    }
  }

  /** A decimal rendering never contains a line break or a minus sign. */
  lemma DecimalStringIsPlain(n: nat)
    ensures '\n' !in DecimalString(n) && '-' !in DecimalString(n)
  {
    var r := DecimalString(n);
    forall i | 0 <= i < |r|
      ensures r[i] != '\n' && r[i] != '-'
    {
      assert IsAsciiDigit(r[i]);
    }
  }

  /** `t` occurs in `s` as a contiguous piece (Rust's `str::contains`). */
  predicate Contains(s: string, t: string) {
    exists i :: 0 <= i <= |s| - |t| && OccursAt(s, t, i)
  }

  predicate OccursAt(s: string, t: string, i: int) {
    0 <= i <= |s| - |t| && s[i..i + |t|] == t
  }

  lemma ContainsMiddle(a: string, t: string, b: string)
    ensures Contains(a + t + b, t)
  {
    var s := a + t + b;
    assert s[|a|..|a| + |t|] == t;
    assert OccursAt(s, t, |a|);
  }

  lemma ContainsPrefix(t: string, b: string)
    ensures Contains(t + b, t)
  {
    assert (t + b)[..|t|] == t;
    assert OccursAt(t + b, t, 0);
  }

  lemma ContainsSuffix(a: string, t: string)
    ensures Contains(a + t, t)
  {
    assert (a + t)[|a|..] == t;
    assert OccursAt(a + t, t, |a|);
  }

  /** Containment is transitive. */
  lemma ContainsTransitive(a: string, b: string, c: string)
    requires Contains(a, b) && Contains(b, c)
    ensures Contains(a, c)
  {
    var i :| 0 <= i <= |a| - |b| && OccursAt(a, b, i);
    var j :| 0 <= j <= |b| - |c| && OccursAt(b, c, j);
    assert a[i..i + |b|] == b;
    assert b[j..j + |c|] == c;
    forall k | 0 <= k < |c|
      ensures a[i + j..i + j + |c|][k] == c[k]
    {
      assert c[k] == b[j + k] == a[i + j + k];
    }
    assert OccursAt(a, c, i + j);
  }

  /** Every piece occurs in the joined text. */
  lemma {:induction false} JoinContainsPart(parts: seq<string>, sep: string, k: nat)
    requires k < |parts|
    ensures Contains(Join(parts, sep), parts[k])
  {
    if |parts| == 1 {
      assert OccursAt(parts[0], parts[0], 0);
    } else {
      var rest := Join(parts[1..], sep);
      assert Join(parts, sep) == parts[0] + sep + rest;
      if k == 0 {
        ContainsPrefix(parts[0], sep + rest);
        AppendAssoc(parts[0], sep, rest);
      } else {
        JoinContainsPart(parts[1..], sep, k - 1);
        ContainsSuffix(parts[0] + sep, rest);
        ContainsTransitive(Join(parts, sep), rest, parts[k]);
      }
    }
  }

  /** Index of the first occurrence of `c` in `s`. */
  function FirstIndex(s: string, c: char): (i: nat)
    requires c in s
    ensures i < |s| && s[i] == c
    ensures c !in s[..i]
  {
    if s[0] == c then 0
    else
      var j := FirstIndex(s[1..], c);
      assert s[1..][..j] == s[1..j + 1];
      1 + j
  }

  /** Rust's `s.split('\n')`: the pieces between line breaks, always at least one. */
  function Lines(s: string): (r: seq<string>)
    ensures 1 <= |r|
    decreases |s|
  {
    if '\n' !in s then [s]
    else
      var i := FirstIndex(s, '\n');
      [s[..i]] + Lines(s[i + 1..])
  }

  lemma LinesCons(a: string, b: string)
    requires '\n' !in a
    ensures Lines(a + "\n" + b) == [a] + Lines(b)
  {
    var s := a + "\n" + b;
    assert s[..|a|] == a;
    var i := FirstIndex(s, '\n');
    assert i <= |a| by {
      assert s[|a|] == '\n';
      assert '\n' !in s[..i];
    }
    assert i == |a|;
    assert s[..i] == a;
    assert s[i + 1..] == b;
  }

  /** Splitting at a line break splits each side on its own. */
  lemma {:induction false} LinesAppend(x: string, y: string)
    ensures Lines(x + "\n" + y) == Lines(x) + Lines(y)
    decreases |x|, 1
  {
    if '\n' !in x {
      LinesCons(x, y);
    } else {
      var i := FirstIndex(x, '\n');
      assert x == x[..i] + "\n" + x[i + 1..];
      LinesAppendStep(x[..i], x[i + 1..], y);
    }
  }

  lemma {:induction false} LinesAppendStep(x0: string, x1: string, y: string)
    requires '\n' !in x0
    ensures Lines(x0 + "\n" + x1 + "\n" + y) == Lines(x0 + "\n" + x1) + Lines(y)
    decreases |x0 + "\n" + x1|, 0
  {
    var tail := x1 + "\n" + y;
    calc {
      Lines(x0 + "\n" + x1 + "\n" + y);
      { assert x0 + "\n" + x1 + "\n" + y == x0 + "\n" + tail;
        LinesCons(x0, tail); }
      [x0] + Lines(tail);
      { LinesAppend(x1, y); }
      [x0] + (Lines(x1) + Lines(y));
      ([x0] + Lines(x1)) + Lines(y);
      { LinesCons(x0, x1); }
      Lines(x0 + "\n" + x1) + Lines(y);
    }
  }

  /** `parts.join(sep)` */
  function Join(parts: seq<string>, sep: string): string {
    if |parts| == 0 then ""
    else if |parts| == 1 then parts[0]
    else parts[0] + sep + Join(parts[1..], sep)
  }

  /** Joining line-free pieces with line breaks and splitting again gives the pieces back. */
  lemma {:induction false} LinesOfJoin(parts: seq<string>)
    requires 1 <= |parts|
    requires forall k :: 0 <= k < |parts| ==> '\n' !in parts[k]
    ensures Lines(Join(parts, "\n")) == parts
  {
    if |parts| == 1 {
    } else {
      LinesOfJoin(parts[1..]);
      LinesCons(parts[0], Join(parts[1..], "\n"));
      assert [parts[0]] + parts[1..] == parts;
    }
  }

  /** Joining two non-empty lists is joining each and putting one separator between. */
  lemma {:induction false} JoinAppend(a: seq<string>, b: seq<string>, sep: string)
    requires 1 <= |a| && 1 <= |b|
    ensures Join(a + b, sep) == Join(a, sep) + sep + Join(b, sep)
    decreases |a|
  {
    if |a| == 1 {
      assert (a + b)[1..] == b;
    } else {
      assert (a + b)[1..] == a[1..] + b;
      JoinAppend(a[1..], b, sep);
    }
  }

  /** The first two pieces, each followed by the separator, start the joined text. */
  lemma JoinStartsWith(parts: seq<string>, sep: string)
    requires 3 <= |parts|
    ensures parts[0] + sep + parts[1] + sep <= Join(parts, sep)
  {
    var head := parts[0] + sep + parts[1] + sep;
    var rest := Join(parts[2..], sep);
    assert parts[1..][1..] == parts[2..];
    assert Join(parts, sep) == parts[0] + sep + (parts[1] + sep + rest);
    assert Join(parts, sep) == head + rest;
    assert (head + rest)[..|head|] == head;
  }

  /** The separator and the last piece end the joined text. */
  lemma JoinEndsWith(parts: seq<string>, sep: string)
    requires 2 <= |parts|
    ensures var j := Join(parts, sep); var tail := sep + parts[|parts| - 1];
      |j| >= |tail| && j[|j| - |tail|..] == tail
  {
    var last := parts[|parts| - 1];
    var init := parts[..|parts| - 1];
    var j := Join(init, sep);
    assert Join(parts, sep) == j + (sep + last) by {
      assert parts == init + [last];
      JoinAppend(init, [last], sep);
      AppendAssoc(j, sep, last);
    }
    assert (j + (sep + last))[|j|..] == sep + last;
  }

  /** A line-free prefix in front of joined line-free pieces lands on the first line. */
  lemma {:induction false} LinesOfPrefixedJoin(pre: string, parts: seq<string>)
    requires 1 <= |parts| && '\n' !in pre
    requires forall k :: 0 <= k < |parts| ==> '\n' !in parts[k]
    ensures Lines(pre + Join(parts, "\n")) == [pre + parts[0]] + parts[1..]
  {
    var shifted := [pre + parts[0]] + parts[1..];
    if |parts| == 1 {
      assert pre + Join(parts, "\n") == Join(shifted, "\n");
    } else {
      var rest := Join(parts[1..], "\n");
      assert shifted[1..] == parts[1..];
      calc {
        pre + Join(parts, "\n");
        pre + (parts[0] + "\n" + rest);
        (pre + parts[0]) + "\n" + rest;
        Join(shifted, "\n");
      }
    }
    assert forall k :: 1 <= k < |shifted| ==> shifted[k] == parts[k];
    LinesOfJoin(shifted);
  }

  /** Concatenation of all pieces, each followed by a line break. */
  function Terminated(parts: seq<string>): (r: string)
    ensures |parts| > 0 <==> |r| > 0
    ensures |r| > 0 ==> r[|r| - 1] == '\n'
  {
    if |parts| == 0 then "" else parts[0] + "\n" + Terminated(parts[1..])
  }

  lemma AppendAssoc<T>(a: seq<T>, b: seq<T>, c: seq<T>)
    ensures a + (b + c) == (a + b) + c
  {
  }

  lemma ConsAppend<T>(s: seq<T>, t: seq<T>)
    requires |s| > 0
    ensures [s[0]] + (s[1..] + t) == s + t
  {
  }

  lemma TerminatedCons(parts: seq<string>, tail: string)
    requires |parts| > 0
    ensures Terminated(parts) + tail == parts[0] + "\n" + (Terminated(parts[1..]) + tail)
  {
  }

  lemma {:induction false} LinesOfTerminated(parts: seq<string>, tail: string)
    requires forall k :: 0 <= k < |parts| ==> '\n' !in parts[k]
    ensures Lines(Terminated(parts) + tail) == parts + Lines(tail)
  {
    if |parts| == 0 {
      assert Terminated(parts) + tail == tail;
    } else {
      var rest := Terminated(parts[1..]) + tail;
      TerminatedCons(parts, tail);
      LinesCons(parts[0], rest);
      LinesOfTerminated(parts[1..], tail);
      ConsAppend(parts, Lines(tail));
    }
  }
}
