/** The JavaScript string operations the pages rely on, over `string`
    (a sequence of Unicode scalar values): `split` on one character, `join`,
    `trim`, `toLowerCase` (per character), `includes`, and the decimal
    rendering of an integer inside a template literal. */
module Text {

  /** Number of occurrences of `c` in `s`. */
  function Count(s: string, c: char): nat
    decreases |s|
  {
    if |s| == 0 then 0 else (if s[0] == c then 1 else 0) + Count(s[1..], c)
  }

  /** `s.split(sep)` for a one-character separator: the maximal runs between
      separators, empty runs included, so there is always one piece more than
      there are separators. */
  function Split(s: string, sep: char): (parts: seq<string>)
    ensures |parts| == Count(s, sep) + 1
    ensures forall i :: 0 <= i < |parts| ==> sep !in parts[i]
    decreases |s|
  {
    if |s| == 0 then [""]
    else
      var rest := Split(s[1..], sep);
      if s[0] == sep then [""] + rest
      else [[s[0]] + rest[0]] + rest[1..]
  }

  /** `xs.join(d)`: the elements with `d` between consecutive ones. An empty
      list joins to "", and otherwise the text starts with the first element. */
  function Join(xs: seq<string>, d: string): (r: string)
    ensures |xs| == 0 ==> r == ""
    ensures |xs| >= 1 ==> xs[0] <= r
    ensures |xs| == 1 ==> r == xs[0]
    decreases |xs|
  {
    if |xs| == 0 then ""
    else if |xs| == 1 then xs[0]
    else xs[0] + d + Join(xs[1..], d)
  }

  /** Every element after the first, with `p` put in front of it. */
  function Prefixed(ys: seq<string>, p: string): (r: seq<string>)
    ensures |r| == |ys|
  {
    seq(|ys|, i requires 0 <= i < |ys| => p + ys[i])
  }

  lemma PrefixedAt(ys: seq<string>, p: string, k: int)
    requires 0 <= k < |ys|
    ensures Prefixed(ys, p)[k] == p + ys[k]
  {
  }

  /** A separator-free prefix glues onto the first piece. */
  lemma {:induction false} SplitPrefix(p: string, t: string, sep: char)
    requires sep !in p
    ensures Split(p + t, sep) == [p + Split(t, sep)[0]] + Split(t, sep)[1..]
    decreases |p|
  {
    var tail := Split(t, sep);
    if |p| == 0 {
      assert p + t == t;
      assert p + tail[0] == tail[0];
      assert [tail[0]] + tail[1..] == tail;
    } else {
      assert (p + t)[1..] == p[1..] + t;
      SplitPrefix(p[1..], t, sep);
      assert [p[0]] + (p[1..] + tail[0]) == p + tail[0];
    }
  }

  /** A separator ends the first piece. */
  lemma SplitAtSeparator(a: string, b: string, sep: char)
    requires sep !in a
    ensures Split(a + [sep] + b, sep) == [a] + Split(b, sep)
  {
    assert a + [sep] + b == a + ([sep] + b);
    SplitPrefix(a, [sep] + b, sep);
    assert ([sep] + b)[1..] == b;
    assert Split([sep] + b, sep) == [""] + Split(b, sep);
    assert a + "" == a;
  }

  /** Splitting a joined list on the separator's first character gives the
      list back, each element after the first carrying the rest of the
      separator in front. */
  lemma {:induction false} SplitJoin(xs: seq<string>, c: char, rest: string)
    requires |xs| >= 1
    requires c !in rest
    requires forall i :: 0 <= i < |xs| ==> c !in xs[i]
    ensures Split(Join(xs, [c] + rest), c) == [xs[0]] + Prefixed(xs[1..], rest)
    decreases |xs|
  {
    var d := [c] + rest;
    if |xs| == 1 {
      SplitPrefix(xs[0], "", c);
      assert xs[0] + "" == xs[0];
      assert Prefixed(xs[1..], rest) == [];
    } else {
      var j := Join(xs[1..], d);
      assert Join(xs, d) == xs[0] + [c] + (rest + j);
      SplitAtSeparator(xs[0], rest + j, c);
      SplitPrefix(rest, j, c);
      SplitJoin(xs[1..], c, rest);
      var sj := Split(j, c);
      assert sj == [xs[1]] + Prefixed(xs[2..], rest);
      assert [rest + sj[0]] + sj[1..] == Prefixed(xs[1..], rest);
    }
  }

  /** Joining with a one-character separator undoes splitting on it. */
  lemma {:induction false} JoinSplit(s: string, c: char)
    ensures Join(Split(s, c), [c]) == s
    decreases |s|
  {
    if |s| > 0 {
      var r := Split(s[1..], c);
      JoinSplit(s[1..], c);
      if s[0] == c {
        assert ([""] + r)[1..] == r;
        assert Join([""] + r, [c]) == "" + [c] + Join(r, [c]);
        assert s == [c] + s[1..];
      } else {
        var parts := [[s[0]] + r[0]] + r[1..];
        if |r| == 1 {
          assert Join(parts, [c]) == [s[0]] + r[0];
        } else {
          assert parts[1..] == r[1..];
          assert Join(parts, [c]) == [s[0]] + r[0] + [c] + Join(r[1..], [c]);
          assert Join(r, [c]) == r[0] + [c] + Join(r[1..], [c]);
        }
        assert s == [s[0]] + s[1..];
      }
    }
  }

  /** Joining two non-empty lists with `d` puts `d` between the two joins. */
  lemma {:induction false} JoinAppend(xs: seq<string>, ys: seq<string>, d: string)
    requires |xs| >= 1 && |ys| >= 1
    ensures Join(xs + ys, d) == Join(xs, d) + d + Join(ys, d)
    decreases |xs|
  {
    if |xs| == 1 {
      assert (xs + ys)[1..] == ys;
    } else {
      assert (xs + ys)[1..] == xs[1..] + ys;
      JoinAppend(xs[1..], ys, d);
    }
  }

  /** JavaScript's WhiteSpace and LineTerminator characters, the set `trim`
      removes: tab, vertical tab, form feed, the byte-order mark, the
      space separators of category Zs, and the four line terminators. */
  predicate IsSpace(c: char) {
    || c == '\t' || c == '\n' || c == '\U{000B}' || c == '\U{000C}' || c == '\r'
    || c == ' ' || c == '\U{00A0}' || c == '\U{1680}'
    || ('\U{2000}' <= c <= '\U{200A}')
    || c == '\U{2028}' || c == '\U{2029}' || c == '\U{202F}' || c == '\U{205F}'
    || c == '\U{3000}' || c == '\U{FEFF}'
  }

  predicate AllSpace(s: string) {
    forall i :: 0 <= i < |s| ==> IsSpace(s[i])
  }

  /** Neither end is a space: what `trim` leaves behind. */
  predicate IsTrimmed(s: string) {
    |s| == 0 || (!IsSpace(s[0]) && !IsSpace(s[|s| - 1]))
  }

  function TrimStart(s: string): (r: string)
    ensures |r| <= |s| && r == s[|s| - |r|..]
    ensures AllSpace(s[..|s| - |r|])
    ensures |r| == 0 || !IsSpace(r[0])
    decreases |s|
  {
    if |s| > 0 && IsSpace(s[0]) then
      var r := TrimStart(s[1..]);
      assert s[..|s| - |r|] == [s[0]] + s[1..][..|s[1..]| - |r|];
      r
    else s
  }

  function TrimEnd(s: string): (r: string)
    ensures |r| <= |s| && r == s[..|r|]
    ensures AllSpace(s[|r|..])
    ensures |r| == 0 || !IsSpace(r[|r| - 1])
    decreases |s|
  {
    if |s| > 0 && IsSpace(s[|s| - 1]) then
      var r := TrimEnd(s[..|s| - 1]);
      assert s[|r|..] == s[..|s| - 1][|r|..] + [s[|s| - 1]];
      r
    else s
  }

  /** A prefix `r` of the suffix `a` of `s` is a slice of `s`. */
  lemma SliceOfSuffix(s: string, a: string, r: string, i: int)
    requires 0 <= i <= |s| && a == s[i..]
    requires |r| <= |a| && r == a[..|r|]
    ensures r == s[i..i + |r|] && s[i + |r|..] == a[|r|..]
  {
  }

  /** How many spaces `trim` removes at the front. */
  function Leading(s: string): nat {
    |s| - |TrimStart(s)|
  }

  /** `s.trim()`: what is left after removing spaces at both ends. */
  function Trim(s: string): (r: string)
    ensures IsTrimmed(r)
  {
    var a := TrimStart(s);
    var r := TrimEnd(a);
    assert |r| > 0 ==> r[0] == a[0];
    r
  }

  /** `trim` keeps one slice of `s`, and only spaces lie outside it. */
  lemma TrimSlice(s: string)
    ensures Leading(s) + |Trim(s)| <= |s|
    ensures Trim(s) == s[Leading(s)..Leading(s) + |Trim(s)|]
    ensures AllSpace(s[..Leading(s)]) && AllSpace(s[Leading(s) + |Trim(s)|..])
  {
    var a := TrimStart(s);
    SliceOfSuffix(s, a, TrimEnd(a), |s| - |a|);
  }

  /** Trimming a string that has no space at either end changes nothing. */
  lemma TrimOfTrimmed(s: string)
    requires IsTrimmed(s)
    ensures Trim(s) == s
  {
  }

  /** A leading space never survives `trim`. */
  lemma TrimLeadingSpace(c: char, s: string)
    requires IsSpace(c)
    ensures Trim([c] + s) == Trim(s)
  {
    assert ([c] + s)[1..] == s;
  }

  /** `trim` is idempotent. */
  lemma TrimIdempotent(s: string)
    ensures Trim(Trim(s)) == Trim(s)
  {
    TrimOfTrimmed(Trim(s));
  }

  /** `toLowerCase`, modelled as a per-character map (ASCII letters only). */
  function LowerChar(c: char): (r: char)
    ensures 'A' <= c <= 'Z' ==> 'a' <= r <= 'z'
    ensures !('A' <= c <= 'Z') ==> r == c
  {
    if 'A' <= c <= 'Z' then (c as int - 'A' as int + 'a' as int) as char else c
  }

  function Lower(s: string): (r: string)
    ensures |r| == |s|
  {
    seq(|s|, i requires 0 <= i < |s| => LowerChar(s[i]))
  }

  /** Lower-casing distributes over concatenation, as a per-character map does. */
  lemma LowerAppend(a: string, b: string)
    ensures Lower(a + b) == Lower(a) + Lower(b)
  {
  }

  /** `needle` occurs in `hay` starting at index `i`. */
  predicate OccursAt(hay: string, needle: string, i: int) {
    0 <= i && i + |needle| <= |hay| && hay[i..i + |needle|] == needle
  }

  /** `hay.includes(needle)`. */
  predicate Contains(hay: string, needle: string)
    decreases |hay|
  {
    needle <= hay || (|hay| > 0 && Contains(hay[1..], needle))
  }

  /** `includes` holds exactly when the needle occurs at some index. */
  lemma {:induction false} ContainsIffOccurs(hay: string, needle: string)
    ensures Contains(hay, needle) <==> exists i :: OccursAt(hay, needle, i)
    decreases |hay|
  {
    if needle <= hay {
      assert OccursAt(hay, needle, 0);
    } else if |hay| > 0 {
      ContainsIffOccurs(hay[1..], needle);
      if Contains(hay[1..], needle) {
        var i :| OccursAt(hay[1..], needle, i);
        assert hay[i + 1..i + 1 + |needle|] == hay[1..][i..i + |needle|];
        assert OccursAt(hay, needle, i + 1);
      }
      assert !OccursAt(hay, needle, 0) by {
        if |needle| <= |hay| {
          assert hay[0..|needle|] == hay[..|needle|];
        }
      }
      forall i | OccursAt(hay, needle, i)
        ensures OccursAt(hay[1..], needle, i - 1)
      {
        assert hay[1..][i - 1..i - 1 + |needle|] == hay[i..i + |needle|];
      }
    }
  }

  /** Every prefix of a contained needle is contained. */
  lemma {:induction false} ContainsPrefix(hay: string, a: string, b: string)
    requires Contains(hay, a + b)
    ensures Contains(hay, a)
    decreases |hay|
  {
    if a + b <= hay {
      assert a == (a + b)[..|a|];
      assert a == hay[..|a|];
    } else {
      ContainsPrefix(hay[1..], a, b);
    }
  }

  function DigitChar(d: int): (c: char)
    requires 0 <= d < 10
    ensures '0' <= c <= '9'
  {
    ('0' as int + d) as char
  }

  predicate AllDigits(s: string) {
    forall i :: 0 <= i < |s| ==> '0' <= s[i] <= '9'
  }

  /** Decimal digits of a natural number, most significant first, as
      JavaScript renders an integer-valued number. */
  function NatToString(n: nat): (r: string)
    ensures |r| >= 1 && AllDigits(r)
    decreases n
  {
    if n < 10 then [DigitChar(n)] else NatToString(n / 10) + [DigitChar(n % 10)]
  }

  /** The integer a string of decimal digits denotes. */
  function ParseNat(s: string): nat
    requires AllDigits(s)
    decreases |s|
  {
    if |s| == 0 then 0
    else ParseNat(s[..|s| - 1]) * 10 + (s[|s| - 1] as int - '0' as int)
  }

  /** The decimal rendering loses nothing: parsing it gives the number back. */
  lemma {:induction false} ParseNatToString(n: nat)
    ensures ParseNat(NatToString(n)) == n
    decreases n
  {
    if n >= 10 {
      var s := NatToString(n);
      assert s[..|s| - 1] == NatToString(n / 10);
      ParseNatToString(n / 10);
    }
  }

  /** String(i) for an integer-valued number. */
  function IntToString(i: int): (r: string)
    ensures '\n' !in r
    ensures |r| >= 1
  {
    if i < 0 then "-" + NatToString(-i) else NatToString(i)
  }
}
