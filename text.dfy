/**
 * The pieces of Python's `str` behaviour the source relies on: `split` with an
 * explicit separator, `join`, `replace`, `int()` on digit strings, `str()` of an
 * integer, the zero-padded numerals of `isoformat`/`strftime`, ASCII `lower`
 * and substring search.
 */
module Text {
  import opened Wrappers

  // ----- split and join -----

  /**
   * `s.split(sep)` for a non-empty separator: the text is scanned from the left
   * and every occurrence of `sep` ends one piece, so there is always one piece
   * more than there are separators, and "".split(sep) is [""].
   */
  function Split(s: string, sep: string): (parts: seq<string>)
    requires |sep| > 0
    ensures |parts| >= 1
    decreases |s|
  {
    if |s| == 0 then [""]
    else if |sep| <= |s| && s[..|sep|] == sep then [""] + Split(s[|sep|..], sep)
    else
      var rest := Split(s[1..], sep);
      [[s[0]] + rest[0]] + rest[1..]
  }

  /** `sep.join(parts)`. */
  function Join(parts: seq<string>, sep: string): string
  {
    if |parts| == 0 then ""
    else if |parts| == 1 then parts[0]
    else parts[0] + sep + Join(parts[1..], sep)
  }

  /** Text that holds no copy of the separator's first character passes through `Split` as one piece. */
  lemma {:induction false} SplitThrough(p: string, t: string, sep: string)
    requires |sep| > 0 && sep[0] !in p
    ensures Split(p + t, sep) == [p + Split(t, sep)[0]] + Split(t, sep)[1..]
    decreases |p|
  {
    if |p| == 0 {
      var parts := Split(t, sep);
      assert p + t == t && p + parts[0] == parts[0];
      assert [parts[0]] + parts[1..] == parts;
    } else {
      var s := p + t;
      assert s[0] == p[0] && s[1..] == p[1..] + t;
      SplitThrough(p[1..], t, sep);
      assert [p[0]] + (p[1..] + Split(t, sep)[0]) == p + Split(t, sep)[0];
    }
  }

  /** A text that starts with the separator yields an empty first piece. */
  lemma SplitAfterSeparator(t: string, sep: string)
    requires |sep| > 0
    ensures Split(sep + t, sep) == [""] + Split(t, sep)
  {
    var s := sep + t;
    assert s[..|sep|] == sep && s[|sep|..] == t;
  }

  /** `Split` of a text without the separator's first character is that text alone. */
  lemma SplitWhole(p: string, sep: string)
    requires |sep| > 0 && sep[0] !in p
    ensures Split(p, sep) == [p]
  {
    SplitThrough(p, "", sep);
    assert p + "" == p;
  }

  /** Splitting a joined list gives the list back when no element holds the separator's first character. */
  lemma {:induction false} SplitJoin(parts: seq<string>, sep: string)
    requires |sep| > 0 && |parts| >= 1
    requires forall i :: 0 <= i < |parts| ==> sep[0] !in parts[i]
    ensures Split(Join(parts, sep), sep) == parts
    decreases |parts|
  {
    if |parts| == 1 {
      SplitWhole(parts[0], sep);
    } else {
      var rest := Join(parts[1..], sep);
      SplitJoin(parts[1..], sep);
      SplitAfterSeparator(rest, sep);
      SplitThrough(parts[0], sep + rest, sep);
      assert parts[0] + sep + rest == parts[0] + (sep + rest);
      assert parts[0] + "" == parts[0];
      assert [parts[0]] + parts[1..] == parts;
    }
  }

  /** Two texts joined by a character neither holds split back into the two. */
  lemma SplitPair(a: string, b: string, c: char)
    requires c !in a && c !in b
    ensures Split(a + [c] + b, [c]) == [a, b]
  {
    assert Join([b], [c]) == b;
    assert Join([a, b], [c]) == a + [c] + b;
    SplitJoin([a, b], [c]);
  }

  /** Three texts joined by a character none holds split back into the three. */
  lemma SplitTriple(a: string, b: string, d: string, c: char)
    requires c !in a && c !in b && c !in d
    ensures Split(a + [c] + b + [c] + d, [c]) == [a, b, d]
  {
    assert Join([d], [c]) == d;
    assert Join([b, d], [c]) == b + [c] + d;
    assert Join([a, b, d], [c]) == a + [c] + b + [c] + d;
    SplitJoin([a, b, d], [c]);
  }

  /** Joining the pieces of a split with the same separator restores the text. */
  lemma {:induction false} JoinSplit(s: string, sep: string)
    requires |sep| > 0
    ensures Join(Split(s, sep), sep) == s
    decreases |s|
  {
    if |s| == 0 {
    } else if |sep| <= |s| && s[..|sep|] == sep {
      JoinSplit(s[|sep|..], sep);
      var rest := Split(s[|sep|..], sep);
      assert Split(s, sep) == [""] + rest;
      assert ([""] + rest)[1..] == rest;
      assert s == sep + s[|sep|..];
    } else {
      JoinSplit(s[1..], sep);
      var rest := Split(s[1..], sep);
      assert Split(s, sep) == [[s[0]] + rest[0]] + rest[1..];
      JoinConsChar(s[0], rest, sep);
      assert s == [s[0]] + s[1..];
    }
  }

  /** Prefixing the first piece with a character prefixes the joined text with it. */
  lemma JoinConsChar(c: char, parts: seq<string>, sep: string)
    requires |parts| >= 1
    ensures Join([[c] + parts[0]] + parts[1..], sep) == [c] + Join(parts, sep)
  {
    var q := [[c] + parts[0]] + parts[1..];
    assert q[1..] == parts[1..];
    if |parts| > 1 {
      assert [c] + parts[0] + sep + Join(parts[1..], sep) == [c] + (parts[0] + sep + Join(parts[1..], sep));
    }
  }

  /** The number of occurrences of `c` in `s`. */
  function Count(s: string, c: char): nat
  {
    if |s| == 0 then 0 else (if s[0] == c then 1 else 0) + Count(s[1..], c)
  }

  /** Splitting on one character gives exactly one piece more than it has occurrences. */
  lemma {:induction false} SplitCount(s: string, c: char)
    ensures |Split(s, [c])| == Count(s, c) + 1
    decreases |s|
  {
    if |s| > 0 {
      SplitCount(s[1..], c);
      assert ([c] <= s) <==> s[0] == c;
      if s[0] == c {
        assert s[..1] == [c] && s[1..] == s[|[c]|..];
      } else {
        assert s[..1] != [c];
      }
    }
  }

  // ----- replace -----

  /** `s.replace(c, with)` for a one-character pattern. */
  function ReplaceAll(s: string, c: char, with: string): string
  {
    if |s| == 0 then ""
    else (if s[0] == c then with else [s[0]]) + ReplaceAll(s[1..], c, with)
  }

  /** Replacing a character the text does not hold changes nothing. */
  lemma {:induction false} ReplaceAbsent(s: string, c: char, with: string)
    requires c !in s
    ensures ReplaceAll(s, c, with) == s
    decreases |s|
  {
    if |s| > 0 {
      assert s[0] != c;
      assert c !in s[1..];
      ReplaceAbsent(s[1..], c, with);
      assert s == [s[0]] + s[1..];
    }
  }

  /** Replacing in a concatenation replaces in each part. */
  lemma {:induction false} ReplaceConcat(a: string, b: string, c: char, with: string)
    ensures ReplaceAll(a + b, c, with) == ReplaceAll(a, c, with) + ReplaceAll(b, c, with)
    decreases |a|
  {
    if |a| == 0 {
      assert a + b == b;
    } else {
      assert (a + b)[0] == a[0];
      assert (a + b)[1..] == a[1..] + b;
      ReplaceConcat(a[1..], b, c, with);
    }
  }

  /** After replacing `c` by a text without `c`, no `c` is left. */
  lemma {:induction false} ReplaceRemoves(s: string, c: char, with: string)
    requires c !in with
    ensures c !in ReplaceAll(s, c, with)
    decreases |s|
  {
    if |s| > 0 {
      ReplaceRemoves(s[1..], c, with);
    }
  }

  /** Replacing a character by a one-character text keeps the length, so "" stays "" and nothing else becomes "". */
  lemma {:induction false} ReplaceLength(s: string, c: char, with: char)
    ensures |ReplaceAll(s, c, [with])| == |s|
    decreases |s|
  {
    if |s| > 0 {
      ReplaceLength(s[1..], c, with);
    }
  }

  /** Swapping `a` for `b` and back restores a text that held no `b`. */
  lemma {:induction false} ReplaceBack(s: string, a: char, b: char)
    requires b !in s && a != b
    ensures ReplaceAll(ReplaceAll(s, a, [b]), b, [a]) == s
    decreases |s|
  {
    if |s| > 0 {
      assert s[0] != b;
      assert b !in s[1..];
      ReplaceBack(s[1..], a, b);
      var once := ReplaceAll(s, a, [b]);
      var head := if s[0] == a then [b] else [s[0]];
      assert once == head + ReplaceAll(s[1..], a, [b]);
      assert once[0] == head[0] && once[1..] == ReplaceAll(s[1..], a, [b]);
      assert s == [s[0]] + s[1..];
    }
  }

  // ----- digits -----

  predicate IsDigit(c: char) { '0' <= c <= '9' }

  predicate AllDigits(s: string) { forall i :: 0 <= i < |s| ==> IsDigit(s[i]) }

  function DigitValue(c: char): nat
    requires IsDigit(c)
  {
    (c as int - '0' as int) as nat
  }

  function DigitChar(d: nat): (c: char)
    requires d < 10
    ensures IsDigit(c) && DigitValue(c) == d
  {
    ('0' as int + d) as char
  }

  /** The number a digit string denotes (leading zeros allowed, as `int()` allows them). */
  function DigitsValue(s: string): nat
    requires AllDigits(s)
  {
    if |s| == 0 then 0 else DigitsValue(s[..|s| - 1]) * 10 + DigitValue(s[|s| - 1])
  }

  function Pow10(k: nat): (p: nat)
    ensures p >= 1
  {
    if k == 0 then 1 else 10 * Pow10(k - 1)
  }

  /** Python's `int(s)` restricted to strings of ASCII digits; `None` where `int()` raises `ValueError`. */
  function ParseNat(s: string): (r: Option<nat>)
    ensures r.Some? <==> |s| > 0 && AllDigits(s)
  {
    if |s| > 0 && AllDigits(s) then Some(DigitsValue(s)) else None
  }

  /** `n` written with exactly `width` digits, zero-padded on the left (the `%02d`/`%04d` of `isoformat`). */
  function PadDigits(n: nat, width: nat): (s: string)
    ensures |s| == width && AllDigits(s)
  {
    if width == 0 then "" else PadDigits(n / 10, width - 1) + [DigitChar(n % 10)]
  }

  /** The quotient and remainder by ten of a number below `10 * p`. */
  lemma DivTen(n: nat, p: nat)
    requires n < 10 * p
    ensures n / 10 < p && n == n / 10 * 10 + n % 10
  {
  }

  /** A number written as its tens and last digit splits back into them. */
  lemma SplitLastDigit(q: nat, r: nat)
    requires r < 10
    ensures (q * 10 + r) / 10 == q && (q * 10 + r) % 10 == r
  {
  }

  /** Padded numerals read back as the number they were written from. */
  lemma {:induction false} PadDigitsValue(n: nat, width: nat)
    requires n < Pow10(width)
    ensures DigitsValue(PadDigits(n, width)) == n
  {
    if width > 0 {
      var q, r := n / 10, n % 10;
      DivTen(n, Pow10(width - 1));
      PadDigitsValue(q, width - 1);
      var front := PadDigits(q, width - 1);
      var s := front + [DigitChar(r)];
      assert PadDigits(n, width) == s;
      assert s[..|s| - 1] == front;
      assert DigitsValue(s) == DigitsValue(front) * 10 + DigitValue(s[|s| - 1]);
    }
  }

  /** A digit string is the padded numeral of its value at its own width: `int()` loses nothing but the width. */
  lemma {:induction false} DigitsPad(s: string)
    requires AllDigits(s)
    ensures PadDigits(DigitsValue(s), |s|) == s
    decreases |s|
  {
    if |s| > 0 {
      var front, last := s[..|s| - 1], s[|s| - 1];
      assert AllDigits(front) by {
        forall i | 0 <= i < |front| ensures IsDigit(front[i]) {
          assert front[i] == s[i];
        }
      }
      DigitsPad(front);
      var n := DigitsValue(s);
      assert n == DigitsValue(front) * 10 + DigitValue(last);
      SplitLastDigit(DigitsValue(front), DigitValue(last));
      assert DigitChar(DigitValue(last)) == last;
      assert PadDigits(n, |s|) == PadDigits(DigitsValue(front), |front|) + [DigitChar(DigitValue(last))];
      assert s == front + [last];
    }
  }

  /** `int()` reads a padded numeral as the number it was written from. */
  lemma PadParses(n: nat, width: nat)
    requires 0 < width && n < Pow10(width)
    ensures ParseNat(PadDigits(n, width)) == Some(n)
  {
    PadDigitsValue(n, width);
  }

  /** Python's `str(n)` for a natural number: its shortest decimal numeral. */
  function NatToString(n: nat): (s: string)
    ensures |s| >= 1 && AllDigits(s)
  {
    if n < 10 then [DigitChar(n)] else NatToString(n / 10) + [DigitChar(n % 10)]
  }

  lemma {:induction false} NatToStringValue(n: nat)
    ensures DigitsValue(NatToString(n)) == n
  {
    if n >= 10 {
      NatToStringValue(n / 10);
      var s := NatToString(n);
      assert s[..|s| - 1] == NatToString(n / 10);
    }
  }

  /** Python's `str(i)` for an integer. */
  function IntToString(i: int): string
  {
    if i < 0 then "-" + NatToString(-i) else NatToString(i)
  }

  /** A digit string holds no character that is not a digit. */
  lemma NoOtherCharInDigits(s: string, c: char)
    requires AllDigits(s) && !IsDigit(c)
    ensures c !in s
  {
  }

  // ----- case and substrings -----

  /** ASCII lower case of one character. */
  function LowerChar(c: char): char
  {
    if 'A' <= c <= 'Z' then (c as int + 32) as char else c
  }

  /** Python's `str.lower()` restricted to ASCII letters. */
  function Lower(s: string): (r: string)
    ensures |r| == |s|
  {
    if |s| == 0 then ""
    else [LowerChar(s[0])] + Lower(s[1..])
  }

  /** Each character is lower-cased on its own. */
  lemma {:induction false} LowerAt(s: string, k: nat)
    requires k < |s|
    ensures Lower(s)[k] == LowerChar(s[k])
    decreases k
  {
    if k > 0 {
      LowerAt(s[1..], k - 1);
    }
  }

  /** Python's `sub in s`. */
  predicate ContainsText(s: string, sub: string)
    decreases |s|
  {
    |sub| <= |s| && (s[..|sub|] == sub || ContainsText(s[1..], sub))
  }

  /** `sub` occurs in `s` at position `i`. */
  predicate OccursAt(s: string, sub: string, i: nat)
  {
    i + |sub| <= |s| && s[i..i + |sub|] == sub
  }

  /** `sub in s` holds exactly when `sub` occurs at some position of `s`. */
  lemma {:induction false} ContainsTextAt(s: string, sub: string)
    ensures ContainsText(s, sub) <==> exists i: nat :: OccursAt(s, sub, i)
    decreases |s|
  {
    if |sub| <= |s| && s[..|sub|] != sub {
      ContainsTextAt(s[1..], sub);
      if ContainsText(s, sub) {
        var j: nat :| OccursAt(s[1..], sub, j);
        assert s[j + 1..j + 1 + |sub|] == s[1..][j..j + |sub|];
        assert OccursAt(s, sub, j + 1);
      }
      if exists i: nat :: OccursAt(s, sub, i) {
        var i: nat :| OccursAt(s, sub, i);
        assert i != 0;
        assert s[1..][i - 1..i - 1 + |sub|] == s[i..i + |sub|];
        assert OccursAt(s[1..], sub, i - 1);
      }
    } else if |sub| <= |s| {
      assert OccursAt(s, sub, 0);
    }
  }
}
