/** Character-level string operations of the Rust and TypeScript standard libraries
    that the modelled code relies on (`starts_with`, `contains`, `trim`, `join`, ...). */
module Text {

  predicate StartsWith(s: string, prefix: string)
  {
    |prefix| <= |s| && s[..|prefix|] == prefix
  }

  predicate EndsWith(s: string, suffix: string)
  {
    |suffix| <= |s| && s[|s| - |suffix|..] == suffix
  }

  /** `s.contains(needle)`: needle occurs at some position of s. */
  predicate Contains(s: string, needle: string)
    decreases |s|
  {
    StartsWith(s, needle) || (|s| > 0 && Contains(s[1..], needle))
  }

  /** Contains agrees with the positional reading of "occurs somewhere". */
  lemma {:induction false} ContainsAt(s: string, needle: string, i: nat)
    requires i + |needle| <= |s| && s[i..i + |needle|] == needle
    ensures Contains(s, needle)
    decreases i
  {
    if i > 0 {
      assert s[1..][i - 1..i - 1 + |needle|] == needle;
      ContainsAt(s[1..], needle, i - 1);
    }
  }

  lemma {:induction false} ContainsConcat(a: string, b: string, needle: string)
    requires Contains(b, needle)
    ensures Contains(a + b, needle)
    decreases |a|
  {
    if |a| > 0 {
      assert (a + b)[1..] == a[1..] + b;
      ContainsConcat(a[1..], b, needle);
    } else {
      assert a + b == b;
    }
  }

  lemma ContainsSelf(s: string)
    ensures Contains(s, s)
  {
  }

  /** A string that contains needle keeps containing it when something is appended. */
  lemma {:induction false} ContainsAppend(a: string, b: string, needle: string)
    requires Contains(a, needle)
    ensures Contains(a + b, needle)
    decreases |a|
  {
    if StartsWith(a, needle) {
      assert (a + b)[..|needle|] == a[..|needle|];
    } else {
      assert (a + b)[1..] == a[1..] + b;
      ContainsAppend(a[1..], b, needle);
    }
  }

  /** `parts.join(sep)`. */
  function Join(parts: seq<string>, sep: string): string
  {
    if |parts| == 0 then ""
    else if |parts| == 1 then parts[0]
    else parts[0] + sep + Join(parts[1..], sep)
  }

  /** Rust's `str::split` on one character: every piece between separators, empty
      pieces included, so n separators give n + 1 pieces. */
  function Split(s: string, sep: char): (parts: seq<string>)
    ensures |parts| >= 1
    ensures forall i :: 0 <= i < |parts| ==> sep !in parts[i]
    ensures Join(parts, [sep]) == s
  {
    if |s| == 0 then [""]
    else
      var rest := Split(s[1..], sep);
      if s[0] == sep then
        assert [""] + rest == [""] + rest[..];
        JoinCons("", rest, [sep]);
        [""] + rest
      else
        var parts := [[s[0]] + rest[0]] + rest[1..];
        JoinHead(rest, [sep]);
        JoinHead(parts, [sep]);
        assert parts[1..] == rest[1..];
        parts
  }

  /** Joining after putting a piece in front adds that piece and one separator. */
  lemma JoinCons(p: string, rest: seq<string>, sep: string)
    requires |rest| >= 1
    ensures Join([p] + rest, sep) == p + sep + Join(rest, sep)
  {
    assert ([p] + rest)[1..] == rest;
  }

  /** The first piece is the prefix of a join up to the rest's contribution. */
  lemma JoinHead(parts: seq<string>, sep: string)
    requires |parts| >= 1
    ensures Join(parts, sep) == parts[0] + (if |parts| == 1 then "" else sep + Join(parts[1..], sep))
  {
  }

  /** The pieces of a text split on sep, then joined with sep, and a text without sep
      splits into itself alone. */
  lemma {:induction false} SplitNoSeparator(s: string, sep: char)
    requires sep !in s
    ensures Split(s, sep) == [s]
    decreases |s|
  {
    if |s| > 0 {
      assert sep !in s[1..] by {
        forall i | 0 <= i < |s[1..]| ensures s[1..][i] != sep { assert s[1..][i] == s[i + 1]; }
      }
      SplitNoSeparator(s[1..], sep);
      assert [s[0]] + s[1..] == s;
    }
  }

  /** Splitting around a separator splits each side. */
  lemma {:induction false} SplitConcat(a: string, b: string, sep: char)
    ensures Split(a + [sep] + b, sep) == Split(a, sep) + Split(b, sep)
    decreases |a|
  {
    var s := a + [sep] + b;
    if |a| == 0 {
      assert s == [sep] + b && s[1..] == b;
    } else {
      assert s[0] == a[0] && s[1..] == a[1..] + [sep] + b;
      SplitConcat(a[1..], b, sep);
    }
  }

  /** Split undoes Join for pieces free of the separator. */
  lemma {:induction false} SplitJoin(parts: seq<string>, sep: char)
    requires |parts| >= 1
    requires forall i :: 0 <= i < |parts| ==> sep !in parts[i]
    ensures Split(Join(parts, [sep]), sep) == parts
    decreases |parts|
  {
    if |parts| == 1 {
      SplitNoSeparator(parts[0], sep);
    } else {
      SplitJoin(parts[1..], sep);
      SplitConcat(parts[0], Join(parts[1..], [sep]), sep);
      SplitNoSeparator(parts[0], sep);
      assert parts[0] + [sep] + Join(parts[1..], [sep]) == Join(parts, [sep]);
      assert [parts[0]] + parts[1..] == parts;
    }
  }

  /** Each joined part occurs in the joined text. */
  lemma {:induction false} ContainsJoinedPart(parts: seq<string>, sep: string, i: nat)
    requires i < |parts|
    ensures Contains(Join(parts, sep), parts[i])
    decreases i
  {
    if i == 0 {
      if |parts| > 1 {
        ContainsAppend(parts[0], sep + Join(parts[1..], sep), parts[0]);
        assert parts[0] + sep + Join(parts[1..], sep) == parts[0] + (sep + Join(parts[1..], sep));
      }
    } else {
      ContainsJoinedPart(parts[1..], sep, i - 1);
      ContainsConcat(parts[0] + sep, Join(parts[1..], sep), parts[i]);
    }
  }

  /** `str.repeat(n)` in TypeScript. */
  function Repeat(unit: string, n: nat): (r: string)
    ensures |r| == |unit| * n
  {
    if n == 0 then "" else unit + Repeat(unit, n - 1)
  }

  /** Number of bytes of the UTF-8 encoding of a Unicode scalar value. */
  function Utf8Width(c: char): nat
  {
    if c as int < 0x80 then 1
    else if c as int < 0x800 then 2
    else if c as int < 0x1_0000 then 3
    else 4
  }

  /** Rust's `str::len()`: the UTF-8 byte length, not the number of characters. */
  function Utf8Len(s: string): (n: nat)
    ensures n >= |s|
    ensures n <= 4 * |s|
  {
    if |s| == 0 then 0 else Utf8Width(s[0]) + Utf8Len(s[1..])
  }

  /** Rust's `char::is_whitespace` (the Unicode White_Space property). */
  predicate IsRustWhitespace(c: char)
  {
    (0x09 <= c as int <= 0x0D) || c as int == 0x20 || c as int == 0x85 || c as int == 0xA0
    || c as int == 0x1680 || (0x2000 <= c as int <= 0x200A) || c as int == 0x2028
    || c as int == 0x2029 || c as int == 0x202F || c as int == 0x205F || c as int == 0x3000
  }

  /** The JavaScript `\s` class used by `String.prototype.trim` (WhiteSpace and LineTerminator). */
  predicate IsJsWhitespace(c: char)
  {
    (0x09 <= c as int <= 0x0D) || c as int == 0x20 || c as int == 0xA0 || c as int == 0xFEFF
    || c as int == 0x1680 || (0x2000 <= c as int <= 0x200A) || c as int == 0x2028
    || c as int == 0x2029 || c as int == 0x202F || c as int == 0x205F || c as int == 0x3000
  }

  /** Length of the longest prefix of s made of characters satisfying ws. */
  function LeadingCount(s: string, ws: char -> bool): (n: nat)
    ensures n <= |s|
  {
    if |s| == 0 || !ws(s[0]) then 0 else 1 + LeadingCount(s[1..], ws)
  }

  /** The leading run is made of ws characters and stops at the first other one. */
  lemma {:induction false} LeadingCountSpec(s: string, ws: char -> bool)
    ensures forall i :: 0 <= i < LeadingCount(s, ws) ==> ws(s[i])
    ensures LeadingCount(s, ws) < |s| ==> !ws(s[LeadingCount(s, ws)])
    decreases |s|
  {
    if |s| > 0 && ws(s[0]) {
      LeadingCountSpec(s[1..], ws);
      forall i | 0 <= i < LeadingCount(s, ws) ensures ws(s[i]) {
        if i > 0 { assert s[i] == s[1..][i - 1]; }
      }
    }
  }

  /** s without its leading characters satisfying ws. */
  function TrimStart(s: string, ws: char -> bool): string
  {
    if |s| > 0 && ws(s[0]) then TrimStart(s[1..], ws) else s
  }

  /** s without its trailing characters satisfying ws. */
  function TrimEnd(s: string, ws: char -> bool): string
  {
    if |s| > 0 && ws(s[|s| - 1]) then TrimEnd(s[..|s| - 1], ws) else s
  }

  /** `trim()` with the given whitespace class: both ends stripped. */
  function Trim(s: string, ws: char -> bool): string
  {
    TrimEnd(TrimStart(s, ws), ws)
  }

  /** Stripping the start drops exactly the leading run. */
  lemma {:induction false} TrimStartDrops(s: string, ws: char -> bool)
    ensures TrimStart(s, ws) == s[LeadingCount(s, ws)..]
    decreases |s|
  {
    if |s| > 0 && ws(s[0]) {
      TrimStartDrops(s[1..], ws);
      assert s[1..][LeadingCount(s[1..], ws)..] == s[1 + LeadingCount(s[1..], ws)..];
    }
  }

  /** Characters satisfying ws put in front of s are stripped with its own. */
  lemma {:induction false} TrimStartPrefix(w: string, s: string, ws: char -> bool)
    requires forall i :: 0 <= i < |w| ==> ws(w[i])
    ensures TrimStart(w + s, ws) == TrimStart(s, ws)
    decreases |w|
  {
    if |w| == 0 {
      assert w + s == s;
    } else {
      assert (w + s)[0] == w[0];
      assert (w + s)[1..] == w[1..] + s;
      TrimStartPrefix(w[1..], s, ws);
    }
  }

  /** Rust's `str::trim`. */
  function TrimRust(s: string): string
  {
    Trim(s, IsRustWhitespace)
  }

  /** JavaScript's `String.prototype.trim`. */
  function TrimJs(s: string): string
  {
    Trim(s, IsJsWhitespace)
  }

  /** ASCII upper-casing of one character. */
  function UpperChar(c: char): char
  {
    if 'a' <= c <= 'z' then (c as int - 32) as char else c
  }

  /** Upper-casing used for HTTP method names (ASCII letters only). */
  function Upper(s: string): (r: string)
    ensures |r| == |s|
    ensures forall i :: 0 <= i < |r| ==> !('a' <= r[i] <= 'z')
    ensures forall i :: 0 <= i < |s| && !('a' <= s[i] <= 'z') ==> r[i] == s[i]
    ensures forall i :: 0 <= i < |s| && 'a' <= s[i] <= 'z' ==> r[i] as int + 32 == s[i] as int
  {
    seq(|s|, i requires 0 <= i < |s| => UpperChar(s[i]))
  }

  /** Upper-casing twice is upper-casing once. */
  lemma UpperIdempotent(s: string)
    ensures Upper(Upper(s)) == Upper(s)
  {
  }
}
