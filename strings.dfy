/** The Python `str` operations the two input loops are built from:
    `split` on one separator, `replace(c, "")`, `strip()`, `lower()`,
    `startswith` and `endswith` with a one-character prefix or suffix. */
module Strings {

  /** The characters Python's `str.isspace` accepts, which are exactly the
      characters `str.strip()` (with no argument) removes at both ends. */
  predicate IsWhitespace(c: char) {
    var n := c as int;
    (9 <= n <= 13) || (28 <= n <= 32) || n == 0x85 || n == 0xA0 || n == 0x1680
    || (0x2000 <= n <= 0x200A) || n == 0x2028 || n == 0x2029 || n == 0x202F
    || n == 0x205F || n == 0x3000
  }

  function CountChar(s: string, c: char): nat {
    if s == [] then 0 else (if s[0] == c then 1 else 0) + CountChar(s[1..], c)
  }

  lemma {:induction false} CountCharZero(s: string, c: char)
    ensures CountChar(s, c) == 0 <==> c !in s
  {
    if s != [] {
      CountCharZero(s[1..], c);
      assert s == [s[0]] + s[1..];
    }
  }

  /** `s.startswith(c)` and `s.endswith(c)` for a one-character string `c`. */
  predicate StartsWith(s: string, c: char) { |s| > 0 && s[0] == c }

  predicate EndsWith(s: string, c: char) { |s| > 0 && s[|s| - 1] == c }

  /** `sep.join(parts)`. */
  function Join(parts: seq<string>, sep: char): string {
    if parts == [] then []
    else if |parts| == 1 then parts[0]
    else parts[0] + [sep] + Join(parts[1..], sep)
  }

  /** `s.split(sep)` with an explicit separator: one more piece than there
      are separators, no piece contains the separator (empty pieces are
      kept), and joining the pieces back gives `s` again. */
  function Split(s: string, sep: char): (r: seq<string>)
    ensures |r| == CountChar(s, sep) + 1
    ensures forall i :: 0 <= i < |r| ==> sep !in r[i]
    ensures forall i, x :: 0 <= i < |r| && x in r[i] ==> x in s
    ensures Join(r, sep) == s
  {
    if s == [] then [[]]
    else
      var rest := Split(s[1..], sep);
      assert s == [s[0]] + s[1..];
      if s[0] == sep then
        assert ([[]] + rest)[1..] == rest;
        [[]] + rest
      else
        var r := [[s[0]] + rest[0]] + rest[1..];
        assert r[1..] == rest[1..];
        assert forall i :: 1 <= i < |r| ==> r[i] == rest[i];
        r
  }

  lemma {:induction false} SplitPrefix(a: string, b: string, sep: char)
    requires sep !in a
    ensures Split(a + b, sep) == [a + Split(b, sep)[0]] + Split(b, sep)[1..]
  {
    if a == [] {
      assert a + b == b;
      var r := Split(b, sep);
      assert r == [r[0]] + r[1..];
      assert a + r[0] == r[0];
    } else {
      assert (a + b)[0] == a[0];
      assert (a + b)[1..] == a[1..] + b;
      SplitPrefix(a[1..], b, sep);
      assert [a[0]] + (a[1..] + Split(b, sep)[0]) == a + Split(b, sep)[0];
    }
  }

  /** The other half of the round trip: pieces that contain no separator
      come back unchanged from splitting their join. */
  lemma {:induction false} JoinSplit(parts: seq<string>, sep: char)
    requires |parts| >= 1
    requires forall i :: 0 <= i < |parts| ==> sep !in parts[i]
    ensures Split(Join(parts, sep), sep) == parts
  {
    if |parts| == 1 {
      SplitPrefix(parts[0], [], sep);
      assert parts[0] + [] == parts[0];
    } else {
      var rest := Join(parts[1..], sep);
      JoinSplit(parts[1..], sep);
      assert Join(parts, sep) == parts[0] + ([sep] + rest);
      SplitPrefix(parts[0], [sep] + rest, sep);
      assert ([sep] + rest)[0] == sep;
      assert ([sep] + rest)[1..] == rest;
      assert Split([sep] + rest, sep) == [[]] + parts[1..];
      assert parts[0] + [] == parts[0];
      assert parts == [parts[0]] + parts[1..];
    }
  }

  /** `s.replace(c, "")`. */
  function RemoveChar(s: string, c: char): string {
    if s == [] then []
    else if s[0] == c then RemoveChar(s[1..], c)
    else [s[0]] + RemoveChar(s[1..], c)
  }

  /** `replace(c, "")` removes every `c` and keeps every other character,
      as many times as it occurs; a string without `c` is left as it is. */
  lemma {:induction false} RemoveCharSpec(s: string, c: char)
    ensures forall x :: x in RemoveChar(s, c) <==> x in s && x != c
    ensures forall d :: d != c ==> CountChar(RemoveChar(s, c), d) == CountChar(s, d)
    ensures |RemoveChar(s, c)| == |s| - CountChar(s, c)
    ensures c !in s ==> RemoveChar(s, c) == s
  {
    if s != [] {
      var rest := RemoveChar(s[1..], c);
      RemoveCharSpec(s[1..], c);
      assert s == [s[0]] + s[1..];
      if s[0] != c {
        assert ([s[0]] + rest)[1..] == rest;
      }
    }
  }

  lemma {:induction false} RemoveCharAppend(a: string, b: string, c: char)
    ensures RemoveChar(a + b, c) == RemoveChar(a, c) + RemoveChar(b, c)
  {
    if a == [] {
      assert a + b == b;
    } else {
      assert (a + b)[0] == a[0] && (a + b)[1..] == a[1..] + b;
      RemoveCharAppend(a[1..], b, c);
    }
  }

  /** `replace(c, "")` applied to each of `parts`. */
  function RemoveCharEach(parts: seq<string>, c: char): (r: seq<string>)
    ensures |r| == |parts|
    ensures forall i :: 0 <= i < |parts| ==> r[i] == RemoveChar(parts[i], c)
  {
    if parts == [] then [] else [RemoveChar(parts[0], c)] + RemoveCharEach(parts[1..], c)
  }

  /** Removing a character other than the separator from a joined string
      removes it from each part and leaves the separators in place. */
  lemma {:induction false} RemoveCharJoin(parts: seq<string>, sep: char, c: char)
    requires c != sep
    ensures RemoveChar(Join(parts, sep), c) == Join(RemoveCharEach(parts, c), sep)
  {
    var each := RemoveCharEach(parts, c);
    if |parts| > 1 {
      RemoveCharJoin(parts[1..], sep, c);
      RemoveCharAppend(parts[0] + [sep], Join(parts[1..], sep), c);
      RemoveCharAppend(parts[0], [sep], c);
      assert RemoveChar([sep], c) == [sep];
      assert each[1..] == RemoveCharEach(parts[1..], c);
    }
  }

  /** `s.lstrip()` */
  function TrimStart(s: string): (r: string)
    ensures |r| <= |s|
    ensures r == [] || !IsWhitespace(r[0])
  {
    if s != [] && IsWhitespace(s[0]) then TrimStart(s[1..]) else s
  }

  /** What `lstrip` removes is a run of whitespace at the front, and nothing else. */
  lemma {:induction false} TrimStartSlice(s: string)
    ensures TrimStart(s) == s[|s| - |TrimStart(s)|..]
    ensures forall k :: 0 <= k < |s| - |TrimStart(s)| ==> IsWhitespace(s[k])
  {
    if s != [] && IsWhitespace(s[0]) {
      TrimStartSlice(s[1..]);
    }
  }

  /** `s.rstrip()` */
  function TrimEnd(s: string): (r: string)
    ensures |r| <= |s|
    ensures r == [] || !IsWhitespace(r[|r| - 1])
  {
    if s != [] && IsWhitespace(s[|s| - 1]) then TrimEnd(s[..|s| - 1]) else s
  }

  /** What `rstrip` removes is a run of whitespace at the back, and nothing else. */
  lemma {:induction false} TrimEndSlice(s: string)
    ensures TrimEnd(s) == s[..|TrimEnd(s)|]
    ensures forall k :: |TrimEnd(s)| <= k < |s| ==> IsWhitespace(s[k])
  {
    if s != [] && IsWhitespace(s[|s| - 1]) {
      TrimEndSlice(s[..|s| - 1]);
    }
  }

  predicate IsStripped(s: string) {
    s == [] || (!IsWhitespace(s[0]) && !IsWhitespace(s[|s| - 1]))
  }

  /** `s.strip()`: neither end of the result is whitespace. */
  function Strip(s: string): (r: string)
    ensures IsStripped(r)
    ensures |r| <= |s|
  {
    var t := TrimStart(s);
    TrimEndSlice(t);
    TrimEnd(t)
  }

  /** `strip` keeps one contiguous slice of `s`: what lies before it and
      after it is whitespace, and every character of the result is one of `s`. */
  lemma StripSlice(s: string)
    ensures var r, i := Strip(s), |s| - |TrimStart(s)|;
      && i + |r| <= |s| && r == s[i..i + |r|]
      && (forall k :: 0 <= k < i ==> IsWhitespace(s[k]))
      && (forall k :: i + |r| <= k < |s| ==> IsWhitespace(s[k]))
      && (forall x :: x in r ==> x in s)
  {
    var t := TrimStart(s);
    var r := Strip(s);
    var i := |s| - |t|;
    TrimStartSlice(s);
    TrimEndSlice(t);
    assert r == s[i..i + |r|];
    forall x | x in r ensures x in s {
      var k :| 0 <= k < |r| && r[k] == x;
      assert s[i + k] == x;
    }
  }

  lemma StripAllWhitespace(s: string)
    ensures Strip(s) == [] <==> forall k :: 0 <= k < |s| ==> IsWhitespace(s[k])
  {
    StripSlice(s);
    var r := Strip(s);
    var i := |s| - |TrimStart(s)|;
    if r != [] {
      assert s[i] == r[0];
    }
  }

  lemma StripStripped(s: string)
    requires IsStripped(s)
    ensures Strip(s) == s
  {
  }

  lemma StripIdempotent(s: string)
    ensures Strip(Strip(s)) == Strip(s)
  {
    StripStripped(Strip(s));
  }

  /** `c.lower()` for ASCII letters; every other character is left as it is. */
  function LowerChar(c: char): char {
    if 'A' <= c <= 'Z' then (c as int + 32) as char else c
  }

  /** `s.lower()`, character by character. */
  function Lower(s: string): string {
    if s == [] then [] else [LowerChar(s[0])] + Lower(s[1..])
  }

  /** `lower()` keeps the length and lowers each character in place. */
  lemma {:induction false} LowerAt(s: string)
    ensures |Lower(s)| == |s|
    ensures forall i :: 0 <= i < |s| ==> Lower(s)[i] == LowerChar(s[i])
  {
    if s != [] {
      LowerAt(s[1..]);
    }
  }

  lemma {:induction false} TrimStartLower(s: string)
    ensures TrimStart(Lower(s)) == Lower(TrimStart(s))
  {
    if s != [] {
      LowerAt(s);
      assert Lower(s)[1..] == Lower(s[1..]);
      assert IsWhitespace(Lower(s)[0]) == IsWhitespace(s[0]);
      TrimStartLower(s[1..]);
    }
  }

  lemma {:induction false} TrimEndLower(s: string)
    ensures TrimEnd(Lower(s)) == Lower(TrimEnd(s))
  {
    if s != [] {
      LowerAt(s);
      LowerAt(s[..|s| - 1]);
      assert Lower(s)[..|s| - 1] == Lower(s[..|s| - 1]);
      assert IsWhitespace(Lower(s)[|s| - 1]) == IsWhitespace(s[|s| - 1]);
      TrimEndLower(s[..|s| - 1]);
    }
  }

  /** Lowering and stripping can be done in either order. */
  lemma StripLower(s: string)
    ensures Strip(Lower(s)) == Lower(Strip(s))
  {
    TrimStartLower(s);
    TrimEndLower(TrimStart(s));
  }
}
