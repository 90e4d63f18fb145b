/** The handful of Python `str` operations the ingestion code relies on:
    `strip()`, `lower()`, `split(sep)`, `sep.join(parts)` and the ordering used by
    `sorted(..., key=str)`. Strings are sequences of Unicode scalar values. */
module Text {

  /** Python's `str.isspace()`: exactly the characters that `str.strip()` removes. */
  predicate IsSpace(c: char) {
    || c == ' '
    || ('\t' <= c <= '\r')
    || ('\U{1C}' <= c <= '\U{1F}')
    || c == '\U{85}' || c == '\U{A0}' || c == '\U{1680}'
    || ('\U{2000}' <= c <= '\U{200A}')
    || c == '\U{2028}' || c == '\U{2029}' || c == '\U{202F}' || c == '\U{205F}'
    || c == '\U{3000}'
  }

  /** A string with no whitespace at either end, i.e. one that `strip()` leaves alone. */
  predicate IsStripped(s: string) {
    |s| == 0 || (!IsSpace(s[0]) && !IsSpace(s[|s| - 1]))
  }

  function StripLeft(s: string): (r: string)
    ensures |r| <= |s| && r == s[|s| - |r|..]
    ensures forall k :: 0 <= k < |s| - |r| ==> IsSpace(s[k])
    ensures |r| == 0 || !IsSpace(r[0])
  {
    if |s| > 0 && IsSpace(s[0]) then StripLeft(s[1..]) else s
  }

  function StripRight(s: string): (r: string)
    ensures |r| <= |s| && r == s[..|r|]
    ensures forall k :: |r| <= k < |s| ==> IsSpace(s[k])
    ensures |r| == 0 || !IsSpace(r[|r| - 1])
  {
    if |s| > 0 && IsSpace(s[|s| - 1]) then StripRight(s[..|s| - 1]) else s
  }

  /** `r` is the slice of `s` starting at `i` with only whitespace before and
      after it. */
  predicate Trims(s: string, i: nat, r: string)
  {
    && i + |r| <= |s| && r == s[i..i + |r|]
    && (forall k :: 0 <= k < i ==> IsSpace(s[k]))
    && (forall k :: i + |r| <= k < |s| ==> IsSpace(s[k]))
  }

  /** `s.strip()`: the slice of `s` with only whitespace cut from each end, and
      no whitespace left at either end. */
  function Strip(s: string): (r: string)
    ensures IsStripped(r)
    ensures exists i :: Trims(s, i, r)
    ensures IsStripped(s) ==> r == s
  {
    var l := StripLeft(s);
    var r := StripRight(l);
    assert |r| > 0 ==> r[0] == l[0];
    StripTrims(s, l, r);
    r
  }

  lemma StripTrims(s: string, l: string, r: string)
    requires |l| <= |s| && l == s[|s| - |l|..] && forall k :: 0 <= k < |s| - |l| ==> IsSpace(s[k])
    requires |r| <= |l| && r == l[..|r|] && forall k :: |r| <= k < |l| ==> IsSpace(l[k])
    ensures Trims(s, |s| - |l|, r)
  {
    var i := |s| - |l|;
    forall k | i + |r| <= k < |s|
      ensures IsSpace(s[k])
    {
      assert s[k] == l[k - i];
    }
  }

  /** Stripping only removes characters: one absent from `s` is absent from
      `s.strip()`. */
  lemma StripKeepsAbsent(s: string, c: char)
    requires c !in s
    ensures c !in Strip(s)
  {
    var l := StripLeft(s);
    assert c !in l;
  }

  /** Stripping a stripped string with leading whitespace in front of it gives it back. */
  lemma {:induction false} StripLeadingSpace(pad: string, s: string)
    requires forall k :: 0 <= k < |pad| ==> IsSpace(pad[k])
    requires IsStripped(s)
    ensures Strip(pad + s) == s
  {
    if |pad| == 0 {
      assert pad + s == s;
    } else {
      assert (pad + s)[1..] == pad[1..] + s;
      StripLeadingSpace(pad[1..], s);
      assert StripLeft(pad + s) == StripLeft(pad[1..] + s);
    }
  }

  /** The capitals `str.lower()` maps here: ASCII `A`-`Z` and the Latin-1
      capitals `À`-`Þ` except the multiplication sign. */
  predicate IsCapital(c: char)
  {
    ('A' <= c <= 'Z') || ('\U{C0}' <= c <= '\U{DE}' && c != '\U{D7}')
  }

  /** `str.lower()` on one character: a capital becomes the letter 32 code
      points above it, anything else is left alone. */
  function Lower(c: char): (l: char)
    ensures !IsCapital(l)
    ensures l == c <==> !IsCapital(c)
    ensures IsCapital(c) ==> l as int == c as int + 32
  {
    if IsCapital(c) then (c as int + 32) as char else c
  }

  /** `str.lower()`: character by character, so the length is kept; no
      capital is left, and exactly the capitals change. */
  function LowerStr(s: string): (r: string)
    ensures |r| == |s|
    ensures forall k :: 0 <= k < |s| ==> r[k] == Lower(s[k])
    ensures forall k :: 0 <= k < |r| ==> !IsCapital(r[k])
    ensures forall k :: 0 <= k < |s| ==> (r[k] == s[k] <==> !IsCapital(s[k]))
  {
    seq(|s|, k requires 0 <= k < |s| => Lower(s[k]))
  }


  /** Lower-casing neither creates nor removes whitespace, so it commutes with stripping. */
  lemma LowerKeepsStripped(s: string)
    requires IsStripped(s)
    ensures IsStripped(LowerStr(s))
  {
  }

  /** Lower-casing maps only capitals to other characters, and only to
      characters from `a` on: a character below `a` absent from `s` stays absent. */
  lemma LowerKeepsAbsent(s: string, c: char)
    requires c !in s && c < 'a'
    ensures c !in LowerStr(s)
  {
    var r := LowerStr(s);
    forall k | 0 <= k < |r|
      ensures r[k] != c
    {
      assert r[k] == Lower(s[k]);
    }
  }

  /** `sep.join(parts)`. */
  function Join(parts: seq<string>, sep: string): (r: string)
    ensures |parts| > 0 && |sep| == 1 && (forall k :: 0 <= k < |parts| ==> sep[0] !in parts[k]) ==>
              Count(r, sep[0]) == |parts| - 1
  {
    if |parts| == 0 then ""
    else if |parts| == 1 then
      if |sep| == 1 && sep[0] !in parts[0] then CountAbsent(parts[0], sep[0]); parts[0]
      else parts[0]
    else
      var rest := Join(parts[1..], sep);
      if |sep| == 1 && sep[0] !in parts[0] then
        JoinCount(parts[0], sep, rest);
        parts[0] + sep + rest
      else parts[0] + sep + rest
  }

  lemma JoinCount(head: string, sep: string, rest: string)
    requires |sep| == 1 && sep[0] !in head
    ensures Count(head + sep + rest, sep[0]) == Count(rest, sep[0]) + 1
  {
    CountAppend(head + sep, rest, sep[0]);
    CountAppend(head, sep, sep[0]);
    CountAbsent(head, sep[0]);
    assert sep[1..] == [];
  }

  function IndexOf(s: string, c: char): (i: nat)
    requires c in s
    ensures i < |s| && s[i] == c && c !in s[..i]
  {
    if s[0] == c then 0 else 1 + IndexOf(s[1..], c)
  }

  /** `s.split(sep)` for a one-character separator: the separator-free pieces
      between separators, one more piece than there are separators, which
      joined with the separator give back `s`. */
  function Split(s: string, sep: char): (parts: seq<string>)
    ensures |parts| >= 1
    ensures forall k :: 0 <= k < |parts| ==> sep !in parts[k]
    ensures Join(parts, [sep]) == s
    decreases |s|
  {
    if sep !in s then [s]
    else
      var i := IndexOf(s, sep);
      var rest := Split(s[i + 1..], sep);
      assert ([s[..i]] + rest)[1..] == rest;
      assert s == s[..i] + [sep] + s[i + 1..];
      [s[..i]] + rest
  }

  /** Splitting is the inverse of joining separator-free pieces: the pieces are
      recovered exactly, in order. */
  lemma {:induction false} SplitJoin(parts: seq<string>, sep: char)
    requires |parts| >= 1
    requires forall k :: 0 <= k < |parts| ==> sep !in parts[k]
    ensures Split(Join(parts, [sep]), sep) == parts
  {
    if |parts| > 1 {
      var tail := Join(parts[1..], [sep]);
      assert Join(parts, [sep]) == parts[0] + [sep] + tail;
      SplitCons(parts[0], sep, tail);
      SplitJoin(parts[1..], sep);
      assert [parts[0]] + parts[1..] == parts;
    }
  }

  /** Splitting at the first separator: the separator-free prefix becomes the
      first piece. */
  lemma SplitCons(a: string, sep: char, tail: string)
    requires sep !in a
    ensures Split(a + [sep] + tail, sep) == [a] + Split(tail, sep)
  {
    var s := a + [sep] + tail;
    IndexOfFirst(a, sep, tail);
    assert s[|a| + 1..] == tail;
    assert s[..|a|] == a;
  }

  lemma {:induction false} IndexOfFirst(a: string, c: char, b: string)
    requires c !in a
    ensures c in a + [c] + b
    ensures IndexOf(a + [c] + b, c) == |a|
  {
    var s := a + [c] + b;
    assert s[|a|] == c;
    if |a| > 0 {
      assert s[1..] == a[1..] + [c] + b;
      IndexOfFirst(a[1..], c, b);
    }
  }

  /** Number of occurrences of `c` in `s`. */
  function Count(s: string, c: char): nat
  {
    if |s| == 0 then 0 else (if s[0] == c then 1 else 0) + Count(s[1..], c)
  }

  /** `s.split(sep)` has exactly one more piece than `s` has separators. */
  lemma {:induction false} SplitCount(s: string, sep: char)
    ensures |Split(s, sep)| == Count(s, sep) + 1
    decreases |s|
  {
    if sep !in s {
      CountAbsent(s, sep);
    } else {
      var i := IndexOf(s, sep);
      CountAppend(s[..i], s[i..], sep);
      assert s[..i] + s[i..] == s;
      CountAbsent(s[..i], sep);
      assert s[i..][1..] == s[i + 1..];
      SplitCount(s[i + 1..], sep);
    }
  }

  lemma {:induction false} CountAbsent(s: string, c: char)
    requires c !in s
    ensures Count(s, c) == 0
  {
    if |s| > 0 {
      assert c !in s[1..];
      CountAbsent(s[1..], c);
    }
  }

  lemma {:induction false} CountAppend(a: string, b: string, c: char)
    ensures Count(a + b, c) == Count(a, c) + Count(b, c)
  {
    if |a| == 0 {
      assert a + b == b;
    } else {
      assert (a + b)[1..] == a[1..] + b;
      CountAppend(a[1..], b, c);
    }
  }

  /** Python's `<` on `str`: code point by code point, a proper prefix first. */
  predicate LexLess(a: string, b: string)
  {
    |b| > 0 && (|a| == 0 || a[0] < b[0] || (a[0] == b[0] && LexLess(a[1..], b[1..])))
  }

  lemma {:induction false} LexIrreflexive(a: string)
    ensures !LexLess(a, a)
  {
    if |a| > 0 {
      LexIrreflexive(a[1..]);
    }
  }

  lemma {:induction false} LexAsymmetric(a: string, b: string)
    requires LexLess(a, b)
    ensures !LexLess(b, a)
  {
    if |a| > 0 && a[0] == b[0] {
      LexAsymmetric(a[1..], b[1..]);
    }
  }

  lemma {:induction false} LexTransitive(a: string, b: string, c: string)
    requires LexLess(a, b) && LexLess(b, c)
    ensures LexLess(a, c)
  {
    if |a| > 0 && a[0] == b[0] && b[0] == c[0] {
      LexTransitive(a[1..], b[1..], c[1..]);
    }
  }

  lemma {:induction false} LexTotal(a: string, b: string)
    requires a != b
    ensures LexLess(a, b) || LexLess(b, a)
  {
    if |a| > 0 && |b| > 0 && a[0] == b[0] {
      assert a == [a[0]] + a[1..] && b == [b[0]] + b[1..];
      LexTotal(a[1..], b[1..]);
    }
  }
}
