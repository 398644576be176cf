/**
 * String operations the search relies on, as Python performs them: `str.upper()`,
 * `str.replace(' ', '')`, `str.strip()`, the substring test `needle in hay` and the ordering
 * `<=` that `list.sort` uses on string keys. Only `upper` is limited to ASCII letters;
 * `strip` removes Python's full `str.isspace` set.
 */
module Text {

  /** Python's `c.upper()` restricted to ASCII: only `a`..`z` change. */
  function UpperChar(c: char): char
  {
    if 'a' <= c <= 'z' then (c as int - 32) as char else c
  }

  predicate IsLowerAscii(c: char) { 'a' <= c <= 'z' }

  /** `s.upper()` over ASCII text: same length, each character upper-cased in place. */
  function Upper(s: string): (r: string)
    ensures |r| == |s|
    ensures forall i :: 0 <= i < |s| ==> r[i] == UpperChar(s[i])
    ensures forall i :: 0 <= i < |r| ==> !IsLowerAscii(r[i])
  {
    seq(|s|, i requires 0 <= i < |s| => UpperChar(s[i]))
  }

  /** Upper-casing twice is upper-casing once. */
  lemma UpperIdempotent(s: string)
    ensures Upper(Upper(s)) == Upper(s)
  {
    assert forall i :: 0 <= i < |s| ==> UpperChar(UpperChar(s[i])) == UpperChar(s[i]);
  }

  /** `s.replace(' ', '')`: only the ASCII space is removed, other whitespace stays. */
  function RemoveSpaces(s: string): (r: string)
    ensures ' ' !in r
    ensures forall c :: c in r <==> c in s && c != ' '
    ensures |r| <= |s|
    ensures ' ' !in s ==> r == s
  {
    if s == [] then []
    else (if s[0] == ' ' then [] else [s[0]]) + RemoveSpaces(s[1..])
  }

  /** Removing spaces distributes over concatenation. */
  lemma {:induction false} RemoveSpacesAppend(a: string, b: string)
    ensures RemoveSpaces(a + b) == RemoveSpaces(a) + RemoveSpaces(b)
  {
    if a == [] {
      assert a + b == b;
    } else {
      assert (a + b)[0] == a[0];
      assert (a + b)[1..] == a[1..] + b;
      RemoveSpacesAppend(a[1..], b);
    }
  }

  /**
   * The characters Python 3's `str.isspace()` accepts, which are the ones `str.strip()`
   * removes: the ASCII tab to carriage return, the four separators 0x1C-0x1F and the space,
   * then NEL, NO-BREAK SPACE and the Unicode space separators and line/paragraph separators.
   */
  predicate IsWhitespace(c: char)
  {
    var n := c as int;
    9 <= n <= 13 || 28 <= n <= 32 || n == 0x85 || n == 0xA0 || n == 0x1680
    || 0x2000 <= n <= 0x200A || n == 0x2028 || n == 0x2029 || n == 0x202F || n == 0x205F
    || n == 0x3000
  }

  /** `s.lstrip()`: drops the leading whitespace. */
  function StripLeft(s: string): (r: string)
    ensures |r| <= |s| && r == s[|s| - |r|..]
    ensures forall k :: 0 <= k < |s| - |r| ==> IsWhitespace(s[k])
    ensures r != [] ==> !IsWhitespace(r[0])
  {
    if s != [] && IsWhitespace(s[0]) then StripLeft(s[1..]) else s
  }

  /** `s.rstrip()`: drops the trailing whitespace. */
  function StripRight(s: string): (r: string)
    ensures |r| <= |s| && r == s[..|r|]
    ensures forall k :: |r| <= k < |s| ==> IsWhitespace(s[k])
    ensures r != [] ==> !IsWhitespace(r[|r| - 1])
  {
    if s != [] && IsWhitespace(s[|s| - 1]) then StripRight(s[..|s| - 1]) else s
  }

  /** `r` is `s[i..j]` and everything before `i` and from `j` on is whitespace. */
  ghost predicate Cut(r: string, s: string, i: int, j: int)
  {
    0 <= i <= j <= |s| && r == s[i..j]
    && (forall k :: 0 <= k < i ==> IsWhitespace(s[k]))
    && (forall k :: j <= k < |s| ==> IsWhitespace(s[k]))
  }

  /** `r` is `s` with a whitespace prefix and a whitespace suffix cut off. */
  ghost predicate TrimOf(r: string, s: string)
  {
    exists i, j :: Cut(r, s, i, j)
  }

  /**
   * `s.strip()`: the result is a contiguous piece of `s` that neither starts nor ends with
   * whitespace, everything cut off is whitespace, and it is empty exactly when `s` is blank.
   */
  function Strip(s: string): (r: string)
    ensures TrimOf(r, s)
    ensures r != [] ==> !IsWhitespace(r[0]) && !IsWhitespace(r[|r| - 1])
    ensures r == [] <==> forall k :: 0 <= k < |s| ==> IsWhitespace(s[k])
  {
    StripShape(s);
    StripRight(StripLeft(s))
  }

  /** A string that starts and ends with a non-whitespace character is its own strip. */
  lemma StripKeepsTrimmed(s: string)
    requires s != [] && !IsWhitespace(s[0]) && !IsWhitespace(s[|s| - 1])
    ensures Strip(s) == s
  {
    var r := Strip(s);
    var i, j :| Cut(r, s, i, j);
  }

  /** Stripping twice removes nothing more. */
  lemma StripIdempotent(s: string)
    ensures Strip(Strip(s)) == Strip(s)
  {
    var r := Strip(s);
    if r != [] {
      StripKeepsTrimmed(r);
    }
  }

  /** `StripRight(StripLeft(s))` has the shape `Strip` promises. */
  lemma StripShape(s: string)
    ensures var r := StripRight(StripLeft(s));
      && TrimOf(r, s)
      && (r != [] ==> !IsWhitespace(r[0]) && !IsWhitespace(r[|r| - 1]))
      && (r == [] <==> forall k :: 0 <= k < |s| ==> IsWhitespace(s[k]))
  {
    var left := StripLeft(s);
    var r := StripRight(left);
    var i := |s| - |left|;
    StripPieces(s, left, r, i);
    assert 0 <= i <= i + |r| <= |s| && r == s[i..i + |r|];
    assert TrimOf(r, s) by {
      assert Cut(r, s, i, i + |r|);
    }
  }

  /** The facts about `StripRight(StripLeft(s))` that `Strip` promises. */
  lemma StripPieces(s: string, left: string, r: string, i: nat)
    requires i == |s| - |left| && left == s[i..]
    requires forall k :: 0 <= k < i ==> IsWhitespace(s[k])
    requires left != [] ==> !IsWhitespace(left[0])
    requires |r| <= |left| && r == left[..|r|]
    requires forall k :: |r| <= k < |left| ==> IsWhitespace(left[k])
    requires r != [] ==> !IsWhitespace(r[|r| - 1])
    ensures i + |r| <= |s| && r == s[i..i + |r|]
    ensures forall k :: i + |r| <= k < |s| ==> IsWhitespace(s[k])
    ensures r != [] ==> !IsWhitespace(r[0])
    ensures r == [] <==> forall k :: 0 <= k < |s| ==> IsWhitespace(s[k])
  {
    assert r == s[i..i + |r|];
    forall k | i + |r| <= k < |s| ensures IsWhitespace(s[k]) {
      assert s[k] == left[k - i];
    }
    if r == [] {
      assert left == [];
    } else {
      assert r[0] == s[i];
    }
  }

  /** `hay` begins with `prefix`. */
  predicate StartsWith(hay: string, prefix: string)
  {
    |prefix| <= |hay| && hay[..|prefix|] == prefix
  }

  /** `needle` occurs in `hay` starting at index `i`. */
  predicate OccursAt(hay: string, needle: string, i: int)
  {
    0 <= i <= |hay| - |needle| && hay[i..i + |needle|] == needle
  }

  /** Python's `needle in hay` on strings; the empty needle occurs in every string. */
  predicate Contains(hay: string, needle: string)
  {
    StartsWith(hay, needle) || (hay != [] && Contains(hay[1..], needle))
  }

  /** The substring test holds exactly when `needle` occurs at some position of `hay`. */
  lemma {:induction false} ContainsIff(hay: string, needle: string)
    ensures Contains(hay, needle) <==> exists i :: OccursAt(hay, needle, i)
  {
    assert StartsWith(hay, needle) <==> OccursAt(hay, needle, 0);
    if hay != [] {
      ContainsIff(hay[1..], needle);
      forall i | 1 <= i ensures OccursAt(hay, needle, i) <==> OccursAt(hay[1..], needle, i - 1) {
        if i <= |hay| - |needle| {
          TailSlice(hay, i - 1, |needle|);
        }
      }
      if Contains(hay[1..], needle) {
        var j :| OccursAt(hay[1..], needle, j);
        assert OccursAt(hay, needle, j + 1);
      }
    }
  }

  lemma TailSlice(hay: string, i: nat, n: nat)
    requires 1 + i + n <= |hay|
    ensures hay[1..][i..i + n] == hay[i + 1..i + 1 + n]
  {
    var a := hay[1..][i..i + n];
    var b := hay[i + 1..i + 1 + n];
    assert |a| == |b|;
    forall k | 0 <= k < n ensures a[k] == b[k] {
      assert a[k] == hay[1..][i + k] == hay[i + 1 + k];
    }
  }

  /** A needle cannot occur where its first character does not. */
  lemma {:induction false} FirstCharAbsent(hay: string, needle: string)
    requires needle != []
    requires forall i :: 0 <= i <= |hay| - |needle| ==> hay[i] != needle[0]
    ensures !Contains(hay, needle)
  {
    if |needle| <= |hay| {
      assert hay[..|needle|][0] == hay[0];
    }
    if hay != [] {
      forall i | 0 <= i <= |hay[1..]| - |needle| ensures hay[1..][i] != needle[0] {
        assert hay[1..][i] == hay[i + 1];
      }
      FirstCharAbsent(hay[1..], needle);
    }
  }

  /** Python's `a <= b` on strings: lexicographic by code point, a prefix sorts first. */
  predicate LexLe(a: string, b: string)
  {
    a == [] || (b != [] && (a[0] < b[0] || (a[0] == b[0] && LexLe(a[1..], b[1..]))))
  }

  lemma {:induction false} LexLeReflexive(a: string)
    ensures LexLe(a, a)
  {
    if a != [] {
      LexLeReflexive(a[1..]);
    }
  }

  lemma {:induction false} LexLeTotal(a: string, b: string)
    ensures LexLe(a, b) || LexLe(b, a)
  {
    if a != [] && b != [] && a[0] == b[0] {
      LexLeTotal(a[1..], b[1..]);
    }
  }

  lemma {:induction false} LexLeTransitive(a: string, b: string, c: string)
    requires LexLe(a, b) && LexLe(b, c)
    ensures LexLe(a, c)
  {
    if a != [] && b != [] && c != [] && a[0] == b[0] && b[0] == c[0] {
      LexLeTransitive(a[1..], b[1..], c[1..]);
    }
  }

  lemma {:induction false} LexLeAntisymmetric(a: string, b: string)
    requires LexLe(a, b) && LexLe(b, a)
    ensures a == b
  {
    if a != [] && b != [] {
      LexLeAntisymmetric(a[1..], b[1..]);
      assert a == [a[0]] + a[1..];
      assert b == [b[0]] + b[1..];
    }
  }
}
