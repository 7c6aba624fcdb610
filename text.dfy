/** The JavaScript string operations the pages rely on: ASCII lower-casing,
    substring search, `String.prototype.trim`, `split` on one character and
    `Array.prototype.join`. Strings are sequences of Unicode scalar values. */
module Text {

  /** The characters `String.prototype.trim` removes: ECMAScript WhiteSpace
      (TAB, VT, FF, ZWNBSP and every space separator of category Zs) and
      LineTerminator (LF, CR, LS, PS). */
  predicate IsSpace(c: char) {
    || c == '\t' || c == '\n' || c == '\U{000B}' || c == '\U{000C}' || c == '\r'
    || c == ' ' || c == '\U{00A0}' || c == '\U{1680}'
    || ('\U{2000}' <= c <= '\U{200A}')
    || c == '\U{2028}' || c == '\U{2029}' || c == '\U{202F}' || c == '\U{205F}'
    || c == '\U{3000}' || c == '\U{FEFF}'
  }

  /** A string with no whitespace at either end. */
  predicate IsTrimmed(s: string) {
    s == [] || (!IsSpace(s[0]) && !IsSpace(s[|s| - 1]))
  }

  /** Removes leading whitespace: the result is a suffix of `s`, everything cut
      off is whitespace, and the result does not start with whitespace. */
  function TrimStart(s: string): (r: string)
    ensures |r| <= |s| && r == s[|s| - |r|..]
    ensures forall i :: 0 <= i < |s| - |r| ==> IsSpace(s[i])
    ensures r != [] ==> !IsSpace(r[0])
  {
    if s != [] && IsSpace(s[0]) then TrimStart(s[1..]) else s
  }

  /** Removes trailing whitespace: the result is a prefix of `s`, everything cut
      off is whitespace, and the result does not end with whitespace. */
  function TrimEnd(s: string): (r: string)
    ensures |r| <= |s| && r == s[..|r|]
    ensures forall i :: |r| <= i < |s| ==> IsSpace(s[i])
    ensures r != [] ==> !IsSpace(r[|r| - 1])
  {
    if s != [] && IsSpace(s[|s| - 1]) then TrimEnd(s[..|s| - 1]) else s
  }

  /** `String.prototype.trim`. Its result has no whitespace at either end
      and is `s` itself exactly when `s` has none; `TrimSlice` says which
      part of `s` it is. */
  function Trim(s: string): (r: string)
    ensures IsTrimmed(r)
    ensures |r| <= |s|
    ensures r == s <==> IsTrimmed(s)
  {
    var t := TrimStart(s);
    var r := TrimEnd(t);
    assert IsTrimmed(r) by {
      if r != [] { assert r[0] == t[0]; }
    }
    assert IsTrimmed(s) ==> r == s by {
      if IsTrimmed(s) && s != [] {
        assert t == s;
      }
    }
    r
  }

  /** What `trim` keeps: the first `|r|` characters of `s` after its leading
      run of whitespace. Everything before and after them is whitespace. */
  lemma TrimSlice(s: string)
    ensures var t := TrimStart(s); var r := Trim(s);
            && |s| - |t| + |r| <= |s|
            && r == s[|s| - |t|..][..|r|]
            && (forall i :: 0 <= i < |s| - |t| ==> IsSpace(s[i]))
            && (forall i :: |s| - |t| + |r| <= i < |s| ==> IsSpace(s[i]))
  {
    TrimUnfold(s);
    var t := TrimStart(s);
    SpaceOfCuts(s, t, TrimEnd(t));
  }

  /** `trim` cuts the leading whitespace, then the trailing whitespace. */
  lemma TrimUnfold(s: string)
    ensures Trim(s) == TrimEnd(TrimStart(s))
  {
  }

  /** When the cut-off front of `s` and the cut-off back of `t` are whitespace,
      everything of `s` outside the slice `r` is whitespace. */
  lemma SpaceOfCuts(s: string, t: string, r: string)
    requires |t| <= |s| && t == s[|s| - |t|..]
    requires forall i :: 0 <= i < |s| - |t| ==> IsSpace(s[i])
    requires |r| <= |t|
    requires forall i :: |r| <= i < |t| ==> IsSpace(t[i])
    ensures forall i :: 0 <= i < |s| - |t| ==> IsSpace(s[i])
    ensures forall i :: |s| - |t| + |r| <= i < |s| ==> IsSpace(s[i])
  {
    forall i | |s| - |t| + |r| <= i < |s| ensures IsSpace(s[i]) {
      assert s[i] == t[i - (|s| - |t|)];
    }
  }

  /** A string that is all whitespace trims to the empty string. */
  lemma {:induction false} TrimAllSpace(s: string)
    requires forall i :: 0 <= i < |s| ==> IsSpace(s[i])
    ensures Trim(s) == ""
  {
    assert TrimStart(s) == "";
  }

  /** One leading space in front of a trimmed string is removed by `trim`. */
  lemma TrimSpaceThen(x: string)
    requires IsTrimmed(x)
    ensures Trim(" " + x) == x
  {
    var s := " " + x;
    assert s[1..] == x;
    if x == [] {
      TrimAllSpace(s);
    } else {
      assert TrimStart(s) == TrimStart(x) == x;
    }
  }

  /** One space on each side of a non-empty trimmed string is removed by `trim`. */
  lemma TrimSpaceAround(x: string)
    requires IsTrimmed(x) && x != ""
    ensures Trim(" " + x + " ") == x
  {
    var s := " " + x + " ";
    assert s[1..] == x + " ";
    assert TrimStart(x + " ") == x + " ";
    assert TrimStart(s) == x + " ";
    assert (x + " ")[..|x|] == x;
    assert TrimEnd(x) == x;
    assert TrimEnd(x + " ") == x;
  }

  /** ASCII-only lower-casing of one character. */
  function LowerChar(c: char): (r: char)
    ensures 'A' <= c <= 'Z' ==> r as int == c as int + 32
    ensures !('A' <= c <= 'Z') ==> r == c
  {
    if 'A' <= c <= 'Z' then (c as int + 32) as char else c
  }

  /** ASCII-only lower-casing of a string, character by character. */
  function Lower(s: string): (r: string)
    ensures |r| == |s|
    ensures forall i :: 0 <= i < |s| ==> r[i] == LowerChar(s[i])
  {
    seq(|s|, i requires 0 <= i < |s| => LowerChar(s[i]))
  }

  /** `needle` occurs somewhere in `hay`. */
  predicate Contains(hay: string, needle: string)
    decreases |hay|
  {
    needle <= hay || (hay != [] && Contains(hay[1..], needle))
  }

  /** `needle` occurs in `hay` starting at offset `k`. */
  predicate OccursAt(hay: string, needle: string, k: int) {
    0 <= k <= |hay| - |needle| && hay[k..k + |needle|] == needle
  }

  /** `Contains` agrees with the existence of an offset at which `needle` occurs. */
  lemma {:induction false} ContainsAt(hay: string, needle: string)
    ensures Contains(hay, needle) <==> exists k :: OccursAt(hay, needle, k)
    decreases |hay|
  {
    if needle <= hay {
      assert OccursAt(hay, needle, 0);
    } else if hay == [] {
    } else {
      ContainsAt(hay[1..], needle);
      if exists k :: OccursAt(hay, needle, k) {
        var k :| OccursAt(hay, needle, k);
        assert k != 0;
        assert OccursAt(hay[1..], needle, k - 1);
      }
      if Contains(hay[1..], needle) {
        var k :| OccursAt(hay[1..], needle, k);
        assert OccursAt(hay, needle, k + 1);
      }
    }
  }

  /** Every character of a contained needle occurs in the haystack. */
  lemma {:induction false} ContainsChars(hay: string, needle: string, c: char)
    requires Contains(hay, needle) && c in needle
    ensures c in hay
    decreases |hay|
  {
    if needle <= hay {
      var i :| 0 <= i < |needle| && needle[i] == c;
      assert hay[i] == c;
    } else {
      ContainsChars(hay[1..], needle, c);
    }
  }

  /** A needle with a character the haystack lacks does not occur in it. */
  lemma MissingChar(hay: string, needle: string, c: char)
    requires c in needle && c !in hay
    ensures !Contains(hay, needle)
  {
    if Contains(hay, needle) {
      ContainsChars(hay, needle, c);
    }
  }

  /** A lower-case letter missing from `s` in both cases is missing from `Lower(s)`. */
  lemma LowerMissing(s: string, c: char)
    requires 'a' <= c <= 'z'
    requires c !in s && (c as int - 32) as char !in s
    ensures c !in Lower(s)
  {
    forall i | 0 <= i < |s| ensures Lower(s)[i] != c {
      assert s[i] != c && s[i] != (c as int - 32) as char;
    }
  }

  /** Case-insensitive substring test, as the store's ILIKE '%term%' does for a
      term without pattern characters (ASCII letters only are folded). */
  predicate ContainsIgnoringCase(hay: string, term: string) {
    Contains(Lower(hay), Lower(term))
  }

  /** A term holding a letter that the haystack lacks in either case is not
      contained in it, whatever the case. */
  lemma CaseMissing(hay: string, term: string, c: char)
    requires 'a' <= c <= 'z' && c in Lower(term)
    requires c !in hay && (c as int - 32) as char !in hay
    ensures !ContainsIgnoringCase(hay, term)
  {
    LowerMissing(hay, c);
    MissingChar(Lower(hay), Lower(term), c);
  }

  /** `s.split(sep)` for a one-character separator: always at least one part,
      no part contains the separator. */
  function Split(s: string, sep: char): (r: seq<string>)
    ensures |r| >= 1
    ensures forall i :: 0 <= i < |r| ==> sep !in r[i]
  {
    if s == [] then [""]
    else if s[0] == sep then [""] + Split(s[1..], sep)
    else
      var rest := Split(s[1..], sep);
      [[s[0]] + rest[0]] + rest[1..]
  }

  /** `xs.join(sep)`. */
  function Join(xs: seq<string>, sep: string): (r: string)
    ensures xs == [] ==> r == ""
    ensures |xs| == 1 ==> r == xs[0]
  {
    if xs == [] then ""
    else if |xs| == 1 then xs[0]
    else xs[0] + sep + Join(xs[1..], sep)
  }

  /** Splitting and re-joining with the same separator gives the string back. */
  lemma {:induction false} JoinSplit(s: string, sep: char)
    ensures Join(Split(s, sep), [sep]) == s
  {
    if s == [] {
    } else if s[0] == sep {
      JoinSplit(s[1..], sep);
      var rest := Split(s[1..], sep);
      assert Split(s, sep) == [""] + rest;
      assert ([""] + rest)[1..] == rest;
      assert s == [sep] + s[1..];
    } else {
      JoinSplit(s[1..], sep);
      var rest := Split(s[1..], sep);
      var r := Split(s, sep);
      assert r == [[s[0]] + rest[0]] + rest[1..];
      if |rest| == 1 {
        assert s == [s[0]] + s[1..];
      } else {
        assert Join(rest, [sep]) == rest[0] + [sep] + Join(rest[1..], [sep]);
        assert r[1..] == rest[1..];
        assert s == [s[0]] + s[1..];
      }
    }
  }

  /** Joining parts free of the separator and splitting again gives the parts
      back: `Split` is the inverse of `Join` on such lists. */
  lemma {:induction false} SplitJoin(xs: seq<string>, sep: char)
    requires |xs| >= 1
    requires forall i :: 0 <= i < |xs| ==> sep !in xs[i]
    ensures Split(Join(xs, [sep]), sep) == xs
  {
    SplitNoSep(xs[0], sep);
    if |xs| > 1 {
      var rest := xs[1..];
      forall i | 0 <= i < |rest| ensures sep !in rest[i] {
        assert rest[i] == xs[i + 1];
      }
      SplitJoin(rest, sep);
      JoinCons(xs, [sep]);
      SplitAround(xs[0], Join(rest, [sep]), sep);
      HeadCons(xs);
    }
  }

  /** One step of `join` on a list of at least two parts. */
  lemma JoinCons(xs: seq<string>, sep: string)
    requires |xs| > 1
    ensures Join(xs, sep) == xs[0] + sep + Join(xs[1..], sep)
  {
  }

  /** A non-empty list is its first element followed by the rest. */
  lemma HeadCons(xs: seq<string>)
    requires |xs| >= 1
    ensures xs == [xs[0]] + xs[1..]
  {
  }

  /** A string without the separator splits into itself alone. */
  lemma {:induction false} SplitNoSep(s: string, sep: char)
    requires sep !in s
    ensures Split(s, sep) == [s]
  {
    if s != [] {
      assert sep !in s[1..];
      SplitNoSep(s[1..], sep);
      assert [s[0]] + s[1..] == s;
    }
  }

  /** Splitting at a separator occurrence splits each side independently. */
  lemma {:induction false} SplitAround(a: string, b: string, sep: char)
    ensures Split(a + [sep] + b, sep) == Split(a, sep) + Split(b, sep)
  {
    var s := a + [sep] + b;
    if a == [] {
      assert s[0] == sep && s[1..] == b;
    } else {
      assert s[0] == a[0];
      assert s[1..] == a[1..] + [sep] + b;
      SplitAround(a[1..], b, sep);
      var rest, tail := Split(a[1..], sep), Split(b, sep);
      if a[0] == sep {
        ConsAppend("", rest, tail);
      } else {
        HeadExtendAppend(a[0], rest, tail);
      }
    }
  }

  /** Consing onto a concatenation conses onto its first half. */
  lemma ConsAppend(x: string, xs: seq<string>, ys: seq<string>)
    ensures [x] + (xs + ys) == ([x] + xs) + ys
  {
  }

  /** Extending the first part of a non-empty concatenation extends the first
      part of its first half. */
  lemma HeadExtendAppend(c: char, xs: seq<string>, ys: seq<string>)
    requires |xs| >= 1
    ensures [[c] + (xs + ys)[0]] + (xs + ys)[1..] == ([[c] + xs[0]] + xs[1..]) + ys
  {
    assert (xs + ys)[1..] == xs[1..] + ys;
  }
}
